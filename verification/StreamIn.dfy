/** The stream reader: its ADTS header object, its pacing clock and its frame buffer. */
module StreamIn {
  import opened Octets
  import opened Buffers
  import opened Adts
  import opened Pacing

  class AacAdts {
    const data: array<byte>
    var profile: nat
    var sampleRateIndex: nat

    /** The header starts out with rate number 0, although the object believes in number 4. */
    constructor ()
      ensures fresh(data) && data.Length == 10 && data[..] == Fresh()
      ensures sampleRateIndex == 4 && profile == 1
    {
      data := new byte[10](_ => 0);
      profile := 1;
      sampleRateIndex := 4;
      new;
      assert data[..] == NEW_BUFFER;
      SyncWord(0xFFF);
      Id(1);
      Profile(1);
      AdtsBufferFullness(0x7FF);
    }

    method SyncWord(v: u16)
      requires data.Length == 10
      modifies data
      ensures data[..] == SetSyncWord(old(data[..]), v)
    {
      data[0] := v / 16 % 256;
      data[1] := v % 16 * 16 + data[1] % 16;
    }

    method Id(v: u16)
      requires data.Length == 10
      modifies data
      ensures data[..] == SetId(old(data[..]), v)
    {
      data[1] := WithIdBit(data[1], v);
    }

    method Profile(v: u16)
      requires data.Length == 10
      modifies data
      ensures data[..] == SetProfile(old(data[..]), v)
    {
      data[2] := v % 4 * 64 + data[2] % 64;
    }

    method SampleRateIndex(rate: u32)
      requires data.Length == 10
      modifies data, this`sampleRateIndex
      ensures data[..] == Apply(old(data[..]), Rate(rate)) && sampleRateIndex == RateIndex(rate)
    {
      var tmp := RateIndex(rate);
      sampleRateIndex := tmp;
      data[2] := tmp * 4 + (data[2] / 64 * 64 + data[2] % 4);
    }

    method ChannelConfiguration(v: u16)
      requires data.Length == 10
      modifies data
      ensures data[..] == Apply(old(data[..]), Channels(v))
    {
      data[3] := v % 4 * 64 + data[3] % 64;
    }

    method AacFrameLength(v: u16)
      requires data.Length == 10
      modifies data
      ensures data[..] == Apply(old(data[..]), Length(v))
    {
      data[3] := v / 2048 % 4 + data[3] / 4 * 4;
      data[4] := v / 8 % 256;
      data[5] := v % 8 * 32 + data[5] % 32;
    }

    method AdtsBufferFullness(v: u16)
      requires data.Length == 10
      modifies data
      ensures data[..] == SetFullness(old(data[..]), v)
    {
      data[5] := v / 64 % 32 + data[5] / 32 * 32;
      data[6] := v % 64 * 4 + data[6] % 4;
    }
  }

  class Reader {
    var starttime: int
    var pauseTime: int
    var pauseTick: int
    var audioCurrent: int
    var frameDuration: int
    var startPtsTime: int
    var seekedFile: bool

    const adts: AacAdts
    const isAac: bool
    const source: Source
    var frameBuffer: array<byte>

    function View(): State
      reads this
    {
      State(starttime, pauseTime, pauseTick, audioCurrent, frameDuration, startPtsTime, seekedFile)
    }

    predicate Valid()
      reads this
    {
      adts.data.Length == 10 && frameBuffer != adts.data
    }

    /** A reader whose file has been opened. */
    constructor (now: int, isAac: bool, source: Source, rate: u32, channels: u16)
      ensures Valid() && View() == Opened(now) && this.isAac == isAac && this.source == source
      ensures fresh(frameBuffer) && fresh(adts) && fresh(adts.data)
      ensures isAac ==> adts.data[..] == Built([Rate(rate), Channels(channels)])
    {
      pauseTime, pauseTick, audioCurrent, frameDuration, startPtsTime, seekedFile := 0, 0, 0, 0, UNSET, false;
      starttime := now;
      this.isAac, this.source := isAac, source;
      adts := new AacAdts();
      frameBuffer := new byte[1600];
      new;
      if isAac {
        adts.SampleRateIndex(rate);
        adts.ChannelConfiguration(channels);
        BuiltTwice(rate, channels);
      }
    }

    method Pause(now: int)
      modifies this`pauseTick
      ensures View() == Step(old(View()), Event.Pause(now))
    {
      pauseTick := now;
    }

    method Resume(now: int)
      modifies this`pauseTime, this`pauseTick
      ensures View() == Resumed(old(View()), now)
    {
      if pauseTick != 0 {
        pauseTime := pauseTime + (now - pauseTick);
        pauseTick := 0;
      }
    }

    method SeekFile(now: int)
      modifies this`seekedFile
      ensures View() == Step(old(View()), Seek(now))
    {
      seekedFile := true;
    }

    /** Paces one frame: how long it sleeps before the frame is handed on. */
    method AudioTime(media: int, now: int, resumed: int, ghost released: int) returns (sleep: nat)
      modifies this`starttime, this`pauseTime, this`pauseTick, this`audioCurrent, this`frameDuration, this`startPtsTime, this`seekedFile
      ensures View() == Step(old(View()), Frame(media, now, resumed, released))
      ensures sleep == SleepFor(View(), now)
    {
      sleep := 0;
      if startPtsTime == UNSET {
        startPtsTime := media;
      }
      var pts := media - startPtsTime;
      frameDuration := pts - audioCurrent;
      if seekedFile {
        pauseTime := 0;
        starttime := now - pts;
        seekedFile := false;
      }
      Resume(resumed);
      var sdur := now - starttime - pauseTime;
      if sdur < pts {
        sleep := (pts - sdur) % UINT32;
      }
      audioCurrent := pts;
    }

    /** Lets the last frame play out. */
    method LastFrameDelay(now: int, resumed: int, ghost released: int) returns (sleep: nat)
      modifies this`pauseTime, this`pauseTick, this`audioCurrent
      ensures View() == Step(old(View()), Last(now, resumed, released))
      ensures sleep == SleepFor(View(), now)
    {
      sleep := 0;
      Resume(resumed);
      var sdur := now - starttime - pauseTime;
      var pts := audioCurrent + frameDuration;
      if sdur < pts {
        sleep := (pts - sdur) % UINT32;
      }
      audioCurrent := pts;
    }

    /** The packet in the frame buffer, behind a header if it needs one; the buffer grows when it is too small. */
    method ReadData(packet: bytes, b0: byte, b1: byte) returns (length: nat)
      requires Valid()
      requires |packet| > 0 ==> b0 == packet[0]
      requires |packet| > 1 ==> b1 == packet[1]
      modifies this`frameBuffer, frameBuffer, adts.data
      ensures Valid() && length <= frameBuffer.Length && (frameBuffer == old(frameBuffer) || fresh(frameBuffer))
      ensures var needs := NeedsHeader(isAac, source, b0, b1);
              && frameBuffer[..length] == Framed(needs, old(adts.data[..]), packet)
              && adts.data[..] == if needs then Apply(old(adts.data[..]), Length((|packet| + HEADER_SIZE) % 0x10000))
                                  else old(adts.data[..])
    {
      hide SetLength, NeedsHeader, Holds;
      var addAdts := NeedsHeader(isAac, source, b0, b1);
      if addAdts {
        length := |packet| + HEADER_SIZE;
        adts.AacFrameLength(length % 0x10000);
      } else {
        length := |packet|;
      }
      if length > frameBuffer.Length {
        frameBuffer := new byte[length + 256];
      }
      ghost var frame := packet;
      if addAdts {
        var header := adts.data[..HEADER_SIZE];
        CopyIn(header, frameBuffer, 0);
        CopyIn(packet, frameBuffer, HEADER_SIZE);
        HeaderThenPacket(frameBuffer, header, packet);
        frame := header + packet;
      } else {
        CopyIn(packet, frameBuffer, 0);
      }
      HoldsAll(frameBuffer, frame);
    }
  }

  lemma HeaderThenPacket(buf: array<byte>, header: bytes, packet: bytes)
    requires Holds(buf, 0, header) && Holds(buf, |header|, packet)
    ensures Holds(buf, 0, header + packet)
  {
    HoldsJoin(buf, 0, header, packet);
  }

  lemma BuiltTwice(rate: u32, channels: u16)
    ensures Built([Rate(rate), Channels(channels)]) == Apply(Apply(Fresh(), Rate(rate)), Channels(channels))
  {
    BuiltSnoc([], Rate(rate));
    BuiltSnoc([Rate(rate)], Channels(channels));
    assert [] + [Rate(rate)] == [Rate(rate)];
    assert [Rate(rate)] + [Channels(channels)] == [Rate(rate), Channels(channels)];
  }
}
