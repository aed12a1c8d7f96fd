/** ADTS headers byte by byte: what the builder holds, what the parser makes of any header, and which frames get one. */
module AdtsWire {
  import opened Octets
  import opened Adts

  // ----- The builder

  /** The seven bytes for a rate number, a channel count and a frame length. */
  function HeaderBytes(rate: nat, channels: nat, length: nat): (b: bytes)
    requires rate < 16
    ensures |b| == 7
  {
    [0xFF, 0xF1, 64 + 4 * rate, channels % 4 * 64 + length / 2048 % 4, length / 8 % 256, length % 8 * 32 + 0x1F, 0xFC]
  }

  lemma LastRateSmall(calls: seq<Call>)
    ensures LastRate(calls) < 16
  {
  }

  lemma RateBytes(b: byte, rate: nat)
    requires rate < 16 && b / 64 == 1 && b % 4 == 0
    ensures rate * 4 + (b / 64 * 64 + b % 4) == 64 + 4 * rate
  {
  }

  lemma RateByte(rate: nat)
    requires rate < 16
    ensures (64 + 4 * rate) / 64 == 1 && (64 + 4 * rate) % 4 == 0
  {
  }

  lemma MixedByte(c: nat, l: nat, x: nat)
    requires c < 4 && l < 4 && x < 4
    ensures x * 64 + (c * 64 + l) % 64 == x * 64 + l
    ensures x + (c * 64 + l) / 4 * 4 == c * 64 + x
  {
    assert (c * 64 + l) % 64 == l && (c * 64 + l) / 4 == c * 16;
  }

  lemma LengthByte(a: nat, b: nat)
    requires a < 8 && b < 8
    ensures b * 32 + (a * 32 + 0x1F) % 32 == b * 32 + 0x1F
  {
    assert (a * 32 + 0x1F) % 32 == 0x1F;
  }

  /** The builder's buffer of ten bytes: the header, and three zeros that are never used. */
  predicate Spells(d: bytes, rate: nat, channels: nat, length: nat)
    requires rate < 16
  {
    && |d| == 10 && d[0] == 0xFF && d[1] == 0xF1 && d[2] == 64 + 4 * rate
    && d[3] == channels % 4 * 64 + length / 2048 % 4 && d[4] == length / 8 % 256
    && d[5] == length % 8 * 32 + 0x1F && d[6] == 0xFC && d[7] == 0 && d[8] == 0 && d[9] == 0
  }

  lemma SpelledBytes(d: bytes, rate: nat, channels: nat, length: nat)
    requires rate < 16 && Spells(d, rate, channels, length)
    ensures d[..7] == HeaderBytes(rate, channels, length)
  {
  }

  lemma ApplyRate(d: Header, rate: nat, index: nat, channels: nat, length: nat)
    requires rate < 16 && index < 16 && Spells(d, rate, channels, length)
    ensures Spells(SetRateIndex(d, index), index, channels, length)
  {
    RateByte(rate);
    RateBytes(d[2], index);
  }

  lemma ApplyChannels(d: Header, rate: nat, channels: nat, length: nat, v: u16)
    requires rate < 16 && Spells(d, rate, channels, length)
    ensures Spells(SetChannels(d, v), rate, v, length)
  {
    MixedByte(channels % 4, length / 2048 % 4, v % 4);
  }

  lemma ApplyLength(d: Header, rate: nat, channels: nat, length: nat, v: u16)
    requires rate < 16 && Spells(d, rate, channels, length)
    ensures Spells(SetLength(d, v), rate, channels, v)
  {
    MixedByte(channels % 4, length / 2048 % 4, v / 2048 % 4);
    LengthByte(length % 8, v % 8);
  }

  /** After any sequence of setter calls, every byte of the builder's buffer. */
  lemma {:induction false} BuiltBytes(calls: seq<Call>)
    ensures LastRate(calls) < 16
    ensures Spells(Built(calls), LastRate(calls), LastChannels(calls), LastLength(calls))
    ensures Built(calls)[..7] == HeaderBytes(LastRate(calls), LastChannels(calls), LastLength(calls))
  {
    hide SetRateIndex, SetChannels, SetLength, RateIndex, Fresh, HeaderBytes, Spells;
    LastRateSmall(calls);
    if calls == [] {
      FreshSpells();
    } else {
      var before, c := calls[..|calls| - 1], calls[|calls| - 1];
      BuiltBytes(before);
      var rate, channels, length := LastRate(before), LastChannels(before), LastLength(before);
      match c {
        case Rate(r) => ApplyRate(Built(before), rate, RateIndex(r), channels, length);
        case Channels(n) => ApplyChannels(Built(before), rate, channels, length, n);
        case Length(n) => ApplyLength(Built(before), rate, channels, length, n);
      }
    }
    SpelledBytes(Built(calls), LastRate(calls), LastChannels(calls), LastLength(calls));
  }

  lemma FreshSpells()
    ensures Spells(Fresh(), 0, 0, 0)
  {
    hide Fresh;
    FreshBytes();
  }

  /** The thirteen rates and their numbers; 13 stands for every other rate. */
  lemma RateNumbers(rate: u32)
    ensures RateIndex(96000) == 0 && RateIndex(88200) == 1 && RateIndex(64000) == 2 && RateIndex(48000) == 3
    ensures RateIndex(44100) == 4 && RateIndex(32000) == 5 && RateIndex(24000) == 6 && RateIndex(22050) == 7
    ensures RateIndex(16000) == 8 && RateIndex(12000) == 9 && RateIndex(11025) == 10 && RateIndex(8000) == 11
    ensures RateIndex(7350) == 12
    ensures rate !in {96000, 88200, 64000, 48000, 44100, 32000, 24000, 22050, 16000, 12000, 11025, 8000, 7350} ==> RateIndex(rate) == 13
  {
  }

  // ----- The parser

  predicate InRange(f: Fields) {
    && f.id < 2 && f.layer < 4 && f.protectionAbsent < 2 && f.profile < 4 && f.rateIndex < 16 && f.privateBit < 2
    && f.channels < 8 && f.marks.original < 2 && f.marks.home < 2 && f.marks.copyrightBit < 2
    && f.frameLength < 8192 && f.fullness < 2048 && f.rawBlocks < 4
  }

  /** Twelve one bits, then every field in its place; `start` is the bit the copyright start has in the format. */
  function AnyHeader(f: Fields, start: nat): (b: bytes)
    requires InRange(f) && start < 2
    ensures |b| == 7
  {
    var m := f.marks;
    [0xFF, 0xF0 + f.id * 8 + f.layer * 2 + f.protectionAbsent,
     f.profile * 64 + f.rateIndex * 4 + f.privateBit * 2 + f.channels / 4,
     f.channels % 4 * 64 + m.original * 32 + m.home * 16 + m.copyrightBit * 8 + start * 4 + f.frameLength / 2048,
     f.frameLength / 8 % 256, f.frameLength % 8 * 32 + f.fullness / 64, f.fullness % 64 * 4 + f.rawBlocks]
  }

  lemma SecondByte(id: nat, layer: nat, absent: nat)
    requires id < 2 && layer < 4 && absent < 2
    ensures var b := 0xF0 + id * 8 + layer * 2 + absent;
            b / 16 == 0xF && b / 8 % 2 == id && b / 2 % 4 == layer && b % 2 == absent
  {
    var b := 0xF0 + id * 8 + layer * 2 + absent;
    DivModUnique(b, 8, 30 + id, layer * 2 + absent);
    DivModUnique(b, 2, 120 + 4 * id + layer, absent);
  }

  lemma ThirdByte(profile: nat, rate: nat, private': nat, high: nat)
    requires profile < 4 && rate < 16 && private' < 2 && high < 2
    ensures var b := profile * 64 + rate * 4 + private' * 2 + high;
            b / 64 == profile && b / 4 % 16 == rate && b / 2 % 2 == private' && b % 2 == high
  {
    var b := profile * 64 + rate * 4 + private' * 2 + high;
    DivModUnique(b, 64, profile, rate * 4 + private' * 2 + high);
    DivModUnique(b, 4, profile * 16 + rate, private' * 2 + high);
    DivModUnique(b, 2, profile * 32 + rate * 2 + private', high);
  }

  lemma FourthByte(c: nat, original: nat, home: nat, bit: nat, start: nat, top: nat)
    requires c < 4 && original < 2 && home < 2 && bit < 2 && start < 2 && top < 4
    ensures var b := c * 64 + original * 32 + home * 16 + bit * 8 + start * 4 + top;
            b / 64 == c && b / 32 % 2 == original && b / 16 % 2 == home && b / 8 % 2 == bit && b % 4 == top && b % 2 == top % 2
  {
    var b := c * 64 + original * 32 + home * 16 + bit * 8 + start * 4 + top;
    DivModUnique(b, 64, c, original * 32 + home * 16 + bit * 8 + start * 4 + top);
    DivModUnique(b, 32, c * 2 + original, home * 16 + bit * 8 + start * 4 + top);
    DivModUnique(b, 16, c * 4 + original * 2 + home, bit * 8 + start * 4 + top);
    DivModUnique(b, 8, c * 8 + original * 4 + home * 2 + bit, start * 4 + top);
    DivModUnique(b, 4, c * 16 + original * 8 + home * 4 + bit * 2 + start, top);
    DivModUnique(b, 2, c * 32 + original * 16 + home * 8 + bit * 4 + start * 2 + top / 2, top % 2);
  }

  lemma LastBytes(length: nat, fullness: nat, raw: nat)
    requires length < 8192 && fullness < 2048 && raw < 4
    ensures (length % 8 * 32 + fullness / 64) / 32 == length % 8 && (length % 8 * 32 + fullness / 64) % 32 == fullness / 64
    ensures (fullness % 64 * 4 + raw) / 4 == fullness % 64 && (fullness % 64 * 4 + raw) % 4 == raw
    ensures length / 2048 * 2048 + length / 8 % 256 * 8 + length % 8 == length
    ensures fullness / 64 * 64 + fullness % 64 == fullness
  {
    DivModUnique(length % 8 * 32 + fullness / 64, 32, length % 8, fullness / 64);
    DivModUnique(fullness % 64 * 4 + raw, 4, fullness % 64, raw);
    ThirteenBits(length);
    assert length % 8192 == length && length / 2048 % 4 == length / 2048;
  }

  /** Whatever the fields, the parser reads them back, but for the copyright start, for which it reads a bit of the length. */
  lemma EveryField(f: Fields, start: nat)
    requires InRange(f) && start < 2
    ensures Parse(AnyHeader(f, start)) == Some(f.(marks := f.marks.(copyrightStart := f.frameLength / 2048 % 2)))
  {
    hide Parse, MarksOf, ByteAt;
    var d := AnyHeader(f, start);
    SecondByte(f.id, f.layer, f.protectionAbsent);
    ThirdByte(f.profile, f.rateIndex, f.privateBit, f.channels / 4);
    FourthByte(f.channels % 4, f.marks.original, f.marks.home, f.marks.copyrightBit, start, f.frameLength / 2048);
    LastBytes(f.frameLength, f.fullness, f.rawBlocks);
    FieldsAre(d);
  }

  lemma FieldsAre(d: Header)
    requires d[0] == 0xFF && d[1] / 16 == 0xF
    ensures var b1: nat, b2: nat, b3: nat, b4: nat, b5: nat, b6: nat := d[1], d[2], d[3], d[4], d[5], d[6];
            Parse(d) == Some(Fields(b1 / 8 % 2, b1 / 2 % 4, b1 % 2, b2 / 64, b2 / 4 % 16, b2 / 2 % 2, b2 % 2 * 4 + b3 / 64,
                                    Marks(b3 / 32 % 2, b3 / 16 % 2, b3 / 8 % 2, b3 % 2),
                                    b3 % 4 * 2048 + b4 * 8 + b5 / 32, b5 % 32 * 64 + b6 / 4, b6 % 4))
  {
  }

  /** A header is one exactly if it begins with twelve one bits. */
  lemma SyncWordNeeded(d: Header)
    ensures Parse(d).Some? <==> d[0] == 0xFF && 0xF0 <= d[1] <= 0xFF
  {
  }

  // ----- Frames

  /** Which frames get a header: AAC from RTMP and RTSP always, other AAC unless it begins with twelve one bits, nothing else. */
  lemma HeaderNeeded(isAac: bool, source: Source, b0: byte, b1: byte)
    ensures !isAac ==> !NeedsHeader(isAac, source, b0, b1)
    ensures isAac && (source == RtmpSource || source == RtspSource) ==> NeedsHeader(isAac, source, b0, b1)
    ensures isAac && source != RtmpSource && source != RtspSource ==>
              (NeedsHeader(isAac, source, b0, b1) <==> b0 != 0xFF || b1 < 0xF0)
  {
  }

  /** A frame with its header: seven bytes that hold the length of the whole, cut to 16 bits first, then the packet. */
  lemma FramedBytes(calls: seq<Call>, packet: bytes)
    ensures LastRate(calls) < 16
    ensures Framed(true, Built(calls), packet)
            == HeaderBytes(LastRate(calls), LastChannels(calls), (|packet| + 7) % 0x10000) + packet
    ensures Framed(false, Built(calls), packet) == packet
  {
    hide SetLength, Built, HeaderBytes;
    var n := (|packet| + 7) % 0x10000;
    var more := calls + [Length(n)];
    assert more[..|calls|] == calls;
    BuiltSnoc(calls, Length(n));
    BuiltBytes(more);
    LastRateSmall(calls);
  }

  /** Every AAC frame of two bytes or more is handed on with twelve one bits in front. */
  lemma HandedOnWithHeader(calls: seq<Call>, source: Source, packet: bytes)
    requires |packet| >= 2
    ensures var frame := Framed(NeedsHeader(true, source, packet[0], packet[1]), Built(calls), packet);
            frame[0] == 0xFF && 0xF0 <= frame[1]
  {
    hide Framed, NeedsHeader, Built;
    HeaderNeeded(true, source, packet[0], packet[1]);
    FramedBytes(calls, packet);
  }

  /** An AAC output gets a frame without its first seven bytes, if it has as many; any other gets it whole. */
  lemma StrippedBytes(frame: bytes)
    ensures Stripped(false, frame) == frame
    ensures |frame| < 7 ==> Stripped(true, frame) == frame
    ensures |frame| >= 7 ==> Stripped(true, frame) == frame[7..]
  {
  }
}
