/**
 The seven-byte ADTS header in front of an AAC frame (section 6.2 of ISO/IEC 13818-7): the builder
 that sets bit ranges of a byte buffer, and the parser.
 */
module Adts {
  import opened Octets

  const HEADER_SIZE := 7

  type Header = d: bytes | |d| >= HEADER_SIZE witness [0, 0, 0, 0, 0, 0, 0]

  // ----- The builder

  /** v & 1 merged into b, after bit 3 of b has been cleared. */
  function WithIdBit(b: byte, v: u16): byte {
    var cleared := b - b / 8 % 2 * 8;
    if v % 2 == 1 && cleared % 2 == 0 then cleared + 1 else cleared
  }

  function SetSyncWord(d: Header, v: u16): Header {
    d[0 := v / 16 % 256][1 := v % 16 * 16 + d[1] % 16]
  }

  function SetId(d: Header, v: u16): Header {
    d[1 := WithIdBit(d[1], v)]
  }

  function SetProfile(d: Header, v: u16): Header {
    d[2 := v % 4 * 64 + d[2] % 64]
  }

  /** 13 for every rate the format has no number for. */
  function RateIndex(rate: u32): (i: nat)
    ensures i <= 13
  {
    if rate == 96000 then 0 else if rate == 88200 then 1 else if rate == 64000 then 2 else if rate == 48000 then 3
    else if rate == 44100 then 4 else if rate == 32000 then 5 else if rate == 24000 then 6 else if rate == 22050 then 7
    else if rate == 16000 then 8 else if rate == 12000 then 9 else if rate == 11025 then 10 else if rate == 8000 then 11
    else if rate == 7350 then 12 else 13
  }

  function SetRateIndex(d: Header, index: nat): Header
    requires index < 16
  {
    d[2 := index * 4 + (d[2] / 64 * 64 + d[2] % 4)]
  }

  function SetChannels(d: Header, v: u16): Header {
    d[3 := v % 4 * 64 + d[3] % 64]
  }

  function SetLength(d: Header, v: u16): Header {
    d[3 := v / 2048 % 4 + d[3] / 4 * 4][4 := v / 8 % 256][5 := v % 8 * 32 + d[5] % 32]
  }

  function SetFullness(d: Header, v: u16): Header {
    d[5 := v / 64 % 32 + d[5] / 32 * 32][6 := v % 64 * 4 + d[6] % 4]
  }

  const NEW_BUFFER: Header := [0, 0, 0, 0, 0, 0, 0, 0, 0, 0]

  function Fresh(): Header {
    SetFullness(SetProfile(SetId(SetSyncWord(NEW_BUFFER, 0xFFF), 1), 1), 0x7FF)
  }

  datatype Call = Rate(rate: u32) | Channels(channels: u16) | Length(length: u16)

  function Apply(d: Header, c: Call): Header {
    match c
    case Rate(r) => SetRateIndex(d, RateIndex(r))
    case Channels(n) => SetChannels(d, n)
    case Length(n) => SetLength(d, n)
  }

  function Built(calls: seq<Call>): Header {
    if calls == [] then Fresh() else Apply(Built(calls[..|calls| - 1]), calls[|calls| - 1])
  }

  // ----- The parser

  datatype Fields = Fields(id: nat, layer: nat, protectionAbsent: nat, profile: nat, rateIndex: nat, privateBit: nat,
                           channels: nat, marks: Marks, frameLength: nat, fullness: nat, rawBlocks: nat)

  datatype Marks = Marks(original: nat, home: nat, copyrightBit: nat, copyrightStart: nat)

  function ByteAt(d: Header, i: nat): nat
    requires i < HEADER_SIZE
  {
    d[i]
  }

  /** The shift binds tighter than the mask, so the last mark is read from the lowest bit. */
  function MarksOf(b: nat): Marks {
    Marks(b / 32 % 2, b / 16 % 2, b / 8 % 2, b % 2)
  }

  /** None when the frame does not begin with twelve one bits. */
  function Parse(d: Header): Option<Fields> {
    if d[0] == 0xFF && d[1] / 16 == 0xF then
      Some(Fields(ByteAt(d, 1) / 8 % 2, ByteAt(d, 1) / 2 % 4, ByteAt(d, 1) % 2, ByteAt(d, 2) / 64, ByteAt(d, 2) / 4 % 16,
                  ByteAt(d, 2) / 2 % 2, ByteAt(d, 2) % 2 * 4 + ByteAt(d, 3) / 64, MarksOf(ByteAt(d, 3)),
                  ByteAt(d, 3) % 4 * 2048 + ByteAt(d, 4) * 8 + ByteAt(d, 5) / 32,
                  ByteAt(d, 5) % 32 * 64 + ByteAt(d, 6) / 4, ByteAt(d, 6) % 4))
    else None
  }

  /** GetAdtsSampleRate; 0 for a number without a rate. */
  function SampleRate(index: nat): nat {
    var table := [96000, 88200, 64000, 48000, 44100, 32000, 24000, 22050, 16000, 12000, 11025, 8000, 7350];
    if index >= 13 then 0 else table[index]
  }

  /** The parser's table inverts the builder's choice exactly for the rates the format knows. */
  lemma RateReadBack(rate: u32)
    ensures SampleRate(RateIndex(rate)) == if RateIndex(rate) < 13 then rate else 0
  {
  }

  // ----- What the parser reads back

  function LastRate(calls: seq<Call>): nat {
    if calls == [] then 0
    else if calls[|calls| - 1].Rate? then RateIndex(calls[|calls| - 1].rate)
    else LastRate(calls[..|calls| - 1])
  }

  function LastChannels(calls: seq<Call>): nat {
    if calls == [] then 0
    else if calls[|calls| - 1].Channels? then calls[|calls| - 1].channels
    else LastChannels(calls[..|calls| - 1])
  }

  function LastLength(calls: seq<Call>): nat {
    if calls == [] then 0
    else if calls[|calls| - 1].Length? then calls[|calls| - 1].length
    else LastLength(calls[..|calls| - 1])
  }

  lemma Synced()
    ensures SetSyncWord(NEW_BUFFER, 0xFFF) == [0xFF, 0xF0, 0, 0, 0, 0, 0, 0, 0, 0]
  {
  }

  lemma Named()
    ensures SetId([0xFF, 0xF0, 0, 0, 0, 0, 0, 0, 0, 0], 1) == [0xFF, 0xF1, 0, 0, 0, 0, 0, 0, 0, 0]
  {
  }

  lemma Profiled()
    ensures SetProfile([0xFF, 0xF1, 0, 0, 0, 0, 0, 0, 0, 0], 1) == [0xFF, 0xF1, 0x40, 0, 0, 0, 0, 0, 0, 0]
  {
  }

  lemma Filled()
    ensures SetFullness([0xFF, 0xF1, 0x40, 0, 0, 0, 0, 0, 0, 0], 0x7FF) == [0xFF, 0xF1, 0x40, 0, 0, 0x1F, 0xFC, 0, 0, 0]
  {
  }

  /** Setting the ID bit sets the last bit of the second byte. */
  lemma FreshBytes()
    ensures Fresh() == [0xFF, 0xF1, 0x40, 0, 0, 0x1F, 0xFC, 0, 0, 0]
  {
    hide SetSyncWord, SetId, SetProfile, SetFullness;
    Synced();
    Named();
    Profiled();
    Filled();
  }

  lemma FieldsOf(d: Header)
    requires d[0] == 0xFF && d[1] == 0xF1 && d[2] == 0x40 && d[3] == 0 && d[4] == 0 && d[5] == 0x1F && d[6] == 0xFC
    ensures Parse(d) == Some(Fields(0, 0, 1, 1, 0, 0, 0, Marks(0, 0, 0, 0), 0, 0x7FF, 0))
  {
    assert MarksOf(0) == Marks(0, 0, 0, 0);
  }

  lemma FreshFields()
    ensures Parse(Fresh()) == Some(Fields(0, 0, 1, 1, 0, 0, 0, Marks(0, 0, 0, 0), 0, 0x7FF, 0)) && Fresh()[2] % 2 == 0
  {
    hide Fresh, Parse;
    FreshBytes();
    FieldsOf(Fresh());
  }

  lemma RateField(d: Header, index: nat)
    requires index < 16 && Parse(d).Some?
    ensures Parse(SetRateIndex(d, index)) == Some(Parse(d).value.(rateIndex := index))
    ensures SetRateIndex(d, index)[2] % 2 == d[2] % 2
  {
    MiddleBits(d[2] / 64, index, d[2] % 4);
    TwoBits(d[2]);
    assert SetRateIndex(d, index)[2] == index * 4 + (d[2] / 64 * 64 + d[2] % 4);
  }

  lemma MiddleBits(q: nat, x: nat, r: nat)
    requires x < 16 && r < 4
    ensures var c := x * 4 + (q * 64 + r);
            c / 64 == q && c / 4 % 16 == x && c % 2 == r % 2 && c / 2 % 2 == r / 2
  {
    var c := x * 4 + (q * 64 + r);
    DivModUnique(c, 2, 32 * q + 2 * x + r / 2, r % 2);
    DivModUnique(32 * q + 2 * x + r / 2, 2, 16 * q + x, r / 2);
    DivModUnique(c, 64, q, 4 * x + r);
    DivModUnique(c, 4, 16 * q + x, r);
    DivModUnique(16 * q + x, 16, q, x);
  }

  lemma TwoBits(b: nat)
    ensures b % 4 % 2 == b % 2 && b % 4 / 2 == b / 2 % 2
  {
    DivModUnique(b, 2, 2 * (b / 4) + b % 4 / 2, b % 4 % 2);
    DivModUnique(2 * (b / 4) + b % 4 / 2, 2, b / 4, b % 4 / 2);
  }

  /** What stands above the lowest six bits does not reach the marks. */
  lemma MarksBelow(h: nat, r: nat)
    requires r < 64
    ensures MarksOf(64 * h + r) == MarksOf(r)
  {
    DivModUnique(64 * h + r, 32, 2 * h + r / 32, r % 32);
    DivModUnique(2 * h + r / 32, 2, h, r / 32);
    DivModUnique(64 * h + r, 16, 4 * h + r / 16, r % 16);
    DivModUnique(4 * h + r / 16, 2, 2 * h + r / 16 / 2, r / 16 % 2);
    DivModUnique(64 * h + r, 8, 8 * h + r / 8, r % 8);
    DivModUnique(8 * h + r / 8, 2, 4 * h + r / 8 / 2, r / 8 % 2);
    DivModUnique(64 * h + r, 2, 32 * h + r / 2, r % 2);
  }

  lemma TopMarks(b: nat, x: nat)
    ensures MarksOf(x * 64 + b % 64) == MarksOf(b)
  {
    hide MarksOf;
    MarksBelow(x, b % 64);
    MarksBelow(b / 64, b % 64);
    assert b == 64 * (b / 64) + b % 64;
  }

  lemma LowMarks(b: nat, n: nat)
    ensures MarksOf(n % 4 + b / 4 * 4) == MarksOf(b).(copyrightStart := n % 2)
  {
    var q, x := b / 4, n % 4;
    TwoBits(n);
    AboveTwo(q, x);
    AboveTwo(q, b % 4);
    DivModUnique(x + 4 * q, 2, 2 * q + x / 2, x % 2);
  }

  lemma AboveTwo(q: nat, x: nat)
    requires x < 4
    ensures var c := x + q * 4; c / 32 == q / 8 && c / 16 == q / 4 && c / 8 == q / 2
  {
    DivModUnique(x + 4 * q, 32, q / 8, q % 8 * 4 + x);
    DivModUnique(x + 4 * q, 16, q / 4, q % 4 * 4 + x);
    DivModUnique(x + 4 * q, 8, q / 2, q % 2 * 4 + x);
  }

  lemma ChannelsField(d: Header, v: u16)
    requires Parse(d).Some?
    ensures Parse(SetChannels(d, v)) == Some(Parse(d).value.(channels := d[2] % 2 * 4 + v % 4))
  {
    TopBits(d[3], v % 4);
    TopMarks(d[3], v % 4);
    assert SetChannels(d, v)[3] == v % 4 * 64 + d[3] % 64;
  }

  lemma LowBits(b: nat, x: nat)
    requires x < 4
    ensures (x + b / 4 * 4) % 4 == x && (x + b / 4 * 4) / 64 == b / 64
  {
    var h, l := b / 4 / 16, b / 4 % 16;
    DivModUnique(x + b / 4 * 4, 4, b / 4, x);
    DivModUnique(x + b / 4 * 4, 64, h, 4 * l + x);
    DivModUnique(b, 64, h, 4 * l + b % 4);
  }

  lemma TopBits(b: nat, x: nat)
    requires x < 4
    ensures (x * 64 + b % 64) / 64 == x && (x * 64 + b % 64) % 4 == b % 4
  {
    var h, l := b / 4 / 16, b / 4 % 16;
    DivModUnique(b, 64, h, 4 * l + b % 4);
    DivModUnique(x * 64 + b % 64, 64, x, b % 64);
    DivModUnique(x * 64 + b % 64, 4, 16 * x + l, b % 4);
  }

  lemma HighBits(b: nat, x: nat)
    requires x < 8
    ensures (x * 32 + b % 32) / 32 == x && (x * 32 + b % 32) % 32 == b % 32
  {
  }

  lemma ThirteenBits(v: nat)
    ensures v % 8192 == v / 2048 % 4 * 2048 + v / 8 % 256 * 8 + v % 8
  {
    var n, q, r := v / 8 / 256, v / 8 % 256, v % 8;
    DivModUnique(v, 2048, n, 8 * q + r);
    DivModUnique(v, 8192, n / 4, n % 4 * 2048 + 8 * q + r);
  }

  lemma FrameLengthField(d: Header, v: u16)
    requires Parse(d).Some?
    ensures Parse(SetLength(d, v)) ==
            Some(Parse(d).value.(frameLength := v % 8192, marks := Parse(d).value.marks.(copyrightStart := v / 2048 % 2)))
  {
    var e := SetLength(d, v);
    LowMarks(d[3], v / 2048);
    LowBits(d[3], v / 2048 % 4);
    HighBits(d[5], v % 8);
    ThirteenBits(v);
    assert e[3] == v / 2048 % 4 + d[3] / 4 * 4 && e[5] == v % 8 * 32 + d[5] % 32;
  }

  /**
   After any sequence of setter calls the parser accepts the header and reads back the last rate,
   the last channel count cut to two bits, and the last frame length cut to thirteen; nothing else
   ever changes, but that the parser takes a bit of the length for the copyright mark.  The one
   that was meant for the ID bit lands in the bit for absent protection.
   */
  lemma {:induction false} SettersReadBack(calls: seq<Call>)
    ensures Parse(Built(calls)) ==
            Some(Fields(0, 0, 1, 1, LastRate(calls), 0, LastChannels(calls) % 4,
                        Marks(0, 0, 0, LastLength(calls) / 2048 % 2), LastLength(calls) % 8192, 0x7FF, 0))
    ensures Built(calls)[2] % 2 == 0
  {
    hide Parse, SetChannels, SetLength, SetRateIndex, RateIndex, Fresh;
    if calls == [] {
      FreshFields();
    } else {
      var before, c := Built(calls[..|calls| - 1]), calls[|calls| - 1];
      SettersReadBack(calls[..|calls| - 1]);
      match c {
        case Rate(r) =>
          RateField(before, RateIndex(r));
        case Channels(n) =>
          ChannelsField(before, n);
          SecondByteKept(before, n);
        case Length(n) =>
          FrameLengthField(before, n);
          SecondByteKept(before, n);
      }
    }
  }

  lemma SecondByteKept(d: Header, v: u16)
    ensures SetChannels(d, v)[2] == d[2] && SetLength(d, v)[2] == d[2]
  {
  }

  // ----- Frames

  datatype Source = FileSource | HttpSource | RtmpSource | RtspSource | OtherSource

  /** Two bytes decide whether a frame brings its own header; frames from RTMP and RTSP never do. */
  predicate NeedsHeader(isAac: bool, source: Source, b0: byte, b1: byte) {
    isAac && (source.RtmpSource? || source.RtspSource? || !(b0 == 0xFF && b1 / 16 == 0xF))
  }

  /** The frame as handed on: with the header the builder holds after its length was set. */
  function Framed(needs: bool, d: Header, packet: bytes): bytes {
    if needs then SetLength(d, (|packet| + HEADER_SIZE) % 0x10000)[..HEADER_SIZE] + packet else packet
  }

  /** What an AAC output is given of a frame. */
  function Stripped(isAac: bool, frame: bytes): bytes {
    if isAac && |frame| >= HEADER_SIZE then frame[HEADER_SIZE..] else frame
  }

  /** Prefixing and stripping gives back exactly the packets that got a header or are too short to have one. */
  lemma StripsWhatWasAdded(needs: bool, d: Header, packet: bytes)
    ensures Stripped(true, Framed(needs, d, packet)) == packet <==> needs || |packet| < HEADER_SIZE
  {
    if needs {
      var h := SetLength(d, (|packet| + HEADER_SIZE) % 0x10000)[..HEADER_SIZE];
      assert (h + packet)[HEADER_SIZE..] == packet;
    }
  }

  /** A prefixed frame announces its own length, rate and channels exactly when they fit their fields. */
  lemma PrefixDescribes(calls: seq<Call>, packet: bytes)
    ensures var f := Parse(Framed(true, Built(calls), packet));
            && f.Some?
            && f.value.rateIndex == LastRate(calls)
            && (f.value.channels == LastChannels(calls) <==> LastChannels(calls) <= 3)
            && (f.value.frameLength == |Framed(true, Built(calls), packet)| <==> |packet| + HEADER_SIZE < 8192)
  {
    hide Parse, SetLength, Built;
    var n := (|packet| + HEADER_SIZE) % 0x10000;
    var more := calls + [Length(n)];
    assert more[..|calls|] == calls;
    BuiltSnoc(calls, Length(n));
    SettersReadBack(more);
    var frame := Framed(true, Built(calls), packet);
    SameHeader(Built(more), frame);
  }

  lemma BuiltSnoc(calls: seq<Call>, c: Call)
    ensures Built(calls + [c]) == Apply(Built(calls), c)
  {
    assert (calls + [c])[..|calls|] == calls;
  }

  lemma SameHeader(d: Header, e: Header)
    requires d[..HEADER_SIZE] == e[..HEADER_SIZE]
    ensures Parse(d) == Parse(e)
  {
    assert forall i :: 0 <= i < HEADER_SIZE ==> d[i] == d[..HEADER_SIZE][i] == e[..HEADER_SIZE][i] == e[i];
  }
}
