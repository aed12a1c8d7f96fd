/** The transport package byte by byte: what a built package holds, and what the getters make of any layout. */
module PackageWire {
  import opened Octets
  import opened Crc32
  import opened Crc32Bytes
  import opened Crc32Register
  import opened SerialNumber
  import opened TermPackage

  // ----- Built packages

  function High(n: u16): byte { n / 256 }

  function Low(n: u16): byte { n % 256 }

  lemma HalfBytes(n: u16)
    ensures BigEndian(n, 2) == [High(n), Low(n)]
    ensures FromBigEndian([High(n), Low(n)]) == n
  {
    TwoBytes(n);
    TwoBytesRead(High(n), Low(n));
  }

  /** Twelve bytes of header. */
  function HeaderBytes(flags: byte, topic: byte, cmd: byte, id: u16, size: u16, length: u16): (b: bytes)
    ensures |b| == 12
  {
    [0xF5, 0xAA, flags, 0, topic, cmd, High(id), Low(id), High(size), Low(size), High(length), Low(length)]
  }

  function SerialBytes(meta: Meta, withSn: bool): bytes {
    if withSn then Word(meta.sn / 0x1_0000_0000) + Word(meta.sn % 0x1_0000_0000) else []
  }

  function SliceBytes(s: Slice): bytes {
    if s.total > 1 then [s.index, s.total, High(s.offset), Low(s.offset)] else []
  }

  function Weighted(meta: Meta, withSn: bool, sliced: bool): byte {
    (if withSn then 4 else 0) + (if meta.qos then 8 else 0) + (if meta.ack then 16 else 0) + (if sliced then 32 else 0)
  }

  /** Every byte of a built package in front of its signature. */
  lemma BuiltBytes(meta: Meta, withSn: bool, s: Slice, body: bytes, msgLength: u16, time: u32, no: text)
    requires |body| <= 1024
    ensures var size := 12 + (if withSn then 8 else 0) + (if s.total > 1 then 4 else 0) + |body| + 8;
            var data := HeaderBytes(Weighted(meta, withSn, s.total > 1), meta.topic, meta.cmd, meta.messageId, size, msgLength)
                        + (SerialBytes(meta, withSn) + SliceBytes(s)) + body + Word(time);
            Package(meta, withSn, s, body, msgLength, time, no) == data + WordBytes(Crc(data + ToBytes(no)))
  {
    hide BigEndian, Crc, WordBytes, Word, High, Low;
    var size := 12 + (if withSn then 8 else 0) + (if s.total > 1 then 4 else 0) + |body| + 8;
    HeaderIs(meta, withSn, s.total > 1, size, msgLength);
    WordIs(time);
    DoubleWordIs(meta.sn);
    HalfBytes(s.offset);
    assert PackageSize(withSn, s, body) == size;
    assert SnPart(meta, withSn) == SerialBytes(meta, withSn);
    assert SlicePart(s) == SliceBytes(s);
  }

  lemma HeaderIs(meta: Meta, withSn: bool, sliced: bool, size: u16, length: u16)
    ensures BaseHeader(meta, withSn, sliced, size, length)
            == HeaderBytes(Weighted(meta, withSn, sliced), meta.topic, meta.cmd, meta.messageId, size, length)
  {
    hide BigEndian, High, Low;
    HalfBytes(meta.messageId);
    HalfBytes(size);
    HalfBytes(length);
  }

  // ----- Any package

  /** The optional parts of a package, present or not. */
  datatype Parts = Parts(sn: Option<u64>, slice: Option<Slice>, ext: Option<bytes>)

  function SnBytes(sn: Option<u64>): bytes {
    if sn.None? then [] else Word(sn.value / 0x1_0000_0000) + Word(sn.value % 0x1_0000_0000)
  }

  function InfoBytes(slice: Option<Slice>): bytes {
    if slice.None? then [] else [slice.value.index, slice.value.total, High(slice.value.offset), Low(slice.value.offset)]
  }

  /** Extension data has its length in front, in one byte. */
  function ExtBytes(ext: Option<bytes>): bytes
    requires ext.Some? ==> |ext.value| < 256
  {
    if ext.None? then [] else [|ext.value|] + ext.value
  }

  datatype Flags = Flags(ver: nat, sn: bool, qos: bool, ack: bool, slice: bool, sliceAck: bool, ext: bool)

  predicate ValidFlags(f: Flags) { f.ver < 4 }

  function FlagBits(f: Flags): byte
    requires ValidFlags(f)
  {
    f.ver + (if f.sn then 4 else 0) + (if f.qos then 8 else 0) + (if f.ack then 16 else 0)
    + (if f.slice then 32 else 0) + (if f.sliceAck then 64 else 0) + (if f.ext then 128 else 0)
  }

  lemma FlagBitsRead(f: Flags)
    requires ValidFlags(f)
    ensures var b := FlagBits(f);
            && b % 4 == f.ver && (b / 4 % 2 == 1) == f.sn && (b / 8 % 2 == 1) == f.qos && (b / 16 % 2 == 1) == f.ack
            && (b / 32 % 2 == 1) == f.slice && (b / 64 % 2 == 1) == f.sliceAck && (b / 128 % 2 == 1) == f.ext
  {
    hide Weight, FlagBits;
    FlagBitsWeighed(f);
    DigitsOfSum(f.ext, f.sliceAck, f.slice, f.ack, f.qos, f.sn, f.ver / 2 == 1, f.ver % 2 == 1, FlagBits(f));
    LowVersion(FlagBits(f), f.ver);
  }

  lemma LowVersion(b: byte, v: nat)
    requires v < 4 && Digit(b, 2) == (v / 2 == 1) && Digit(b, 1) == (v % 2 == 1)
    ensures b % 4 == v
  {
    LowTwoDigits(b);
    LowTwoDigits(v);
    SmallVersion(v);
  }

  lemma FlagBitsWeighed(f: Flags)
    requires ValidFlags(f)
    ensures FlagBits(f) == Weight(f.ext, 128) + Weight(f.sliceAck, 64) + Weight(f.slice, 32) + Weight(f.ack, 16)
                           + Weight(f.qos, 8) + Weight(f.sn, 4) + Weight(f.ver / 2 == 1, 2) + Weight(f.ver % 2 == 1, 1)
  {
  }

  lemma LowTwoDigits(b: nat)
    ensures b % 4 == b / 2 % 2 * 2 + b % 2
  {
  }

  lemma SmallVersion(v: nat)
    requires v < 4
    ensures v % 4 == v && v / 2 % 2 == v / 2
  {
  }

  predicate Match(f: Flags, parts: Parts) {
    && ValidFlags(f)
    && f.sn == parts.sn.Some?
    && (f.slice || f.sliceAck) == parts.slice.Some?
    && f.ext == parts.ext.Some?
    && (parts.ext.Some? ==> |parts.ext.value| < 256)
  }

  /** A package with any flags and optional parts, as the twelve-byte header announces them. */
  function AnyPackage(f: Flags, topic: byte, cmd: byte, id: u16, size: u16, length: u16,
                      parts: Parts, body: bytes, time: u32, signature: bytes): bytes
    requires Match(f, parts)
  {
    HeaderBytes(FlagBits(f), topic, cmd, id, size, length)
    + (SnBytes(parts.sn) + (InfoBytes(parts.slice) + (ExtBytes(parts.ext) + (body + (Word(time) + signature)))))
  }

  lemma SevenParts(a: bytes, b: bytes, c: bytes, d: bytes, e: bytes, f: bytes, g: bytes)
    ensures var p := a + (b + (c + (d + (e + (f + g)))));
            && |p| == |a| + |b| + |c| + |d| + |e| + |f| + |g|
            && p[|a|..|a| + |b|] == b
            && p[|a| + |b|..|a| + |b| + |c|] == c
            && p[|a| + |b| + |c|..|a| + |b| + |c| + |d|] == d
            && p[|a| + |b| + |c| + |d|..|a| + |b| + |c| + |d| + |e|] == e
            && p[|p| - |g| - |f|..|p| - |g|] == f
            && p[|p| - |g|..] == g
            && forall i :: 0 <= i < |a| ==> p[i] == a[i]
  {
  }

  lemma HeaderGetters(flags: Flags, topic: byte, cmd: byte, id: u16, size: u16, length: u16, p: bytes)
    requires ValidFlags(flags) && |p| >= 20
    requires forall i :: 0 <= i < 12 ==> p[i] == HeaderBytes(FlagBits(flags), topic, cmd, id, size, length)[i]
    ensures Ver(p) == flags.ver && HasSn(p) == flags.sn && Qos(p) == flags.qos && IsAck(p) == flags.ack
    ensures IsSlice(p) == flags.slice && IsSliceAck(p) == flags.sliceAck && HasExt(p) == flags.ext
    ensures Topic(p) == topic && Cmd(p) == cmd && MsgId(p) == id && Length(p) == size && MsgLength(p) == length
  {
    hide FromBigEndian, High, Low, FlagBits;
    var h := HeaderBytes(FlagBits(flags), topic, cmd, id, size, length);
    FlagBitsRead(flags);
    assert p[2] == h[2] && p[4] == h[4] && p[5] == h[5];
    assert p[6] == h[6] && p[7] == h[7] && p[8] == h[8] && p[9] == h[9] && p[10] == h[10] && p[11] == h[11];
    assert p[6..8] == [High(id), Low(id)] && p[8..10] == [High(size), Low(size)] && p[10..12] == [High(length), Low(length)];
    HalfBytes(id);
    HalfBytes(size);
    HalfBytes(length);
  }

  /** Where the optional parts and the body begin. */
  lemma Starts(p: bytes, f: Flags, parts: Parts)
    requires |p| >= 20 && Match(f, parts)
    requires HasSn(p) == f.sn && IsSlice(p) == f.slice && IsSliceAck(p) == f.sliceAck && HasExt(p) == f.ext
    ensures SliceStart(p) == 12 + |SnBytes(parts.sn)|
    ensures ExtStart(p) == 12 + |SnBytes(parts.sn)| + |InfoBytes(parts.slice)|
    ensures ExtStart(p) + |ExtBytes(parts.ext)| + 8 <= |p|
            && p[ExtStart(p)..ExtStart(p) + |ExtBytes(parts.ext)|] == ExtBytes(parts.ext)
            ==> WellFramed(p) && BodyStart(p) == ExtStart(p) + |ExtBytes(parts.ext)|
  {
    hide HasSn, IsSlice, IsSliceAck, HasExt, FlagBits, Word, High, Low;
    if parts.ext.Some? && ExtStart(p) + |ExtBytes(parts.ext)| + 8 <= |p|
       && p[ExtStart(p)..ExtStart(p) + |ExtBytes(parts.ext)|] == ExtBytes(parts.ext) {
      assert p[ExtStart(p)] == p[ExtStart(p)..ExtStart(p) + |ExtBytes(parts.ext)|][0] == |parts.ext.value|;
    }
  }

  /** Whatever flags are set and parts present, every getter finds its part. */
  lemma EveryGetter(f: Flags, topic: byte, cmd: byte, id: u16, size: u16, length: u16,
                    parts: Parts, body: bytes, time: u32, signature: bytes)
    requires Match(f, parts) && |signature| == 4
    ensures var p := AnyPackage(f, topic, cmd, id, size, length, parts, body, time, signature);
            && WellFramed(p)
            && Ver(p) == f.ver && HasSn(p) == f.sn && Qos(p) == f.qos && IsAck(p) == f.ack
            && IsSlice(p) == f.slice && IsSliceAck(p) == f.sliceAck && HasExt(p) == f.ext
            && Topic(p) == topic && Cmd(p) == cmd && MsgId(p) == id && Length(p) == size && MsgLength(p) == length
            && Sn(p) == (if parts.sn.Some? then parts.sn.value else 0)
            && SliceIndex(p) == (if parts.slice.Some? then parts.slice.value.index else 0)
            && SliceTotal(p) == (if parts.slice.Some? then parts.slice.value.total else 1)
            && SliceOffset(p) == (if parts.slice.Some? then parts.slice.value.offset else 0)
            && Body(p) == body[..|body| % 0x10000] && Timestamp(p) == time && Signature(p) == WordOf(signature)
  {
    hide FromBigEndian, High, Low, FlagBits, Word, WordOf, SliceStart, ExtStart, BodyStart, WellFramed;
    hide Ver, HasSn, Qos, IsAck, IsSlice, IsSliceAck, HasExt, Topic, Cmd, MsgId, Length, MsgLength;
    var h := HeaderBytes(FlagBits(f), topic, cmd, id, size, length);
    var p := AnyPackage(f, topic, cmd, id, size, length, parts, body, time, signature);
    SevenParts(h, SnBytes(parts.sn), InfoBytes(parts.slice), ExtBytes(parts.ext), body, Word(time), signature);
    HeaderGetters(f, topic, cmd, id, size, length, p);
    Starts(p, f, parts);
    WordIs(time);
    BodyRead(p, body);
    hide Body, BodyLength, SliceIndex, SliceTotal, SliceOffset;
    if parts.sn.Some? {
      SerialRead(p, parts.sn.value);
    }
    SliceGetters(p, f, parts);
  }

  lemma BodyRead(p: bytes, body: bytes)
    requires WellFramed(p) && |p| == BodyStart(p) + |body| + 8 && p[BodyStart(p)..BodyStart(p) + |body|] == body
    ensures Body(p) == body[..|body| % 0x10000]
  {
    hide WellFramed, BodyStart;
  }

  lemma SliceGetters(p: bytes, f: Flags, parts: Parts)
    requires WellFramed(p) && Match(f, parts) && IsSlice(p) == f.slice && IsSliceAck(p) == f.sliceAck
    requires SliceStart(p) + |InfoBytes(parts.slice)| <= |p|
    requires p[SliceStart(p)..SliceStart(p) + |InfoBytes(parts.slice)|] == InfoBytes(parts.slice)
    ensures SliceIndex(p) == (if parts.slice.Some? then parts.slice.value.index else 0)
    ensures SliceTotal(p) == (if parts.slice.Some? then parts.slice.value.total else 1)
    ensures SliceOffset(p) == (if parts.slice.Some? then parts.slice.value.offset else 0)
  {
    hide FromBigEndian, High, Low, FlagBits, SliceStart, IsSlice, IsSliceAck;
    if parts.slice.Some? {
      SliceRead(p, SliceStart(p), parts.slice.value);
    }
  }

  lemma SerialRead(p: bytes, sn: u64)
    requires |p| >= 20 && p[12..20] == Word(sn / 0x1_0000_0000) + Word(sn % 0x1_0000_0000)
    ensures FromBigEndian(p[12..20]) == sn
  {
    hide FromBigEndian, Word, BigEndian;
    DoubleWordIs(sn);
    Number64(sn);
  }

  lemma SliceRead(p: bytes, at: nat, s: Slice)
    requires at + 4 <= |p| && p[at..at + 4] == [s.index, s.total, High(s.offset), Low(s.offset)]
    ensures p[at] == s.index && p[at + 1] == s.total && FromBigEndian(p[at + 2..at + 4]) == s.offset
  {
    hide FromBigEndian, High, Low;
    var q := p[at..at + 4];
    assert p[at] == q[0] && p[at + 1] == q[1] && p[at + 2] == q[2] && p[at + 3] == q[3];
    assert p[at + 2..at + 4] == [High(s.offset), Low(s.offset)];
    HalfBytes(s.offset);
  }
}
