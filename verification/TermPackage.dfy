/** The transport package: its layout, the getters that read it, signing and verification. */
module TermPackage {
  import opened Octets
  import opened Crc32
  import opened Crc32Bytes
  import opened Crc32Register
  import opened Crc32Bursts
  import opened SerialNumber

  const STAG1 := 0xF5
  const STAG2 := 0xAA
  const VERSION := 0
  const BASE_HEADER_SIZE := 12
  const SN_LENGTH := 8
  const SLICE_INFO_LENGTH := 4
  const SIGN_DATA_LENGTH := 8
  const MIN_PACKAGE_SIZE := 20
  const BODY_MAX_SIZE := 1024

  // ----- Getters.  Each throws when the package is shorter than the minimum.

  predicate LongEnough(p: bytes) { |p| >= MIN_PACKAGE_SIZE }

  /** A one-bit field of the flag byte, named by its weight. */
  predicate Flag(p: bytes, weight: nat)
    requires LongEnough(p) && weight > 0
  {
    p[2] / weight % 2 == 1
  }

  function Ver(p: bytes): nat requires LongEnough(p) { p[2] % 4 }

  predicate HasSn(p: bytes) requires LongEnough(p) { Flag(p, 4) }

  predicate Qos(p: bytes) requires LongEnough(p) { Flag(p, 8) }

  predicate IsAck(p: bytes) requires LongEnough(p) { Flag(p, 16) }

  predicate IsSlice(p: bytes) requires LongEnough(p) { Flag(p, 32) }

  predicate IsSliceAck(p: bytes) requires LongEnough(p) { Flag(p, 64) }

  predicate HasExt(p: bytes) requires LongEnough(p) { Flag(p, 128) }

  function Topic(p: bytes): byte requires LongEnough(p) { p[4] }

  function Cmd(p: bytes): byte requires LongEnough(p) { p[5] }

  function MsgId(p: bytes): nat requires LongEnough(p) { FromBigEndian(p[6..8]) }

  function Length(p: bytes): nat requires LongEnough(p) { FromBigEndian(p[8..10]) }

  function MsgLength(p: bytes): nat requires LongEnough(p) { FromBigEndian(p[10..12]) }

  function Sn(p: bytes): nat requires LongEnough(p) {
    if HasSn(p) then FromBigEndian(p[12..20]) else 0
  }

  function SliceStart(p: bytes): nat requires LongEnough(p) {
    BASE_HEADER_SIZE + (if HasSn(p) then SN_LENGTH else 0)
  }

  function ExtStart(p: bytes): nat requires LongEnough(p) {
    SliceStart(p) + (if IsSlice(p) || IsSliceAck(p) then SLICE_INFO_LENGTH else 0)
  }

  /** The optional parts the flags announce, and the signature, lie within the package. */
  predicate WellFramed(p: bytes) {
    && LongEnough(p)
    && ExtStart(p) < |p|
    && BodyStart(p) + SIGN_DATA_LENGTH <= |p|
  }

  function BodyStart(p: bytes): nat
    requires LongEnough(p) && ExtStart(p) < |p|
  {
    var extLength: nat := p[ExtStart(p)];
    ExtStart(p) + (if HasExt(p) then extLength + 1 else 0)
  }

  function SliceIndex(p: bytes): nat requires WellFramed(p) {
    if !IsSlice(p) && !IsSliceAck(p) then 0 else p[SliceStart(p)]
  }

  function SliceTotal(p: bytes): nat requires WellFramed(p) {
    if !IsSlice(p) && !IsSliceAck(p) then 1 else p[SliceStart(p) + 1]
  }

  function SliceOffset(p: bytes): nat requires WellFramed(p) {
    if !IsSlice(p) && !IsSliceAck(p) then 0 else FromBigEndian(p[SliceStart(p) + 2..SliceStart(p) + 4])
  }

  /** A 16-bit length. */
  function BodyLength(p: bytes): nat requires WellFramed(p) {
    (|p| - BodyStart(p) - SIGN_DATA_LENGTH) % 0x10000
  }

  function Body(p: bytes): (b: bytes)
    requires WellFramed(p)
    ensures |b| == BodyLength(p)
  {
    p[BodyStart(p)..BodyStart(p) + BodyLength(p)]
  }

  function Timestamp(p: bytes): nat requires LongEnough(p) { FromBigEndian(p[|p| - 8..|p| - 4]) }

  function Signature(p: bytes): bv32 requires LongEnough(p) { WordOf(p[|p| - 4..]) }

  // ----- Signing and verification

  function Signed(data: bytes, customerNo: text): bytes {
    data + WordBytes(Crc(data + ToBytes(customerNo)))
  }

  /** The customer number in a package's own serial number; 0 without one. */
  function OwnCustomer(p: bytes): (id: nat)
    requires LongEnough(p)
    ensures id < 0x10000
  {
    Sn(p) / 0x1_0000_0000 % 0x10000
  }

  /**
   None is the exception of the getters on a short package; for one with a wrong start it comes from
   the trace, which asks for the version.
   */
  function Verify(p: bytes, customerNo: Option<text>): Option<bool> {
    if !LongEnough(p) then None
    else if p[0] != STAG1 || p[1] != STAG2 || Ver(p) != VERSION then Some(false)
    else
      var no := if customerNo.Some? then customerNo.value else CustomerId2Str(OwnCustomer(p));
      Some(Signature(p) == Crc(p[..|p| - 4] + ToBytes(no)))
  }

  /** A signed package verifies with the customer number it was signed with. */
  lemma SignedVerifies(data: bytes, customerNo: text)
    requires |data| >= 16 && data[0] == STAG1 && data[1] == STAG2 && data[2] % 4 == VERSION
    ensures Verify(Signed(data, customerNo), Some(customerNo)) == Some(true)
  {
    hide Crc, WordBytes, WordOf;
    var crc := Crc(data + ToBytes(customerNo));
    var p := Signed(data, customerNo);
    WordRoundTrip(crc);
    assert p[|p| - 4..] == WordBytes(crc) && p[..|p| - 4] == data;
  }

  lemma SameSuffix(a: bytes, b: bytes, c: bytes)
    requires |a| == |b|
    ensures a + c == b + c <==> a == b
  {
    assert (a + c)[..|a|] == a && (b + c)[..|b|] == b;
  }

  /**
   Changing the signed part of a genuine package within 32 consecutive bits, and leaving its
   signature alone, makes verification fail.
   */
  lemma BurstRejected(p: bytes, q: bytes, customerNo: text, at: nat)
    requires Verify(p, Some(customerNo)) == Some(true)
    requires |q| == |p| && q != p && q[|q| - 4..] == p[|p| - 4..]
    requires DifferWithin32(p[..|p| - 4], q[..|q| - 4], at)
    ensures Verify(q, Some(customerNo)) == Some(false)
  {
    hide Crc, WordOf, Bits, ToBytes;
    var n := |p| - 4;
    var no := ToBytes(customerNo);
    assert p == p[..n] + p[n..] && q == q[..n] + q[n..];
    BitsAppend(p[..n], no);
    BitsAppend(q[..n], no);
    SameSuffix(p[..n], q[..n], no);
    BurstDetected(p[..n] + no, q[..n] + no, at);
  }

  /** Without a given number, a package of full length is checked with the number in its serial number. */
  lemma VerifyBySerial(p: bytes)
    requires |p| >= 20
    ensures Verify(p, None) == Verify(p, Some(CustomerId2Str(Sn(p) / 0x1_0000_0000 % 0x10000)))
  {
  }

  /** The same burst when verification takes the customer number from the serial number, which the burst spared. */
  lemma BurstRejectedBySerial(p: bytes, q: bytes, at: nat)
    requires |p| >= 20 && Verify(p, None) == Some(true)
    requires |q| == |p| && q != p && q[|q| - 4..] == p[|p| - 4..]
    requires DifferWithin32(p[..|p| - 4], q[..|q| - 4], at)
    requires Sn(q) / 0x1_0000_0000 % 0x10000 == Sn(p) / 0x1_0000_0000 % 0x10000
    ensures Verify(q, None) == Some(false)
  {
    hide Verify, Sn, DifferWithin32, CustomerId2Str;
    VerifyBySerial(p);
    VerifyBySerial(q);
    BurstRejected(p, q, CustomerId2Str(Sn(p) / 0x1_0000_0000 % 0x10000), at);
  }

  /** A package is genuine exactly when it is long enough, starts as it must and its last four bytes sign the rest. */
  lemma VerifiesExactly(p: bytes, no: text)
    ensures Verify(p, Some(no)) == Some(true) <==>
            |p| >= 20 && p[0] == 0xF5 && p[1] == 0xAA && p[2] % 4 == 0
            && p[|p| - 4..] == WordBytes(Crc(p[..|p| - 4] + ToBytes(no)))
  {
    hide Crc, WordBytes, WordOf;
    if |p| >= 20 {
      var crc := Crc(p[..|p| - 4] + ToBytes(no));
      WordRoundTrip(crc);
      WordBytesRoundTrip(p[|p| - 4..]);
    }
  }

  /** A package below the minimum length makes verify throw, whatever it starts with; any other is accepted or rejected. */
  lemma ShortPackage(p: bytes, no: Option<text>)
    ensures Verify(p, no) == None <==> |p| < 20
  {
    hide Crc;
  }

  // ----- Building

  /** What travels in the header besides the framing itself. */
  datatype Meta = Meta(sn: u64, qos: bool, ack: bool, topic: byte, cmd: byte, messageId: u16)

  function Bit(b: bool, weight: nat): nat { if b then weight else 0 }

  function FlagByte(meta: Meta, withSn: bool, sliced: bool): byte {
    VERSION + Bit(withSn, 4) + Bit(meta.qos, 8) + Bit(meta.ack, 16) + Bit(sliced, 32)
  }

  function BaseHeader(meta: Meta, withSn: bool, sliced: bool, size: u16, msgLength: u16): (b: bytes)
    ensures |b| == BASE_HEADER_SIZE
  {
    [STAG1, STAG2, FlagByte(meta, withSn, sliced), 0, meta.topic, meta.cmd]
    + BigEndian(meta.messageId, 2) + BigEndian(size, 2) + BigEndian(msgLength, 2)
  }

  function SnPart(meta: Meta, withSn: bool): bytes {
    if withSn then BigEndian(meta.sn, 8) else []
  }

  datatype Slice = Slice(index: byte, total: byte, offset: u16)

  function SlicePart(s: Slice): bytes {
    if s.total > 1 then [s.index, s.total] + BigEndian(s.offset, 2) else []
  }

  function Optional(meta: Meta, withSn: bool, s: Slice): bytes {
    SnPart(meta, withSn) + SlicePart(s)
  }

  function PackageSize(withSn: bool, s: Slice, body: bytes): nat {
    BASE_HEADER_SIZE + Bit(withSn, SN_LENGTH) + Bit(s.total > 1, SLICE_INFO_LENGTH) + |body| + SIGN_DATA_LENGTH
  }

  /** The package up to its signature. */
  function Unsigned(meta: Meta, withSn: bool, s: Slice, body: bytes, msgLength: u16, time: u32): bytes
    requires |body| <= BODY_MAX_SIZE
  {
    BaseHeader(meta, withSn, s.total > 1, PackageSize(withSn, s, body), msgLength)
    + Optional(meta, withSn, s) + body + BigEndian(time, 4)
  }

  function Package(meta: Meta, withSn: bool, s: Slice, body: bytes, msgLength: u16, time: u32, customerNo: text): bytes
    requires |body| <= BODY_MAX_SIZE
  {
    Signed(Unsigned(meta, withSn, s, body, msgLength, time), customerNo)
  }

  lemma FlagsReadBack(snf: bool, qos: bool, ack: bool, sf: bool, f: nat)
    requires f == Bit(snf, 4) + Bit(qos, 8) + Bit(ack, 16) + Bit(sf, 32)
    ensures f % 4 == 0
    ensures (f / 4 % 2 == 1) == snf && (f / 8 % 2 == 1) == qos && (f / 16 % 2 == 1) == ack && (f / 32 % 2 == 1) == sf
    ensures f / 64 % 2 == 0 && f / 128 % 2 == 0
  {
  }

  lemma Number16(n: u16)
    ensures FromBigEndian(BigEndian(n, 2)) == n
  {
    BigEndianRoundTrip(n, 2);
    assert Pow256(1) == 256 && Pow256(2) == 65536;
  }

  lemma Number32(n: u32)
    ensures FromBigEndian(BigEndian(n, 4)) == n
  {
    BigEndianRoundTrip(n, 4);
    assert Pow256(2) == 0x1_0000 && Pow256(4) == 0x1_0000_0000;
  }

  lemma Number64(n: u64)
    ensures FromBigEndian(BigEndian(n, 8)) == n
  {
    BigEndianRoundTrip(n, 8);
    assert Pow256(2) == 0x1_0000 && Pow256(4) == 0x1_0000_0000;
    assert Pow256(6) == 0x1_0000_0000_0000 && Pow256(8) == 0x1_0000_0000_0000_0000;
  }

  /** The header getters read back what the package was built from. */
  lemma HeaderReadBack(meta: Meta, withSn: bool, sliced: bool, size: u16, msgLength: u16, rest: bytes)
    requires |rest| >= 8
    ensures var p := BaseHeader(meta, withSn, sliced, size, msgLength) + rest;
            && p[0] == STAG1 && p[1] == STAG2 && Ver(p) == VERSION
            && HasSn(p) == withSn && Qos(p) == meta.qos && IsAck(p) == meta.ack && IsSlice(p) == sliced
            && !IsSliceAck(p) && !HasExt(p)
            && Topic(p) == meta.topic && Cmd(p) == meta.cmd
            && MsgId(p) == meta.messageId && Length(p) == size && MsgLength(p) == msgLength
  {
    hide BigEndian, FromBigEndian, Bit;
    var h := BaseHeader(meta, withSn, sliced, size, msgLength);
    var p := h + rest;
    FlagsReadBack(withSn, meta.qos, meta.ack, sliced, FlagByte(meta, withSn, sliced));
    assert p[6..8] == BigEndian(meta.messageId, 2);
    assert p[8..10] == BigEndian(size, 2);
    assert p[10..12] == BigEndian(msgLength, 2);
    Number16(meta.messageId);
    Number16(size);
    Number16(msgLength);
  }

  lemma SixParts(a: bytes, b: bytes, c: bytes, d: bytes, e: bytes, f: bytes)
    ensures var p := a + (b + c) + d + e + f;
            && p == a + p[|a|..]
            && p[|a|..|a| + |b|] == b
            && p[|a| + |b|..|a| + |b| + |c|] == c
            && p[|a| + |b| + |c|..|a| + |b| + |c| + |d|] == d
            && p[|a| + |b| + |c| + |d|..|a| + |b| + |c| + |d| + |e|] == e
  {
  }

  /** Where the parts of a built package lie. */
  lemma Layout(meta: Meta, withSn: bool, s: Slice, body: bytes, msgLength: u16, time: u32, customerNo: text)
    requires |body| <= BODY_MAX_SIZE
    ensures var p := Package(meta, withSn, s, body, msgLength, time, customerNo);
            var snLength := Bit(withSn, SN_LENGTH);
            var start := BASE_HEADER_SIZE + snLength + Bit(s.total > 1, SLICE_INFO_LENGTH);
            && |p| == PackageSize(withSn, s, body) == start + |body| + SIGN_DATA_LENGTH
            && p == BaseHeader(meta, withSn, s.total > 1, PackageSize(withSn, s, body), msgLength) + p[BASE_HEADER_SIZE..]
            && p[BASE_HEADER_SIZE..BASE_HEADER_SIZE + snLength] == SnPart(meta, withSn)
            && p[BASE_HEADER_SIZE + snLength..start] == SlicePart(s)
            && p[start..start + |body|] == body
            && p[|p| - 8..|p| - 4] == BigEndian(time, 4)
  {
    hide BigEndian, Crc, WordBytes, BaseHeader, FromBigEndian;
    var header := BaseHeader(meta, withSn, s.total > 1, PackageSize(withSn, s, body), msgLength);
    var sig := WordBytes(Crc(Unsigned(meta, withSn, s, body, msgLength, time) + ToBytes(customerNo)));
    SixParts(header, SnPart(meta, withSn), SlicePart(s), body, BigEndian(time, 4), sig);
  }

  /** Every getter gives back the value the package was built from. */
  lemma PackageReadBack(meta: Meta, withSn: bool, s: Slice, body: bytes, msgLength: u16, time: u32, customerNo: text)
    requires |body| <= BODY_MAX_SIZE
    ensures var p := Package(meta, withSn, s, body, msgLength, time, customerNo);
            && WellFramed(p) && Verify(p, Some(customerNo)) == Some(true)
            && HasSn(p) == withSn && Sn(p) == (if withSn then meta.sn else 0)
            && Qos(p) == meta.qos && IsAck(p) == meta.ack && Topic(p) == meta.topic && Cmd(p) == meta.cmd
            && MsgId(p) == meta.messageId && Length(p) == |p| && MsgLength(p) == msgLength
            && IsSlice(p) == (s.total > 1) && !IsSliceAck(p) && !HasExt(p)
            && (s.total > 1 ==> SliceIndex(p) == s.index && SliceTotal(p) == s.total && SliceOffset(p) == s.offset)
            && Body(p) == body && Timestamp(p) == time
  {
    hide BigEndian, FromBigEndian, Crc, WordBytes, WordOf, FlagByte, BaseHeader;
    Number32(time);
    var p := Package(meta, withSn, s, body, msgLength, time, customerNo);
    Layout(meta, withSn, s, body, msgLength, time, customerNo);
    HeaderReadBack(meta, withSn, s.total > 1, |p|, msgLength, p[BASE_HEADER_SIZE..]);
    var data := Unsigned(meta, withSn, s, body, msgLength, time);
    assert data[0] == p[0] && data[1] == p[1] && data[2] == p[2];
    SignedVerifies(data, customerNo);
    if withSn {
      assert p[12..20] == BigEndian(meta.sn, 8);
      Number64(meta.sn);
    }
    if s.total > 1 {
      var at := SliceStart(p);
      var part := SlicePart(s);
      assert p[at..at + 4] == part && part[0] == s.index && part[1] == s.total;
      assert p[at] == p[at..at + 4][0] && p[at + 1] == p[at..at + 4][1];
      assert p[at + 2..at + 4] == p[at..at + 4][2..] == BigEndian(s.offset, 2);
      Number16(s.offset);
    }
  }

  /** A package that carries its serial number verifies without being told the customer number. */
  lemma VerifiesBySerial(meta: Meta, s: Slice, body: bytes, msgLength: u16, time: u32)
    requires |body| <= BODY_MAX_SIZE
    ensures Verify(Package(meta, true, s, body, msgLength, time, CustomerId2Str(CustomerIdOf(meta.sn))), None) == Some(true)
  {
    hide Package, Crc, WordOf, CustomerId2Str;
    PackageReadBack(meta, true, s, body, msgLength, time, CustomerId2Str(CustomerIdOf(meta.sn)));
  }
}
