/**
 Acknowledging a slice: the header and slice information of the package, signed.  The length is
 filled in behind the signature, in the byte order of a little-endian host.
 */
module SliceAck {
  import opened Octets
  import opened Buffers
  import opened Crc32
  import opened Crc32Bytes
  import opened Crc32Register
  import opened Crc32Bursts
  import opened SerialNumber
  import opened TermPackage
  import opened Reassembly
  import opened PackageWire

  /** Version and serial-number flag stay, the flag for a slice acknowledgement is set, all others are cleared. */
  function AckFlags(f: byte): byte { f % 8 + 64 }

  /** 24 bytes, or 32 with the serial number. */
  function AckSize(p: bytes): nat
    requires LongEnough(p)
  {
    if HasSn(p) then 32 else 24
  }

  /** The package has a serial number or slice information where they are copied from. */
  predicate Copyable(p: bytes) { LongEnough(p) && AckSize(p) - 8 <= |p| }

  /** What is signed: it still has the length of the package that is acknowledged. */
  function Unsigned(p: bytes, time: u32): (b: bytes)
    requires Copyable(p)
    ensures |b| == AckSize(p) - 4
  {
    p[..2] + [AckFlags(p[2])] + p[3..AckSize(p) - 8] + BigEndian(time, 4)
  }

  function AckBytes(p: bytes, time: u32, customerNo: text): (b: bytes)
    requires Copyable(p)
    ensures |b| == AckSize(p)
  {
    Signed(Unsigned(p, time), customerNo)[8 := AckSize(p) % 256][9 := AckSize(p) / 256]
  }

  /** makeSliceAck: -1 for less than 24 bytes of room, which is not asked of a package with a serial number. */
  method MakeSliceAck(p: bytes, buff: array<byte>, size: int, time: u32, customerNo: text) returns (rc: int)
    requires Copyable(p) && AckSize(p) <= buff.Length
    modifies buff
    ensures rc == if size < 24 then -1 else AckSize(p)
    ensures size < 24 ==> buff[..] == old(buff[..])
    ensures size >= 24 ==> buff[..AckSize(p)] == AckBytes(p, time, customerNo) && OnlyWithin(buff, 0, AckSize(p))
  {
    hide Crc, WordBytes, BigEndian, HasSn;
    if size < 24 {
      return -1;
    }
    CopyIn(p[..12], buff, 0);
    buff[2] := AckFlags(p[2]);
    var offset := 12;
    if HasSn(p) {
      CopyIn(p[12..24], buff, offset);
      offset := offset + 12;
    } else {
      CopyIn(p[12..16], buff, offset);
      offset := offset + 4;
    }
    CopyIn(BigEndian(time, 4), buff, offset);
    offset := offset + 4;
    ghost var data := Unsigned(p, time);
    assert buff[..offset] == data by {
      Filled(buff[..offset], p, time);
    }
    var crc := Crc32Two(buff[..offset], ToBytes(customerNo));
    CopyIn(WordBytes(crc), buff, offset);
    offset := offset + 4;
    assert buff[..offset] == data + WordBytes(crc);
    buff[8], buff[9] := offset % 256, offset / 256;
    rc := offset;
  }

  lemma Filled(b: bytes, p: bytes, time: u32)
    requires Copyable(p) && |b| == AckSize(p) - 4
    requires forall i :: 0 <= i < AckSize(p) - 8 && i != 2 ==> b[i] == p[i]
    requires b[2] == AckFlags(p[2])
    requires forall i :: 0 <= i < 4 ==> b[AckSize(p) - 8 + i] == BigEndian(time, 4)[i]
    ensures b == Unsigned(p, time)
  {
    hide BigEndian, HasSn;
    var u := Unsigned(p, time);
    forall i | 0 <= i < |b| ensures b[i] == u[i] {
      if i >= AckSize(p) - 8 {
        assert u[i] == BigEndian(time, 4)[i - (AckSize(p) - 8)];
      }
    }
  }

  // ----- Whether an acknowledgement verifies

  lemma {:induction false} SameBit(a: bytes, b: bytes, i: nat)
    requires |a| == |b| && i < 8 * |a| && a[i / 8] == b[i / 8]
    ensures Bits(a)[i] == Bits(b)[i]
    decreases |a|
  {
    hide OctetBits, Octet;
    if i >= 8 {
      SameBit(a[1..], b[1..], i - 8);
    }
  }

  /** Two consecutive bytes are sixteen consecutive bits. */
  lemma TwoBytesDiffer(a: bytes, b: bytes, k: nat)
    requires |a| == |b| && forall j :: 0 <= j < |a| && j != k && j != k + 1 ==> a[j] == b[j]
    ensures DifferWithin32(a, b, 8 * k)
  {
    hide Bits;
    forall i | 0 <= i < 8 * |a| && !(8 * k <= i < 8 * k + 32)
      ensures Bits(a)[i] == Bits(b)[i]
    {
      SameBit(a, b, i);
    }
  }

  lemma StartKept(p: bytes, time: u32)
    requires Copyable(p) && p[0] == 0xF5 && p[1] == 0xAA && p[2] % 4 == 0
    ensures var u := Unsigned(p, time);
            u[0] == 0xF5 && u[1] == 0xAA && u[2] % 4 == 0 && u[8] == p[8] && u[9] == p[9]
  {
    hide BigEndian, HasSn;
    FlagsKept(p[2]);
  }

  lemma FlagsKept(f: byte)
    ensures AckFlags(f) % 4 == f % 4 && AckFlags(f) / 4 % 2 == f / 4 % 2
    ensures AckFlags(f) / 8 % 2 == 0 && AckFlags(f) / 16 % 2 == 0 && AckFlags(f) / 32 % 2 == 0
    ensures AckFlags(f) / 64 % 2 == 1 && AckFlags(f) / 128 % 2 == 0
  {
    var r := f % 8;
    DivModUnique(f, 4, 2 * (f / 8) + r / 4, r % 4);
    DivModUnique(2 * (f / 8) + r / 4, 2, f / 8, r / 4);
    DivModUnique(r + 64, 4, 16 + r / 4, r % 4);
    DivModUnique(16 + r / 4, 2, 8, r / 4);
    DivModUnique(r + 64, 8, 8, r);
    DivModUnique(r + 64, 16, 4, r);
    DivModUnique(r + 64, 32, 2, r);
    DivModUnique(r + 64, 64, 1, r);
    DivModUnique(r + 64, 128, 0, r + 64);
  }

  /**
   The acknowledgement of a genuine package verifies exactly when the two length bytes of the package
   already were what is stored over them after signing.
   */
  lemma AckVerifiesExactly(p: bytes, time: u32, customerNo: text)
    requires Copyable(p) && p[0] == 0xF5 && p[1] == 0xAA && p[2] % 4 == 0
    ensures Verify(AckBytes(p, time, customerNo), Some(customerNo)) == Some(p[8] == AckSize(p) && p[9] == 0)
  {
    hide Verify, Crc, WordBytes, Unsigned, AckFlags, DifferWithin32, HasSn;
    var u := Unsigned(p, time);
    var s, a := Signed(u, customerNo), AckBytes(p, time, customerNo);
    var n := |s| - 4;
    StartKept(p, time);
    SignedVerifies(u, customerNo);
    assert s[8] == p[8] && s[9] == p[9];
    if s[8] == a[8] && s[9] == a[9] {
      assert s == a;
    } else {
      TwoBytesDiffer(s[..n], a[..n], 8);
      BurstRejected(s, a, customerNo, 64);
    }
  }

  /** No package that makePackages cuts from a longer message has such a length, so no acknowledgement of one verifies. */
  lemma OwnAckRejected(how: Sending, m: Reassembly.Message, i: nat, stamp: u32, time: u32, customerNo: text)
    requires 1 < SliceCount(|m|) && i < SliceCount(|m|)
    ensures var p := SlicePackage(how, m, i, stamp);
            Copyable(p) && Verify(AckBytes(p, time, customerNo), Some(customerNo)) == Some(false)
  {
    hide Verify, AckBytes, SliceBody, SliceCount, Package, HeaderBytes;
    SliceCountBound(m);
    var s := Slice(i, SliceCount(|m|), BODY_MAX_SIZE * i);
    var p := SlicePackage(how, m, i, stamp);
    PackageStart(how.meta, how.withSn, s, SliceBody(m, i), |m|, stamp, how.customerNo);
    assert p == Package(how.meta, how.withSn, s, SliceBody(m, i), |m|, stamp, how.customerNo);
    AckVerifiesExactly(p, time, customerNo);
    assert AckSize(p) >= 24 > p[8];
  }

  lemma PackageStart(meta: Meta, withSn: bool, s: Slice, body: bytes, length: u16, stamp: u32, no: text)
    requires |body| <= 1024 && s.total > 1
    ensures var p := Package(meta, withSn, s, body, length, stamp, no);
            Copyable(p) && p[0] == 0xF5 && p[1] == 0xAA && p[2] % 4 == 0 && p[8] < 24
  {
    hide Package, WordBytes, Crc, Verify, Word, Weighted, SerialBytes, SliceBytes, BodyLength;
    var p := Package(meta, withSn, s, body, length, stamp, no);
    var size := 12 + (if withSn then 8 else 0) + 4 + |body| + 8;
    BuiltBytes(meta, withSn, s, body, length, stamp, no);
    PackageReadBack(meta, withSn, s, body, length, stamp, no);
    VerifiesExactly(p, no);
    Layout(meta, withSn, s, body, length, stamp, no);
    assert p[8] == size / 256 <= 4;
    assert p[2] % 4 == 0;
  }

  // ----- What an acknowledgement says

  lemma AckByte(p: bytes, time: u32, customerNo: text, i: nat)
    requires Copyable(p) && i < AckSize(p) - 8 && i != 8 && i != 9
    ensures AckBytes(p, time, customerNo)[i] == if i == 2 then AckFlags(p[2]) else p[i]
  {
    hide BigEndian, Crc, WordBytes, HasSn, AckFlags;
  }

  /** It names the message and slice of the package; the length comes out with its two bytes exchanged. */
  lemma AckReadBack(p: bytes, time: u32, customerNo: text)
    requires Copyable(p) && WellFramed(p) && IsSlice(p)
    ensures var a := AckBytes(p, time, customerNo);
            && WellFramed(a) && IsSliceAck(a) && !IsSlice(a) && !Qos(a) && !IsAck(a) && !HasExt(a)
            && Ver(a) == Ver(p) && HasSn(a) == HasSn(p) && Sn(a) == Sn(p)
            && Topic(a) == Topic(p) && Cmd(a) == Cmd(p) && MsgId(a) == MsgId(p) && MsgLength(a) == MsgLength(p)
            && SliceIndex(a) == SliceIndex(p) && SliceTotal(a) == SliceTotal(p) && SliceOffset(a) == SliceOffset(p)
            && Body(a) == [] && Length(a) == 256 * AckSize(p)
  {
    hide FromBigEndian, AckBytes, AckFlags;
    var a := AckBytes(p, time, customerNo);
    FlagsKept(p[2]);
    forall i | 0 <= i < AckSize(p) - 8 && i != 8 && i != 9
      ensures a[i] == if i == 2 then AckFlags(p[2]) else p[i]
    {
      AckByte(p, time, customerNo, i);
    }
    LengthStored(p, time, customerNo);
    assert a[6..8] == p[6..8] && a[10..12] == p[10..12];
    assert HasSn(p) ==> a[12..20] == p[12..20];
    assert a[8..10] == [AckSize(p), 0];
    TwoBytesRead(AckSize(p), 0);
    var at := SliceStart(p);
    assert SliceStart(a) == at && at + 4 == AckSize(p) - 8;
    assert a[at + 2..at + 4] == p[at + 2..at + 4];
  }

  lemma LengthStored(p: bytes, time: u32, customerNo: text)
    requires Copyable(p)
    ensures AckBytes(p, time, customerNo)[8] == AckSize(p) && AckBytes(p, time, customerNo)[9] == 0
  {
    hide BigEndian, Crc, WordBytes, HasSn;
  }
}
