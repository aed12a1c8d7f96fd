/**
 Tag-length-value framing: the variable-length length field, one TLV, and whole streams of
 them as every decoder of the library walks them.
 */
module Tlv {
  import opened Octets
  import opened Buffers

  const MAX_LENGTH_BYTE := 2

  /** Lengths whose field fits the two bytes the reader looks at. */
  const LENGTH_LIMIT := 0x4000

  // ----- The length field

  /** Seven bits per byte, least significant first; the top bit says that more follow. */
  function LengthBytes(n: nat): (b: bytes)
    ensures |b| >= 1
  {
    if n < 128 then [n] else [128 + n % 128] + LengthBytes(n / 128)
  }

  /** What the writer leaves of a length field: at most three bytes. */
  function LengthField(n: nat): (b: bytes)
    ensures |b| <= MAX_LENGTH_BYTE + 1
  {
    Upto(LengthBytes(n), MAX_LENGTH_BYTE + 1)
  }

  datatype Header = Header(length: nat, count: nat)

  /** What the reader makes of the first two bytes it finds. */
  function GetLength(b0: byte, b1: byte): Header {
    if b0 < 128 then Header(b0, 1)
    else if b1 < 128 then Header(b0 % 128 + b1 * 128, 2)
    else Header(b0 % 128 + b1 % 128 * 128, 3)
  }

  /** What follows the data in the caller's memory, by position. */
  type Memory = nat -> byte

  /** The byte at position i, where `beyond` is what the memory holds there past the end. */
  function At(data: bytes, i: nat, beyond: byte): byte {
    if i < |data| then data[i] else beyond
  }

  method GetTlvLength(data: bytes, at: nat, beyond: Memory) returns (length: nat, count: nat)
    ensures Header(length, count) == GetLength(At(data, at, beyond(at)), At(data, at + 1, beyond(at + 1)))
  {
    length, count := 0, 0;
    var weight: nat := 1;
    var more := true;
    while more && count < MAX_LENGTH_BYTE
      invariant 0 <= count <= 2
      invariant count == 0 ==> more && length == 0 && weight == 1
      invariant count == 1 ==> weight == 128 && length == At(data, at, beyond(at)) % 128
      invariant count == 1 ==> more == (At(data, at, beyond(at)) >= 128)
      invariant count == 2 ==> At(data, at, beyond(at)) >= 128
      invariant count == 2 ==> length == At(data, at, beyond(at)) % 128 + At(data, at + 1, beyond(at + 1)) % 128 * 128
      invariant count == 2 ==> more == (At(data, at + 1, beyond(at + 1)) >= 128)
      decreases MAX_LENGTH_BYTE - count
    {
      var b: nat := At(data, at + count, beyond(at + count));
      length := length + b % 128 * weight;
      weight := weight * 128;
      more := b >= 128;
      count := count + 1;
    }
    if more {
      count := count + 1;
    }
  }

  /** Fails when the field does not fit the buffer or needs more than three bytes. */
  method SetTlvLength(length: nat, buf: array<byte>, base: nat, bufSize: int) returns (ok: bool, count: nat)
    requires base <= buf.Length && base + bufSize <= buf.Length
    modifies buf
    ensures ok == (|LengthBytes(length)| <= bufSize && |LengthBytes(length)| <= MAX_LENGTH_BYTE + 1)
    ensures ok ==> count == |LengthBytes(length)| && Holds(buf, base, LengthBytes(length))
    ensures var fitting := Upto(LengthField(length), if bufSize < 0 then 0 else bufSize);
            count == |fitting| && Holds(buf, base, fitting)
    ensures OnlyWithin(buf, base, count)
  {
    hide LengthField, LengthBytes, Upto;
    count := 0;
    var rest := length;
    var more := true;
    ghost var done: bytes := [];
    while more
      invariant (count == 0 || count <= bufSize) && count <= MAX_LENGTH_BYTE + 1
      invariant |done| == count && Holds(buf, base, done)
      invariant LengthBytes(length) == if more then done + LengthBytes(rest) else done
      invariant OnlyWithin(buf, base, count)
      decreases if more then rest + 1 else 0
    {
      if bufSize < count + 1 || count > MAX_LENGTH_BYTE {
        PartOfField(length, done, LengthBytes(rest), if bufSize < 0 then 0 else bufSize);
        return false, count;
      }
      FieldStep(done, rest);
      var b := rest % 128;
      rest := rest / 128;
      if rest > 0 {
        b := b + 128;
      }
      buf[base + count] := b;
      count := count + 1;
      more := rest > 0;
      done := done + [b];
    }
    assert done + [] == done;
    PartOfField(length, done, [], bufSize);
    ok := true;
  }

  lemma FieldUnfolds(n: nat)
    ensures LengthBytes(n) == if n < 128 then [n] else [128 + n % 128] + LengthBytes(n / 128)
  {
  }

  lemma FieldStep(done: bytes, n: nat)
    ensures done + LengthBytes(n) ==
            if n / 128 > 0 then done + [n % 128 + 128] + LengthBytes(n / 128) else done + [n % 128]
  {
    hide LengthBytes;
    FieldUnfolds(n);
    var b := n % 128 + 128;
    assert done + ([b] + LengthBytes(n / 128)) == done + [b] + LengthBytes(n / 128);
  }

  /** What is written when the room, the three bytes or the field itself end. */
  lemma PartOfField(length: nat, done: bytes, rest: bytes, room: nat)
    requires LengthBytes(length) == done + rest && |done| <= room && |done| <= MAX_LENGTH_BYTE + 1
    requires rest == [] || |done| == room || |done| == MAX_LENGTH_BYTE + 1
    ensures Upto(LengthField(length), room) == done
  {
    hide LengthBytes;
    assert (done + rest)[..|done|] == done;
    if |done| < MAX_LENGTH_BYTE + 1 < |done + rest| {
      assert (done + rest)[..MAX_LENGTH_BYTE + 1][..|done|] == done;
    }
  }

  lemma LengthBytesSmall(n: nat)
    requires n < LENGTH_LIMIT
    ensures LengthBytes(n) == if n < 128 then [n] else [128 + n % 128, n / 128]
  {
    if n >= 128 {
      assert LengthBytes(n / 128) == [n / 128];
    }
  }

  /** The reader recovers a written length exactly when it is below 2^14. */
  lemma LengthRoundTrip(n: nat, rest: bytes, beyond: byte)
    requires |LengthBytes(n)| <= 3
    ensures var field := LengthBytes(n) + rest;
            var h := GetLength(At(field, 0, beyond), At(field, 1, beyond));
            h.count == |LengthBytes(n)| && (h.length == n <==> n < 0x4000)
  {
    if n < LENGTH_LIMIT {
      LengthBytesSmall(n);
    } else {
      assert LengthBytes(n) == [128 + n % 128] + ([128 + n / 128 % 128] + LengthBytes(n / 128 / 128));
      assert |LengthBytes(n / 128 / 128)| == 1;
    }
  }

  // ----- One TLV and streams of TLVs

  datatype Tlv = Tlv(tag: byte, body: bytes)

  predicate Short(ts: seq<Tlv>) {
    forall i :: 0 <= i < |ts| ==> |ts[i].body| < LENGTH_LIMIT
  }

  function Frame(t: Tlv): (b: bytes)
    ensures |b| >= 2
  {
    [t.tag] + LengthBytes(|t.body|) + t.body
  }

  function Serialize(ts: seq<Tlv>): bytes {
    if ts == [] then [] else Frame(ts[0]) + Serialize(ts[1..])
  }

  /**
   The TLVs a decoder sees in the data: it stops at the end of the data, or before a TLV whose
   announced end lies past it.
   */
  function Parse(data: bytes): (ts: seq<Tlv>)
    decreases |data|
  {
    if data == [] then [] else
      var h := GetLength(At(data, 1, 0), At(data, 2, 0));
      var start := 1 + h.count;
      if start + h.length > |data| then [] else
        [Tlv(data[0], data[start..start + h.length])] + Parse(data[start + h.length..])
  }

  /** What the memory past the end of the data holds never decides how a TLV is framed. */
  lemma BeyondIsIrrelevant(data: bytes, at: nat, x0: byte, x1: byte, y0: byte, y1: byte)
    requires at <= |data|
    ensures var h := GetLength(At(data, at, x0), At(data, at + 1, x1));
            var k := GetLength(At(data, at, y0), At(data, at + 1, y1));
            h == k || (at + h.count + h.length > |data| && at + k.count + k.length > |data|)
  {
  }

  lemma ParseFrame(t: Tlv, rest: bytes)
    requires |t.body| < LENGTH_LIMIT
    ensures Parse(Frame(t) + rest) == [t] + Parse(rest)
  {
    var data := Frame(t) + rest;
    var field := LengthBytes(|t.body|) + (t.body + rest);
    assert data == [t.tag] + field;
    LengthRoundTrip(|t.body|, t.body + rest, 0) by { LengthBytesSmall(|t.body|); }
    var start := 1 + |LengthBytes(|t.body|)|;
    assert data[start..start + |t.body|] == t.body;
    assert data[start + |t.body|..] == rest;
  }

  /** Writing TLVs and then walking them finds exactly the TLVs written. */
  lemma {:induction false} ParseSerialize(ts: seq<Tlv>, rest: bytes)
    requires Short(ts)
    ensures Parse(Serialize(ts) + rest) == ts + Parse(rest)
  {
    if ts == [] {
      assert Serialize(ts) + rest == rest;
    } else {
      var tail := Serialize(ts[1..]) + rest;
      calc {
        Parse(Serialize(ts) + rest);
        { assert Serialize(ts) + rest == Frame(ts[0]) + tail; }
        Parse(Frame(ts[0]) + tail);
        { ParseFrame(ts[0], tail); }
        [ts[0]] + Parse(tail);
        { ParseSerialize(ts[1..], rest); }
        [ts[0]] + (ts[1..] + Parse(rest));
        ts + Parse(rest);
      }
    }
  }

  lemma ParseWhole(ts: seq<Tlv>)
    requires Short(ts)
    ensures Parse(Serialize(ts)) == ts
  {
    ParseSerialize(ts, []);
    assert Serialize(ts) + [] == Serialize(ts);
    assert ts + Parse([]) == ts;
  }

  /** Of a TLV that is cut off, the announced end lies past what is left. */
  lemma CutFrame(p: bytes, t: Tlv, x: byte, y: byte)
    requires |t.body| < LENGTH_LIMIT && 0 < |p| < |Frame(t)| && p == Frame(t)[..|p|]
    ensures var h := GetLength(At(p, 1, x), At(p, 2, y)); 1 + h.count + h.length > |p|
  {
    LengthBytesSmall(|t.body|);
    var f := Frame(t);
    assert f[1] == LengthBytes(|t.body|)[0];
    assert |LengthBytes(|t.body|)| == 2 ==> f[2] == LengthBytes(|t.body|)[1];
    assert |p| > 1 ==> p[1] == f[1];
    assert |p| > 2 ==> p[2] == f[2];
  }

  /** Walking a stream that is cut off finds the TLVs in front of the cut. */
  lemma {:induction false} ParseCut(ts: seq<Tlv>, n: nat) returns (j: nat)
    requires Short(ts) && n <= |Serialize(ts)|
    ensures j <= |ts| && Parse(Serialize(ts)[..n]) == ts[..j]
    ensures n < |Serialize(ts)| ==> j < |ts|
    ensures n == |Serialize(ts)| ==> j == |ts|
  {
    hide Frame, GetLength, LengthBytes;
    if ts == [] {
      j := 0;
    } else {
      var f := Frame(ts[0]);
      var p := Serialize(ts)[..n];
      if n < |f| {
        j := 0;
        assert p == f[..n];
        if n > 0 {
          CutFrame(p, ts[0], 0, 0);
        }
      } else {
        j := ParseCut(ts[1..], n - |f|);
        assert p == f + Serialize(ts[1..])[..n - |f|];
        ParseFrame(ts[0], Serialize(ts[1..])[..n - |f|]);
        assert ts[..j + 1] == [ts[0]] + ts[1..][..j];
        j := j + 1;
      }
    }
  }

  lemma {:induction false} SerializeAppend(s: seq<Tlv>, t: seq<Tlv>)
    ensures Serialize(s + t) == Serialize(s) + Serialize(t)
  {
    if s == [] {
      assert s + t == t;
    } else {
      assert (s + t)[1..] == s[1..] + t;
      SerializeAppend(s[1..], t);
    }
  }

  lemma SerializeNone()
    ensures Serialize([]) == []
  {
  }

  lemma SerializeOne(t: Tlv)
    ensures Serialize([t]) == Frame(t)
  {
    assert [t][1..] == [];
    assert Serialize([]) == [];
  }

  /** Every TLV occupies at least two bytes, so a stream is never shorter than its list. */
  lemma {:induction false} ParsedSize(data: bytes)
    ensures 2 * |Parse(data)| <= |data|
    decreases |data|
  {
    if data != [] {
      var h := GetLength(At(data, 1, 0), At(data, 2, 0));
      var end := 1 + h.count + h.length;
      if end <= |data| {
        ParsedSize(data[end..]);
      }
    }
  }

  // ----- A TLV at a position of the data

  function HeaderAt(data: bytes, at: nat, beyond: Memory): Header {
    GetLength(At(data, at, beyond(at)), At(data, at + 1, beyond(at + 1)))
  }

  /** A TLV that stands at a position is read from there as it was written. */
  lemma FrameAt(data: bytes, offset: nat, t: Tlv, rest: bytes, beyond: Memory)
    requires offset <= |data| && data[offset..] == Frame(t) + rest
    requires |t.body| < LENGTH_LIMIT
    ensures offset < |data| && data[offset] == t.tag
    ensures var h := HeaderAt(data, offset + 1, beyond);
            var start := offset + 1 + h.count;
            && h.length == |t.body| && start + h.length <= |data|
            && h.count == |LengthBytes(|t.body|)|
            && data[start..start + h.length] == t.body
            && data[start + h.length..] == rest
  {
    LengthBytesSmall(|t.body|);
    var field := LengthBytes(|t.body|);
    var d := data[offset..];
    assert d == [t.tag] + field + t.body + rest;
    assert d[0] == data[offset] && d[1] == data[offset + 1] == field[0];
    assert |field| == 2 ==> d[2] == data[offset + 2] == field[1];
    var start := 1 + |field|;
    assert d[start..start + |t.body|] == t.body && d[start + |t.body|..] == rest;
    assert d[start..start + |t.body|] == data[offset + start..offset + start + |t.body|];
    assert d[start + |t.body|..] == data[offset + start + |t.body|..];
  }

  lemma FrameLength(t: Tlv)
    ensures Frame(t) == [t.tag] + LengthBytes(|t.body|) + t.body
    ensures |Frame(t)| == 1 + |LengthBytes(|t.body|)| + |t.body|
  {
  }

  lemma ShortFrameLength(t: Tlv)
    requires |t.body| < LENGTH_LIMIT
    ensures |Frame(t)| == |t.body| + if |t.body| < 128 then 2 else 3
  {
    LengthBytesSmall(|t.body|);
  }

  // ----- Byte by byte

  lemma TwiceUnfolded(n: nat)
    requires n >= 0x4000
    ensures LengthBytes(n) == [128 + n % 128, 128 + n / 128 % 128] + LengthBytes(n / 16384)
  {
    hide LengthBytes;
    var q := n / 128;
    assert q / 128 == n / 16384 && q >= 128;
    FieldUnfolds(n);
    FieldUnfolds(q);
    assert [128 + n % 128] + ([128 + q % 128] + LengthBytes(q / 128))
        == [128 + n % 128, 128 + q % 128] + LengthBytes(q / 128);
  }

  lemma FirstOfField(q: nat)
    ensures q < 128 ==> LengthBytes(q) == [q]
    ensures q >= 128 ==> |LengthBytes(q)| >= 2 && LengthBytes(q)[0] == 128 + q % 128
  {
  }

  /** A length field of one, two or three bytes; lengths from 2^21 on need more, of which three are written. */
  lemma LengthFieldBytes(n: nat)
    ensures n < 0x80 ==> LengthField(n) == [n]
    ensures 0x80 <= n < 0x4000 ==> LengthField(n) == [128 + n % 128, n / 128]
    ensures 0x4000 <= n < 0x20_0000 ==> LengthField(n) == [128 + n % 128, 128 + n / 128 % 128, n / 16384]
    ensures n >= 0x20_0000 ==> LengthField(n) == [128 + n % 128, 128 + n / 128 % 128, 128 + n / 16384 % 128]
    ensures |LengthBytes(n)| <= 3 <==> n < 0x20_0000
  {
    hide LengthBytes;
    if n < 0x4000 {
      LengthBytesSmall(n);
    } else {
      var q := n / 16384;
      TwiceUnfolded(n);
      FirstOfField(q);
      assert q < 128 <==> n < 0x20_0000;
    }
  }

  /** Tag, length and value of one TLV. */
  lemma FrameBytes(t: Tlv)
    requires |t.body| < 0x4000
    ensures Frame(t) ==
            (if |t.body| < 128 then [t.tag, |t.body|] else [t.tag, 128 + |t.body| % 128, |t.body| / 128]) + t.body
  {
    LengthBytesSmall(|t.body|);
  }

  /** The reader looks at two bytes; a third one is counted but adds nothing. */
  lemma LengthRead(b0: byte, b1: byte)
    ensures b0 < 128 ==> GetLength(b0, b1) == Header(b0, 1)
    ensures b0 >= 128 && b1 < 128 ==> GetLength(b0, b1) == Header((b0 - 128) + 128 * b1, 2)
    ensures b0 >= 128 && b1 >= 128 ==> GetLength(b0, b1) == Header((b0 - 128) + 128 * (b1 - 128), 3)
  {
  }
}
