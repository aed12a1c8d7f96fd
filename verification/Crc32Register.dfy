/**
 The reflected 32-bit shift register of CRC-32, taking one bit, eight bits or a whole stream,
 and the algebra of its step.
 */
module Crc32Register {
  import opened Octets

  /** The reflected generator polynomial of CRC-32 (section 8 of RFC 1952). */
  const POLY: bv32 := 0xedb88320

  function Xor(a: bv32, b: bv32): bv32 { a ^ b }

  function Half(a: bv32): bv32 { a >> 1 }

  predicate Odd(a: bv32) { a & 1 == 1 }

  function Even(a: bv32): bv32 { a & 0xfffffffe }

  function Mask(s: bv32): bv32 { if Odd(s) then POLY else 0 }

  function AsBit(b: bool): bv32 { if b then 1 else 0 }

  /** One step of the register with a zero input bit. */
  function Shift(s: bv32): bv32 { Xor(Half(s), Mask(s)) }

  function Shift8(s: bv32): bv32 {
    Shift(Shift(Shift(Shift(Shift(Shift(Shift(Shift(s))))))))
  }

  /** One input bit: it is added to the low end of the register, then the register shifts. */
  function FeedBit(s: bv32, bit: bool): bv32 { Shift(Xor(s, AsBit(bit))) }

  function FeedBits(s: bv32, bits: seq<bool>): bv32
    decreases |bits|
  {
    if bits == [] then s else FeedBits(FeedBit(s, bits[0]), bits[1..])
  }

  lemma {:induction false} FeedBitsAppend(s: bv32, x: seq<bool>, y: seq<bool>)
    ensures FeedBits(s, x + y) == FeedBits(FeedBits(s, x), y)
    decreases |x|
  {
    hide FeedBit;
    if x == [] {
      assert x + y == y;
    } else {
      assert (x + y)[1..] == x[1..] + y;
      FeedBitsAppend(FeedBit(s, x[0]), x[1..], y);
    }
  }

  // ----- Exclusive or

  lemma XorHalf(a: bv32, b: bv32)
    ensures Half(Xor(a, b)) == Xor(Half(a), Half(b))
  {
  }

  lemma XorMask(a: bv32, b: bv32)
    ensures Mask(Xor(a, b)) == Xor(Mask(a), Mask(b))
  {
  }

  lemma XorCommutes(a: bv32, b: bv32)
    ensures Xor(a, b) == Xor(b, a)
  {
  }

  lemma XorAssociative(a: bv32, b: bv32, c: bv32)
    ensures Xor(Xor(a, b), c) == Xor(a, Xor(b, c))
  {
  }

  lemma XorPairs(a: bv32, b: bv32, c: bv32, d: bv32)
    ensures Xor(Xor(a, b), Xor(c, d)) == Xor(Xor(a, c), Xor(b, d))
  {
    hide Xor;
    XorAssociative(Xor(a, b), c, d);
    XorAssociative(a, b, c);
    XorCommutes(b, c);
    XorAssociative(a, c, b);
    XorAssociative(Xor(a, c), b, d);
  }

  lemma XorZero(a: bv32)
    ensures Xor(a, 0) == a && Xor(0, a) == a
  {
  }

  lemma XorSelf(a: bv32, b: bv32)
    ensures Xor(Xor(a, b), b) == a && Xor(a, a) == 0
    ensures Xor(a, b) == 0 ==> a == b
  {
  }

  lemma DropLowBit(d: bv32)
    ensures Xor(d, AsBit(Odd(d))) == Even(d)
  {
    assert d & 1 == 0 || d & 1 == 1;
  }

  lemma SplitLowBit(t: bv32, d: bv32)
    ensures Xor(Xor(t, d), AsBit(Odd(d))) == Xor(t, Even(d))
  {
    hide Xor, Odd, Even, AsBit;
    XorAssociative(t, d, AsBit(Odd(d)));
    DropLowBit(d);
  }

  lemma EvenPart(d: bv32)
    ensures !Odd(Even(d)) && Half(Even(d)) == Half(d)
  {
  }

  /** The register step is linear over exclusive or. */
  lemma ShiftLinear(a: bv32, b: bv32)
    ensures Shift(Xor(a, b)) == Xor(Shift(a), Shift(b))
  {
    hide Xor, Half, Mask;
    XorHalf(a, b);
    XorMask(a, b);
    XorPairs(Half(a), Half(b), Mask(a), Mask(b));
  }

  lemma ShiftEven(d: bv32)
    ensures Shift(Even(d)) == Half(d)
  {
    hide Xor, Half, Even, Odd;
    EvenPart(d);
    XorZero(Half(d));
  }

  // ----- A byte at a time

  /** Adding pending input d to the register before stepping, or a bit at a time: the same. */
  lemma PendingStep(t: bv32, d: bv32)
    ensures FeedBit(Xor(t, d), Odd(d)) == Xor(Shift(t), Half(d))
  {
    hide Xor, Half, Even, Odd, AsBit, Shift;
    SplitLowBit(t, d);
    ShiftLinear(t, Even(d));
    ShiftEven(d);
  }

  function Half4(d: bv32): bv32 { Half(Half(Half(Half(d)))) }

  function Shift4(s: bv32): bv32 { Shift(Shift(Shift(Shift(s)))) }

  lemma PendingFour(t: bv32, d: bv32)
    ensures FeedBit(FeedBit(FeedBit(FeedBit(Xor(t, d), Odd(d)), Odd(Half(d))), Odd(Half(Half(d)))),
                    Odd(Half(Half(Half(d))))) == Xor(Shift4(t), Half4(d))
  {
    hide Xor, Half, Even, Odd, AsBit, Shift, FeedBit;
    PendingStep(t, d);
    PendingStep(Shift(t), Half(d));
    PendingStep(Shift(Shift(t)), Half(Half(d)));
    PendingStep(Shift(Shift(Shift(t))), Half(Half(Half(d))));
  }

  /** The byte as a bit vector: bit i is binary digit i. */
  function Octet(b: byte): bv8 {
    (if Digit(b, 128) then 0x80 else 0) | (if Digit(b, 64) then 0x40 else 0) |
    (if Digit(b, 32) then 0x20 else 0) | (if Digit(b, 16) then 0x10 else 0) |
    (if Digit(b, 8) then 0x08 else 0) | (if Digit(b, 4) then 0x04 else 0) |
    (if Digit(b, 2) then 0x02 else 0) | (if Digit(b, 1) then 0x01 else 0)
  }

  predicate Digit(b: byte, weight: nat)
    requires weight > 0
  {
    b / weight % 2 == 1
  }

  /** The bits of a byte, least significant first. */
  function OctetBits(c: bv8): (bits: seq<bool>)
    ensures |bits| == 8
  {
    [c & 0x01 != 0, c & 0x02 != 0, c & 0x04 != 0, c & 0x08 != 0,
     c & 0x10 != 0, c & 0x20 != 0, c & 0x40 != 0, c & 0x80 != 0]
  }

  function LowBits(d: bv32): seq<bool> {
    [Odd(d), Odd(Half(d)), Odd(Half(Half(d))), Odd(Half(Half(Half(d))))]
  }

  lemma OctetBitsAre(c: bv8)
    ensures OctetBits(c) == LowBits(c as bv32) + LowBits(Half4(c as bv32))
  {
  }

  lemma OctetEmpties(c: bv8)
    ensures Half4(Half4(c as bv32)) == 0
  {
  }

  lemma FeedLowBits(t: bv32, d: bv32)
    ensures FeedBits(Xor(t, d), LowBits(d)) == Xor(Shift4(t), Half4(d))
  {
    hide Xor, Half, Even, Odd, AsBit, Shift, FeedBit, Shift4, Half4;
    PendingFour(t, d);
    FeedFourBits(Xor(t, d), Odd(d), Odd(Half(d)), Odd(Half(Half(d))), Odd(Half(Half(Half(d)))));
  }

  lemma FeedFourBits(s: bv32, b0: bool, b1: bool, b2: bool, b3: bool)
    ensures FeedBits(s, [b0, b1, b2, b3]) == FeedBit(FeedBit(FeedBit(FeedBit(s, b0), b1), b2), b3)
  {
    hide FeedBit;
    var s2 := FeedBit(FeedBit(s, b0), b1);
    FeedTwoBits(s2, b2, b3);
    assert [b0, b1, b2, b3] == [b0, b1] + [b2, b3];
    FeedTwoBits(s, b0, b1);
    FeedBitsAppend(s, [b0, b1], [b2, b3]);
  }

  lemma FeedTwoBits(s: bv32, b0: bool, b1: bool)
    ensures FeedBits(s, [b0, b1]) == FeedBit(FeedBit(s, b0), b1)
  {
    hide FeedBit;
    assert [b0, b1][1..] == [b1] && [b1][1..] == [];
    assert FeedBits(FeedBit(s, b0), [b1]) == FeedBits(FeedBit(FeedBit(s, b0), b1), []);
  }

  /** Feeding the eight bits of a byte is adding the byte and stepping eight times. */
  lemma FeedOctet(s: bv32, c: bv8)
    ensures FeedBits(s, OctetBits(c)) == Shift8(Xor(s, c as bv32))
  {
    hide Xor, Half, Even, Odd, AsBit, Shift, FeedBit, FeedBits, LowBits, Half4, OctetBits;
    var d := c as bv32;
    var t := Xor(s, d);
    XorSelf(s, d);
    OctetBitsAre(c);
    FeedBitsAppend(s, LowBits(d), LowBits(Half4(d)));
    FeedLowBits(t, d);
    FeedLowBits(Shift4(t), Half4(d));
    OctetEmpties(c);
    XorZero(Shift4(Shift4(t)));
  }
}
