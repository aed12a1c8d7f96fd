/** CRC-32 as RFC 1952 describes it, in literals: the inverted first word, the inverted result, the check value. */
module Crc32Standard {
  import opened Octets
  import opened Crc32Register
  import opened Crc32Table
  import opened Crc32

  // ----- Starting from ones is starting from zero with the first 32 bits inverted

  /** The input with its first n bits inverted. */
  function Inverted(bits: seq<bool>, n: nat): (r: seq<bool>)
    ensures |r| == |bits|
  {
    seq(|bits|, i requires 0 <= i < |bits| => if i < n then !bits[i] else bits[i])
  }

  /** The low n bits are ones and the others zeros. */
  predicate LowOnes(d: bv32, n: nat) {
    if n == 0 then d == 0 else Odd(d) && LowOnes(Half(d), n - 1)
  }

  lemma AddBits(t: bv32, d: bv32, x: bool)
    requires Odd(d)
    ensures Xor(Xor(t, d), AsBit(x)) == Xor(Xor(t, AsBit(!x)), Even(d))
  {
    hide Xor, Even, AsBit, Odd;
    OddPart(d, x);
    XorAssociative(t, d, AsBit(x));
    XorAssociative(t, AsBit(!x), Even(d));
  }

  lemma OddPart(d: bv32, x: bool)
    requires Odd(d)
    ensures Xor(d, AsBit(x)) == Xor(AsBit(!x), Even(d))
  {
    hide Xor, Even, Odd;
    DropLowBit(d);
    XorZero(d);
    XorZero(Even(d));
    XorCommutes(1, Even(d));
    XorSelf(d, 1);
  }

  lemma PendingOne(t: bv32, d: bv32, x: bool)
    requires Odd(d)
    ensures FeedBit(Xor(t, d), x) == Xor(FeedBit(t, !x), Half(d))
  {
    hide Xor, Half, Even, Odd, AsBit, Shift;
    AddBits(t, d, x);
    ShiftLinear(Xor(t, AsBit(!x)), Even(d));
    ShiftEven(d);
  }

  /** Ones waiting in the low end of the register invert as many bits of the input. */
  lemma {:induction false} PendingOnes(t: bv32, d: bv32, n: nat, xs: seq<bool>)
    requires LowOnes(d, n) && n <= |xs|
    ensures FeedBits(Xor(t, d), xs) == FeedBits(t, Inverted(xs, n))
    decreases n
  {
    hide Xor, Half, Odd, FeedBit;
    if n == 0 {
      XorZero(t);
      assert Inverted(xs, 0) == xs;
    } else {
      PendingOne(t, d, xs[0]);
      PendingOnes(FeedBit(t, !xs[0]), Half(d), n - 1, xs[1..]);
      assert Inverted(xs, n)[1..] == Inverted(xs[1..], n - 1);
    }
  }

  lemma OnesFour(b: bv32, n: nat)
    requires Odd(b) && Odd(Half(b)) && Odd(Half(Half(b))) && Odd(Half(Half(Half(b))))
    requires LowOnes(Half4(b), n)
    ensures LowOnes(b, n + 4)
  {
    hide Odd, Half;
    assert LowOnes(Half(Half(Half(b))), n + 1);
    assert LowOnes(Half(Half(b)), n + 2);
    assert LowOnes(Half(b), n + 3);
  }

  lemma AllOnes()
    ensures LowOnes(0xffffffff, 32)
  {
    assert LowOnes(0, 0);
    assert LowOnes(0xf, 4) by { OnesFour(0xf, 0); }
    assert LowOnes(0xff, 8) by { OnesFour(0xff, 4); }
    assert LowOnes(0xfff, 12) by { OnesFour(0xfff, 8); }
    assert LowOnes(0xffff, 16) by { OnesFour(0xffff, 12); }
    assert LowOnes(0xfffff, 20) by { OnesFour(0xfffff, 16); }
    assert LowOnes(0xffffff, 24) by { OnesFour(0xffffff, 20); }
    assert LowOnes(0xfffffff, 28) by { OnesFour(0xfffffff, 24); }
    OnesFour(0xffffffff, 28);
  }

  /** The bits of a result, each inverted. */
  function Complement(x: bv32): bv32 { x ^ 0xffffffff }

  lemma ComplementIs(x: bv32)
    ensures Xor(x, ONES) == Complement(x)
  {
  }

  /**
   The checksum of four bytes or more, without a start value: the remainder of the bits with the
   first 32 inverted, itself inverted.
   */
  lemma InvertedFirstWord(data: bytes)
    requires |data| >= 4
    ensures Crc(data) == Complement(FeedBits(0, Inverted(Bits(data), 32)))
  {
    hide Xor, FeedBits, Bits, Complement, LowOnes;
    AllOnes();
    PendingOnes(0, 0xffffffff, 32, Bits(data));
    XorZero(0xffffffff);
    ComplementIs(FeedBits(ONES, Bits(data)));
  }

  // ----- Published values

  lemma Step1()
    ensures TableStep(0xffffffff, 0x31) == 0x7c231048
  {
    assert Octet(0x31) == 0x31;
    assert Table(0xce) == 0x7cdcefb7;
  }

  lemma Step2()
    ensures TableStep(0x7c231048, 0x32) == 0xb0acbb32
  {
    assert Octet(0x32) == 0x32;
    assert Table(0x7a) == 0xb0d09822;
  }

  lemma Step3()
    ensures TableStep(0xb0acbb32, 0x33) == 0x77b79c2d
  {
    assert Octet(0x33) == 0x33;
    assert Table(0x01) == 0x77073096;
  }

  lemma Step4()
    ensures TableStep(0x77b79c2d, 0x34) == 0x641c1f5c
  {
    assert Octet(0x34) == 0x34;
    assert Table(0x19) == 0x646ba8c0;
  }

  lemma Step5()
    ensures TableStep(0x641c1f5c, 0x35) == 0x340ac5e3
  {
    assert Octet(0x35) == 0x35;
    assert Table(0x69) == 0x346ed9fc;
  }

  lemma Step6()
    ensures TableStep(0x340ac5e3, 0x36) == 0xf68d2c9e
  {
    assert Octet(0x36) == 0x36;
    assert Table(0xd5) == 0xf6b9265b;
  }

  lemma Step7()
    ensures TableStep(0xf68d2c9e, 0x37) == 0xaffc9660
  {
    assert Octet(0x37) == 0x37;
    assert Table(0xa9) == 0xaf0a1b4c;
  }

  lemma Step8()
    ensures TableStep(0xaffc9660, 0x38) == 0x651f2550
  {
    assert Octet(0x38) == 0x38;
    assert Table(0x58) == 0x65b0d9c6;
  }

  lemma Step9()
    ensures TableStep(0x651f2550, 0x39) == 0x340bc6d9
  {
    assert Octet(0x39) == 0x39;
    assert Table(0x69) == 0x346ed9fc;
  }

  lemma LoopStep(s: bv32, b: byte, rest: bytes, next: bv32)
    requires TableStep(s, b) == next
    ensures TableLoop(s, [b] + rest) == TableLoop(next, rest)
  {
    hide TableStep;
    assert ([b] + rest)[1..] == rest;
  }

  lemma DigitsLoop()
    ensures TableLoop(0xffffffff, [0x31, 0x32, 0x33, 0x34, 0x35, 0x36, 0x37, 0x38, 0x39]) == 0x340bc6d9
  {
    hide TableStep, TableLoop;
    Step1();
    LoopStep(0xffffffff, 0x31, [0x32, 0x33, 0x34, 0x35, 0x36, 0x37, 0x38, 0x39], 0x7c231048);
    Step2();
    LoopStep(0x7c231048, 0x32, [0x33, 0x34, 0x35, 0x36, 0x37, 0x38, 0x39], 0xb0acbb32);
    Step3();
    LoopStep(0xb0acbb32, 0x33, [0x34, 0x35, 0x36, 0x37, 0x38, 0x39], 0x77b79c2d);
    Step4();
    LoopStep(0x77b79c2d, 0x34, [0x35, 0x36, 0x37, 0x38, 0x39], 0x641c1f5c);
    Step5();
    LoopStep(0x641c1f5c, 0x35, [0x36, 0x37, 0x38, 0x39], 0x340ac5e3);
    DigitsLoopEnd();
    assert [0x31] + [0x32, 0x33, 0x34, 0x35, 0x36, 0x37, 0x38, 0x39] == [0x31, 0x32, 0x33, 0x34, 0x35, 0x36, 0x37, 0x38, 0x39];
    assert [0x32] + [0x33, 0x34, 0x35, 0x36, 0x37, 0x38, 0x39] == [0x32, 0x33, 0x34, 0x35, 0x36, 0x37, 0x38, 0x39];
    assert [0x33] + [0x34, 0x35, 0x36, 0x37, 0x38, 0x39] == [0x33, 0x34, 0x35, 0x36, 0x37, 0x38, 0x39];
    assert [0x34] + [0x35, 0x36, 0x37, 0x38, 0x39] == [0x34, 0x35, 0x36, 0x37, 0x38, 0x39];
    assert [0x35] + [0x36, 0x37, 0x38, 0x39] == [0x35, 0x36, 0x37, 0x38, 0x39];
  }

  lemma DigitsLoopEnd()
    ensures TableLoop(0x340ac5e3, [0x36, 0x37, 0x38, 0x39]) == 0x340bc6d9
  {
    hide TableStep;
    Step6();
    LoopStep(0x340ac5e3, 0x36, [0x37, 0x38, 0x39], 0xf68d2c9e);
    Step7();
    LoopStep(0xf68d2c9e, 0x37, [0x38, 0x39], 0xaffc9660);
    Step8();
    LoopStep(0xaffc9660, 0x38, [0x39], 0x651f2550);
    Step9();
    LoopStep(0x651f2550, 0x39, [], 0x340bc6d9);
    assert [0x36] + [0x37, 0x38, 0x39] == [0x36, 0x37, 0x38, 0x39];
    assert [0x37] + [0x38, 0x39] == [0x37, 0x38, 0x39];
    assert [0x38] + [0x39] == [0x38, 0x39];
    assert [0x39] + [] == [0x39];
  }

  /** The published check value of CRC-32: the nine digits. */
  lemma CheckValue()
    ensures Crc(ToBytes("123456789")) == 0xcbf43926
  {
    hide TableLoop, FeedBits, Bits;
    var digits: bytes := [0x31, 0x32, 0x33, 0x34, 0x35, 0x36, 0x37, 0x38, 0x39];
    assert ToBytes("123456789") == digits;
    DigitsLoop();
    TableLoopIsFeedBits(0xffffffff, digits);
  }

  /** A single zero byte. */
  lemma ZeroByte()
    ensures Crc([0]) == 0xd202ef8d
  {
    hide FeedBits, Bits, TableStep;
    StepZero();
    LoopStep(0xffffffff, 0, [], 0x2dfd1072);
    assert [0] + [] == [0 as byte];
    TableLoopIsFeedBits(0xffffffff, [0]);
  }

  lemma StepZero()
    ensures TableStep(0xffffffff, 0) == 0x2dfd1072
  {
    assert Octet(0) == 0;
    assert Table(0xff) == 0x2d02ef8d;
  }
}
