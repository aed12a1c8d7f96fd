/** Errors the CRC-32 signature always catches: changes confined to 32 consecutive bits. */
module Crc32Bursts {
  import opened Octets
  import opened Crc32Register
  import opened Crc32

  // ----- The register forgets nothing

  lemma ShiftZero(x: bv32)
    requires Shift(x) == 0
    ensures x == 0
  {
  }

  lemma ShiftInjective(a: bv32, b: bv32)
    requires Shift(a) == Shift(b)
    ensures a == b
  {
    hide Shift, Xor;
    ShiftLinear(a, b);
    XorSelf(Shift(a), Shift(b));
    ShiftZero(Xor(a, b));
    XorSelf(a, b);
  }

  lemma FeedBitInjective(s: bv32, t: bv32, bit: bool)
    requires FeedBit(s, bit) == FeedBit(t, bit)
    ensures s == t
  {
    hide Shift, Xor, AsBit;
    ShiftInjective(Xor(s, AsBit(bit)), Xor(t, AsBit(bit)));
    XorSelf(s, AsBit(bit));
    XorSelf(t, AsBit(bit));
  }

  /** Two different registers stay different over any common input. */
  lemma {:induction false} FeedBitsInjective(s: bv32, t: bv32, bits: seq<bool>)
    requires FeedBits(s, bits) == FeedBits(t, bits)
    ensures s == t
    decreases |bits|
  {
    hide FeedBit;
    if bits != [] {
      FeedBitsInjective(FeedBit(s, bits[0]), FeedBit(t, bits[0]), bits[1..]);
      FeedBitInjective(s, t, bits[0]);
    }
  }

  // ----- A difference needs 32 steps to leave the register

  predicate AtLeast(d: bv32, bound: bv32) { d >= bound }

  /** The bound can be halved n times without losing a bit. */
  predicate Halves(bound: bv32, n: nat) {
    if n == 0 then bound != 0 else !Odd(bound) && Halves(Half(bound), n - 1)
  }

  lemma AddedBit(d: bv32, e: bv32, bound: bv32)
    requires AtLeast(d, bound) && !Odd(bound) && e <= 1
    ensures AtLeast(Xor(d, e), bound)
  {
  }

  lemma ShiftedBound(d: bv32, bound: bv32)
    requires AtLeast(d, bound)
    ensures AtLeast(Shift(d), Half(bound))
  {
  }

  lemma BitDifference(x: bool, y: bool)
    ensures Xor(AsBit(x), AsBit(y)) <= 1
    ensures x != y ==> Xor(AsBit(x), AsBit(y)) == 1
  {
  }

  lemma DifferenceStep(s: bv32, t: bv32, x: bool, y: bool)
    ensures Xor(FeedBit(s, x), FeedBit(t, y)) == Shift(Xor(Xor(s, t), Xor(AsBit(x), AsBit(y))))
  {
    hide Shift, Xor, AsBit;
    ShiftLinear(Xor(s, AsBit(x)), Xor(t, AsBit(y)));
    XorPairs(s, AsBit(x), t, AsBit(y));
  }

  /** A difference of at least `bound` survives as many further bits, equal or not, as bound halves. */
  lemma {:induction false} DifferenceSurvives(s: bv32, t: bv32, xs: seq<bool>, ys: seq<bool>, bound: bv32)
    requires |xs| == |ys| && Halves(bound, |xs|)
    requires AtLeast(Xor(s, t), bound)
    ensures FeedBits(s, xs) != FeedBits(t, ys)
    decreases |xs|
  {
    hide FeedBit, Xor, Shift, AsBit, Half, Odd, AtLeast;
    if xs == [] {
      XorSelf(s, s);
      NotAtLeast(bound);
    } else {
      var d, e := Xor(s, t), Xor(AsBit(xs[0]), AsBit(ys[0]));
      BitDifference(xs[0], ys[0]);
      AddedBit(d, e, bound);
      ShiftedBound(Xor(d, e), bound);
      DifferenceStep(s, t, xs[0], ys[0]);
      DifferenceSurvives(FeedBit(s, xs[0]), FeedBit(t, ys[0]), xs[1..], ys[1..], Half(bound));
    }
  }

  lemma NotAtLeast(bound: bv32)
    ensures AtLeast(0, bound) ==> bound == 0
  {
  }

  lemma HalvesDown(bound: bv32, n: nat, m: nat)
    requires Halves(bound, n) && m <= n && HalvesNonZero(bound)
    ensures Halves(bound, m)
    decreases n
  {
    if m > 0 {
      HalfNonZero(bound);
      HalvesDown(Half(bound), n - 1, m - 1);
    }
  }

  predicate HalvesNonZero(bound: bv32) { bound != 0 }

  lemma HalfNonZero(bound: bv32)
    requires !Odd(bound) && HalvesNonZero(bound)
    ensures HalvesNonZero(Half(bound))
  {
  }

  lemma TopBitHalves()
    ensures Halves(0x80000000, 31)
  {
    assert Halves(0x8, 3);
    assert Halves(0x80, 7) by { HalveFour(0x80, 3); }
    assert Halves(0x800, 11) by { HalveFour(0x800, 7); }
    assert Halves(0x8000, 15) by { HalveFour(0x8000, 11); }
    assert Halves(0x80000, 19) by { HalveFour(0x80000, 15); }
    assert Halves(0x800000, 23) by { HalveFour(0x800000, 19); }
    assert Halves(0x8000000, 27) by { HalveFour(0x8000000, 23); }
    HalveFour(0x80000000, 27);
  }

  lemma HalveFour(b: bv32, n: nat)
    requires !Odd(b) && !Odd(Half(b)) && !Odd(Half(Half(b))) && !Odd(Half(Half(Half(b))))
    requires Halves(Half4(b), n)
    ensures Halves(b, n + 4)
  {
    hide Odd, Half;
    assert Halves(Half(Half(Half(b))), n + 1);
    assert Halves(Half(Half(b)), n + 2);
    assert Halves(Half(b), n + 3);
  }

  /** From one register state, two different inputs of at most 32 bits give different registers. */
  lemma {:induction false} WindowDetected(s: bv32, xs: seq<bool>, ys: seq<bool>)
    requires |xs| == |ys| <= 32 && xs != ys
    ensures FeedBits(s, xs) != FeedBits(s, ys)
    decreases |xs|
  {
    hide FeedBit, Xor, Shift, AsBit, Half, Odd, AtLeast, Halves;
    if xs[0] == ys[0] {
      assert xs == [xs[0]] + xs[1..] && ys == [ys[0]] + ys[1..];
      WindowDetected(FeedBit(s, xs[0]), xs[1..], ys[1..]);
    } else {
      FirstDifference(s, xs[0], ys[0]);
      TopBitHalves();
      TopBitNonZero();
      HalvesDown(0x80000000, 31, |xs| - 1);
      DifferenceSurvives(FeedBit(s, xs[0]), FeedBit(s, ys[0]), xs[1..], ys[1..], 0x80000000);
    }
  }

  lemma TopBitNonZero()
    ensures HalvesNonZero(0x80000000)
  {
  }

  /** A single differing bit turns into the polynomial, whose top bit is set. */
  lemma FirstDifference(s: bv32, x: bool, y: bool)
    requires x != y
    ensures AtLeast(Xor(FeedBit(s, x), FeedBit(s, y)), 0x80000000)
  {
    hide FeedBit, Xor, Shift, AsBit, AtLeast;
    DifferenceStep(s, s, x, y);
    BitDifference(x, y);
    XorSelf(s, s);
    XorZero(Xor(AsBit(x), AsBit(y)));
    ShiftOne();
  }

  lemma ShiftOne()
    ensures AtLeast(Shift(1), 0x80000000)
  {
  }

  // ----- Whole inputs

  lemma OctetDigits(b: byte)
    ensures OctetBits(Octet(b)) == [Digit(b, 1), Digit(b, 2), Digit(b, 4), Digit(b, 8),
                                    Digit(b, 16), Digit(b, 32), Digit(b, 64), Digit(b, 128)]
  {
    hide Digit;
  }

  lemma DigitsInjective(a: byte, b: byte)
    requires Digit(a, 1) == Digit(b, 1) && Digit(a, 2) == Digit(b, 2)
    requires Digit(a, 4) == Digit(b, 4) && Digit(a, 8) == Digit(b, 8)
    requires Digit(a, 16) == Digit(b, 16) && Digit(a, 32) == Digit(b, 32)
    requires Digit(a, 64) == Digit(b, 64) && Digit(a, 128) == Digit(b, 128)
    ensures a == b
  {
    HalvesOfByte(a);
    HalvesOfByte(b);
    NextDigit(a / 128, b / 128);
    NextDigit(a / 64, b / 64);
    NextDigit(a / 32, b / 32);
    NextDigit(a / 16, b / 16);
    NextDigit(a / 8, b / 8);
    NextDigit(a / 4, b / 4);
    NextDigit(a / 2, b / 2);
    NextDigit(a, b);
  }

  lemma NextDigit(x: nat, y: nat)
    requires x / 2 == y / 2 && x % 2 == y % 2
    ensures x == y
  {
  }

  lemma HalvesOfByte(b: byte)
    ensures b / 128 / 2 == 0
    ensures b / 64 / 2 == b / 128 && b / 32 / 2 == b / 64 && b / 16 / 2 == b / 32 && b / 8 / 2 == b / 16
    ensures b / 4 / 2 == b / 8 && b / 2 / 2 == b / 4
  {
  }

  lemma OctetInjective(a: byte, b: byte)
    requires OctetBits(Octet(a)) == OctetBits(Octet(b))
    ensures a == b
  {
    hide Digit, Octet, OctetBits;
    OctetDigits(a);
    OctetDigits(b);
    var x, y := OctetBits(Octet(a)), OctetBits(Octet(b));
    assert x[0] == y[0] && x[1] == y[1] && x[2] == y[2] && x[3] == y[3];
    assert x[4] == y[4] && x[5] == y[5] && x[6] == y[6] && x[7] == y[7];
    DigitsInjective(a, b);
  }

  lemma {:induction false} BitsInjective(a: bytes, b: bytes)
    requires |a| == |b| && Bits(a) == Bits(b)
    ensures a == b
  {
    hide OctetBits, Octet;
    if a != [] {
      assert Bits(a)[..8] == OctetBits(Octet(a[0])) && Bits(a)[8..] == Bits(a[1..]);
      assert Bits(b)[..8] == OctetBits(Octet(b[0])) && Bits(b)[8..] == Bits(b[1..]);
      OctetInjective(a[0], b[0]);
      BitsInjective(a[1..], b[1..]);
      assert a == [a[0]] + a[1..] && b == [b[0]] + b[1..];
    }
  }

  /** The inputs agree in every bit outside the 32 bits from p on. */
  ghost predicate DifferWithin32(a: bytes, b: bytes, p: nat) {
    && |a| == |b|
    && forall i :: 0 <= i < 8 * |a| && !(p <= i < p + 32) ==> Bits(a)[i] == Bits(b)[i]
  }

  /** The main result: an error burst of at most 32 bits changes the CRC. */
  lemma BurstDetected(a: bytes, b: bytes, p: nat)
    requires DifferWithin32(a, b, p) && a != b
    ensures Crc(a) != Crc(b)
  {
    hide FeedBits, Bits, Xor;
    var x, y := Bits(a), Bits(b);
    if x == y {
      BitsInjective(a, b);
    }
    var n := |x|;
    var lo := if p <= n then p else n;
    var hi := if p + 32 <= n then p + 32 else n;
    assert x == x[..lo] + x[lo..hi] + x[hi..] && y == y[..lo] + y[lo..hi] + y[hi..];
    assert x[..lo] == y[..lo] && x[hi..] == y[hi..];
    var s := FeedBits(ONES, x[..lo]);
    WindowDetected(s, x[lo..hi], y[lo..hi]);
    FeedThree(ONES, x[..lo], x[lo..hi], x[hi..]);
    FeedThree(ONES, y[..lo], y[lo..hi], y[hi..]);
    if FeedBits(ONES, x) == FeedBits(ONES, y) {
      FeedBitsInjective(FeedBits(s, x[lo..hi]), FeedBits(s, y[lo..hi]), x[hi..]);
    }
    XorSelf(FeedBits(ONES, x), ONES);
    XorSelf(FeedBits(ONES, y), ONES);
  }

  lemma FeedThree(s: bv32, x: seq<bool>, y: seq<bool>, z: seq<bool>)
    ensures FeedBits(s, x + y + z) == FeedBits(FeedBits(FeedBits(s, x), y), z)
  {
    FeedBitsAppend(s, x + y, z);
    FeedBitsAppend(s, x, y);
  }
}
