/** Bytes, big-endian numbers, byte strings and hexadecimal text. */
module Octets {
  type byte = b: int | 0 <= b < 256
  type bytes = seq<byte>

  type u16 = n: nat | n < 0x1_0000
  type u32 = n: nat | n < 0x1_0000_0000
  type u64 = n: nat | n < 0x1_0000_0000_0000_0000

  /** A C++ std::string: every character is one byte. */
  type text = s: string | IsText(s)

  predicate IsText(s: string) {
    forall i :: 0 <= i < |s| ==> s[i] as int < 256
  }

  datatype Option<+T> = None | Some(value: T)

  function ToBytes(s: text): (b: bytes)
    ensures |b| == |s|
  {
    seq(|s|, i requires 0 <= i < |s| => s[i] as int)
  }

  function FromBytes(b: bytes): (s: text)
    ensures |s| == |b|
  {
    seq(|b|, i requires 0 <= i < |b| => b[i] as char)
  }

  lemma TextRoundTrip(s: text)
    ensures FromBytes(ToBytes(s)) == s
  {
    assert forall i :: 0 <= i < |s| ==> FromBytes(ToBytes(s))[i] == s[i];
  }

  // ----- Big-endian numbers

  function Pow256(w: nat): (p: nat)
    ensures p > 0
  {
    if w == 0 then 1 else 256 * Pow256(w - 1)
  }

  /** The low w bytes of n, most significant first. */
  function BigEndian(n: nat, w: nat): (b: bytes)
    ensures |b| == w
  {
    if w == 0 then [] else BigEndian(n / 256, w - 1) + [n % 256]
  }

  function FromBigEndian(b: bytes): nat {
    if |b| == 0 then 0 else FromBigEndian(b[..|b| - 1]) * 256 + b[|b| - 1]
  }

  lemma DivModUnique(n: int, p: int, q: int, r: int)
    requires p > 0 && 0 <= r < p && n == q * p + r
    ensures n / p == q && n % p == r
  {
    var d := n / p - q;
    assert d * p == r - n % p by {
      assert n == (n / p) * p + n % p;
      assert (n / p - q) * p == (n / p) * p - q * p;
    }
  }

  lemma SplitLowByte(n: nat, p: nat)
    requires p > 0
    ensures n % (256 * p) == (n / 256 % p) * 256 + n % 256
  {
    var q, r := n / 256 / p, n / 256 % p;
    assert n / 256 == q * p + r;
    assert n == q * (256 * p) + (r * 256 + n % 256) by {
      assert n == (q * p + r) * 256 + n % 256;
      assert (q * p + r) * 256 == q * (256 * p) + r * 256;
    }
    DivModUnique(n, 256 * p, q, r * 256 + n % 256);
  }

  /** Writing a number in w bytes and reading it back truncates it to w bytes. */
  lemma {:induction false} BigEndianRoundTrip(n: nat, w: nat)
    ensures FromBigEndian(BigEndian(n, w)) == n % Pow256(w)
  {
    if w == 0 {
    } else {
      var b := BigEndian(n, w);
      assert b[..w - 1] == BigEndian(n / 256, w - 1);
      BigEndianRoundTrip(n / 256, w - 1);
      SplitLowByte(n, Pow256(w - 1));
    }
  }

  lemma {:induction false} FromBigEndianBound(b: bytes)
    ensures FromBigEndian(b) < Pow256(|b|)
  {
    if |b| == 0 {
    } else {
      FromBigEndianBound(b[..|b| - 1]);
    }
  }

  /** The other direction: w bytes are the big-endian form of the number they hold. */
  lemma {:induction false} FromBigEndianRoundTrip(b: bytes)
    ensures BigEndian(FromBigEndian(b), |b|) == b
  {
    if |b| == 0 {
    } else {
      var hi, lo := b[..|b| - 1], b[|b| - 1];
      FromBigEndianRoundTrip(hi);
      assert FromBigEndian(b) / 256 == FromBigEndian(hi) && FromBigEndian(b) % 256 == lo;
      assert b == hi + [lo];
    }
  }

  // ----- The same numbers byte by byte

  lemma LastByte(n: nat, w: nat)
    ensures BigEndian(n, w + 1) == BigEndian(n / 256, w) + [n % 256]
  {
  }

  /** A number of 16 bits: the high byte comes first. */
  lemma TwoBytes(n: nat)
    ensures BigEndian(n, 2) == [n / 256 % 256, n % 256]
  {
    hide BigEndian;
    LastByte(n, 1);
    LastByte(n / 256, 0);
    assert BigEndian(n / 256 / 256, 0) == [];
  }

  lemma QuarterDivisors(n: nat)
    ensures n / 65536 / 256 == n / 16777216 && n / 256 / 256 == n / 65536
  {
  }

  /** A number of 32 bits. */
  lemma FourBytes(n: nat)
    ensures BigEndian(n, 4) == [n / 16777216 % 256, n / 65536 % 256, n / 256 % 256, n % 256]
  {
    hide BigEndian;
    LastByte(n, 3);
    LastByte(n / 256, 2);
    QuarterDivisors(n);
    TwoBytes(n / 65536);
  }

  lemma HighHalf(n: nat)
    ensures n / 0x1_0000_0000 == n / 256 / 256 / 256 / 256
  {
  }

  /** A number of 64 bits is its high 32 bits and then its low ones. */
  lemma EightBytes(n: nat)
    ensures BigEndian(n, 8) == BigEndian(n / 0x1_0000_0000, 4) + BigEndian(n, 4)
  {
    hide BigEndian;
    HighHalf(n);
    LastByte(n, 7);
    LastByte(n / 256, 6);
    LastByte(n / 256 / 256, 5);
    LastByte(n / 256 / 256 / 256, 4);
    QuarterDivisors(n);
    FourBytes(n);
  }

  lemma LastByteRead(b: bytes, x: byte)
    ensures FromBigEndian(b + [x]) == FromBigEndian(b) * 256 + x
  {
    assert (b + [x])[..|b|] == b;
  }

  lemma TwoBytesRead(a: byte, b: byte)
    ensures FromBigEndian([a, b]) == a * 256 + b
  {
    LastByteRead([a], b);
    LastByteRead([], a);
    assert [a] + [b] == [a, b] && [] + [a] == [a];
  }

  lemma FourBytesRead(a: byte, b: byte, c: byte, d: byte)
    ensures FromBigEndian([a, b, c, d]) == ((a * 256 + b) * 256 + c) * 256 + d
  {
    hide FromBigEndian;
    TwoBytesRead(a, b);
    LastByteRead([a, b], c);
    LastByteRead([a, b, c], d);
    assert [a, b] + [c] == [a, b, c] && [a, b, c] + [d] == [a, b, c, d];
  }

  lemma EightBytesRead(x: bytes, y: bytes)
    requires |x| == 4 && |y| == 4
    ensures FromBigEndian(x + y) == FromBigEndian(x) * 0x1_0000_0000 + FromBigEndian(y)
  {
    hide FromBigEndian;
    var a, b, c, d := y[0], y[1], y[2], y[3];
    FourBytesRead(a, b, c, d);
    LastByteRead(x, a);
    LastByteRead(x + [a], b);
    LastByteRead(x + [a] + [b], c);
    LastByteRead(x + [a] + [b] + [c], d);
    assert y == [a, b, c, d];
    assert x + [a] + [b] + [c] + [d] == x + y;
  }

  /** The four bytes of a 32-bit number, spelled out. */
  function Word(n: u32): (b: bytes)
    ensures |b| == 4
  {
    [n / 16777216, n / 65536 % 256, n / 256 % 256, n % 256]
  }

  lemma WordIs(n: u32)
    ensures BigEndian(n, 4) == Word(n) && FromBigEndian(Word(n)) == n
  {
    hide BigEndian, FromBigEndian;
    FourBytes(n);
    BigEndianRoundTrip(n, 4);
    FourBytePower();
  }

  lemma SameLowBytes(n: nat)
    ensures var m := n % 0x1_0000_0000;
            m / 16777216 % 256 == n / 16777216 % 256 && m / 65536 % 256 == n / 65536 % 256
            && m / 256 % 256 == n / 256 % 256 && m % 256 == n % 256
  {
    var q, m := n / 0x1_0000_0000, n % 0x1_0000_0000;
    assert n / 16777216 == q * 256 + m / 16777216;
    assert n / 65536 == q * 65536 + m / 65536;
    assert n / 256 == q * 16777216 + m / 256;
    DivModUnique(n / 16777216, 256, q + m / 16777216 / 256, m / 16777216 % 256);
    DivModUnique(n / 65536, 256, q * 256 + m / 65536 / 256, m / 65536 % 256);
    DivModUnique(n / 256, 256, q * 65536 + m / 256 / 256, m / 256 % 256);
    DivModUnique(n, 256, q * 16777216 + m / 256, m % 256);
  }

  lemma LowWordIs(n: nat)
    ensures BigEndian(n, 4) == Word(n % 0x1_0000_0000)
  {
    hide BigEndian;
    FourBytes(n);
    SameLowBytes(n);
  }

  /** A 64-bit number is two words. */
  lemma DoubleWordIs(n: u64)
    ensures n / 0x1_0000_0000 < 0x1_0000_0000
    ensures BigEndian(n, 8) == Word(n / 0x1_0000_0000) + Word(n % 0x1_0000_0000)
  {
    hide BigEndian;
    EightBytes(n);
    WordIs(n / 0x1_0000_0000);
    LowWordIs(n);
  }

  lemma FourBytePower()
    ensures Pow256(4) == 0x1_0000_0000
  {
    assert Pow256(2) == 0x1_0000;
  }

  // ----- Hexadecimal text

  function HexDigit(n: nat): char
    requires n < 16
  {
    if n < 10 then '0' + n as char else 'A' + (n - 10) as char
  }

  /** The value of a hexadecimal digit of either case; 255 for any other character. */
  function HexValue(c: char): (n: byte)
    ensures n < 16 || n == 255
  {
    if '0' <= c <= '9' then c as int - '0' as int
    else if 'a' <= c <= 'f' then 10 + c as int - 'a' as int
    else if 'A' <= c <= 'F' then 10 + c as int - 'A' as int
    else 255
  }

  function HexOf(b: bytes): (s: text)
    ensures |s| == 2 * |b|
  {
    seq(2 * |b|, i requires 0 <= i < 2 * |b| =>
      HexDigit(if i % 2 == 0 then b[i / 2] / 16 else b[i / 2] % 16))
  }

  /** Every character of every whole pair is a hexadecimal digit. */
  predicate HexPairs(s: string) {
    forall i :: 0 <= i < |s| / 2 * 2 ==> HexValue(s[i]) < 16
  }

  function HexBytes(s: string): (b: bytes)
    requires HexPairs(s)
    ensures |b| == |s| / 2
  {
    seq(|s| / 2, i requires 0 <= i < |s| / 2 => HexValue(s[2 * i]) * 16 + HexValue(s[2 * i + 1]))
  }

  function UpperHex(c: char): char {
    if 'a' <= c <= 'f' then 'A' + (c as int - 'a' as int) as char else c
  }

  /** The upper-case form of the whole pairs of s. */
  function UpperPairs(s: text): (u: text)
    ensures |u| == |s| / 2 * 2
  {
    seq(|s| / 2 * 2, i requires 0 <= i < |s| / 2 * 2 => UpperHex(s[i]))
  }

  lemma HexDigitRoundTrip(c: char)
    requires HexValue(c) < 16
    ensures HexDigit(HexValue(c)) == UpperHex(c)
  {
  }

  lemma HexPairRoundTrip(s: text, k: nat)
    requires HexPairs(s) && k < |s| / 2
    ensures HexOf(HexBytes(s))[2 * k] == UpperHex(s[2 * k])
    ensures HexOf(HexBytes(s))[2 * k + 1] == UpperHex(s[2 * k + 1])
  {
    var b, hi, lo := HexBytes(s), HexValue(s[2 * k]), HexValue(s[2 * k + 1]);
    assert hi < 16 && lo < 16;
    assert b[k] == hi * 16 + lo;
    assert b[k] / 16 == hi && b[k] % 16 == lo;
    assert HexOf(b)[2 * k] == HexDigit(b[k] / 16);
    assert (2 * k + 1) / 2 == k;
    assert HexOf(b)[2 * k + 1] == HexDigit(b[k] % 16);
    HexDigitRoundTrip(s[2 * k]);
    HexDigitRoundTrip(s[2 * k + 1]);
  }

  /** Decoding hexadecimal text and printing it gives its whole pairs in upper case. */
  lemma HexRoundTrip(s: text)
    requires HexPairs(s)
    ensures HexOf(HexBytes(s)) == UpperPairs(s)
  {
    forall i | 0 <= i < |s| / 2 * 2
      ensures HexOf(HexBytes(s))[i] == UpperPairs(s)[i]
    {
      HexPairRoundTrip(s, i / 2);
      assert i == 2 * (i / 2) || i == 2 * (i / 2) + 1;
    }
  }

  /** The sixteen digits, printed. */
  lemma HexPrinted()
    ensures HexOf([0x01, 0x23, 0x45, 0x67, 0x89, 0xAB, 0xCD, 0xEF]) == "0123456789ABCDEF"
  {
  }

  /** The sixteen digits, read in both cases; an odd last one is left over. */
  lemma HexRead()
    ensures HexPairs("0123456789aBcDeFf")
    ensures HexBytes("0123456789aBcDeFf") == [0x01, 0x23, 0x45, 0x67, 0x89, 0xAB, 0xCD, 0xEF]
  {
    var s := "0123456789aBcDeFf";
    assert s[0] == '0' && s[1] == '1' && s[2] == '2' && s[3] == '3' && s[4] == '4' && s[5] == '5' && s[6] == '6' && s[7] == '7';
  }

  /** The neighbours of the digits and letters are no digits. */
  lemma HexNeighbours()
    ensures HexValue('/') == 255 && HexValue(':') == 255 && HexValue('@') == 255 && HexValue('G') == 255
    ensures HexValue('`') == 255 && HexValue('g') == 255
    ensures HexValue('a') == 10 && HexValue('f') == 15 && HexValue('A') == 10 && HexValue('F') == 15
  {
  }

  /** Characters are stored as their codes. */
  lemma TextExamples()
    ensures ToBytes("Az09") == [65, 122, 48, 57] && FromBytes([65, 122, 48, 57]) == "Az09"
  {
  }

  predicate IsUpperHex(s: string) {
    forall i :: 0 <= i < |s| ==> '0' <= s[i] <= '9' || 'A' <= s[i] <= 'F'
  }

  lemma UpperHexFixed(s: text)
    requires HexPairs(s) && |s| % 2 == 0
    ensures UpperPairs(s) == s <==> IsUpperHex(s)
  {
    if !IsUpperHex(s) {
      var i :| 0 <= i < |s| && !('0' <= s[i] <= '9' || 'A' <= s[i] <= 'F');
      assert HexValue(s[i]) < 16;
      assert UpperPairs(s)[i] == UpperHex(s[i]) != s[i];
    }
  }
}
