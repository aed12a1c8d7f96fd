/** The CRC-32 value as the four big-endian bytes of a signature. */
module Crc32Bytes {
  import opened Octets
  import opened Crc32Register
  import opened Crc32Bursts

  function Weight(bit: bool, w: nat): nat { if bit then w else 0 }

  /** The byte whose binary digits are the bits of c. */
  function ByteOf(c: bv8): byte {
    Weight(c & 0x80 != 0, 128) + Weight(c & 0x40 != 0, 64) + Weight(c & 0x20 != 0, 32) + Weight(c & 0x10 != 0, 16) +
    Weight(c & 0x08 != 0, 8) + Weight(c & 0x04 != 0, 4) + Weight(c & 0x02 != 0, 2) + Weight(c & 0x01 != 0, 1)
  }

  lemma DigitsOfSum(b7: bool, b6: bool, b5: bool, b4: bool, b3: bool, b2: bool, b1: bool, b0: bool, n: nat)
    requires n == Weight(b7, 128) + Weight(b6, 64) + Weight(b5, 32) + Weight(b4, 16)
                  + Weight(b3, 8) + Weight(b2, 4) + Weight(b1, 2) + Weight(b0, 1)
    ensures n < 256
    ensures Digit(n, 128) == b7 && Digit(n, 64) == b6 && Digit(n, 32) == b5 && Digit(n, 16) == b4
    ensures Digit(n, 8) == b3 && Digit(n, 4) == b2 && Digit(n, 2) == b1 && Digit(n, 1) == b0
  {
    var n2 := Weight(b7, 64) + Weight(b6, 32) + Weight(b5, 16) + Weight(b4, 8) + Weight(b3, 4) + Weight(b2, 2) + Weight(b1, 1);
    var n4 := Weight(b7, 32) + Weight(b6, 16) + Weight(b5, 8) + Weight(b4, 4) + Weight(b3, 2) + Weight(b2, 1);
    var n8 := Weight(b7, 16) + Weight(b6, 8) + Weight(b5, 4) + Weight(b4, 2) + Weight(b3, 1);
    var n16 := Weight(b7, 8) + Weight(b6, 4) + Weight(b5, 2) + Weight(b4, 1);
    assert n / 2 == n2 && n / 4 == n4 && n / 8 == n8 && n / 16 == n16;
    assert n / 32 == Weight(b7, 4) + Weight(b6, 2) + Weight(b5, 1);
    assert n / 64 == Weight(b7, 2) + Weight(b6, 1);
  }

  lemma JoinBits(c: bv8)
    ensures (if c & 0x80 != 0 then 0x80 else 0) | (if c & 0x40 != 0 then 0x40 else 0) |
            (if c & 0x20 != 0 then 0x20 else 0) | (if c & 0x10 != 0 then 0x10 else 0) |
            (if c & 0x08 != 0 then 0x08 else 0) | (if c & 0x04 != 0 then 0x04 else 0) |
            (if c & 0x02 != 0 then 0x02 else 0) | (if c & 0x01 != 0 then 0x01 else 0) == c
  {
  }

  lemma ByteOfRoundTrip(c: bv8)
    ensures Octet(ByteOf(c)) == c
  {
    hide Digit, Weight;
    DigitsOfSum(c & 0x80 != 0, c & 0x40 != 0, c & 0x20 != 0, c & 0x10 != 0,
                c & 0x08 != 0, c & 0x04 != 0, c & 0x02 != 0, c & 0x01 != 0, ByteOf(c));
    JoinBits(c);
  }

  /** htonl of the value, byte by byte. */
  function WordBytes(x: bv32): (b: bytes)
    ensures |b| == 4
  {
    [ByteOf(((x >> 24) & 0xff) as bv8), ByteOf(((x >> 16) & 0xff) as bv8),
     ByteOf(((x >> 8) & 0xff) as bv8), ByteOf((x & 0xff) as bv8)]
  }

  /** ntohl of four bytes. */
  function WordOf(b: bytes): bv32
    requires |b| == 4
  {
    JoinOctets(Octet(b[0]), Octet(b[1]), Octet(b[2]), Octet(b[3]))
  }

  function JoinOctets(b3: bv8, b2: bv8, b1: bv8, b0: bv8): bv32 {
    ((b3 as bv32) << 24) | ((b2 as bv32) << 16) | ((b1 as bv32) << 8) | (b0 as bv32)
  }

  lemma JoinSplit(x: bv32)
    ensures JoinOctets(((x >> 24) & 0xff) as bv8, ((x >> 16) & 0xff) as bv8,
                       ((x >> 8) & 0xff) as bv8, (x & 0xff) as bv8) == x
  {
  }

  lemma WordRoundTrip(x: bv32)
    ensures WordOf(WordBytes(x)) == x
  {
    hide ByteOf, Octet, JoinOctets;
    ByteOfRoundTrip(((x >> 24) & 0xff) as bv8);
    ByteOfRoundTrip(((x >> 16) & 0xff) as bv8);
    ByteOfRoundTrip(((x >> 8) & 0xff) as bv8);
    ByteOfRoundTrip((x & 0xff) as bv8);
    JoinSplit(x);
  }

  lemma ByteOfSum(b: byte)
    ensures ByteOf(Octet(b)) == b
  {
    hide Digit, Octet;
    OctetDigits(b);
    var c := OctetBits(Octet(b));
    assert c[0] == Digit(b, 1) && c[1] == Digit(b, 2) && c[2] == Digit(b, 4) && c[3] == Digit(b, 8);
    assert c[4] == Digit(b, 16) && c[5] == Digit(b, 32) && c[6] == Digit(b, 64) && c[7] == Digit(b, 128);
    DigitsSum(b);
  }

  lemma DigitsSum(b: byte)
    ensures b == Weight(Digit(b, 128), 128) + Weight(Digit(b, 64), 64) + Weight(Digit(b, 32), 32) + Weight(Digit(b, 16), 16)
                 + Weight(Digit(b, 8), 8) + Weight(Digit(b, 4), 4) + Weight(Digit(b, 2), 2) + Weight(Digit(b, 1), 1)
  {
    hide Digit, Weight;
    HalvesOfByte(b);
    PeeledDigit(b, 64);
    PeeledDigit(b, 32);
    PeeledDigit(b, 16);
    PeeledDigit(b, 8);
    PeeledDigit(b, 4);
    PeeledDigit(b, 2);
    PeeledDigit(b, 1);
    TopDigit(b);
  }

  lemma PeeledDigit(b: byte, w: nat)
    requires w > 0
    ensures b / w * w == b / w / 2 * (2 * w) + Weight(Digit(b, w), w)
  {
    var q := b / w;
    assert q == 2 * (q / 2) + q % 2;
    assert q * w == (2 * (q / 2) + q % 2) * w == q / 2 * (2 * w) + q % 2 * w;
  }

  lemma TopDigit(b: byte)
    ensures b / 128 * 128 == Weight(Digit(b, 128), 128)
  {
  }

  lemma SplitJoin(b3: bv8, b2: bv8, b1: bv8, b0: bv8)
    ensures var x := JoinOctets(b3, b2, b1, b0);
            ((x >> 24) & 0xff) as bv8 == b3 && ((x >> 16) & 0xff) as bv8 == b2
            && ((x >> 8) & 0xff) as bv8 == b1 && (x & 0xff) as bv8 == b0
  {
  }

  /** Every four bytes are the signature bytes of the value they hold. */
  lemma WordBytesRoundTrip(b: bytes)
    requires |b| == 4
    ensures WordBytes(WordOf(b)) == b
  {
    hide ByteOf, Octet, JoinOctets;
    SplitJoin(Octet(b[0]), Octet(b[1]), Octet(b[2]), Octet(b[3]));
    ByteOfSum(b[0]);
    ByteOfSum(b[1]);
    ByteOfSum(b[2]);
    ByteOfSum(b[3]);
  }

  /** The bytes of the published check value, the most significant first. */
  lemma CheckValueBytes()
    ensures WordBytes(0xcbf43926) == [0xCB, 0xF4, 0x39, 0x26] && WordOf([0xCB, 0xF4, 0x39, 0x26]) == 0xcbf43926
  {
    WordRoundTrip(0xcbf43926);
  }
}
