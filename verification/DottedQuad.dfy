/** IPv4 addresses as text: printing, and parsing of what is printed. */
module DottedQuad {
  import opened Octets
  import opened SerialNumber

  /** inet_ntoa. */
  function Ip2Str(n: u32): string {
    Decimal(n / 0x100_0000, 1) + ("." + (Decimal(n / 0x1_0000 % 0x100, 1) + ("." +
      (Decimal(n / 0x100 % 0x100, 1) + ("." + Decimal(n % 0x100, 1))))))
  }

  // ----- inet_addr as the GNU C library parses it

  /** The number of leading digits of the given radix. */
  function RunOf(s: string, radix: nat): (n: nat)
    ensures n <= |s|
    ensures forall i :: 0 <= i < n ==> HexValue(s[i]) < radix
    ensures n == |s| || HexValue(s[n]) >= radix
  {
    if s == "" || HexValue(s[0]) >= radix then 0 else
      var n := RunOf(s[1..], radix);
      assert forall i :: 1 <= i < 1 + n ==> s[i] == s[1..][i - 1];
      assert 1 + n < |s| ==> s[1 + n] == s[1..][n];
      1 + n
  }

  function ValueOf(s: string, radix: nat): nat {
    if s == "" then 0 else ValueOf(s[..|s| - 1], radix) * radix + HexValue(s[|s| - 1])
  }

  function ScanRadix(s: string, radix: nat): Scanned {
    Scanned(ValueOf(s[..RunOf(s, radix)], radix), s[RunOf(s, radix)..])
  }

  /** A C number: hexadecimal behind 0x, octal behind another 0, decimal otherwise. */
  function ScanC(s: string): Scanned
    requires s != ""
  {
    if s[0] != '0' then ScanRadix(s, 10)
    else if |s| >= 3 && (s[1] == 'x' || s[1] == 'X') && HexValue(s[2]) < 16 then ScanRadix(s[2..], 16)
    else ScanRadix(s, 8)
  }

  /** The address ends with the string or at white space, whatever follows that. */
  predicate AddressEnds(rest: string) {
    rest == "" || rest[0] == '\0' || rest[0] == ' ' || 9 <= rest[0] as int <= 13
  }

  /** The range of the last part behind so many dots: it fills the bytes that are left. */
  function LastRange(dots: nat): (n: nat)
    requires dots <= 3
  {
    if dots == 0 then 0x1_0000_0000 else if dots == 1 then 0x100_0000 else if dots == 2 then 0x1_0000 else 0x100
  }

  /** One to four parts, all but the last of one byte. */
  function ScanAddress(s: string, high: nat, dots: nat): Option<u32>
    requires dots <= 3 && high * LastRange(dots) + LastRange(dots) <= 0x1_0000_0000
    decreases 3 - dots
  {
    if s == "" || !IsDigit(s[0]) then None else
      var g := ScanC(s);
      if g.rest != "" && g.rest[0] == '.' then
        if dots == 3 || g.value > 0xFF then None else ScanAddress(g.rest[1..], high * 0x100 + g.value, dots + 1)
      else if !AddressEnds(g.rest) || g.value >= LastRange(dots) then None
      else Some(high * LastRange(dots) + g.value)
  }

  /** All ones for anything that is no address. */
  function Str2Ip(s: string): u32 {
    var n := ScanAddress(s, 0, 0);
    if n.None? then 0xFFFF_FFFF else n.value
  }

  // ----- Parsing what is printed

  lemma Printed(n: nat)
    requires n < 256
    ensures Decimal(n, 1) ==
            if n < 10 then [DigitChar(n)]
            else if n < 100 then [DigitChar(n / 10), DigitChar(n % 10)]
            else [DigitChar(n / 100), DigitChar(n / 10 % 10), DigitChar(n % 10)]
  {
    hide Decimal, DigitChar;
    LastDigit(n, 1);
    if 10 <= n {
      LastDigit(n / 10, 0);
    }
    if 100 <= n {
      LastDigit(n / 10 / 10, 0);
      assert n / 10 / 10 == n / 100 && n / 100 / 10 == 0 && n / 100 % 10 == n / 100;
    }
    NoDigits();
  }

  lemma LastDigit(n: nat, w: nat)
    requires n != 0 || w != 0
    ensures Decimal(n, w) == Decimal(n / 10, if w == 0 then 0 else w - 1) + [DigitChar(n % 10)]
  {
  }

  lemma NoDigits()
    ensures Decimal(0, 0) == ""
  {
  }

  lemma DigitIs(n: nat)
    requires n < 10
    ensures HexValue(DigitChar(n)) == n && IsDigit(DigitChar(n)) && (DigitChar(n) == '0' <==> n == 0)
  {
  }

  /** A run of digits, and what stands behind it. */
  lemma ScanRun(d: string, rest: string, radix: nat)
    requires radix <= 16 && forall i :: 0 <= i < |d| ==> HexValue(d[i]) < radix
    requires rest == "" || rest[0] == '.'
    ensures ScanRadix(d + rest, radix) == Scanned(ValueOf(d, radix), rest)
  {
    var s := d + rest;
    assert rest != "" ==> s[|d|] == '.' && HexValue('.') == 255;
    assert forall i :: 0 <= i < |d| ==> s[i] == d[i];
    assert RunOf(s, radix) == |d|;
    assert s[..|d|] == d && s[|d|..] == rest;
  }

  lemma ValueOfDigits(a: nat, b: nat, c: nat)
    requires a < 10 && b < 10 && c < 10
    ensures ValueOf([DigitChar(a)], 10) == a
    ensures ValueOf([DigitChar(a), DigitChar(b)], 10) == 10 * a + b
    ensures ValueOf([DigitChar(a), DigitChar(b), DigitChar(c)], 10) == 100 * a + 10 * b + c
  {
    DigitIs(a);
    DigitIs(b);
    DigitIs(c);
    assert [DigitChar(a)][..0] == "";
    assert [DigitChar(a), DigitChar(b)][..1] == [DigitChar(a)];
    assert [DigitChar(a), DigitChar(b), DigitChar(c)][..2] == [DigitChar(a), DigitChar(b)];
  }

  lemma ZeroValue()
    ensures ValueOf("0", 8) == 0 && ValueOf("010", 8) == 8
  {
    assert "0"[..0] == "" && "01"[..1] == "0" && "010"[..2] == "01";
    assert ValueOf("01", 8) == 1;
  }

  lemma ScanPrinted(n: nat, rest: string)
    requires n < 256 && (rest == "" || rest[0] == '.')
    ensures var s := Decimal(n, 1) + rest; s != "" && IsDigit(s[0]) && ScanC(s) == Scanned(n, rest)
  {
    hide Decimal, ScanRadix, ValueOf, DigitChar, HexValue, IsDigit;
    var a, b, c := n / 100, n / 10 % 10, n % 10;
    Printed(n);
    DigitIs(a);
    DigitIs(b);
    DigitIs(c);
    var d := Decimal(n, 1);
    ScanRun(d, rest, 10);
    ValueOfDigits(if n < 10 then n else if n < 100 then n / 10 else a, if n < 100 then c else b, c);
    if n == 0 {
      assert d == "0";
      ScanRun(d, rest, 8);
      ZeroValue();
    }
  }

  /** One printed part and the dot behind it. */
  lemma PartScanned(n: nat, rest: string, high: nat, dots: nat)
    requires n < 256 && dots < 3 && high * LastRange(dots) + LastRange(dots) <= 0x1_0000_0000
    ensures (high * 0x100 + n) * LastRange(dots + 1) + LastRange(dots + 1) <= 0x1_0000_0000
    ensures ScanAddress(Decimal(n, 1) + ("." + rest), high, dots) == ScanAddress(rest, high * 0x100 + n, dots + 1)
  {
    hide Decimal, ScanC;
    ScanPrinted(n, "." + rest);
    assert ("." + rest)[1..] == rest;
  }

  lemma LastScanned(n: nat, high: nat)
    requires n < 256 && high * 0x100 + 0x100 <= 0x1_0000_0000
    ensures ScanAddress(Decimal(n, 1), high, 3) == Some(high * 0x100 + n)
  {
    hide Decimal, ScanC;
    ScanPrinted(n, "");
    assert Decimal(n, 1) + "" == Decimal(n, 1);
  }

  lemma OctalEight()
    ensures ScanAddress("010", 0x1_0203, 3) == Some(0x0102_0308)
  {
    hide ScanRadix, ValueOf;
    ScanRun("010", "", 8);
    ZeroValue();
    assert "010" + "" == "010";
  }

  /** A part with a leading zero is octal, so such an address is printed differently. */
  lemma OctalPart()
    ensures Str2Ip("1.2.3.010") == 0x0102_0308 && Ip2Str(0x0102_0308) == "1.2.3.8"
  {
    hide ScanAddress, Decimal;
    Printed(1);
    Printed(2);
    Printed(3);
    Printed(8);
    PartScanned(1, "2.3.010", 0, 0);
    PartScanned(2, "3.010", 1, 1);
    PartScanned(3, "010", 0x102, 2);
    OctalEight();
    assert Decimal(1, 1) + ("." + "2.3.010") == "1.2.3.010";
    assert Decimal(2, 1) + ("." + "3.010") == "2.3.010";
    assert Decimal(3, 1) + ("." + "010") == "3.010";
  }

  lemma JoinGroups(n: u32)
    ensures ((n / 0x100_0000 * 0x100 + n / 0x1_0000 % 0x100) * 0x100 + n / 0x100 % 0x100) * 0x100 + n % 0x100 == n
    ensures n / 0x100_0000 < 256
  {
    var a, b := n / 0x100, n / 0x1_0000;
    assert b == a / 0x100 && n / 0x100_0000 == b / 0x100;
    assert a == b * 0x100 + a % 0x100;
  }

  /** inet_addr undoes inet_ntoa. */
  lemma IpRoundTrip(n: u32)
    ensures Str2Ip(Ip2Str(n)) == n
  {
    hide Decimal, ScanAddress;
    JoinGroups(n);
    var a, b, c, d := n / 0x100_0000, n / 0x1_0000 % 0x100, n / 0x100 % 0x100, n % 0x100;
    var tail := Decimal(d, 1);
    PartScanned(a, Decimal(b, 1) + ("." + (Decimal(c, 1) + ("." + tail))), 0, 0);
    PartScanned(b, Decimal(c, 1) + ("." + tail), a, 1);
    PartScanned(c, tail, a * 0x100 + b, 2);
    LastScanned(d, (a * 0x100 + b) * 0x100 + c);
  }

  lemma IpIsText(n: u32)
    ensures IsText(Ip2Str(n))
  {
    hide Decimal;
    DecimalIsText(n / 0x100_0000, 1);
    DecimalIsText(n / 0x1_0000 % 0x100, 1);
    DecimalIsText(n / 0x100 % 0x100, 1);
    DecimalIsText(n % 0x100, 1);
  }

  function IpText(n: u32): text {
    IpIsText(n);
    Ip2Str(n)
  }

  // ----- Other texts

  /** No digit in front: no address. */
  lemma NoAddress(s: string)
    requires s == "" || !('0' <= s[0] <= '9')
    ensures Str2Ip(s) == 0xFFFF_FFFF
  {
  }

  /** A fifth part: no address. */
  lemma FiveParts(a: nat, b: nat, c: nat, d: nat, rest: string)
    requires a < 256 && b < 256 && c < 256 && d < 256
    ensures Str2Ip(Decimal(a, 1) + ("." + (Decimal(b, 1) + ("." + (Decimal(c, 1) + ("." + (Decimal(d, 1) + ("." + rest)))))))) == 0xFFFF_FFFF
  {
    hide Decimal, ScanC, ScanAddress;
    PartScanned(a, Decimal(b, 1) + ("." + (Decimal(c, 1) + ("." + (Decimal(d, 1) + ("." + rest))))), 0, 0);
    PartScanned(b, Decimal(c, 1) + ("." + (Decimal(d, 1) + ("." + rest))), a, 1);
    PartScanned(c, Decimal(d, 1) + ("." + rest), a * 0x100 + b, 2);
    FifthPart(d, rest, (a * 0x100 + b) * 0x100 + c);
  }

  lemma FifthPart(n: nat, rest: string, high: nat)
    requires n < 256 && high * 0x100 + 0x100 <= 0x1_0000_0000
    ensures ScanAddress(Decimal(n, 1) + ("." + rest), high, 3) == None
  {
    hide Decimal, ScanC;
    ScanPrinted(n, "." + rest);
  }

  /** Fewer parts: the last one fills the bytes that are left. */
  lemma FewerParts(a: nat, b: nat, c: nat)
    requires a < 256 && b < 256 && c < 256
    ensures Str2Ip(Decimal(a, 1)) == a
    ensures Str2Ip(Decimal(a, 1) + ("." + Decimal(b, 1))) == a * 16777216 + b
    ensures Str2Ip(Decimal(a, 1) + ("." + (Decimal(b, 1) + ("." + Decimal(c, 1))))) == a * 16777216 + b * 65536 + c
  {
    hide Decimal, ScanC, ScanAddress;
    EndScanned(a, 0, 0);
    PartScanned(a, Decimal(b, 1), 0, 0);
    EndScanned(b, a, 1);
    PartScanned(a, Decimal(b, 1) + ("." + Decimal(c, 1)), 0, 0);
    PartScanned(b, Decimal(c, 1), a, 1);
    EndScanned(c, a * 0x100 + b, 2);
  }

  lemma EndScanned(n: nat, high: nat, dots: nat)
    requires n < 256 && dots < 3 && high * LastRange(dots) + LastRange(dots) <= 0x1_0000_0000
    ensures ScanAddress(Decimal(n, 1), high, dots) == Some(high * LastRange(dots) + n)
  {
    hide Decimal, ScanC;
    ScanPrinted(n, "");
    assert Decimal(n, 1) + "" == Decimal(n, 1);
  }

  /** A run of digits, whatever else stands behind it. */
  lemma ScanRunOn(d: string, rest: string, radix: nat)
    requires forall i :: 0 <= i < |d| ==> HexValue(d[i]) < radix
    requires rest == "" || HexValue(rest[0]) >= radix
    ensures ScanRadix(d + rest, radix) == Scanned(ValueOf(d, radix), rest)
  {
    var s := d + rest;
    assert rest != "" ==> s[|d|] == rest[0];
    assert forall i :: 0 <= i < |d| ==> s[i] == d[i];
    assert RunOf(s, radix) == |d|;
    assert s[..|d|] == d && s[|d|..] == rest;
  }

  /** Hexadecimal and octal parts. */
  lemma RadixForms()
    ensures Str2Ip("0x1F") == 31 && Str2Ip("017") == 15
  {
    hide ScanRadix, ValueOf;
    FormValues();
    ScanRunOn("1F", "", 16);
    ScanRunOn("017", "", 8);
    assert "0x1F"[2..] == "1F" + "" && "017" == "017" + "";
  }

  /** A last part of several bytes, a first part that is too large, and what follows behind a blank. */
  lemma DecimalForms()
    ensures Str2Ip("300") == 300 && Str2Ip("300.1") == 0xFFFF_FFFF && Str2Ip("7 x") == 7 && Str2Ip("7x") == 0xFFFF_FFFF
  {
    hide ScanRadix, ValueOf;
    FormValues();
    ScanRunOn("300", "", 10);
    ScanRunOn("300", ".1", 10);
    ScanRunOn("7", " x", 10);
    ScanRunOn("7", "x", 10);
    assert "300" == "300" + "" && "300.1" == "300" + ".1" && "7 x" == "7" + " x" && "7x" == "7" + "x";
  }

  lemma FormValues()
    ensures ValueOf("1F", 16) == 31 && ValueOf("017", 8) == 15 && ValueOf("300", 10) == 300 && ValueOf("7", 10) == 7
  {
    assert "1F"[..1] == "1" && "1"[..0] == "";
    assert "017"[..2] == "01" && "01"[..1] == "0" && "0"[..0] == "";
    assert "300"[..2] == "30" && "30"[..1] == "3" && "3"[..0] == "";
    assert "7"[..0] == "";
    assert ValueOf("1", 16) == 1 && ValueOf("0", 8) == 0 && ValueOf("01", 8) == 1 && ValueOf("3", 10) == 3 && ValueOf("30", 10) == 30;
  }
}
