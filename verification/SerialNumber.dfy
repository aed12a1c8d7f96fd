/** Terminal serial numbers: 64-bit packing, the printed form, and the parser. */
module SerialNumber {
  import opened Octets
  import opened Calendar

  datatype Fields = Fields(devType: nat, customerType: nat, customerId: nat, days: nat, devNo: nat)

  // ----- Packing: 8, 8, 16, 16 and 16 bits

  function Unpack(x: u64): Fields {
    Fields(x / 0x100_0000_0000_0000 % 0x100, x / 0x1_0000_0000_0000 % 0x100,
           x / 0x1_0000_0000 % 0x10000, x / 0x10000 % 0x10000, x % 0x10000)
  }

  /** Every field is cut to its width. */
  function Pack(f: Fields): u64 {
    Join(f.devType % 0x100, f.customerType % 0x100, f.customerId % 0x10000, f.days % 0x10000, f.devNo % 0x10000)
  }

  function Join(devType: nat, customerType: nat, customerId: nat, days: nat, devNo: nat): u64
    requires devType < 0x100 && customerType < 0x100 && customerId < 0x10000 && days < 0x10000 && devNo < 0x10000
  {
    (((devType * 0x100 + customerType) * 0x10000 + customerId) * 0x10000 + days) * 0x10000 + devNo
  }

  lemma DivisorChain(x: nat)
    ensures x / 0x1_0000_0000 == x / 0x10000 / 0x10000
    ensures x / 0x1_0000_0000_0000 == x / 0x1_0000_0000 / 0x10000
    ensures x / 0x100_0000_0000_0000 == x / 0x1_0000_0000_0000 / 0x100
  {
  }

  lemma PackChain(x: u64, a: nat, b: nat, c: nat, d: nat)
    requires a == x / 0x10000 && b == a / 0x10000 && c == b / 0x10000 && d == c / 0x100
    ensures Pack(Fields(d, c, b, a, x)) == x
  {
    assert d < 0x100;
    assert d * 0x100 + c % 0x100 == c;
    assert c * 0x10000 + b % 0x10000 == b;
    assert b * 0x10000 + a % 0x10000 == a;
  }

  lemma PackIgnoresHighBits(f: Fields)
    ensures Pack(Fields(f.devType % 0x100, f.customerType % 0x100, f.customerId % 0x10000,
                        f.days % 0x10000, f.devNo % 0x10000)) == Pack(f)
  {
    hide Join;
    ModTwice(f.devType, 0x100);
    ModTwice(f.customerType, 0x100);
    ModTwice(f.customerId, 0x10000);
    ModTwice(f.days, 0x10000);
    ModTwice(f.devNo, 0x10000);
  }

  lemma ModTwice(n: nat, k: nat)
    requires k > 0
    ensures n % k % k == n % k
  {
    DivModUnique(n % k, k, 0, n % k);
  }

  /** Packing restores every identifier. */
  lemma PackUnpack(x: u64)
    ensures Pack(Unpack(x)) == x
  {
    hide Pack;
    DivisorChain(x);
    var a, b, c := x / 0x10000, x / 0x1_0000_0000, x / 0x1_0000_0000_0000;
    PackIgnoresHighBits(Fields(c / 0x100, c, b, a, x));
    PackChain(x, a, b, c, c / 0x100);
  }

  function CustomerIdOf(x: u64): nat {
    x / 0x1_0000_0000 % 0x10000
  }

  // ----- Fixed-width decimal

  function Pow10(w: nat): (p: nat)
    ensures p > 0
  {
    if w == 0 then 1 else 10 * Pow10(w - 1)
  }

  function DigitChar(n: nat): char
    requires n < 10
  {
    '0' + n as char
  }

  /** %0*d: the decimal digits of n, zero-filled to at least w characters. */
  function Decimal(n: nat, w: nat): (s: string)
    decreases n, w
  {
    if n == 0 && w == 0 then "" else
      Decimal(n / 10, if w == 0 then 0 else w - 1) + [DigitChar(n % 10)]
  }

  lemma {:induction false} DecimalIsText(n: nat, w: nat)
    ensures IsText(Decimal(n, w))
    decreases n, w
  {
    if n != 0 || w != 0 {
      DecimalIsText(n / 10, if w == 0 then 0 else w - 1);
    }
  }

  predicate IsDigit(c: char) {
    '0' <= c <= '9'
  }

  function DigitValue(c: char): nat
    requires IsDigit(c)
  {
    c as int - '0' as int
  }

  /** The number of leading digits of s, at most w. */
  function DigitRun(s: string, w: nat): (n: nat)
    ensures n <= w && n <= |s|
    ensures forall i :: 0 <= i < n ==> IsDigit(s[i])
    ensures n < w ==> n == |s| || !IsDigit(s[n])
  {
    if w == 0 || s == "" || !IsDigit(s[0]) then 0 else
      var n := DigitRun(s[1..], w - 1);
      assert forall i :: 1 <= i < 1 + n ==> s[i] == s[1..][i - 1];
      assert 1 + n < |s| ==> s[1 + n] == s[1..][n];
      1 + n
  }

  function DigitsValue(s: string): nat
    requires forall i :: 0 <= i < |s| ==> IsDigit(s[i])
  {
    if s == "" then 0 else DigitsValue(s[..|s| - 1]) * 10 + DigitValue(s[|s| - 1])
  }

  datatype Scanned = Scanned(value: nat, rest: string)

  /** %0*u: up to w digits; None when there is none. */
  function ScanNumber(s: string, w: nat): Option<Scanned> {
    var n := DigitRun(s, w);
    if n == 0 then None else Some(Scanned(DigitsValue(s[..n]), s[n..]))
  }

  function ScanDash(s: string): Option<string> {
    if s != "" && s[0] == '-' then Some(s[1..]) else None
  }

  lemma DivBySmaller(n: nat, p: nat)
    requires p > 0 && n < 10 * p
    ensures n / 10 < p
  {
  }

  lemma {:induction false} DecimalShape(n: nat, w: nat)
    requires n < Pow10(w)
    ensures |Decimal(n, w)| == w
    ensures forall i :: 0 <= i < w ==> IsDigit(Decimal(n, w)[i])
    ensures DigitsValue(Decimal(n, w)) == n
    decreases w
  {
    if w > 0 {
      DivBySmaller(n, Pow10(w - 1));
      DecimalShape(n / 10, w - 1);
      var s := Decimal(n, w);
      assert s[..w - 1] == Decimal(n / 10, w - 1);
      assert s[w - 1] == DigitChar(n % 10) && DigitValue(s[w - 1]) == n % 10;
    }
  }

  lemma {:induction false} FullRun(s: string, w: nat)
    requires w <= |s| && forall i :: 0 <= i < w ==> IsDigit(s[i])
    ensures DigitRun(s, w) == w
    decreases w
  {
    if w > 0 {
      assert forall i :: 0 <= i < w - 1 ==> s[1..][i] == s[i + 1];
      FullRun(s[1..], w - 1);
    }
  }

  /** A number printed to w digits is read back whatever follows it. */
  lemma ScanDecimal(n: nat, w: nat, rest: string)
    requires w > 0 && n < Pow10(w)
    ensures ScanNumber(Decimal(n, w) + rest, w) == Some(Scanned(n, rest))
  {
    DecimalShape(n, w);
    var s := Decimal(n, w) + rest;
    assert forall i :: 0 <= i < w ==> s[i] == Decimal(n, w)[i];
    FullRun(s, w);
    assert s[..w] == Decimal(n, w) && s[w..] == rest;
  }

  // ----- The serial string

  /** "%04d%02d%02d" */
  function DateText(d: Date): string
    requires IsDate(d)
  {
    Decimal(d.year, 4) + (Decimal(d.month, 2) + Decimal(d.day, 2))
  }

  /** "%03d-%03d-%05d-%04d%02d%02d-" and then the given text for the device number. */
  function TextWith(f: Fields, no: text): text {
    var d := DateAdd(EPOCH, f.days);
    SerialIsText(f, no);
    Decimal(f.devType, 3) + ("-" + (Decimal(f.customerType, 3) + ("-" + (Decimal(f.customerId, 5) + ("-" +
      (Decimal(d.year, 4) + (Decimal(d.month, 2) + (Decimal(d.day, 2) + ("-" + no)))))))))
  }

  /** "%03d-%03d-%05d-%04d%02d%02d-%05d" */
  lemma SerialIsText(f: Fields, no: text)
    ensures var d := DateAdd(EPOCH, f.days);
            IsText(Decimal(f.devType, 3) + ("-" + (Decimal(f.customerType, 3) + ("-" + (Decimal(f.customerId, 5) + ("-" +
              (Decimal(d.year, 4) + (Decimal(d.month, 2) + (Decimal(d.day, 2) + ("-" + no))))))))))
  {
    hide Decimal, DateAdd;
    var d := DateAdd(EPOCH, f.days);
    DecimalIsText(f.devType, 3);
    DecimalIsText(f.customerType, 3);
    DecimalIsText(f.customerId, 5);
    DecimalIsText(d.year, 4);
    DecimalIsText(d.month, 2);
    DecimalIsText(d.day, 2);
  }

  function FieldsText(f: Fields): text {
    DecimalIsText(f.devNo, 5);
    TextWith(f, Decimal(f.devNo, 5))
  }

  function Devid2Str(x: u64): text {
    FieldsText(Unpack(x))
  }

  datatype DateAndNo = DateAndNo(date: Date, devNo: nat)

  function ScanTail(s: string): Option<DateAndNo> {
    var year := ScanNumber(s, 4);
    if year.None? then None else
      var month := ScanNumber(year.value.rest, 2);
      if month.None? then None else
        var day := ScanNumber(month.value.rest, 2);
        if day.None? then None else
          var dash := ScanDash(day.value.rest);
          if dash.None? then None else
            var no := ScanNumber(dash.value, 5);
            if no.None? then None
            else Some(DateAndNo(Date(year.value.value, month.value.value, day.value.value), no.value.value))
  }

  function ScanField(s: string, w: nat): Option<Scanned> {
    var n := ScanNumber(s, w);
    if n.None? then None else
      var dash := ScanDash(n.value.rest);
      if dash.None? then None else Some(Scanned(n.value.value, dash.value))
  }

  /** 0 for anything that is not 28 characters long or does not scan. */
  function Str2Devid(s: string): u64 {
    if |s| != 28 then 0 else
      var devType := ScanField(s, 3);
      if devType.None? then 0 else
        var customerType := ScanField(devType.value.rest, 3);
        if customerType.None? then 0 else
          var customerId := ScanField(customerType.value.rest, 5);
          if customerId.None? then 0 else
            var tail := ScanTail(customerId.value.rest);
            if tail.None? then 0 else
              Pack(Fields(devType.value.value, customerType.value.value, customerId.value.value,
                          DateDec(EPOCH, tail.value.date), tail.value.devNo))
  }

  lemma ScanFieldDecimal(n: nat, w: nat, rest: string)
    requires w > 0 && n < Pow10(w)
    ensures ScanField(Decimal(n, w) + ("-" + rest), w) == Some(Scanned(n, rest))
  {
    ScanDecimal(n, w, "-" + rest);
    assert ("-" + rest)[1..] == rest;
  }

  lemma Powers()
    ensures Pow10(2) == 100 && Pow10(3) == 1000 && Pow10(4) == 10000 && Pow10(5) == 100000
  {
    assert Pow10(1) == 10;
  }

  lemma ScanTailText(d: Date, no: string)
    requires IsDate(d) && d.year < 10000
    requires ScanNumber(no, 5).Some?
    ensures ScanTail(Decimal(d.year, 4) + (Decimal(d.month, 2) + (Decimal(d.day, 2) + ("-" + no))))
            == Some(DateAndNo(d, ScanNumber(no, 5).value.value))
  {
    hide ScanNumber, Decimal;
    Powers();
    assert ("-" + no)[1..] == no;
    ScanDecimal(d.day, 2, "-" + no);
    ScanDecimal(d.month, 2, Decimal(d.day, 2) + ("-" + no));
    ScanDecimal(d.year, 4, Decimal(d.month, 2) + (Decimal(d.day, 2) + ("-" + no)));
  }

  predicate Narrow(f: Fields) {
    f.devType < 0x100 && f.customerType < 0x100 && f.customerId < 0x10000 && f.days < 0x10000 && f.devNo < 0x10000
  }

  lemma TextLength(f: Fields, no: text)
    requires Narrow(f) && |no| == 5
    ensures |TextWith(f, no)| == 28
  {
    hide Decimal, DateAdd;
    Powers();
    var d := DateAdd(EPOCH, f.days);
    SixteenBitYears(f.days);
    DecimalShape(f.devType, 3);
    DecimalShape(f.customerType, 3);
    DecimalShape(f.customerId, 5);
    DecimalShape(d.year, 4);
    DecimalShape(d.month, 2);
    DecimalShape(d.day, 2);
  }

  /** What the parser makes of a printed number whose last field reads as `no`. */
  lemma ParseText(f: Fields, no: text)
    requires Narrow(f) && |no| == 5
    requires ScanNumber(no, 5).Some?
    ensures Str2Devid(TextWith(f, no)) == Pack(f.(devNo := ScanNumber(no, 5).value.value))
  {
    hide Decimal, DateAdd, ScanField, ScanTail, Pack, DateDec, ScanNumber;
    var d := DateAdd(EPOCH, f.days);
    Powers();
    SixteenBitYears(f.days);
    TextLength(f, no);
    var tail := Decimal(d.year, 4) + (Decimal(d.month, 2) + (Decimal(d.day, 2) + ("-" + no)));
    ScanTailText(d, no);
    ScanFieldDecimal(f.customerId, 5, tail);
    ScanFieldDecimal(f.customerType, 3, Decimal(f.customerId, 5) + ("-" + tail));
    ScanFieldDecimal(f.devType, 3, Decimal(f.customerType, 3) + ("-" + (Decimal(f.customerId, 5) + ("-" + tail))));
    DateDecAdd(EPOCH, f.days);
  }

  /** Parsing a printed serial number gives back its 64-bit identifier. */
  lemma SerialRoundTrip(x: u64)
    ensures Str2Devid(Devid2Str(x)) == x
  {
    hide Decimal, TextWith, ScanNumber, Pack, Str2Devid;
    var f := Unpack(x);
    Powers();
    var no := Decimal(f.devNo, 5);
    DecimalShape(f.devNo, 5);
    assert no + "" == no;
    ScanDecimal(f.devNo, 5, "");
    ParseText(f, no);
    PackUnpack(x);
  }

  /** Another string of 28 characters that parses to the same identifier, for device number 0. */
  lemma TwinString(x: u64)
    requires x % 0x10000 == 0
    ensures Str2Devid(TextWith(Unpack(x), "0000.")) == x
    ensures TextWith(Unpack(x), "0000.") != Devid2Str(x)
  {
    hide Decimal, Pack, Str2Devid, DateAdd;
    var f := Unpack(x);
    assert ScanNumber("0000.", 5).Some? && ScanNumber("0000.", 5).value.value == 0 by { FourZeros(); }
    ParseText(f, "0000.");
    PackUnpack(x);
    var s := TextWith(f, "0000.");
    TextLength(f, "0000.");
    assert s[|s| - 1] == '.';
    Powers();
    DecimalShape(f.devNo, 5);
    TextLength(f, Decimal(f.devNo, 5));
    assert Devid2Str(x)[27] == Decimal(f.devNo, 5)[4];
  }

  lemma FourZeros()
    ensures ScanNumber("0000.", 5) == Some(Scanned(0, "."))
  {
    var s := "0000.";
    assert s[1..] == "000." && "000."[1..] == "00." && "00."[1..] == "0." && "0."[1..] == ".";
    assert DigitRun(".", 1) == 0;
    assert DigitRun("00.", 3) == 2;
    assert DigitRun(s, 5) == 4;
    assert s[..4] == "0000" && s[4..] == ".";
    assert "0000"[..3] == "000" && "000"[..2] == "00" && "00"[..1] == "0" && "0"[..0] == "";
    assert DigitsValue("00") == 0;
  }

  /** The strings devid2str prints. */
  predicate Canonical(s: string) {
    Devid2Str(Str2Devid(s)) == s
  }

  lemma PrintedIsCanonical(x: u64)
    ensures Canonical(Devid2Str(x))
  {
    hide Devid2Str, Str2Devid;
    SerialRoundTrip(x);
  }

  /** Different identifiers never print alike. */
  lemma SerialInjective(x: u64, y: u64)
    requires Devid2Str(x) == Devid2Str(y)
    ensures x == y
  {
    hide Devid2Str, Str2Devid;
    SerialRoundTrip(x);
    SerialRoundTrip(y);
  }

  /** The customer number: the date of the customer id, as eight digits. */
  function CustomerId2Str(id: nat): (s: text)
    requires id < 0x10000
    ensures |s| == 8
  {
    CustomerText(id);
    DateText(DateAdd(EPOCH, id))
  }

  lemma CustomerText(id: nat)
    requires id < 0x10000
    ensures |DateText(DateAdd(EPOCH, id))| == 8 && IsText(DateText(DateAdd(EPOCH, id)))
  {
    hide Decimal, DateAdd;
    var d := DateAdd(EPOCH, id);
    Powers();
    SixteenBitYears(id);
    DecimalShape(d.year, 4);
    DecimalShape(d.month, 2);
    DecimalShape(d.day, 2);
  }
}
