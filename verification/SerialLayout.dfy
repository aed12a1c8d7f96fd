/** Printed serial numbers and customer numbers column by column, with the first day in literals. */
module SerialLayout {
  import opened Octets
  import opened Calendar
  import opened SerialNumber

  predicate AllDigits(s: string) {
    forall i :: 0 <= i < |s| ==> IsDigit(s[i])
  }

  /** The columns from lo up to hi are digits and spell n. */
  predicate Column(s: string, lo: nat, hi: nat, n: nat)
    requires lo <= hi <= |s|
  {
    AllDigits(s[lo..hi]) && DigitsValue(s[lo..hi]) == n
  }

  /** The date spelled in eight columns: four for the year, two for the month, two for the day. */
  function DateAt(s: string, at: nat): Date
    requires at + 8 <= |s| && AllDigits(s[at..at + 8])
  {
    DigitsOfPart(s, at, at + 8, at, at + 4);
    DigitsOfPart(s, at, at + 8, at + 4, at + 6);
    DigitsOfPart(s, at, at + 8, at + 6, at + 8);
    Date(DigitsValue(s[at..at + 4]), DigitsValue(s[at + 4..at + 6]), DigitsValue(s[at + 6..at + 8]))
  }

  lemma DigitsOfPart(s: string, lo: nat, hi: nat, from: nat, to: nat)
    requires lo <= from <= to <= hi <= |s| && AllDigits(s[lo..hi])
    ensures AllDigits(s[from..to])
  {
    forall i | 0 <= i < to - from ensures IsDigit(s[from..to][i]) {
      assert s[from..to][i] == s[lo..hi][from + i - lo];
    }
  }

  lemma DigitsJoined(a: string, b: string)
    requires AllDigits(a) && AllDigits(b)
    ensures AllDigits(a + b)
  {
  }

  /** Days from the first of January 2000. */
  function Since2000(d: Date): int {
    DayNumber(d) - DayNumber(Date(2000, 1, 1))
  }

  lemma Since2000Add(days: nat)
    ensures Since2000(DateAdd(EPOCH, days)) == days
  {
    hide DayNumber, Advance;
    AdvanceDayNumber(EPOCH, days);
  }

  lemma DatePrinted(d: Date, before: string, after: string)
    requires IsDate(d) && d.year < 10000
    ensures var s := before + (Decimal(d.year, 4) + (Decimal(d.month, 2) + (Decimal(d.day, 2) + after)));
            var at := |before|;
            at + 8 <= |s| && AllDigits(s[at..at + 8]) && DateAt(s, at) == d
  {
    hide Decimal, DigitsValue;
    Powers();
    DecimalShape(d.year, 4);
    DecimalShape(d.month, 2);
    DecimalShape(d.day, 2);
    var s := before + (Decimal(d.year, 4) + (Decimal(d.month, 2) + (Decimal(d.day, 2) + after)));
    var at := |before|;
    assert s[at..at + 4] == Decimal(d.year, 4);
    assert s[at + 4..at + 6] == Decimal(d.month, 2);
    assert s[at + 6..at + 8] == Decimal(d.day, 2);
    DigitsJoined(Decimal(d.month, 2), Decimal(d.day, 2));
    DigitsJoined(Decimal(d.year, 4), Decimal(d.month, 2) + Decimal(d.day, 2));
    assert s[at..at + 8] == Decimal(d.year, 4) + (Decimal(d.month, 2) + Decimal(d.day, 2));
  }

  /** A customer number spells the date that many days after the first of January 2000. */
  lemma CustomerDate(id: nat)
    requires id < 0x10000
    ensures var s := CustomerId2Str(id);
            && |s| == 8 && AllDigits(s[0..8])
            && IsDate(DateAt(s, 0)) && Since2000(DateAt(s, 0)) == id
  {
    hide Decimal, DateAdd, Since2000, DateAt;
    var d := DateAdd(EPOCH, id);
    SixteenBitYears(id);
    Since2000Add(id);
    DatePrinted(d, "", "");
    assert "" + (Decimal(d.year, 4) + (Decimal(d.month, 2) + (Decimal(d.day, 2) + ""))) == DateText(d);
  }

  lemma ColumnOf(s: string, lo: nat, hi: nat, n: nat)
    requires lo <= hi <= |s| && n < Pow10(hi - lo)
    requires s[lo..hi] == Decimal(n, hi - lo)
    ensures Column(s, lo, hi, n)
  {
    hide Decimal, DigitsValue;
    DecimalShape(n, hi - lo);
  }

  lemma PartsAt(a: string, b: string, c: string, rest: string)
    requires |a| == 3 && |b| == 3 && |c| == 5
    ensures var s := a + ("-" + (b + ("-" + (c + ("-" + rest)))));
            && |s| == 14 + |rest|
            && s[0..3] == a && s[3] == '-' && s[4..7] == b && s[7] == '-' && s[8..13] == c && s[13] == '-'
            && s == a + "-" + b + "-" + c + "-" + rest && s[14..] == rest
  {
  }

  lemma TailAt(s: string, date: string, no: string)
    requires |s| == 28 && |date| == 8 && |no| == 5 && s[14..] == date + ("-" + no)
    ensures s[22] == '-' && s[23..28] == no
  {
    assert s[14..][8] == s[22];
    assert s[14..][9..14] == s[23..28];
  }

  /** Every column of a printed serial number. */
  lemma SerialColumns(x: u64)
    ensures var s := Devid2Str(x);
            && |s| == 28 && s[3] == '-' && s[7] == '-' && s[13] == '-' && s[22] == '-'
            && Column(s, 0, 3, x / 0x100_0000_0000_0000 % 0x100)
            && Column(s, 4, 7, x / 0x1_0000_0000_0000 % 0x100)
            && Column(s, 8, 13, x / 0x1_0000_0000 % 0x10000)
            && Column(s, 23, 28, x % 0x10000)
            && AllDigits(s[14..22])
            && IsDate(DateAt(s, 14)) && Since2000(DateAt(s, 14)) == x / 0x10000 % 0x10000
  {
    hide Decimal, DateAdd, Since2000, DateAt, DigitsValue;
    var f := Unpack(x);
    var s := Devid2Str(x);
    var d := DateAdd(EPOCH, f.days);
    Powers();
    SixteenBitYears(f.days);
    Since2000Add(f.days);
    DecimalShape(f.devType, 3);
    DecimalShape(f.customerType, 3);
    DecimalShape(f.customerId, 5);
    DecimalShape(f.devNo, 5);
    DecimalShape(d.year, 4);
    DecimalShape(d.month, 2);
    DecimalShape(d.day, 2);
    var a, b, c, no := Decimal(f.devType, 3), Decimal(f.customerType, 3), Decimal(f.customerId, 5), Decimal(f.devNo, 5);
    var rest := Decimal(d.year, 4) + (Decimal(d.month, 2) + (Decimal(d.day, 2) + ("-" + no)));
    PartsAt(a, b, c, rest);
    assert rest == DateText(d) + ("-" + no);
    TailAt(s, DateText(d), no);
    ColumnOf(s, 0, 3, f.devType);
    ColumnOf(s, 4, 7, f.customerType);
    ColumnOf(s, 8, 13, f.customerId);
    ColumnOf(s, 23, 28, f.devNo);
    DatePrinted(d, a + "-" + b + "-" + c + "-", "-" + no);
    assert s == a + "-" + b + "-" + c + "-" + rest;
  }

  /** A text of the printed shape, whatever its digits spell. */
  predicate SerialShaped(s: string) {
    && |s| == 28 && s[3] == '-' && s[7] == '-' && s[13] == '-' && s[22] == '-'
    && AllDigits(s[0..3]) && AllDigits(s[4..7]) && AllDigits(s[8..13]) && AllDigits(s[14..22]) && AllDigits(s[23..28])
  }

  lemma ScanColumn(s: string, lo: nat, hi: nat)
    requires lo < hi <= |s| && AllDigits(s[lo..hi])
    ensures ScanNumber(s[lo..], hi - lo) == Some(Scanned(DigitsValue(s[lo..hi]), s[hi..]))
  {
    forall i | 0 <= i < hi - lo ensures IsDigit(s[lo..][i]) {
      assert s[lo..][i] == s[lo..hi][i];
    }
    FullRun(s[lo..], hi - lo);
    assert s[lo..][..hi - lo] == s[lo..hi] && s[lo..][hi - lo..] == s[hi..];
  }

  lemma ScanDashed(s: string, lo: nat, hi: nat)
    requires lo < hi < |s| && AllDigits(s[lo..hi]) && s[hi] == '-'
    ensures ScanField(s[lo..], hi - lo) == Some(Scanned(DigitsValue(s[lo..hi]), s[hi + 1..]))
  {
    hide ScanNumber, DigitsValue;
    ScanColumn(s, lo, hi);
    assert s[hi..][1..] == s[hi + 1..];
  }

  lemma ScanTailAt(s: string)
    requires SerialShaped(s)
    ensures ScanTail(s[14..]) == Some(DateAndNo(DateAt(s, 14), DigitsValue(s[23..28])))
  {
    hide ScanNumber, DigitsValue;
    DigitsOfPart(s, 14, 22, 14, 18);
    DigitsOfPart(s, 14, 22, 18, 20);
    DigitsOfPart(s, 14, 22, 20, 22);
    ScanColumn(s, 14, 18);
    ScanColumn(s, 18, 20);
    ScanColumn(s, 20, 22);
    assert s[22..][1..] == s[23..];
    ScanColumn(s, 23, 28);
  }

  lemma PackWeights(a: nat, b: nat, c: nat, d: nat, e: nat)
    ensures Pack(Fields(a, b, c, d, e)) ==
            a % 0x100 * 0x100_0000_0000_0000 + b % 0x100 * 0x1_0000_0000_0000
            + c % 0x10000 * 0x1_0000_0000 + d % 0x10000 * 0x10000 + e % 0x10000
  {
  }

  /** The identifier of any text of the printed shape, field by field. */
  lemma ParsedColumns(s: string)
    requires SerialShaped(s)
    ensures Str2Devid(s) ==
            DigitsValue(s[0..3]) % 0x100 * 0x100_0000_0000_0000 + DigitsValue(s[4..7]) % 0x100 * 0x1_0000_0000_0000
            + DigitsValue(s[8..13]) % 0x10000 * 0x1_0000_0000
            + DateDec(Date(2000, 1, 1), DateAt(s, 14)) % 0x10000 * 0x10000 + DigitsValue(s[23..28]) % 0x10000
  {
    hide ScanField, ScanTail, DigitsValue, DateDec, DateAt, Pack;
    assert s[0..] == s;
    ScanDashed(s, 0, 3);
    ScanDashed(s, 4, 7);
    ScanDashed(s, 8, 13);
    ScanTailAt(s);
    PackWeights(DigitsValue(s[0..3]), DigitsValue(s[4..7]), DigitsValue(s[8..13]),
                DateDec(Date(2000, 1, 1), DateAt(s, 14)), DigitsValue(s[23..28]));
  }

  /** A date of 2000 or later counts its days from the first of January 2000, an earlier one none. */
  lemma DaysFrom2000(d: Date)
    requires IsDate(d)
    ensures DateDec(Date(2000, 1, 1), d) == if Since2000(d) >= 0 then Since2000(d) else 0
  {
    hide DayNumber, DaysOf;
    DaysOfDate(d);
    DaysOfDate(Date(2000, 1, 1));
  }

  /** A text of another length has no identifier. */
  lemma WrongLength(s: string)
    requires |s| != 28
    ensures Str2Devid(s) == 0
  {
  }

  // ----- Examples

  lemma DatesByNumber(days: nat, d: Date)
    requires IsDate(d) && Since2000(d) == days
    ensures DateAdd(EPOCH, days) == d
  {
    hide DayNumber, Advance;
    AdvanceDayNumber(EPOCH, days);
    DayNumberInjective(DateAdd(EPOCH, days), d);
  }

  lemma LastDigit(n: nat, w: nat, d: nat)
    requires d < 10
    ensures Decimal(10 * n + d, w + 1) == Decimal(n, w) + [DigitChar(d)]
  {
  }

  lemma TwoDigits(a: nat, b: nat)
    requires a < 10 && b < 10
    ensures Decimal(10 * a + b, 2) == [DigitChar(a), DigitChar(b)]
  {
    hide Decimal;
    LastDigit(a, 1, b);
    LastDigit(0, 0, a);
    assert Decimal(0, 0) == "" by { NoDigits(); }
  }

  lemma NoDigits()
    ensures Decimal(0, 0) == ""
  {
  }

  lemma ThreeDigits(a: nat, b: nat, c: nat)
    requires a < 10 && b < 10 && c < 10
    ensures Decimal(100 * a + 10 * b + c, 3) == [DigitChar(a), DigitChar(b), DigitChar(c)]
  {
    hide Decimal;
    LastDigit(10 * a + b, 2, c);
    TwoDigits(a, b);
  }

  lemma FourDigits(a: nat, b: nat, c: nat, d: nat)
    requires a < 10 && b < 10 && c < 10 && d < 10
    ensures Decimal(1000 * a + 100 * b + 10 * c + d, 4) == [DigitChar(a), DigitChar(b), DigitChar(c), DigitChar(d)]
  {
    hide Decimal;
    LastDigit(100 * a + 10 * b + c, 3, d);
    ThreeDigits(a, b, c);
  }

  /** The customer number of customer id 0. */
  lemma FirstCustomer()
    ensures CustomerId2Str(0) == "20000101"
  {
    hide Decimal;
    FourDigits(2, 0, 0, 0);
    TwoDigits(0, 1);
    assert DateText(Date(2000, 1, 1)) == "2000" + ("01" + "01");
  }

  /** The serial number of 0x0102030405060708, and back. */
  lemma ExampleSerial()
    ensures Devid2Str(0x0102_0304_0506_0708) == "001-002-00772-20030710-01800"
    ensures Str2Devid("001-002-00772-20030710-01800") == 0x0102_0304_0506_0708
  {
    hide DateAdd, Decimal, Str2Devid, Unpack;
    ExampleFields();
    ExampleDate();
    DatesByNumber(1286, Date(2003, 7, 10));
    ExampleColumns();
    SerialRoundTrip(0x0102_0304_0506_0708);
  }

  lemma ExampleFields()
    ensures Unpack(0x0102_0304_0506_0708) == Fields(1, 2, 772, 1286, 1800)
  {
  }

  lemma ExampleColumns()
    ensures Decimal(1, 3) == "001" && Decimal(2, 3) == "002" && Decimal(772, 5) == "00772" && Decimal(1800, 5) == "01800"
    ensures Decimal(2003, 4) == "2003" && Decimal(7, 2) == "07" && Decimal(10, 2) == "10"
  {
    hide Decimal;
    ThreeDigits(0, 0, 1);
    ThreeDigits(0, 0, 2);
    FourDigits(0, 0, 7, 7);
    LastDigit(77, 4, 2);
    FourDigits(0, 1, 8, 0);
    LastDigit(180, 4, 0);
    FourDigits(2, 0, 0, 3);
    TwoDigits(0, 7);
    TwoDigits(1, 0);
  }

  lemma ExampleDate()
    ensures Since2000(Date(2003, 7, 10)) == 1286
  {
    hide DayNumber, YearDays, MarchDays;
    DayNumberParts(Date(2003, 7, 10));
    DayNumberParts(Date(2000, 1, 1));
    ExampleYears();
  }

  lemma ExampleYears()
    ensures YearDays(2003) - YearDays(1999) == 1461 && MarchDays(4) == 122 && MarchDays(10) == 306
  {
  }
}
