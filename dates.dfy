/** The part of `java.time.LocalDate` the linter uses: the value itself, its
    ISO text (`toString`), `isAfter`, and the formatter/parser pair, which is
    taken as given rather than modelled. */
module Dates {
  import opened Common
  import opened JavaText

  /** A calendar date in the ISO calendar, as year, month and day. */
  datatype Date = Date(year: int, month: int, day: int)

  const MinYear: int := -999_999_999
  const MaxYear: int := 999_999_999

  /** `IsoChronology.isLeapYear`. */
  predicate IsLeapYear(y: int) {
    y % 4 == 0 && (y % 100 != 0 || y % 400 == 0)
  }

  function DaysInMonth(y: int, m: int): int
    requires 1 <= m <= 12
  {
    if m == 2 then (if IsLeapYear(y) then 29 else 28)
    else if m == 4 || m == 6 || m == 9 || m == 11 then 30
    else 31
  }

  /** The dates a `LocalDate` can hold. */
  predicate ValidDate(d: Date) {
    && MinYear <= d.year <= MaxYear
    && 1 <= d.month <= 12
    && 1 <= d.day <= DaysInMonth(d.year, d.month)
  }

  type LocalDate = d: Date | ValidDate(d) witness Date(2000, 1, 1)

  /** `a.isAfter(b)`: `a` is later in the calendar than `b`. */
  predicate IsAfter(a: Date, b: Date) {
    a.year > b.year
    || (a.year == b.year && a.month > b.month)
    || (a.year == b.year && a.month == b.month && a.day > b.day)
  }

  /** `LocalDate.toString()`: `yyyy-MM-dd`, with the year zero-padded to four
      digits between -999 and 999, and a `+` before years beyond 9999. */
  function IsoString(d: LocalDate): string {
    IsoYear(d.year) + TwoDigitField(d.month) + TwoDigitField(d.day)
  }

  function IsoYear(y: int): string {
    if -1000 < y < 1000 then
      if y < 0 then
        var t := IntToString(y - 10000);  // "-1dddd": drop the '1'
        t[..1] + t[2..]
      else
        var t := IntToString(y + 10000);  // "1dddd": drop the '1'
        t[1..]
    else if y > 9999 then "+" + IntToString(y)
    else IntToString(y)
  }

  /** `(v < 10 ? "-0" : "-") + v`. */
  function TwoDigitField(v: int): string {
    (if v < 10 then "-0" else "-") + IntToString(v)
  }

  /** What `java.time` contributes, left uninterpreted: whether
      `DateTimeFormatter.ofPattern` accepts a pattern, and what `LocalDate.parse`
      with that pattern makes of a text (`None` where it throws
      `DateTimeParseException`). */
  datatype TimeLibrary = TimeLibrary(
    acceptsPattern: string -> bool,
    parse: (string, string) -> Option<LocalDate>)

  // ---------------------------------------------------------------------
  // The ISO text orders four-digit years like the calendar

  function Pow10(w: nat): (p: nat)
    ensures p >= 1
  {
    if w == 0 then 1 else 10 * Pow10(w - 1)
  }

  /** `n` written with exactly `w` digits, leading zeros included. */
  function Digits(n: nat, w: nat): (r: string)
    ensures |r| == w
  {
    if w == 0 then "" else Digits(n / 10, w - 1) + [DigitChar(n % 10)]
  }

  lemma {:induction false} NatToStringIsDigits(n: nat, w: nat)
    requires w >= 1 && Pow10(w - 1) <= n < Pow10(w)
    ensures NatToString(n) == Digits(n, w)
    decreases w
  {
    if w > 1 {
      assert Pow10(w - 2) <= n / 10 < Pow10(w - 1);
      NatToStringIsDigits(n / 10, w - 1);
    }
  }

  /** For numbers below `10^w`, comparing their `w`-digit texts compares the numbers. */
  lemma {:induction false} DigitsOrder(a: nat, b: nat, w: nat)
    requires a < Pow10(w) && b < Pow10(w)
    ensures StrLess(Digits(a, w), Digits(b, w)) <==> a < b
    ensures Digits(a, w) == Digits(b, w) <==> a == b
    decreases w
  {
    if w > 0 {
      var ha, hb := a / 10, b / 10;
      assert ha < Pow10(w - 1) && hb < Pow10(w - 1);
      DigitsOrder(ha, hb, w - 1);
      StrLessConcat(Digits(ha, w - 1), [DigitChar(a % 10)], Digits(hb, w - 1), [DigitChar(b % 10)]);
      assert StrLess([DigitChar(a % 10)], [DigitChar(b % 10)]) <==> a % 10 < b % 10;
      var da, db := Digits(a, w), Digits(b, w);
      if da == db {
        assert da[w - 1] == db[w - 1];
        assert da[..w - 1] == Digits(ha, w - 1) && db[..w - 1] == Digits(hb, w - 1);
      }
    } else {
      StrLessIrreflexive("");
    }
  }

  /** For the years 0 to 9999, `IsoYear` is the year in exactly four digits. */
  lemma IsoYearFourDigits(y: int)
    requires 0 <= y <= 9999
    ensures IsoYear(y) == Digits(y, 4)
  {
    if y < 1000 {
      PaddedYearDigits(y);
    } else {
      assert Pow10(3) == 1000 && Pow10(4) == 10000;
      NatToStringIsDigits(y, 4);
    }
  }

  // Below 1000 the year is written as `10000 + y` without its leading `1`.
  lemma PaddedYearDigits(y: int)
    requires 0 <= y < 1000
    ensures IsoYear(y) == Digits(y, 4)
  {
    assert Pow10(4) == 10000;
    PaddedDigits(y, 4);
    assert IsoYear(y) == NatToString(Pow10(4) + y)[1..];
  }

  /** Dropping the leading `1` of `10^w + n` leaves `n` in `w` digits. */
  lemma PaddedDigits(n: nat, w: nat)
    requires n < Pow10(w)
    ensures NatToString(Pow10(w) + n)[1..] == Digits(n, w)
  {
    assert Pow10(w + 1) == 10 * Pow10(w);
    NatToStringIsDigits(Pow10(w) + n, w + 1);
    DigitsDropLead(n, w);
  }

  /** Writing `10^w + n` in `w + 1` digits puts a `1` before the `w` digits of `n`. */
  lemma {:induction false} DigitsDropLead(n: nat, w: nat)
    requires n < Pow10(w)
    ensures Digits(Pow10(w) + n, w + 1) == "1" + Digits(n, w)
    decreases w
  {
    if w > 0 {
      assert (Pow10(w) + n) / 10 == Pow10(w - 1) + n / 10;
      assert (Pow10(w) + n) % 10 == n % 10;
      DigitsDropLead(n / 10, w - 1);
    }
  }

  lemma TwoDigitFieldIsDigits(v: int)
    requires 1 <= v <= 99
    ensures TwoDigitField(v) == "-" + Digits(v, 2)
  {
    if v < 10 {
      NatToStringIsDigits(v, 1);
    } else {
      NatToStringIsDigits(v, 2);
    }
  }

  // A `-` in front changes neither the order nor equality.
  lemma DashLess(x: string, y: string)
    ensures StrLess("-" + x, "-" + y) <==> StrLess(x, y)
    ensures "-" + x == "-" + y <==> x == y
  {
    StrLessConcat("-", x, "-", y);
    StrLessIrreflexive("-");
    if "-" + x == "-" + y {
      assert x == ("-" + x)[1..] && y == ("-" + y)[1..];
    }
  }

  // Month and day fields of equal widths compare month first.
  lemma TailFieldsOrder(m1: string, d1: string, m2: string, d2: string)
    requires |m1| == |m2|
    ensures StrLess(("-" + m1) + ("-" + d1), ("-" + m2) + ("-" + d2))
            <==> StrLess(m1, m2) || (m1 == m2 && StrLess(d1, d2))
  {
    StrLessConcat("-" + m1, "-" + d1, "-" + m2, "-" + d2);
    DashLess(m1, m2);
    DashLess(d1, d2);
  }

  /** Why a `TreeMap` keyed by `toString` sorts by date: for dates with years
      0 to 9999, the ISO texts compare exactly as the dates do. */
  lemma IsoOrderIsChronological(a: LocalDate, b: LocalDate)
    requires 0 <= a.year <= 9999 && 0 <= b.year <= 9999
    ensures StrLess(IsoString(a), IsoString(b)) <==> IsAfter(b, a)
  {
    IsoYearFourDigits(a.year);
    IsoYearFourDigits(b.year);
    TwoDigitFieldIsDigits(a.month);
    TwoDigitFieldIsDigits(b.month);
    TwoDigitFieldIsDigits(a.day);
    TwoDigitFieldIsDigits(b.day);
    DigitsOrder(a.year, b.year, 4);
    DigitsOrder(a.month, b.month, 2);
    DigitsOrder(a.day, b.day, 2);
    var ya, ma, da := Digits(a.year, 4), Digits(a.month, 2), Digits(a.day, 2);
    var yb, mb, db := Digits(b.year, 4), Digits(b.month, 2), Digits(b.day, 2);
    var ta, tb := ("-" + ma) + ("-" + da), ("-" + mb) + ("-" + db);
    assert IsoString(a) == ya + ta;
    assert IsoString(b) == yb + tb;
    StrLessConcat(ya, ta, yb, tb);
    TailFieldsOrder(ma, da, mb, db);
  }

  /** `LocalDate.of(2023, 10, 10).toString()` is `2023-10-10`. */
  lemma IsoStringExample()
    ensures IsoString(Date(2023, 10, 10)) == "2023-10-10"
  {
    YearText2023();
    assert NatToString(10) == NatToString(1) + "0";
    assert IsoYear(2023) == "2023";
    assert TwoDigitField(10) == "-10";
  }

  // The digits of 2023, one at a time.
  lemma YearText2023()
    ensures NatToString(2023) == "2023"
  {
    assert NatToString(20) == NatToString(2) + "0";
    assert NatToString(202) == NatToString(20) + "2";
    assert NatToString(2023) == NatToString(202) + "3";
  }

  /** Beyond the year 9999 the order breaks: `+10000-01-01` sorts before `2023-10-10`. */
  lemma IsoOrderBreaksAfter9999()
    ensures StrLess(IsoString(Date(10000, 1, 1)), IsoString(Date(2023, 10, 10)))
    ensures IsAfter(Date(10000, 1, 1), Date(2023, 10, 10))
  {
    var s := IsoString(Date(10000, 1, 1));
    assert s[0] == '+';
    IsoStringExample();
  }

  // ---------------------------------------------------------------------
  // Different dates have different ISO texts

  predicate AllDigits(s: string) {
    forall k :: 0 <= k < |s| ==> IsDigit(s[k])
  }

  /** Reads a year back from its `IsoYear` text. */
  function IsoYearValue(t: string): int {
    if |t| >= 2 && t[0] == '-' && AllDigits(t[1..]) then 0 - DecimalValue(t[1..]) as int
    else if |t| >= 2 && t[0] == '+' && AllDigits(t[1..]) then DecimalValue(t[1..])
    else if AllDigits(t) then DecimalValue(t)
    else 0
  }

  lemma {:induction false} DigitsValue(n: nat, w: nat)
    requires n < Pow10(w)
    ensures AllDigits(Digits(n, w)) && DecimalValue(Digits(n, w)) == n
    decreases w
  {
    if w > 0 {
      DigitsValue(n / 10, w - 1);
      var d := Digits(n, w);
      assert d[..w - 1] == Digits(n / 10, w - 1);
    }
  }

  /** The year text is at least four characters long and gives the year back. */
  lemma IsoYearRoundTrip(y: int)
    ensures |IsoYear(y)| >= 4 && IsoYearValue(IsoYear(y)) == y
  {
    if 0 <= y <= 9999 {
      FourDigitYearRoundTrip(y);
    } else if y > 9999 {
      LongYearRoundTrip(y);
    } else if y > -1000 {
      ShortNegativeYearRoundTrip(y);
    } else {
      LongNegativeYearRoundTrip(y);
    }
  }

  lemma FourDigitYearRoundTrip(y: int)
    requires 0 <= y <= 9999
    ensures |IsoYear(y)| >= 4 && IsoYearValue(IsoYear(y)) == y
  {
    IsoYearFourDigits(y);
    DigitsValue(y, 4);
    assert IsDigit(IsoYear(y)[0]);
  }

  lemma LongYearRoundTrip(y: int)
    requires y > 9999
    ensures |IsoYear(y)| >= 4 && IsoYearValue(IsoYear(y)) == y
  {
    var d := NatToString(y);
    assert IsoYear(y) == "+" + d;
    NatToStringRoundTrip(y);
    assert Pow10(4) == 10000;
    NatToStringLong(y, 4);
    SignedYearValue('+', d);
  }

  lemma ShortNegativeYearRoundTrip(y: int)
    requires -1000 < y < 0
    ensures |IsoYear(y)| >= 4 && IsoYearValue(IsoYear(y)) == y
  {
    var t := IsoYear(y);
    ShortNegativeYearText(y);
    assert t[1..] == Digits(-y, 4);
    DigitsValue(-y, 4);
  }

  // Between -999 and -1 the year is a minus sign and four digits.
  lemma ShortNegativeYearText(y: int)
    requires -1000 < y < 0
    ensures IsoYear(y) == "-" + Digits(-y, 4)
  {
    assert Pow10(4) == 10000 && Pow10(5) == 100000;
    NatToStringIsDigits(10000 - y, 5);
    DigitsDropLead(-y, 4);
    var u := IntToString(y - 10000);
    assert u == "-" + Digits(10000 + -y, 5);
    assert IsoYear(y) == u[..1] + u[2..];
  }

  lemma LongNegativeYearRoundTrip(y: int)
    requires y <= -1000
    ensures |IsoYear(y)| >= 4 && IsoYearValue(IsoYear(y)) == y
  {
    var d := NatToString(-y);
    assert IsoYear(y) == "-" + d;
    NatToStringRoundTrip(-y);
    assert Pow10(3) == 1000;
    NatToStringLong(-y, 3);
    SignedYearValue('-', d);
  }

  /** A sign followed by digits reads back as the signed value of the digits. */
  lemma SignedYearValue(sign: char, d: string)
    requires sign == '-' || sign == '+'
    requires |d| >= 1 && AllDigits(d)
    ensures IsoYearValue([sign] + d) == if sign == '-' then 0 - DecimalValue(d) as int else DecimalValue(d)
  {
    assert ([sign] + d)[1..] == d;
  }

  /** A number of at least `10^k` takes more than `k` digits. */
  lemma {:induction false} NatToStringLong(n: nat, k: nat)
    requires n >= Pow10(k)
    ensures |NatToString(n)| > k
    decreases k
  {
    if k > 0 {
      NatToStringLong(n / 10, k - 1);
    }
  }

  /** The ISO text cut into its three fields. */
  lemma IsoStringFields(d: LocalDate)
    ensures IsoString(d) == IsoYear(d.year) + ("-" + Digits(d.month, 2)) + ("-" + Digits(d.day, 2))
    ensures |IsoYear(d.year)| >= 4 && IsoYearValue(IsoYear(d.year)) == d.year
  {
    IsoYearRoundTrip(d.year);
    TwoDigitFieldIsDigits(d.month);
    TwoDigitFieldIsDigits(d.day);
  }

  /** The last two fields have a fixed width, so equal texts have equal fields. */
  lemma SameFields(ya: string, ma: string, da: string, yb: string, mb: string, db: string)
    requires |ma| == |mb| == 2 && |da| == |db| == 2
    requires ya + ("-" + ma) + ("-" + da) == yb + ("-" + mb) + ("-" + db)
    ensures ya == yb && ma == mb && da == db
  {
    var s := ya + ("-" + ma) + ("-" + da);
    var t := yb + ("-" + mb) + ("-" + db);
    assert |ya| == |yb|;
    assert ya == s[..|s| - 6] && yb == t[..|t| - 6];
    assert ma == s[|s| - 5..|s| - 3] && mb == t[|t| - 5..|t| - 3];
    assert da == s[|s| - 2..] && db == t[|t| - 2..];
  }

  /** `LocalDate.toString` is one-to-one. */
  lemma IsoStringInjective(a: LocalDate, b: LocalDate)
    requires IsoString(a) == IsoString(b)
    ensures a == b
  {
    IsoStringFields(a);
    IsoStringFields(b);
    SameFields(IsoYear(a.year), Digits(a.month, 2), Digits(a.day, 2),
               IsoYear(b.year), Digits(b.month, 2), Digits(b.day, 2));
    assert Pow10(2) == 100;
    DigitsOrder(a.month, b.month, 2);
    DigitsOrder(a.day, b.day, 2);
  }

  /** The text is at least ten characters long. */
  lemma IsoStringLength(d: LocalDate)
    ensures |IsoString(d)| >= 10
  {
    IsoStringFields(d);
  }
}
