/**
 * The `dateFormat` pattern of register.js, which `dateValidator` applies to
 * `month + '/' + day + '/' + year`. It has three anchored alternatives, each
 * `month SEP day SEP year` with the same separator (`/`, `-` or `.`) twice:
 *
 *   1. a 31-day month with day 31, or a month other than February with day 29
 *      or 30, then a year of two digits or four digits from 1600 up;
 *   2. February 29 with a leap year;
 *   3. any month 1-12 with a day 1-28, then a year as in 1.
 *
 * The month class `[1,3-9]` of the second half of alternative 1 also admits a
 * comma; the model keeps it.
 */
module DateFormat {
  import opened JsText

  /** `(\/|-|\.)` */
  predicate IsSep(c: char) {
    c == '/' || c == '-' || c == '.'
  }

  predicate IsNonZeroDigit(c: char) {
    '1' <= c <= '9'
  }

  /** `[13578]` */
  predicate IsLongMonthDigit(c: char) {
    c == '1' || c == '3' || c == '5' || c == '7' || c == '8'
  }

  /** `[1,3-9]` (a comma included) */
  predicate IsNotFebruaryDigit(c: char) {
    c == '1' || c == ',' || ('3' <= c <= '9')
  }

  /** `0?[13578]|1[02]` */
  predicate IsLongMonth(m: string) {
    || (|m| == 1 && IsLongMonthDigit(m[0]))
    || (|m| == 2 && m[0] == '0' && IsLongMonthDigit(m[1]))
    || m == "10" || m == "12"
  }

  /** `0?[1,3-9]|1[0-2]` */
  predicate IsNotFebruary(m: string) {
    || (|m| == 1 && IsNotFebruaryDigit(m[0]))
    || (|m| == 2 && m[0] == '0' && IsNotFebruaryDigit(m[1]))
    || m == "10" || m == "11" || m == "12"
  }

  /** `0?2` */
  predicate IsFebruary(m: string) {
    m == "2" || m == "02"
  }

  /** `(?:0?[1-9])|(?:1[0-2])` */
  predicate IsAnyMonth(m: string) {
    || (|m| == 1 && IsNonZeroDigit(m[0]))
    || (|m| == 2 && m[0] == '0' && IsNonZeroDigit(m[1]))
    || m == "10" || m == "11" || m == "12"
  }

  /** `0?[1-9]|1\d|2[0-8]` */
  predicate IsCommonDay(d: string) {
    || (|d| == 1 && IsNonZeroDigit(d[0]))
    || (|d| == 2 && d[0] == '0' && IsNonZeroDigit(d[1]))
    || (|d| == 2 && d[0] == '1' && IsDigit(d[1]))
    || (|d| == 2 && d[0] == '2' && '0' <= d[1] <= '8')
  }

  /** `1[6-9]|[2-9]\d` */
  predicate IsCentury(c0: char, c1: char) {
    (c0 == '1' && '6' <= c1 <= '9') || ('2' <= c0 <= '9' && IsDigit(c1))
  }

  /** `(?:1[6-9]|[2-9]\d)?\d{2}` */
  predicate IsYear(y: string) {
    || (|y| == 2 && IsDigit(y[0]) && IsDigit(y[1]))
    || (|y| == 4 && IsCentury(y[0], y[1]) && IsDigit(y[2]) && IsDigit(y[3]))
  }

  predicate IsEvenNonZeroDigit(c: char) {
    c == '2' || c == '4' || c == '6' || c == '8'
  }

  /** `0[48]|[2468][048]|[13579][26]`: the last two digits of a leap year other than a century. */
  predicate IsLeapTail(a: char, b: char) {
    || (a == '0' && (b == '4' || b == '8'))
    || (IsEvenNonZeroDigit(a) && (b == '0' || b == '4' || b == '8'))
    || ((a == '1' || a == '3' || a == '5' || a == '7' || a == '9') && (b == '2' || b == '6'))
  }

  /** `16|[2468][048]|[3579][26]`: the first two digits of a leap century. */
  predicate IsLeapCentury(a: char, b: char) {
    || (a == '1' && b == '6')
    || (IsEvenNonZeroDigit(a) && (b == '0' || b == '4' || b == '8'))
    || ((a == '3' || a == '5' || a == '7' || a == '9') && (b == '2' || b == '6'))
  }

  /** `(?:1[6-9]|[2-9]\d)?(?:0[48]|[2468][048]|[13579][26])|(?:16|[2468][048]|[3579][26])00` */
  predicate IsLeapYearText(y: string) {
    || (|y| == 2 && IsLeapTail(y[0], y[1]))
    || (|y| == 4 && IsCentury(y[0], y[1]) && IsLeapTail(y[2], y[3]))
    || (|y| == 4 && IsLeapCentury(y[0], y[1]) && y[2] == '0' && y[3] == '0')
  }

  /** The month, day and year texts match one of the alternatives. */
  predicate IsDateParts(m: string, d: string, y: string) {
    || (IsLongMonth(m) && d == "31" && IsYear(y))
    || (IsNotFebruary(m) && (d == "29" || d == "30") && IsYear(y))
    || (IsFebruary(m) && d == "29" && IsLeapYearText(y))
    || (IsAnyMonth(m) && IsCommonDay(d) && IsYear(y))
  }

  /** The separators at i and j split s into parts that match. */
  predicate IsDateSplit(s: string, i: nat, j: nat) {
    i < j < |s| && IsSep(s[i]) && s[j] == s[i] && IsDateParts(s[..i], s[i + 1..j], s[j + 1..])
  }

  /** `s.match(dateFormat)` is non-null. */
  predicate MatchesDateFormat(s: string) {
    exists i, j | 0 <= i < j < |s| :: IsDateSplit(s, i, j)
  }

  /** The characters a matching part may hold: digits and the comma. */
  predicate IsPartChar(c: char) {
    IsDigit(c) || c == ','
  }

  predicate IsPartText(s: string) {
    forall i :: 0 <= i < |s| ==> IsPartChar(s[i])
  }

  lemma DatePartsText(m: string, d: string, y: string)
    requires IsDateParts(m, d, y)
    ensures IsPartText(m) && IsPartText(d) && IsPartText(y)
  {
  }

  /** A matching string holds only digits, commas and separators; in particular
      no whitespace. */
  lemma DateFormatChars(s: string)
    requires MatchesDateFormat(s)
    ensures forall k :: 0 <= k < |s| ==> IsPartChar(s[k]) || IsSep(s[k])
  {
    var i, j :| 0 <= i < j < |s| && IsDateSplit(s, i, j);
    DatePartsText(s[..i], s[i + 1..j], s[j + 1..]);
    forall k | 0 <= k < |s| ensures IsPartChar(s[k]) || IsSep(s[k]) {
      SplitChar(s, i, j, k);
    }
  }

  /** A character of a string cut at two separators lies in a part or is a separator. */
  lemma SplitChar(s: string, i: nat, j: nat, k: nat)
    requires i < j < |s| && IsSep(s[i]) && s[j] == s[i] && k < |s|
    requires IsPartText(s[..i]) && IsPartText(s[i + 1..j]) && IsPartText(s[j + 1..])
    ensures IsPartChar(s[k]) || IsSep(s[k])
  {
    if k < i {
      assert s[k] == s[..i][k];
    } else if i < k < j {
      assert s[k] == s[i + 1..j][k - i - 1];
    } else if j < k {
      assert s[k] == s[j + 1..][k - j - 1];
    }
  }

  /** For parts without separators joined by `/`, the only possible split is at
      the two slashes, so the match is decided by the parts alone. */
  lemma {:induction false} JoinedDateSplit(m: string, d: string, y: string)
    requires IsPartText(m) && IsPartText(d) && IsPartText(y)
    ensures MatchesDateFormat(m + "/" + d + "/" + y) <==> IsDateParts(m, d, y)
  {
    if MatchesDateFormat(m + "/" + d + "/" + y) {
      JoinedMatchHasParts(m, d, y);
    }
    if IsDateParts(m, d, y) {
      JoinedPartsMatch(m, d, y);
    }
  }

  lemma JoinedMatchHasParts(m: string, d: string, y: string)
    requires IsPartText(m) && IsPartText(d) && IsPartText(y)
    requires MatchesDateFormat(m + "/" + d + "/" + y)
    ensures IsDateParts(m, d, y)
  {
    var s := m + "/" + d + "/" + y;
    var i, j :| 0 <= i < j < |s| && IsDateSplit(s, i, j);
    DatePartsText(s[..i], s[i + 1..j], s[j + 1..]);
    SplitPointsOfJoined(m, d, y, i, j);
    SlashSplitParts(m, d, y, i, j);
  }

  lemma SlashSplitParts(m: string, d: string, y: string, i: nat, j: nat)
    requires i == |m| && j == |m| + 1 + |d| && IsDateSplit(m + "/" + d + "/" + y, i, j)
    ensures IsDateParts(m, d, y)
  {
    JoinedParts(m, d, y);
  }

  lemma JoinedPartsMatch(m: string, d: string, y: string)
    requires IsDateParts(m, d, y)
    ensures MatchesDateFormat(m + "/" + d + "/" + y)
  {
    var s := m + "/" + d + "/" + y;
    JoinedParts(m, d, y);
    assert IsDateSplit(s, |m|, |m| + 1 + |d|);
  }

  /** The slices of `m/d/y` at its two slashes are the parts. */
  lemma JoinedParts(m: string, d: string, y: string)
    ensures var s, i, j := m + "/" + d + "/" + y, |m|, |m| + 1 + |d|;
      && i < j < |s| && s[i] == '/' && s[j] == '/'
      && s[..i] == m && s[i + 1..j] == d && s[j + 1..] == y
  {
  }

  lemma SplitPointsOfJoined(m: string, d: string, y: string, i: nat, j: nat)
    requires IsPartText(m) && IsPartText(d) && IsPartText(y)
    requires var s := m + "/" + d + "/" + y;
      i < j < |s| && IsSep(s[i]) && s[j] == s[i] && IsPartText(s[..i]) && IsPartText(s[i + 1..j])
    ensures i == |m| && j == |m| + 1 + |d|
  {
    var s := m + "/" + d + "/" + y;
    assert s[|m|] == '/' && s[|m| + 1 + |d|] == '/';
  }

  /** A year is a leap year in the Gregorian calendar. */
  predicate IsLeap(y: int) {
    (y % 4 == 0 && y % 100 != 0) || y % 400 == 0
  }

  function DaysInMonth(m: int, y: int): int {
    if m == 2 then (if IsLeap(y) then 29 else 28)
    else if m == 4 || m == 6 || m == 9 || m == 11 then 30
    else 31
  }

  /** `month + '/' + day + '/' + year` for values rendered in decimal. */
  function DateText(m: nat, d: nat, y: nat): string {
    Decimal(m) + "/" + Decimal(d) + "/" + Decimal(y)
  }

  lemma DecimalOneDigit(n: nat)
    requires n < 10
    ensures Decimal(n) == [DigitChar(n)]
  {
  }

  lemma DecimalTwoDigits(n: nat)
    requires 10 <= n < 100
    ensures Decimal(n) == [DigitChar(n / 10), DigitChar(n % 10)]
  {
  }

  lemma DecimalFourDigits(n: nat)
    requires 1000 <= n < 10000
    ensures Decimal(n) == [DigitChar(n / 1000), DigitChar(n / 100 % 10), DigitChar(n / 10 % 10), DigitChar(n % 10)]
  {
    var a := n / 10;
    TenthOfTenth(n);
    TenthOfHundredth(n);
    assert Decimal(n) == Decimal(a) + [DigitChar(n % 10)];
    assert Decimal(a) == Decimal(a / 10) + [DigitChar(a % 10)];
    DecimalTwoDigits(n / 100);
  }

  lemma TenthOfTenth(x: nat)
    ensures x / 10 / 10 == x / 100
  {
    var q, r := x / 100, x % 100;
    DivBy10(x, 10 * q + r / 10, r % 10);
    DivBy10(x / 10, q, r / 10);
  }

  lemma TenthOfHundredth(x: nat)
    ensures x / 100 / 10 == x / 1000
  {
    var q, r := x / 1000, x % 1000;
    DivBy100(x, 10 * q + r / 100, r % 100);
    DivBy10(x / 100, q, r / 100);
  }

  lemma DigitCharInjective(a: nat, b: nat)
    requires a < 10 && b < 10
    ensures DigitChar(a) == DigitChar(b) <==> a == b
  {
  }

  lemma DecimalIsPartText(n: nat)
    ensures IsPartText(Decimal(n))
  {
    DecimalDigits(n);
  }

  /** The month alternatives on a month number 1-12. */
  lemma MonthTexts(m: nat)
    requires 1 <= m <= 12
    ensures IsLongMonth(Decimal(m)) <==> m == 1 || m == 3 || m == 5 || m == 7 || m == 8 || m == 10 || m == 12
    ensures IsNotFebruary(Decimal(m)) <==> m != 2
    ensures IsFebruary(Decimal(m)) <==> m == 2
    ensures IsAnyMonth(Decimal(m))
  {
    if m < 10 {
      DecimalOneDigit(m);
    } else {
      DecimalTwoDigits(m);
    }
  }

  /** The day alternatives on a day number 1-31. */
  lemma DayTexts(d: nat)
    requires 1 <= d <= 31
    ensures Decimal(d) == "31" <==> d == 31
    ensures Decimal(d) == "30" <==> d == 30
    ensures Decimal(d) == "29" <==> d == 29
    ensures IsCommonDay(Decimal(d)) <==> d <= 28
  {
    if d < 10 {
      DecimalOneDigit(d);
    } else {
      DecimalTwoDigits(d);
      assert "31" == [DigitChar(3), DigitChar(1)];
      assert "30" == [DigitChar(3), DigitChar(0)];
      assert "29" == [DigitChar(2), DigitChar(9)];
    }
  }

  /** `0[48]|[2468][048]|[13579][26]` on two digits: a multiple of 4 other than 00. */
  lemma LeapTailDigits(a: nat, b: nat)
    requires a < 10 && b < 10
    ensures IsLeapTail(DigitChar(a), DigitChar(b)) <==> (10 * a + b) % 4 == 0 && 10 * a + b != 0
  {
  }

  /** `16|[2468][048]|[3579][26]` on a century 16-99: a multiple of 4. */
  lemma LeapCenturyDigits(a: nat, b: nat)
    requires a < 10 && b < 10 && 16 <= 10 * a + b
    ensures IsLeapCentury(DigitChar(a), DigitChar(b)) <==> (10 * a + b) % 4 == 0
  {
  }

  /** On the four-digit years 1600-9999 the year alternatives are the Gregorian rule. */
  lemma YearTexts(y: nat)
    requires 1600 <= y <= 9999
    ensures IsYear(Decimal(y))
    ensures IsLeapYearText(Decimal(y)) <==> IsLeap(y)
  {
    DecimalFourDigits(y);
    YearArithmetic(y);
    YearDigits(y / 1000, y / 100 % 10, y / 10 % 10, y % 10);
  }

  /** The year alternatives on four digits a b c e, with a century 16-99. */
  lemma YearDigits(a: nat, b: nat, c: nat, e: nat)
    requires a < 10 && b < 10 && c < 10 && e < 10 && 16 <= 10 * a + b
    ensures var t := [DigitChar(a), DigitChar(b), DigitChar(c), DigitChar(e)];
      && IsYear(t)
      && (IsLeapYearText(t) <==> ((10 * c + e) % 4 == 0 && 10 * c + e != 0) || (10 * c + e == 0 && (10 * a + b) % 4 == 0))
  {
    LeapTailDigits(c, e);
    LeapCenturyDigits(a, b);
  }

  /** The Gregorian rule in terms of the century digits a b and the year digits c e. */
  lemma YearArithmetic(y: nat)
    requires 1600 <= y <= 9999
    ensures var a, b, c, e := y / 1000, y / 100 % 10, y / 10 % 10, y % 10;
      && 16 <= 10 * a + b
      && (IsLeap(y) <==> ((10 * c + e) % 4 == 0 && 10 * c + e != 0) || (10 * c + e == 0 && (10 * a + b) % 4 == 0))
  {
    var q, r := y / 100, y % 100;
    CenturySplit(y);
    LeapByCentury(q, r);
  }

  lemma CenturySplit(y: nat)
    ensures y == 100 * (y / 100) + y % 100
    ensures y / 100 == 10 * (y / 1000) + y / 100 % 10
    ensures y % 100 == 10 * (y / 10 % 10) + y % 10
  {
    var q1, r1 := y / 1000, y % 1000;
    var r2, r3 := r1 / 100, r1 % 100;
    assert r2 < 10;
    assert y == 100 * (10 * q1 + r2) + r3;
    DivBy100(y, 10 * q1 + r2, r3);
    DivBy10(10 * q1 + r2, q1, r2);
    var big := y / 100;
    var r4, r5 := r3 / 10, r3 % 10;
    assert r4 < 10;
    assert y == 10 * (10 * big + r4) + r5;
    DivBy10(y, 10 * big + r4, r5);
    DivBy10(10 * big + r4, big, r4);
  }

  /** Division by 10, and by 100, is determined by a quotient and a remainder below the divisor. */
  lemma DivBy10(x: nat, q: nat, r: nat)
    requires r < 10 && x == 10 * q + r
    ensures x / 10 == q && x % 10 == r
  {
  }

  lemma DivBy100(x: nat, q: nat, r: nat)
    requires r < 100 && x == 100 * q + r
    ensures x / 100 == q && x % 100 == r
  {
  }

  /** A year written as century q and year-of-century r is a leap year when r is a
      non-zero multiple of 4, or r is 0 and q a multiple of 4. */
  lemma LeapByCentury(q: nat, r: nat)
    requires r < 100
    ensures IsLeap(100 * q + r) <==> (r % 4 == 0 && r != 0) || (r == 0 && q % 4 == 0)
  {
    var y := 100 * q + r;
    assert y == 4 * (25 * q) + r;
    assert y % 4 == r % 4;
    assert y % 100 == r;
    if r == 0 {
      assert y == 400 * (q / 4) + 100 * (q % 4);
      assert y % 400 == 100 * (q % 4);
    } else {
      assert y % 400 != 0;
    }
  }

  /** The date pattern accepts `m/d/y`, written in decimal, exactly when it is a
      date of the Gregorian calendar; February 29 passes in leap years only. */
  lemma DateFormatIsCalendar(m: nat, d: nat, y: nat)
    requires 1 <= m <= 12 && 1 <= d <= 31 && 1600 <= y <= 9999
    ensures MatchesDateFormat(DateText(m, d, y)) <==> d <= DaysInMonth(m, y)
  {
    DecimalIsPartText(m);
    DecimalIsPartText(d);
    DecimalIsPartText(y);
    JoinedDateSplit(Decimal(m), Decimal(d), Decimal(y));
    MonthTexts(m);
    DayTexts(d);
    YearTexts(y);
  }

  /** `2/29/2000` passes; `2/30/2000`, `4/31/1990` and `2/29/1900` do not. */
  lemma CalendarExamples()
    ensures MatchesDateFormat(DateText(2, 29, 2000))
    ensures !MatchesDateFormat(DateText(2, 30, 2000))
    ensures !MatchesDateFormat(DateText(4, 31, 1990))
    ensures !MatchesDateFormat(DateText(2, 29, 1900))
  {
    DateFormatIsCalendar(2, 29, 2000);
    DateFormatIsCalendar(2, 30, 2000);
    DateFormatIsCalendar(4, 31, 1990);
    DateFormatIsCalendar(2, 29, 1900);
  }
}
