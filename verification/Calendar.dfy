/**
 * The calendar the parking rules compute with: `Date.UTC`, `toISOString` and `getUTCDay` as
 * ECMA-262 defines them (sections 21.4.1.3 to 21.4.1.13), on days counted from 1970-01-01,
 * and the way JavaScript compares two strings.
 */
module Calendar {

  // ---------------------------------------------------------------- Gregorian days

  predicate Leap(y: int) {
    y % 4 == 0 && (y % 100 != 0 || y % 400 == 0)
  }

  function YearLength(y: int): int {
    if Leap(y) then 366 else 365
  }

  /** Day on which year `y` starts (DayFromYear of ECMA-262; `/` floors, as there). */
  function DayFromYear(y: int): int {
    365 * (y - 1970) + (y - 1969) / 4 - (y - 1901) / 100 + (y - 1601) / 400
  }

  /** Days of the year before month `m` (0 = January; 12 gives the whole year). */
  function MonthStart(m: nat, leap: bool): int
    requires m <= 12
  {
    var l := if leap then 1 else 0;
    if m == 0 then 0 else if m == 1 then 31
    else if m == 2 then 59 + l else if m == 3 then 90 + l else if m == 4 then 120 + l
    else if m == 5 then 151 + l else if m == 6 then 181 + l else if m == 7 then 212 + l
    else if m == 8 then 243 + l else if m == 9 then 273 + l else if m == 10 then 304 + l
    else if m == 11 then 334 + l else 365 + l
  }

  /** `Date.UTC(year, month0, date)` in days: months overflow into years, and years 0 to 99 mean 1900 to 1999. */
  function UtcDay(year: int, month0: int, date: int): int {
    var y := (if 0 <= year <= 99 then 1900 + year else year) + month0 / 12;
    DayFromYear(y) + MonthStart(month0 % 12, Leap(y)) + date - 1
  }

  /** Months past December go on into the next year, and days past the end of a month into the next ones. */
  lemma UtcOverflows(year: int, month0: int, date: int)
    requires 100 <= year
    ensures UtcDay(year, month0 + 12, date) == UtcDay(year + 1, month0, date)
    ensures UtcDay(year, month0, date + 1) == UtcDay(year, month0, date) + 1
  {
    hide DayFromYear, MonthStart, Leap;
    assert (month0 + 12) / 12 == month0 / 12 + 1 && (month0 + 12) % 12 == month0 % 12;
  }

  lemma YearStep(y: int)
    ensures DayFromYear(y + 1) == DayFromYear(y) + YearLength(y)
  {
    QuadStep(y - 1969);
    CenturyStep(y - 1901);
    GregorianStep(y - 1601);
    LeapCases(y);
  }

  lemma QuadStep(k: int)
    ensures (k + 1) / 4 == k / 4 + (if (k + 1969) % 4 == 0 then 1 else 0)
  {
  }

  lemma CenturyStep(k: int)
    ensures (k + 1) / 100 == k / 100 + (if (k + 1901) % 100 == 0 then 1 else 0)
  {
  }

  lemma GregorianStep(k: int)
    ensures (k + 1) / 400 == k / 400 + (if (k + 1601) % 400 == 0 then 1 else 0)
  {
  }

  lemma LeapCases(y: int)
    ensures y % 400 == 0 ==> y % 100 == 0
    ensures y % 100 == 0 ==> y % 4 == 0
  {
  }

  lemma {:induction false} SomeYear(n: int, y: int)
    ensures exists r :: DayFromYear(r) <= n < DayFromYear(r + 1)
    decreases n < DayFromYear(y), if n < DayFromYear(y) then DayFromYear(y) - n else n - DayFromYear(y)
  {
    YearStep(y);
    YearStep(y - 1);
    if n < DayFromYear(y) { SomeYear(n, y - 1); }
    else if DayFromYear(y + 1) <= n { SomeYear(n, y + 1); }
  }

  lemma DayFromYearMonotone(a: int, b: int)
    requires a <= b
    ensures DayFromYear(a) <= DayFromYear(b)
  {
  }

  /** The year that contains day `n` (YearFromTime of ECMA-262: the largest y that starts by then). */
  ghost function YearOf(n: int): int {
    SomeYear(n, 1970);
    var y :| DayFromYear(y) <= n < DayFromYear(y + 1);
    y
  }

  lemma YearContains(n: int)
    ensures DayFromYear(YearOf(n)) <= n < DayFromYear(YearOf(n) + 1)
  {
  }

  /** Month (0 = January) of a day of the year. */
  function MonthOf(doy: int, leap: bool): (m: nat)
    requires 0 <= doy < (if leap then 366 else 365)
    ensures m < 12 && MonthStart(m, leap) <= doy < MonthStart(m + 1, leap)
  {
    if doy < MonthStart(6, leap) then
      if doy < MonthStart(3, leap) then
        if doy < 31 then 0 else if doy < MonthStart(2, leap) then 1 else 2
      else if doy < MonthStart(4, leap) then 3 else if doy < MonthStart(5, leap) then 4 else 5
    else if doy < MonthStart(9, leap) then
      if doy < MonthStart(7, leap) then 6 else if doy < MonthStart(8, leap) then 7 else 8
    else if doy < MonthStart(10, leap) then 9 else if doy < MonthStart(11, leap) then 10 else 11
  }

  ghost function DayOfYear(n: int): (d: int)
    ensures 0 <= d < YearLength(YearOf(n))
  {
    YearContains(n);
    YearStep(YearOf(n));
    n - DayFromYear(YearOf(n))
  }

  datatype Civil = Civil(y: int, m: int, d: int)

  /** Year, month (from 1) and day of a day number. */
  ghost function CivilOf(n: int): (c: Civil)
    ensures 1 <= c.m <= 12 && 1 <= c.d <= 31
    ensures c.y == YearOf(n)
    ensures MonthStart(c.m - 1, Leap(c.y)) + c.d - 1 == DayOfYear(n) < MonthStart(c.m, Leap(c.y))
  {
    var y := YearOf(n);
    var doy := DayOfYear(n);
    var m := MonthOf(doy, Leap(y));
    Civil(y, m + 1, doy - MonthStart(m, Leap(y)) + 1)
  }

  /** Days whose year has four digits and is not read as 19xx by `Date.UTC`. */
  ghost predicate Proper(n: int) {
    100 <= YearOf(n) <= 9999
  }

  ghost predicate Before(a: Civil, b: Civil) {
    a.y < b.y || (a.y == b.y && (a.m < b.m || (a.m == b.m && a.d < b.d)))
  }

  lemma MonthStartMonotone(i: nat, j: nat, leap: bool)
    requires i <= j <= 12
    ensures MonthStart(i, leap) <= MonthStart(j, leap)
  {
  }

  lemma YearOrder(a: int, b: int)
    requires a < b
    ensures YearOf(a) <= YearOf(b)
    ensures YearOf(a) == YearOf(b) ==> DayOfYear(a) < DayOfYear(b)
  {
    YearContains(a);
    YearContains(b);
    if YearOf(b) < YearOf(a) {
      DayFromYearMonotone(YearOf(b) + 1, YearOf(a));
    }
  }

  /** Later days have later dates: year first, then month, then day. */
  lemma CivilOrder(a: int, b: int)
    requires a < b
    ensures Before(CivilOf(a), CivilOf(b))
  {
    hide DayFromYear, YearOf, DayOfYear;
    YearOrder(a, b);
    if YearOf(a) == YearOf(b) {
      SameYearOrder(CivilOf(a), CivilOf(b), DayOfYear(a), DayOfYear(b));
    }
  }

  lemma SameYearOrder(x: Civil, y: Civil, i: int, j: int)
    requires x.y == y.y && i < j
    requires 1 <= x.m <= 12 && 1 <= y.m <= 12
    requires MonthStart(x.m - 1, Leap(x.y)) + x.d - 1 == i < MonthStart(x.m, Leap(x.y))
    requires MonthStart(y.m - 1, Leap(x.y)) + y.d - 1 == j < MonthStart(y.m, Leap(x.y))
    requires 1 <= x.d && 1 <= y.d
    ensures Before(x, y)
  {
    if y.m < x.m {
      MonthStartMonotone(y.m, x.m - 1, Leap(x.y));
    }
  }

  // ---------------------------------------------------------------- one date after the other

  /** Thirty days hath September, April, June and November. */
  function DaysIn(m: int, y: int): int {
    if m == 2 then (if Leap(y) then 29 else 28) else if m in {4, 6, 9, 11} then 30 else 31
  }

  predicate IsDate(c: Civil) {
    1 <= c.m <= 12 && 1 <= c.d <= DaysIn(c.m, c.y)
  }

  /** The date after, by the lengths of the months alone. */
  function NextDate(c: Civil): Civil {
    if c.d < DaysIn(c.m, c.y) then Civil(c.y, c.m, c.d + 1)
    else if c.m < 12 then Civil(c.y, c.m + 1, 1)
    else Civil(c.y + 1, 1, 1)
  }

  ghost function DayOf(c: Civil): int
    requires IsDate(c)
  {
    DayFromYear(c.y) + MonthStart(c.m - 1, Leap(c.y)) + c.d - 1
  }

  /** The months as the table of their starts has them are as long as they are. */
  lemma MonthLengths(y: int, m: int)
    requires 1 <= m <= 12
    ensures MonthStart(m, Leap(y)) == MonthStart(m - 1, Leap(y)) + DaysIn(m, y)
    ensures MonthStart(0, Leap(y)) == 0 && MonthStart(12, Leap(y)) == YearLength(y)
  {
  }

  /** Every date there is belongs to one day, and that day has this date. */
  lemma DayHasDate(c: Civil)
    requires IsDate(c)
    ensures CivilOf(DayOf(c)) == c
  {
    hide DayFromYear, YearOf, Leap, MonthStart, DaysIn, CivilOf, DayOfYear;
    var n := DayOf(c);
    DayInYear(c);
    YearIs(n, c.y);
    assert DayOfYear(n) == n - DayFromYear(c.y) by { DayOfYearIs(n); }
    OneDate(Leap(c.y), DayOfYear(n), c.m, c.d, CivilOf(n).m, CivilOf(n).d);
  }

  lemma DayOfYearIs(n: int)
    ensures DayOfYear(n) == n - DayFromYear(YearOf(n))
  {
    hide YearOf, DayFromYear;
  }

  lemma DayInYear(c: Civil)
    requires IsDate(c)
    ensures DayFromYear(c.y) <= DayOf(c) < DayFromYear(c.y + 1)
    ensures MonthStart(c.m - 1, Leap(c.y)) + c.d - 1 < MonthStart(c.m, Leap(c.y))
  {
    MonthLengths(c.y, c.m);
    MonthStartMonotone(0, c.m - 1, Leap(c.y));
    MonthStartMonotone(c.m, 12, Leap(c.y));
    MonthLengths(c.y, 1);
    YearStep(c.y);
    hide DayFromYear, Leap, MonthStart, DaysIn, YearLength;
  }

  lemma OneDate(leap: bool, i: int, m: int, d: int, m': int, d': int)
    requires 1 <= m <= 12 && 1 <= m' <= 12 && 1 <= d && 1 <= d'
    requires MonthStart(m - 1, leap) + d - 1 == i < MonthStart(m, leap)
    requires MonthStart(m' - 1, leap) + d' - 1 == i < MonthStart(m', leap)
    ensures m == m' && d == d'
  {
    if m < m' { MonthStartMonotone(m, m' - 1, leap); }
    if m' < m { MonthStartMonotone(m', m - 1, leap); }
    hide MonthStart;
  }

  lemma YearIs(n: int, y: int)
    requires DayFromYear(y) <= n < DayFromYear(y + 1)
    ensures YearOf(n) == y
  {
    YearContains(n);
    if YearOf(n) < y { DayFromYearMonotone(YearOf(n) + 1, y); }
    if y < YearOf(n) { DayFromYearMonotone(y + 1, YearOf(n)); }
  }

  lemma DateOfDay(n: int)
    ensures IsDate(CivilOf(n)) && DayOf(CivilOf(n)) == n
  {
    MonthLengths(YearOf(n), CivilOf(n).m);
  }

  lemma NextDateFollows(c: Civil)
    requires IsDate(c)
    ensures IsDate(NextDate(c)) && DayOf(NextDate(c)) == DayOf(c) + 1
  {
    MonthLengths(c.y, c.m);
    YearStep(c.y);
    hide DayFromYear, MonthStart;
    MonthLengths(c.y + 1, 1);
  }

  // ---------------------------------------------------------------- YYYY-MM-DD

  function Digit(n: int): char
    requires 0 <= n <= 9
  {
    ('0' as int + n) as char
  }

  /** The last `k` decimal digits of `n`. */
  function Pad(n: nat, k: nat): (s: string)
    ensures |s| == k
  {
    if k == 0 then "" else Pad(n / 10, k - 1) + [Digit(n % 10)]
  }

  /** `toISOString().slice(0, 10)`: outside years 0 to 9999 the year takes a sign and six digits. */
  function DateText(c: Civil): string
    requires 1 <= c.m && 1 <= c.d
  {
    var rest := "-" + Pad(c.m, 2) + "-" + Pad(c.d, 2);
    if 0 <= c.y <= 9999 then Pad(c.y, 4) + rest
    else ([if c.y < 0 then '-' else '+'] + Pad(if c.y < 0 then -c.y else c.y, 6) + rest)[..10]
  }

  ghost function IsoDay(n: int): string {
    DateText(CivilOf(n))
  }

  predicate IsDigit(c: char) {
    '0' <= c <= '9'
  }

  predicate Shaped(s: string) {
    && |s| == 10 && s[4] == '-' && s[7] == '-'
    && (forall i :: 0 <= i < 10 && i != 4 && i != 7 ==> IsDigit(s[i]))
  }

  /** `Number` of a run of digits. */
  function ToNumber(s: string): nat
    requires forall c :: c in s ==> IsDigit(c)
  {
    if s == "" then 0 else 10 * ToNumber(s[..|s| - 1]) + (assert IsDigit(s[|s| - 1]); s[|s| - 1] as int - '0' as int)
  }

  /**
   * `split('-').map(Number)` then `Date.UTC(y, m - 1, d + n)`. The source is only given texts of the
   * shape YYYY-MM-DD (and throws on the others); the value 0 for the others is never used.
   */
  function ParseAndAdd(s: string, n: int): int {
    if !Shaped(s) then 0
    else UtcDay(ToNumber(s[..4]), ToNumber(s[5..7]) - 1, ToNumber(s[8..]) + n)
  }

  function Pow10(k: nat): nat {
    if k == 0 then 1 else 10 * Pow10(k - 1)
  }

  lemma {:induction false} PadIsDigits(n: nat, k: nat)
    ensures forall i :: 0 <= i < k ==> IsDigit(Pad(n, k)[i])
  {
    if k > 0 { PadIsDigits(n / 10, k - 1); }
  }

  lemma {:induction false} PadRoundTrip(n: nat, k: nat)
    requires n < Pow10(k)
    ensures forall c :: c in Pad(n, k) ==> IsDigit(c)
    ensures ToNumber(Pad(n, k)) == n
  {
    PadIsDigits(n, k);
    if k > 0 {
      PadRoundTrip(n / 10, k - 1);
      assert Pad(n, k)[..k - 1] == Pad(n / 10, k - 1);
    }
  }

  /** A four-digit year's date reads back as itself. */
  lemma IsoDayReadsBack(k: int)
    requires 0 <= YearOf(k) <= 9999
    ensures var s := IsoDay(k); var c := CivilOf(k);
            Shaped(s) && ToNumber(s[..4]) == c.y && ToNumber(s[5..7]) == c.m && ToNumber(s[8..]) == c.d
  {
    var c := CivilOf(k);
    var s := IsoDay(k);
    assert Pow10(1) == 10 && Pow10(2) == 100 && Pow10(3) == 1000 && Pow10(4) == 10000;
    PadRoundTrip(c.y, 4);
    PadRoundTrip(c.m, 2);
    PadRoundTrip(c.d, 2);
    assert s[..4] == Pad(c.y, 4);
    assert s[5..7] == Pad(c.m, 2);
    assert s[8..] == Pad(c.d, 2);
    forall i | 0 <= i < 10 && i != 4 && i != 7 ensures IsDigit(s[i]) {
      assert s[i] in s[..4] || s[i] in s[5..7] || s[i] in s[8..] by {
        if i < 4 { assert s[i] == s[..4][i]; } else if i < 7 { assert s[i] == s[5..7][i - 5]; }
            else { assert s[i] == s[8..][i - 8]; }
      }
    }
  }

  lemma TextOfDate(c: Civil)
    requires IsDate(c)
    ensures IsoDay(DayOf(c)) == DateText(c) && YearOf(DayOf(c)) == c.y
  {
    hide DayOf, DateText, YearOf;
    DayHasDate(c);
  }

  // ---------------------------------------------------------------- string order

  /** JavaScript's `<` on strings: the first differing code unit decides, and a proper prefix is less. */
  predicate StringLess(a: string, b: string) {
    if b == "" then false
    else if a == "" then true
    else if a[0] != b[0] then a[0] < b[0]
    else StringLess(a[1..], b[1..])
  }

  lemma {:induction false} StringLessIrreflexive(a: string)
    ensures !StringLess(a, a)
  {
    if a != "" { StringLessIrreflexive(a[1..]); }
  }

  lemma {:induction false} StringLessAsymmetric(a: string, b: string)
    requires StringLess(a, b)
    ensures !StringLess(b, a)
  {
    if a != "" && a[0] == b[0] { StringLessAsymmetric(a[1..], b[1..]); }
  }

  lemma {:induction false} StringLessSamePrefix(p: string, a: string, b: string)
    ensures StringLess(p + a, p + b) == StringLess(a, b)
  {
    if p == "" {
      assert p + a == a && p + b == b;
    } else {
      StringLessSamePrefix(p[1..], a, b);
      assert (p + a)[1..] == p[1..] + a && (p + b)[1..] == p[1..] + b;
    }
  }

  lemma {:induction false} PadOrder(m: nat, n: nat, k: nat, a: string, b: string)
    requires m < n < Pow10(k)
    ensures StringLess(Pad(m, k) + a, Pad(n, k) + b)
  {
    var da, db := [Digit(m % 10)] + a, [Digit(n % 10)] + b;
    assert Pad(m, k) + a == Pad(m / 10, k - 1) + da;
    assert Pad(n, k) + b == Pad(n / 10, k - 1) + db;
    if m / 10 == n / 10 {
      StringLessSamePrefix(Pad(m / 10, k - 1), da, db);
    } else {
      PadOrder(m / 10, n / 10, k - 1, da, db);
    }
  }

  lemma DateTextLess(x: Civil, y: Civil)
    requires 0 <= x.y <= 9999 && 1 <= x.m <= 12 && 1 <= x.d <= 31
    requires 0 <= y.y <= 9999 && 1 <= y.m <= 12 && 1 <= y.d <= 31
    requires Before(x, y)
    ensures StringLess(DateText(x), DateText(y))
  {
    assert Pow10(1) == 10 && Pow10(2) == 100 && Pow10(3) == 1000 && Pow10(4) == 10000;
    var xd, yd := "-" + Pad(x.d, 2), "-" + Pad(y.d, 2);
    var xm, ym := Pad(x.m, 2) + xd, Pad(y.m, 2) + yd;
    assert DateText(x) == Pad(x.y, 4) + ("-" + xm) && DateText(y) == Pad(y.y, 4) + ("-" + ym);
    if x.y < y.y {
      PadOrder(x.y, y.y, 4, "-" + xm, "-" + ym);
    } else {
      StringLessSamePrefix(Pad(x.y, 4), "-" + xm, "-" + ym);
      StringLessSamePrefix("-", xm, ym);
      if x.m < y.m {
        PadOrder(x.m, y.m, 2, xd, yd);
      } else {
        StringLessSamePrefix(Pad(x.m, 2), xd, yd);
        StringLessSamePrefix("-", Pad(x.d, 2), Pad(y.d, 2));
        PadOrder(x.d, y.d, 2, "", "");
        assert Pad(x.d, 2) + "" == Pad(x.d, 2) && Pad(y.d, 2) + "" == Pad(y.d, 2);
      }
    }
  }

  lemma IsoDayLess(a: int, b: int)
    requires 0 <= YearOf(a) <= 9999 && 0 <= YearOf(b) <= 9999
    requires a < b
    ensures StringLess(IsoDay(a), IsoDay(b))
  {
    CivilOrder(a, b);
    DateTextLess(CivilOf(a), CivilOf(b));
  }

  /** With four-digit years, comparing the strings compares the days, and equal strings are the same day. */
  lemma StringOrderIsDayOrder(a: int, b: int)
    requires 0 <= YearOf(a) <= 9999 && 0 <= YearOf(b) <= 9999
    ensures StringLess(IsoDay(a), IsoDay(b)) <==> a < b
    ensures IsoDay(a) == IsoDay(b) <==> a == b
  {
    if a < b { IsoDayLess(a, b); StringLessIrreflexive(IsoDay(a)); }
    if b < a { IsoDayLess(b, a); StringLessAsymmetric(IsoDay(b), IsoDay(a)); StringLessIrreflexive(IsoDay(a)); }
    if a == b { StringLessIrreflexive(IsoDay(a)); }
  }
}
