/**
 * The dates of the company parking (api/src/parking/parking-rules.ts), on strings as the source
 * computes them, and the same rules on day numbers, which the allocator of this model uses.
 * `DatesAreDays` and `BookableDaysAreDays` say that nothing is lost between the two.
 */
module ParkingRules {
  import opened Calendar
  import opened Options

  const MAX_ACTIVE := 4
  /** Thursday, as a day of the ISO week: on it the following week opens. */
  const OPENS_ON := 4

  /** What the platform's calendar says of an instant: the date as text, and the number of its day in the ISO week. */
  datatype LocalDay = LocalDay(date: string, weekday: int)

  // ---------------------------------------------------------------- on strings, as in the source

  ghost function AddDays(date: string, n: int): string {
    IsoDay(ParseAndAdd(date, n))
  }

  /** `getUTCDay`: 0 = Sunday; day 0 is a Thursday. */
  function UtcWeekday(day: int): int {
    (day + 4) % 7
  }

  ghost function WeekdayOf(date: string): int {
    (UtcWeekday(ParseAndAdd(date, 0)) + 6) % 7 + 1
  }

  ghost function MondayOf(date: string): string {
    AddDays(date, 1 - WeekdayOf(date))
  }

  ghost function WorkingDays(monday: string): seq<string> {
    [AddDays(monday, 0), AddDays(monday, 1), AddDays(monday, 2), AddDays(monday, 3), AddDays(monday, 4)]
  }

  ghost function NextMonday(today: LocalDay): string {
    AddDays(MondayOf(today.date), 7)
  }

  /** `days.filter((d) => d >= today)`. */
  function NotBefore(days: seq<string>, today: string): seq<string> {
    if days == [] then []
    else (if StringLess(days[0], today) then [] else [days[0]]) + NotBefore(days[1..], today)
  }

  ghost function BookableDays(today: LocalDay): seq<string> {
    var days := NotBefore(WorkingDays(MondayOf(today.date)), today.date);
    if today.weekday >= OPENS_ON then days + WorkingDays(NextMonday(today)) else days
  }

  ghost function OpensOn(today: LocalDay): Option<string> {
    if today.weekday >= OPENS_ON then None else Some(AddDays(MondayOf(today.date), OPENS_ON - 1))
  }

  // ---------------------------------------------------------------- on day numbers

  /** ISO weekday of a day number. */
  function Weekday(t: int): int {
    (t + 3) % 7 + 1
  }

  function Monday(t: int): int {
    t - (t + 3) % 7
  }

  predicate IsMonday(t: int) {
    Monday(t) == t
  }

  function Working(monday: int): seq<int> {
    [monday, monday + 1, monday + 2, monday + 3, monday + 4]
  }

  function From(days: seq<int>, today: int): seq<int> {
    if days == [] then []
    else (if days[0] < today then [] else [days[0]]) + From(days[1..], today)
  }

  function Bookable(t: int): seq<int> {
    From(Working(Monday(t)), t) + (if Weekday(t) >= OPENS_ON then Working(Monday(t) + 7) else [])
  }

  ghost function Texts(days: seq<int>): (r: seq<string>)
    ensures |r| == |days| && forall i :: 0 <= i < |days| ==> r[i] == IsoDay(days[i])
  {
    if days == [] then [] else [IsoDay(days[0])] + Texts(days[1..])
  }

  // ---------------------------------------------------------------- the window

  lemma {:induction false} FromExactly(days: seq<int>, t: int)
    ensures forall d :: d in From(days, t) <==> d in days && t <= d
    ensures (forall i, j :: 0 <= i < j < |days| ==> days[i] < days[j]) ==>
              forall i, j :: 0 <= i < j < |From(days, t)| ==> From(days, t)[i] < From(days, t)[j]
  {
    if days != [] {
      FromExactly(days[1..], t);
      assert days == [days[0]] + days[1..];
      var r := From(days[1..], t);
      if forall i, j :: 0 <= i < j < |days| ==> days[i] < days[j] {
        forall k | 0 <= k < |r| ensures days[0] < r[k] {
          assert r[k] in r && r[k] in days[1..];
          var m :| 0 <= m < |days[1..]| && days[1..][m] == r[k];
          assert days[0] < days[m + 1];
        }
      }
    }
  }

  /** The window of a standard user: a working day is open from the Thursday before its week to the day itself. */
  lemma BookableExactly(t: int, d: int)
    ensures d in Bookable(t) <==> Weekday(d) <= 5 && Monday(d) - 4 <= t <= d
  {
    FromExactly(Working(Monday(t)), t);
    WorkingExactly(Monday(t), d);
    WorkingExactly(Monday(t) + 7, d);
    if d in Bookable(t) {
      assert d in Working(Monday(t)) || d in Working(Monday(t) + 7);
    }
  }

  lemma WorkingExactly(monday: int, d: int)
    ensures d in Working(monday) <==> monday <= d <= monday + 4
    ensures IsMonday(monday) ==> (d in Working(monday) <==> Monday(d) == monday && Weekday(d) <= 5)
  {
    if monday <= d <= monday + 4 {
      assert Working(monday)[d - monday] == d;
    }
  }

  /** The window is listed oldest first, without repeats, and never empty. */
  lemma BookableIncreases(t: int)
    ensures forall i, j :: 0 <= i < j < |Bookable(t)| ==> Bookable(t)[i] < Bookable(t)[j]
    ensures Bookable(t) != []
  {
    var this_, next := From(Working(Monday(t)), t), Working(Monday(t) + 7);
    FromExactly(Working(Monday(t)), t);
    forall i | 0 <= i < |this_| ensures this_[i] <= Monday(t) + 4 {
      assert this_[i] in this_;
      assert this_[i] in Working(Monday(t));
    }
    if Weekday(t) < OPENS_ON {
      WorkingExactly(Monday(t), t);
      assert t in this_;
    }
  }

  // ---------------------------------------------------------------- strings and days agree

  /** Years with four digits that `Date.UTC` reads as they are, for a day and its neighbourhood. */
  ghost predicate InRange(t: int) {
    forall k :: t - 7 <= k <= t + 14 ==> Proper(k)
  }

  /**
   * `addDays` counts days, composes, and `weekdayOf` shifts modulo 7, on real Gregorian dates.
   * The result is again the text of a day.
   */
  lemma DatesAreDays(t: int, n: int)
    requires Proper(t)
    ensures AddDays(IsoDay(t), n) == IsoDay(t + n)
    ensures WeekdayOf(IsoDay(t)) == Weekday(t)
    ensures MondayOf(IsoDay(t)) == IsoDay(Monday(t))
  {
    hide IsoDay, ParseAndAdd, Shaped, YearOf, StringLess;
    ParsesAs(t, n);
    ParsesAs(t, 0);
    ParsesAs(t, 1 - Weekday(t));
  }

  lemma ParsesAs(t: int, n: int)
    requires Proper(t)
    ensures ParseAndAdd(IsoDay(t), n) == t + n
  {
    hide IsoDay, Shaped, ToNumber, YearOf, DayFromYear, MonthStart;
    IsoDayReadsBack(t);
    var c := CivilOf(t);
    assert (c.m - 1) / 12 == 0 && (c.m - 1) % 12 == c.m - 1;
  }

  /**
   * Day after day: the date that follows, by the lengths of the months, is a day later, and its
   * weekday the following one.
   */
  lemma NextDateIsNextDay(c: Civil)
    requires IsDate(c) && 100 <= c.y <= 9999
    ensures AddDays(DateText(c), 1) == DateText(NextDate(c))
    ensures NextDate(c).y <= 9999 ==> WeekdayOf(DateText(NextDate(c))) == WeekdayOf(DateText(c)) % 7 + 1
    ensures NextDate(c).y <= 9999 ==> AddDays(DateText(NextDate(c)), -1) == DateText(c)
  {
    hide DayOf, IsoDay, ParseAndAdd, WeekdayOf, MondayOf, AddDays, YearOf, DateText, IsDate, DaysIn;
    var n := DayOf(c);
    NextDateFollows(c);
    TextOfDate(c);
    TextOfDate(NextDate(c));
    DatesAreDays(n, 1);
    if NextDate(c).y <= 9999 { DatesAreDays(n + 1, -1); }
  }

  /** The first day: 1 January 1970 was a Thursday. */
  lemma FirstDay()
    ensures IsoDay(0) == "1970-01-01" == DateText(Civil(1970, 1, 1))
    ensures WeekdayOf("1970-01-01") == 4
  {
    hide IsoDay, ParseAndAdd, WeekdayOf, MondayOf, AddDays, YearOf, DateText;
    assert IsDate(Civil(1970, 1, 1)) && DayOf(Civil(1970, 1, 1)) == 0;
    TextOfDate(Civil(1970, 1, 1));
    FirstText();
    DatesAreDays(0, 0);
  }

  lemma FirstText()
    ensures DateText(Civil(1970, 1, 1)) == "1970-01-01"
  {
    assert Pad(1, 2) == "01" by { assert Pad(0, 1) == Pad(0, 0) + ['0']; }
    assert Pad(19, 2) == "19" by { assert Pad(1, 1) == Pad(0, 0) + ['1']; }
    assert Pad(1970, 4) == "1970" by { assert Pad(197, 3) == Pad(19, 2) + ['7']; }
    hide Pad;
  }

  lemma AddDaysComposes(t: int, a: int, b: int)
    requires Proper(t) && Proper(t + a)
    ensures AddDays(AddDays(IsoDay(t), a), b) == AddDays(IsoDay(t), a + b)
    ensures WeekdayOf(AddDays(IsoDay(t), a)) == (WeekdayOf(IsoDay(t)) - 1 + a) % 7 + 1
  {
    hide IsoDay, ParseAndAdd, Shaped, YearOf, StringLess;
    DatesAreDays(t, a);
    DatesAreDays(t, a + b);
    DatesAreDays(t + a, b);
  }

  /**
   * Years 0 to 99 are four-digit years too, and there the source is wrong: `addDays` keeps a date
   * in place exactly when its year is not one of them.
   */
  lemma AddDaysKeepsTheDateIff(t: int)
    requires 0 <= YearOf(t) <= 9999
    ensures AddDays(IsoDay(t), 0) == IsoDay(t) <==> 100 <= YearOf(t)
  {
    hide IsoDay, ParseAndAdd, Shaped, YearOf, StringLess;
    if 100 <= YearOf(t) {
      DatesAreDays(t, 0);
    } else {
      OldYearsMove(t);
      StringOrderIsDayOrder(t, ParseAndAdd(IsoDay(t), 0));
    }
  }

  lemma OldYearsMove(t: int)
    requires 0 <= YearOf(t) <= 99
    ensures 1900 <= YearOf(ParseAndAdd(IsoDay(t), 0)) <= 2000
  {
    hide IsoDay, YearOf, Shaped;
    IsoDayReadsBack(t);
    var c := CivilOf(t);
    assert (c.m - 1) / 12 == 0 && (c.m - 1) % 12 == c.m - 1;
    var y := 1900 + c.y;
    assert ParseAndAdd(IsoDay(t), 0) == DayFromYear(y) + MonthStart(c.m - 1, Leap(y)) + c.d - 1;
    InYearOrNext(y, c.m - 1, c.d);
    DayFromYearMonotone(1900, y);
    DayFromYearMonotone(y + 2, 2001);
    YearWithin(ParseAndAdd(IsoDay(t), 0), 1900, 2000);
  }

  lemma InYearOrNext(y: int, m: nat, d: int)
    requires m < 12 && 1 <= d <= 31
    ensures DayFromYear(y) <= DayFromYear(y) + MonthStart(m, Leap(y)) + d - 1 < DayFromYear(y + 2)
  {
    YearStep(y);
    YearStep(y + 1);
  }

  lemma YearWithin(n: int, lo: int, hi: int)
    requires lo <= hi && DayFromYear(lo) <= n < DayFromYear(hi + 1)
    ensures lo <= YearOf(n) <= hi
  {
    YearContains(n);
    if YearOf(n) < lo { DayFromYearMonotone(YearOf(n) + 1, lo); }
    if hi < YearOf(n) { DayFromYearMonotone(hi + 1, YearOf(n)); }
  }

  lemma WorkingDaysAreDays(monday: int)
    requires Proper(monday)
    ensures WorkingDays(IsoDay(monday)) == Texts(Working(monday))
  {
    hide IsoDay, ParseAndAdd, Shaped, YearOf, StringLess;
    DatesAreDays(monday, 0);
    DatesAreDays(monday, 1);
    DatesAreDays(monday, 2);
    DatesAreDays(monday, 3);
    DatesAreDays(monday, 4);
  }

  lemma {:induction false} NotBeforeIsFrom(days: seq<int>, t: int)
    requires 0 <= YearOf(t) <= 9999
    requires forall d :: d in days ==> 0 <= YearOf(d) <= 9999
    ensures NotBefore(Texts(days), IsoDay(t)) == Texts(From(days, t))
  {
    if days != [] {
      NotBeforeIsFrom(days[1..], t);
      StringOrderIsDayOrder(days[0], t);
      assert Texts(days)[1..] == Texts(days[1..]);
    }
  }

  ghost function TodayAt(t: int): LocalDay {
    LocalDay(IsoDay(t), Weekday(t))
  }

  lemma BookableDaysAreDays(t: int)
    requires InRange(t)
    ensures NextMonday(TodayAt(t)) == IsoDay(Monday(t) + 7)
    ensures BookableDays(TodayAt(t)) == Texts(Bookable(t))
    ensures OpensOn(TodayAt(t)) == if Weekday(t) >= OPENS_ON then None else Some(IsoDay(Monday(t) + OPENS_ON - 1))
  {
    hide IsoDay, ParseAndAdd, Shaped, YearOf, StringLess;
    var m := Monday(t);
    assert Proper(t) && Proper(m) && Proper(m + 7);
    DatesAreDays(t, 0);
    DatesAreDays(m, 7);
    DatesAreDays(m, OPENS_ON - 1);
    DatesAreDays(m + 7, 0);
    WorkingDaysAreDays(m);
    WorkingDaysAreDays(m + 7);
    ThisWeekFrom(t);
  }

  lemma ThisWeekFrom(t: int)
    requires InRange(t)
    ensures NotBefore(Texts(Working(Monday(t))), IsoDay(t)) == Texts(From(Working(Monday(t)), t))
  {
    hide IsoDay, ParseAndAdd, Shaped, YearOf, StringLess;
    var m := Monday(t);
    assert Proper(t);
    forall d | d in Working(m) ensures 0 <= YearOf(d) <= 9999 {
      WorkingExactly(m, d);
      assert Proper(d);
    }
    NotBeforeIsFrom(Working(m), t);
  }

  /**
   * The window on the strings themselves, for any date `d` with a four-digit year: `d` is listed
   * exactly when it is a working day and today is between the Thursday before its week and `d`;
   * the list increases and is not empty; `opensOn` is null exactly when next week is listed.
   */
  lemma BookableDaysExactly(t: int, d: int)
    requires InRange(t) && 0 <= YearOf(d) <= 9999
    ensures var days := BookableDays(TodayAt(t));
            && (IsoDay(d) in days <==> Weekday(d) <= 5 && Monday(d) - 4 <= t <= d)
            && (forall i, j :: 0 <= i < j < |days| ==> StringLess(days[i], days[j]))
            && days != []
            && (OpensOn(TodayAt(t)).None? <==> forall w :: w in WorkingDays(NextMonday(TodayAt(t))) ==> w in days)
  {
    hide IsoDay, ParseAndAdd, Shaped, YearOf, StringLess;
    BookableDaysAreDays(t);
    BookableExactly(t, d);
    BookableIncreases(t);
    var b, days := Bookable(t), BookableDays(TodayAt(t));
    forall i | 0 <= i < |b| ensures 0 <= YearOf(b[i]) <= 9999 && t <= b[i] <= t + 14 {
      assert b[i] in b;
      BookableExactly(t, b[i]);
      assert Proper(b[i]);
    }
    forall i | 0 <= i < |b| && days[i] == IsoDay(d) ensures b[i] == d {
      StringOrderIsDayOrder(b[i], d);
    }
    if d in b {
      var i :| 0 <= i < |b| && b[i] == d;
      assert days[i] == IsoDay(d);
    }
    forall i, j | 0 <= i < j < |days| ensures StringLess(days[i], days[j]) {
      StringOrderIsDayOrder(b[i], b[j]);
    }
    NextWeekListed(t);
  }

  lemma NextWeekListed(t: int)
    requires InRange(t)
    ensures Weekday(t) >= OPENS_ON <==> forall w :: w in WorkingDays(NextMonday(TodayAt(t))) ==>
        w in BookableDays(TodayAt(t))
  {
    hide IsoDay, ParseAndAdd, Shaped, YearOf, StringLess;
    var m := Monday(t) + 7;
    var b := Bookable(t);
    assert Proper(m);
    BookableDaysAreDays(t);
    WorkingDaysAreDays(m);
    if Weekday(t) < OPENS_ON {
      assert WorkingDays(NextMonday(TodayAt(t)))[0] == IsoDay(m);
      NextMondayNotListed(t);
    }
  }

  lemma NextMondayNotListed(t: int)
    requires InRange(t) && Weekday(t) < OPENS_ON
    ensures IsoDay(Monday(t) + 7) !in Texts(Bookable(t))
  {
    hide IsoDay, ParseAndAdd, Shaped, YearOf, StringLess;
    var m, b := Monday(t) + 7, Bookable(t);
    assert Proper(m);
    forall i | 0 <= i < |b| ensures IsoDay(b[i]) != IsoDay(m) {
      assert b[i] in b;
      BookableExactly(t, b[i]);
      assert Proper(b[i]);
      StringOrderIsDayOrder(b[i], m);
    }
  }
}
