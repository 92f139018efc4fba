/**
 * Local midnight by correction, under any time zone: `off(t)` is the zone's offset at the instant
 * `t`, both in milliseconds. Nothing about the zone is assumed but what each lemma says.
 */
module LocalTime {
  const SECOND := 1_000
  const MINUTE := 60_000
  const HOUR := 3_600_000
  const DAY := 86_400_000

  // ---------------------------------------------------------------- as the source computes

  function Floor(t: int, unit: int): (f: int)
    requires unit > 0
    ensures f <= t < f + unit
  {
    t - t % unit
  }

  /** What a clock on the wall shows, as milliseconds of a day count without zone. */
  function Wall(off: int -> int, t: int): int {
    t + off(t)
  }

  /** `offsetMs`: the parts shown, which stop at the second, against the instant's own second. */
  function OffsetMs(off: int -> int, t: int): int {
    Floor(Wall(off, t), SECOND) - Floor(t, SECOND)
  }

  /** The second pass handles a change of offset. */
  function Midnight(off: int -> int, naive: int): int {
    var guess := naive - OffsetMs(off, naive);
    naive - OffsetMs(off, guess)
  }

  function StartOfLocalDay(off: int -> int, t: int): int {
    Midnight(off, Floor(Wall(off, t), DAY))
  }

  /** Date number `n` counts days from 1 January 1970: midnight of the day that noon UTC falls on locally. */
  function LocalDateToUtc(off: int -> int, n: int): int {
    StartOfLocalDay(off, n * DAY + 12 * HOUR)
  }

  function DayWindow(off: int -> int, t: int): (int, int) {
    var from := StartOfLocalDay(off, t);
    (from, StartOfLocalDay(off, from + 36 * HOUR))
  }

  /**
   * The dashboard's own version: what is shown, to the minute, is moved onto midnight, twice. It is
   * the other version's instant exactly if the offset there is whole minutes, unless the offset
   * changes within the minute between the two guesses.
   */
  method DashboardMidnight(off: int -> int, n: int) returns (t: int)
    requires Zone(off)
    ensures t == n * DAY - Floor(off(DashboardGuess(off, n * DAY)), MINUTE)
    ensures off(DashboardGuess(off, n * DAY)) == off(Guess(off, n * DAY)) ==>
              (t == Midnight(off, n * DAY) <==> off(Guess(off, n * DAY)) % MINUTE == 0)
    ensures off(n * DAY) % MINUTE == 0 && off(n * DAY - off(n * DAY)) % MINUTE == 0 ==> t == Midnight(off, n * DAY)
  {
    hide Floor, Midnight, OffsetMs, Zone;
    t := n * DAY;
    for i := 0 to 2
      invariant t == if i == 0 then n * DAY else if i == 1 then MovedOnce(off, n * DAY, n * DAY)
          else MovedTwice(off, n * DAY)
    {
      var seen := Floor(Wall(off, t), MINUTE);
      t := t - (seen - n * DAY);
    }
    MovedTwiceIs(off, n);
    DashboardAgreesIff(off, n);
  }

  /** The first guesses of the two versions: they differ by the seconds of the offset. */
  function Guess(off: int -> int, naive: int): int {
    naive - off(naive)
  }

  function DashboardGuess(off: int -> int, naive: int): int {
    naive - Floor(off(naive), MINUTE)
  }

  function MovedOnce(off: int -> int, naive: int, t: int): int {
    t - (Floor(Wall(off, t), MINUTE) - naive)
  }

  function MovedTwice(off: int -> int, naive: int): int {
    MovedOnce(off, naive, MovedOnce(off, naive, naive))
  }

  // ---------------------------------------------------------------- zones

  /** Offsets in whole seconds, less than 18 hours either way. */
  ghost predicate Zone(off: int -> int) {
    forall t :: off(t) % SECOND == 0 && -18 * HOUR < off(t) < 18 * HOUR
  }

  /** Around midnight of a date the offset is `a` until the instant `c`, and `b` from then on. */
  ghost predicate ChangesAt(off: int -> int, naive: int, c: int, a: int, b: int) {
    forall t :: naive - 36 * HOUR <= t <= naive + 36 * HOUR ==> off(t) == if t < c then a else b
  }

  /** The offset changes at most once in the three days around a midnight. */
  ghost predicate OneChange(off: int -> int, naive: int) {
    exists c, a, b :: ChangesAt(off, naive, c, a, b)
  }

  ghost predicate IsMidnight(off: int -> int, naive: int, t: int) {
    Wall(off, t) == naive
  }

  ghost predicate MidnightExists(off: int -> int, naive: int) {
    exists t :: IsMidnight(off, naive, t)
  }

  ghost predicate MidnightUnique(off: int -> int, naive: int) {
    forall t, u :: IsMidnight(off, naive, t) && IsMidnight(off, naive, u) ==> t == u
  }

  lemma OffsetIs(off: int -> int, t: int)
    requires off(t) % SECOND == 0
    ensures OffsetMs(off, t) == off(t)
  {
    assert (t + off(t)) % SECOND == t % SECOND;
  }

  // ---------------------------------------------------------------- one midnight

  lemma TwoPasses(off: int -> int, naive: int, c: int, a: int, b: int, m: int)
    requires Zone(off) && ChangesAt(off, naive, c, a, b) && IsMidnight(off, naive, m)
    ensures IsMidnight(off, naive, Midnight(off, naive))
  {
    OffsetIs(off, naive);
    OffsetIs(off, naive - off(naive));
    assert naive - 36 * HOUR <= m <= naive + 36 * HOUR;
  }

  /** With one change at most, the result's local clock is 00:00 of the date exactly if the date has a midnight. */
  lemma MidnightFoundIff(off: int -> int, naive: int)
    requires Zone(off) && OneChange(off, naive)
    ensures Wall(off, Midnight(off, naive)) == naive <==> MidnightExists(off, naive)
  {
    var c, a, b :| ChangesAt(off, naive, c, a, b);
    if MidnightExists(off, naive) {
      var m :| IsMidnight(off, naive, m);
      TwoPasses(off, naive, c, a, b, m);
    } else {
      assert !IsMidnight(off, naive, Midnight(off, naive));
    }
  }

  /** And then it is the start of the local day that contains the instant asked about. */
  lemma StartOfLocalDayIsMidnight(off: int -> int, t: int)
    requires Zone(off) && OneChange(off, Floor(Wall(off, t), DAY)) && MidnightExists(off, Floor(Wall(off, t), DAY))
    ensures Wall(off, StartOfLocalDay(off, t)) % DAY == 0
    ensures Wall(off, StartOfLocalDay(off, t)) / DAY == Wall(off, t) / DAY
  {
    MidnightFoundIff(off, Floor(Wall(off, t), DAY));
  }

  /**
   * Where a date has two midnights (the clock goes back over it), the result is the later one exactly
   * if the change is not after midnight UTC.
   */
  lemma WhichOfTwo(off: int -> int, naive: int, c: int, a: int, b: int)
    requires Zone(off) && ChangesAt(off, naive, c, a, b) && naive - 36 * HOUR < c <= naive + 36 * HOUR
    requires naive - a < c <= naive - b
    ensures IsMidnight(off, naive, naive - a) && IsMidnight(off, naive, naive - b)
    ensures Midnight(off, naive) == if c <= naive then naive - b else naive - a
  {
    OffsetIs(off, naive);
    OffsetIs(off, naive - off(naive));
    assert off(c - 1) == a && off(c) == b;
  }

  lemma MovedTwiceIs(off: int -> int, n: int)
    ensures MovedOnce(off, n * DAY, n * DAY) == DashboardGuess(off, n * DAY)
    ensures MovedTwice(off, n * DAY) == n * DAY - Floor(off(DashboardGuess(off, n * DAY)), MINUTE)
  {
    var naive := n * DAY;
    var guess := DashboardGuess(off, naive);
    DayIsWholeMinutes(n);
    FloorShift(naive, off(naive));
    LessWholeMinutes(naive, off(naive));
    FloorShift(guess, off(guess));
    hide Floor;
  }

  lemma LessWholeMinutes(t: int, o: int)
    requires t % MINUTE == 0
    ensures (t - Floor(o, MINUTE)) % MINUTE == 0
  {
    assert t - Floor(o, MINUTE) == (t / MINUTE - o / MINUTE) * MINUTE;
  }

  /** Where the two versions agree, for any offsets in whole seconds, changes or not. */
  lemma DashboardAgreesIff(off: int -> int, n: int)
    requires Zone(off)
    ensures MovedTwice(off, n * DAY) == Midnight(off, n * DAY)
       <==> Floor(off(DashboardGuess(off, n * DAY)), MINUTE) == off(Guess(off, n * DAY))
    ensures off(DashboardGuess(off, n * DAY)) == off(Guess(off, n * DAY)) ==>
              (MovedTwice(off, n * DAY) == Midnight(off, n * DAY) <==> off(Guess(off, n * DAY)) % MINUTE == 0)
    ensures off(n * DAY) % MINUTE == 0 ==> DashboardGuess(off, n * DAY) == Guess(off, n * DAY)
  {
    var naive := n * DAY;
    MovedTwiceIs(off, n);
    OffsetIs(off, naive);
    OffsetIs(off, naive - off(naive));
    assert Midnight(off, naive) == naive - off(Guess(off, naive));
    hide OffsetMs, MovedTwice, Midnight;
  }

  lemma DayIsWholeMinutes(n: int)
    ensures (n * DAY) % MINUTE == 0
  {
    assert n * DAY == (n * 1440) * MINUTE;
  }

  lemma FloorShift(t: int, o: int)
    requires t % MINUTE == 0
    ensures Floor(t + o, MINUTE) == t + Floor(o, MINUTE)
    ensures Floor(o % MINUTE, MINUTE) == 0
  {
    var p := t / MINUTE;
    assert t + o == p * MINUTE + o;
    assert (t + o) % MINUTE == o % MINUTE;
  }

  // ---------------------------------------------------------------- days that tile

  /** Every local midnight exists once, with at most one change around it, and no change reaches 12 hours. */
  ghost predicate Regular(off: int -> int) {
    && Zone(off)
    && (forall n: int :: OneChange(off, n * DAY) && MidnightExists(off, n * DAY) && MidnightUnique(off, n * DAY))
    && (forall t, u :: t - 36 * HOUR <= u <= t + 36 * HOUR ==> -12 * HOUR < off(t) - off(u) < 12 * HOUR)
  }

  /**
   * A zone with one change ever (or none, if `a == b`) is regular as long as the change skips and
   * repeats no midnight.
   */
  lemma OneChangeIsRegular(off: int -> int, c: int, a: int, b: int)
    requires Zone(off) && (forall t :: off(t) == if t < c then a else b) && -12 * HOUR < a - b < 12 * HOUR
    requires forall n: int :: n * DAY - a < c <==> !(n * DAY - b >= c)
    ensures Regular(off)
  {
    forall n: int ensures OneChange(off, n * DAY) && MidnightExists(off, n * DAY) && MidnightUnique(off, n * DAY) {
      assert ChangesAt(off, n * DAY, c, a, b);
      var m := if n * DAY - a < c then n * DAY - a else n * DAY - b;
      assert IsMidnight(off, n * DAY, m);
    }
  }

  ghost function DayStart(off: int -> int, n: int): (m: int)
    requires Regular(off)
    ensures IsMidnight(off, n * DAY, m)
  {
    assert MidnightExists(off, n * DAY);
    var m :| IsMidnight(off, n * DAY, m);
    m
  }

  lemma StartIsDayStart(off: int -> int, n: int)
    requires Regular(off)
    ensures Midnight(off, n * DAY) == DayStart(off, n)
  {
    assert OneChange(off, n * DAY) && MidnightExists(off, n * DAY) && MidnightUnique(off, n * DAY);
    MidnightFoundIff(off, n * DAY);
    assert IsMidnight(off, n * DAY, Midnight(off, n * DAY));
  }

  /** Close to a unique midnight, earlier instants show earlier times and later ones later. */
  lemma WallInOrder(off: int -> int, naive: int, c: int, a: int, b: int, m: int, t: int)
    requires Zone(off) && ChangesAt(off, naive, c, a, b) && MidnightUnique(off, naive) && IsMidnight(off, naive, m)
    requires m - 12 * HOUR <= t <= m + 12 * HOUR
    ensures t < m ==> Wall(off, t) < naive
    ensures t > m ==> Wall(off, t) > naive
  {
    assert naive - 36 * HOUR <= m <= naive + 36 * HOUR && naive - 36 * HOUR <= t <= naive + 36 * HOUR;
    if t < m && Wall(off, t) >= naive {
      assert IsMidnight(off, naive, naive - off(t));
    }
    if t > m && Wall(off, t) <= naive {
      assert IsMidnight(off, naive, naive - off(t));
    }
  }

  lemma BeforeAndAfter(off: int -> int, n: int, t: int)
    requires Regular(off)
    ensures t < DayStart(off, n) ==> Wall(off, t) < n * DAY
    ensures t > DayStart(off, n) ==> Wall(off, t) > n * DAY
  {
    var m := DayStart(off, n);
    assert OneChange(off, n * DAY) && MidnightUnique(off, n * DAY);
    var c, a, b :| ChangesAt(off, n * DAY, c, a, b);
    if m - 12 * HOUR <= t <= m + 12 * HOUR {
      WallInOrder(off, n * DAY, c, a, b, m, t);
    } else if m - 36 * HOUR <= t <= m + 36 * HOUR {
      assert -12 * HOUR < off(m) - off(t) < 12 * HOUR;
    }
  }

  /** An instant's local date is `n` exactly from the midnight of `n` until the next. */
  lemma DayIsBetweenMidnights(off: int -> int, n: int, t: int)
    requires Regular(off)
    ensures Wall(off, t) / DAY == n <==> DayStart(off, n) <= t < DayStart(off, n + 1)
  {
    BeforeAndAfter(off, n, t);
    BeforeAndAfter(off, n + 1, t);
    assert Wall(off, t) / DAY == n <==> n * DAY <= Wall(off, t) < (n + 1) * DAY by { Quotient(Wall(off, t), n); }
  }

  lemma Quotient(x: int, n: int)
    ensures x / DAY == n <==> n * DAY <= x < (n + 1) * DAY
  {
  }

  lemma FloorIs(x: int, n: int)
    requires n * DAY <= x < (n + 1) * DAY
    ensures Floor(x, DAY) == n * DAY && x / DAY == n
  {
  }

  /** An instant of the day leads back to the day's midnight. */
  lemma StartOfDay(off: int -> int, n: int, t: int)
    requires Regular(off) && n * DAY <= Wall(off, t) < (n + 1) * DAY
    ensures StartOfLocalDay(off, t) == DayStart(off, n) && Wall(off, t) / DAY == n
  {
    hide Regular, Midnight;
    FloorIs(Wall(off, t), n);
    StartIsDayStart(off, n);
  }

  /** A day and a half after midnight it is the next day, whatever changed in between. */
  lemma NextDay(off: int -> int, n: int)
    requires Regular(off)
    ensures (n + 1) * DAY <= Wall(off, DayStart(off, n) + 36 * HOUR) < (n + 2) * DAY
  {
    var from := DayStart(off, n);
    var later := from + 36 * HOUR;
    assert IsMidnight(off, n * DAY, from);
    assert -12 * HOUR < off(later) - off(from) < 12 * HOUR;
    hide Regular;
  }

  /** The window of a day is from its midnight until the next day's. */
  lemma WindowIsDay(off: int -> int, n: int, t: int)
    requires Regular(off) && n * DAY <= Wall(off, t) < (n + 1) * DAY
    ensures DayWindow(off, t) == (DayStart(off, n), DayStart(off, n + 1))
  {
    hide Regular, StartOfLocalDay, Wall, DayStart;
    StartOfDay(off, n, t);
    NextDay(off, n);
    StartOfDay(off, n + 1, DayStart(off, n) + 36 * HOUR);
  }

  /**
   * The windows tile time: each instant is in its own, and two instants share a window or their
   * windows do not meet.
   */
  lemma WindowsTile(off: int -> int, t: int, u: int)
    requires Regular(off)
    ensures DayWindow(off, t).0 <= t < DayWindow(off, t).1
    ensures DayWindow(off, DayWindow(off, t).1).0 == DayWindow(off, t).1
    ensures DayWindow(off, t).0 <= u < DayWindow(off, t).1 <==> DayWindow(off, u) == DayWindow(off, t)
  {
    hide Regular, DayWindow, DayStart;
    var n, k := Wall(off, t) / DAY, Wall(off, u) / DAY;
    Quotient(Wall(off, t), n);
    Quotient(Wall(off, u), k);
    WindowIsDay(off, n, t);
    WindowIsDay(off, k, u);
    DayIsBetweenMidnights(off, n, t);
    DayIsBetweenMidnights(off, n, u);
    DayIsBetweenMidnights(off, k, u);
    var next := DayStart(off, n + 1);
    assert IsMidnight(off, (n + 1) * DAY, next);
    WindowIsDay(off, n + 1, next);
  }

  // ---------------------------------------------------------------- a date's midnight

  /**
   * `localDateToUtc` gives the midnight of its own date exactly if noon UTC is less than 12 hours from
   * local noon ahead, and at most 12 behind.
   */
  lemma LocalDateToUtcIff(off: int -> int, n: int)
    requires Regular(off)
    ensures LocalDateToUtc(off, n) == DayStart(off, n) <==> -12 * HOUR <= off(n * DAY + 12 * HOUR) < 12 * HOUR
  {
    hide StartOfLocalDay, Regular, Midnight, DayStart;
    var noon := n * DAY + 12 * HOUR;
    var d := Wall(off, noon) / DAY;
    Quotient(Wall(off, noon), d);
    Quotient(Wall(off, noon), n);
    StartOfDay(off, d, noon);
    DaysStartApart(off, d, n);
  }

  lemma DaysStartApart(off: int -> int, d: int, n: int)
    requires Regular(off)
    ensures DayStart(off, d) == DayStart(off, n) <==> d == n
  {
    hide Regular;
    assert IsMidnight(off, d * DAY, DayStart(off, d)) && IsMidnight(off, n * DAY, DayStart(off, n));
  }

  /** So in a zone 12 hours or more ahead of UTC it gives the midnight after. */
  lemma LocalDateFarEast(off: int -> int, n: int)
    requires Regular(off) && 12 * HOUR <= off(n * DAY + 12 * HOUR)
    ensures LocalDateToUtc(off, n) == DayStart(off, n + 1)
  {
    var noon := n * DAY + 12 * HOUR;
    StartOfDay(off, n + 1, noon);
  }
}
