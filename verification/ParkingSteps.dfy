/**
 * Step by step: the lemmas about values that the loops of the allocator (ParkingService) rely on.
 */
module ParkingSteps {
  import opened Options
  import opened ParkingRules
  import opened ParkingTables
  import opened ParkingRuns
  import opened Sets

  datatype BookedDay = BookedDay(id: nat, date: int, spot: SpotId)
  datatype ManyResult = RefusedAll(code: Refusal) | Split(booked: seq<BookedDay>, failed: seq<(int, Refusal)>)
  datatype DayInfo = DayInfo(date: int, bookable: bool, free: int, booking: Option<Booking>)
  datatype SpotInfo = SpotInfo(id: SpotId, mine: bool, free: bool)
  datatype CancelResult = Cancelled(row: Booking) | NotFound | DayPast

  // ---------------------------------------------------------------- steps of the loops, on values

  ghost function Pairs(who: set<EmployeeId>, days: set<int>): set<(EmployeeId, int)> {
    set e <- who, x <- days :: (e, x)
  }

  lemma FreeOneMore(d0: Db, d: Db, want: set<(EmployeeId, int)>, m: EmployeeId, date: int)
    requires OneManagerPerSpot(d0) && Adds(d0, d, Claims(d0, want), AUTO) && Eligible(d0, m)
    ensures Free(d, SlotFor(d0, m, date)) <==> Free(d0, SlotFor(d0, m, date)) && (m, date) !in want
  {
    var slot := SlotFor(d0, m, date);
    AddedAreWanted(d0, d, want);
    if Free(d0, slot) && (m, date) in want {
      assert slot in Claims(d0, want);
      var b :| b in d.bookings - d0.bookings && b.slot == slot;
      assert PersonTaken(d.bookings, m, date);
    }
  }

  /** One more pair: its insert succeeds exactly if the pair is new and was free at the start. */
  lemma ClaimOneMore(d0: Db, d: Db, want: set<(EmployeeId, int)>, m: EmployeeId, date: int)
    requires OneManagerPerSpot(d0) && Adds(d0, d, Claims(d0, want), AUTO) && Eligible(d0, m)
    ensures Free(d, SlotFor(d0, m, date)) ==>
        Claims(d0, want + {(m, date)}) == Claims(d0, want) + {SlotFor(d0, m, date)}
        && SlotFor(d0, m, date) !in Claims(d0, want)
    ensures !Free(d, SlotFor(d0, m, date)) ==> Claims(d0, want + {(m, date)}) == Claims(d0, want)
  {
    FreeOneMore(d0, d, want, m, date);
    hide Adds, OneManagerPerSpot, Free;
  }

  lemma DistinctTogether(x: set<Booking>, y: set<Booking>, mid: nat)
    requires Distinct(x) && Distinct(y) && SlotsOf(x) !! SlotsOf(y)
    requires (forall r <- x :: r.id < mid) && (forall r <- y :: mid <= r.id)
    ensures Distinct(x + y) && x !! y
  {
    forall b, c | b in x && c in y ensures b.slot != c.slot {
      assert b.slot in SlotsOf(x) && c.slot in SlotsOf(y);
    }
  }

  lemma RowsTogether(x: set<Booking>, y: set<Booking>, lo: nat, mid: nat, hi: nat, a: set<Slot>, b: set<Slot>)
    requires RowsFor(x, lo, mid, a, AUTO) && RowsFor(y, mid, hi, b, AUTO) && a !! b && lo <= mid <= hi
    ensures RowsFor(x + y, lo, hi, a + b, AUTO)
  {
    DistinctTogether(x, y, mid);
    assert SlotsOf(x + y) == SlotsOf(x) + SlotsOf(y);
    hide Distinct, SlotsOf;
    DisjointSize(x, y);
    DisjointSize(a, b);
  }

  lemma AddTwice(d0: Db, d: Db, d': Db, a: set<Slot>, b: set<Slot>)
    requires Adds(d0, d, a, AUTO) && Adds(d, d', b, AUTO) && a !! b
    ensures Adds(d0, d', a + b, AUTO)
  {
    hide RowsFor;
    SetsApart(d0.bookings, d.bookings, d'.bookings);
    DisjointSize(a, b);
    RowsTogether(d.bookings - d0.bookings, d'.bookings - d.bookings, d0.nextId, d.nextId, d'.nextId, a, b);
  }

  lemma AddOne(d0: Db, d: Db, d': Db, slots: set<Slot>, slot: Slot)
    requires Adds(d0, d, slots, AUTO) && slot !in slots && (forall b <- d.bookings :: b.id < d.nextId)
    requires d'.bookings == d.bookings + {Booking(d.nextId, slot, AUTO)} && d'.nextId == d.nextId + 1
    ensures Adds(d0, d', slots + {slot}, AUTO)
  {
    var row := Booking(d.nextId, slot, AUTO);
    assert Adds(d, d', {slot}, AUTO) by {
      assert d'.bookings - d.bookings == {row};
      assert row in {row} && row.slot == slot;
    }
    hide Adds;
    AddTwice(d0, d, d', slots, {slot});
  }

  lemma AddNothing(d: Db)
    ensures Adds(d, d, {}, AUTO)
  {
    assert d.bookings - d.bookings == {};
  }

  /** The managers of another site do not disturb this one's: their rows are on other spots, for other people. */
  lemma OtherSitesFree(d0: Db, d: Db, sites: set<SiteId>, s: SiteId)
    requires OneManagerPerSpot(d0) && s in d0.sites && s !in sites && sites <= d0.sites.Keys
    requires d == d0.(bookings := d.bookings, weeks := d.weeks, nextId := d.nextId)
    requires Adds(d0, d, Claims(d0, AllWeekly(d0, sites)), AUTO)
    ensures forall days :: Claims(d, Wanted(d, s, days, None)) == Claims(d0, Wanted(d0, s, days, None))
    ensures forall days :: Claims(d0, AllWeekly(d0, sites)) !! Claims(d0, Wanted(d0, s, days, None))
  {
    hide Target;
    AddedAreWanted(d0, d, AllWeekly(d0, sites));
    forall days
      ensures Claims(d, Wanted(d, s, days, None)) == Claims(d0, Wanted(d0, s, days, None))
      ensures Claims(d0, AllWeekly(d0, sites)) !! Claims(d0, Wanted(d0, s, days, None))
    {
      assert Wanted(d, s, days, None) == Wanted(d0, s, days, None);
      forall w | w in Wanted(d0, s, days, None)
          ensures Free(d, SlotFor(d0, w.0, w.1)) == Free(d0, SlotFor(d0, w.0, w.1)) {
        SameSiteFree(d0, d, sites, s, w.0, w.1);
      }
      forall x | x in Claims(d0, AllWeekly(d0, sites)) ensures x !in Claims(d0, Wanted(d0, s, days, None)) {
        ClaimsAtSites(d0, sites, x);
      }
    }
  }

  lemma ClaimsAtSites(d: Db, sites: set<SiteId>, x: Slot)
    requires sites <= d.sites.Keys && x in Claims(d, AllWeekly(d, sites))
    ensures x.site in sites && Eligible(d, x.employee) && x == SlotFor(d, x.employee, x.date) && Free(d, x)
  {
    hide Target, Free;
    var w :| w in AllWeekly(d, sites) && Eligible(d, w.0) && Free(d, SlotFor(d, w.0, w.1)) && SlotFor(d, w.0, w.1) == x;
    var s :| s in sites && w in WeeklyWanted(d, s);
  }

  lemma SameSiteFree(d0: Db, d: Db, sites: set<SiteId>, s: SiteId, e: EmployeeId, date: int)
    requires OneManagerPerSpot(d0) && s !in sites && sites <= d0.sites.Keys
    requires Adds(d0, d, Claims(d0, AllWeekly(d0, sites)), AUTO)
    requires Eligible(d0, e) && SlotFor(d0, e, date).site == s
    ensures Free(d, SlotFor(d0, e, date)) == Free(d0, SlotFor(d0, e, date))
  {
    var slot := SlotFor(d0, e, date);
    forall b | b in d.bookings && b !in d0.bookings ensures b.slot.spot != slot.spot && b.slot.employee != e {
      ClaimsAtSites(d0, sites, b.slot);
    }
  }

  lemma AllWeeklyOneMore(d: Db, sites: set<SiteId>, s: SiteId)
    requires sites + {s} <= d.sites.Keys
    ensures AllWeekly(d, sites + {s}) == AllWeekly(d, sites) + WeeklyWanted(d, s)
    ensures Claims(d, AllWeekly(d, sites + {s})) == Claims(d, AllWeekly(d, sites)) + Claims(d, WeeklyWanted(d, s))
  {
    hide Target, Wanted, Free, Eligible;
  }

  lemma OneMoreWeek(d: Db, weeks: Weeks, sites: set<SiteId>, s: SiteId, n: nat)
    requires sites + {s} <= d.sites.Keys && WeeksRecorded(d, weeks, sites) && Target(d, s)
    requires n == |Claims(d, WeeklyWanted(d, s))|
    ensures WeeksRecorded(d, weeks[(s, NextWeek(d, s)) := n], sites + {s})
  {
    hide Claims, WeeklyWanted, ActiveSpots;
  }

  /** The weekly job, one site further. */
  lemma WeeklySiteDone(d0: Db, d: Db, d': Db, sites: set<SiteId>, s: SiteId, total: nat, n: nat)
    requires Inv(d0) && sites <= d0.sites.Keys && s in d0.sites && s !in sites && WeeklyOver(d0, d, sites, total)
    requires Target(d0, s)
    requires d' == d.(bookings := d'.bookings, weeks := d.weeks[(s, NextWeek(d0, s)) := n], nextId := d'.nextId)
    requires Adds(d, d', Claims(d, Wanted(d, s, DaySet(Working(NextWeek(d0, s))), None)), AUTO)
    requires n == |Claims(d, Wanted(d, s, DaySet(Working(NextWeek(d0, s))), None))|
    ensures WeeklyOver(d0, d', sites + {s}, total + n)
  {
    hide Target, Claims, AllWeekly, Wanted, Adds, OneManagerPerSpot, WeeksRecorded, UniqueKeys, Placed;
    OtherSitesFree(d0, d, sites, s);
    var a, b := Claims(d0, AllWeekly(d0, sites)), Claims(d0, WeeklyWanted(d0, s));
    assert b == Claims(d, Wanted(d, s, DaySet(Working(NextWeek(d0, s))), None));
    AddTwice(d0, d, d', a, b);
    AllWeeklyOneMore(d0, sites, s);
    DisjointSize(a, b);
    OneMoreWeek(d0, d.weeks, sites, s, n);
  }

  lemma NoClaims(d: Db)
    ensures Claims(d, {}) == {}
  {
  }

  lemma WeeklySiteSkipped(d0: Db, d: Db, sites: set<SiteId>, s: SiteId, total: nat)
    requires sites + {s} <= d0.sites.Keys && WeeklyOver(d0, d, sites, total) && !Target(d0, s)
    ensures WeeklyOver(d0, d, sites + {s}, total)
  {
    hide Target, AllWeekly, Wanted, Adds, Claims;
    AllWeeklyOneMore(d0, sites, s);
    NoClaims(d0);
  }

  /** One conditional insert, as the loops do it. */
  lemma AfterInsert(d0: Db, d: Db, d': Db, want: set<(EmployeeId, int)>, m: EmployeeId, date: int)
    requires OneManagerPerSpot(d0) && Adds(d0, d, Claims(d0, want), AUTO) && Eligible(d0, m)
    requires forall b <- d.bookings :: b.id < d.nextId
    requires Free(d, SlotFor(d0, m, date)) ==>
        d'.bookings == d.bookings + {Booking(d.nextId, SlotFor(d0, m, date), AUTO)} && d'.nextId == d.nextId + 1
    requires !Free(d, SlotFor(d0, m, date)) ==> d'.bookings == d.bookings && d'.nextId == d.nextId
    ensures Adds(d0, d', Claims(d0, want + {(m, date)}), AUTO)
    ensures |Claims(d0, want + {(m, date)})| == |Claims(d0, want)| + (if Free(d, SlotFor(d0, m, date)) then 1 else 0)
  {
    ClaimOneMore(d0, d, want, m, date);
    hide Claims, Free, OneManagerPerSpot;
    if Free(d, SlotFor(d0, m, date)) {
      hide Adds;
      AddOne(d0, d, d', Claims(d0, want), SlotFor(d0, m, date));
    }
  }

  // ---------------------------------------------------------------- the service

  /** The query of `bookManagers`: active managers whose fixed spot is one of the given ones. */
  function ManagersAmong(d: Db, among: set<SpotId>, only: Option<EmployeeId>): set<EmployeeId> {
    set m <- d.employees | d.employees[m].active && d.employees[m].role == MANAGER
      && d.employees[m].spot.Some? && d.employees[m].spot.value in among && (only == None || only == Some(m))
  }

  lemma FoundManager(d: Db, s: SiteId, among: set<SpotId>, only: Option<EmployeeId>, m: EmployeeId)
    requires m in ManagersAmong(d, among, only) && (forall p <- among :: ActiveAt(d, p, s))
    ensures m in d.employees && d.employees[m].spot.Some?
    ensures if d.employees[m].appOff then !Eligible(d, m) else Eligible(d, m) && SlotFor(d, m, 0).site == s
  {
  }

  /** Only what is given changes: the code with its place in the order, and the switch. */
  function Edited(s: Spot, code: Option<(string, int)>, active: Option<bool>): (r: Spot)
    ensures r.site == s.site
    ensures code.Some? ==> r.code == code.value.0 && r.rank == code.value.1
    ensures code.None? ==> r.code == s.code && r.rank == s.rank
    ensures r.active <==> active == Some(true) || (active == None && s.active)
  {
    var spot := if code.Some? then s.(code := code.value.0, rank := code.value.1) else s;
    if active.Some? then spot.(active := active.value) else spot
  }

  ghost predicate DayShown(d: Db, e: EmployeeId, s: SiteId, date: int, day: DayInfo)
    requires s in d.sites
  {
    && day.date == date && day.bookable == (date in Bookable(d.sites[s].today))
    && day.free == |FreeSpots(d, s, {date})|
    && (day.booking.None? <==> !PersonTaken(d.bookings, e, date))
    && (day.booking.Some? ==>
        day.booking.value in d.bookings && day.booking.value.slot.employee == e && day.booking.value.slot.date == date)
  }

  /** The working days of this week and the next that are not past, in their order. */
  lemma TwoWeeks(today: int, dates: seq<int>)
    requires dates == From(Working(Monday(today)) + Working(Monday(today) + 7), today)
    ensures forall i, j :: 0 <= i < j < |dates| ==> dates[i] < dates[j]
    ensures forall x :: x in dates <==> InTwoWeeks(today, x)
  {
    hide From, Working, Monday, Weekday;
    var days := Working(Monday(today)) + Working(Monday(today) + 7);
    FromExactly(days, today);
    TenDays(today);
    forall x ensures x in dates <==> InTwoWeeks(today, x) {
      OneOfTen(today, x);
    }
  }

  lemma TenDays(today: int)
    ensures var days := Working(Monday(today)) + Working(Monday(today) + 7);
            forall i, j :: 0 <= i < j < |days| ==> days[i] < days[j]
  {
    hide Monday;
  }

  lemma OneOfTen(today: int, x: int)
    ensures x in Working(Monday(today)) + Working(Monday(today) + 7) <==>
              Weekday(x) <= 5 && (Monday(x) == Monday(today) || Monday(x) == Monday(today) + 7)
  {
    assert IsMonday(Monday(today)) && IsMonday(Monday(today) + 7);
    hide Working, Monday, Weekday, IsMonday;
    WorkingExactly(Monday(today), x);
    WorkingExactly(Monday(today) + 7, x);
  }

  predicate InTwoWeeks(today: int, x: int) {
    Weekday(x) <= 5 && today <= x && (Monday(x) == Monday(today) || Monday(x) == Monday(today) + 7)
  }

  lemma TwoWeeksShown(today: int, dates: seq<int>, days: seq<DayInfo>)
    requires |days| == |dates| && forall i :: 0 <= i < |days| ==> days[i].date == dates[i]
    requires forall i, j :: 0 <= i < j < |dates| ==> dates[i] < dates[j]
    requires forall x :: x in dates <==> InTwoWeeks(today, x)
    ensures forall i, j :: 0 <= i < j < |days| ==> days[i].date < days[j].date
    ensures forall x :: (exists i :: 0 <= i < |days| && days[i].date == x) <==> InTwoWeeks(today, x)
  {
    hide Weekday, Monday;
    forall x ensures (exists i :: 0 <= i < |days| && days[i].date == x) <==> InTwoWeeks(today, x) {
      if x in dates {
        var i :| 0 <= i < |dates| && dates[i] == x;
        assert days[i].date == x;
      }
    }
  }

  // ---------------------------------------------------------------- several days

  /** Why `bookMany` books none of the days. */
  function RefusedUpFront(d: Db, e: EmployeeId, s: SiteId, dates: seq<int>): Option<Refusal> {
    if !HasBenefit(d, e) then Some(NO_PARKING)
    else if !SiteOpen(d, s) then Some(SITE_NOT_FOUND)
    else if d.employees[e].role == USER && |ActiveOf(d.bookings, e, d.sites[s].today)| + |DaySet(dates)| > MAX_ACTIVE
        then Some(PARKING_LIMIT)
    else None
  }

  ghost function BookedDays(booked: seq<BookedDay>): set<int> {
    set b <- booked :: b.date
  }

  ghost function FailedDays(failed: seq<(int, Refusal)>): set<int> {
    set f <- failed :: f.0
  }

  ghost function BookedRows(e: EmployeeId, s: SiteId, booked: seq<BookedDay>): set<Booking> {
    set b <- booked :: Booking(b.id, Slot(s, b.spot, e, b.date), MANUAL)
  }

  /**
   * The days are split into booked and failed, each day once; the rows after are those before plus
   * one new MANUAL row for each booked day, as reported; the limit is never the reason.
   */
  ghost predicate SplitsExactly(before: set<Booking>, after: set<Booking>, e: EmployeeId, s: SiteId,
          booked: seq<BookedDay>, failed: seq<(int, Refusal)>, days: set<int>) {
    && BookedDays(booked) + FailedDays(failed) == days && BookedDays(booked) !! FailedDays(failed)
    && |booked| + |failed| == |days|
    && (forall f <- failed :: f.1 != PARKING_LIMIT)
    && after == before + BookedRows(e, s, booked)
    && |after| == |before| + |booked|
  }

  /** Each day is booked by `book`, one after the other: the tables in between, and what each answers. */
  ghost predicate OneByOne(ds: seq<Db>, rs: seq<BookResult>, e: EmployeeId, s: SiteId, days: seq<int>,
          chosen: Option<SpotId>) {
    && |ds| == |days| + 1 && |rs| == |days|
    && forall i :: 0 <= i < |days| ==> BookDone(ds[i], ds[i + 1], e, days[i], s, chosen, rs[i])
  }

  /** The answers, in their order, as the two lists that are given back. */
  ghost predicate Sorted(rs: seq<BookResult>, days: seq<int>, booked: seq<BookedDay>, failed: seq<(int, Refusal)>)
    requires |rs| == |days|
  {
    if rs == [] then booked == [] && failed == []
    else
      var n := |rs| - 1;
      match rs[n]
      case Booked(id, date, spot) =>
        booked != [] && booked[|booked| - 1] == BookedDay(id, date, spot)
        && Sorted(rs[..n], days[..n], booked[..|booked| - 1], failed)
      case Refused(code) =>
        failed != [] && failed[|failed| - 1] == (days[n], code)
        && Sorted(rs[..n], days[..n], booked, failed[..|failed| - 1])
  }

  lemma NothingYet(ds: seq<Db>, e: EmployeeId, s: SiteId, days: seq<int>, chosen: Option<SpotId>)
    requires |ds| == 1
    ensures OneByOne(ds, [], e, s, days[..0], chosen) && Sorted([], days[..0], [], [])
  {
  }

  lemma SortedOneMore(rs: seq<BookResult>, days: seq<int>, i: nat, booked: seq<BookedDay>, failed: seq<(int, Refusal)>,
          r: BookResult)
    requires i < |days| && |rs| == i && Sorted(rs, days[..i], booked, failed) && (r.Booked? ==> r.date == days[i])
    ensures r.Booked? ==> Sorted(rs + [r], days[..i + 1], booked + [BookedDay(r.id, days[i], r.spot)], failed)
    ensures r.Refused? ==> Sorted(rs + [r], days[..i + 1], booked, failed + [(days[i], r.code)])
  {
    assert (rs + [r])[..i] == rs && days[..i + 1][..i] == days[..i];
    if r.Booked? {
      assert (booked + [BookedDay(r.id, days[i], r.spot)])[..|booked|] == booked;
    } else {
      assert (failed + [(days[i], r.code)])[..|failed|] == failed;
    }
  }

  lemma OneByOneMore(ds: seq<Db>, rs: seq<BookResult>, e: EmployeeId, s: SiteId, days: seq<int>, i: nat,
          chosen: Option<SpotId>, d': Db, r: BookResult)
    requires i < |days| && OneByOne(ds, rs, e, s, days[..i], chosen) && BookDone(ds[i], d', e, days[i], s, chosen, r)
    ensures OneByOne(ds + [d'], rs + [r], e, s, days[..i + 1], chosen)
  {
    hide BookDone;
  }

  lemma SplitNothing(rows: set<Booking>, e: EmployeeId, s: SiteId)
    ensures SplitsExactly(rows, rows, e, s, [], [], DaySet([][..0]))
  {
  }

  /** What one `book` of the loop does, and that the limit cannot stop it. */
  lemma OneDayBooked(d: Db, d': Db, e: EmployeeId, date: int, s: SiteId, chosen: Option<SpotId>, r: BookResult)
    requires Inv(d) && BookDone(d, d', e, date, s, chosen, r)
    ensures r.Refused? ==> d'.bookings == d.bookings
    ensures r.Booked? ==>
        r.id == d.nextId && d'.bookings == d.bookings + {Booking(r.id, Slot(s, r.spot, e, date), MANUAL)}
    ensures r.Booked? ==> Booking(r.id, Slot(s, r.spot, e, date), MANUAL) !in d.bookings
    ensures forall t :: |ActiveOf(d'.bookings, e, t)| <= |ActiveOf(d.bookings, e, t)| + (if r.Booked? then 1 else 0)
    ensures r == Refused(PARKING_LIMIT) ==>
        SiteOpen(d, s) && e in d.employees && d.employees[e].role == USER
        && |ActiveOf(d.bookings, e, d.sites[s].today)| >= MAX_ACTIVE
  {
    if r.Booked? {
      var row := Booking(r.id, Slot(s, r.spot, e, date), MANUAL);
      assert row !in d.bookings by { assert forall b <- d.bookings :: Placed(d, b); }
      forall t ensures |ActiveOf(d'.bookings, e, t)| <= |ActiveOf(d.bookings, e, t)| + 1 {
        SubsetSize(ActiveOf(d'.bookings, e, t), ActiveOf(d.bookings, e, t) + {row});
      }
    }
  }

  lemma OneMoreBooked(e: EmployeeId, s: SiteId, booked: seq<BookedDay>, b: BookedDay)
    ensures BookedDays(booked + [b]) == BookedDays(booked) + {b.date}
    ensures BookedRows(e, s, booked + [b]) == BookedRows(e, s, booked)
        + {Booking(b.id, Slot(s, b.spot, e, b.date), MANUAL)}
  {
    var more := booked + [b];
    assert more[|booked|] == b;
    assert forall k <- booked :: k in more;
  }

  lemma OneMoreFailed(failed: seq<(int, Refusal)>, f: (int, Refusal))
    ensures FailedDays(failed + [f]) == FailedDays(failed) + {f.0}
  {
    var more := failed + [f];
    assert more[|failed|] == f;
    assert forall k <- failed :: k in more;
  }

  lemma SplitBooked(before: set<Booking>, rows: set<Booking>, e: EmployeeId, s: SiteId, booked: seq<BookedDay>,
          failed: seq<(int, Refusal)>, days: set<int>, b: BookedDay)
    requires SplitsExactly(before, rows, e, s, booked, failed, days) && b.date !in days
    requires Booking(b.id, Slot(s, b.spot, e, b.date), MANUAL) !in rows
    ensures SplitsExactly(before, rows + {Booking(b.id, Slot(s, b.spot, e, b.date), MANUAL)}, e, s, booked + [b],
        failed, days + {b.date})
  {
    OneMoreBooked(e, s, booked, b);
    hide BookedRows, BookedDays, FailedDays;
  }

  lemma SplitFailed(before: set<Booking>, rows: set<Booking>, e: EmployeeId, s: SiteId, booked: seq<BookedDay>,
          failed: seq<(int, Refusal)>, days: set<int>, f: (int, Refusal))
    requires SplitsExactly(before, rows, e, s, booked, failed, days) && f.0 !in days && f.1 != PARKING_LIMIT
    ensures SplitsExactly(before, rows, e, s, booked, failed + [f], days + {f.0})
  {
    OneMoreFailed(failed, f);
    hide BookedRows, BookedDays, FailedDays;
  }

  lemma SplitOneMore(before: set<Booking>, rows: set<Booking>, rows': set<Booking>, e: EmployeeId, s: SiteId,
          booked: seq<BookedDay>, failed: seq<(int, Refusal)>, days: seq<int>, i: nat, r: BookResult)
    requires i < |days| && Increasing(days)
    requires SplitsExactly(before, rows, e, s, booked, failed, DaySet(days[..i]))
    requires r.Refused? ==> rows' == rows && r.code != PARKING_LIMIT
    requires r.Booked? ==>
        Booking(r.id, Slot(s, r.spot, e, days[i]), MANUAL) !in rows
        && rows' == rows + {Booking(r.id, Slot(s, r.spot, e, days[i]), MANUAL)}
    ensures r.Booked? ==>
        SplitsExactly(before, rows', e, s, booked + [BookedDay(r.id, days[i], r.spot)], failed, DaySet(days[..i + 1]))
    ensures r.Refused? ==>
        SplitsExactly(before, rows', e, s, booked, failed + [(days[i], r.code)], DaySet(days[..i + 1]))
  {
    hide DaySet, SplitsExactly;
    NextDay(days, i);
    if r.Booked? {
      SplitBooked(before, rows, e, s, booked, failed, DaySet(days[..i]), BookedDay(r.id, days[i], r.spot));
    } else {
      SplitFailed(before, rows, e, s, booked, failed, DaySet(days[..i]), (days[i], r.code));
    }
  }

  lemma NextDay(days: seq<int>, i: nat)
    requires i < |days| && Increasing(days)
    ensures DaySet(days[..i + 1]) == DaySet(days[..i]) + {days[i]} && days[i] !in DaySet(days[..i])
  {
    PairsOneMore(0, days, i);
    var a, b := DaySet(days[..i]), DaySet(days[..i + 1]);
    forall x ensures x in b <==> x in a + {days[i]} {
      assert (0, x) in Pairs({0}, b) <==> x in b;
      assert (0, x) in Pairs({0}, a) <==> x in a;
    }
  }

  ghost predicate Increasing(days: seq<int>) {
    forall i, j :: 0 <= i < j < |days| ==> days[i] < days[j]
  }

  lemma {:induction false} IncreasingSize(days: seq<int>, i: nat)
    requires Increasing(days) && i <= |days|
    ensures |DaySet(days[..i])| == i
  {
    if i > 0 {
      IncreasingSize(days, i - 1);
      NextDay(days, i - 1);
    }
  }

  lemma DayInserted(days: seq<int>, j: nat, x: int)
    requires Increasing(days) && j <= |days| && x !in days
    requires (forall k :: 0 <= k < j ==> days[k] < x) && (j < |days| ==> x <= days[j])
    ensures Increasing(days[..j] + [x] + days[j..])
    ensures forall y :: y in days[..j] + [x] + days[j..] <==> y in days || y == x
  {
    assert days == days[..j] + days[j..];
    if j < |days| { assert days[j] in days; }
  }

  lemma SameMembers(a: seq<int>, b: seq<int>)
    requires forall x :: x in a <==> x in b
    ensures DaySet(a) == DaySet(b)
  {
    MembersWithin(a, b);
    MembersWithin(b, a);
  }

  lemma MembersWithin(a: seq<int>, b: seq<int>)
    requires forall x <- a :: x in b
    ensures DaySet(a) <= DaySet(b)
  {
    forall i | 0 <= i < |a| ensures a[i] in DaySet(b) {
      assert a[i] in a;
      var j :| 0 <= j < |b| && b[j] == a[i];
    }
  }

  ghost predicate SortedByKey(d: Db, e: EmployeeId, list: seq<SpotId>) {
    e in d.employees && forall i, j :: 0 <= i < j < |list| ==>
        list[i] in d.spots && list[j] in d.spots && KeyNotAfter(d, e, list[i], list[j])
  }

  lemma InsertedInOrder(d: Db, e: EmployeeId, list: seq<SpotId>, i: nat, p: SpotId)
    requires SortedByKey(d, e, list) && i <= |list| && p in d.spots && (forall q <- list :: q in d.spots)
    requires forall j :: 0 <= j < i ==> KeyNotAfter(d, e, list[j], p)
    requires i < |list| ==> !KeyNotAfter(d, e, list[i], p)
    ensures SortedByKey(d, e, list[..i] + [p] + list[i..])
    ensures forall q :: q in list[..i] + [p] + list[i..] <==> q in list || q == p
  {
    forall j | i <= j < |list| ensures KeyNotAfter(d, e, p, list[j]) {
      if i < j { assert KeyNotAfter(d, e, list[i], list[j]); }
    }
    assert list == list[..i] + list[i..];
  }

  lemma Appended(d: Db, e: EmployeeId, list: seq<SpotId>, p: SpotId)
    requires SortedByKey(d, e, list) && p in d.spots && forall q <- list :: q in d.spots && KeyNotAfter(d, e, q, p)
    ensures SortedByKey(d, e, list + [p])
  {
    hide KeyNotAfter;
  }

  lemma HeldAre(d: Db, e: EmployeeId, managers: set<SpotId>)
    requires managers == set m <- d.employees | m != e && d.employees[m].role == MANAGER && d.employees[m].spot.Some? ::
        d.employees[m].spot.value
    ensures forall p :: HeldByOther(d, e, p) <==> p in managers
  {
  }

  ghost predicate InOfferOrder(d: Db, e: EmployeeId, order: seq<SpotId>)
    requires e in d.employees
  {
    forall i, j :: 0 <= i < j < |order| ==>
        order[i] in d.spots && order[j] in d.spots && NotAfter(d, e, order[i], order[j])
  }

  lemma Joined(d: Db, e: EmployeeId, first: seq<SpotId>, last: seq<SpotId>)
    requires SortedByKey(d, e, first) && SortedByKey(d, e, last)
    requires forall p <- first :: p in d.spots && !HeldByOther(d, e, p)
    requires forall p <- last :: p in d.spots && HeldByOther(d, e, p)
    ensures InOfferOrder(d, e, first + last)
  {
    hide HeldByOther, KeyNotAfter;
  }

  /** Rows sit at the site of their spot, so the rows of one site tell which of its spots are taken. */
  lemma TakenAtSite(d: Db, s: SiteId, date: int, taken: set<SpotId>)
    requires Inv(d) && taken == set b <- d.bookings | b.slot.site == s && b.slot.date == date :: b.slot.spot
    ensures forall p :: ActiveAt(d, p, s) ==> (p in taken <==> SpotTaken(d.bookings, p, date))
  {
    assert forall b <- d.bookings :: Placed(d, b);
  }

  lemma FollowsWith(d: Db, d': Db, e: EmployeeId, n: nat)
    requires BenefitApplied(d, d', e, n)
    ensures BenefitFollows(d, d', e)
  {
  }

  lemma BaseWithBenefit(d: Db, set_: Db, e: EmployeeId, role: Role, fixed: Option<SpotId>)
    requires Inv(d) && e in d.employees && (role == MANAGER <==> fixed.Some?)
    requires fixed.Some? ==> fixed.value in d.spots && !HeldByOther(d, e, fixed.value)
    requires set_ == d.(employees := d.employees[e := d.employees[e].(role := role, spot := fixed)])
    ensures Base(set_)
  {
    hide UniqueKeys;
    forall b | b in d.bookings ensures Placed(set_, b) {
      assert Placed(d, b);
    }
  }

  lemma DaysAreBenefitDays(d: Db, s: SiteId, mondays: set<int>, days: seq<int>)
    requires s in d.sites
    requires mondays == (set k <- d.weeks | k.0 == s && Monday(d.sites[s].today) <= k.1 :: k.1)
        + {Monday(d.sites[s].today)}
    requires forall x :: x in days <==> d.sites[s].today <= x && exists m <- mondays :: x in Working(m)
    ensures DaySet(days) == BenefitDays(d, s)
  {
    hide Working;
    var today := d.sites[s].today;
    forall x | x in days ensures x in BenefitDays(d, s) {
      var m :| m in mondays && x in Working(m);
      assert (s, m) in d.weeks.Keys + {(s, Monday(today))};
      assert x in DaySet(Working((s, m).1));
    }
    forall x | x in BenefitDays(d, s) ensures x in days {
      var k :| k in d.weeks.Keys + {(s, Monday(today))} && x in DaySet(Working(k.1)) && k.0 == s
          && Monday(today) <= k.1;
      assert k.1 in mondays;
      assert x in Working(k.1);
    }
  }

  lemma BaseOfFewer(d: Db, d': Db)
    requires Base(d) && d'.bookings <= d.bookings && d' == d.(bookings := d'.bookings)
    ensures Base(d')
  {
    forall b | b in d'.bookings ensures Placed(d', b) {
      assert Placed(d, b);
    }
  }

  /** For a manager who is not eligible (inactive, or with the app off) nothing is added. */
  lemma OnlyAnEligibleManager(d: Db, gone: Db, d': Db, e: EmployeeId, s: SiteId, days: set<int>, n: nat)
    requires gone == d.(bookings := d.bookings - FutureAuto(d, e))
    requires d' == gone.(bookings := d'.bookings, nextId := d'.nextId)
    requires e in d.employees && d.employees[e].role == MANAGER && d.employees[e].spot.Some?
    requires d.employees[e].spot.value in d.spots
    requires s == d.spots[d.employees[e].spot.value].site && s in d.sites && d.spots[d.employees[e].spot.value].active
    requires days == BenefitDays(gone, s)
    requires Adds(gone, d', Claims(gone, Wanted(gone, s, days, Some(e))), AUTO)
    requires n == |Claims(gone, Wanted(gone, s, days, Some(e)))|
    ensures BenefitApplied(d, d', e, n)
  {
    hide FutureAuto;
    assert BenefitDays(gone, s) == BenefitDays(d, s);
    assert Wanted(gone, s, days, Some(e)) == Wanted(d, s, days, Some(e));
    hide BenefitDays;
    if !Eligible(d, e) {
      assert Wanted(gone, s, days, Some(e)) == {};
      NoClaims(gone);
      assert d'.bookings - gone.bookings == {};
    }
  }

  lemma WeeklyStart(d: Db, skipped: set<SiteId>)
    requires skipped <= d.sites.Keys && forall s <- skipped :: !Target(d, s)
    ensures WeeklyOver(d, d, skipped, 0)
  {
    hide Target, ActiveSpots, Wanted, Eligible;
    AddNothing(d);
    assert AllWeekly(d, skipped) == {};
    NoClaims(d);
  }

  lemma WeekOpened(d: Db, s: SiteId, monday: int)
    requires Inv(d) && s in d.sites && IsMonday(monday)
    ensures Base(d.(weeks := d.weeks[(s, monday) := 0]))
  {
    hide UniqueKeys;
    forall b | b in d.bookings ensures Placed(d.(weeks := d.weeks[(s, monday) := 0]), b) {
      assert Placed(d, b);
    }
  }

  /** That the week is on record already does not matter to what is booked. */
  lemma BookedOnceBegun(d: Db, begun: Db, d': Db, s: SiteId, days: set<int>)
    requires begun == d.(weeks := begun.weeks)
    requires Adds(begun, d', Claims(begun, Wanted(begun, s, days, None)), AUTO)
    ensures Claims(begun, Wanted(begun, s, days, None)) == Claims(d, Wanted(d, s, days, None))
    ensures Adds(d, d', Claims(d, Wanted(d, s, days, None)), AUTO)
  {
    assert Wanted(begun, s, days, None) == Wanted(d, s, days, None);
    forall w | w in Wanted(d, s, days, None)
        ensures Eligible(begun, w.0) && SlotFor(begun, w.0, w.1) == SlotFor(d, w.0, w.1) {
    }
  }

  lemma SameRows(d: Db, mid: Db, d': Db, slots: set<Slot>)
    requires Adds(d, mid, slots, AUTO) && d'.bookings == mid.bookings && d'.nextId == mid.nextId
    ensures Adds(d, d', slots, AUTO)
  {
  }

  lemma WeekOnRecord(d0: Db, d: Db, done: set<SiteId>, s: SiteId, total: nat)
    requires done + {s} <= d0.sites.Keys && s !in done && SiteOpen(d0, s) && ActiveSpots(d0, s) != {}
    requires WeeklyOver(d0, d, done, total)
    ensures NextWeek(d, s) == NextWeek(d0, s)
    ensures Target(d0, s) <==> (s, NextWeek(d0, s)) !in d.weeks
  {
    hide Adds, Claims, AllWeekly;
  }

  lemma PairsOf(done: set<EmployeeId>, m: EmployeeId, days: set<int>)
    ensures Pairs({}, days) == {}
    ensures Pairs(done, days) + Pairs({m}, days) == Pairs(done + {m}, days)
  {
  }

  lemma NothingClaimed(d: Db, all: set<EmployeeId>, days: set<int>)
    ensures Adds(d, d, Claims(d, Pairs(all - all, days)), AUTO) && |Claims(d, Pairs(all - all, days))| == 0
  {
    assert all - all == {};
    AddNothing(d);
    NoClaims(d);
    PairsOf({}, 0, days);
  }

  lemma PairsAdd(m: EmployeeId, days: set<int>, x: int)
    ensures Pairs({m}, days + {x}) == Pairs({m}, days) + {(m, x)}
  {
  }

  lemma NoPairs(m: EmployeeId, days: seq<int>)
    ensures Pairs({m}, DaySet(days[..0])) == {}
  {
  }

  lemma PairsOneMore(m: EmployeeId, days: seq<int>, i: nat)
    requires i < |days|
    ensures Pairs({m}, DaySet(days[..i + 1])) == Pairs({m}, DaySet(days[..i])) + {(m, days[i])}
  {
    assert days[..i + 1] == days[..i] + [days[i]];
    var a, b := DaySet(days[..i]), DaySet(days[..i + 1]);
    assert b == a + {days[i]} by {
      forall x | x in b ensures x in a + {days[i]} {
        var k :| 0 <= k < i + 1 && days[..i + 1][k] == x;
        if k < i { assert days[..i][k] == x; }
      }
      forall x | x in a ensures x in b {
        var k :| 0 <= k < i && days[..i][k] == x;
        assert days[..i + 1][k] == x;
      }
      assert days[..i + 1][i] == days[i];
    }
    PairsAdd(m, a, days[i]);
  }

  lemma IneligibleClaimsNothing(d: Db, done: set<EmployeeId>, m: EmployeeId, days: set<int>)
    requires !Eligible(d, m)
    ensures Claims(d, Pairs(done + {m}, days)) == Claims(d, Pairs(done, days))
  {
    hide Free, Eligible;
  }

  lemma SameClaims(d: Db, s: SiteId, among: set<SpotId>, managers: set<EmployeeId>, days: set<int>,
          only: Option<EmployeeId>)
    requires forall p <- among :: ActiveAt(d, p, s)
    requires managers == ManagersAmong(d, among, only)
    requires forall e <- d.employees ::
        Eligible(d, e) && SlotFor(d, e, 0).site == s && (only == None || only == Some(e)) ==>
               d.employees[e].spot.value in among
    ensures Claims(d, Pairs(managers, days)) == Claims(d, Wanted(d, s, days, only))
  {
    hide Free;
    forall e: EmployeeId, x: int ensures Eligible(d, e) ==>
        ((e, x) in Pairs(managers, days) <==> (e, x) in Wanted(d, s, days, only)) {
    }
  }

  // ---------------------------------------------------------------- one spot

  lemma NothingAgainst(d: Db, e: EmployeeId, date: int, s: SiteId)
    requires Refusal0(d, e, date, s).None?
    ensures !PersonTaken(d.bookings, e, date) && e in d.employees
  {
    hide Bookable, ActiveOf;
  }

  /** The new row that `TakeFirst` writes. */
  predicate OneRow(d: Db, d': Db, e: EmployeeId, date: int, s: SiteId, r: BookResult)
    requires r.Booked?
  {
    && r.date == date && r.id == d.nextId
    && d' == d.(bookings := d.bookings + {Booking(d.nextId, Slot(s, r.spot, e, date), MANUAL)}, nextId := d.nextId + 1)
  }

  lemma ChosenDone(d: Db, d': Db, e: EmployeeId, date: int, s: SiteId, p: SpotId, r: BookResult)
    requires Refusal0(d, e, date, s).None?
    requires r.Refused? ==> d' == d
    requires r.Booked? ==> OneRow(d, d', e, date, s, r) && r.spot == p && FreeSpot(d, s, date, p)
    requires !ActiveAt(d, p, s) ==> r == Refused(PARKING_SPOT_NOT_FOUND)
    requires ActiveAt(d, p, s) && SpotTaken(d.bookings, p, date) ==> r == Refused(PARKING_SPOT_TAKEN)
    requires FreeSpot(d, s, date, p) ==> r.Booked?
    ensures BookDone(d, d', e, date, s, Some(p), r)
  {
    hide Refusal0, ActiveAt, SpotTaken;
  }

  /** The first spot of the order that is not taken is the best free one. */
  lemma FirstFreeDone(d: Db, d': Db, e: EmployeeId, date: int, s: SiteId, order: seq<SpotId>, r: BookResult)
    requires Refusal0(d, e, date, s).None? && e in d.employees
    requires forall p :: p in order <==> ActiveAt(d, p, s)
    requires InOfferOrder(d, e, order)
    requires r.Refused? ==> d' == d && r.code == PARKING_FULL && forall p <- order :: SpotTaken(d.bookings, p, date)
    requires r.Booked? ==> OneRow(d, d', e, date, s, r) && FreeSpot(d, s, date, r.spot)
    requires r.Booked? ==> exists i :: (0 <= i < |order| && order[i] == r.spot
                             && forall j :: 0 <= j < i ==> SpotTaken(d.bookings, order[j], date))
    ensures BookDone(d, d', e, date, s, None, r)
  {
    assert forall p :: ActiveAt(d, p, s) ==> p in d.spots;
    hide Refusal0, ActiveAt, SpotTaken, NotAfter;
    if r.Booked? {
      var i :| 0 <= i < |order| && order[i] == r.spot && forall j :: 0 <= j < i ==>
          SpotTaken(d.bookings, order[j], date);
      forall p | p in d.spots && FreeSpot(d, s, date, p) ensures NotAfter(d, e, r.spot, p) {
        var k :| 0 <= k < |order| && order[k] == p;
        OrderIsTotal(d, e, p, p, p);
      }
    }
  }

  // ---------------------------------------------------------------- the list of spots

  ghost predicate ByCode(d: Db, list: seq<SpotId>) {
    forall i, j :: 0 <= i < j < |list| ==>
      list[i] != list[j] && list[i] in d.spots && list[j] in d.spots && d.spots[list[i]].rank <= d.spots[list[j]].rank
  }

  /** Every active spot of the site once, by code, free exactly if it has no booking at the site on any of the days. */
  ghost predicate Listed(d: Db, s: SiteId, dates: seq<int>, list: seq<SpotInfo>) {
    && (forall p :: p in ActiveSpots(d, s) <==> exists i :: 0 <= i < |list| && list[i].id == p)
    && (forall i, j :: 0 <= i < j < |list| ==>
          list[i].id != list[j].id && list[i].id in d.spots && list[j].id in d.spots
          && d.spots[list[i].id].rank <= d.spots[list[j].id].rank)
    && (forall i <- list :: i.free == (i.id in FreeSpots(d, s, DaySet(dates))))
  }

  lemma InsertedByCode(d: Db, list: seq<SpotId>, i: nat, p: SpotId)
    requires ByCode(d, list) && i <= |list| && p in d.spots && p !in list && forall q <- list :: q in d.spots
    requires forall j :: 0 <= j < i ==> d.spots[list[j]].rank <= d.spots[p].rank
    requires i < |list| ==> d.spots[p].rank < d.spots[list[i]].rank
    ensures ByCode(d, list[..i] + [p] + list[i..])
    ensures forall q :: q in list[..i] + [p] + list[i..] <==> q in list || q == p
  {
    var longer := list[..i] + [p] + list[i..];
    Inserted(list, i, p);
    forall k, l | 0 <= k < l < |longer|
      ensures longer[k] != longer[l] && longer[k] in d.spots && longer[l] in d.spots
      ensures d.spots[longer[k]].rank <= d.spots[longer[l]].rank
    {
      assert k < i ==> longer[k] == list[k];
      assert i < k ==> longer[k] == list[k - 1];
      assert l < i ==> longer[l] == list[l];
      assert i < l ==> longer[l] == list[l - 1];
    }
  }

  lemma Inserted<T>(list: seq<T>, i: nat, p: T)
    requires i <= |list|
    ensures forall q :: q in list[..i] + [p] + list[i..] <==> q in list || q == p
  {
    assert list == list[..i] + list[i..];
  }

  lemma FreeUnlessTaken(d: Db, s: SiteId, dates: seq<int>, taken: set<SpotId>)
    requires taken == set b <- d.bookings | b.slot.site == s && b.slot.date in DaySet(dates) :: b.slot.spot
    ensures forall p :: ActiveAt(d, p, s) ==> (p !in taken <==> p in FreeSpots(d, s, DaySet(dates)))
  {
    hide DaySet;
  }

  function FreeEntries(list: seq<SpotInfo>): seq<SpotInfo> {
    if list == [] then []
    else FreeEntries(list[..|list| - 1]) + if list[|list| - 1].free then [list[|list| - 1]] else []
  }

  function Ids(list: seq<SpotInfo>): set<SpotId> {
    set i <- list :: i.id
  }

  lemma {:induction false} EntriesAreSpots(list: seq<SpotInfo>, free: set<SpotId>)
    requires forall i, j :: 0 <= i < j < |list| ==> list[i].id != list[j].id
    requires forall i <- list :: i.free == (i.id in free)
    ensures |FreeEntries(list)| == |Ids(list) * free|
  {
    if list != [] {
      var init, last := list[..|list| - 1], list[|list| - 1];
      EntriesAreSpots(init, free);
      LastEntry(list);
      OneMoreCommon(Ids(init), Ids(list), last.id, free);
    } else {
      assert Ids(list) * free == {};
    }
  }

  lemma OneMoreCommon(a: set<SpotId>, b: set<SpotId>, x: SpotId, free: set<SpotId>)
    requires b == a + {x} && x !in a
    ensures |b * free| == |a * free| + if x in free then 1 else 0
  {
    assert b * free == a * free + if x in free then {x} else {};
  }

  lemma LastEntry(list: seq<SpotInfo>)
    requires list != [] && forall i, j :: 0 <= i < j < |list| ==> list[i].id != list[j].id
    ensures list[|list| - 1] in list
    ensures Ids(list) == Ids(list[..|list| - 1]) + {list[|list| - 1].id}
    ensures list[|list| - 1].id !in Ids(list[..|list| - 1])
  {
    var init, last := list[..|list| - 1], list[|list| - 1];
    assert list == init + [last];
    assert forall k :: 0 <= k < |init| ==> init[k] == list[k];
  }

  lemma ListedFrom(d: Db, s: SiteId, dates: seq<int>, order: seq<SpotId>, taken: set<SpotId>, list: seq<SpotInfo>)
    requires ByCode(d, order) && forall p :: p in order <==> ActiveAt(d, p, s)
    requires forall p :: ActiveAt(d, p, s) ==> (p !in taken <==> p in FreeSpots(d, s, DaySet(dates)))
    requires |list| == |order|
    requires forall k :: 0 <= k < |order| ==> list[k].id == order[k] && list[k].free == (order[k] !in taken)
    ensures Listed(d, s, dates, list)
  {
    hide DaySet, FreeSpots;
    forall p | p in ActiveSpots(d, s) ensures exists i :: 0 <= i < |list| && list[i].id == p {
      var i :| 0 <= i < |order| && order[i] == p;
      assert list[i].id == p;
    }
    forall i | 0 <= i < |list| ensures list[i].id in ActiveSpots(d, s) {
      assert order[i] in order && ActiveAt(d, order[i], s);
    }
    forall i | i in list ensures i.free == (i.id in FreeSpots(d, s, DaySet(dates))) {
      var k :| 0 <= k < |list| && list[k] == i;
    }
  }

  /** The spot list marks as many spots free as there are, whatever the days asked for. */
  lemma FreeEntriesCount(d: Db, s: SiteId, dates: seq<int>, list: seq<SpotInfo>)
    requires Listed(d, s, dates, list)
    ensures |FreeEntries(list)| == |FreeSpots(d, s, DaySet(dates))|
  {
    EntriesAreSpots(list, FreeSpots(d, s, DaySet(dates)));
    assert Ids(list) == ActiveSpots(d, s) by {
      forall p | p in ActiveSpots(d, s) ensures p in Ids(list) {
        var i :| 0 <= i < |list| && list[i].id == p;
        assert list[i] in list;
      }
    }
    hide ActiveSpots, DaySet;
    assert ActiveSpots(d, s) * FreeSpots(d, s, DaySet(dates)) == FreeSpots(d, s, DaySet(dates));
  }

  /** The number of free spots shown for a day is the number of spots that the list for that day marks free. */
  lemma ShownIsListed(d: Db, e: EmployeeId, s: SiteId, date: int, day: DayInfo, list: seq<SpotInfo>)
    requires s in d.sites && DayShown(d, e, s, date, day) && Listed(d, s, [date], list)
    ensures day.free == |FreeEntries(list)|
  {
    assert DaySet([date]) == {date} by { assert [date][0] == date; }
    hide Listed, FreeSpots, FreeEntries;
    FreeEntriesCount(d, s, [date], list);
  }
}
