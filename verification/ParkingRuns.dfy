/**
 * Runs of the parking tables: any sequence of operations, with the clock moving forward in
 * between. What every run keeps, and what follows from it.
 */
module ParkingRuns {
  import opened Options
  import opened ParkingRules
  import opened ParkingTables
  import opened Sets

  datatype Op =
    | Tick
    | Weekly
    | Book(e: EmployeeId, date: int, site: SiteId, chosen: Option<SpotId>)
    | Cancel(who: Option<EmployeeId>, id: nat)
    | SetBenefit(e: EmployeeId, role: Role, fixed: Option<SpotId>)
    | SetEmployee(e: EmployeeId, appOff: bool, active: bool)
    | AddEmployee(e: EmployeeId)
    | DeleteEmployee(e: EmployeeId)
    | AddSpot(p: SpotId, row: Spot)
    | UpdateSpot(p: SpotId, row: Spot)
    | DeleteSpot(p: SpotId)
    | AddSite(site: SiteId, at: Site)
    | SetSite(site: SiteId, active: bool)

  /** Time passes: no site's local date goes back. */
  ghost predicate Ticks(d: Db, d': Db) {
    && d' == d.(sites := d'.sites) && d'.sites.Keys == d.sites.Keys
    && (forall s <- d.sites :: d'.sites[s].active == d.sites[s].active && d.sites[s].today <= d'.sites[s].today)
  }

  ghost predicate Step(d: Db, op: Op, d': Db) {
    match op
    case Tick => Ticks(d, d')
    case Weekly => exists n: nat :: WeeklyDone(d, d', n)
    case Book(e, date, s, chosen) => exists r :: BookDone(d, d', e, date, s, chosen, r)
    case Cancel(who, id) => exists row :: CancelDone(d, d', who, id, row)
    case SetBenefit(e, role, spot) => exists r :: BenefitSet(d, d', e, role, spot, r)
    case SetEmployee(e, appOff, active) =>
      d' == if e in d.employees
          then d.(employees := d.employees[e := d.employees[e].(appOff := appOff, active := active)]) else d
    case AddEmployee(e) => e !in d.employees
        && d' == d.(employees := d.employees[e := Employee(NONE, None, false, true)])
    case DeleteEmployee(e) => d' == d.(employees := d.employees - {e}, bookings := d.bookings - BookingsOf(d, e))
    case AddSpot(p, spot) =>
      && p !in d.spots
      && d' == if spot.site in d.sites && !CodeUsed(d, spot.site, spot.code, {})
          then d.(spots := d.spots[p := spot.(active := true)]) else d
    case UpdateSpot(p, spot) => exists ok :: SpotUpdated(d, d', p, spot, ok)
    case DeleteSpot(p) => exists ok :: SpotDeleted(d, d', p, ok)
    case AddSite(s, row) => s !in d.sites && d' == d.(sites := d.sites[s := row])
    case SetSite(s, active) => d' == if s in d.sites then d.(sites := d.sites[s := d.sites[s].(active := active)])
        else d
  }

  /** `ds` is what the tables go through under `ops`. */
  ghost predicate Run(ds: seq<Db>, ops: seq<Op>) {
    |ds| == |ops| + 1 && forall i :: 0 <= i < |ops| ==> Step(ds[i], ops[i], ds[i + 1])
  }

  // ---------------------------------------------------------------- rows that managers get

  /** Two claims never want the same spot or the same person on one day. */
  lemma ClaimsCompatible(d: Db, want: set<(EmployeeId, int)>, x: Slot, y: Slot)
    requires OneManagerPerSpot(d) && x in Claims(d, want) && y in Claims(d, want)
    requires x.date == y.date && (x.spot == y.spot || x.employee == y.employee)
    ensures x == y
  {
    var v :| v in want && Eligible(d, v.0) && Free(d, SlotFor(d, v.0, v.1)) && SlotFor(d, v.0, v.1) == x;
    var w :| w in want && Eligible(d, w.0) && Free(d, SlotFor(d, w.0, w.1)) && SlotFor(d, w.0, w.1) == y;
  }

  lemma AddedKeysUnique(d: Db, d': Db, want: set<(EmployeeId, int)>)
    requires OneManagerPerSpot(d) && UniqueKeys(d.bookings) && (forall b <- d.bookings :: b.id < d.nextId)
    requires Adds(d, d', Claims(d, want), AUTO)
    ensures UniqueKeys(d'.bookings)
  {
    assert forall b <- d'.bookings - d.bookings :: b.slot in SlotsOf(d'.bookings - d.bookings);
    forall b, c | b in d'.bookings && c in d'.bookings && b != c
      ensures b.id != c.id
      ensures !(b.slot.spot == c.slot.spot && b.slot.date == c.slot.date)
      ensures !(b.slot.employee == c.slot.employee && b.slot.date == c.slot.date)
    {
      if b !in d.bookings && c !in d.bookings {
        if b.slot.date == c.slot.date && (b.slot.spot == c.slot.spot || b.slot.employee == c.slot.employee) {
          ClaimsCompatible(d, want, b.slot, c.slot);
        }
      }
    }
  }

  /** Adding claims keeps everything, if the days claimed are recorded or begun. */
  lemma ClaimsKeepInv(d: Db, d': Db, want: set<(EmployeeId, int)>)
    requires Inv(d) && Adds(d, d', Claims(d, want), AUTO)
    requires d' == d.(bookings := d'.bookings, weeks := d'.weeks, nextId := d'.nextId)
    requires d.weeks.Keys <= d'.weeks.Keys && (forall k <- d'.weeks :: k.0 in d.sites && IsMonday(k.1))
    requires forall w <- want :: Eligible(d, w.0) ==> Recorded(d', SlotFor(d, w.0, w.1).site, w.1)
    ensures Inv(d')
  {
    AddedKeysUnique(d, d', want);
    forall b | b in d'.bookings ensures Placed(d', b) && Handed(d', b) {
      if b in d.bookings {
        assert Placed(d, b) && Handed(d, b);
      } else {
        assert b.slot in Claims(d, want);
      }
    }
  }

  lemma WeekOfWorkingDay(monday: int, date: int)
    requires IsMonday(monday) && date in DaySet(Working(monday))
    ensures Monday(date) == monday && monday <= date <= monday + 4
  {
    assert date in Working(monday);
    WorkingExactly(monday, date);
  }

  lemma WeeklyWantedRecorded(d: Db, d': Db, sites: set<SiteId>, n: nat, w: (EmployeeId, int))
    requires Inv(d) && sites <= d.sites.Keys && WeeklyOver(d, d', sites, n)
    requires w in AllWeekly(d, sites) && Eligible(d, w.0)
    ensures Recorded(d', SlotFor(d, w.0, w.1).site, w.1)
  {
    hide Claims, Adds, Inv, ActiveSpots;
    var s :| s in sites && w in WeeklyWanted(d, s);
    WeekOfWorkingDay(NextWeek(d, s), w.1);
  }

  lemma WeeklyKeepsInv(d: Db, d': Db, sites: set<SiteId>, n: nat)
    requires Inv(d) && sites <= d.sites.Keys && WeeklyOver(d, d', sites, n)
    ensures Inv(d')
  {
    hide Claims, Adds, AllWeekly, Recorded, Target, Placed, Handed, UniqueKeys, OneManagerPerSpot;
    var want := AllWeekly(d, sites);
    forall w | w in want && Eligible(d, w.0) ensures Recorded(d', SlotFor(d, w.0, w.1).site, w.1) {
      WeeklyWantedRecorded(d, d', sites, n, w);
    }
    ClaimsKeepInv(d, d', want);
  }

  lemma BenefitDaysRecorded(d: Db, s: SiteId, date: int)
    requires s in d.sites && (forall k <- d.weeks :: IsMonday(k.1)) && date in BenefitDays(d, s)
    ensures Recorded(d, s, date) && d.sites[s].today <= date
  {
    var k :| k in d.weeks.Keys + {(s, Monday(d.sites[s].today))} && date in DaySet(Working(k.1)) && k.0 == s;
    WeekOfWorkingDay(k.1, date);
  }

  /**
   * The tables with a new role and spot for `e` satisfy everything but the invariant on `e`'s own
   * future weekly rows, which then go.
   */
  lemma BenefitKeepsInv(d: Db, set_: Db, d': Db, e: EmployeeId, role: Role, fixed: Option<SpotId>, n: nat)
    requires Inv(d) && e in d.employees
    requires role == MANAGER <==> fixed.Some?
    requires fixed.Some? ==> fixed.value in d.spots && !HeldByOther(d, e, fixed.value)
    requires set_ == d.(employees := d.employees[e := d.employees[e].(role := role, spot := fixed)])
    requires BenefitApplied(set_, d', e, n)
    ensures Inv(d')
  {
    var gone := set_.(bookings := d.bookings - FutureAuto(set_, e));
    assert OneManagerPerSpot(set_);
    forall b | b in gone.bookings ensures Placed(gone, b) && Handed(gone, b) {
      assert Placed(d, b) && Handed(d, b);
      assert b !in FutureAuto(set_, e);
    }
    assert Inv(gone);
    if Eligible(set_, e) {
      var s := d.spots[fixed.value].site;
      var want := Wanted(set_, s, BenefitDays(set_, s), Some(e));
      forall w | w in want && Eligible(gone, w.0) ensures Recorded(d', SlotFor(gone, w.0, w.1).site, w.1) {
        BenefitDaysRecorded(set_, s, w.1);
      }
      ClaimsKeepInv(gone, d', want);
    }
  }

  lemma BookKeepsInv(d: Db, d': Db, e: EmployeeId, date: int, s: SiteId, chosen: Option<SpotId>, r: BookResult)
    requires Inv(d) && BookDone(d, d', e, date, s, chosen, r)
    ensures Inv(d')
  {
    if r.Booked? {
      var row := Booking(d.nextId, Slot(s, r.spot, e, date), MANUAL);
      forall b | b in d'.bookings ensures Placed(d', b) && Handed(d', b) {
        if b != row { assert Placed(d, b) && Handed(d, b); }
      }
      assert FreeSpot(d, s, date, r.spot) && !PersonTaken(d.bookings, e, date);
    }
  }

  lemma SpotKeepsInv(d: Db, d': Db, p: SpotId, spot: Spot, ok: bool)
    requires Inv(d) && SpotUpdated(d, d', p, spot, ok)
    ensures Inv(d')
  {
    forall b | b in d'.bookings ensures Placed(d', b) && Handed(d', b) {
      assert Placed(d, b) && Handed(d, b);
    }
  }

  /**
   * Every operation keeps the tables consistent: unique keys, rows that exist, every booking from
   * today on at an active spot of its own site, weekly bookings only in weeks handed out, one
   * manager per spot.
   */
  lemma StepKeepsInv(d: Db, op: Op, d': Db)
    requires Inv(d) && Step(d, op, d')
    ensures Inv(d')
  {
    hide Inv, WeeklyOver, BookDone, CancelDone, SpotUpdated, BenefitApplied;
    match op
    case Weekly =>
      var n: nat :| WeeklyDone(d, d', n);
      WeeklyKeepsInv(d, d', d.sites.Keys, n);
    case Book(e, date, s, chosen) =>
      var r :| BookDone(d, d', e, date, s, chosen, r);
      BookKeepsInv(d, d', e, date, s, chosen, r);
    case SetBenefit(e, role, spot) =>
      var r :| BenefitSet(d, d', e, role, spot, r);
      if d' != d {
        var fixed := if role == MANAGER then spot else None;
        var set_ := d.(employees := d.employees[e := d.employees[e].(role := role, spot := fixed)]);
        var n: nat :| BenefitApplied(set_, d', e, n);
        BenefitKeepsInv(d, set_, d', e, role, fixed, n);
      }
    case UpdateSpot(p, spot) =>
      var ok :| SpotUpdated(d, d', p, spot, ok);
      SpotKeepsInv(d, d', p, spot, ok);
    case Cancel(who, id) =>
      var row :| CancelDone(d, d', who, id, row);
      CancelShrinks(d, d', who, id, row);
      FewerKeepInv(d, d');
    case SetEmployee(_, _, _) => PeopleStepsKeepInv(d, op, d');
    case AddEmployee(_) => PeopleStepsKeepInv(d, op, d');
    case DeleteEmployee(_) => PeopleStepsKeepInv(d, op, d');
    case AddSpot(_, _) => SpotStepsKeepInv(d, op, d');
    case DeleteSpot(_) => SpotStepsKeepInv(d, op, d');
    case _ => OtherStepsKeepInv(d, op, d');
  }

  lemma PeopleStepsKeepInv(d: Db, op: Op, d': Db)
    requires Inv(d) && Step(d, op, d') && (op.SetEmployee? || op.AddEmployee? || op.DeleteEmployee?)
    ensures Inv(d')
  {
    forall b | b in d'.bookings ensures Placed(d', b) && Handed(d', b) {
      assert Placed(d, b) && Handed(d, b);
    }
  }

  lemma SpotStepsKeepInv(d: Db, op: Op, d': Db)
    requires Inv(d) && Step(d, op, d') && (op.AddSpot? || op.DeleteSpot?)
    ensures Inv(d')
  {
    forall b | b in d'.bookings ensures Placed(d', b) && Handed(d', b) {
      assert Placed(d, b) && Handed(d, b);
    }
  }

  lemma OtherStepsKeepInv(d: Db, op: Op, d': Db)
    requires Inv(d) && Step(d, op, d') && (op.Tick? || op.AddSite? || op.SetSite?)
    ensures Inv(d')
  {
    hide Inv;
    SitesForward(d, d');
  }

  lemma SitesForward(d: Db, d': Db)
    requires Inv(d) && d' == d.(sites := d'.sites)
    requires forall s <- d.sites :: s in d'.sites && d.sites[s].today <= d'.sites[s].today
    ensures Inv(d')
  {
    hide UniqueKeys, Placed, Handed;
    forall b | b in d'.bookings ensures Placed(d', b) && Handed(d', b) {
      RowKeeps(d, d', b);
    }
  }

  /** A row stays in order while only sites change, and their clocks do not go back. */
  lemma RowKeeps(d: Db, d': Db, b: Booking)
    requires Placed(d, b) && Handed(d, b) && d' == d.(sites := d'.sites)
    requires forall s <- d.sites :: s in d'.sites && d.sites[s].today <= d'.sites[s].today
    ensures Placed(d', b) && Handed(d', b)
  {
  }

  lemma CancelShrinks(d: Db, d': Db, who: Option<EmployeeId>, id: nat, row: Option<Booking>)
    requires CancelDone(d, d', who, id, row)
    ensures d'.bookings <= d.bookings && d' == d.(bookings := d'.bookings)
  {
  }

  lemma FewerKeepInv(d: Db, d': Db)
    requires Inv(d) && d'.bookings <= d.bookings && d' == d.(bookings := d'.bookings)
    ensures Inv(d')
  {
    forall b | b in d'.bookings ensures Placed(d', b) && Handed(d', b) {
      assert Placed(d, b) && Handed(d, b);
    }
  }

  function NoTables(): Db {
    Db(map[], map[], map[], {}, map[], 0)
  }

  /** Empty tables are consistent, and nobody is over the limit: every run from them is one of those spoken of below. */
  lemma EmptyIsConsistent(e: EmployeeId)
    ensures Inv(NoTables()) && WithinLimit(NoTables(), e) && OnWorkingDays(NoTables())
  {
    assert forall t :: ActiveOf({}, e, t) == {};
  }

  lemma {:induction false} RunKeepsInv(ds: seq<Db>, ops: seq<Op>, i: nat)
    requires Run(ds, ops) && Inv(ds[0]) && i < |ds|
    ensures Inv(ds[i])
  {
    if i > 0 {
      RunKeepsInv(ds, ops, i - 1);
      StepKeepsInv(ds[i - 1], ops[i - 1], ds[i]);
    }
  }

  // ---------------------------------------------------------------- a day given back

  /** `e` holds `spot`, its week at the spot's site is handed out or begun, and no weekly booking is left on the day. */
  ghost predicate GivenBack(d: Db, e: EmployeeId, spot: SpotId, date: int) {
    && e in d.employees && d.employees[e].spot == Some(spot) && spot in d.spots
    && Recorded(d, d.spots[spot].site, date)
    && (forall b <- d.bookings :: !(b.source == AUTO && b.slot.employee == e && b.slot.date == date))
  }

  /** Role and fixed spot of `e` are the same before and after. */
  ghost predicate BenefitKept(d: Db, d': Db, e: EmployeeId) {
    e in d.employees && e in d'.employees && d'.employees[e].role == d.employees[e].role
        && d'.employees[e].spot == d.employees[e].spot
  }

  lemma RecordedNotWanted(d: Db, e: EmployeeId, spot: SpotId, date: int, w: (EmployeeId, int))
    requires GivenBack(d, e, spot, date) && w in AllWeekly(d, d.sites.Keys) && Eligible(d, w.0)
    ensures w != (e, date)
  {
    hide ActiveSpots;
    var s :| s in d.sites.Keys && w in WeeklyWanted(d, s);
    WeekOfWorkingDay(NextWeek(d, s), w.1);
  }

  lemma WeeklySparesRecorded(d: Db, d': Db, n: nat, e: EmployeeId, spot: SpotId, date: int)
    requires WeeklyDone(d, d', n) && GivenBack(d, e, spot, date)
    ensures GivenBack(d', e, spot, date)
  {
    hide AllWeekly, Free, ActiveSpots, Target;
    var want := AllWeekly(d, d.sites.Keys);
    forall b | b in d'.bookings && b !in d.bookings ensures b.slot.employee != e || b.slot.date != date {
      assert b.slot in Claims(d, want);
      var w :| w in want && Eligible(d, w.0) && SlotFor(d, w.0, w.1) == b.slot;
      RecordedNotWanted(d, e, spot, date, w);
    }
  }

  lemma BenefitFrame(d: Db, d': Db, e: EmployeeId, n: nat)
    requires BenefitApplied(d, d', e, n)
    ensures d'.sites == d.sites && d'.employees == d.employees && d'.spots == d.spots && d'.weeks == d.weeks
    ensures !Eligible(d, e) ==> d'.bookings == d.bookings - FutureAuto(d, e)
  {
  }

  lemma BenefitOfOtherSpares(d: Db, set_: Db, d': Db, x: EmployeeId, n: nat, e: EmployeeId, spot: SpotId, date: int)
    requires GivenBack(d, e, spot, date) && x != e
    requires set_ == d.(employees := set_.employees) && BenefitKept(d, set_, e)
    requires BenefitApplied(set_, d', x, n) && (forall p <- d.spots :: d.spots[p].site in d.sites)
    ensures GivenBack(d', e, spot, date)
  {
    hide Adds, Free, BenefitDays;
    if Eligible(set_, x) {
      var gone := set_.(bookings := set_.bookings - FutureAuto(set_, x));
      var s := set_.spots[set_.employees[x].spot.value].site;
      AddedAreWanted(gone, d', Wanted(set_, s, BenefitDays(set_, s), Some(x)));
    }
  }

  /** Each row added belongs to somebody wanted, on a wanted day. */
  lemma AddedAreWanted(d: Db, d': Db, want: set<(EmployeeId, int)>)
    requires Adds(d, d', Claims(d, want), AUTO)
    ensures forall b <- d'.bookings ::
        b in d.bookings || (b.source == AUTO && (b.slot.employee, b.slot.date) in want && Eligible(d, b.slot.employee)
              && b.slot == SlotFor(d, b.slot.employee, b.slot.date))
  {
    forall b | b in d'.bookings && b !in d.bookings
      ensures (b.slot.employee, b.slot.date) in want && Eligible(d, b.slot.employee)
      ensures b.slot == SlotFor(d, b.slot.employee, b.slot.date)
    {
      assert b.slot in Claims(d, want);
      var w :| w in want && Eligible(d, w.0) && Free(d, SlotFor(d, w.0, w.1)) && SlotFor(d, w.0, w.1) == b.slot;
      assert w == (b.slot.employee, b.slot.date);
    }
  }

  lemma GivenBackStep(d: Db, op: Op, d': Db, e: EmployeeId, spot: SpotId, date: int)
    requires Inv(d) && Step(d, op, d') && BenefitKept(d, d', e) && GivenBack(d, e, spot, date)
    ensures GivenBack(d', e, spot, date)
  {
    match op
    case Weekly =>
      var n: nat :| WeeklyDone(d, d', n);
      WeeklySparesRecorded(d, d', n, e, spot, date);
    case SetBenefit(x, role, f) =>
      var r :| BenefitSet(d, d', x, role, f, r);
      if d' != d {
        var fixed := if role == MANAGER then f else None;
        var set_ := d.(employees := d.employees[x := d.employees[x].(role := role, spot := fixed)]);
        var n: nat :| BenefitApplied(set_, d', x, n);
        BenefitFrame(set_, d', x, n);
        BenefitOfOtherSpares(d, set_, d', x, n, e, spot, date);
      }
    case Book(x, day, s, chosen) =>
      var r :| BookDone(d, d', x, day, s, chosen, r);
      hide *;
      BookSpares(d, d', x, day, s, chosen, r, e, spot, date);
    case _ =>
      OtherStepsSpare(d, op, d', e, spot, date);
  }

  lemma BookSpares(d: Db, d': Db, x: EmployeeId, day: int, s: SiteId, chosen: Option<SpotId>, r: BookResult,
          e: EmployeeId, spot: SpotId, date: int)
    requires BookDone(d, d', x, day, s, chosen, r) && GivenBack(d, e, spot, date)
    ensures GivenBack(d', e, spot, date)
  {
    hide Refusal0, FreeSpot, NotAfter;
  }

  lemma OtherStepsSpare(d: Db, op: Op, d': Db, e: EmployeeId, spot: SpotId, date: int)
    requires Inv(d) && Step(d, op, d') && BenefitKept(d, d', e) && GivenBack(d, e, spot, date)
    requires !op.Weekly? && !op.SetBenefit? && !op.Book?
    ensures GivenBack(d', e, spot, date)
  {
    hide WeeklyDone, BenefitSet, BookDone, Inv, CodeUsed;
  }

  lemma {:induction false} GivenBackUpTo(ds: seq<Db>, ops: seq<Op>, e: EmployeeId, spot: SpotId, date: int, i: nat)
    requires Run(ds, ops) && Inv(ds[0]) && GivenBack(ds[0], e, spot, date) && i < |ds|
    requires forall j :: 0 <= j < |ops| ==> BenefitKept(ds[j], ds[j + 1], e)
    ensures GivenBack(ds[i], e, spot, date)
  {
    hide Inv, Step, GivenBack, BenefitKept;
    if i > 0 {
      GivenBackUpTo(ds, ops, e, spot, date, i - 1);
      RunKeepsInv(ds, ops, i - 1);
      GivenBackStep(ds[i - 1], ops[i - 1], ds[i], e, spot, date);
    }
  }

  /**
   * A weekly day that is given back stays free of weekly bookings of that manager: in any run after
   * the cancellation, with any number of weekly jobs, as long as the manager's role and spot stay.
   */
  lemma GivenBackStaysFree(ds: seq<Db>, ops: seq<Op>, row: Booking, who: Option<EmployeeId>)
    requires Run(ds, ops) && Inv(ds[0])
    requires ops != [] && ops[0] == Cancel(who, row.id)
    requires row.source == AUTO && row in ds[0].bookings && row !in ds[1].bookings
    requires forall j :: 0 < j < |ops| ==> BenefitKept(ds[j], ds[j + 1], row.slot.employee)
    ensures forall i, b ::
        0 < i < |ds| && b in ds[i].bookings && b.slot.employee == row.slot.employee && b.slot.date == row.slot.date ==>
        b.source == MANUAL
  {
    var e, spot, date := row.slot.employee, row.slot.spot, row.slot.date;
    assert Placed(ds[0], row) && Handed(ds[0], row);
    assert Step(ds[0], ops[0], ds[1]);
    StepKeepsInv(ds[0], ops[0], ds[1]);
    assert GivenBack(ds[1], e, spot, date);
    forall i, b | 0 < i < |ds| && b in ds[i].bookings && b.slot.employee == e && b.slot.date == date
        ensures b.source == MANUAL {
      assert Run(ds[1..], ops[1..]) by {
        forall j | 0 <= j < |ops[1..]| ensures Step(ds[1..][j], ops[1..][j], ds[1..][j + 1]) {
          assert Step(ds[j + 1], ops[j + 1], ds[j + 2]);
        }
      }
      GivenBackUpTo(ds[1..], ops[1..], e, spot, date, i - 1);
    }
  }

  // ---------------------------------------------------------------- what the weekly job does

  lemma NoTargetLeft(d: Db, d1: Db, n: nat, s: SiteId)
    requires WeeklyDone(d, d1, n) && s in d1.sites
    ensures !Target(d1, s)
  {
    hide Adds, AllWeekly, Claims;
    assert ActiveSpots(d1, s) == ActiveSpots(d, s);
  }

  lemma NothingToHandOut(d: Db, d': Db, n: nat)
    requires WeeklyDone(d, d', n) && forall s <- d.sites :: !Target(d, s)
    ensures d' == d && n == 0
  {
    hide ActiveSpots, Wanted;
    assert AllWeekly(d, d.sites.Keys) == {} by { hide Target; }
    assert Claims(d, AllWeekly(d, d.sites.Keys)) == {};
    assert Adds(d, d', {}, AUTO);
    assert d'.bookings - d.bookings == {};
    assert d'.weeks == d.weeks;
  }

  /** Run again at once, the weekly job does nothing. */
  lemma WeeklyOnce(d: Db, d1: Db, d2: Db, n: nat, m: nat)
    requires WeeklyDone(d, d1, n) && WeeklyDone(d1, d2, m)
    ensures d2 == d1 && m == 0
  {
    hide Target, WeeklyDone;
    forall s | s in d1.sites ensures !Target(d1, s) {
      NoTargetLeft(d, d1, n, s);
    }
    NothingToHandOut(d1, d2, m);
  }

  /**
   * After the weekly job the week of the only Monday in the seven days after a site's today is
   * recorded for every active site with an active spot, and if it was not before, Monday to Friday
   * of it find each eligible manager of the site, or their spot, booked.
   */
  lemma WeeklyCovers(d: Db, d': Db, n: nat, s: SiteId, monday: int, e: EmployeeId, date: int)
    requires Inv(d) && WeeklyDone(d, d', n)
    requires SiteOpen(d, s) && ActiveSpots(d, s) != {}
    requires Weekday(monday) == 1 && d.sites[s].today < monday <= d.sites[s].today + 7
    ensures (s, monday) in d'.weeks
    ensures (s, monday) !in d.weeks && Eligible(d, e) && d.spots[d.employees[e].spot.value].site == s
            && monday <= date <= monday + 4 ==>
              SpotTaken(d'.bookings, d.employees[e].spot.value, date) || PersonTaken(d'.bookings, e, date)
  {
    assert monday == NextWeek(d, s);
    if (s, monday) !in d.weeks && Eligible(d, e) && d.spots[d.employees[e].spot.value].site == s
       && monday <= date <= monday + 4
    {
      WorkingExactly(monday, date);
      var days := Working(monday);
      var i :| 0 <= i < |days| && days[i] == date;
      assert date in DaySet(days);
      assert (e, date) in WeeklyWanted(d, s);
      assert (e, date) in AllWeekly(d, d.sites.Keys);
      TakenAfterClaim(d, d', AllWeekly(d, d.sites.Keys), e, date);
    }
  }

  /** Whatever was wanted is taken afterwards: by the new row, or by the one that was in the way. */
  lemma TakenAfterClaim(d: Db, d': Db, want: set<(EmployeeId, int)>, e: EmployeeId, date: int)
    requires Adds(d, d', Claims(d, want), AUTO) && (e, date) in want && Eligible(d, e)
    ensures SpotTaken(d'.bookings, d.employees[e].spot.value, date) || PersonTaken(d'.bookings, e, date)
  {
    var slot := SlotFor(d, e, date);
    if Free(d, slot) {
      assert slot in Claims(d, want);
      var b :| b in d'.bookings - d.bookings && b.slot == slot;
    } else if SpotTaken(d.bookings, slot.spot, date) {
      var b :| b in d.bookings && b.slot.spot == slot.spot && b.slot.date == date;
    } else {
      var b :| b in d.bookings && b.slot.employee == e && b.slot.date == date;
    }
  }

  // ---------------------------------------------------------------- what a change of benefit does

  /** `BenefitDays`, day by day: in the current week or a later one on record, Monday to Friday, not past. */
  ghost predicate HandedOut(d: Db, s: SiteId, date: int)
    requires s in d.sites
  {
    var today := d.sites[s].today;
    && today <= date && Weekday(date) <= 5
    && (Monday(date) == Monday(today) || (Monday(today) <= Monday(date) && (s, Monday(date)) in d.weeks))
  }

  lemma HandedOutIsWanted(d: Db, s: SiteId, date: int)
    requires s in d.sites && HandedOut(d, s, date)
    ensures date in BenefitDays(d, s)
  {
    var k := (s, Monday(date));
    WorkingExactly(Monday(date), date);
    var days := Working(Monday(date));
    var i :| 0 <= i < |days| && days[i] == date;
    assert date in DaySet(Working(k.1));
    assert k in d.weeks.Keys + {(s, Monday(d.sites[s].today))};
  }

  /**
   * After a change of benefit an eligible manager, or the fixed spot, is booked on every working day
   * from today in this week and in every week already handed out.
   */
  lemma BenefitCovers(d: Db, d': Db, e: EmployeeId, n: nat, date: int)
    requires BenefitApplied(d, d', e, n) && (forall p <- d.spots :: d.spots[p].site in d.sites)
    requires Eligible(d, e) && HandedOut(d, d.spots[d.employees[e].spot.value].site, date)
    ensures SpotTaken(d'.bookings, d.employees[e].spot.value, date) || PersonTaken(d'.bookings, e, date)
  {
    hide BenefitDays, HandedOut, Adds, FutureAuto, SpotTaken, PersonTaken;
    var gone := d.(bookings := d.bookings - FutureAuto(d, e));
    var s := d.spots[d.employees[e].spot.value].site;
    HandedOutIsWanted(d, s, date);
    var want := Wanted(d, s, BenefitDays(d, s), Some(e));
    assert (e, date) in want;
    TakenAfterClaim(gone, d', want, e, date);
  }

  /**
   * A change of benefit leaves AUTO rows of the person from today on only on the new fixed spot, and
   * all other rows as they were; the number returned is how many rows joined.
   */
  lemma BenefitEffects(d: Db, d': Db, e: EmployeeId, n: nat)
    requires BenefitApplied(d, d', e, n)
    requires (forall p <- d.spots :: d.spots[p].site in d.sites) && (forall b <- d.bookings :: b.id < d.nextId)
    ensures forall b <- FutureAuto(d', e) :: Eligible(d, e) && Some(b.slot.spot) == d.employees[e].spot
    ensures forall b <- d.bookings :: b.slot.employee != e || b.source == MANUAL ==> b in d'.bookings
    ensures forall b <- d'.bookings - d.bookings :: b.slot.employee == e && b.source == AUTO
    ensures n == |d'.bookings - d.bookings|
  {
    var gone := d.(bookings := d.bookings - FutureAuto(d, e));
    if Eligible(d, e) {
      var s := d.spots[d.employees[e].spot.value].site;
      var want := Wanted(d, s, BenefitDays(d, s), Some(e));
      AddedRows(gone, d', Claims(gone, want));
      AddedAreWanted(gone, d', want);
      NewRowsAreNew(d, d', gone, e);
      forall b | b in FutureAuto(d', e) ensures Some(b.slot.spot) == d.employees[e].spot {
        assert b !in gone.bookings;
      }
    } else {
      BenefitFrame(d, d', e, n);
      assert FutureAuto(d', e) == {};
      assert d'.bookings - d.bookings == {};
    }
  }

  lemma AddedRows(d: Db, d': Db, slots: set<Slot>)
    requires Adds(d, d', slots, AUTO)
    ensures |d'.bookings - d.bookings| == |slots|
    ensures forall b <- d'.bookings - d.bookings :: d.nextId <= b.id
  {
  }

  lemma NewRowsAreNew(d: Db, d': Db, gone: Db, e: EmployeeId)
    requires gone.bookings <= d.bookings && (forall b <- d.bookings :: b.id < d.nextId)
    requires forall b <- d'.bookings - gone.bookings :: d.nextId <= b.id
    ensures d'.bookings - d.bookings == d'.bookings - gone.bookings
  {
  }

  // ---------------------------------------------------------------- at most MAX_ACTIVE

  /** Counted from any date that no site's today is after, the person's bookings are MAX_ACTIVE or fewer. */
  ghost predicate WithinLimit(d: Db, e: EmployeeId) {
    forall t :: (forall s <- d.sites :: d.sites[s].today <= t) ==> |ActiveOf(d.bookings, e, t)| <= MAX_ACTIVE
  }

  ghost predicate NotManager(d: Db, e: EmployeeId) {
    e in d.employees ==> d.employees[e].role != MANAGER
  }

  lemma BookWithinLimit(d: Db, d': Db, e: EmployeeId, x: EmployeeId, date: int, s: SiteId, chosen: Option<SpotId>,
          r: BookResult)
    requires BookDone(d, d', x, date, s, chosen, r) && WithinLimit(d, e) && NotManager(d, e)
    ensures WithinLimit(d', e)
  {
    if r.Booked? {
      var row := Booking(d.nextId, Slot(s, r.spot, x, date), MANUAL);
      forall t | forall u <- d'.sites :: d'.sites[u].today <= t ensures |ActiveOf(d'.bookings, e, t)| <= MAX_ACTIVE {
        var before := ActiveOf(d.bookings, e, t);
        if x == e {
          SubsetSize(before, ActiveOf(d.bookings, e, d.sites[s].today));
          SubsetSize(ActiveOf(d'.bookings, e, t), before + {row});
        } else {
          assert ActiveOf(d'.bookings, e, t) == before;
        }
      }
    }
  }

  /** Steps that add no row of `e` keep the limit. */
  lemma NoNewRowKeepsLimit(d: Db, d': Db, e: EmployeeId)
    requires WithinLimit(d, e)
    requires forall b <- d'.bookings :: b in d.bookings || b.slot.employee != e
    requires forall s <- d.sites :: s in d'.sites && d.sites[s].today <= d'.sites[s].today
    ensures WithinLimit(d', e)
  {
    forall t | forall u <- d'.sites :: d'.sites[u].today <= t ensures |ActiveOf(d'.bookings, e, t)| <= MAX_ACTIVE {
      SubsetSize(ActiveOf(d'.bookings, e, t), ActiveOf(d.bookings, e, t));
      forall u | u in d.sites ensures d.sites[u].today <= t { assert d'.sites[u].today <= t; }
    }
  }

  lemma WeeklyAddsNoneOf(d: Db, d': Db, n: nat, e: EmployeeId)
    requires WeeklyDone(d, d', n) && NotManager(d, e)
    ensures forall b <- d'.bookings :: b in d.bookings || b.slot.employee != e
  {
    hide AllWeekly, Claims, Adds;
    AddedAreWanted(d, d', AllWeekly(d, d.sites.Keys));
  }

  lemma BenefitAddsNoneOf(d: Db, d': Db, op: Op, e: EmployeeId)
    requires Inv(d) && op.SetBenefit? && Step(d, op, d') && NotManager(d', e)
    ensures forall b <- d'.bookings :: b in d.bookings || b.slot.employee != e
    ensures d'.sites == d.sites
  {
    hide Claims, Adds, FutureAuto, BenefitDays, Wanted;
    var r :| BenefitSet(d, d', op.e, op.role, op.fixed, r);
    if d' != d {
      var fixed := if op.role == MANAGER then op.fixed else None;
      var set_ := d.(employees := d.employees[op.e := d.employees[op.e].(role := op.role, spot := fixed)]);
      var n: nat :| BenefitApplied(set_, d', op.e, n);
      BenefitFrame(set_, d', op.e, n);
      if Eligible(set_, op.e) {
        var s := d.spots[fixed.value].site;
        AddedAreWanted(set_.(bookings := set_.bookings - FutureAuto(set_, op.e)), d',
            Wanted(set_, s, BenefitDays(set_, s), Some(op.e)));
      }
    }
  }

  lemma StepKeepsLimit(d: Db, op: Op, d': Db, e: EmployeeId)
    requires Inv(d) && Step(d, op, d') && WithinLimit(d, e) && NotManager(d, e) && NotManager(d', e)
    ensures WithinLimit(d', e)
  {
    hide WithinLimit, WeeklyOver, BookDone, BenefitSet, Inv;
    match op
    case Weekly =>
      var n: nat :| WeeklyDone(d, d', n);
      WeeklyAddsNoneOf(d, d', n, e);
      assert d'.sites == d.sites by { WeeklySites(d, d', n); }
      NoNewRowKeepsLimit(d, d', e);
    case Book(x, date, s, chosen) =>
      var r :| BookDone(d, d', x, date, s, chosen, r);
      BookWithinLimit(d, d', e, x, date, s, chosen, r);
    case SetBenefit(x, role, f) =>
      BenefitAddsNoneOf(d, d', op, e);
      NoNewRowKeepsLimit(d, d', e);
    case _ =>
      OthersAddNoRow(d, op, d');
      NoNewRowKeepsLimit(d, d', e);
  }

  lemma OthersAddNoRow(d: Db, op: Op, d': Db)
    requires Step(d, op, d') && !op.Weekly? && !op.Book? && !op.SetBenefit?
    ensures d'.bookings <= d.bookings && forall s <- d.sites :: s in d'.sites && d.sites[s].today <= d'.sites[s].today
  {
    hide CodeUsed, WeeklyDone, BookDone, BenefitSet;
  }

  lemma WeeklySites(d: Db, d': Db, n: nat)
    requires WeeklyDone(d, d', n)
    ensures d'.sites == d.sites
  {
  }

  /** No run takes a person who was never a manager over the limit, counted from the latest today among the sites. */
  lemma {:induction false} LimitHolds(ds: seq<Db>, ops: seq<Op>, e: EmployeeId, i: nat)
    requires Run(ds, ops) && Inv(ds[0]) && WithinLimit(ds[0], e) && i < |ds|
    requires forall j :: 0 <= j <= i ==> NotManager(ds[j], e)
    ensures WithinLimit(ds[i], e)
  {
    hide Inv, Step, WithinLimit;
    if i > 0 {
      LimitHolds(ds, ops, e, i - 1);
      RunKeepsInv(ds, ops, i - 1);
      StepKeepsLimit(ds[i - 1], ops[i - 1], ds[i], e);
    }
  }

  // ---------------------------------------------------------------- counted from an earlier date

  /** Nobody is booked on a weekend. */
  ghost predicate OnWorkingDays(d: Db) {
    forall b <- d.bookings :: Weekday(b.slot.date) <= 5
  }

  lemma WantedAreWorking(d: Db, w: (EmployeeId, int))
    requires w in AllWeekly(d, d.sites.Keys) && forall s <- d.sites :: IsMonday(NextWeek(d, s))
    ensures Weekday(w.1) <= 5
  {
    hide ActiveSpots, Target, Eligible;
    var s :| s in d.sites.Keys && w in WeeklyWanted(d, s);
    WeekOfWorkingDay(NextWeek(d, s), w.1);
    WorkingExactly(NextWeek(d, s), w.1);
  }

  lemma WeeklyOnWorkingDays(d: Db, d': Db, n: nat)
    requires OnWorkingDays(d) && WeeklyDone(d, d', n)
    ensures OnWorkingDays(d')
  {
    var want := AllWeekly(d, d.sites.Keys);
    assert forall s <- d.sites :: IsMonday(NextWeek(d, s));
    hide AllWeekly, Claims, Adds, WeeksRecorded;
    AddedAreWanted(d, d', want);
    forall b | b in d'.bookings ensures Weekday(b.slot.date) <= 5 {
      if b !in d.bookings { WantedAreWorking(d, (b.slot.employee, b.slot.date)); }
    }
  }

  lemma BenefitDayIsWorking(d: Db, s: SiteId, date: int)
    requires s in d.sites && (forall k <- d.weeks :: IsMonday(k.1)) && date in BenefitDays(d, s)
    ensures Weekday(date) <= 5
  {
    var k :| k in d.weeks.Keys + {(s, Monday(d.sites[s].today))} && date in DaySet(Working(k.1)) && k.0 == s;
    WorkingExactly(k.1, date);
    assert date in Working(k.1);
  }

  lemma BenefitOnWorkingDays(d: Db, set_: Db, d': Db, x: EmployeeId, n: nat)
    requires OnWorkingDays(d) && set_ == d.(employees := set_.employees) && BenefitApplied(set_, d', x, n)
    requires (forall k <- d.weeks :: IsMonday(k.1)) && (forall p <- d.spots :: d.spots[p].site in d.sites)
    ensures OnWorkingDays(d')
  {
    BenefitFrame(set_, d', x, n);
    hide Claims, Adds, BenefitDays;
    if Eligible(set_, x) {
      var s := set_.spots[set_.employees[x].spot.value].site;
      AddedAreWanted(set_.(bookings := set_.bookings - FutureAuto(set_, x)), d',
          Wanted(set_, s, BenefitDays(set_, s), Some(x)));
      forall b | b in d'.bookings ensures Weekday(b.slot.date) <= 5 {
        if b !in d.bookings { BenefitDayIsWorking(set_, s, b.slot.date); }
      }
    }
  }

  lemma BookOnWorkingDays(d: Db, d': Db, e: EmployeeId, date: int, s: SiteId, chosen: Option<SpotId>, r: BookResult)
    requires OnWorkingDays(d) && BookDone(d, d', e, date, s, chosen, r)
    ensures OnWorkingDays(d')
  {
    if r.Booked? { BookableExactly(d.sites[s].today, date); }
    hide FreeSpot, NotAfter, Bookable;
  }

  lemma FewerOnWorkingDays(d: Db, op: Op, d': Db)
    requires OnWorkingDays(d) && Step(d, op, d') && !op.Weekly? && !op.SetBenefit? && !op.Book?
    ensures OnWorkingDays(d')
  {
    hide WeeklyDone, BenefitSet, BookDone, CodeUsed;
  }

  lemma StepOnWorkingDays(d: Db, op: Op, d': Db)
    requires Inv(d) && OnWorkingDays(d) && Step(d, op, d')
    ensures OnWorkingDays(d')
  {
    hide OnWorkingDays, WeeklyOver, BookDone, BenefitApplied, Placed, Handed, UniqueKeys, OneManagerPerSpot;
    match op
    case Weekly =>
      var n: nat :| WeeklyDone(d, d', n);
      WeeklyOnWorkingDays(d, d', n);
    case Book(x, date, s, chosen) =>
      var r :| BookDone(d, d', x, date, s, chosen, r);
      BookOnWorkingDays(d, d', x, date, s, chosen, r);
    case SetBenefit(x, role, f) =>
      var r :| BenefitSet(d, d', x, role, f, r);
      if d' != d {
        var fixed := if role == MANAGER then f else None;
        var set_ := d.(employees := d.employees[x := d.employees[x].(role := role, spot := fixed)]);
        var n: nat :| BenefitApplied(set_, d', x, n);
        BenefitOnWorkingDays(d, set_, d', x, n);
      }
    case _ =>
      FewerOnWorkingDays(d, op, d');
  }

  lemma {:induction false} RunOnWorkingDays(ds: seq<Db>, ops: seq<Op>, i: nat)
    requires Run(ds, ops) && Inv(ds[0]) && OnWorkingDays(ds[0]) && i < |ds|
    ensures OnWorkingDays(ds[i])
  {
    hide Inv, Step, OnWorkingDays;
    if i > 0 {
      RunOnWorkingDays(ds, ops, i - 1);
      RunKeepsInv(ds, ops, i - 1);
      StepOnWorkingDays(ds[i - 1], ops[i - 1], ds[i]);
    }
  }

  function WorkingFrom(t: int, until: int): set<int> {
    set x | t <= x < until && Weekday(x) <= 5
  }

  function DatesOf(rows: set<Booking>): set<int> {
    set b <- rows :: b.slot.date
  }

  lemma {:induction false} DistinctDates(rows: set<Booking>)
    requires forall b, c :: b in rows && c in rows && b.slot.date == c.slot.date ==> b == c
    ensures |DatesOf(rows)| == |rows|
  {
    if rows != {} {
      var b :| b in rows;
      DistinctDates(rows - {b});
      assert DatesOf(rows) == DatesOf(rows - {b}) + {b.slot.date};
    }
  }

  /** One booking per person and day: between two dates there are no more than working days. */
  lemma ActiveByDay(d: Db, e: EmployeeId, t: int, until: int)
    requires UniqueKeys(d.bookings) && OnWorkingDays(d)
    ensures |ActiveOf(d.bookings, e, t)| <= |ActiveOf(d.bookings, e, until)| + |WorkingFrom(t, until)|
  {
    var all, late := ActiveOf(d.bookings, e, t), ActiveOf(d.bookings, e, until);
    var early := set b <- all | b.slot.date < until;
    assert forall b, c :: b in early && c in early && b.slot.date == c.slot.date ==> b == c;
    assert forall b <- early :: b.slot.date in WorkingFrom(t, until);
    hide UniqueKeys, OnWorkingDays;
    assert all - early <= late;
    hide ActiveOf;
    OnePerDay(early, WorkingFrom(t, until));
    SubsetSize(early, all);
    SubsetSize(all - early, late);
  }

  lemma OnePerDay(rows: set<Booking>, days: set<int>)
    requires forall b, c :: b in rows && c in rows && b.slot.date == c.slot.date ==> b == c
    requires forall b <- rows :: b.slot.date in days
    ensures |rows| <= |days|
  {
    DistinctDates(rows);
    SubsetSize(DatesOf(rows), days);
  }

  /**
   * No run takes a person who was never a manager over the limit by more than the working days
   * between the date counted from and the latest today; counted from that today or later, not at all.
   */
  lemma LimitFromAnyDate(ds: seq<Db>, ops: seq<Op>, e: EmployeeId, i: nat, t: int, latest: int)
    requires Run(ds, ops) && Inv(ds[0]) && WithinLimit(ds[0], e) && OnWorkingDays(ds[0]) && i < |ds|
    requires forall j :: 0 <= j <= i ==> NotManager(ds[j], e)
    requires forall s <- ds[i].sites :: ds[i].sites[s].today <= latest
    ensures |ActiveOf(ds[i].bookings, e, t)| <= MAX_ACTIVE + |WorkingFrom(t, latest)|
    ensures t >= latest ==> WorkingFrom(t, latest) == {}
  {
    LimitHolds(ds, ops, e, i);
    RunKeepsInv(ds, ops, i);
    RunOnWorkingDays(ds, ops, i);
    assert UniqueKeys(ds[i].bookings);
    assert |ActiveOf(ds[i].bookings, e, latest)| <= MAX_ACTIVE;
    hide Inv, Step, OnWorkingDays, UniqueKeys, ActiveOf;
    ActiveByDay(ds[i], e, t, latest);
  }

  // ---------------------------------------------------------------- free spots, counted two ways

  function RowsAt(d: Db, s: SiteId, date: int): set<Booking> {
    set b <- d.bookings | b.slot.site == s && b.slot.date == date
  }

  /** Active spots of the site with no booking at the site on any of the dates (what the spot list marks free). */
  function FreeSpots(d: Db, s: SiteId, dates: set<int>): set<SpotId> {
    set p <- ActiveSpots(d, s) | forall b <- d.bookings ::
        !(b.slot.site == s && b.slot.date in dates && b.slot.spot == p)
  }

  function SpotsOf(rows: set<Booking>): set<SpotId> {
    set b <- rows :: b.slot.spot
  }

  lemma {:induction false} DistinctSpots(rows: set<Booking>)
    requires forall b, c :: b in rows && c in rows && b.slot.spot == c.slot.spot ==> b == c
    ensures |SpotsOf(rows)| == |rows|
  {
    if rows != {} {
      var b :| b in rows;
      DistinctSpots(rows - {b});
      assert SpotsOf(rows) == SpotsOf(rows - {b}) + {b.slot.spot};
    }
  }

  /** From today on, spots minus bookings is the number of free spots: never negative, in every reachable state. */
  lemma FreeCounts(d: Db, s: SiteId, date: int)
    requires Inv(d) && s in d.sites && d.sites[s].today <= date
    ensures |ActiveSpots(d, s)| - |RowsAt(d, s, date)| == |FreeSpots(d, s, {date})|
  {
    hide Handed, OneManagerPerSpot;
    var rows, spots := RowsAt(d, s, date), ActiveSpots(d, s);
    assert forall b, c :: b in rows && c in rows && b.slot.spot == c.slot.spot ==> b == c;
    hide UniqueKeys;
    assert forall b <- rows :: b.slot.spot in spots by {
      assert forall b <- d.bookings :: Placed(d, b);
    }
    hide Inv, Placed, ActiveSpots;
    DistinctSpots(rows);
    FreeAreTheRest(d, s, date);
    SubsetSize(SpotsOf(rows), spots);
  }

  lemma FreeAreTheRest(d: Db, s: SiteId, date: int)
    ensures FreeSpots(d, s, {date}) == ActiveSpots(d, s) - SpotsOf(RowsAt(d, s, date))
  {
    hide ActiveSpots;
  }

  // ---------------------------------------------------------------- one booking

  /**
   * `book` without a chosen spot succeeds exactly when the person has the benefit, the site is open,
   * the day is a working day whose window is open, the person is free that day and within the
   * limit, and some active spot of the site is free. Then nobody has a better free spot in the order:
   * not another manager's, the person's own, the code.
   */
  lemma BookSucceedsExactly(d: Db, d': Db, e: EmployeeId, date: int, s: SiteId, r: BookResult)
    requires BookDone(d, d', e, date, s, None, r)
    ensures r.Booked? <==>
              && HasBenefit(d, e) && SiteOpen(d, s)
              && Weekday(date) <= 5 && Monday(date) - 4 <= d.sites[s].today <= date
              && (forall b <- d.bookings :: !(b.slot.employee == e && b.slot.date == date))
              && (d.employees[e].role == USER ==> |ActiveOf(d.bookings, e, d.sites[s].today)| < MAX_ACTIVE)
              && (exists p <- ActiveSpots(d, s) :: forall b <- d.bookings :: !(b.slot.spot == p && b.slot.date == date))
    ensures r.Booked? ==>
        forall p <- ActiveSpots(d, s) :: (forall b <- d.bookings :: !(b.slot.spot == p && b.slot.date == date)) ==>
              r.spot in d.spots && NotAfter(d, e, r.spot, p)
    ensures r == Refused(PARKING_FULL) ==> forall p <- ActiveSpots(d, s) :: SpotTaken(d.bookings, p, date)
  {
    if SiteOpen(d, s) { BookableExactly(d.sites[s].today, date); }
    assert forall p <- d.spots :: FreeSpot(d, s, date, p) <==>
        p in ActiveSpots(d, s) && forall b <- d.bookings :: !(b.slot.spot == p && b.slot.date == date);
  }

  /** The order in which spots are offered is total and transitive, so "nobody is better" picks the first. */
  lemma OrderIsTotal(d: Db, e: EmployeeId, a: SpotId, b: SpotId, c: SpotId)
    requires a in d.spots && b in d.spots && c in d.spots && e in d.employees
    ensures NotAfter(d, e, a, b) || NotAfter(d, e, b, a)
    ensures NotAfter(d, e, a, b) && NotAfter(d, e, b, c) ==> NotAfter(d, e, a, c)
  {
    hide HeldByOther;
  }

  // ---------------------------------------------------------------- the limit and the sites' clocks

  /** The example's booking of day `k`, which is also its id. */
  function ExampleRow(k: nat): Booking {
    var s := if k == 4 then 0 else 1;
    Booking(k, Slot(s, s, 0, k), MANUAL)
  }

  /** Monday 5 January 1970 at site 0, already Tuesday at site 1; one person, booked from Monday to Thursday. */
  function ExampleDb(): Db {
    Db(map[0 := Site(true, 4), 1 := Site(true, 5)],
       map[0 := Spot(0, "A", 0, true), 1 := Spot(1, "B", 0, true)],
       map[0 := Employee(USER, None, false, true)],
       {ExampleRow(4), ExampleRow(5), ExampleRow(6), ExampleRow(7)},
       map[], 8)
  }

  lemma ExampleHolds()
    ensures Inv(ExampleDb())
    ensures forall b <- ExampleDb().bookings :: b == ExampleRow(b.id) && 4 <= b.id <= 7
    ensures !PersonTaken(ExampleDb().bookings, 0, 8) && !SpotTaken(ExampleDb().bookings, 1, 8)
  {
    var d := ExampleDb();
    assert forall b <- d.bookings :: b == ExampleRow(b.id) && 4 <= b.id <= 7;
    ExampleUnique();
    assert OneManagerPerSpot(d);
    hide UniqueKeys, OneManagerPerSpot, Placed, Handed;
    forall b | b in d.bookings ensures Placed(d, b) && Handed(d, b) {
      ExampleRowPlaced(b.id);
    }
  }

  lemma ExampleRowPlaced(k: nat)
    requires 4 <= k <= 7
    ensures Placed(ExampleDb(), ExampleRow(k)) && Handed(ExampleDb(), ExampleRow(k))
  {
  }

  lemma ExampleUnique()
    ensures UniqueKeys(ExampleDb().bookings)
  {
    assert forall b <- ExampleDb().bookings :: b == ExampleRow(b.id);
  }

  lemma ExampleWithinLimit()
    ensures WithinLimit(ExampleDb(), 0)
    ensures |ActiveOf(ExampleDb().bookings, 0, 5)| == 3
  {
    var d := ExampleDb();
    var three := {ExampleRow(5), ExampleRow(6), ExampleRow(7)};
    assert ActiveOf(d.bookings, 0, 5) == three;
    assert |three| == 3;
    forall t | forall s <- d.sites :: d.sites[s].today <= t ensures |ActiveOf(d.bookings, 0, t)| <= MAX_ACTIVE {
      assert d.sites[1].today <= t;
      SubsetSize(ActiveOf(d.bookings, 0, t), three);
    }
  }

  lemma ExampleAccepted(d: Db)
    requires 1 in d.sites && d.sites[1] == Site(true, 5) && 0 in d.employees
    requires d.employees[0] == Employee(USER, None, false, true)
    requires !PersonTaken(d.bookings, 0, 8) && |ActiveOf(d.bookings, 0, 5)| == 3
    ensures Refusal0(d, 0, 8, 1).None?
  {
    hide ActiveOf, PersonTaken;
    BookableExactly(5, 8);
    assert 8 in Bookable(5);
    hide Bookable;
  }

  lemma ExampleFreeSpot(d: Db)
    requires d.spots.Keys == {0, 1} && d.spots[0].site == 0 && d.spots[1].site == 1 && d.spots[1].active
    requires !SpotTaken(d.bookings, 1, 8)
    ensures forall p <- d.spots :: FreeSpot(d, 1, 8, p) <==> p == 1
  {
    hide SpotTaken;
  }

  lemma ExampleBooks(d: Db, d': Db)
    requires d == ExampleDb() && d' == d.(bookings := d.bookings + {ExampleRow(8)}, nextId := 9)
    ensures BookDone(d, d', 0, 8, 1, None, Booked(8, 8, 1))
  {
    hide Refusal0, FreeSpot, NotAfter;
    ExampleHolds();
    ExampleWithinLimit();
    assert ExampleRow(8) == Booking(8, Slot(1, 1, 0, 8), MANUAL);
    hide Inv, WithinLimit, ActiveOf, PersonTaken, SpotTaken, ExampleRow;
    ExampleAccepted(d);
    ExampleFreeSpot(d);
    OrderIsTotal(d, 0, 1, 1, 1);
    assert 1 in d.spots && FreeSpot(d, 1, 8, 1);
  }

  /**
   * The bound of `LimitFromAnyDate` is reached: where it is still Monday at one site and already
   * Tuesday at the other, the count from Monday, a working day, gets to one more than MAX_ACTIVE.
   */
  lemma EarlierDateSeesMore(d: Db, d': Db)
    requires d == ExampleDb() && d' == d.(bookings := d.bookings + {ExampleRow(8)}, nextId := 9)
    ensures Inv(d) && WithinLimit(d, 0)
    ensures Step(d, Book(0, 8, 1, None), d')
    ensures WorkingFrom(d'.sites[0].today, d'.sites[1].today) == {4}
    ensures |ActiveOf(d'.bookings, 0, d'.sites[0].today)| == MAX_ACTIVE
        + |WorkingFrom(d'.sites[0].today, d'.sites[1].today)|
  {
    hide Inv, WithinLimit, BookDone, WorkingFrom, ActiveOf, ExampleRow;
    ExampleHolds();
    ExampleWithinLimit();
    ExampleBooks(d, d');
    ExampleMonday();
    ExampleCount(d'.bookings);
  }

  lemma ExampleMonday()
    ensures WorkingFrom(4, 5) == {4}
  {
    assert Weekday(4) == 1;
  }

  lemma ExampleCount(rows: set<Booking>)
    requires rows == {ExampleRow(4), ExampleRow(5), ExampleRow(6), ExampleRow(7), ExampleRow(8)}
    ensures |ActiveOf(rows, 0, 4)| == 5
  {
    assert ActiveOf(rows, 0, 4) == rows;
  }
}
