/**
 * The allocator itself: the tables as mutable fields, the loops of the source over them, each
 * operation proved against its statement in ParkingTables.
 */
module ParkingServices {
  import opened Options
  import opened ParkingRules
  import opened ParkingTables
  import opened ParkingRuns
  import opened ParkingSteps
  import opened Sets

  class ParkingService {
    var sites: map<SiteId, Site>
    var spots: map<SpotId, Spot>
    var employees: map<EmployeeId, Employee>
    var bookings: set<Booking>
    var weeks: Weeks
    var nextId: nat

    function Tables(): Db
      reads this
    {
      Db(sites, spots, employees, bookings, weeks, nextId)
    }

    /** An insert fails on either unique key: spot and day, or person and day. */
    method Insert(slot: Slot, source: Source) returns (ok: bool)
      modifies this`bookings, this`nextId
      ensures ok <==> Free(old(Tables()), slot)
      ensures ok ==> bookings == old(bookings) + {Booking(old(nextId), slot, source)} && nextId == old(nextId) + 1
      ensures !ok ==> bookings == old(bookings) && nextId == old(nextId)
    {
      ok := !SpotTaken(bookings, slot.spot, slot.date) && !PersonTaken(bookings, slot.employee, slot.date);
      if ok {
        bookings := bookings + {Booking(nextId, slot, source)};
        nextId := nextId + 1;
      }
    }

    /** Exactly the claims of the site's eligible managers on these days become rows, and are counted. */
    method BookManagers(s: SiteId, among: set<SpotId>, days: seq<int>, only: Option<EmployeeId>) returns (n: nat)
      requires Base(Tables())
      requires forall p <- among :: ActiveAt(Tables(), p, s)
      requires forall e <- employees ::
          Eligible(Tables(), e) && SlotFor(Tables(), e, 0).site == s && (only == None || only == Some(e)) ==>
                 employees[e].spot.value in among
      modifies this`bookings, this`nextId
      ensures Adds(old(Tables()), Tables(), Claims(old(Tables()), Wanted(old(Tables()), s, DaySet(days), only)), AUTO)
      ensures n == |Claims(old(Tables()), Wanted(old(Tables()), s, DaySet(days), only))|
    {
      ghost var d0 := Tables();
      assert forall b <- bookings :: b.id < nextId by { assert forall b <- bookings :: Placed(d0, b); }
      assert OneManagerPerSpot(d0);
      hide Adds, Claims, Free, OneManagerPerSpot, Pairs, Wanted, UniqueKeys, Placed, DaySet;
      var managers := ManagersAmong(Tables(), among, only);
      hide ManagersAmong, Eligible, Base;
      n := 0;
      var todo := managers;
      NothingClaimed(d0, managers, DaySet(days));
      while todo != {}
        invariant todo <= managers
        invariant Tables() == d0.(bookings := bookings, nextId := nextId) && forall b <- bookings :: b.id < nextId
        invariant Adds(d0, Tables(), Claims(d0, Pairs(managers - todo, DaySet(days))), AUTO)
        invariant n == |Claims(d0, Pairs(managers - todo, DaySet(days)))|
      {
        var m :| m in todo;
        FoundManager(d0, s, among, only, m);
        TakenOut(managers, todo, m);
        n := BookManager(d0, s, m, days, managers - todo, n);
        todo := todo - {m};
      }
      assert managers - todo == managers;
      SameClaims(d0, s, among, managers, DaySet(days), only);
    }

    /** The claims of one manager become rows; with the app off there are none. */
    method BookManager(ghost d0: Db, s: SiteId, m: EmployeeId, days: seq<int>, ghost done: set<EmployeeId>, n0: nat)
      returns (n: nat)
      requires OneManagerPerSpot(d0) && Tables() == d0.(bookings := bookings, nextId := nextId)
      requires forall b <- bookings :: b.id < nextId
      requires m in d0.employees
      requires if d0.employees[m].appOff then !Eligible(d0, m) else Eligible(d0, m) && SlotFor(d0, m, 0).site == s
      requires Adds(d0, Tables(), Claims(d0, Pairs(done, DaySet(days))), AUTO)
      requires n0 == |Claims(d0, Pairs(done, DaySet(days)))|
      modifies this`bookings, this`nextId
      ensures forall b <- bookings :: b.id < nextId
      ensures Adds(d0, Tables(), Claims(d0, Pairs(done + {m}, DaySet(days))), AUTO)
      ensures n == |Claims(d0, Pairs(done + {m}, DaySet(days)))|
    {
      hide Adds, Claims, OneManagerPerSpot, Free, Pairs, Eligible;
      if employees[m].appOff {
        IneligibleClaimsNothing(d0, done, m, DaySet(days));
        n := n0;
      } else {
        PairsOf(done, m, DaySet(days));
        n := BookDays(d0, s, m, days, done, n0);
      }
    }

    /** The inner loop: one manager, every day. */
    method BookDays(ghost d0: Db, s: SiteId, m: EmployeeId, days: seq<int>, ghost done: set<EmployeeId>, n0: nat)
      returns (n: nat)
      requires OneManagerPerSpot(d0) && Tables() == d0.(bookings := bookings, nextId := nextId)
      requires forall b <- bookings :: b.id < nextId
      requires Eligible(d0, m) && SlotFor(d0, m, 0).site == s
      requires Adds(d0, Tables(), Claims(d0, Pairs(done, DaySet(days))), AUTO)
      requires n0 == |Claims(d0, Pairs(done, DaySet(days)))|
      modifies this`bookings, this`nextId
      ensures forall b <- bookings :: b.id < nextId
      ensures Adds(d0, Tables(), Claims(d0, Pairs(done, DaySet(days)) + Pairs({m}, DaySet(days))), AUTO)
      ensures n == |Claims(d0, Pairs(done, DaySet(days)) + Pairs({m}, DaySet(days)))|
    {
      hide Adds, Claims, OneManagerPerSpot, Free, Pairs;
      n := n0;
      ghost var before := Pairs(done, DaySet(days));
      assert before + Pairs({m}, DaySet(days[..0])) == before by { NoPairs(m, days); }
      for i := 0 to |days|
        invariant Tables() == d0.(bookings := bookings, nextId := nextId)
        invariant forall b <- bookings :: b.id < nextId
        invariant Adds(d0, Tables(), Claims(d0, before + Pairs({m}, DaySet(days[..i]))), AUTO)
        invariant n == |Claims(d0, before + Pairs({m}, DaySet(days[..i])))|
      {
        ghost var d := Tables();
        ghost var want := before + Pairs({m}, DaySet(days[..i]));
        var ok := Insert(Slot(s, employees[m].spot.value, m, days[i]), AUTO);
        if ok { n := n + 1; }
        AfterInsert(d0, d, Tables(), want, m, days[i]);
        PairsOneMore(m, days, i);
        assert want + {(m, days[i])} == before + Pairs({m}, DaySet(days[..i + 1]));
      }
      assert days[..|days|] == days;
    }

    /**
     * Every target site gets the claims of its managers for the next week, and that week on record with
     * their number; no other table changes, and the total comes back.
     */
    method Weekly() returns (booked: nat)
      requires Inv(Tables())
      modifies this`bookings, this`nextId, this`weeks
      ensures WeeklyDone(old(Tables()), Tables(), booked)
      ensures Inv(Tables())
    {
      ghost var d0 := Tables();
      hide Inv, WeeklyOver, ActiveSpots;
      booked := 0;
      var todo := set s <- sites | sites[s].active && ActiveSpots(Tables(), s) != {};
      ghost var all := sites.Keys;
      assert forall s <- all - todo :: !Target(d0, s);
      hide Target;
      WeeklyStart(d0, all - todo);
      while todo != {}
        invariant todo <= all && Tables() == d0.(bookings := bookings, nextId := nextId, weeks := weeks)
        invariant WeeklyOver(d0, Tables(), all - todo, booked)
      {
        var s :| s in todo;
        TakenOut(all, todo, s);
        var n := WeeklySite(d0, s, all - todo, booked);
        booked := booked + n;
        todo := todo - {s};
      }
      assert all - todo == all;
      WeeklyKeepsInv(d0, Tables(), all, booked);
    }

    /** One site, in one transaction. */
    method WeeklySite(ghost d0: Db, s: SiteId, ghost done: set<SiteId>, ghost total: nat) returns (n: nat)
      requires Inv(d0) && done + {s} <= d0.sites.Keys && s !in done && SiteOpen(d0, s) && ActiveSpots(d0, s) != {}
      requires Tables() == d0.(bookings := bookings, nextId := nextId, weeks := weeks)
      requires WeeklyOver(d0, Tables(), done, total)
      modifies this`bookings, this`nextId, this`weeks
      ensures WeeklyOver(d0, Tables(), done + {s}, total + n)
    {
      hide WeeklyOver, Claims, Adds, Wanted;
      ghost var d := Tables();
      var monday := NextWeek(Tables(), s);
      WeekOnRecord(d0, d, done, s, total);
      if (s, monday) in weeks {
        n := 0;
        WeeklySiteSkipped(d0, d, done, s, total);
      } else {
        weeks := weeks[(s, monday) := 0];
        WeeklyKeepsInv(d0, d, done, total);
        hide Target, ActiveAt;
        WeekOpened(d, s, monday);
        var among := ActiveSpots(Tables(), s);
        ghost var begun := Tables();
        n := BookManagers(s, among, Working(monday), None);
        BookedOnceBegun(d, begun, Tables(), s, DaySet(Working(monday)));
        ghost var mid := Tables();
        weeks := weeks[(s, monday) := n];
        SameRows(d, mid, Tables(), Claims(d, Wanted(d, s, DaySet(Working(monday)), None)));
        WeeklySiteDone(d0, d, Tables(), done, s, total, n);
      }
    }

    // ---------------------------------------------------------------- a change of benefit

    /**
     * The AUTO rows of the person from each site's today on are deleted; if they are eligible, their
     * claims on `BenefitDays` become rows.
     */
    method BenefitChanged(e: EmployeeId) returns (n: nat)
      requires Base(Tables()) && e in employees
      modifies this`bookings, this`nextId
      ensures BenefitApplied(old(Tables()), Tables(), e, n)
    {
      ghost var d0 := Tables();
      hide UniqueKeys, OneManagerPerSpot, Adds, Claims, Wanted, BenefitDays;
      var future := set b <- bookings | b.slot.employee == e && b.source == AUTO && b.slot.site in sites
          && sites[b.slot.site].today <= b.slot.date;
      bookings := bookings - future;
      ghost var gone := Tables();
      BaseOfFewer(d0, gone);
      n := 0;
      if employees[e].role == MANAGER && employees[e].spot.Some? {
        var p := employees[e].spot.value;
        if p in spots && spots[p].active {
          var s := spots[p].site;
          var days := DaysHandedOut(s);
          n := BookManagers(s, {p}, days, Some(e));
          OnlyAnEligibleManager(d0, gone, Tables(), e, s, DaySet(days), n);
        }
      }
    }

    /** `BenefitDays` as a list without repetition. */
    method DaysHandedOut(s: SiteId) returns (days: seq<int>)
      requires s in sites
      ensures DaySet(days) == BenefitDays(Tables(), s)
      ensures forall i, j :: 0 <= i < j < |days| ==> days[i] != days[j]
    {
      var today := sites[s].today;
      var done := set k <- weeks | k.0 == s && Monday(today) <= k.1 :: k.1;
      var mondays := done + {Monday(today)};
      var todo := mondays;
      days := [];
      while todo != {}
        invariant todo <= mondays
        invariant forall x :: x in days <==> today <= x && exists m <- mondays - todo :: x in Working(m)
        invariant forall i, j :: 0 <= i < j < |days| ==> days[i] != days[j]
      {
        var monday :| monday in todo;
        ghost var before := days;
        ghost var seen := mondays - todo;
        var week := Working(monday);
        for i := 0 to |week|
          invariant forall x :: x in days <==> x in before || (today <= x && x in week[..i])
          invariant forall i, j :: 0 <= i < j < |days| ==> days[i] != days[j]
        {
          assert week[..i + 1] == week[..i] + [week[i]];
          if today <= week[i] && week[i] !in days {
            days := days + [week[i]];
          }
        }
        assert week[..|week|] == week;
        TakenOut(mondays, todo, monday);
        todo := todo - {monday};
        assert mondays - todo == seen + {monday};
      }
      assert mondays - todo == mondays;
      DaysAreBenefitDays(Tables(), s, mondays, days);
    }

    /**
     * Refused with the first reason of `BenefitRefused`; else role and spot are set and, if they
     * differ, the AUTO rows follow.
     */
    method SetBenefit(e: EmployeeId, role: Role, spot: Option<SpotId>) returns (refused: Option<BenefitRefusal>)
      requires Inv(Tables())
      modifies this`bookings, this`nextId, this`employees
      ensures BenefitSet(old(Tables()), Tables(), e, role, spot, refused)
      ensures Inv(Tables())
    {
      ghost var d0 := Tables();
      hide BenefitApplied, BenefitFollows, UniqueKeys, Placed, Handed;
      if e !in employees { return Some(EMPLOYEE_NOT_FOUND); }
      var before := employees[e];
      var fixed := if role == MANAGER then spot else None;
      if role == MANAGER && fixed.None? { return Some(SPOT_REQUIRED); }
      if fixed.Some? {
        if !(fixed.value in spots && spots[fixed.value].active) { return Some(BenefitRefusal.SPOT_NOT_FOUND); }
        if HeldByOther(Tables(), e, fixed.value) { return Some(BenefitRefusal.SPOT_TAKEN); }
      }
      employees := employees[e := before.(role := role, spot := fixed)];
      refused := None;
      if before.role != role || before.spot != fixed {
        ghost var set_ := Tables();
        assert set_ == d0.(employees := d0.employees[e := d0.employees[e].(role := role, spot := fixed)]);
        BaseWithBenefit(d0, set_, e, role, fixed);
        var n := BenefitChanged(e);
        BenefitKeepsInv(d0, set_, Tables(), e, role, fixed, n);
        FollowsWith(set_, Tables(), e, n);
      } else {
        assert employees == d0.employees;
        assert Tables() == d0;
      }
    }

    // ---------------------------------------------------------------- bookings

    /** The active spots of the site: the person's own first, then by code. */
    method SpotsInOrder(e: EmployeeId, s: SiteId) returns (list: seq<SpotId>)
      requires e in employees
      ensures forall p :: p in list <==> ActiveAt(Tables(), p, s)
      ensures SortedByKey(Tables(), e, list)
    {
      hide HeldByOther;
      var all := ActiveSpots(Tables(), s);
      var todo := all;
      list := [];
      while todo != {}
        invariant todo <= all
        invariant forall p :: p in list <==> p in all && p !in todo
        invariant forall p <- all :: p in spots
        invariant SortedByKey(Tables(), e, list)
      {
        var p :| p in todo;
        var i := 0;
        while i < |list| && KeyNotAfter(Tables(), e, list[i], p)
          invariant i <= |list| && p in spots && forall q <- list :: q in spots
          invariant forall j :: 0 <= j < i ==> KeyNotAfter(Tables(), e, list[j], p)
        {
          i := i + 1;
        }
        InsertedInOrder(Tables(), e, list, i, p);
        list := list[..i] + [p] + list[i..];
        todo := todo - {p};
      }
    }

    /**
     * One row joins, for the spot asked for or, without one, for a free spot that no free spot comes
     * before in the order `NotAfter`; or nothing changes and the first reason that applies is given.
     */
    method Book(e: EmployeeId, date: int, s: SiteId, chosen: Option<SpotId>) returns (r: BookResult)
      requires Inv(Tables())
      modifies this`bookings, this`nextId
      ensures BookDone(old(Tables()), Tables(), e, date, s, chosen, r)
      ensures Inv(Tables())
    {
      ghost var d0 := Tables();
      hide Inv;
      if !HasBenefit(Tables(), e) { return Refused(NO_PARKING); }
      if !SiteOpen(Tables(), s) { return Refused(SITE_NOT_FOUND); }
      var today := sites[s].today;
      if date !in Bookable(today) { return Refused(PARKING_DAY_CLOSED); }
      if PersonTaken(bookings, e, date) { return Refused(PARKING_ALREADY_BOOKED); }
      if employees[e].role == USER && |ActiveOf(bookings, e, today)| >= MAX_ACTIVE { return Refused(PARKING_LIMIT); }
      r := BookSpot(e, date, s, chosen);
      BookKeepsInv(d0, Tables(), e, date, s, chosen, r);
    }

    /** The second half of `Book`, once nothing speaks against the day. */
    method BookSpot(e: EmployeeId, date: int, s: SiteId, chosen: Option<SpotId>) returns (r: BookResult)
      requires Inv(Tables()) && Refusal0(Tables(), e, date, s).None?
      modifies this`bookings, this`nextId
      ensures BookDone(old(Tables()), Tables(), e, date, s, chosen, r)
    {
      hide Inv, Refusal0, SortedByKey, BookDone, ActiveAt, InOfferOrder;
      ghost var d0 := Tables();
      NothingAgainst(d0, e, date, s);
      var list := SpotsInOrder(e, s);
      var taken := set b <- bookings | b.slot.site == s && b.slot.date == date :: b.slot.spot;
      TakenAtSite(d0, s, date, taken);
      hide PersonTaken, SpotTaken;
      if chosen.Some? {
        if chosen.value !in list {
          r := Refused(Refusal.PARKING_SPOT_NOT_FOUND);
        } else if chosen.value in taken {
          r := Refused(Refusal.PARKING_SPOT_TAKEN);
        } else {
          r := TakeFirst(e, date, s, [chosen.value], taken);
        }
        ChosenDone(d0, Tables(), e, date, s, chosen.value, r);
      } else {
        var order := OthersLast(e, s, list);
        r := TakeFirst(e, date, s, order, taken);
        FirstFreeDone(d0, Tables(), e, date, s, order, r);
      }
    }

    /** The same spots in the order `NotAfter`: those held by other managers behind all the rest. */
    method OthersLast(e: EmployeeId, s: SiteId, list: seq<SpotId>) returns (order: seq<SpotId>)
      requires e in employees && (forall p :: p in list <==> ActiveAt(Tables(), p, s)) && SortedByKey(Tables(), e, list)
      ensures forall p :: p in order <==> ActiveAt(Tables(), p, s)
      ensures InOfferOrder(Tables(), e, order)
    {
      hide HeldByOther, KeyNotAfter;
      var managers := set m <- employees | m != e && employees[m].role == MANAGER && employees[m].spot.Some? ::
          employees[m].spot.value;
      HeldAre(Tables(), e, managers);
      assert forall p <- list :: p in spots;
      var first, last := [], [];
      for i := 0 to |list|
        invariant forall p :: p in first <==> p in list[..i] && !HeldByOther(Tables(), e, p)
        invariant forall p :: p in last <==> p in list[..i] && HeldByOther(Tables(), e, p)
        invariant SortedByKey(Tables(), e, first) && SortedByKey(Tables(), e, last)
      {
        assert list[..i + 1] == list[..i] + [list[i]];
        assert forall p <- list[..i] :: p in list && KeyNotAfter(Tables(), e, p, list[i]);
        assert forall q <- first + last :: q in list[..i];
        Appended(Tables(), e, first, list[i]);
        Appended(Tables(), e, last, list[i]);
        if list[i] in managers { last := last + [list[i]]; } else { first := first + [list[i]]; }
      }
      assert list[..|list|] == list;
      order := first + last;
      Joined(Tables(), e, first, last);
    }

    /** The first spot of the list that is not taken; calls run one at a time, so its insert succeeds. */
    method TakeFirst(e: EmployeeId, date: int, s: SiteId, order: seq<SpotId>, taken: set<SpotId>)
      returns (r: BookResult)
      requires !PersonTaken(bookings, e, date)
      requires forall p <- order :: ActiveAt(Tables(), p, s) && (p in taken <==> SpotTaken(bookings, p, date))
      modifies this`bookings, this`nextId
      ensures r == Refused(PARKING_FULL) || r.Booked?
      ensures r.Refused? <==> forall p <- order :: SpotTaken(old(bookings), p, date)
      ensures r.Refused? ==> bookings == old(bookings) && nextId == old(nextId)
      ensures r.Booked? ==> r.date == date && r.id == old(nextId)
      ensures r.Booked? ==> FreeSpot(old(Tables()), s, date, r.spot)
      ensures r.Booked? ==>
          exists i :: (0 <= i < |order| && order[i] == r.spot && forall j :: 0 <= j < i ==>
          SpotTaken(old(bookings), order[j], date))
      ensures r.Booked? ==>
          bookings == old(bookings) + {Booking(old(nextId), Slot(s, r.spot, e, date), MANUAL)}
          && nextId == old(nextId) + 1
    {
      hide SpotTaken, PersonTaken, ActiveAt;
      for i := 0 to |order|
        invariant bookings == old(bookings) && nextId == old(nextId)
        invariant forall j :: 0 <= j < i ==> SpotTaken(bookings, order[j], date)
      {
        if order[i] !in taken {
          r := Booked(nextId, date, order[i]);
          var ok := Insert(Slot(s, order[i], e, date), MANUAL);
          return;
        }
      }
      r := Refused(PARKING_FULL);
    }

    /** Deletes a row of `who`, or anybody's if `who` is absent, unless its day is past at its site. */
    method Cancel(who: Option<EmployeeId>, id: nat) returns (r: CancelResult)
      requires Inv(Tables())
      modifies this`bookings
      ensures CancelDone(old(Tables()), Tables(), who, id, if r.Cancelled? then Some(r.row) else None)
      ensures r == DayPast <==>
          exists b <- old(bookings) ::
          b.id == id && (who.Some? ==> b.slot.employee == who.value) && b.slot.date < sites[b.slot.site].today
      ensures Inv(Tables())
    {
      ghost var d0 := Tables();
      assert forall b <- bookings :: b.slot.site in sites by { assert forall b <- bookings :: Placed(d0, b); }
      assert UniqueKeys(bookings);
      hide Inv;
      if b :| b in bookings && b.id == id && (who.Some? ==> b.slot.employee == who.value) {
        if b.slot.date < sites[b.slot.site].today { return DayPast; }
        bookings := bookings - {b};
        r := Cancelled(b);
        FewerKeepInv(d0, Tables());
      } else {
        r := NotFound;
      }
    }

    /** `[...new Set(dates)].sort()`. */
    method DistinctDays(dates: seq<int>) returns (days: seq<int>)
      ensures DaySet(days) == DaySet(dates) && |days| == |DaySet(dates)|
      ensures Increasing(days)
    {
      hide DaySet;
      days := [];
      for i := 0 to |dates|
        invariant Increasing(days) && forall x :: x in days <==> x in dates[..i]
      {
        assert dates[..i + 1] == dates[..i] + [dates[i]];
        if dates[i] !in days {
          var j := 0;
          while j < |days| && days[j] < dates[i]
            invariant j <= |days| && forall k :: 0 <= k < j ==> days[k] < dates[i]
          {
            j := j + 1;
          }
          DayInserted(days, j, dates[i]);
          days := days[..j] + [dates[i]] + days[j..];
        }
      }
      assert dates[..|dates|] == dates && days[..|days|] == days;
      SameMembers(days, dates);
      IncreasingSize(days, |days|);
    }

    /**
     * All days are refused together exactly if `RefusedUpFront`; else each is booked as `Book` does,
     * the earliest first, and they are split between days with one new row each and days with a
     * reason, which is never the limit.
     */
    method BookMany(e: EmployeeId, s: SiteId, dates: seq<int>, chosen: Option<SpotId>)
      returns (r: ManyResult, ghost days: seq<int>, ghost ds: seq<Db>, ghost rs: seq<BookResult>)
      requires Inv(Tables())
      modifies this`bookings, this`nextId
      ensures Inv(Tables())
      ensures r.RefusedAll? <==> RefusedUpFront(old(Tables()), e, s, dates).Some?
      ensures r.RefusedAll? ==> Some(r.code) == RefusedUpFront(old(Tables()), e, s, dates) && Tables() == old(Tables())
      ensures r.Split? ==> SplitsExactly(old(bookings), bookings, e, s, r.booked, r.failed, DaySet(dates))
      ensures r.Split? ==> Increasing(days) && DaySet(days) == DaySet(dates)
      ensures r.Split? ==> OneByOne(ds, rs, e, s, days, chosen) && ds[0] == old(Tables()) && ds[|days|] == Tables()
      ensures r.Split? ==> |rs| == |days| && Sorted(rs, days, r.booked, r.failed)
    {
      hide Inv, BookDone, DaySet, ActiveOf, SplitsExactly, OneByOne, Sorted;
      days, ds, rs := [], [Tables()], [];
      r := RefusedAll(NO_PARKING);
      if !HasBenefit(Tables(), e) { return; }
      r := RefusedAll(SITE_NOT_FOUND);
      if !SiteOpen(Tables(), s) { return; }
      var list := DistinctDays(dates);
      var today := sites[s].today;
      r := RefusedAll(PARKING_LIMIT);
      if employees[e].role == USER && |ActiveOf(bookings, e, today)| + |list| > MAX_ACTIVE { return; }
      days := list;
      ghost var start := |ActiveOf(bookings, e, today)|;
      var booked: seq<BookedDay>, failed: seq<(int, Refusal)> := [], [];
      SplitNothing(bookings, e, s);
      NothingYet(ds, e, s, list, chosen);
      for i := 0 to |list|
        invariant |ds| == i + 1 && |rs| == i && ds[0] == old(Tables()) && ds[i] == Tables()
        invariant OneByOne(ds, rs, e, s, list[..i], chosen) && Sorted(rs, list[..i], booked, failed)
        invariant Inv(Tables()) && Tables() == old(Tables()).(bookings := bookings, nextId := nextId)
        invariant |booked| + |failed| == i
        invariant employees[e].role == USER ==> |ActiveOf(bookings, e, today)| <= start + |booked|
        invariant SplitsExactly(old(bookings), bookings, e, s, booked, failed, DaySet(list[..i]))
      {
        ghost var one;
        booked, failed, one := BookNext(e, s, list, i, chosen, booked, failed, old(bookings), rs);
        OneByOneMore(ds, rs, e, s, list, i, chosen, Tables(), one);
        ds, rs := ds + [Tables()], rs + [one];
      }
      assert list[..|list|] == list;
      r := Split(booked, failed);
    }

    /** `Book` for the next day, and the day joins one of the two lists. */
    method BookNext(e: EmployeeId, s: SiteId, days: seq<int>, i: nat, chosen: Option<SpotId>, booked: seq<BookedDay>,
            failed: seq<(int, Refusal)>, ghost before: set<Booking>, ghost rs: seq<BookResult>)
      returns (booked': seq<BookedDay>, failed': seq<(int, Refusal)>, ghost one: BookResult)
      requires Inv(Tables()) && e in employees && s in sites && i < |days| && Increasing(days)
      requires employees[e].role == USER ==> |ActiveOf(bookings, e, sites[s].today)| < MAX_ACTIVE
      requires SplitsExactly(before, bookings, e, s, booked, failed, DaySet(days[..i]))
      requires |rs| == i && Sorted(rs, days[..i], booked, failed)
      modifies this`bookings, this`nextId
      ensures Inv(Tables()) && |booked'| + |failed'| == |booked| + |failed| + 1
      ensures |ActiveOf(bookings, e, sites[s].today)| - |booked'| <=
          |ActiveOf(old(bookings), e, sites[s].today)| - |booked|
      ensures SplitsExactly(before, bookings, e, s, booked', failed', DaySet(days[..i + 1]))
      ensures BookDone(old(Tables()), Tables(), e, days[i], s, chosen, one)
      ensures Sorted(rs + [one], days[..i + 1], booked', failed')
    {
      hide Sorted;
      ghost var d := Tables();
      var answer := Book(e, days[i], s, chosen);
      one := answer;
      OneDayBooked(d, Tables(), e, days[i], s, chosen, one);
      assert one.Booked? ==> one.date == days[i];
      hide Inv, BookDone, SplitsExactly, ActiveOf, DaySet;
      SplitOneMore(before, d.bookings, bookings, e, s, booked, failed, days, i, one);
      SortedOneMore(rs, days, i, booked, failed, one);
      booked', failed' := booked, failed;
      if answer.Booked? {
        booked' := booked + [BookedDay(answer.id, days[i], answer.spot)];
      } else {
        failed' := failed + [(days[i], answer.code)];
      }
    }

    // ---------------------------------------------------------------- what is shown

    /** One entry for each working day up to Friday week that is not past, as `DayShown` says. */
    method Mine(e: EmployeeId, s: SiteId) returns (days: seq<DayInfo>)
      requires Inv(Tables()) && s in sites
      ensures forall i, j :: 0 <= i < j < |days| ==> days[i].date < days[j].date
      ensures forall x :: (exists i :: 0 <= i < |days| && days[i].date == x) <==> InTwoWeeks(sites[s].today, x)
      ensures forall i :: 0 <= i < |days| ==> DayShown(Tables(), e, s, days[i].date, days[i])
    {
      hide Working, Monday, Weekday, From, Inv, Bookable, FreeSpots;
      var today := sites[s].today;
      var dates := From(Working(Monday(today)) + Working(Monday(today) + 7), today);
      TwoWeeks(today, dates);
      days := ShowDays(e, s, dates);
      TwoWeeksShown(today, dates, days);
    }

    method ShowDays(e: EmployeeId, s: SiteId, dates: seq<int>) returns (days: seq<DayInfo>)
      requires Inv(Tables()) && s in sites && forall d <- dates :: sites[s].today <= d
      ensures |days| == |dates| && forall i :: 0 <= i < |days| ==> DayShown(Tables(), e, s, dates[i], days[i])
    {
      var window := Bookable(sites[s].today);
      var siteSpots := ActiveSpots(Tables(), s);
      hide Bookable, Inv;
      days := [];
      for i := 0 to |dates|
        invariant |days| == i
        invariant forall k :: 0 <= k < i ==> DayShown(Tables(), e, s, dates[k], days[k])
      {
        var date := dates[i];
        assert date in dates;
        var taken := RowsAt(Tables(), s, date);
        FreeCounts(Tables(), s, date);
        hide ActiveSpots, RowsAt, FreeSpots;
        var booking := None;
        if b :| b in bookings && b.slot.employee == e && b.slot.date == date {
          booking := Some(b);
        }
        days := days + [DayInfo(date, date in window, |siteSpots| - |taken|, booking)];
      }
    }

    /** The spots as `Listed` says, the fixed spot of the person marked. */
    method SpotList(e: EmployeeId, s: SiteId, dates: seq<int>) returns (list: seq<SpotInfo>)
      requires e in employees
      ensures Listed(Tables(), s, dates, list)
      ensures forall i <- list :: i.mine == (employees[e].spot == Some(i.id))
    {
      var order := SpotsByCode(s);
      var taken := set b <- bookings | b.slot.site == s && b.slot.date in DaySet(dates) :: b.slot.spot;
      FreeUnlessTaken(Tables(), s, dates, taken);
      hide ActiveAt, ActiveSpots, DaySet, FreeSpots, ByCode, Listed;
      list := [];
      for i := 0 to |order|
        invariant |list| == i && forall k :: 0 <= k < i ==>
                    list[k] == SpotInfo(order[k], employees[e].spot == Some(order[k]), order[k] !in taken)
      {
        list := list + [SpotInfo(order[i], employees[e].spot == Some(order[i]), order[i] !in taken)];
      }
      ListedFrom(Tables(), s, dates, order, taken, list);
    }

    /** The active spots of the site, sorted by code. */
    method SpotsByCode(s: SiteId) returns (list: seq<SpotId>)
      ensures forall p :: p in list <==> ActiveAt(Tables(), p, s)
      ensures ByCode(Tables(), list)
    {
      var all := ActiveSpots(Tables(), s);
      var todo := all;
      list := [];
      while todo != {}
        invariant todo <= all && forall p <- all :: p in spots
        invariant forall p :: p in list <==> p in all && p !in todo
        invariant ByCode(Tables(), list)
      {
        var p :| p in todo;
        var i := 0;
        while i < |list| && spots[list[i]].rank <= spots[p].rank
          invariant i <= |list| && p in spots && forall q <- list :: q in spots
          invariant forall j :: 0 <= j < i ==> spots[list[j]].rank <= spots[p].rank
        {
          i := i + 1;
        }
        InsertedByCode(Tables(), list, i, p);
        list := list[..i] + [p] + list[i..];
        todo := todo - {p};
      }
    }

    // ---------------------------------------------------------------- spots

    /** Exactly `OffRows` are deleted. */
    method SpotOff(p: SpotId)
      requires p in spots && spots[p].site in sites
      modifies this`bookings
      ensures bookings == old(bookings) - OffRows(old(Tables()), p)
    {
      var today := sites[spots[p].site].today;
      bookings := bookings - set b <- bookings | b.slot.spot == p && today <= b.slot.date;
    }

    /** The console changes a spot's code (with its rank) or its switch. */
    method UpdateSpot(p: SpotId, code: Option<(string, int)>, active: Option<bool>) returns (ok: bool)
      requires Inv(Tables())
      modifies this`spots, this`bookings
      ensures p !in old(spots) ==> !ok && Tables() == old(Tables())
      ensures p in old(spots) ==> SpotUpdated(old(Tables()), Tables(), p, Edited(old(spots)[p], code, active), ok)
      ensures Inv(Tables())
    {
      ghost var d0 := Tables();
      if p !in spots { return false; }
      var s := spots[p];
      if code.Some? && code.value.0 != s.code && CodeUsed(Tables(), s.site, code.value.0, {p}) { return false; }
      spots := spots[p := Edited(s, code, active)];
      if active == Some(false) && s.active {
        ghost var edited := Tables();
        SpotOff(p);
        assert OffRows(edited, p) == OffRows(d0, p);
      }
      ok := true;
      hide Inv;
      SpotKeepsInv(d0, Tables(), p, Edited(s, code, active), ok);
    }

    /** The spot is deleted exactly if no booking, past or not, and no employee refers to it. */
    method DeleteSpot(p: SpotId) returns (ok: bool)
      requires Inv(Tables())
      modifies this`spots
      ensures SpotDeleted(old(Tables()), Tables(), p, ok)
      ensures Inv(Tables())
    {
      ghost var d0 := Tables();
      if p !in spots { return false; }
      if exists b <- bookings :: b.slot.spot == p { return false; }
      if exists m <- employees :: employees[m].spot == Some(p) { return false; }
      spots := spots - {p};
      ok := true;
      hide Inv;
      assert SpotDeleted(d0, Tables(), p, ok);
      SpotStepsKeepInv(d0, Op.DeleteSpot(p), Tables());
    }
  }
}
