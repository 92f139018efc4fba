/**
 * What each operation of the parking does, said once more in the columns of the tables alone: which
 * rows join and go, and why a request is refused. The statements of ParkingTables are read here
 * against these, word by word, so that none rests on its own definitions.
 */
module ParkingLaws {
  import opened Calendar
  import opened Options
  import opened ParkingRules
  import opened ParkingTables
  import opened ParkingRuns
  import opened ParkingSteps
  import opened Sets

  // ---------------------------------------------------------------- the weekly job

  lemma NextWeekIs(d: Db, s: SiteId, monday: int)
    requires s in d.sites
    ensures monday == NextWeek(d, s) <==> Weekday(monday) == 1 && d.sites[s].today < monday <= d.sites[s].today + 7
  {
  }

  /**
   * The week that joins the record of a site is the one that begins on the only Monday of the seven
   * days after its today, as the source's text has it; it joins exactly at an active site with an
   * active spot.
   */
  lemma WeeklyRecords(d: Db, d': Db, n: nat, s: SiteId, monday: int)
    requires WeeklyDone(d, d', n) && s in d.sites
    requires Weekday(monday) == 1 && d.sites[s].today < monday <= d.sites[s].today + 7
    ensures (s, monday) in d'.weeks <==>
              || (s, monday) in d.weeks
              || (d.sites[s].active && exists p <- d.spots :: d.spots[p].site == s && d.spots[p].active)
    ensures forall k <- d'.weeks :: k.0 == s && k !in d.weeks ==> k.1 == monday
    ensures forall k <- d.weeks :: k in d'.weeks && d'.weeks[k] == d.weeks[k]
    ensures InRange(d.sites[s].today) ==> IsoDay(monday) == NextMonday(TodayAt(d.sites[s].today))
  {
    hide Adds, Claims, AllWeekly, Monday, Weekday, IsoDay, NextMonday, InRange;
    NextWeekIs(d, s, monday);
    assert ActiveSpots(d, s) != {} <==> exists p <- d.spots :: d.spots[p].site == s && d.spots[p].active by {
      if p :| p in d.spots && d.spots[p].site == s && d.spots[p].active {
        assert p in ActiveSpots(d, s);
      }
    }
    hide ActiveSpots;
    assert Target(d, s) <==> d.sites[s].active && ActiveSpots(d, s) != {} && (s, monday) !in d.weeks;
    if InRange(d.sites[s].today) { NextWeekText(d, s); }
  }

  lemma NextWeekText(d: Db, s: SiteId)
    requires s in d.sites && InRange(d.sites[s].today)
    ensures IsoDay(NextWeek(d, s)) == NextMonday(TodayAt(d.sites[s].today))
  {
    hide IsoDay, NextMonday, InRange, BookableDays, OpensOn, Texts, Bookable;
    BookableDaysAreDays(d.sites[s].today);
  }

  /** The person is an active manager with the app on, and this is their spot, active, at this site. */
  predicate Manages(d: Db, e: EmployeeId, p: SpotId, s: SiteId) {
    && e in d.employees && d.employees[e].active && d.employees[e].role == MANAGER && !d.employees[e].appOff
    && d.employees[e].spot == Some(p) && p in d.spots && d.spots[p].active && d.spots[p].site == s
  }

  predicate Clear(d: Db, e: EmployeeId, p: SpotId, date: int) {
    forall b <- d.bookings :: b.slot.date == date ==> b.slot.spot != p && b.slot.employee != e
  }

  /** The date is in the week after the site's, the site is active, and that week is not on record. */
  ghost predicate WeekOpens(d: Db, s: SiteId, date: int) {
    && s in d.sites && d.sites[s].active
    && exists monday :: (Weekday(monday) == 1 && d.sites[s].today < monday <= d.sites[s].today + 7
                         && (s, monday) !in d.weeks && monday <= date <= monday + 4)
  }

  /**
   * The weekly job adds a row for a person and a day exactly if the person manages a spot of a site
   * whose next week is being opened, the day is Monday to Friday of it, and neither is booked; it is
   * an AUTO row of that spot. No row goes, and the number returned is how many joined.
   */
  lemma WeeklyBooks(d: Db, d': Db, n: nat, e: EmployeeId, p: SpotId, s: SiteId, date: int)
    requires WeeklyDone(d, d', n)
    ensures d.bookings <= d'.bookings && n == |d'.bookings - d.bookings|
    ensures (exists b <- d'.bookings - d.bookings :: b.slot == Slot(s, p, e, date)) <==>
              Manages(d, e, p, s) && WeekOpens(d, s, date) && Clear(d, e, p, date)
    ensures forall b <- d'.bookings - d.bookings :: b.source == AUTO && d.nextId <= b.id
  {
    hide WeeksRecorded, Target, Manages, WeekOpens, Clear, AllWeekly;
    ClaimIs(d, AllWeekly(d, d.sites.Keys), e, p, s, date);
    assert (exists b <- d'.bookings - d.bookings :: b.slot == Slot(s, p, e, date)) <==>
        Slot(s, p, e, date) in Claims(d, AllWeekly(d, d.sites.Keys)) by { hide Claims; }
    hide Claims;
    if Manages(d, e, p, s) { WeeklyWants(d, e, p, s, date); }
  }

  lemma {:induction false} SlotCount(rows: set<Booking>)
    requires Distinct(rows)
    ensures |SlotsOf(rows)| == |rows|
  {
    if rows != {} {
      var b :| b in rows;
      SlotCount(rows - {b});
      assert SlotsOf(rows) == SlotsOf(rows - {b}) + {b.slot};
    }
  }

  /** The week on record says how many rows joined at the site. */
  lemma WeekCount(d: Db, d': Db, n: nat, s: SiteId, monday: int)
    requires WeeklyDone(d, d', n) && (s, monday) in d'.weeks && (s, monday) !in d.weeks
    ensures d'.weeks[(s, monday)] == |set b <- d'.bookings - d.bookings | b.slot.site == s|
  {
    var rows := set b <- d'.bookings - d.bookings | b.slot.site == s;
    hide Target, WeeklyWanted, AllWeekly, NextWeek;
    forall x: Slot ensures x in Claims(d, WeeklyWanted(d, s)) <==> x in SlotsOf(rows) {
      AtOneSite(d, s, x);
    }
    hide Claims;
    assert SlotsOf(rows) == Claims(d, WeeklyWanted(d, s));
    SlotCount(rows);
  }

  lemma AtOneSite(d: Db, s: SiteId, x: Slot)
    requires s in d.sites
    ensures x in Claims(d, WeeklyWanted(d, s)) <==> x in Claims(d, AllWeekly(d, d.sites.Keys)) && x.site == s
  {
    hide Manages, Clear, Target, Claims;
    ClaimIs(d, WeeklyWanted(d, s), x.employee, x.spot, x.site, x.date);
    ClaimIs(d, AllWeekly(d, d.sites.Keys), x.employee, x.spot, x.site, x.date);
    if Manages(d, x.employee, x.spot, x.site) { WantedAtOneSite(d, s, x.employee, x.spot, x.site, x.date); }
  }

  lemma WantedAtOneSite(d: Db, s: SiteId, e: EmployeeId, p: SpotId, at: SiteId, date: int)
    requires s in d.sites && Manages(d, e, p, at)
    ensures (e, date) in WeeklyWanted(d, s) <==> (e, date) in AllWeekly(d, d.sites.Keys) && at == s
  {
    hide Target, Working, DaySet, NextWeek;
    if (e, date) in AllWeekly(d, d.sites.Keys) && at == s {
      var x :| x in d.sites.Keys && (e, date) in WeeklyWanted(d, x);
    }
  }

  lemma ClaimIs(d: Db, want: set<(EmployeeId, int)>, e: EmployeeId, p: SpotId, s: SiteId, date: int)
    ensures Slot(s, p, e, date) in Claims(d, want) <==>
              Manages(d, e, p, s) && (e, date) in want && Clear(d, e, p, date)
  {
    if Manages(d, e, p, s) && (e, date) in want && Clear(d, e, p, date) {
      assert Eligible(d, (e, date).0) && SlotFor(d, e, date) == Slot(s, p, e, date);
    }
  }

  lemma WeeklyWants(d: Db, e: EmployeeId, p: SpotId, s: SiteId, date: int)
    requires Manages(d, e, p, s)
    ensures (e, date) in AllWeekly(d, d.sites.Keys) <==> WeekOpens(d, s, date)
  {
    hide Weekday, Monday;
    assert Eligible(d, e);
    if s in d.sites {
      NextWeekDays(d, s, date);
      NextWeekIs(d, s, NextWeek(d, s));
      forall monday ensures monday == NextWeek(d, s) <==>
          Weekday(monday) == 1 && d.sites[s].today < monday <= d.sites[s].today + 7 {
        NextWeekIs(d, s, monday);
      }
      hide NextWeek, Working, DaySet;
      assert d.sites[s].active ==> ActiveSpots(d, s) != {} by { assert p in ActiveSpots(d, s); }
      hide ActiveSpots;
      assert (e, date) in WeeklyWanted(d, s) <==> WeekOpens(d, s, date);
    }
    forall x | x in d.sites && (e, date) in WeeklyWanted(d, x) ensures x == s {
    }
  }

  lemma NextWeekDays(d: Db, s: SiteId, date: int)
    requires s in d.sites
    ensures date in DaySet(Working(NextWeek(d, s))) <==> NextWeek(d, s) <= date <= NextWeek(d, s) + 4
  {
    WorkingSet(NextWeek(d, s), date);
  }

  lemma WorkingSet(monday: int, date: int)
    ensures date in DaySet(Working(monday)) <==> monday <= date <= monday + 4
  {
    if monday <= date <= monday + 4 { assert Working(monday)[date - monday] == date; }
  }

  // ---------------------------------------------------------------- a change of benefit

  /** The date is not past and in the current week of the site or in a later one on record, Monday to Friday. */
  ghost predicate WeekIsOpen(d: Db, s: SiteId, date: int) {
    && s in d.sites && d.sites[s].today <= date
    && exists monday :: (Weekday(monday) == 1 && monday <= date <= monday + 4
                         && (d.sites[s].today < monday + 7)
                         && (monday <= d.sites[s].today || (s, monday) in d.weeks))
  }

  lemma WeekOrder(monday: int, t: int)
    ensures IsMonday(monday) <==> Weekday(monday) == 1
    ensures IsMonday(monday) ==> (Monday(t) <= monday <==> t < monday + 7)
    ensures Monday(t) == monday <==> Weekday(monday) == 1 && monday <= t < monday + 7
  {
  }

  lemma BenefitDaysAre(d: Db, s: SiteId, date: int)
    requires s in d.sites && forall k <- d.weeks :: IsMonday(k.1)
    ensures date in BenefitDays(d, s) <==> WeekIsOpen(d, s, date)
  {
    hide Working, DaySet, Monday, Weekday, IsMonday;
    var today := d.sites[s].today;
    WeekOrder(Monday(today), today);
    if date in BenefitDays(d, s) {
      var k :| k in d.weeks.Keys + {(s, Monday(today))} && date in DaySet(Working(k.1)) && k.0 == s
          && Monday(today) <= k.1 && today <= date;
      WorkingSet(k.1, date);
      WeekOrder(k.1, today);
    }
    if WeekIsOpen(d, s, date) {
      var monday :| Weekday(monday) == 1 && monday <= date <= monday + 4 && today < monday + 7
                    && (monday <= today || (s, monday) in d.weeks);
      WorkingSet(monday, date);
      WeekOrder(monday, today);
      var k := (s, monday);
      assert k in d.weeks.Keys + {(s, Monday(today))} && date in DaySet(Working(k.1));
    }
  }

  /** A weekly row of the person that is not past at its site. */
  predicate Future(d: Db, e: EmployeeId, b: Booking) {
    && b.slot.employee == e && b.source == AUTO
    && b.slot.site in d.sites && d.sites[b.slot.site].today <= b.slot.date
  }

  /**
   * After a change of benefit exactly the person's weekly rows that are not past are gone, and a new
   * one is there for each open day on which neither their spot nor they have a row left.
   */
  lemma BenefitRows(d: Db, d': Db, e: EmployeeId, n: nat, p: SpotId, s: SiteId, date: int)
    requires BenefitApplied(d, d', e, n) && (forall x <- d.spots :: d.spots[x].site in d.sites)
    requires (forall b <- d.bookings :: b.id < d.nextId) && (forall k <- d.weeks :: IsMonday(k.1))
    ensures forall b <- d.bookings :: b in d'.bookings <==> !Future(d, e, b)
    ensures (exists b <- d'.bookings - d.bookings :: b.slot == Slot(s, p, e, date)) <==>
              && Manages(d, e, p, s) && WeekIsOpen(d, s, date)
              && forall b <- d.bookings :: b.slot.date == date && (b.slot.spot == p || b.slot.employee == e) ==>
                  Future(d, e, b)
    ensures forall b <- d'.bookings - d.bookings :: b.slot.employee == e && b.source == AUTO
    ensures n == |d'.bookings - d.bookings|
  {
    BenefitEffects(d, d', e, n);
    var gone := d.(bookings := d.bookings - FutureAuto(d, e));
    assert forall b <- d.bookings :: b in gone.bookings <==> !Future(d, e, b);
    hide BenefitDays, WeekIsOpen, Future, IsMonday, FutureAuto, Wanted;
    if Eligible(d, e) {
      var want := Wanted(d, d.spots[d.employees[e].spot.value].site,
                         BenefitDays(d, d.spots[d.employees[e].spot.value].site), Some(e));
      AddedRows(gone, d', Claims(gone, want));
      NewRowsAreNew(d, d', gone, e);
      BenefitNewRow(d, gone, d', e, p, s, date);
    } else {
      BenefitFrame(d, d', e, n);
      assert d'.bookings - d.bookings == {};
    }
  }

  lemma BenefitNewRow(d: Db, gone: Db, d': Db, e: EmployeeId, p: SpotId, s: SiteId, date: int)
    requires Eligible(d, e) && d.spots[d.employees[e].spot.value].site in d.sites
    requires forall k <- d.weeks :: IsMonday(k.1)
    requires gone == d.(bookings := gone.bookings) && gone.bookings <= d.bookings
    requires forall b <- d.bookings :: b in gone.bookings <==> !Future(d, e, b)
    requires var own := d.spots[d.employees[e].spot.value].site;
             Adds(gone, d', Claims(gone, Wanted(d, own, BenefitDays(d, own), Some(e))), AUTO)
    ensures (exists b <- d'.bookings - gone.bookings :: b.slot == Slot(s, p, e, date)) <==>
              && Manages(d, e, p, s) && WeekIsOpen(d, s, date)
              && forall b <- d.bookings :: b.slot.date == date && (b.slot.spot == p || b.slot.employee == e) ==>
                  Future(d, e, b)
  {
    hide Future, WeekIsOpen, BenefitDays, IsMonday;
    var own := d.spots[d.employees[e].spot.value].site;
    var want := Wanted(d, own, BenefitDays(d, own), Some(e));
    BenefitDaysAre(d, own, date);
    assert (e, date) in want <==> WeekIsOpen(d, own, date);
    ClaimIs(gone, want, e, p, s, date);
    assert (exists b <- d'.bookings - gone.bookings :: b.slot == Slot(s, p, e, date)) <==>
        Slot(s, p, e, date) in Claims(gone, want) by { hide Claims; }
    hide Claims, Adds, Wanted, Eligible;
    assert Manages(gone, e, p, s) == Manages(d, e, p, s);
  }

  /**
   * The console refuses a benefit for an unknown person; for a manager without a spot, with a spot
   * that is unknown or off, or with one that another manager has; and for nothing else.
   */
  lemma BenefitRefusals(d: Db, d': Db, e: EmployeeId, role: Role, spot: Option<SpotId>, refused: Option<BenefitRefusal>)
    requires BenefitSet(d, d', e, role, spot, refused)
    ensures refused.Some? ==> d' == d
    ensures refused == Some(EMPLOYEE_NOT_FOUND) <==> e !in d.employees
    ensures refused == Some(SPOT_REQUIRED) <==> e in d.employees && role == MANAGER && spot == None
    ensures refused == Some(SPOT_NOT_FOUND) <==>
              e in d.employees && role == MANAGER && spot.Some?
                  && (spot.value in d.spots ==> !d.spots[spot.value].active)
    ensures refused == Some(SPOT_TAKEN) <==>
              && e in d.employees && role == MANAGER && spot.Some? && spot.value in d.spots
              && d.spots[spot.value].active
              && exists m <- d.employees :: m != e && d.employees[m].role == MANAGER && d.employees[m].spot == spot
    ensures refused == None ==> d'.employees == d.employees[e := d.employees[e].(
              role := role, spot := if role == MANAGER then spot else None)]
    ensures refused == None && d.employees[e].role == role
            && d.employees[e].spot == (if role == MANAGER then spot else None) ==>
              d' == d
  {
    hide Adds, Claims, Wanted, BenefitDays, FutureAuto;
    if refused == None {
      var fixed := if role == MANAGER then spot else None;
      var set_ := d.(employees := d.employees[e := d.employees[e].(role := role, spot := fixed)]);
      if !(d.employees[e].role == role && d.employees[e].spot == fixed) {
        var n: nat :| BenefitApplied(set_, d', e, n);
      } else {
        assert set_.employees == d.employees;
      }
    }
  }

  // ---------------------------------------------------------------- one booking

  /** The person has the benefit and the app, the site is open, and the day can be booked there now. */
  predicate Admissible(d: Db, e: EmployeeId, date: int, s: SiteId) {
    && e in d.employees && d.employees[e].role != NONE && !d.employees[e].appOff
    && s in d.sites && d.sites[s].active
    && Weekday(date) <= 5 && Monday(date) - 4 <= d.sites[s].today <= date
  }

  predicate HasRow(d: Db, e: EmployeeId, date: int) {
    exists b <- d.bookings :: b.slot.employee == e && b.slot.date == date
  }

  /** A standard user with four rows from the site's today on. */
  predicate AtLimit(d: Db, e: EmployeeId, s: SiteId)
    requires e in d.employees && s in d.sites
  {
    d.employees[e].role == USER && |set b <- d.bookings | b.slot.employee == e && b.slot.date >= d.sites[s].today| >= 4
  }

  predicate Vacant(d: Db, p: SpotId, s: SiteId, date: int) {
    && p in d.spots && d.spots[p].active && d.spots[p].site == s
    && forall b <- d.bookings :: !(b.slot.spot == p && b.slot.date == date)
  }

  predicate Others(d: Db, e: EmployeeId, p: SpotId) {
    exists m <- d.employees :: m != e && d.employees[m].role == MANAGER && d.employees[m].spot == Some(p)
  }

  lemma LimitCount(d: Db, e: EmployeeId, s: SiteId)
    requires e in d.employees && s in d.sites
    ensures AtLimit(d, e, s) <==>
        d.employees[e].role == USER && |ActiveOf(d.bookings, e, d.sites[s].today)| >= MAX_ACTIVE
  {
    assert ActiveOf(d.bookings, e, d.sites[s].today)
        == set b <- d.bookings | b.slot.employee == e && b.slot.date >= d.sites[s].today;
  }

  /** The refusals that come before a spot is looked for, each with its condition. */
  lemma EarlyRefusals(d: Db, e: EmployeeId, date: int, s: SiteId)
    ensures var r := Refusal0(d, e, date, s);
            && (r == Some(NO_PARKING) <==>
                  e in d.employees ==> d.employees[e].role == NONE || d.employees[e].appOff)
            && (r == Some(SITE_NOT_FOUND) <==>
                  && e in d.employees && d.employees[e].role != NONE && !d.employees[e].appOff
                  && (s in d.sites ==> !d.sites[s].active))
            && (r == Some(PARKING_DAY_CLOSED) <==>
                  && e in d.employees && d.employees[e].role != NONE && !d.employees[e].appOff
                  && s in d.sites && d.sites[s].active && !Admissible(d, e, date, s))
            && (r == Some(PARKING_ALREADY_BOOKED) <==> Admissible(d, e, date, s) && HasRow(d, e, date))
            && (r == Some(PARKING_LIMIT) <==> Admissible(d, e, date, s) && !HasRow(d, e, date) && AtLimit(d, e, s))
            && (r == None <==> Admissible(d, e, date, s) && !HasRow(d, e, date) && !AtLimit(d, e, s))
  {
    if s in d.sites { BookableExactly(d.sites[s].today, date); }
    if e in d.employees && s in d.sites { LimitCount(d, e, s); }
    hide AtLimit, ActiveOf, Bookable, Monday, Weekday;
  }

  /**
   * A booking that gets past these is for the spot asked for, if it is vacant, or else for a vacant
   * spot of the site if there is one; it is one MANUAL row, and a refusal changes nothing.
   */
  lemma BookOutcome(d: Db, d': Db, e: EmployeeId, date: int, s: SiteId, chosen: Option<SpotId>, r: BookResult)
    requires BookDone(d, d', e, date, s, chosen, r)
    ensures r.Refused? ==> d' == d
    ensures Refusal0(d, e, date, s).Some? ==> r == Refused(Refusal0(d, e, date, s).value)
    ensures Refusal0(d, e, date, s).None? && chosen.Some? ==>
              && (r.Booked? <==> Vacant(d, chosen.value, s, date)) && (r.Booked? ==> r.spot == chosen.value)
              && (r == Refused(PARKING_SPOT_TAKEN) <==>
                    && !Vacant(d, chosen.value, s, date)
                    && chosen.value in d.spots && d.spots[chosen.value].active && d.spots[chosen.value].site == s)
              && (r == Refused(PARKING_SPOT_NOT_FOUND) <==>
                    chosen.value in d.spots ==> !(d.spots[chosen.value].active && d.spots[chosen.value].site == s))
    ensures Refusal0(d, e, date, s).None? && chosen.None? ==>
              && (r.Booked? <==> exists p <- d.spots :: Vacant(d, p, s, date))
              && (r.Booked? ==> Vacant(d, r.spot, s, date)) && (r.Refused? ==> r == Refused(PARKING_FULL))
    ensures r.Booked? ==>
              && r.id == d.nextId && r.date == date
              && d'.bookings == d.bookings + {Booking(r.id, Slot(s, r.spot, e, date), MANUAL)}
              && d' == d.(bookings := d'.bookings, nextId := d.nextId + 1)
  {
    hide Refusal0, NotAfter;
    assert forall p :: FreeSpot(d, s, date, p) == Vacant(d, p, s, date);
    hide FreeSpot, Vacant;
  }

  /**
   * Which spot is given when none is asked for: the person's own, if it is vacant; one that another
   * manager has only if every vacant one is such; and of two that are alike in both, not one with a
   * later code.
   */
  lemma BookChoice(d: Db, d': Db, e: EmployeeId, date: int, s: SiteId, r: BookResult, p: SpotId)
    requires Inv(d) && BookDone(d, d', e, date, s, None, r) && r.Booked? && Vacant(d, p, s, date)
    ensures e in d.employees && r.spot in d.spots
    ensures d.employees[e].spot == Some(p) ==> r.spot == p
    ensures Others(d, e, r.spot) ==> Others(d, e, p)
    ensures d.employees[e].spot != Some(r.spot) && Others(d, e, r.spot) == Others(d, e, p) ==>
              d.spots[r.spot].rank <= d.spots[p].rank
  {
    assert FreeSpot(d, s, date, p) && e in d.employees;
    assert NotAfter(d, e, r.spot, p);
    assert Others(d, e, p) == HeldByOther(d, e, p) && Others(d, e, r.spot) == HeldByOther(d, e, r.spot);
    if d.employees[e].spot == Some(p) {
      assert !Others(d, e, p) by { assert OneManagerPerSpot(d); }
    }
    hide Others, HeldByOther, Inv, FreeSpot, Refusal0;
  }

  // ---------------------------------------------------------------- several days

  /** The refusals of a request for several days as a whole, each with its condition. */
  lemma UpFrontRefusals(d: Db, e: EmployeeId, s: SiteId, dates: seq<int>)
    ensures var r := RefusedUpFront(d, e, s, dates);
            && (r == Some(NO_PARKING) <==>
                  e in d.employees ==> d.employees[e].role == NONE || d.employees[e].appOff)
            && (r == Some(SITE_NOT_FOUND) <==>
                  && e in d.employees && d.employees[e].role != NONE && !d.employees[e].appOff
                  && (s in d.sites ==> !d.sites[s].active))
            && (r == Some(PARKING_LIMIT) <==>
                  && e in d.employees && d.employees[e].role == USER && !d.employees[e].appOff
                  && s in d.sites && d.sites[s].active
                  && |set b <- d.bookings | b.slot.employee == e && b.slot.date >= d.sites[s].today|
                     + |set date <- dates :: date| > 4)
            && (r == None || r == Some(NO_PARKING) || r == Some(SITE_NOT_FOUND) || r == Some(PARKING_LIMIT))
  {
    DistinctDatesOf(dates);
    if s in d.sites {
      assert ActiveOf(d.bookings, e, d.sites[s].today)
          == set b <- d.bookings | b.slot.employee == e && b.slot.date >= d.sites[s].today;
    }
    hide DaySet, ActiveOf;
  }

  lemma DistinctDatesOf(dates: seq<int>)
    ensures DaySet(dates) == set date <- dates :: date
  {
    forall x | x in dates ensures x in DaySet(dates) {
      var i :| 0 <= i < |dates| && dates[i] == x;
    }
    forall x | x in DaySet(dates) ensures x in set date <- dates :: date {
      assert x in dates;
    }
  }

  /** The tables that a request goes through differ from the first in rows of days already asked for only. */
  lemma {:induction false} OtherDaysUntouched(ds: seq<Db>, rs: seq<BookResult>, e: EmployeeId, s: SiteId,
          days: seq<int>,
          chosen: Option<SpotId>, date: int, i: nat)
    requires OneByOne(ds, rs, e, s, days, chosen) && i < |ds| && forall j :: 0 <= j < i ==> days[j] != date
    ensures ds[i] == ds[0].(bookings := ds[i].bookings, nextId := ds[i].nextId)
    ensures ds[0].bookings <= ds[i].bookings
    ensures forall b <- ds[i].bookings :: b.slot.date == date ==> b in ds[0].bookings
  {
    if i > 0 {
      OtherDaysUntouched(ds, rs, e, s, days, chosen, date, i - 1);
      assert BookDone(ds[i - 1], ds[i], e, days[i - 1], s, chosen, rs[i - 1]);
      BookOutcome(ds[i - 1], ds[i], e, days[i - 1], s, chosen, rs[i - 1]);
      hide BookDone, OneByOne;
    }
  }

  /**
   * Each day of a request is decided by the tables as they were before it, as if it had been asked
   * for alone: booked exactly if the day is open, the person has no row on it, and the spot asked
   * for, or some spot of the site, is vacant. That the limit is not the reason is `SplitsExactly`.
   */
  lemma EachDayOnItsOwn(ds: seq<Db>, rs: seq<BookResult>, e: EmployeeId, s: SiteId, days: seq<int>,
          chosen: Option<SpotId>, i: nat)
    requires OneByOne(ds, rs, e, s, days, chosen) && Increasing(days) && i < |days|
    requires rs[i] != Refused(PARKING_LIMIT)
    ensures rs[i].Booked? <==>
              && Admissible(ds[0], e, days[i], s) && !HasRow(ds[0], e, days[i])
              && (if chosen.Some? then Vacant(ds[0], chosen.value, s, days[i])
                  else exists p <- ds[0].spots :: Vacant(ds[0], p, s, days[i]))
    ensures rs[i].Booked? ==> rs[i].date == days[i] && Vacant(ds[0], rs[i].spot, s, days[i])
    ensures rs[i].Booked? && chosen.Some? ==> rs[i].spot == chosen.value
  {
    assert BookDone(ds[i], ds[i + 1], e, days[i], s, chosen, rs[i]);
    OtherDaysUntouched(ds, rs, e, s, days, chosen, days[i], i);
    BookOutcome(ds[i], ds[i + 1], e, days[i], s, chosen, rs[i]);
    EarlyRefusals(ds[i], e, days[i], s);
    hide BookDone, OneByOne, Refusal0, AtLimit, Increasing;
    assert Admissible(ds[i], e, days[i], s) == Admissible(ds[0], e, days[i], s);
    assert HasRow(ds[i], e, days[i]) == HasRow(ds[0], e, days[i]);
    assert forall p :: Vacant(ds[i], p, s, days[i]) == Vacant(ds[0], p, s, days[i]);
    hide Admissible, HasRow, Vacant;
  }

  /** A standard user has no more than four rows from today on after such a request either. */
  lemma ManyWithinLimit(d: Db, after: set<Booking>, e: EmployeeId, s: SiteId, dates: seq<int>, booked: seq<BookedDay>,
          failed: seq<(int, Refusal)>)
    requires RefusedUpFront(d, e, s, dates) == None && d.employees[e].role == USER
    requires SplitsExactly(d.bookings, after, e, s, booked, failed, DaySet(dates))
    ensures |set b <- after | b.slot.employee == e && b.slot.date >= d.sites[s].today| <= 4
  {
    var was := ActiveOf(d.bookings, e, d.sites[s].today);
    var now := set b <- after | b.slot.employee == e && b.slot.date >= d.sites[s].today;
    assert d.bookings <= after && |after| - |d.bookings| <= |DaySet(dates)|;
    assert now <= was + (after - d.bookings);
    hide ActiveOf, DaySet, SplitsExactly;
    SubsetSize(d.bookings, after);
    SubsetSize(now, was + (after - d.bookings));
  }

  // ---------------------------------------------------------------- what is shown

  /**
   * What is shown of a day: whether it can be booked now, how many spots of the site no row has that
   * day, and the person's row, wherever it is.
   */
  lemma ShownSays(d: Db, e: EmployeeId, s: SiteId, date: int, day: DayInfo)
    requires Inv(d) && s in d.sites && DayShown(d, e, s, date, day)
    ensures day.bookable <==> Weekday(date) <= 5 && Monday(date) - 4 <= d.sites[s].today <= date
    ensures day.free == |set p <- d.spots | Vacant(d, p, s, date)|
    ensures day.booking == None <==> !HasRow(d, e, date)
    ensures day.booking.Some? ==>
              day.booking.value in d.bookings && day.booking.value.slot.employee == e
                  && day.booking.value.slot.date == date
  {
    BookableExactly(d.sites[s].today, date);
    assert forall b <- d.bookings :: Placed(d, b);
    assert FreeSpots(d, s, {date}) == set p <- d.spots | Vacant(d, p, s, date);
  }

  // ---------------------------------------------------------------- giving back, and the spots

  /** A row goes exactly if it has the number, is the person's (or nobody is named), and is not past at its site. */
  lemma CancelTakes(d: Db, d': Db, who: Option<EmployeeId>, id: nat, row: Option<Booking>)
    requires UniqueKeys(d.bookings) && CancelDone(d, d', who, id, row)
    ensures forall b <- d.bookings :: b in d'.bookings <==>
              !(b.id == id && (who == None || who == Some(b.slot.employee))
                && b.slot.site in d.sites && b.slot.date >= d.sites[b.slot.site].today)
    ensures d' == d.(bookings := d'.bookings) && d'.bookings <= d.bookings
  {
    if row.Some? {
      forall b | b in d.bookings && Cancellable(d, who, id, b) ensures b == row.value {
      }
    } else {
      assert forall b <- d.bookings :: !Cancellable(d, who, id, b);
    }
  }

  /**
   * A spot may be given the code of no other spot of its site; if it is switched off, the rows on it
   * that are not past at its site go, and no other row does.
   */
  lemma SpotChange(d: Db, d': Db, p: SpotId, spot: Spot, ok: bool)
    requires Inv(d) && SpotUpdated(d, d', p, spot, ok)
    ensures ok <==>
              && p in d.spots
              && (forall q <- d.spots ::
                  q != p && d.spots[q].site == d.spots[p].site && d.spots[q].code == spot.code ==>
                    spot.code == d.spots[p].code)
    ensures !ok ==> d' == d
    ensures ok ==>
              && d'.spots == d.spots[p := Spot(d.spots[p].site, spot.code, spot.rank, spot.active)]
              && d'.bookings <= d.bookings
              && d' == d.(spots := d'.spots, bookings := d'.bookings)
              && forall b <- d.bookings :: b in d'.bookings <==>
                   !(d.spots[p].active && !spot.active && b.slot.spot == p
                       && b.slot.date >= d.sites[d.spots[p].site].today)
  {
  }

  /** Only a spot that no row and no person refers to can be deleted. */
  lemma SpotDeletion(d: Db, d': Db, p: SpotId, ok: bool)
    requires SpotDeleted(d, d', p, ok)
    ensures ok <==>
              && p in d.spots
              && !(exists b <- d.bookings :: b.slot.spot == p)
              && !(exists e <- d.employees :: d.employees[e].spot == Some(p))
    ensures d'.spots.Keys == if ok then d.spots.Keys - {p} else d.spots.Keys
    ensures forall q <- d'.spots :: d'.spots[q] == d.spots[q]
    ensures d' == d.(spots := d'.spots)
  {
  }

  /** No two spots of a site ever have the same code. */
  ghost predicate OneSpotPerCode(d: Db) {
    forall p, q ::
        p in d.spots && q in d.spots && d.spots[p].site == d.spots[q].site && d.spots[p].code == d.spots[q].code ==>
      p == q
  }

  lemma StepKeepsCodes(d: Db, op: Op, d': Db)
    requires OneSpotPerCode(d) && Step(d, op, d')
    ensures OneSpotPerCode(d')
  {
    hide WeeklyOver, BookDone, CancelDone, Adds, Claims, Wanted, FutureAuto;
    match op
    case UpdateSpot(p, spot) =>
      var ok :| SpotUpdated(d, d', p, spot, ok);
    case AddSpot(p, spot) =>
    case Weekly =>
      var n: nat :| WeeklyDone(d, d', n);
      WeeklyFrame(d, d', n);
    case Book(x, date, s, chosen) =>
      var r :| BookDone(d, d', x, date, s, chosen, r);
      BookFrame(d, d', x, date, s, chosen, r);
    case Cancel(who, id) =>
      var row :| CancelDone(d, d', who, id, row);
      CancelShrinks(d, d', who, id, row);
    case _ =>
  }

  lemma WeeklyFrame(d: Db, d': Db, n: nat)
    requires WeeklyDone(d, d', n)
    ensures d'.spots == d.spots
  {
  }

  lemma BookFrame(d: Db, d': Db, e: EmployeeId, date: int, s: SiteId, chosen: Option<SpotId>, r: BookResult)
    requires BookDone(d, d', e, date, s, chosen, r)
    ensures d'.spots == d.spots
  {
    hide Refusal0, FreeSpot, NotAfter;
  }

  lemma {:induction false} CodesStayUnique(ds: seq<Db>, ops: seq<Op>, i: nat)
    requires Run(ds, ops) && OneSpotPerCode(ds[0]) && i < |ds|
    ensures OneSpotPerCode(ds[i])
  {
    hide Step, OneSpotPerCode;
    if i > 0 {
      CodesStayUnique(ds, ops, i - 1);
      StepKeepsCodes(ds[i - 1], ops[i - 1], ds[i]);
    }
  }
}
