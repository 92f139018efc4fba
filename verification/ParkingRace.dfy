/**
 * One booking while others write to the same table: between any two accesses of the call the
 * bookings may change in any way that keeps the two unique keys. What each answer then means.
 */
module ParkingRace {
  import opened Options
  import opened ParkingRules
  import opened ParkingTables

  /** At one of the moments at which the call looked, the spot was booked for the day. */
  ghost predicate SpotSeen(moments: seq<set<Booking>>, spot: SpotId, date: int) {
    exists m <- moments :: SpotTaken(m, spot, date)
  }

  ghost predicate PersonSeen(moments: seq<set<Booking>>, e: EmployeeId, date: int) {
    exists m <- moments :: PersonTaken(m, e, date)
  }

  ghost predicate LimitSeen(moments: seq<set<Booking>>, e: EmployeeId, from: int) {
    exists m <- moments :: |ActiveOf(m, e, from)| >= MAX_ACTIVE
  }

  /** What each answer of `book` says about the moments of the call. */
  ghost predicate Explained(d: Db, moments: seq<set<Booking>>, e: EmployeeId, date: int, s: SiteId,
          chosen: Option<SpotId>, r: BookResult) {
    var closed := Refusal0(d.(bookings := {}), e, date, s); // what does not depend on the bookings
    if closed.Some? then r == Refused(closed.value)
    else
      && (r.Booked? ==> r.date == date && ActiveAt(d, r.spot, s) && (chosen.Some? ==> r.spot == chosen.value))
      && (r.Refused? ==>
            match r.code
            case PARKING_ALREADY_BOOKED => PersonSeen(moments, e, date)
            case PARKING_LIMIT => d.employees[e].role == USER && LimitSeen(moments, e, d.sites[s].today)
            case PARKING_SPOT_NOT_FOUND => chosen.Some? && !ActiveAt(d, chosen.value, s)
            case PARKING_SPOT_TAKEN => chosen.Some? && ActiveAt(d, chosen.value, s)
                && (SpotSeen(moments, chosen.value, date) || PersonSeen(moments, e, date))
            case PARKING_FULL => chosen.None? && forall p :: ActiveAt(d, p, s) ==>
                SpotSeen(moments, p, date) || PersonSeen(moments, e, date)
            case _ => false)
  }

  lemma SeenLater(moments: seq<set<Booking>>, more: seq<set<Booking>>)
    requires moments <= more
    ensures forall p, x :: SpotSeen(moments, p, x) ==> SpotSeen(more, p, x)
    ensures forall e, x :: PersonSeen(moments, e, x) ==> PersonSeen(more, e, x)
  {
    assert forall m <- moments :: m in more;
  }

  lemma SeenNow(moments: seq<set<Booking>>, e: EmployeeId, spot: SpotId, date: int)
    requires moments != []
    ensures SpotTaken(moments[|moments| - 1], spot, date) ==> SpotSeen(moments, spot, date)
    ensures PersonTaken(moments[|moments| - 1], e, date) ==> PersonSeen(moments, e, date)
  {
    assert moments[|moments| - 1] in moments;
  }

  /** The row was added to a table in which neither its spot nor its person was booked that day. */
  ghost predicate Written(d: Db, moments: seq<set<Booking>>, rows: set<Booking>, slot: Slot, id: nat) {
    && moments != [] && Free(d.(bookings := moments[|moments| - 1]), slot)
    && rows == moments[|moments| - 1] + {Booking(id, slot, MANUAL)}
  }

  function TakenSpots(rows: set<Booking>, s: SiteId, date: int): set<SpotId> {
    set b <- rows | b.slot.site == s && b.slot.date == date :: b.slot.spot
  }

  lemma SeenTaken(moments: seq<set<Booking>>, rows: set<Booking>, s: SiteId, date: int)
    requires rows in moments
    ensures forall p <- TakenSpots(rows, s, date) :: SpotSeen(moments, p, date)
  {
  }

  /**
   * The spot booked is the first of the order that was not passed over, each of those having been seen
   * booked (or the person).
   */
  ghost predicate FirstNotSeen(moments: seq<set<Booking>>, e: EmployeeId, date: int, order: seq<SpotId>, spot: SpotId) {
    exists i :: 0 <= i < |order| && order[i] == spot && forall j :: 0 <= j < i ==>
        SpotSeen(moments, order[j], date) || PersonSeen(moments, e, date)
  }

  /** If nobody else writes during the call, a full answer means that every active spot is booked. */
  lemma CalmIsExact(d: Db, moments: seq<set<Booking>>, rows: set<Booking>, e: EmployeeId, date: int, s: SiteId,
          r: BookResult)
    requires Explained(d, moments, e, date, s, None, r) && r == Refused(PARKING_FULL)
    requires (forall m <- moments :: m == rows) && !PersonTaken(rows, e, date)
    ensures forall p :: ActiveAt(d, p, s) ==> SpotTaken(rows, p, date)
  {
  }

  class SharedBookings {
    var rows: set<Booking>
    var nextId: nat
    ghost var moments: seq<set<Booking>>

    ghost predicate Valid()
      reads this
    {
      UniqueKeys(rows) && forall b <- rows :: b.id < nextId
    }

    /** Anything the other requests do before this one's next access. */
    method Others()
      requires Valid()
      modifies this
      ensures Valid() && moments == old(moments) + [rows]
    {
      var change := *;
      if change {
        var rows', nextId' := *, *;
        if AllowedRows(rows', nextId') {
          rows, nextId := rows', nextId';
        }
      }
      moments := moments + [rows];
    }

    static predicate AllowedRows(rows: set<Booking>, nextId: nat) {
      && (forall b <- rows :: b.id < nextId)
      && (forall b <- rows, c <- rows :: b != c ==>
            && b.id != c.id
            && !(b.slot.spot == c.slot.spot && b.slot.date == c.slot.date)
            && !(b.slot.employee == c.slot.employee && b.slot.date == c.slot.date))
    }

    method Exists(e: EmployeeId, date: int) returns (found: bool)
      requires Valid()
      modifies this
      ensures Valid() && moments == old(moments) + [rows]
      ensures found == PersonTaken(rows, e, date)
    {
      Others();
      found := PersonTaken(rows, e, date);
    }

    /** The insert meets the table of its own moment: it fails on either key, or adds the row. */
    method Insert(slot: Slot) returns (ok: bool, id: nat)
      requires Valid()
      modifies this
      ensures Valid() && |moments| == |old(moments)| + 1 && moments[..|old(moments)|] == old(moments)
      ensures var now := moments[|old(moments)|];
              && (ok <==> !SpotTaken(now, slot.spot, slot.date) && !PersonTaken(now, slot.employee, slot.date))
              && rows == if ok then now + {Booking(id, slot, MANUAL)} else now
    {
      Others();
      ok, id := !SpotTaken(rows, slot.spot, slot.date) && !PersonTaken(rows, slot.employee, slot.date), nextId;
      if ok {
        rows := rows + {Booking(id, slot, MANUAL)};
        nextId := nextId + 1;
      }
    }

    /**
     * `book`, access by access. The sites, spots and employees are each read once, so `d` holds
     * what was read; `order` are the active spots of the site in the order offered. `moments`
     * collects the table as it was at each access.
     */
    method Book(d: Db, e: EmployeeId, date: int, s: SiteId, chosen: Option<SpotId>, order: seq<SpotId>)
      returns (r: BookResult)
      requires Valid() && forall p :: p in order <==> ActiveAt(d, p, s)
      modifies this
      ensures Valid() && Explained(d, moments, e, date, s, chosen, r)
      ensures r.Booked? ==> Written(d, moments, rows, Slot(s, r.spot, e, date), r.id)
      ensures r.Booked? && chosen.None? ==> FirstNotSeen(moments, e, date, order, r.spot)
      ensures r.Booked? ==> |moments| >= 2 && forall b <- moments[0] :: !(b.slot.employee == e && b.slot.date == date)
      ensures r.Booked? && e in d.employees && d.employees[e].role == USER && s in d.sites ==>
                |set b <- moments[1] | b.slot.employee == e && b.slot.date >= d.sites[s].today| < 4
    {
      moments := [];
      if !HasBenefit(d, e) { return Refused(NO_PARKING); }
      if !SiteOpen(d, s) { return Refused(SITE_NOT_FOUND); }
      var today := d.sites[s].today;
      if date !in Bookable(today) { return Refused(PARKING_DAY_CLOSED); }
      hide Bookable, HasBenefit, SiteOpen, UniqueKeys;
      var already := Exists(e, date);
      if already {
        SeenNow(moments, e, 0, date);
        return Refused(PARKING_ALREADY_BOOKED);
      }
      if d.employees[e].role == USER {
        Others();
        assert rows in moments;
        if |ActiveOf(rows, e, today)| >= MAX_ACTIVE { return Refused(PARKING_LIMIT); }
        assert ActiveOf(rows, e, today) == set b <- moments[1] | b.slot.employee == e && b.slot.date >= today;
      }
      r := Find(d, e, date, s, chosen, order);
    }

    method Find(d: Db, e: EmployeeId, date: int, s: SiteId, chosen: Option<SpotId>, order: seq<SpotId>)
      returns (r: BookResult)
      requires Valid() && forall p :: p in order <==> ActiveAt(d, p, s)
      requires Refusal0(d.(bookings := {}), e, date, s).None?
      modifies this
      ensures Valid() && Explained(d, moments, e, date, s, chosen, r)
      ensures r.Booked? ==> Written(d, moments, rows, Slot(s, r.spot, e, date), r.id)
      ensures r.Booked? && chosen.None? ==> FirstNotSeen(moments, e, date, order, r.spot)
      ensures old(moments) < moments
    {
      hide Refusal0, UniqueKeys, SpotTaken, PersonTaken, Written;
      Others();
      var taken := TakenSpots(rows, s, date);
      SeenTaken(moments, rows, s, date);
      var spots := order;
      if chosen.Some? {
        if chosen.value !in order { return Refused(PARKING_SPOT_NOT_FOUND); }
        if chosen.value in taken { return Refused(PARKING_SPOT_TAKEN); }
        spots := [chosen.value];
      }
      hide SpotSeen, PersonSeen, ActiveAt;
      for i := 0 to |spots|
        invariant Valid() && old(moments) < moments && forall p <- taken :: SpotSeen(moments, p, date)
        invariant chosen.Some? ==> i == 0
        invariant forall j :: 0 <= j < i ==> SpotSeen(moments, spots[j], date) || PersonSeen(moments, e, date)
      {
        assert ActiveAt(d, spots[i], s);
        if spots[i] in taken { continue; }
        ghost var before := moments;
        r := TryOne(d, e, date, s, spots[i]);
        SeenLater(before, moments);
        if r.Booked? && chosen.None? { assert order[i] == r.spot; }
        if r.Booked? || r.code == PARKING_ALREADY_BOOKED { return; }
        if chosen.Some? { return; }
      }
      r := Refused(PARKING_FULL);
    }

    /** One spot: written, or the person turns out to be booked, or somebody was faster. */
    method TryOne(d: Db, e: EmployeeId, date: int, s: SiteId, spot: SpotId) returns (r: BookResult)
      requires Valid()
      modifies this
      ensures Valid() && old(moments) <= moments
      ensures r == Refused(PARKING_ALREADY_BOOKED) || r == Refused(PARKING_SPOT_TAKEN)
          || (r.Booked? && r.spot == spot && r.date == date)
      ensures r.Booked? ==> Written(d, moments, rows, Slot(s, spot, e, date), r.id)
      ensures r == Refused(PARKING_ALREADY_BOOKED) ==> PersonSeen(moments, e, date)
      ensures r == Refused(PARKING_SPOT_TAKEN) ==> SpotSeen(moments, spot, date) || PersonSeen(moments, e, date)
    {
      hide UniqueKeys;
      var ok, id := Insert(Slot(s, spot, e, date));
      if ok { return Booked(id, date, spot); }
      SeenNow(moments, e, spot, date);
      ghost var before := moments;
      var already := Exists(e, date);
      SeenLater(before, moments);
      SeenNow(moments, e, spot, date);
      r := Refused(if already then PARKING_ALREADY_BOOKED else PARKING_SPOT_TAKEN);
    }
  }
}
