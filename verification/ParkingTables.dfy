/**
 * The parking tables of one organisation and what each operation does to them, stated without the
 * code: which rows appear or go, and what is answered. Dates are day numbers (see ParkingRules).
 */
module ParkingTables {
  import opened Options
  import opened ParkingRules

  type SiteId = nat
  type SpotId = nat
  type EmployeeId = nat

  datatype Role = NONE | USER | MANAGER
  datatype Source = AUTO | MANUAL

  /** `today`: what the clock, seen through the site's time zone, gives for the date. */
  datatype Site = Site(active: bool, today: int)
  /** `rank` places the code in the collation order of codes; two codes may share a rank. */
  datatype Spot = Spot(site: SiteId, code: string, rank: int, active: bool)
  datatype Employee = Employee(role: Role, spot: Option<SpotId>, appOff: bool, active: bool)

  datatype Slot = Slot(site: SiteId, spot: SpotId, employee: EmployeeId, date: int)
  datatype Booking = Booking(id: nat, slot: Slot, source: Source)

  /** A week handed out at a site: the Monday, and how many bookings the weekly job made. */
  type Weeks = map<(SiteId, int), nat>

  datatype Db = Db(sites: map<SiteId, Site>, spots: map<SpotId, Spot>, employees: map<EmployeeId, Employee>,
                   bookings: set<Booking>, weeks: Weeks, nextId: nat)

  // ---------------------------------------------------------------- queries

  predicate SpotTaken(bookings: set<Booking>, spot: SpotId, date: int) {
    exists b <- bookings :: b.slot.spot == spot && b.slot.date == date
  }

  predicate PersonTaken(bookings: set<Booking>, e: EmployeeId, date: int) {
    exists b <- bookings :: b.slot.employee == e && b.slot.date == date
  }

  /** The person's bookings from a date on. */
  function ActiveOf(bookings: set<Booking>, e: EmployeeId, from: int): set<Booking> {
    set b <- bookings | b.slot.employee == e && from <= b.slot.date
  }

  predicate ActiveAt(d: Db, spot: SpotId, s: SiteId) {
    spot in d.spots && d.spots[spot].active && d.spots[spot].site == s
  }

  function ActiveSpots(d: Db, s: SiteId): set<SpotId> {
    set p <- d.spots | ActiveAt(d, p, s)
  }

  /** Some manager other than this person has the spot as theirs. */
  predicate HeldByOther(d: Db, e: EmployeeId, spot: SpotId) {
    exists m <- d.employees :: m != e && d.employees[m].role == MANAGER && d.employees[m].spot == Some(spot)
  }

  predicate SiteOpen(d: Db, s: SiteId) {
    s in d.sites && d.sites[s].active
  }

  predicate HasBenefit(d: Db, e: EmployeeId) {
    e in d.employees && d.employees[e].role != NONE && !d.employees[e].appOff
  }

  // ---------------------------------------------------------------- what always holds

  ghost predicate UniqueKeys(bookings: set<Booking>) {
    forall b, c :: b in bookings && c in bookings && b != c ==>
      && b.id != c.id
      && !(b.slot.spot == c.slot.spot && b.slot.date == c.slot.date)
      && !(b.slot.employee == c.slot.employee && b.slot.date == c.slot.date)
  }

  /** A booking refers to rows that exist, sits at its spot's site, and from today on its spot is active. */
  ghost predicate Placed(d: Db, b: Booking) {
    && b.id < d.nextId
    && b.slot.site in d.sites && b.slot.employee in d.employees && b.slot.spot in d.spots
    && d.spots[b.slot.spot].site == b.slot.site
    && (d.sites[b.slot.site].today <= b.slot.date ==> d.spots[b.slot.spot].active)
  }

  ghost predicate Recorded(d: Db, s: SiteId, date: int) {
    s in d.sites && ((s, Monday(date)) in d.weeks || Monday(date) <= Monday(d.sites[s].today))
  }

  /** A weekly booking is in a week already handed out (or begun), and from today on it is its holder's fixed spot. */
  ghost predicate Handed(d: Db, b: Booking) {
    b.source == AUTO ==>
      && Recorded(d, b.slot.site, b.slot.date)
      && (b.slot.site in d.sites && d.sites[b.slot.site].today <= b.slot.date ==>
            b.slot.employee in d.employees && d.employees[b.slot.employee].spot == Some(b.slot.spot))
  }

  /** Only managers hold a spot, it exists, and nobody else holds it. */
  ghost predicate OneManagerPerSpot(d: Db) {
    && (forall e <- d.employees :: d.employees[e].role == MANAGER <==> d.employees[e].spot.Some?)
    && (forall e <- d.employees :: d.employees[e].spot.Some? ==> d.employees[e].spot.value in d.spots)
    && (forall e, f :: e in d.employees && f in d.employees && e != f && d.employees[e].spot.Some? ==>
          d.employees[e].spot != d.employees[f].spot)
  }

  ghost predicate Inv(d: Db) {
    Base(d) && forall b <- d.bookings :: Handed(d, b)
  }

  /** All of it but the rule about weekly bookings, which does not hold while a benefit is being changed. */
  ghost predicate Base(d: Db) {
    && UniqueKeys(d.bookings)
    && (forall b <- d.bookings :: Placed(d, b))
    && (forall k <- d.weeks :: k.0 in d.sites && IsMonday(k.1))
    && (forall p <- d.spots :: d.spots[p].site in d.sites)
    && OneManagerPerSpot(d)
  }

  // ---------------------------------------------------------------- handing out managers' days

  /** The weekly job and a benefit change book for an active manager, with the app on, whose spot is active. */
  predicate Eligible(d: Db, e: EmployeeId) {
    && e in d.employees && d.employees[e].active && d.employees[e].role == MANAGER && !d.employees[e].appOff
    && d.employees[e].spot.Some? && d.employees[e].spot.value in d.spots && d.spots[d.employees[e].spot.value].active
  }

  function SlotFor(d: Db, e: EmployeeId, date: int): Slot
    requires Eligible(d, e)
  {
    Slot(d.spots[d.employees[e].spot.value].site, d.employees[e].spot.value, e, date)
  }

  predicate Free(d: Db, slot: Slot) {
    !SpotTaken(d.bookings, slot.spot, slot.date) && !PersonTaken(d.bookings, slot.employee, slot.date)
  }

  /** What those managers get of the wanted days: their spot, where neither it nor they are booked yet. */
  function Claims(d: Db, want: set<(EmployeeId, int)>): set<Slot> {
    set w <- want | Eligible(d, w.0) && Free(d, SlotFor(d, w.0, w.1)) :: SlotFor(d, w.0, w.1)
  }

  function SlotsOf(rows: set<Booking>): set<Slot> {
    set b <- rows :: b.slot
  }

  /** Exactly one row per slot, with ids in a range. */
  ghost predicate RowsFor(rows: set<Booking>, lo: nat, hi: nat, slots: set<Slot>, source: Source) {
    && (forall b <- rows :: b.source == source && lo <= b.id < hi)
    && SlotsOf(rows) == slots
    && Distinct(rows)
    && |rows| == |slots|
  }

  ghost predicate Distinct(rows: set<Booking>) {
    forall b, c :: b in rows && c in rows && b != c ==> b.slot != c.slot && b.id != c.id
  }

  /** The rows added are exactly one per slot, with new ids; no row goes. */
  ghost predicate Adds(d: Db, d': Db, slots: set<Slot>, source: Source) {
    && d.bookings <= d'.bookings && d'.nextId == d.nextId + |slots|
    && RowsFor(d'.bookings - d.bookings, d.nextId, d'.nextId, slots, source)
  }

  // ---------------------------------------------------------------- weekly

  function NextWeek(d: Db, s: SiteId): int
    requires s in d.sites
  {
    Monday(d.sites[s].today) + 7
  }

  /** Sites whose next week is not handed out yet: active, with an active spot, not recorded. */
  predicate Target(d: Db, s: SiteId) {
    SiteOpen(d, s) && ActiveSpots(d, s) != {} && (s, NextWeek(d, s)) !in d.weeks
  }

  function DaySet(days: seq<int>): set<int> {
    set i | 0 <= i < |days| :: days[i]
  }

  /** Every pair of an eligible manager of the site (`only` that one, if given) and one of the days. */
  function Wanted(d: Db, s: SiteId, days: set<int>, only: Option<EmployeeId>): set<(EmployeeId, int)> {
    set e <- d.employees, date <- days | Eligible(d, e) && d.spots[d.employees[e].spot.value].site == s
        && (only == None || only == Some(e)) :: (e, date)
  }

  function WeeklyWanted(d: Db, s: SiteId): set<(EmployeeId, int)> {
    if Target(d, s) then Wanted(d, s, DaySet(Working(NextWeek(d, s))), None) else {}
  }

  function AllWeekly(d: Db, sites: set<SiteId>): set<(EmployeeId, int)> {
    set s <- sites, w <- WeeklyWanted(d, s) :: w
  }

  ghost predicate WeeklyDone(d: Db, d': Db, booked: nat) {
    WeeklyOver(d, d', d.sites.Keys, booked)
  }

  /**
   * The weekly job after the given sites: their managers' days are booked and their weeks recorded,
   * nothing else changes.
   */
  ghost predicate WeeklyOver(d: Db, d': Db, sites: set<SiteId>, booked: nat)
    requires sites <= d.sites.Keys
  {
    var slots := Claims(d, AllWeekly(d, sites));
    && d' == d.(bookings := d'.bookings, weeks := d'.weeks, nextId := d'.nextId)
    && Adds(d, d', slots, AUTO)
    && booked == |slots|
    && WeeksRecorded(d, d'.weeks, sites)
  }

  /** The weeks on record stay, and those of the given sites join them, each with its number of bookings. */
  ghost predicate WeeksRecorded(d: Db, weeks: Weeks, sites: set<SiteId>)
    requires sites <= d.sites.Keys
  {
    && (forall k <- d.weeks :: k in weeks && weeks[k] == d.weeks[k])
    && (forall s <- sites :: Target(d, s) ==>
        (s, NextWeek(d, s)) in weeks && weeks[(s, NextWeek(d, s))] == |Claims(d, WeeklyWanted(d, s))|)
    && (forall k <- weeks :: k in d.weeks || (k.0 in sites && Target(d, k.0) && k.1 == NextWeek(d, k.0)))
  }

  // ---------------------------------------------------------------- a change of benefit

  /** The person's AUTO rows that are not past at their sites. */
  function FutureAuto(d: Db, e: EmployeeId): set<Booking> {
    set b <- d.bookings | b.slot.employee == e && b.source == AUTO && b.slot.site in d.sites
        && d.sites[b.slot.site].today <= b.slot.date
  }

  /** Monday to Friday of the current week and of the later weeks on record for the site, without what is past. */
  function BenefitDays(d: Db, s: SiteId): set<int>
    requires s in d.sites
  {
    var today := d.sites[s].today;
    set k <- d.weeks.Keys + {(s, Monday(today))}, date <- DaySet(Working(k.1)) | k.0 == s && Monday(today) <= k.1
        && today <= date :: date
  }

  /** The person's old weekly bookings go; an eligible manager gets the days already handed out. */
  ghost predicate BenefitApplied(d: Db, d': Db, e: EmployeeId, booked: nat) {
    var gone := d.(bookings := d.bookings - FutureAuto(d, e));
    && d' == d.(bookings := d'.bookings, nextId := d'.nextId)
    && (Eligible(d, e) && d.spots[d.employees[e].spot.value].site in d.sites ==>
          var s := d.spots[d.employees[e].spot.value].site;
          var slots := Claims(gone, Wanted(d, s, BenefitDays(d, s), Some(e)));
          Adds(gone, d', slots, AUTO) && booked == |slots|)
    && (!Eligible(d, e) ==> d' == gone && booked == 0)
  }

  // ---------------------------------------------------------------- one booking

  datatype Refusal = NO_PARKING | SITE_NOT_FOUND | PARKING_DAY_CLOSED | PARKING_ALREADY_BOOKED | PARKING_LIMIT
    | PARKING_SPOT_NOT_FOUND | PARKING_SPOT_TAKEN | PARKING_FULL

  datatype BookResult = Booked(id: nat, date: int, spot: SpotId) | Refused(code: Refusal)

  /** What is checked before looking for a spot, first failure first. */
  function Refusal0(d: Db, e: EmployeeId, date: int, s: SiteId): Option<Refusal> {
    if !HasBenefit(d, e) then Some(NO_PARKING)
    else if !SiteOpen(d, s) then Some(SITE_NOT_FOUND)
    else if date !in Bookable(d.sites[s].today) then Some(PARKING_DAY_CLOSED)
    else if PersonTaken(d.bookings, e, date) then Some(PARKING_ALREADY_BOOKED)
    else if d.employees[e].role == USER && |ActiveOf(d.bookings, e, d.sites[s].today)| >= MAX_ACTIVE
        then Some(PARKING_LIMIT)
    else None
  }

  ghost predicate FreeSpot(d: Db, s: SiteId, date: int, spot: SpotId) {
    ActiveAt(d, spot, s) && !SpotTaken(d.bookings, spot, date)
  }

  /** The order in which spots are offered: not another manager's first, then the person's own, then by code. */
  predicate NotAfter(d: Db, e: EmployeeId, a: SpotId, b: SpotId)
    requires a in d.spots && b in d.spots && e in d.employees
  {
    var heldA, heldB := HeldByOther(d, e, a), HeldByOther(d, e, b);
    if heldA != heldB then heldB else KeyNotAfter(d, e, a, b)
  }

  predicate KeyNotAfter(d: Db, e: EmployeeId, a: SpotId, b: SpotId)
    requires a in d.spots && b in d.spots && e in d.employees
  {
    var ownA, ownB := d.employees[e].spot == Some(a), d.employees[e].spot == Some(b);
    if ownA != ownB then ownA else d.spots[a].rank <= d.spots[b].rank
  }

  /**
   * The outcome of `book`: refused with the reason and no change, or one MANUAL row on the spot chosen
   * or on the best free one.
   */
  ghost predicate BookDone(d: Db, d': Db, e: EmployeeId, date: int, s: SiteId, chosen: Option<SpotId>, r: BookResult) {
    var early := Refusal0(d, e, date, s);
    && (r.Refused? ==> d' == d)
    && (early.Some? ==> r == Refused(early.value))
    && (early.None? && chosen.Some? ==>
          && (r.Booked? <==> FreeSpot(d, s, date, chosen.value))
          && (r.Booked? ==> r.spot == chosen.value)
          && (r.Refused? ==>
              r.code == if ActiveAt(d, chosen.value, s) then PARKING_SPOT_TAKEN else PARKING_SPOT_NOT_FOUND))
    && (early.None? && chosen.None? ==>
          && (r.Booked? <==> exists p <- d.spots :: FreeSpot(d, s, date, p))
          && (r.Booked? ==> FreeSpot(d, s, date, r.spot) && forall p <- d.spots :: FreeSpot(d, s, date, p) ==>
              NotAfter(d, e, r.spot, p))
          && (r.Refused? ==> r.code == PARKING_FULL))
    && (r.Booked? ==>
          && r.date == date && r.id == d.nextId
          && d' == d.(bookings := d.bookings + {Booking(d.nextId, Slot(s, r.spot, e, date), MANUAL)},
              nextId := d.nextId + 1))
  }

  // ---------------------------------------------------------------- the other operations

  /** The rows on a spot that are not past at its site: what switching it off deletes. */
  function OffRows(d: Db, p: SpotId): set<Booking>
    requires p in d.spots && d.spots[p].site in d.sites
  {
    set b <- d.bookings | b.slot.spot == p && d.sites[d.spots[p].site].today <= b.slot.date
  }

  function BookingsOf(d: Db, e: EmployeeId): set<Booking> {
    set b <- d.bookings | b.slot.employee == e
  }

  /** A booking is given back by its holder, or by the console (`who` absent), up to its day. */
  ghost predicate CancelDone(d: Db, d': Db, who: Option<EmployeeId>, id: nat, row: Option<Booking>) {
    && (row.Some? <==> exists b <- d.bookings :: Cancellable(d, who, id, b))
    && (row.Some? ==> Cancellable(d, who, id, row.value) && d' == d.(bookings := d.bookings - {row.value}))
    && (row.None? ==> d' == d)
  }

  ghost predicate Cancellable(d: Db, who: Option<EmployeeId>, id: nat, b: Booking) {
    && b in d.bookings && b.id == id && (who.Some? ==> b.slot.employee == who.value)
    && b.slot.site in d.sites && d.sites[b.slot.site].today <= b.slot.date
  }

  predicate CodeUsed(d: Db, s: SiteId, code: string, except: set<SpotId>) {
    exists p <- d.spots.Keys - except :: d.spots[p].site == s && d.spots[p].code == code
  }

  /**
   * Code and switch of a spot change, unless another spot of the site has the code; switched off, it
   * loses `OffRows`.
   */
  ghost predicate SpotUpdated(d: Db, d': Db, p: SpotId, spot: Spot, ok: bool) {
    && (ok <==> p in d.spots && (spot.code == d.spots[p].code || !CodeUsed(d, d.spots[p].site, spot.code, {p})))
    && (!ok ==> d' == d)
    && (ok ==>
          var changed := d.(spots := d.spots[p := spot.(site := d.spots[p].site)]);
          d' == if d.spots[p].active && !spot.active && d.spots[p].site in d.sites
                then changed.(bookings := d.bookings - OffRows(d, p)) else changed)
  }

  /** A spot goes only if no booking and no employee refers to it. */
  ghost predicate SpotDeleted(d: Db, d': Db, p: SpotId, ok: bool) {
    && (ok <==>
          && p in d.spots
          && (forall b <- d.bookings :: b.slot.spot != p)
          && (forall e <- d.employees :: d.employees[e].spot != Some(p)))
    && d' == if ok then d.(spots := d.spots - {p}) else d
  }

  /** Why the console refuses a benefit, first failure first. */
  datatype BenefitRefusal = EMPLOYEE_NOT_FOUND | SPOT_REQUIRED | SPOT_NOT_FOUND | SPOT_TAKEN

  function BenefitRefused(d: Db, e: EmployeeId, role: Role, spot: Option<SpotId>): Option<BenefitRefusal> {
    if e !in d.employees then Some(EMPLOYEE_NOT_FOUND)
    else if role != MANAGER then None
    else if spot.None? then Some(SPOT_REQUIRED)
    else if !(spot.value in d.spots && d.spots[spot.value].active) then Some(SPOT_NOT_FOUND)
    else if HeldByOther(d, e, spot.value) then Some(SPOT_TAKEN)
    else None
  }

  /** The console sets a benefit; if role or fixed spot changed, the weekly bookings follow. */
  ghost predicate BenefitSet(d: Db, d': Db, e: EmployeeId, role: Role, spot: Option<SpotId>,
          refused: Option<BenefitRefusal>) {
    && refused == BenefitRefused(d, e, role, spot)
    && (refused.Some? ==> d' == d)
    && (refused.None? ==>
          var fixed := if role == MANAGER then spot else None;
          var set_ := d.(employees := d.employees[e := d.employees[e].(role := role, spot := fixed)]);
          if d.employees[e].role == role && d.employees[e].spot == fixed then d' == d
          else BenefitFollows(set_, d', e))
  }

  ghost predicate BenefitFollows(d: Db, d': Db, e: EmployeeId) {
    exists n: nat :: BenefitApplied(d, d', e, n)
  }
}
