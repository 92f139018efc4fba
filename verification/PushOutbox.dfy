/** Push notices: a delivery is one person's, on all the devices they have by then, and is tried three times at most. */
module PushOutbox {
  import opened Options
  import opened Outbox

  type DeviceId = nat
  /** Which person each registered device belongs to. */
  type Devices = map<DeviceId, nat>

  datatype Result = OK | GONE | RETRY

  /** The pauses between tries, in minutes: one fewer than tries. */
  function Backoff(): seq<nat> {
    [1, 3]
  }

  lemma PausesPositive()
    ensures forall p <- Backoff() :: 1 <= p
  {
  }

  /** Tried again only if some device asks for it and none was reached. */
  predicate Again(devices: set<DeviceId>, answer: DeviceId -> Result) {
    (exists d <- devices :: answer(d) == RETRY) && (forall d <- devices :: answer(d) != OK)
  }

  // ---------------------------------------------------------------- one round

  /** What the devices answer to each notice. */
  type Answers = DeliveryId -> DeviceId -> Result

  function Of(devices: Devices, person: nat): set<DeviceId> {
    set d <- devices | devices[d] == person
  }

  lemma HasDevice(devices: Devices, person: nat)
    ensures Of(devices, person) != {} <==> exists d <- devices :: devices[d] == person
  {
    if d :| d in devices && devices[d] == person {
      assert d in Of(devices, person);
    }
  }

  function WithoutGone(devices: Devices, to: set<DeviceId>, answer: DeviceId -> Result): Devices {
    map d <- devices | d !in to || answer(d) != GONE :: devices[d]
  }

  /** A device was gone for one of the first `i` notices of its person. */
  ghost predicate WasGone(d: DeviceId, person: nat, ds: Deliveries, rows: seq<DeliveryId>, i: nat, answer: Answers)
    requires i <= |rows|
  {
    exists j :: 0 <= j < i && rows[j] in ds && ds[rows[j]].to == person && answer(rows[j])(d) == GONE
  }

  /** The devices that the first `i` notices of a round leave. */
  ghost function StillThere(devices: Devices, ds: Deliveries, rows: seq<DeliveryId>, i: nat, answer: Answers): Devices
    requires i <= |rows|
  {
    map d <- devices | !WasGone(d, devices[d], ds, rows, i, answer) :: devices[d]
  }

  ghost function IndexOf(rows: seq<DeliveryId>, x: DeliveryId): (i: nat)
    requires x in rows
    ensures i < |rows| && rows[i] == x
  {
    if rows[0] == x then 0 else 1 + IndexOf(rows[1..], x)
  }

  /** How each notice of a round comes out: by the answers of the devices its person still has by then. */
  ghost function Verdicts(devices: Devices, ds: Deliveries, rows: seq<DeliveryId>,
          answer: Answers): DeliveryId -> Verdict {
    x => if x in rows && x in ds
        then Once(Again(Of(StillThere(devices, ds, rows, IndexOf(rows, x), answer), ds[x].to), answer(x))) else GivenUp
  }

  lemma NobodyGone(devices: Devices, ds: Deliveries, rows: seq<DeliveryId>, answer: Answers)
    ensures StillThere(devices, ds, rows, 0, answer) == devices
  {
  }

  lemma OneNoticeMore(devices: Devices, ds: Deliveries, rows: seq<DeliveryId>, i: nat, answer: Answers)
    requires i < |rows| && rows[i] in ds && Distinct(rows)
    ensures var before := StillThere(devices, ds, rows, i, answer);
            && StillThere(devices, ds, rows, i + 1, answer) ==
                WithoutGone(before, Of(before, ds[rows[i]].to), answer(rows[i]))
            && Verdicts(devices, ds, rows, answer)(rows[i]) == Once(Again(Of(before, ds[rows[i]].to), answer(rows[i])))
  {
    hide Again;
    var before := StillThere(devices, ds, rows, i, answer);
    forall d | d in devices
      ensures WasGone(d, devices[d], ds, rows, i + 1, answer) <==>
                WasGone(d, devices[d], ds, rows, i, answer)
                    || (devices[d] == ds[rows[i]].to && answer(rows[i])(d) == GONE)
    {
    }
    assert rows[i] in rows && IndexOf(rows, rows[i]) == i;
  }

  // ---------------------------------------------------------------- the service

  class Pushes {
    var now: int
    var devices: Devices
    /** The employee behind each host, if there is one. */
    var hosts: map<nat, Option<nat>>
    var active: set<nat>
    var deliveries: Deliveries
    ghost var log: Log

    ghost predicate Valid()
      reads this
    {
      Consistent(Backoff(), deliveries, log, {})
    }

    constructor (start: int)
      ensures Valid() && deliveries == map[] && log == map[]
    {
      now, devices, hosts, active, deliveries, log := start, map[], map[], {}, map[], map[];
    }

    function DevicesOf(person: nat): set<DeviceId>
      reads this
    {
      Of(devices, person)
    }

    /** The host stands for this active employee, who has registered some device. */
    ghost predicate Hears(host: Option<nat>, person: nat)
      reads this
    {
      host.Some? && host.value in hosts && hosts[host.value] == Some(person) && person in active
          && exists d <- devices :: devices[d] == person
    }

    /** The arrival is announced to that employee, in the transaction of the check-in. */
    method EnqueueArrival(x: DeliveryId, host: Option<nat>) returns (queued: bool)
      requires Valid() && x !in deliveries
      modifies this`deliveries, this`log
      ensures Valid() && queued == (exists person :: Hears(host, person))
      ensures forall person :: Hears(host, person) ==>
          deliveries == old(deliveries)[x := Delivery(person, PENDING, 0, now)]
      ensures !queued ==> deliveries == old(deliveries)
    {
      hide Backoff, Consistent;
      if host.None? || host.value !in hosts { return false; }
      var person := hosts[host.value];
      if person.None? || person.value !in active { return false; }
      queued := Enqueue(x, person.value);
      HasDevice(devices, person.value);
      assert queued == Hears(host, person.value);
    }

    /** Queued for a person who has a device, in the transaction of the parcel. */
    method Enqueue(x: DeliveryId, person: nat) returns (queued: bool)
      requires Valid() && x !in deliveries
      modifies this`deliveries, this`log
      ensures Valid() && queued == (DevicesOf(person) != {})
      ensures deliveries == if queued then old(deliveries)[x := Delivery(person, PENDING, 0, now)] else old(deliveries)
    {
      hide Backoff, Consistent;
      if DevicesOf(person) == {} { return false; }
      Queued(Backoff(), deliveries, log, {}, x, person, now);
      deliveries, log := deliveries[x := Delivery(person, PENDING, 0, now)], log[x := []];
      queued := true;
    }

    /** A device follows the person who registered it last. */
    method Register(d: DeviceId, person: nat)
      requires Valid()
      modifies this`devices
      ensures Valid() && devices == old(devices)[d := person]
    {
      devices := devices[d := person];
    }

    /** The directory of hosts and employees changes. */
    method ChangeStaff(behind: map<nat, Option<nat>>, people: set<nat>)
      requires Valid()
      modifies this`hosts, this`active
      ensures Valid() && hosts == behind && active == people
    {
      hosts, active := behind, people;
    }

    method Wait(ms: nat)
      requires Valid()
      modifies this`now
      ensures Valid() && now == old(now) + ms
    {
      now := now + ms;
    }

    /** Sends to the devices one by one; a device that is gone is forgotten. */
    method SendAll(to: set<DeviceId>, answer: DeviceId -> Result) returns (again: bool)
      requires to <= devices.Keys
      modifies this`devices
      ensures devices == WithoutGone(old(devices), to, answer)
      ensures again == Again(to, answer)
    {
      var retry, ok := false, false;
      var todo := to;
      while todo != {}
        invariant todo <= to && todo <= devices.Keys
        invariant devices == WithoutGone(old(devices), to - todo, answer)
        invariant retry == (exists d <- to - todo :: answer(d) == RETRY)
        invariant ok == (exists d <- to - todo :: answer(d) == OK)
      {
        var d :| d in todo;
        ghost var seen := to - todo;
        todo := todo - {d};
        assert to - todo == seen + {d};
        match answer(d) {
          case OK => ok := true;
          case RETRY => retry := true;
          case GONE => devices := devices - {d};
        }
      }
      assert to - todo == to;
      again := retry && !ok;
    }

    /** One try of a due delivery, on the devices its person has now; sending may take time. */
    method Deliver(x: DeliveryId, answer: DeviceId -> Result, took: nat)
      requires Valid() && x in deliveries && x in log && Due(deliveries[x], now)
      modifies this
      ensures Valid() && now == old(now) + took
      ensures var to := old(DevicesOf(deliveries[x].to));
              && deliveries == old(deliveries)[x := AfterTry(Backoff(), old(deliveries)[x], Again(to, answer), now)]
              && log == old(log)[x := old(log)[x] + [Try(old(now), Again(to, answer))]]
              && devices == WithoutGone(old(devices), to, answer)
      ensures Left(Backoff(), deliveries, deliveries.Keys) < Left(Backoff(), old(deliveries), old(deliveries).Keys)
      ensures !Due(deliveries[x], old(now))
    {
      hide Backoff, Consistent, Left, AfterTry, Due;
      ghost var at := now;
      now := now + took;
      var again := SendAll(DevicesOf(deliveries[x].to), answer);
      PausesPositive();
      Tried(Backoff(), deliveries, log, {}, x, again, at, now);
      deliveries, log := deliveries[x := AfterTry(Backoff(), deliveries[x], again, now)],
          log[x := log[x] + [Try(at, again)]];
    }

    /** The earliest LIMIT of what is due are tried once each, with `Verdicts`; `n` is their number. */
    method DeliverDue(answer: Answers, took: DeliveryId -> nat) returns (n: nat, ghost done: seq<DeliveryId>)
      requires Valid()
      modifies this
      ensures Valid() && old(now) <= now
      ensures Answer(old(deliveries), old(now), 100, done) && n == |done|
      ensures Handled(Backoff(), Verdicts(old(devices), old(deliveries), done, answer), old(deliveries), old(log),
          deliveries, log, old(now), done)
      ensures devices == StillThere(old(devices), old(deliveries), done, |done|, answer)
      ensures n > 0 ==>
          Left(Backoff(), deliveries, deliveries.Keys) < Left(Backoff(), old(deliveries), old(deliveries).Keys)
    {
      hide Backoff, Left, Consistent, Handled, Answer, Due, Verdicts, StillThere;
      var rows := Query(deliveries, now, LIMIT);
      ghost var start, ds, lg, dv, v := now, deliveries, log, devices, Verdicts(devices, deliveries, rows, answer);
      NothingHandled(Backoff(), v, deliveries, log, {}, now, rows);
      NobodyGone(devices, deliveries, rows, answer);
      for i := 0 to |rows|
        invariant Valid() && start <= now
        invariant Handled(Backoff(), v, ds, lg, deliveries, log, start, rows[..i])
        invariant devices == StillThere(dv, ds, rows, i, answer)
        invariant if i > 0 then Left(Backoff(), deliveries, deliveries.Keys) < Left(Backoff(), ds, ds.Keys)
            else deliveries == ds
      {
        DeliverNext(ds, lg, dv, start, rows, i, answer, took(rows[i]));
      }
      assert rows[..|rows|] == rows;
      n, done := |rows|, rows;
    }

    method DeliverNext(ghost ds: Deliveries, ghost lg: Log, ghost dv: Devices,
                       ghost start: int, rows: seq<DeliveryId>, i: nat, answer: Answers, ms: nat)
      requires Valid() && i < |rows| && start <= now && Answer(ds, start, LIMIT, rows)
      requires Handled(Backoff(), Verdicts(dv, ds, rows, answer), ds, lg, deliveries, log, start, rows[..i])
      requires devices == StillThere(dv, ds, rows, i, answer)
      modifies this
      ensures Valid() && old(now) <= now
      ensures Handled(Backoff(), Verdicts(dv, ds, rows, answer), ds, lg, deliveries, log, start, rows[..i + 1])
      ensures devices == StillThere(dv, ds, rows, i + 1, answer)
      ensures Left(Backoff(), deliveries, deliveries.Keys) < Left(Backoff(), old(deliveries), old(deliveries).Keys)
    {
      hide Backoff, Left, Consistent, Handled, Answer, AfterTry, Due, Again, Outcome, Verdicts, StillThere, WithoutGone;
      ghost var ds1, lg1, v := deliveries, log, Verdicts(dv, ds, rows, answer);
      NextIsDue(Backoff(), v, ds, lg, deliveries, log, start, now, rows, i);
      OneNoticeMore(dv, ds, rows, i, answer);
      ghost var to := DevicesOf(deliveries[rows[i]].to);
      Deliver(rows[i], answer(rows[i]), ms);
      TriedOnce(Backoff(), ds1[rows[i]], lg1[rows[i]], Again(to, answer(rows[i])), old(now), now, start);
      NotDueEarlier(deliveries[rows[i]], start, old(now));
      OneMoreHandled(Backoff(), v, ds, lg, ds1, lg1, deliveries, log, start, rows, i);
    }

    /**
     * The worker's run ends, because every full round leaves fewer tries; what was due when it began
     * has been tried.
     */
    method Run(answer: nat -> Answers, took: nat -> DeliveryId -> nat)
      requires Valid()
      modifies this
      ensures Valid() && deliveries.Keys == log.Keys == old(deliveries).Keys == old(log).Keys && old(now) <= now
      ensures forall x <- old(deliveries) ::
          old(log)[x] <= log[x] && (Due(old(deliveries)[x], old(now)) ==> !Due(deliveries[x], old(now)))
    {
      assert log.Keys == deliveries.Keys;
      hide Backoff, Left, Consistent, Due, Handled, Answer, Verdicts, StillThere;
      var round: nat := 0;
      while true
        invariant Valid() && deliveries.Keys == log.Keys == old(deliveries).Keys == old(log).Keys && old(now) <= now
        invariant forall x <- old(deliveries) :: old(log)[x] <= log[x]
        decreases Left(Backoff(), deliveries, deliveries.Keys)
      {
        ghost var ds, lg, dv, at := deliveries, log, devices, now;
        var n, done := DeliverDue(answer(round), took(round));
        RoundDone(Backoff(), Verdicts(dv, ds, done, answer(round)), ds, lg, deliveries, log, old(now), at, done);
        if n < LIMIT { break; }
        round := round + 1;
      }
    }
  }

  /**
   * Whatever the devices answer: a notice is tried at most three times, and no more once one got
   * through or none asks for it.
   */
  lemma ThreeTriesAtMost(p: Pushes, x: DeliveryId)
    requires p.Valid() && x in p.deliveries
    ensures x in p.log && |p.log[x]| <= 3
    ensures forall i :: 0 <= i < |p.log[x]| - 1 ==> p.log[x][i].again
    ensures |p.log[x]| == 3 ==> p.log[x][2].at - p.log[x][0].at >= 4 * 60_000
    ensures p.deliveries[x].status == SENT <==> p.log[x] != [] && !p.log[x][|p.log[x]| - 1].again
    ensures p.deliveries[x].status == FAILED ==> |p.log[x]| == 3
  {
    if |p.log[x]| == 3 {
      PausesAddUp(Backoff(), p.deliveries[x], p.log[x], false, 2);
      assert Backoff()[..2] == [1, 3] && Backoff()[..2][..1] == [1] && [1][..0] == [];
      assert Sum([1]) == 1 && Sum([1, 3]) == 4;
    }
  }
}
