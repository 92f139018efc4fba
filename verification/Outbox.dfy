/**
 * An outbox: deliveries tried until they get through, with longer and longer pauses, and given up
 * after a last try. Webhooks and push notices share it, with different pauses.
 */
module Outbox {

  type DeliveryId = nat

  const MINUTE: int := 60_000
  const LIMIT := 100

  datatype Status = PENDING | SENT | FAILED
  datatype Delivery = Delivery(to: nat, status: Status, attempts: nat, nextAt: int)
  /** One try: when, and whether it has to be tried again. */
  datatype Try = Try(at: int, again: bool)

  type Deliveries = map<DeliveryId, Delivery>
  /** The tries of each delivery. */
  type Log = map<DeliveryId, seq<Try>>

  /** The pause after the given number of tries, in minutes. */
  function Pause(backoff: seq<nat>, attempts: nat): nat {
    if 0 < attempts <= |backoff| then backoff[attempts - 1] else 0
  }

  function AfterTry(backoff: seq<nat>, d: Delivery, again: bool, after: int): (d': Delivery)
    ensures d'.to == d.to && d'.attempts == d.attempts + 1
    ensures d'.status == SENT <==> !again
    ensures d'.status == FAILED <==> again && d.attempts >= |backoff|
    ensures d'.nextAt == after + (if d.attempts < |backoff| then backoff[d.attempts] * 60_000 else 0)
  {
    var attempts := d.attempts + 1;
    var status := if !again then SENT else if attempts > |backoff| then FAILED else PENDING;
    Delivery(d.to, status, attempts, after + Pause(backoff, attempts) * MINUTE)
  }

  predicate Due(d: Delivery, now: int) {
    d.status == PENDING && d.nextAt <= now
  }

  function DueOnes(ds: Deliveries, now: int): set<DeliveryId> {
    set x <- ds | Due(ds[x], now)
  }

  function TriesLeft(backoff: seq<nat>, d: Delivery): nat {
    if d.status == PENDING && d.attempts <= |backoff| then |backoff| + 1 - d.attempts else 0
  }

  /** The tries still open to the given deliveries, all together: what a worker can do at most. */
  ghost function Left(backoff: seq<nat>, ds: Deliveries, among: set<DeliveryId>): nat
    requires among <= ds.Keys
  {
    if among == {} then 0
    else var x :| x in among; TriesLeft(backoff, ds[x]) + Left(backoff, ds, among - {x})
  }

  // ---------------------------------------------------------------- what a delivery went through

  /**
   * The tries of a delivery: each but the last had to be repeated, not before its pause; a delivery
   * is sent exactly if its last try got through, and failed only after the last one (or because
   * its channel was turned off).
   */
  ghost predicate Told(backoff: seq<nat>, d: Delivery, tries: seq<Try>, dropped: bool) {
    && d.attempts == |tries| <= |backoff| + 1
    && (forall k :: 0 <= k < |tries| - 1 ==> tries[k].again && tries[k].at + backoff[k] * MINUTE <= tries[k + 1].at)
    && match d.status
       case PENDING =>
         && |tries| <= |backoff|
         && (tries != [] ==>
               && tries[|tries| - 1].again
               && tries[|tries| - 1].at + Pause(backoff, |tries|) * MINUTE <= d.nextAt)
       case SENT => tries != [] && !tries[|tries| - 1].again
       case FAILED => if dropped then |tries| <= |backoff| && (tries != [] ==> tries[|tries| - 1].again)
                      else |tries| == |backoff| + 1 && tries[|backoff|].again
  }

  lemma TryIsTold(backoff: seq<nat>, d: Delivery, tries: seq<Try>, again: bool, at: int, after: int)
    requires Told(backoff, d, tries, false) && d.status == PENDING && d.nextAt <= at <= after
    ensures Told(backoff, AfterTry(backoff, d, again, after), tries + [Try(at, again)], false)
    ensures AfterTry(backoff, d, again, after).attempts == d.attempts + 1
  {
    var more := tries + [Try(at, again)];
    forall k | 0 <= k < |more| - 1 ensures more[k].again && more[k].at + backoff[k] * MINUTE <= more[k + 1].at {
      if k == |tries| - 1 { assert Pause(backoff, |tries|) == backoff[k]; }
    }
  }

  lemma DropIsTold(backoff: seq<nat>, d: Delivery, tries: seq<Try>, at: int)
    requires Told(backoff, d, tries, false) && d.status == PENDING
    ensures Told(backoff, d.(status := FAILED), tries, true) && !Due(d.(status := FAILED), at)
    ensures d.(status := FAILED).status != PENDING
  {
  }

  function Sum(s: seq<nat>): nat {
    if s == [] then 0 else Sum(s[..|s| - 1]) + s[|s| - 1]
  }

  /** Between the first try and a later one lie at least all the pauses in between. */
  lemma {:induction false} PausesAddUp(backoff: seq<nat>, d: Delivery, tries: seq<Try>, dropped: bool, k: nat)
    requires Told(backoff, d, tries, dropped) && k < |tries|
    ensures tries[0].at + Sum(backoff[..k]) * MINUTE <= tries[k].at
  {
    if k > 0 {
      PausesAddUp(backoff, d, tries, dropped, k - 1);
      assert backoff[..k][..k - 1] == backoff[..k - 1];
    }
  }

  // ---------------------------------------------------------------- the loops

  lemma {:induction false} LeftWithout(backoff: seq<nat>, ds: Deliveries, among: set<DeliveryId>, y: DeliveryId)
    requires among <= ds.Keys && y in among
    ensures Left(backoff, ds, among) == TriesLeft(backoff, ds[y]) + Left(backoff, ds, among - {y})
  {
    var x :| x in among && Left(backoff, ds, among) == TriesLeft(backoff, ds[x]) + Left(backoff, ds, among - {x});
    if x != y {
      LeftWithout(backoff, ds, among - {x}, y);
      LeftWithout(backoff, ds, among - {y}, x);
      assert among - {x} - {y} == among - {y} - {x};
    }
  }

  lemma {:induction false} LeftAlike(backoff: seq<nat>, ds: Deliveries, ds': Deliveries, among: set<DeliveryId>)
    requires among <= ds.Keys && among <= ds'.Keys && forall x <- among :: ds[x] == ds'[x]
    ensures Left(backoff, ds, among) == Left(backoff, ds', among)
  {
    if among != {} {
      var x :| x in among;
      LeftWithout(backoff, ds, among, x);
      LeftWithout(backoff, ds', among, x);
      LeftAlike(backoff, ds, ds', among - {x});
    }
  }

  /** A try, or a decision, leaves fewer tries. */
  lemma TryUsesOne(backoff: seq<nat>, ds: Deliveries, x: DeliveryId, d': Delivery)
    requires x in ds && ds[x].status == PENDING && ds[x].attempts <= |backoff|
    requires d'.status != PENDING || d'.attempts == ds[x].attempts + 1
    ensures Left(backoff, ds[x := d'], ds[x := d'].Keys) < Left(backoff, ds, ds.Keys)
  {
    var ds' := ds[x := d'];
    assert ds'.Keys == ds.Keys;
    LeftWithout(backoff, ds, ds.Keys, x);
    LeftWithout(backoff, ds', ds.Keys, x);
    LeftAlike(backoff, ds, ds', ds.Keys - {x});
  }

  ghost predicate Distinct(s: seq<DeliveryId>) {
    forall i, j :: 0 <= i < j < |s| ==> s[i] != s[j]
  }

  /** What is to become of a delivery: given up, or tried once, with the result. */
  datatype Verdict = GivenUp | Once(again: bool)

  ghost predicate Outcome(backoff: seq<nat>, v: Verdict, d: Delivery, tries: seq<Try>, d': Delivery, tries': seq<Try>,
          at: int) {
    if v.GivenUp? then d' == d.(status := FAILED) && tries' == tries
    else exists t, after ::
        at <= t <= after && d' == AfterTry(backoff, d, v.again, after) && tries' == tries + [Try(t, v.again)]
  }

  /** The deliveries done had their verdict and are not due any longer; every other one is as it was. */
  ghost predicate Handled(backoff: seq<nat>, v: DeliveryId -> Verdict, ds: Deliveries, log: Log,
                          ds': Deliveries, log': Log, at: int, done: seq<DeliveryId>) {
    && ds'.Keys == ds.Keys == log.Keys == log'.Keys
    && forall x <- ds ::
         if x in done then Outcome(backoff, v(x), ds[x], log[x], ds'[x], log'[x], at) && !Due(ds'[x], at)
         else ds'[x] == ds[x] && log'[x] == log[x]
  }

  /**
   * What a query with `order by nextAt` and `take` gives: due rows, the earliest ones, all of them if
   * fewer than the limit.
   */
  ghost predicate Answer(ds: Deliveries, now: int, limit: nat, rows: seq<DeliveryId>) {
    && |rows| <= limit && Distinct(rows)
    && (forall x <- rows :: x in ds && ds[x].status == PENDING && ds[x].nextAt <= now)
    && (forall x <- ds :: ds[x].status == PENDING && ds[x].nextAt <= now && x !in rows ==>
        |rows| == limit && forall y <- rows :: ds[y].nextAt <= ds[x].nextAt)
  }

  method Query(ds: Deliveries, now: int, limit: nat) returns (rows: seq<DeliveryId>)
    ensures Answer(ds, now, limit, rows)
  {
    rows := [];
    var rest := DueOnes(ds, now);
    while rest != {} && |rows| < limit
      invariant |rows| <= limit && Distinct(rows) && rest <= ds.Keys
      invariant forall x :: x in ds && Due(ds[x], now) <==> x in rest || x in rows
      invariant forall x <- rows :: x !in rest
      invariant forall x <- rest, y <- rows :: ds[y].nextAt <= ds[x].nextAt
      decreases |rest|
    {
      var x := Earliest(ds, rest);
      rows := rows + [x];
      rest := rest - {x};
    }
  }

  method Earliest(ds: Deliveries, among: set<DeliveryId>) returns (x: DeliveryId)
    requires among <= ds.Keys && among != {}
    ensures x in among && forall y <- among :: ds[x].nextAt <= ds[y].nextAt
  {
    x :| x in among;
    var rest := among - {x};
    while rest != {}
      invariant x in among && rest <= among && forall y <- among - rest :: ds[x].nextAt <= ds[y].nextAt
    {
      var y :| y in rest;
      if ds[y].nextAt < ds[x].nextAt { x := y; }
      rest := rest - {y};
    }
  }

  /** What was just tried is not due at once: every pause is at least a minute. */
  lemma TriedNotDue(backoff: seq<nat>, d: Delivery, again: bool, at: int, after: int)
    requires (forall p <- backoff :: 1 <= p) && at <= after
    ensures !Due(AfterTry(backoff, d, again, after), at)
  {
    if d.attempts < |backoff| { assert backoff[d.attempts] in backoff; }
  }

  lemma NotDueEarlier(d: Delivery, early: int, late: int)
    requires !Due(d, late) && early <= late
    ensures !Due(d, early)
  {
  }

  lemma NothingHandled(backoff: seq<nat>, v: DeliveryId -> Verdict, ds: Deliveries, log: Log, dropped: set<DeliveryId>,
          at: int, rows: seq<DeliveryId>)
    requires Consistent(backoff, ds, log, dropped)
    ensures Handled(backoff, v, ds, log, ds, log, at, rows[..0])
  {
  }

  /** The next of the rows found is as it was, so still due. */
  lemma NextIsDue(backoff: seq<nat>, v: DeliveryId -> Verdict, ds: Deliveries, log: Log,
                  ds1: Deliveries, log1: Log, at: int, now: int, rows: seq<DeliveryId>, i: nat)
    requires i < |rows| && at <= now && Answer(ds, at, LIMIT, rows)
    requires Handled(backoff, v, ds, log, ds1, log1, at, rows[..i])
    ensures rows[i] in ds && rows[i] in ds1 && rows[i] in log1 && Due(ds1[rows[i]], now) && Distinct(rows)
    ensures ds1[rows[i]] == ds[rows[i]]
  {
    hide Outcome;
    assert rows[i] in rows && rows[i] !in rows[..i];
  }

  lemma OneMoreHandled(backoff: seq<nat>, v: DeliveryId -> Verdict, ds: Deliveries, log: Log,
                       ds1: Deliveries, log1: Log, ds2: Deliveries, log2: Log, at: int, rows: seq<DeliveryId>, i: nat)
    requires i < |rows| && Distinct(rows) && Handled(backoff, v, ds, log, ds1, log1, at, rows[..i]) && rows[i] in ds
    requires rows[i] in ds1 && rows[i] in log1
    requires rows[i] in ds2 && rows[i] in log2 && ds2 == ds1[rows[i] := ds2[rows[i]]]
    requires log2 == log1[rows[i] := log2[rows[i]]]
    requires !Due(ds2[rows[i]], at)
    requires Outcome(backoff, v(rows[i]), ds1[rows[i]], log1[rows[i]], ds2[rows[i]], log2[rows[i]], at)
    ensures Handled(backoff, v, ds, log, ds2, log2, at, rows[..i + 1])
  {
    hide Due, Outcome;
    assert rows[i] !in rows[..i];
    assert rows[..i + 1] == rows[..i] + [rows[i]];
  }

  lemma TriedOnce(backoff: seq<nat>, d: Delivery, tries: seq<Try>, again: bool, t: int, after: int, at: int)
    requires at <= t <= after
    ensures Outcome(backoff, Once(again), d, tries, AfterTry(backoff, d, again, after), tries + [Try(t, again)], at)
  {
  }

  /** A round loses nothing of what was recorded; one that was not full leaves nothing that was due. */
  lemma RoundDone(backoff: seq<nat>, v: DeliveryId -> Verdict, ds: Deliveries, log: Log,
                  ds': Deliveries, log': Log, early: int, at: int, done: seq<DeliveryId>)
    requires early <= at && Answer(ds, at, LIMIT, done) && Handled(backoff, v, ds, log, ds', log', at, done)
    ensures ds'.Keys == ds.Keys == log.Keys == log'.Keys && forall x <- ds :: log[x] <= log'[x]
    ensures |done| < LIMIT ==> forall x <- ds' :: !Due(ds'[x], early)
  {
  }

  /** Every delivery's tries are on record, and are what its status says. */
  ghost predicate Consistent(backoff: seq<nat>, ds: Deliveries, log: Log, dropped: set<DeliveryId>) {
    && log.Keys == ds.Keys
    && (forall x <- ds :: Told(backoff, ds[x], log[x], x in dropped))
    && (forall x <- dropped :: x in ds && ds[x].status == FAILED)
  }

  lemma Queued(backoff: seq<nat>, ds: Deliveries, log: Log, dropped: set<DeliveryId>, x: DeliveryId, to: nat, now: int)
    requires Consistent(backoff, ds, log, dropped) && x !in ds
    ensures Consistent(backoff, ds[x := Delivery(to, PENDING, 0, now)], log[x := []], dropped)
  {
    assert Told(backoff, Delivery(to, PENDING, 0, now), [], false);
    hide Told;
  }

  /** A due delivery is tried once. */
  lemma Tried(backoff: seq<nat>, ds: Deliveries, log: Log, dropped: set<DeliveryId>, x: DeliveryId, again: bool,
          at: int, after: int)
    requires Consistent(backoff, ds, log, dropped) && x in ds && Due(ds[x], at) && at <= after
    requires forall p <- backoff :: 1 <= p
    ensures var d' := AfterTry(backoff, ds[x], again, after);
            && Consistent(backoff, ds[x := d'], log[x := log[x] + [Try(at, again)]], dropped) && !Due(d', at)
            && Left(backoff, ds[x := d'], ds[x := d'].Keys) < Left(backoff, ds, ds.Keys)
  {
    assert x !in dropped && Told(backoff, ds[x], log[x], x in dropped);
    assert Told(backoff, ds[x], log[x], false) && ds[x].attempts <= |backoff|;
    TryIsTold(backoff, ds[x], log[x], again, at, after);
    TriedNotDue(backoff, ds[x], again, at, after);
    TryUsesOne(backoff, ds, x, AfterTry(backoff, ds[x], again, after));
    hide Told, Left, AfterTry;
  }

  /** A due delivery is given up, its channel being off. */
  lemma Dropped(backoff: seq<nat>, ds: Deliveries, log: Log, dropped: set<DeliveryId>, x: DeliveryId, at: int)
    requires Consistent(backoff, ds, log, dropped) && x in ds && Due(ds[x], at)
    ensures var d' := ds[x].(status := FAILED);
            && Consistent(backoff, ds[x := d'], log, dropped + {x}) && !Due(d', at)
            && Left(backoff, ds[x := d'], ds[x := d'].Keys) < Left(backoff, ds, ds.Keys)
  {
    assert x !in dropped && Told(backoff, ds[x], log[x], x in dropped);
    assert Told(backoff, ds[x], log[x], false) && ds[x].attempts <= |backoff|;
    DropIsTold(backoff, ds[x], log[x], at);
    TryUsesOne(backoff, ds, x, ds[x].(status := FAILED));
    hide Told, Left;
  }
}
