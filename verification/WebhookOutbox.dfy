/** Webhook deliveries: one channel each, five tries at most. */
module WebhookOutbox {
  import opened Options
  import opened Outbox

  /** The pauses between tries, in minutes: one fewer than tries. */
  function Backoff(): seq<nat> {
    [1, 5, 30, 120]
  }

  lemma PausesPositive()
    ensures forall p <- Backoff() :: 1 <= p
  {
  }

  /** A channel: whether it is turned on, the events it wants, and its site (all sites if absent). */
  datatype Hook = Hook(active: bool, events: set<string>, site: Option<nat>)

  predicate Wants(h: Hook, site: nat, event: string) {
    h.active && event in h.events && (h.site.None? || h.site.value == site)
  }

  /** One delivery for each channel, numbered on from `next`. */
  function QueuedFor(ds: Deliveries, next: DeliveryId, order: seq<nat>, now: int): Deliveries {
    if order == [] then ds
    else
      var n := |order| - 1;
      QueuedFor(ds, next, order[..n], now)[next + n := Delivery(order[n], PENDING, 0, now)]
  }

  class Webhooks {
    var now: int
    var hooks: map<nat, Hook>
    var deliveries: Deliveries
    var nextId: nat
    /** What was sent for each delivery, and which were dropped because their channel was off. */
    ghost var log: Log
    ghost var dropped: set<DeliveryId>

    ghost predicate Valid()
      reads this
    {
      Consistent(Backoff(), deliveries, log, dropped) && forall x <- deliveries :: x < nextId
    }

    constructor (start: int)
      ensures Valid() && deliveries == map[] && log == map[]
    {
      now, hooks, deliveries, nextId, log, dropped := start, map[], map[], 0, map[], {};
    }

    /** One pending row for each channel that `Wants` the event, numbered in whatever order the database finds them. */
    method Enqueue(site: nat, event: string) returns (ghost order: seq<nat>)
      requires Valid()
      modifies this`deliveries, this`nextId, this`log
      ensures Valid() && deliveries == QueuedFor(old(deliveries), old(nextId), order, now)
      ensures nextId == old(nextId) + |order|
      ensures forall h :: h in order <==>
                && h in hooks && hooks[h].active && event in hooks[h].events
                && (hooks[h].site == None || hooks[h].site == Some(site))
      ensures forall i, j :: 0 <= i < j < |order| ==> order[i] != order[j]
    {
      hide Backoff, Consistent;
      var all := set h <- hooks | Wants(hooks[h], site, event);
      hide Wants;
      var todo := all;
      order := [];
      while todo != {}
        invariant Valid() && deliveries == QueuedFor(old(deliveries), old(nextId), order, now)
        invariant nextId == old(nextId) + |order|
        invariant todo <= all && (forall h :: h in order <==> h in all && h !in todo)
        invariant forall i, j :: 0 <= i < j < |order| ==> order[i] != order[j]
      {
        var h :| h in todo;
        assert (order + [h])[..|order|] == order;
        EnqueueOne(h);
        order := order + [h];
        todo := todo - {h};
      }
    }

    method EnqueueOne(hook: nat)
      requires Valid()
      modifies this`deliveries, this`nextId, this`log
      ensures Valid() && nextId == old(nextId) + 1
      ensures deliveries == old(deliveries)[old(nextId) := Delivery(hook, PENDING, 0, now)]
    {
      hide Backoff, Consistent;
      Queued(Backoff(), deliveries, log, dropped, nextId, hook, now);
      deliveries, log, nextId := deliveries[nextId := Delivery(hook, PENDING, 0, now)], log[nextId := []], nextId + 1;
    }

    method SetHook(h: nat, hook: Hook)
      requires Valid()
      modifies this`hooks
      ensures Valid() && hooks == old(hooks)[h := hook]
    {
      hooks := hooks[h := hook];
    }

    method Wait(ms: nat)
      requires Valid()
      modifies this`now
      ensures Valid() && now == old(now) + ms
    {
      now := now + ms;
    }

    /** One due delivery: dropped if its channel is off, else sent once; sending may take time. */
    method Deliver(x: DeliveryId, ok: bool, took: nat)
      requires Valid() && x in deliveries && x in log && Due(deliveries[x], now)
      modifies this
      ensures Valid() && now == old(now) + took && hooks == old(hooks)
      ensures var d := old(deliveries)[x];
              if d.to in hooks && hooks[d.to].active then
                && deliveries == old(deliveries)[x := AfterTry(Backoff(), d, !ok, now)]
                && log == old(log)[x := old(log)[x] + [Try(old(now), !ok)]]
              else deliveries == old(deliveries)[x := d.(status := FAILED)] && log == old(log)
      ensures Left(Backoff(), deliveries, deliveries.Keys) < Left(Backoff(), old(deliveries), old(deliveries).Keys)
      ensures deliveries == old(deliveries)[x := deliveries[x]] && !Due(deliveries[x], old(now))
      ensures x in log && log == old(log)[x := log[x]] && old(log)[x] <= log[x] && |log[x]| <= |old(log)[x]| + 1
    {
      hide Backoff, Consistent, Left, AfterTry, Due;
      var hook := deliveries[x].to;
      if hook in hooks && hooks[hook].active {
        Send(x, ok, took);
      } else {
        Drop(x);
        now := now + took;
      }
    }

    method Send(x: DeliveryId, ok: bool, took: nat)
      requires Valid() && x in deliveries && x in log && Due(deliveries[x], now)
      modifies this`deliveries, this`log, this`now
      ensures Valid() && now == old(now) + took
      ensures deliveries == old(deliveries)[x := AfterTry(Backoff(), old(deliveries)[x], !ok, now)]
      ensures log == old(log)[x := old(log)[x] + [Try(old(now), !ok)]]
      ensures Left(Backoff(), deliveries, deliveries.Keys) < Left(Backoff(), old(deliveries), old(deliveries).Keys)
      ensures !Due(deliveries[x], old(now))
    {
      hide Backoff, Consistent, Left, AfterTry, Due;
      ghost var at := now;
      now := now + took;
      PausesPositive();
      Tried(Backoff(), deliveries, log, dropped, x, !ok, at, now);
      deliveries, log := deliveries[x := AfterTry(Backoff(), deliveries[x], !ok, now)],
          log[x := log[x] + [Try(at, !ok)]];
    }

    method Drop(x: DeliveryId)
      requires Valid() && x in deliveries && x in log && Due(deliveries[x], now)
      modifies this`deliveries, this`dropped
      ensures Valid()
      ensures deliveries == old(deliveries)[x := old(deliveries)[x].(status := FAILED)]
      ensures Left(Backoff(), deliveries, deliveries.Keys) < Left(Backoff(), old(deliveries), old(deliveries).Keys)
      ensures !Due(deliveries[x], now)
    {
      hide Backoff, Consistent, Left, Due;
      Dropped(Backoff(), deliveries, log, dropped, x, now);
      deliveries, dropped := deliveries[x := deliveries[x].(status := FAILED)], dropped + {x};
    }

    /**
     * The earliest LIMIT of what is due are handled, each as its channel and its answer say; `n` is
     * their number. A delivery whose channel is off is given up.
     */
    method DeliverDue(answer: DeliveryId -> bool, took: DeliveryId -> nat) returns (n: nat, ghost done: seq<DeliveryId>)
      requires Valid()
      modifies this
      ensures Valid() && old(now) <= now && hooks == old(hooks)
      ensures Answer(old(deliveries), old(now), 100, done) && n == |done|
      ensures Handled(Backoff(), Verdicts(hooks, old(deliveries), answer), old(deliveries), old(log), deliveries, log,
          old(now), done)
      ensures n > 0 ==>
          Left(Backoff(), deliveries, deliveries.Keys) < Left(Backoff(), old(deliveries), old(deliveries).Keys)
    {
      hide Backoff, Left, Consistent, Handled, Answer, Due, Verdicts;
      var rows := Query(deliveries, now, LIMIT);
      ghost var start, ds, lg, v := now, deliveries, log, Verdicts(hooks, deliveries, answer);
      NothingHandled(Backoff(), v, deliveries, log, dropped, now, rows);
      for i := 0 to |rows|
        invariant Valid() && start <= now && hooks == old(hooks)
        invariant Handled(Backoff(), v, ds, lg, deliveries, log, start, rows[..i])
        invariant if i > 0 then Left(Backoff(), deliveries, deliveries.Keys) < Left(Backoff(), ds, ds.Keys)
            else deliveries == ds
      {
        DeliverNext(ds, lg, start, rows, i, answer, took(rows[i]));
      }
      assert rows[..|rows|] == rows;
      n, done := |rows|, rows;
    }

    method DeliverNext(ghost ds: Deliveries, ghost lg: Log, ghost start: int, rows: seq<DeliveryId>, i: nat,
            answer: DeliveryId -> bool, ms: nat)
      requires Valid() && i < |rows| && start <= now && Answer(ds, start, LIMIT, rows)
      requires Handled(Backoff(), Verdicts(hooks, ds, answer), ds, lg, deliveries, log, start, rows[..i])
      modifies this
      ensures Valid() && old(now) <= now && hooks == old(hooks)
      ensures Handled(Backoff(), Verdicts(hooks, ds, answer), ds, lg, deliveries, log, start, rows[..i + 1])
      ensures Left(Backoff(), deliveries, deliveries.Keys) < Left(Backoff(), old(deliveries), old(deliveries).Keys)
    {
      hide Backoff, Left, Consistent, Handled, Answer, AfterTry, Due, Outcome;
      ghost var ds1, lg1, x, v := deliveries, log, rows[i], Verdicts(hooks, ds, answer);
      NextIsDue(Backoff(), v, ds, lg, deliveries, log, start, now, rows, i);
      Deliver(rows[i], answer(rows[i]), ms);
      if v(x).GivenUp? {
        GivenUpAsSaid(Backoff(), ds1[x], lg1[x], start);
      } else {
        TriedOnce(Backoff(), ds1[x], lg1[x], !answer(x), old(now), now, start);
      }
      NotDueEarlier(deliveries[rows[i]], start, old(now));
      OneMoreHandled(Backoff(), v, ds, lg, ds1, lg1, deliveries, log, start, rows, i);
    }

    /**
     * The worker's run: rounds until one is not full. It ends, because every full round leaves fewer
     * tries; and what was due when it began has been tried or decided.
     */
    method Run(answer: (nat, DeliveryId) -> bool, took: (nat, DeliveryId) -> nat)
      requires Valid()
      modifies this
      ensures Valid() && deliveries.Keys == log.Keys == old(deliveries).Keys == old(log).Keys && old(now) <= now
      ensures forall x <- old(deliveries) ::
          old(log)[x] <= log[x] && (Due(old(deliveries)[x], old(now)) ==> !Due(deliveries[x], old(now)))
    {
      assert log.Keys == deliveries.Keys;
      hide Backoff, Left, Consistent, Due, Handled, Answer, Verdicts;
      var round: nat := 0;
      while true
        invariant Valid() && deliveries.Keys == log.Keys == old(deliveries).Keys == old(log).Keys && old(now) <= now
        invariant forall x <- old(deliveries) :: old(log)[x] <= log[x]
        decreases Left(Backoff(), deliveries, deliveries.Keys)
      {
        ghost var ds, lg, at := deliveries, log, now;
        var this_: nat := round;
        var reply := (x: DeliveryId) => answer(this_, x);
        var n, done := DeliverDue(reply, (x: DeliveryId) => took(this_, x));
        RoundDone(Backoff(), Verdicts(hooks, ds, reply), ds, lg, deliveries, log, old(now), at, done);
        if n < LIMIT { break; }
        round := round + 1;
      }
    }
  }

  /** A delivery whose channel is there and turned on is sent, every other one given up. */
  function Verdicts(hooks: map<nat, Hook>, ds: Deliveries, answer: DeliveryId -> bool): DeliveryId -> Verdict {
    (x: DeliveryId) => if x in ds && ds[x].to in hooks && hooks[ds[x].to].active then Once(!answer(x)) else GivenUp
  }

  lemma GivenUpAsSaid(backoff: seq<nat>, d: Delivery, tries: seq<Try>, at: int)
    ensures Outcome(backoff, GivenUp, d, tries, d.(status := FAILED), tries, at)
  {
  }

  /**
   * Whatever the channels answer: a delivery is sent at most five times, never again once it got
   * through, and if it keeps failing its fifth send is at least 156 minutes after its first.
   */
  lemma FiveSendsAtMost(w: Webhooks, x: DeliveryId)
    requires w.Valid() && x in w.deliveries
    ensures x in w.log && |w.log[x]| <= 5
    ensures forall i :: 0 <= i < |w.log[x]| - 1 ==> w.log[x][i].again
    ensures |w.log[x]| == 5 ==> w.log[x][4].at - w.log[x][0].at >= 156 * 60_000
    ensures w.deliveries[x].status == SENT <==> w.log[x] != [] && !w.log[x][|w.log[x]| - 1].again
    ensures w.deliveries[x].status == FAILED && x !in w.dropped ==> |w.log[x]| == 5
  {
    if |w.log[x]| == 5 {
      PausesAddUp(Backoff(), w.deliveries[x], w.log[x], x in w.dropped, 4);
      assert Backoff()[..4] == Backoff();
      FourPauses();
    }
  }

  lemma FourPauses()
    ensures Sum(Backoff()) == 156
  {
    assert Backoff()[..3] == [1, 5, 30] && Backoff()[..3][..2] == [1, 5] && [1, 5][..1] == [1] && [1][..0] == [];
    assert Sum([1]) == 1 && Sum([1, 5]) == 6 && Sum([1, 5, 30]) == 36;
  }
}
