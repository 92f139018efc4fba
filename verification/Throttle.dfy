/**
 * The shared rate limit: one counter per key, restarted when its window is over, with a block once
 * the limit is passed. Times are in milliseconds; a call is one step.
 */
module Throttle {
  import opened FixedWindow
  import opened Options

  /** What one throttler asks of a key. */
  datatype Rule = Rule(ttl: nat, limit: nat, block: nat)
  datatype Row = Row(hits: nat, expiresAt: int, blockedUntil: Option<int>)
  datatype Answer = Answer(totalHits: nat, timeToExpire: nat, isBlocked: bool, timeToBlockExpire: nat)

  /** Whole seconds, rounded up. */
  function Seconds(ms: int): (s: nat)
    ensures ms <= 0 ==> s == 0
    ensures 0 < ms ==> (s - 1) * 1000 < ms <= s * 1000
  {
    if ms <= 0 then 0 else (ms + 999) / 1000
  }

  /** The upsert: a new key or a finished window starts at one. */
  function Counted(row: Option<Row>, rule: Rule, now: int): Row {
    if row.None? then Row(1, now + rule.ttl, None)
    else if row.value.expiresAt <= now then Row(1, now + rule.ttl, row.value.blockedUntil)
    else row.value.(hits := row.value.hits + 1)
  }

  function BlockLeft(row: Row, now: int): (left: nat)
    ensures 0 < left ==> row.blockedUntil == Some(now + left)
    ensures left == 0 <==> row.blockedUntil.None? || row.blockedUntil.value <= now
  {
    if row.blockedUntil.Some? && now < row.blockedUntil.value then row.blockedUntil.value - now else 0
  }

  /** The row after a request, and what the caller is told. */
  function Increment(row: Option<Row>, rule: Rule, now: int): (Row, Answer) {
    var counted := Counted(row, rule, now);
    var newlyBlocked := counted.hits > rule.limit && BlockLeft(counted, now) == 0;
    var blockMs := if newlyBlocked then rule.block else BlockLeft(counted, now);
    (if newlyBlocked then counted.(blockedUntil := Some(now + rule.block)) else counted,
     Answer(counted.hits, Seconds(counted.expiresAt - now), blockMs > 0, Seconds(blockMs)))
  }

  /**
   * A request in the columns: it is counted in the open window or opens one; while a block lasts, or
   * if it passes the limit, it is blocked; passing the limit outside a block sets one.
   */
  lemma RequestSays(row: Option<Row>, rule: Rule, now: int)
    ensures var was := row; var next, a := Increment(row, rule, now).0, Increment(row, rule, now).1;
            var open := was.Some? && now < was.value.expiresAt;
            var held := was.Some? && was.value.blockedUntil.Some? && now < was.value.blockedUntil.value;
            && next.hits == (if open then was.value.hits + 1 else 1) == a.totalHits
            && next.expiresAt == (if open then was.value.expiresAt else now + rule.ttl)
            && (held || next.hits <= rule.limit ==>
                  next.blockedUntil == if was.Some? then was.value.blockedUntil else None)
            && (!held && next.hits > rule.limit ==> next.blockedUntil == Some(now + rule.block))
            && (a.isBlocked <==> held || (next.hits > rule.limit && rule.block > 0))
            && a.timeToExpire == Seconds(next.expiresAt - now)
            && a.timeToBlockExpire == (if a.isBlocked then Seconds(next.blockedUntil.value - now) else 0)
  {
    hide Seconds;
  }

  /** Rows the retention job deletes: window and block are over. */
  predicate Finished(row: Row, now: int) {
    row.expiresAt < now && (row.blockedUntil.None? || row.blockedUntil.value < now)
  }

  // ---------------------------------------------------------------- deleting finished rows

  datatype Event = Request(at: int) | Cleaning(at: int)

  ghost predicate InOrder(events: seq<Event>, from: int) {
    (events != [] ==> from <= events[0].at) && forall i :: 0 <= i < |events| - 1 ==> events[i].at <= events[i + 1].at
  }

  /** The answers to the requests of a run. */
  function Answers(row: Option<Row>, rule: Rule, events: seq<Event>): seq<Answer>
    decreases |events|
  {
    if events == [] then []
    else match events[0]
      case Request(at) => [Increment(row, rule, at).1] + Answers(Some(Increment(row, rule, at).0), rule, events[1..])
      case Cleaning(at) => Answers(if row.Some? && Finished(row.value, at) then None else row, rule, events[1..])
  }

  function Requests(events: seq<Event>): seq<Event> {
    if events == [] then [] else (if events[0].Request? then [events[0]] else []) + Requests(events[1..])
  }

  /** A row kept and one that was cleaned differ only in what is over. */
  predicate Alike(kept: Option<Row>, cleaned: Option<Row>, now: int) {
    || kept == cleaned
    || (kept.Some? && cleaned.None? && kept.value.expiresAt <= now && BlockLeft(kept.value, now) == 0)
    || (kept.Some? && cleaned.Some? && kept.value.hits == cleaned.value.hits
        && kept.value.expiresAt == cleaned.value.expiresAt
        && BlockLeft(kept.value, now) == 0 && BlockLeft(cleaned.value, now) == 0)
  }

  lemma AlikeAnswersAlike(kept: Option<Row>, cleaned: Option<Row>, rule: Rule, now: int)
    requires Alike(kept, cleaned, now)
    ensures Increment(kept, rule, now).1 == Increment(cleaned, rule, now).1
    ensures Alike(Some(Increment(kept, rule, now).0), Some(Increment(cleaned, rule, now).0), now)
  {
  }

  lemma {:induction false} CleaningUnseen(kept: Option<Row>, cleaned: Option<Row>, rule: Rule, events: seq<Event>,
          from: int)
    requires InOrder(events, from) && Alike(kept, cleaned, from)
    ensures Answers(cleaned, rule, events) == Answers(kept, rule, Requests(events))
    decreases |events|
  {
    if events != [] {
      var at := events[0].at;
      assert Alike(kept, cleaned, at);
      assert InOrder(events[1..], at);
      if events[0].Request? {
        AlikeAnswersAlike(kept, cleaned, rule, at);
        CleaningUnseen(Some(Increment(kept, rule, at).0), Some(Increment(cleaned, rule, at).0), rule, events[1..], at);
        assert Requests(events)[1..] == Requests(events[1..]);
      } else {
        var rest := if cleaned.Some? && Finished(cleaned.value, at) then None else cleaned;
        CleaningUnseen(kept, rest, rule, events[1..], at);
        assert Requests(events) == Requests(events[1..]);
      }
    }
  }

  /** Deleting finished rows, whenever and however often, never changes the answer to any request. */
  lemma CleaningNeverShows(row: Option<Row>, rule: Rule, events: seq<Event>, from: int)
    requires InOrder(events, from)
    ensures Answers(row, rule, events) == Answers(row, rule, Requests(events))
  {
    CleaningUnseen(row, row, rule, events, from);
  }

  // ---------------------------------------------------------------- how many pass

  class Counter {
    const rule: Rule
    var now: int
    var row: Option<Row>
    /** When each window began, and the requests that were not blocked. */
    ghost var starts: seq<int>
    ghost var passed: seq<FixedWindow.Event>

    /** With a block that lasts, the windows hold at most `limit` unblocked requests each. */
    ghost predicate Valid()
      reads this
    {
      && (forall e <- passed :: e.at <= now)
      && (starts != [] ==> starts[|starts| - 1] <= now)
      && (row.Some? ==> starts != [])
      && (rule.block > 0 ==>
            && Limited(starts, passed, rule.ttl, rule.limit)
            && (row.Some? ==>
                row.value.expiresAt == starts[|starts| - 1] + rule.ttl
                && |InWindow(passed, |starts| - 1)| <= row.value.hits)
            && (row.None? && starts != [] ==> starts[|starts| - 1] + rule.ttl <= now))
    }

    constructor (rule: Rule, start: int)
      ensures Valid() && this.rule == rule && passed == []
    {
      this.rule, now, row, starts, passed := rule, start, None, [], [];
      new;
      assert forall k :: InWindow([], k) == {};
    }

    method Wait(ms: nat)
      requires Valid()
      modifies this`now
      ensures Valid() && now == old(now) + ms
    {
      now := now + ms;
    }

    /** The retention job's part. */
    method Clean()
      requires Valid()
      modifies this`row
      ensures Valid() && row == if old(row).Some? && Finished(old(row).value, now) then None else old(row)
    {
      if row.Some? && Finished(row.value, now) { row := None; }
    }

    /** The upsert. */
    method Count()
      requires Valid()
      modifies this`row, this`starts
      ensures row == Some(Counted(old(row), rule, now)) && starts != [] && starts[|starts| - 1] <= now
      ensures rule.block > 0 ==>
          Limited(starts, passed, rule.ttl, rule.limit) && row.value.expiresAt == starts[|starts| - 1] + rule.ttl
                                 && |InWindow(passed, |starts| - 1)| < row.value.hits
    {
      hide Limited, InWindow;
      if row.None? || row.value.expiresAt <= now {
        if rule.block > 0 { WindowBegins(starts, passed, rule.ttl, rule.limit, now); }
        starts := starts + [now];
        row := Some(Row(1, now + rule.ttl, if row.Some? then row.value.blockedUntil else None));
      } else {
        row := Some(row.value.(hits := row.value.hits + 1));
      }
    }

    /** One request: counted, then told whether it is blocked. */
    method Hit() returns (answer: Answer)
      requires Valid()
      modifies this`row, this`starts, this`passed
      ensures Valid()
      ensures (row, answer) == (Some(Increment(old(row), rule, now).0), Increment(old(row), rule, now).1)
      ensures |passed| == |old(passed)| + if answer.isBlocked then 0 else 1
      ensures !answer.isBlocked ==> passed[..|old(passed)|] == old(passed) && passed[|old(passed)|].at == now
      ensures answer.isBlocked ==> passed == old(passed)
    {
      hide Limited, InWindow;
      Count();
      hide Counted;
      var blockMs := BlockLeft(row.value, now);
      var hits := row.value.hits;
      if hits > rule.limit && blockMs == 0 {
        row := Some(row.value.(blockedUntil := Some(now + rule.block)));
        blockMs := rule.block;
      }
      answer := Answer(hits, Seconds(row.value.expiresAt - now), blockMs > 0, Seconds(blockMs));
      if blockMs == 0 {
        ghost var e := FixedWindow.Event(now, |starts| - 1);
        if rule.block > 0 { Passes(starts, passed, rule.ttl, rule.limit, now, hits); }
        passed := passed + [e];
      }
    }
  }

  /** One more unblocked request in the last window, which had fewer. */
  lemma Passes(starts: seq<int>, passed: seq<FixedWindow.Event>, ttl: nat, limit: nat, now: int, hits: nat)
    requires Limited(starts, passed, ttl, limit) && starts != [] && starts[|starts| - 1] <= now
    requires |InWindow(passed, |starts| - 1)| < hits <= limit
    ensures Limited(starts, passed + [FixedWindow.Event(now, |starts| - 1)], ttl, limit)
    ensures |InWindow(passed + [FixedWindow.Event(now, |starts| - 1)], |starts| - 1)| <= hits
  {
    OneMore(passed, FixedWindow.Event(now, |starts| - 1));
  }

  /**
   * With a positive block: at most `limit` unblocked requests in each window, at most twice as many
   * in any span as long as a window, and so on for longer ones.
   */
  lemma PassesAreLimited(c: Counter, from: int, span: nat)
    requires c.Valid() && c.rule.block > 0 && c.rule.ttl > 0
    ensures forall k :: |InWindow(c.passed, k)| <= c.rule.limit
    ensures |InSpan(c.passed, from, from + c.rule.ttl)| <= 2 * c.rule.limit
    ensures |InSpan(c.passed, from, from + span)| <= c.rule.limit * (CeilDiv(span, c.rule.ttl) + 1)
  {
    SpanHolds(c.starts, c.passed, c.rule.ttl, c.rule.limit, from, span);
    SpanHolds(c.starts, c.passed, c.rule.ttl, c.rule.limit, from, c.rule.ttl);
    OneWidth(c.rule.ttl);
    hide CeilDiv, InSpan;
  }

  lemma OneWidth(ttl: nat)
    requires ttl > 0
    ensures CeilDiv(ttl, ttl) == 1
  {
    assert (2 * ttl - 1) - ttl == ttl - 1 && (ttl - 1) / ttl == 0;
    assert (2 * ttl - 1) / ttl == 1;
  }

  /**
   * Why `PassesAreLimited` asks for a positive block: with a block of 0 `increment` never holds
   * anybody back. That concerns its parameter only: no route names a block, so none passes a 0.
   */
  lemma {:induction false} NoBlockNoLimit(row: Option<Row>, rule: Rule, events: seq<Event>)
    requires rule.block == 0
    requires (row.Some? ==>
        row.value.blockedUntil.None? || (events != [] ==> row.value.blockedUntil.value <= events[0].at))
    requires forall i :: 0 <= i < |events| - 1 ==> events[i].at <= events[i + 1].at
    ensures forall a <- Answers(row, rule, events) :: !a.isBlocked
    decreases |events|
  {
    if events != [] {
      var at := events[0].at;
      if events[0].Request? {
        NoBlockNoLimit(Some(Increment(row, rule, at).0), rule, events[1..]);
      } else {
        NoBlockNoLimit(if row.Some? && Finished(row.value, at) then None else row, rule, events[1..]);
      }
    }
  }
}
