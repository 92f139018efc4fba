/**
 * The emailed code that activates a phone badge: five guesses for each ten minutes, however many
 * codes are asked for, even if guesses run at the same time.
 */
module LoginCode {
  import opened FixedWindow
  import opened Options

  type Digest = nat

  const TTL := 10 * 60_000
  const MAX_ATTEMPTS := 5

  /** The columns of the employee. */
  datatype Row = Row(hash: Option<Digest>, expiresAt: Option<int>, attempts: nat)

  datatype Call =
    | Read(guess: Digest)
    | Take(stored: Digest, guess: Digest, readAt: int)
    | Compare(stored: Digest, guess: Digest, readAt: int)
    | Refused
    | Activated(code: Digest, readAt: int)

  /** A code that was sent. */
  datatype Sent = Sent(hash: Digest, at: int)

  predicate Open(row: Row, now: int) {
    row.expiresAt.Some? && now < row.expiresAt.value
  }

  /** The code was sent at most ten minutes before. */
  ghost predicate Fresh(sent: seq<Sent>, hash: Digest, at: int) {
    exists s <- sent :: s.hash == hash && s.at <= at < s.at + TTL
  }

  /** The code on record was sent, and its window ends within ten minutes of that. */
  ghost predicate OnRecord(sent: seq<Sent>, row: Row, now: int) {
    row.hash.Some? ==>
      && row.expiresAt.Some?
      && exists s <- sent :: s.hash == row.hash.value && s.at <= now && row.expiresAt.value <= s.at + TTL
  }

  /** A call that got past the first look saw a fresh code. */
  ghost predicate Sound(sent: seq<Sent>, c: Call) {
    match c
    case Take(stored, _, readAt) => Fresh(sent, stored, readAt)
    case Compare(stored, _, readAt) => Fresh(sent, stored, readAt)
    case Activated(code, readAt) => Fresh(sent, code, readAt)
    case _ => true
  }

  class Employee {
    var now: int
    var row: Row
    var calls: map<nat, Call>
    /** When each window began, and the guesses charged to it; meaningful until a badge is issued. */
    ghost var starts: seq<int>
    ghost var guesses: seq<Event>
    ghost var issued: bool
    ghost var sent: seq<Sent>

    ghost predicate Valid()
      reads this
    {
      && OnRecord(sent, row, now) && (row.expiresAt.Some? ==> row.expiresAt.value <= now + TTL)
      && (forall c <- calls :: Sound(sent, calls[c]))
      && (forall e <- guesses :: e.at <= now)
      && (!issued ==>
            && Limited(starts, guesses, TTL, MAX_ATTEMPTS)
            && (starts != [] ==> starts[|starts| - 1] <= now)
            && (row.expiresAt.Some? <==> starts != [])
            && (starts != [] ==>
                row.expiresAt == Some(starts[|starts| - 1] + TTL) && |InWindow(guesses, |starts| - 1)| <= row.attempts)
            && row.attempts <= MAX_ATTEMPTS
            && (forall c <- calls :: calls[c].Take? ==> starts != []))
    }

    constructor (start: int)
      ensures Valid() && !issued && guesses == [] && calls == map[]
    {
      now, row, calls := start, Row(None, None, 0), map[];
      starts, guesses, issued, sent := [], [], false, [];
      new;
      assert forall k :: InWindow([], k) == {};
    }

    method Wait(ms: nat)
      requires Valid()
      modifies this`now
      ensures Valid() && now == old(now) + ms
    {
      now := now + ms;
    }

    /**
     * Refused while an open window is used up; else there is a new code, in the open window with its
     * count or in a new one.
     */
    method Request(hash: Digest) returns (done: bool)
      requires Valid()
      modifies this`row, this`starts, this`sent
      ensures Valid()
      ensures !done <==> old(row).expiresAt.Some? && now < old(row).expiresAt.value && old(row).attempts >= 5
      ensures !done ==> row == old(row)
      ensures done ==> row.hash == Some(hash) && row.expiresAt.Some? && now < row.expiresAt.value
      ensures done && old(row).expiresAt.Some? && now < old(row).expiresAt.value ==>
                row.expiresAt == old(row).expiresAt && row.attempts == old(row).attempts
      ensures done && (old(row).expiresAt.Some? ==> old(row).expiresAt.value <= now) ==>
                row.expiresAt == Some(now + 600_000) && row.attempts == 0
    {
      hide Limited, InWindow;
      var open := Open(row, now);
      if open && row.attempts >= MAX_ATTEMPTS { return false; }
      StillSound(sent, calls, Sent(hash, now));
      sent := sent + [Sent(hash, now)];
      assert sent[|sent| - 1] == Sent(hash, now);
      if !open {
        if !issued { WindowBegins(starts, guesses, TTL, MAX_ATTEMPTS, now); }
        starts := starts + [now];
      }
      row := Row(Some(hash), Some(if open then row.expiresAt.value else now + TTL), if open then row.attempts else 0);
      done := true;
    }

    method Arrive(c: nat, guess: Digest)
      requires Valid() && c !in calls
      modifies this`calls
      ensures Valid() && calls == old(calls)[c := Read(guess)]
    {
      calls := calls[c := Read(guess)];
    }

    method ReadRow(c: nat)
      requires Valid() && c in calls && calls[c].Read?
      modifies this`calls
      ensures Valid()
      ensures calls == old(calls)[c :=
                if row.expiresAt.Some? && now < row.expiresAt.value && row.hash.Some?
                then Take(row.hash.value, old(calls)[c].guess, now) else Refused]
    {
      hide Limited, InWindow;
      if Open(row, now) && row.hash.Some? {
        assert Fresh(sent, row.hash.value, now);
        calls := calls[c := Take(row.hash.value, calls[c].guess, now)];
      } else {
        calls := calls[c := Refused];
      }
    }

    /** One update counts the guess if fewer than five are counted; only a guess that was counted is compared. */
    method TakeAttempt(c: nat)
      requires Valid() && c in calls && calls[c].Take?
      modifies this`row, this`calls, this`guesses
      ensures Valid()
      ensures if old(row).attempts < 5 then
                && row == old(row).(attempts := old(row).attempts + 1)
                && calls == old(calls)[c := Compare(old(calls)[c].stored, old(calls)[c].guess, old(calls)[c].readAt)]
                && |guesses| == |old(guesses)| + 1 && guesses[..|old(guesses)|] == old(guesses)
                && guesses[|old(guesses)|].at == now
              else row == old(row) && guesses == old(guesses) && calls == old(calls)[c := Refused]
    {
      hide Limited, InWindow;
      if row.attempts < MAX_ATTEMPTS {
        ghost var e := Event(now, if starts == [] then 0 else |starts| - 1);
        if !issued { Charged(starts, guesses, now, row.attempts); }
        guesses := guesses + [e];
        row := row.(attempts := row.attempts + 1);
        assert Sound(sent, calls[c]);
        calls := calls[c := Compare(calls[c].stored, calls[c].guess, calls[c].readAt)];
      } else {
        calls := calls[c := Refused];
      }
    }

    /** A right guess issues the badge, which also clears the code. */
    method CompareCode(c: nat)
      requires Valid() && c in calls && calls[c].Compare?
      modifies this`row, this`calls, this`issued
      ensures Valid()
      ensures var was := old(calls)[c];
              if was.stored == was.guess then
                row == Row(None, None, 0) && calls == old(calls)[c := Activated(was.guess, was.readAt)] && issued
              else row == old(row) && calls == old(calls)[c := Refused] && issued == old(issued)
    {
      if calls[c].stored == calls[c].guess {
        assert Sound(sent, calls[c]);
        row := Row(None, None, 0);
        issued := true;
        calls := calls[c := Activated(calls[c].guess, calls[c].readAt)];
      } else {
        calls := calls[c := Refused];
      }
    }
  }

  lemma StillSound(sent: seq<Sent>, calls: map<nat, Call>, s: Sent)
    requires forall c <- calls :: Sound(sent, calls[c])
    ensures forall c <- calls :: Sound(sent + [s], calls[c])
  {
    forall hash, at | Fresh(sent, hash, at) ensures Fresh(sent + [s], hash, at) {
      var x :| x in sent && x.hash == hash && x.at <= at < x.at + TTL;
      assert x in sent + [s];
    }
    hide Fresh;
  }

  /** A badge is given only for a code that was sent, and was read less than ten minutes after that. */
  lemma BadgeNeedsFreshCode(e: Employee, c: nat)
    requires e.Valid() && c in e.calls && e.calls[c].Activated?
    ensures exists s <- e.sent :: s.hash == e.calls[c].code && s.at <= e.calls[c].readAt < s.at + 600_000
  {
    assert Sound(e.sent, e.calls[c]);
  }

  /** One more guess charged to the open window, which had one left. */
  lemma Charged(starts: seq<int>, guesses: seq<Event>, now: int, attempts: nat)
    requires Limited(starts, guesses, TTL, MAX_ATTEMPTS) && starts != [] && starts[|starts| - 1] <= now
    requires |InWindow(guesses, |starts| - 1)| <= attempts < MAX_ATTEMPTS
    ensures Limited(starts, guesses + [Event(now, |starts| - 1)], TTL, MAX_ATTEMPTS)
    ensures |InWindow(guesses + [Event(now, |starts| - 1)], |starts| - 1)| <= attempts + 1
  {
    OneMore(guesses, Event(now, |starts| - 1));
  }

  /**
   * Until a badge is issued: at most five guesses are compared in each window, ten in any ten
   * minutes, and five for each begun ten minutes of a span and once more.
   */
  lemma GuessesAreLimited(e: Employee, from: int, span: nat)
    requires e.Valid() && !e.issued
    ensures forall k :: |InWindow(e.guesses, k)| <= MAX_ATTEMPTS
    ensures |InSpan(e.guesses, from, from + TTL)| <= 10
    ensures |InSpan(e.guesses, from, from + span)| <= MAX_ATTEMPTS * (CeilDiv(span, TTL) + 1)
  {
    SpanHolds(e.starts, e.guesses, TTL, MAX_ATTEMPTS, from, span);
    SpanHolds(e.starts, e.guesses, TTL, MAX_ATTEMPTS, from, TTL);
  }
}
