/**
 * The hand-off as the controller runs it: each call is a program counter with what it has read so
 * far, each method is one database statement of one call, and calls take turns in any order.
 */
module SsoControllers {
  import opened Options
  import opened SsoTables

  /** What a call knows of the row it found, the secret its caller showed, and when it looked. */
  datatype Ticket = Ticket(id: RequestId, row: Request, shown: Secret, foundAt: int)

  datatype Reply =
    | NotConfigured | Unreachable | SentToProvider | Stale | AlreadyDone | HandedOff(code: Secret)
    | Expired | OtherBrowser | OtherApp | Told(error: string)
    | NotAllowed | OtherDirectory | NoAccount | Mismatch | NoEmployee
    | SignedIn(user: UserId) | Linked | BadgeGiven | Unlinked

  datatype Call =
    | StartRead(tenant: TenantId, mode: Mode, asked: string, who: Option<UserId>, key: Digest, holder: Digest)
    | StartClean(tenant: TenantId, mode: Mode, provider: string, who: Option<UserId>, key: Digest, holder: Digest)
    | StartInsert(tenant: TenantId, mode: Mode, provider: string, who: Option<UserId>, key: Digest, holder: Digest)
    | CallbackRead(state: Secret, answer: Outcome, handoff: Secret)
    | CallbackWrite(id: RequestId, answer: Outcome, handoff: Secret)
    | FinishRead(tenant: TenantId, code: Secret, cookie: Secret)
    | FinishTake(t: Ticket)
    | LinkAdmin(t: Ticket)
    | LinkWrite(t: Ticket)
    | LinkDone(t: Ticket)
    | LoginTenant(t: Ticket)
    | LoginUser(t: Ticket)
    | LoginBind(t: Ticket, user: UserId)
    | LoginSession(t: Ticket, user: UserId)
    | RedeemRead(tenant: TenantId, code: Secret, verifier: Secret)
    | RedeemTake(t: Ticket)
    | RedeemTenant(t: Ticket)
    | RedeemBadge(t: Ticket)
    | UnlinkTenant(tenant: TenantId)
    | UnlinkUsers(tenant: TenantId)
    | Over(reply: Reply)

  /** What the ticket says is on record: the attempt, its winner, and that the row was still in time. */
  predicate Genuine(s: State, t: Ticket) {
    && t.id in s.past.begun && s.past.begun[t.id] == t.row.start && t.foundAt < t.row.start.expiresAt
    && t.row.handoff.Some? && t.id in s.past.won && s.past.won[t.id] == t.row.outcome
  }

  /**
   * The call took the row, its caller is the one who began, the provider identified the person,
   * nothing is granted yet.
   */
  predicate Holds(s: State, me: CallId, t: Ticket) {
    && Genuine(s, t) && t.row.start.holder == Sha(t.shown) && t.row.outcome.Identified?
    && t.id in s.past.taken && s.past.taken[t.id] == me && NotGranted(s.past, t.id)
  }

  /** What is true at each point of a call, whatever the others did in between. */
  ghost predicate Sound(s: State, me: CallId, c: Call) {
    match c
    case CallbackRead(_, answer, _) => !answer.Pending?
    case CallbackWrite(_, answer, _) => !answer.Pending?
    case FinishTake(t) => Genuine(s, t)
    case RedeemTake(t) => Genuine(s, t) && t.row.start.mode == BADGE
    case LinkAdmin(t) => Holds(s, me, t) && t.row.start.mode == LINK
    case LinkWrite(t) => Holds(s, me, t) && t.row.start.mode == LINK
    case LinkDone(t) => Holds(s, me, t) && t.row.start.mode == LINK
    case LoginTenant(t) => Holds(s, me, t)
    case LoginUser(t) => Holds(s, me, t)
    case LoginBind(t, u) => Holds(s, me, t) && u in s.users && s.users[u].tenant == t.row.start.tenant
    case LoginSession(t, u) => Holds(s, me, t) && SessionDue(s, t, u)
    case RedeemTenant(t) => Holds(s, me, t) && t.row.start.mode == BADGE
    case RedeemBadge(t) => Holds(s, me, t) && t.row.start.mode == BADGE
    case _ => true
  }

  /** What a sound call knows, point by point. */
  lemma Known(s: State, me: CallId, c: Call)
    requires Sound(s, me, c)
    ensures c.CallbackRead? || c.CallbackWrite? ==> !c.answer.Pending?
    ensures c.FinishTake? || c.RedeemTake? ==> Genuine(s, c.t)
    ensures c.RedeemTake? || c.RedeemTenant? || c.RedeemBadge? ==> c.t.row.start.mode == BADGE
    ensures c.LinkAdmin? || c.LinkWrite? || c.LinkDone? ==> Holds(s, me, c.t) && c.t.row.start.mode == LINK
    ensures c.LoginTenant? || c.LoginUser? || c.LoginBind? || c.LoginSession? ==> Holds(s, me, c.t)
    ensures c.RedeemTenant? || c.RedeemBadge? ==> Holds(s, me, c.t)
    ensures c.LoginBind? ==> c.user in s.users && s.users[c.user].tenant == c.t.row.start.tenant
    ensures c.LoginSession? ==> SessionDue(s, c.t, c.user)
  {
    hide Holds, Genuine, SessionDue;
  }

  /** A call over, or one point further with the same ticket, is sound again. */
  lemma GoesOn(s: State, me: CallId, c: Call, next: Call)
    requires Sound(s, me, c)
    requires next.Over? || next.StartClean? || next.StartInsert? || next.UnlinkUsers?
          || (c.LinkAdmin? && next == LinkWrite(c.t)) || (c.LinkWrite? && next == LinkDone(c.t))
          || (c.LoginTenant? && next == LoginUser(c.t)) || (c.RedeemTenant? && next == RedeemBadge(c.t))
          || (c.LoginUser? && next.LoginBind? && next.t == c.t && next.user in s.users
              && s.users[next.user].tenant == c.t.row.start.tenant)
    ensures Sound(s, me, next)
  {
    hide Holds, Genuine, SessionDue;
  }

  lemma InvRows(s: State)
    requires Inv(s)
    ensures RowsOk(s)
  {
    hide RowsOk, UsersOk, GrantsOk;
  }

  lemma HeldFacts(s: State, me: CallId, t: Ticket)
    requires Holds(s, me, t)
    ensures Genuine(s, t) && t.row.start.holder == Sha(t.shown) && t.row.outcome.Identified?
    ensures t.id in s.past.taken && s.past.taken[t.id] == me && NotGranted(s.past, t.id)
  {
    hide Genuine, NotGranted;
  }

  /** A link or badge is due to the call that holds the ticket of such an attempt. */
  lemma HeldIsDue(s: State, me: CallId, t: Ticket, what: What)
    requires RowsOk(s) && Holds(s, me, t)
    requires (what.Link? && t.row.start.mode == LINK) || (what.Badge? && t.row.start.mode == BADGE)
    ensures Justified(s, Grant(t.id, t.shown, t.foundAt, t.row.outcome, what))
  {
    hide RowAgrees, NotGranted;
  }

  function SessionGrant(t: Ticket, u: UserId, epoch: nat): Grant {
    Grant(t.id, t.shown, t.foundAt, t.row.outcome, Session(u, epoch))
  }

  lemma HeldLater(s: State, op: Op, s': State, me: CallId, t: Ticket)
    requires Step(s, op, s') && Later(s, s') && (op.Give? ==> op.call != me)
    ensures Genuine(s, t) ==> Genuine(s', t)
    ensures Holds(s, me, t) ==> Holds(s', me, t)
  {
    hide Justified;
    if !op.Give? { OnlyGiveGrants(s, op, s'); hide Step; }
  }

  /** The account was found bound to the subject, in some epoch since the attempt began. */
  ghost predicate SessionDue(s: State, t: Ticket, u: UserId) {
    exists epoch: nat :: Justified(s, SessionGrant(t, u, epoch))
  }

  /** Steps of other calls leave what a call knows true. */
  lemma OthersKeepSound(s: State, op: Op, s': State, me: CallId, c: Call)
    requires Step(s, op, s') && Later(s, s') && Sound(s, me, c) && (op.Take? || op.Give? ==> op.call != me)
    ensures Sound(s', me, c)
  {
    forall t ensures (Genuine(s, t) ==> Genuine(s', t)) && (Holds(s, me, t) ==> Holds(s', me, t)) {
      HeldLater(s, op, s', me, t);
    }
    hide Step, Holds, Genuine;
    if c.LoginSession? {
      var epoch: nat :| Justified(s, SessionGrant(c.t, c.user, epoch));
      JustifiedLater(s, s', SessionGrant(c.t, c.user, epoch));
    }
    hide Justified;
  }

  lemma StillSound(s: State, op: Op, s': State, calls: map<CallId, Call>, me: CallId)
    requires Inv(s) && Step(s, op, s') && (op.Take? || op.Give? ==> op.call == me)
    requires forall c <- calls :: Sound(s, c, calls[c])
    ensures Inv(s') && forall c <- calls :: c != me ==> Sound(s', c, calls[c])
    ensures !op.Take? && !op.Give? && me in calls ==> Sound(s', me, calls[me])
  {
    StepKeepsInv(s, op, s');
    hide Inv, Step, Sound;
    forall c | c in calls && (c != me || (!op.Take? && !op.Give?)) ensures Sound(s', c, calls[c]) {
      OthersKeepSound(s, op, s', c, calls[c]);
    }
  }

  lemma GenuineIsDecided(s: State, t: Ticket)
    requires Inv(s) && Genuine(s, t)
    ensures !t.row.outcome.Pending?
  {
    hide RowAgrees, UserAgrees, Justified;
  }

  /** A row just found is on record as it was read. */
  lemma FoundIsGenuine(s: State, t: Ticket)
    requires Inv(s) && t.id in s.requests && s.requests[t.id] == t.row && t.row.handoff.Some?
    requires t.foundAt < t.row.start.expiresAt
    ensures Genuine(s, t)
  {
    assert RowAgrees(s, t.id);
  }

  lemma TakenIsHeld(s: State, s': State, me: CallId, t: Ticket)
    requires Inv(s) && Genuine(s, t) && Step(s, Take(me, t.id), s')
    ensures Genuine(s', t) && s'.past.taken[t.id] == me && NotGranted(s'.past, t.id)
  {
    assert RowAgrees(s, t.id);
    assert forall g <- s.past.grants :: g.id in s.past.taken;
  }

  lemma BoundIsJustified(s: State, t: Ticket, u: UserId)
    requires Inv(s) && Genuine(s, t) && t.row.start.holder == Sha(t.shown) && t.row.outcome.Identified?
    requires u in s.users && s.users[u].tenant == t.row.start.tenant
    requires s.users[u].subject == Some(t.row.outcome.subject)
    ensures SessionDue(s, t, u)
  {
    assert UserAgrees(s, u);
    assert Justified(s, SessionGrant(t, u, Epoch(s, u)));
  }

  lemma NextIsSound(s: State, me: CallId, t: Ticket, next: Call)
    requires Genuine(s, t) && t.id in s.past.taken && s.past.taken[t.id] == me && NotGranted(s.past, t.id)
    requires next.Over? || (t.row.start.holder == Sha(t.shown) && t.row.outcome.Identified?)
    requires next.Over? || (next == LinkAdmin(t) && t.row.start.mode == LINK) || next == LoginTenant(t)
        || (next == RedeemTenant(t) && t.row.start.mode == BADGE)
    ensures Sound(s, me, next)
  {
  }

  lemma BoundIsSound(s: State, me: CallId, t: Ticket, u: UserId)
    requires Inv(s) && Holds(s, me, t) && u in s.users && s.users[u].tenant == t.row.start.tenant
    requires t.row.outcome.Identified? && s.users[u].subject == Some(t.row.outcome.subject)
    ensures Sound(s, me, LoginSession(t, u))
  {
    hide Inv, SessionDue, Genuine, NotGranted;
    BoundIsJustified(s, t, u);
  }

  class SsoController {
    var now: int
    var requests: map<RequestId, Request>
    var tenants: map<TenantId, Option<Directory>>
    var users: map<UserId, User>
    /** The providers set up for the installation, and how an email is compared: trimmed and in lower case. */
    const providers: set<string>
    const normalise: string -> string
    /** Active employees, by tenant and email as it is compared. */
    var employees: set<(TenantId, string)>
    var calls: map<CallId, Call>
    ghost var past: Past
    ghost var states: seq<State>
    ghost var ops: seq<Op>

    ghost function Tables(): State
      reads this
    {
      State(now, requests, tenants, users, past)
    }

    /** The tables are where a run of statements from empty tables led, and every call is sound. */
    ghost predicate Valid()
      reads this
    {
      && Run(states, ops) && states[0] == Empty(states[0].now) && states[|ops|] == Tables()
      && Inv(Tables())
      && forall c <- calls :: Sound(Tables(), c, calls[c])
    }

    constructor (start: int, providers: set<string>, normalise: string -> string)
      ensures this.providers == providers && this.normalise == normalise
      ensures Valid() && now == start && requests == map[] && calls == map[] && past.grants == []
    {
      this.providers, this.normalise := providers, normalise;
      now, requests, tenants, users, employees, calls := start, map[], map[], map[], {}, map[];
      past, states, ops := Empty(start).past, [Empty(start)], [];
    }

    /** Puts a statement on record. */
    ghost method Record(op: Op, me: CallId, s: State)
      requires Run(states, ops) && states[0] == Empty(states[0].now) && states[|ops|] == s && Inv(s)
      requires Step(s, op, Tables()) && (op.Take? || op.Give? ==> op.call == me)
      requires forall c <- calls :: Sound(s, c, calls[c])
      modifies this`states, this`ops
      ensures Run(states, ops) && states[0] == Empty(states[0].now) && states[|ops|] == Tables()
      ensures Inv(Tables()) && Later(s, Tables())
      ensures forall c <- calls :: c != me || (!op.Take? && !op.Give?) ==> Sound(Tables(), c, calls[c])
    {
      hide Inv, Step, Sound;
      RunGoesOn(states, ops, op, Tables());
      StepKeepsInv(s, op, Tables());
      StillSound(s, op, Tables(), calls, me);
      states, ops := states + [Tables()], ops + [op];
    }

    // -------------------------------------------------------------- around the hand-off

    method Tick(to: int)
      requires Valid() && now <= to
      modifies this
      ensures Valid() && now == to && calls == old(calls) && requests == old(requests) && users == old(users)
    {
      ghost var s := Tables();
      now := to;
      hide Inv, Sound;
      Record(Op.Tick(to), 0, s);
    }

    /** Expired attempts go: when another begins, and in the retention job. */
    method DeleteExpired()
      requires Valid()
      modifies this
      ensures now == old(now) && users == old(users) && tenants == old(tenants)
      ensures Valid() && calls == old(calls)
      ensures requests == map id <- old(requests) | now <= old(requests)[id].start.expiresAt :: old(requests)[id]
    {
      ghost var s := Tables();
      var gone := set id <- requests | requests[id].start.expiresAt < now;
      requests := requests - gone;
      hide Inv, Sound;
      Record(Expire(gone), 0, s);
    }

    method SaveUser(u: UserId, tenant: TenantId, email: string, active: bool, superAdmin: bool)
      requires Valid() && (u in users ==> users[u].tenant == tenant)
      modifies this
      ensures Valid() && calls == old(calls)
      ensures users ==
          old(users)[u :=
          User(tenant, email, active, superAdmin, if u in old(users) then old(users)[u].subject else None)]
    {
      ghost var s := Tables();
      users := users[u := User(tenant, email, active, superAdmin, if u in users then users[u].subject else None)];
      hide Inv, Sound;
      Record(SetUser(u, tenant, email, active, superAdmin), 0, s);
    }

    method AddTenant(tenant: TenantId)
      requires Valid() && tenant !in tenants
      modifies this
      ensures Valid() && calls == old(calls) && tenants == old(tenants)[tenant := None]
    {
      ghost var s := Tables();
      tenants := tenants[tenant := None];
      hide Inv, Sound;
      Record(Op.AddTenant(tenant), 0, s);
    }

    method SaveEmployees(emails: set<(TenantId, string)>)
      requires Valid()
      modifies this`employees
      ensures Valid() && employees == emails
    {
      employees := emails;
    }

    /** A request arrives; the provider's answer to a callback is anything but silence. */
    method Arrive(c: CallId, call: Call)
      requires Valid() && c !in calls
      requires (call.CallbackRead? && !call.answer.Pending?) || call.StartRead? || call.FinishRead? || call.RedeemRead?
          || call.UnlinkTenant?
      modifies this`calls
      ensures Valid() && calls == old(calls)[c := call]
    {
      hide Inv;
      calls := calls[c := call];
    }

    /** The call goes on to `next`; the tables are as they were. */
    method GoOn(c: CallId, next: Call)
      requires Valid() && c in calls && Sound(Tables(), c, next)
      modifies this`calls
      ensures Valid() && Tables() == old(Tables()) && calls == old(calls)[c := next]
    {
      hide Inv, Sound;
      calls := calls[c := next];
    }

    // -------------------------------------------------------------- start

    /** Signing in and the badge go to the tenant's provider, linking to the one asked for, if it is set up. */
    method LookUpStart(c: CallId)
      requires Valid() && c in calls && calls[c].StartRead?
      modifies this`calls
      ensures Valid() && Tables() == old(Tables()) && calls.Keys == old(calls).Keys
      ensures var was := old(calls)[c];
              var linked := was.tenant in tenants && tenants[was.tenant].Some?;
              var provider := if was.mode == LINK then was.asked else if linked then tenants[was.tenant].value.provider
                  else "";
              calls[c] == if (was.mode == LINK || linked) && provider in providers
                          then StartClean(was.tenant, was.mode, provider, was.who, was.key, was.holder)
                              else Over(NotConfigured)
    {
      hide Inv, Sound;
      var was := calls[c];
      var linked := was.tenant in tenants && tenants[was.tenant].Some?;
      var provider := if was.mode == LINK then was.asked else if linked then tenants[was.tenant].value.provider else "";
      if (was.mode == LINK || linked) && provider in providers {
        var next := StartClean(was.tenant, was.mode, provider, was.who, was.key, was.holder);
        GoesOn(Tables(), c, calls[c], next);
        GoOn(c, next);
      } else {
        End(c, NotConfigured);
      }
    }

    method CleanForStart(c: CallId)
      requires Valid() && c in calls && calls[c].StartClean?
      modifies this
      ensures Valid() && now == old(now) && users == old(users) && tenants == old(tenants)
      ensures requests == map id <- old(requests) | now <= old(requests)[id].start.expiresAt :: old(requests)[id]
      ensures var was := old(calls)[c];
              calls == old(calls)[c := StartInsert(was.tenant, was.mode, was.provider, was.who, was.key, was.holder)]
    {
      hide Inv, Sound;
      var was := calls[c];
      var next := StartInsert(was.tenant, was.mode, was.provider, was.who, was.key, was.holder);
      DeleteExpired();
      GoesOn(Tables(), c, calls[c], next);
      GoOn(c, next);
    }

    /** The attempt is stored, with ten minutes to go, unless the provider could not be asked for its address. */
    method InsertStart(c: CallId, id: RequestId, reachable: bool)
      requires Valid() && c in calls && calls[c].StartInsert? && id !in past.begun
      modifies this
      ensures Valid() && users == old(users) && tenants == old(tenants) && now == old(now)
      ensures calls == old(calls)[c := Over(if reachable then SentToProvider else Unreachable)]
      ensures var was := old(calls)[c];
              var start := Start(was.tenant, was.provider, was.mode, was.who, was.key, was.holder, now + 600_000);
              requests == if reachable then old(requests)[id := Request(start, None, Pending)] else old(requests)
    {
      hide Inv, Sound;
      var was := calls[c];
      if reachable {
        Insert(id, Start(was.tenant, was.provider, was.mode, was.who, was.key, was.holder, now + TTL));
      }
      End(c, if reachable then SentToProvider else Unreachable);
    }

    method Insert(id: RequestId, start: Start)
      requires Valid() && id !in past.begun && start.expiresAt == now + TTL
      modifies this
      ensures Valid() && users == old(users) && tenants == old(tenants) && now == old(now) && calls == old(calls)
      ensures requests == old(requests)[id := Request(start, None, Pending)]
    {
      ghost var s := Tables();
      requests := requests[id := Request(start, None, Pending)];
      past := past.(begun := past.begun[id := start], begunIn := past.begunIn[id := EpochOf(past, start.tenant)]);
      hide Inv, Sound;
      Record(Op.Begin(id, start), 0, s);
    }

    // -------------------------------------------------------------- callback

    method LookUpState(c: CallId)
      requires Valid() && c in calls && calls[c].CallbackRead?
      modifies this`calls
      ensures Valid() && Tables() == old(Tables()) && calls.Keys == old(calls).Keys
      ensures var was := old(calls)[c];
              if calls[c].CallbackWrite? then
                calls[c].answer == was.answer && calls[c].handoff == was.handoff && calls[c].id in requests
                && requests[calls[c].id].start.state == Sha(was.state) && requests[calls[c].id].handoff.None?
                && now < requests[calls[c].id].start.expiresAt
              else
                calls[c] == Over(Stale) && forall r <- requests ::
                    requests[r].start.state == Sha(was.state) && requests[r].handoff.None? ==>
                    requests[r].start.expiresAt <= now
    {
      hide Inv;
      var call := calls[c];
      Known(Tables(), c, call);
      if r :|
          r in requests && requests[r].start.state == Sha(call.state) && requests[r].handoff.None?
              && requests[r].start.expiresAt > now {
        GoOn(c, CallbackWrite(r, call.answer, call.handoff));
      } else {
        GoOn(c, Over(Stale));
      }
    }

    /** The row gets outcome and digest exactly if it has no digest yet; the call's caller is then its winner. */
    method WriteOutcome(c: CallId)
      requires Valid() && c in calls && calls[c].CallbackWrite?
      modifies this
      ensures Valid() && calls.Keys == old(calls).Keys
      ensures var was := old(calls)[c];
              if was.id in old(requests) && old(requests)[was.id].handoff.None? then
                Step(old(Tables()), Win(was.id, Sha(was.handoff), was.answer), Tables())
                    && calls[c] == Over(HandedOff(was.handoff))
              else Tables() == old(Tables()) && calls[c] == Over(AlreadyDone)
    {
      hide Inv, Sound;
      var call := calls[c];
      Known(Tables(), c, call);
      if call.id in requests && requests[call.id].handoff.None? {
        ghost var s := Tables();
        requests := requests[call.id := requests[call.id].(handoff := Some(Sha(call.handoff)), outcome := call.answer)];
        past := past.(won := past.won[call.id := call.answer]);
        Record(Win(call.id, Sha(call.handoff), call.answer), c, s);
        End(c, HandedOff(call.handoff));
      } else {
        End(c, AlreadyDone);
      }
    }

    method End(c: CallId, reply: Reply)
      requires Valid() && c in calls
      modifies this`calls
      ensures Valid() && Tables() == old(Tables()) && calls == old(calls)[c := Over(reply)]
    {
      hide Inv, Sound;
      GoesOn(Tables(), c, calls[c], Over(reply));
      GoOn(c, Over(reply));
    }

    // -------------------------------------------------------------- finish

    method LookUpHandoff(c: CallId)
      requires Valid() && c in calls && calls[c].FinishRead?
      modifies this`calls
      ensures Valid() && Tables() == old(Tables()) && calls.Keys == old(calls).Keys
      ensures var was := old(calls)[c];
              if calls[c].FinishTake? then
                var t := calls[c].t;
                t.id in requests && requests[t.id] == t.row && t.shown == was.cookie && t.foundAt == now
                && t.row.handoff == Some(Sha(was.code)) && t.row.start.tenant == was.tenant
                && now < t.row.start.expiresAt
              else
                calls[c] == Over(Expired)
                && forall r <- requests ::
                    requests[r].handoff == Some(Sha(was.code)) && requests[r].start.tenant == was.tenant ==>
                    requests[r].start.expiresAt <= now
    {
      hide Inv, Genuine;
      var call := calls[c];
      if r :|
          r in requests && requests[r].handoff == Some(Sha(call.code)) && requests[r].start.tenant == call.tenant
              && requests[r].start.expiresAt > now {
        var t := Ticket(r, requests[r], call.cookie, now);
        FoundIsGenuine(Tables(), t);
        GoOn(c, FinishTake(t));
      } else {
        GoOn(c, Over(Expired));
      }
    }

    /** Of the calls that found the row, only the one whose deletion counts a row goes on. */
    method TakeRow(c: CallId, t: Ticket, next: Call)
      requires Valid() && c in calls && Genuine(Tables(), t) && t.id in requests
      requires next.Over? || (t.row.start.holder == Sha(t.shown) && t.row.outcome.Identified?)
      requires next.Over? || (next == LinkAdmin(t) && t.row.start.mode == LINK) || next == LoginTenant(t)
          || (next == RedeemTenant(t) && t.row.start.mode == BADGE)
      modifies this
      ensures Valid() && Step(old(Tables()), Take(c, t.id), Tables()) && calls == old(calls)[c := next]
    {
      ghost var s := Tables();
      assert requests[t.id].handoff.Some? by { assert RowAgrees(s, t.id); }
      requests := requests - {t.id};
      past := past.(taken := past.taken[t.id := c]);
      hide Inv, Sound, Genuine;
      TakenIsHeld(s, Tables(), c, t);
      NextIsSound(Tables(), c, t, next);
      calls := calls[c := next];
      assert forall x <- calls :: x != c ==> Sound(s, x, calls[x]);
      RecordTaken(c, t.id, next, s);
    }

    ghost method RecordTaken(me: CallId, id: RequestId, next: Call, s: State)
      requires Run(states, ops) && states[0] == Empty(states[0].now) && states[|ops|] == s && Inv(s)
      requires Step(s, Take(me, id), Tables()) && me in calls && Sound(Tables(), me, calls[me])
      requires forall c <- calls :: c != me ==> Sound(s, c, calls[c])
      modifies this`states, this`ops
      ensures Valid()
    {
      hide Inv, Step, Sound;
      RunGoesOn(states, ops, Take(me, id), Tables());
      StepKeepsInv(s, Take(me, id), Tables());
      forall c | c in calls && c != me ensures Sound(Tables(), c, calls[c]) {
        OthersKeepSound(s, Take(me, id), Tables(), c, calls[c]);
      }
      states, ops := states + [Tables()], ops + [Take(me, id)];
    }

    method TakeForFinish(c: CallId)
      requires Valid() && c in calls && calls[c].FinishTake?
      modifies this
      ensures Valid() && calls.Keys == old(calls).Keys
      ensures var t := old(calls)[c].t;
              if t.id in old(requests) && old(requests)[t.id].handoff == t.row.handoff then
                && Step(old(Tables()), Take(c, t.id), Tables())
                && calls[c] == (if t.row.start.holder != Sha(t.shown) then Over(OtherBrowser)
                                else match t.row.outcome
                                     case Failed(error) => Over(Told(error))
                                     case _ => if t.row.start.mode == LINK then LinkAdmin(t) else LoginTenant(t))
              else Tables() == old(Tables()) && calls[c] == Over(Expired)
    {
      hide Inv, Sound, Genuine, Step;
      var t := calls[c].t;
      Known(Tables(), c, calls[c]);
      GenuineIsDecided(Tables(), t);
      if t.id in requests && requests[t.id].handoff == t.row.handoff {
        if t.row.start.holder != Sha(t.shown) {
          TakeRow(c, t, Over(OtherBrowser));
        } else if t.row.outcome.Failed? {
          TakeRow(c, t, Over(Told(t.row.outcome.error)));
        } else if t.row.start.mode == LINK {
          TakeRow(c, t, LinkAdmin(t));
        } else {
          TakeRow(c, t, LoginTenant(t));
        }
      } else {
        End(c, Expired);
      }
    }

    // -------------------------------------------------------------- linking

    method LookUpAdmin(c: CallId)
      requires Valid() && c in calls && calls[c].LinkAdmin?
      modifies this`calls
      ensures Valid() && Tables() == old(Tables()) && calls.Keys == old(calls).Keys
      ensures var t := old(calls)[c].t; var who := t.row.start.user;
              calls[c] == if who.Some? && who.value in users && users[who.value].tenant == t.row.start.tenant
                  && users[who.value].active && users[who.value].superAdmin
                          then LinkWrite(t) else Over(NotAllowed)
    {
      hide Inv, Sound;
      var t := calls[c].t;
      var who := t.row.start.user;
      GoesOn(Tables(), c, calls[c], LinkWrite(t));
      if who.Some? && who.value in users && users[who.value].tenant == t.row.start.tenant && users[who.value].active
          && users[who.value].superAdmin {
        GoOn(c, LinkWrite(t));
      } else {
        End(c, NotAllowed);
      }
    }

    /** In one transaction: another directory forgets every account's subject. */
    method WriteLink(c: CallId)
      requires Valid() && c in calls && calls[c].LinkWrite?
      modifies this
      ensures Valid() && calls.Keys == old(calls).Keys
      ensures var t := old(calls)[c].t;
              if t.row.start.tenant in old(tenants) && t.row.outcome.Identified? then
                var dir := Directory(t.row.start.provider, t.row.outcome.org);
                && Step(old(Tables()), Relink(t.row.start.tenant, dir), Tables()) && calls[c] == LinkDone(t)
                && tenants == old(tenants)[t.row.start.tenant := Some(dir)]
                && users == (if old(tenants)[t.row.start.tenant] == Some(dir) then old(users)
                    else Forgotten(old(users), t.row.start.tenant))
              else Tables() == old(Tables()) && calls[c] == Over(Told("NOT_FOUND"))
    {
      hide Inv, Sound, Step, Forgotten, Holds;
      var t := calls[c].t;
      Known(Tables(), c, calls[c]);
      HeldFacts(Tables(), c, t);
      var tenant := t.row.start.tenant;
      if tenant in tenants {
        Relate(c, tenant, Directory(t.row.start.provider, t.row.outcome.org));
        GoesOn(Tables(), c, calls[c], LinkDone(t));
        GoOn(c, LinkDone(t));
      } else {
        End(c, Told("NOT_FOUND"));
      }
    }

    /** The transaction itself. */
    method Relate(c: CallId, tenant: TenantId, dir: Directory)
      requires Valid() && c in calls && tenant in tenants
      modifies this
      ensures Valid() && calls == old(calls) && Step(old(Tables()), Relink(tenant, dir), Tables())
      ensures tenants == old(tenants)[tenant := Some(dir)]
      ensures users == if old(tenants)[tenant] == Some(dir) then old(users) else Forgotten(old(users), tenant)
    {
      hide Inv, Sound, Justified, Cleared, Forgotten;
      ghost var s := Tables();
      var changed := tenants[tenant] != Some(dir);
      if changed {
        users := Forgotten(users, tenant);
        past := past.(epochs := past.epochs[tenant := EpochOf(past, tenant) + 1]);
      }
      tenants := tenants[tenant := Some(dir)];
      ClearedForgets(s.(tenants := tenants), tenant);
      Record(Relink(tenant, dir), c, s);
    }

    // -------------------------------------------------------------- signing in

    method LookUpTenant(c: CallId)
      requires Valid() && c in calls && calls[c].LoginTenant?
      modifies this`calls
      ensures Valid() && Tables() == old(Tables()) && calls.Keys == old(calls).Keys
      ensures var t := old(calls)[c].t;
              calls[c] == if t.row.outcome.Identified? && t.row.start.tenant in tenants
                  && tenants[t.row.start.tenant] == Some(Directory(t.row.start.provider, t.row.outcome.org))
                          then LoginUser(t) else Over(OtherDirectory)
    {
      hide Inv, Sound, Holds;
      var t := calls[c].t;
      Known(Tables(), c, calls[c]);
      HeldFacts(Tables(), c, t);
      GoesOn(Tables(), c, calls[c], LoginUser(t));
      if t.row.start.tenant in tenants
          && tenants[t.row.start.tenant] == Some(Directory(t.row.start.provider, t.row.outcome.org)) {
        GoOn(c, LoginUser(t));
      } else {
        End(c, OtherDirectory);
      }
    }

    method LookUpUser(c: CallId)
      requires Valid() && c in calls && calls[c].LoginUser?
      modifies this`calls
      ensures Valid() && Tables() == old(Tables()) && calls.Keys == old(calls).Keys
      ensures var t := old(calls)[c].t;
              t.row.outcome.Identified? &&
              var tenant, email, subject := t.row.start.tenant, t.row.outcome.email, t.row.outcome.subject;
              match calls[c]
              case LoginSession(t', u) =>
                && t' == t && u in users && users[u].tenant == tenant && users[u].email == email && users[u].active
                && users[u].subject == Some(subject)
              case LoginBind(t', u) =>
                t' == t && u in users && users[u].tenant == tenant && users[u].email == email && users[u].active
                    && users[u].subject == None
              case Over(Mismatch) =>
                exists u <- users :: users[u].tenant == tenant && users[u].email == email && users[u].active
                                     && users[u].subject.Some? && users[u].subject.value != subject
              case Over(NoAccount) =>
                || (exists u <- users :: users[u].tenant == tenant && users[u].email == email && !users[u].active)
                || (forall u <- users :: !(users[u].tenant == tenant && users[u].email == email))
              case _ => false
    {
      hide Inv, Sound, Holds;
      var t := calls[c].t;
      Known(Tables(), c, calls[c]);
      HeldFacts(Tables(), c, t);
      if u :| u in users && users[u].tenant == t.row.start.tenant && users[u].email == t.row.outcome.email {
        if !users[u].active {
          End(c, NoAccount);
        } else if users[u].subject.None? {
          GoesOn(Tables(), c, calls[c], LoginBind(t, u));
          GoOn(c, LoginBind(t, u));
        } else if users[u].subject.value != t.row.outcome.subject {
          End(c, Mismatch);
        } else {
          BoundIsSound(Tables(), c, t, u);
          GoOn(c, LoginSession(t, u));
        }
      } else {
        End(c, NoAccount);
      }
    }

    /** The first sign-in binds the account, unless somebody else just did. */
    method BindUser(c: CallId)
      requires Valid() && c in calls && calls[c].LoginBind?
      modifies this
      ensures Valid() && calls.Keys == old(calls).Keys
      ensures var t, u := old(calls)[c].t, old(calls)[c].user;
              if u in old(users) && t.row.outcome.Identified? && old(users)[u].subject.None? then
                Step(old(Tables()), Bind(u, t.row.outcome.subject), Tables()) && calls[c] == LoginSession(t, u)
              else Tables() == old(Tables()) && calls[c] == Over(Mismatch)
    {
      hide Inv, Sound, Step, Holds, Genuine;
      var t, u := calls[c].t, calls[c].user;
      Known(Tables(), c, calls[c]);
      HeldFacts(Tables(), c, t);
      if users[u].subject.None? {
        WriteSubject(c, u, t.row.outcome.subject);
        Known(Tables(), c, calls[c]);
        BoundIsSound(Tables(), c, t, u);
        GoOn(c, LoginSession(t, u));
      } else {
        End(c, Mismatch);
      }
    }

    method WriteSubject(c: CallId, u: UserId, subject: string)
      requires Valid() && c in calls && u in users && users[u].subject.None?
      modifies this
      ensures Valid() && calls == old(calls) && Step(old(Tables()), Bind(u, subject), Tables())
      ensures u in users && users[u] == old(users)[u].(subject := Some(subject))
    {
      hide Inv, Sound, Justified;
      ghost var s := Tables();
      users := users[u := users[u].(subject := Some(subject))];
      past := past.(bound := past.bound[(u, Epoch(s, u)) := subject]);
      Record(Bind(u, subject), c, s);
    }

    /** Gives what the call has earned, and ends it. */
    method GiveAndEnd(c: CallId, ghost g: Grant, reply: Reply)
      requires Valid() && c in calls && g.id in past.taken && past.taken[g.id] == c && NotGranted(past, g.id)
      requires Justified(Tables(), g)
      modifies this`past, this`calls, this`states, this`ops
      ensures Valid() && calls == old(calls)[c := Over(reply)]
      ensures past == old(past).(grants := old(past).grants + [g])
    {
      ghost var s := Tables();
      hide Inv, Justified;
      calls := calls[c := Over(reply)];
      past := past.(grants := past.grants + [g]);
      assert forall x <- calls :: Sound(s, x, calls[x]);
      hide Sound;
      Record(Give(c, g), c, s);
      assert Sound(Tables(), c, Over(reply));
    }

    method StartSession(c: CallId)
      requires Valid() && c in calls && calls[c].LoginSession?
      modifies this
      ensures Valid() && calls.Keys == old(calls).Keys
      ensures var t, u := old(calls)[c].t, old(calls)[c].user;
              && calls[c] == Over(SignedIn(u)) && NotGranted(old(past), t.id)
              && exists epoch: nat :: past == old(past).(grants := old(past).grants + [SessionGrant(t, u, epoch)])
    {
      hide Inv, Sound, Justified, Holds, Genuine;
      var t, u := calls[c].t, calls[c].user;
      Known(Tables(), c, calls[c]);
      HeldFacts(Tables(), c, t);
      ghost var epoch: nat :| Justified(Tables(), SessionGrant(t, u, epoch));
      GiveAndEnd(c, SessionGrant(t, u, epoch), SignedIn(u));
    }

    method FinishLink(c: CallId)
      requires Valid() && c in calls && calls[c].LinkDone?
      modifies this
      ensures Valid() && calls.Keys == old(calls).Keys
      ensures var t := old(calls)[c].t;
              && calls[c] == Over(Linked) && NotGranted(old(past), t.id)
              && past == old(past).(grants := old(past).grants + [Grant(t.id, t.shown, t.foundAt, t.row.outcome, Link)])
    {
      hide Inv, Sound, Justified, Holds, Genuine;
      var t := calls[c].t;
      Known(Tables(), c, calls[c]);
      HeldFacts(Tables(), c, t);
      assert RowsOk(Tables()) by { InvRows(Tables()); }
      HeldIsDue(Tables(), c, t, Link);
      GiveAndEnd(c, Grant(t.id, t.shown, t.foundAt, t.row.outcome, Link), Linked);
    }

    // -------------------------------------------------------------- the phone badge

    method LookUpBadge(c: CallId)
      requires Valid() && c in calls && calls[c].RedeemRead?
      modifies this`calls
      ensures Valid() && Tables() == old(Tables()) && calls.Keys == old(calls).Keys
      ensures var was := old(calls)[c];
              if calls[c].RedeemTake? then
                var t := calls[c].t;
                t.id in requests && requests[t.id] == t.row && t.shown == was.verifier && t.foundAt == now
                && t.row.handoff == Some(Sha(was.code)) && t.row.start.tenant == was.tenant && t.row.start.mode == BADGE
                && now < t.row.start.expiresAt
              else
                calls[c] == Over(Expired)
                && forall r <- requests ::
                    requests[r].handoff == Some(Sha(was.code)) && requests[r].start.tenant == was.tenant
                    && requests[r].start.mode == BADGE ==>
                     requests[r].start.expiresAt <= now
    {
      var call := calls[c];
      if r :|
          r in requests && requests[r].handoff == Some(Sha(call.code)) && requests[r].start.tenant == call.tenant
              && requests[r].start.mode == BADGE
              && requests[r].start.expiresAt > now {
        var t := Ticket(r, requests[r], call.verifier, now);
        FoundIsGenuine(Tables(), t);
        GoOn(c, RedeemTake(t));
      } else {
        GoOn(c, Over(Expired));
      }
    }

    method TakeForBadge(c: CallId)
      requires Valid() && c in calls && calls[c].RedeemTake?
      modifies this
      ensures Valid() && calls.Keys == old(calls).Keys
      ensures var t := old(calls)[c].t;
              if t.id in old(requests) && old(requests)[t.id].handoff == t.row.handoff then
                && Step(old(Tables()), Take(c, t.id), Tables())
                && calls[c] == (if Sha(t.shown) != t.row.start.holder then Over(OtherApp)
                                else match t.row.outcome
                                     case Failed(error) => Over(Told(error))
                                     case _ => RedeemTenant(t))
              else Tables() == old(Tables()) && calls[c] == Over(Expired)
    {
      hide Inv, Sound, Genuine, Step;
      var t := calls[c].t;
      Known(Tables(), c, calls[c]);
      GenuineIsDecided(Tables(), t);
      if t.id in requests && requests[t.id].handoff == t.row.handoff {
        if Sha(t.shown) != t.row.start.holder {
          TakeRow(c, t, Over(OtherApp));
        } else if t.row.outcome.Failed? {
          TakeRow(c, t, Over(Told(t.row.outcome.error)));
        } else {
          TakeRow(c, t, RedeemTenant(t));
        }
      } else {
        End(c, Expired);
      }
    }

    method LookUpBadgeTenant(c: CallId)
      requires Valid() && c in calls && calls[c].RedeemTenant?
      modifies this`calls
      ensures Valid() && Tables() == old(Tables()) && calls.Keys == old(calls).Keys
      ensures var t := old(calls)[c].t;
              calls[c] == if t.row.outcome.Identified? && t.row.start.tenant in tenants
                  && tenants[t.row.start.tenant] == Some(Directory(t.row.start.provider, t.row.outcome.org))
                          then RedeemBadge(t) else Over(OtherDirectory)
    {
      hide Inv, Sound, Holds;
      var t := calls[c].t;
      Known(Tables(), c, calls[c]);
      HeldFacts(Tables(), c, t);
      GoesOn(Tables(), c, calls[c], RedeemBadge(t));
      if t.row.start.tenant in tenants
          && tenants[t.row.start.tenant] == Some(Directory(t.row.start.provider, t.row.outcome.org)) {
        GoOn(c, RedeemBadge(t));
      } else {
        End(c, OtherDirectory);
      }
    }

    method IssueBadge(c: CallId)
      requires Valid() && c in calls && calls[c].RedeemBadge?
      modifies this
      ensures Valid() && calls.Keys == old(calls).Keys
      ensures var t := old(calls)[c].t;
              t.row.outcome.Identified? &&
              if (t.row.start.tenant, normalise(t.row.outcome.email)) in employees then
                && calls[c] == Over(BadgeGiven) && NotGranted(old(past), t.id)
                && past == old(past).(grants :=
                    old(past).grants + [Grant(t.id, t.shown, t.foundAt, t.row.outcome, Badge)])
              else Tables() == old(Tables()) && calls[c] == Over(NoEmployee)
    {
      hide Inv, Sound, Justified, Holds, Genuine;
      var t := calls[c].t;
      ghost var g := Grant(t.id, t.shown, t.foundAt, t.row.outcome, Badge);
      Known(Tables(), c, calls[c]);
      HeldFacts(Tables(), c, t);
      assert RowsOk(Tables()) by { InvRows(Tables()); }
      HeldIsDue(Tables(), c, t, Badge);
      if (t.row.start.tenant, normalise(t.row.outcome.email)) in employees {
        GiveAndEnd(c, g, BadgeGiven);
      } else {
        End(c, NoEmployee);
      }
    }

    // -------------------------------------------------------------- unlinking

    method UnlinkFirst(c: CallId)
      requires Valid() && c in calls && calls[c].UnlinkTenant?
      modifies this
      ensures Valid() && calls.Keys == old(calls).Keys
      ensures var tenant := old(calls)[c].tenant;
              && calls[c] == (if tenant in old(tenants) then UnlinkUsers(tenant) else Over(Told("NOT_FOUND")))
              && tenants == (if tenant in old(tenants) then old(tenants)[tenant := None] else old(tenants))
              && users == old(users) && requests == old(requests)
    {
      var tenant := calls[c].tenant;
      hide Inv, Sound;
      if tenant in tenants {
        ghost var s := Tables();
        tenants := tenants[tenant := None];
        Record(Unlink(tenant), c, s);
        GoesOn(Tables(), c, calls[c], UnlinkUsers(tenant));
        GoOn(c, UnlinkUsers(tenant));
      } else {
        End(c, Told("NOT_FOUND"));
      }
    }

    method UnlinkSecond(c: CallId)
      requires Valid() && c in calls && calls[c].UnlinkUsers?
      modifies this
      ensures Valid() && calls.Keys == old(calls).Keys
      ensures calls[c] == Over(Unlinked) && users == Forgotten(old(users), old(calls)[c].tenant)
      ensures tenants == old(tenants) && requests == old(requests)
    {
      var tenant := calls[c].tenant;
      hide Inv, Sound;
      ghost var s := Tables();
      users := Forgotten(users, tenant);
      past := past.(epochs := past.epochs[tenant := EpochOf(past, tenant) + 1]);
      ClearedForgets(s, tenant);
      Record(Clear(tenant), c, s);
      End(c, Unlinked);
    }
  }

  lemma ClearedForgets(s: State, t: TenantId)
    ensures Cleared(s, t) ==
        s.(users := Forgotten(s.users, t), past := s.past.(epochs := s.past.epochs[t := EpochOf(s.past, t) + 1]))
  {
  }

  /**
   * However the calls took turns: each attempt has yielded at most one session, link or badge, in
   * time, for the identity its winning callback wrote, to the holder of the secret stored when it
   * began; a session is one of the attempt's tenant, a link or badge of an attempt for one. That the
   * step `Give` of SsoTables is only taken when this is so is what `Sound` carries through the calls.
   */
  lemma ControllerIsSafe(c: SsoController)
    requires c.Valid()
    ensures OneEach(c.past.grants)
    ensures forall g <- c.past.grants :: WellGranted(c.Tables(), g)
  {
    OneGrantToItsHolder(c.states, c.ops, c.states[0].now, |c.ops|);
  }

  /**
   * As long as the controller neither unlinked the tenant nor linked it to another directory, all
   * sessions of one user, from attempts begun in that time, carry the same subject.
   */
  lemma ControllerKeepsSubject(c: SsoController, t: TenantId, since: nat, g: Grant, h: Grant)
    requires c.Valid() && since <= |c.ops|
    requires forall k :: since <= k < |c.ops| ==> !Clears(c.states[k], c.ops[k], t)
    requires g in c.past.grants && h in c.past.grants
    requires g.what.Session? && h.what.Session? && g.what.user == h.what.user
    requires g.id !in c.states[since].past.begun && h.id !in c.states[since].past.begun
    requires g.what.user in c.users && c.users[g.what.user].tenant == t
    ensures g.identity.Identified? && h.identity.Identified? && g.identity.subject == h.identity.subject
  {
    NoRelinkSameSubject(c.states, c.ops, c.states[0].now, t, since, |c.ops|, g, h);
  }

  function Forgotten(users: map<UserId, User>, t: TenantId): map<UserId, User> {
    map u <- users :: if users[u].tenant == t then users[u].(subject := None) else users[u]
  }
}
