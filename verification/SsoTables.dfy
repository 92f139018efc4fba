/**
 * Single sign-on attempts as steps on shared tables. Every database statement of the hand-off is
 * one step; any number of calls interleave. What has happened is kept beside the tables, so that
 * runs can be judged: who began an attempt, which callback won it, which call took it, what was
 * granted.
 */
module SsoTables {
  import opened Options

  type TenantId = nat
  type UserId = nat
  type RequestId = nat
  type CallId = nat
  type Secret = nat

  /** A SHA-256 digest: of a secret (two secrets never share one), or a value that is no secret's digest. */
  datatype Digest = Sha(secret: Secret) | OtherDigest(n: nat)

  datatype Mode = LOGIN | LINK | BADGE
  datatype Directory = Directory(provider: string, org: string)
  datatype User = User(tenant: TenantId, email: string, active: bool, superAdmin: bool, subject: Option<string>)

  /** What is fixed when an attempt begins. */
  datatype Start = Start(tenant: TenantId, provider: string, mode: Mode, user: Option<UserId>, state: Digest,
      holder: Digest, expiresAt: int)
  /** What the provider said, as the callback writes it. */
  datatype Outcome = Pending | Failed(error: string) | Identified(subject: string, org: string, email: string)
  /** A row of `sso_requests`; `holder` in `start` is the column `browserHash`. */
  datatype Request = Request(start: Start, handoff: Option<Digest>, outcome: Outcome)

  datatype What = Session(user: UserId, epoch: nat) | Link | Badge
  /** What an attempt yielded: to whom (the secret shown), when its row was found, and for which identity. */
  datatype Grant = Grant(id: RequestId, shown: Secret, foundAt: int, identity: Outcome, what: What)

  /**
   * `epochs` counts how often the subjects of a tenant were cleared; `bound` is who was bound in
   * each epoch, `begunIn` the epoch in which an attempt began.
   */
  datatype Past = Past(begun: map<RequestId, Start>, begunIn: map<RequestId, nat>, won: map<RequestId, Outcome>,
      taken: map<RequestId, CallId>, grants: seq<Grant>,
                       epochs: map<TenantId, nat>, bound: map<(UserId, nat), string>)

  datatype State = State(now: int, requests: map<RequestId, Request>, tenants: map<TenantId, Option<Directory>>,
      users: map<UserId, User>, past: Past)

  const TTL: int := 10 * 60_000

  // ---------------------------------------------------------------- the statements

  datatype Op =
    | Tick(to: int)
    | Begin(id: RequestId, start: Start)
    | Expire(gone: set<RequestId>)
    | Win(id: RequestId, handoff: Digest, outcome: Outcome)
    | Take(call: CallId, id: RequestId)
    | Give(call: CallId, grant: Grant)
    | Bind(user: UserId, subject: string)
    | Relink(tenant: TenantId, dir: Directory)
    | Unlink(tenant: TenantId)
    | Clear(tenant: TenantId)
    | SetUser(user: UserId, tenant: TenantId, email: string, active: bool, superAdmin: bool)
    | AddTenant(tenant: TenantId)

  function EpochOf(p: Past, t: TenantId): nat {
    if t in p.epochs then p.epochs[t] else 0
  }

  function Epoch(s: State, u: UserId): nat
    requires u in s.users
  {
    EpochOf(s.past, s.users[u].tenant)
  }

  /** Every subject of the tenant is forgotten: the accounts bind again. */
  function Cleared(s: State, t: TenantId): State {
    s.(users := map u <- s.users :: if s.users[u].tenant == t then s.users[u].(subject := None) else s.users[u],
       past := s.past.(epochs := s.past.epochs[t := EpochOf(s.past, t) + 1]))
  }

  /**
   * Why a grant is due to a call (the guard of `Give`, which the controller's calls are proved to
   * meet before they give anything): it took the row, and the row's winner identified the person.
   */
  predicate Justified(s: State, g: Grant) {
    var p := s.past;
    && g.id in p.begun && g.id in p.begunIn && g.id in p.won
    && p.begun[g.id].holder == Sha(g.shown) && g.foundAt < p.begun[g.id].expiresAt
    && g.identity == p.won[g.id] && g.identity.Identified?
    && match g.what
       case Session(u, epoch) => u in s.users && s.users[u].tenant == p.begun[g.id].tenant
           && p.begunIn[g.id] <= epoch <= Epoch(s, u)
                                 && (u, epoch) in p.bound && p.bound[(u, epoch)] == g.identity.subject
       case Link => p.begun[g.id].mode == LINK
       case Badge => p.begun[g.id].mode == BADGE
  }

  predicate NotGranted(p: Past, id: RequestId) {
    forall g <- p.grants :: g.id != id
  }

  /** One statement, as the database executes it. */
  ghost predicate Step(s: State, op: Op, s': State) {
    match op
    case Tick(to) => s.now <= to && s' == s.(now := to)
    case Begin(id, start) =>
      && id !in s.past.begun && start.expiresAt == s.now + TTL
      && s' == s.(requests := s.requests[id := Request(start, None, Pending)], 
             past := s.past.(begun := s.past.begun[id := start],
                 begunIn := s.past.begunIn[id := EpochOf(s.past, start.tenant)]))
    case Expire(gone) =>
      && (forall id <- gone :: id in s.requests && s.requests[id].start.expiresAt < s.now)
      && s' == s.(requests := s.requests - gone)
    case Win(id, handoff, outcome) =>
      && id in s.requests && s.requests[id].handoff.None? && !outcome.Pending?
      && s' == s.(requests := s.requests[id := s.requests[id].(handoff := Some(handoff), outcome := outcome)],
          past := s.past.(won := s.past.won[id := outcome]))
    case Take(call, id) =>
      && id in s.requests && s.requests[id].handoff.Some?
      && s' == s.(requests := s.requests - {id}, past := s.past.(taken := s.past.taken[id := call]))
    case Give(call, g) =>
      && g.id in s.past.taken && s.past.taken[g.id] == call && NotGranted(s.past, g.id) && Justified(s, g)
      && s' == s.(past := s.past.(grants := s.past.grants + [g]))
    case Bind(u, subject) =>
      && u in s.users && s.users[u].subject.None?
      && s' == s.(users := s.users[u := s.users[u].(subject := Some(subject))],
          past := s.past.(bound := s.past.bound[(u, Epoch(s, u)) := subject]))
    case Relink(t, dir) =>
      && t in s.tenants
      && var linked := s.(tenants := s.tenants[t := Some(dir)]);
         s' == if s.tenants[t] != Some(dir) then Cleared(linked, t) else linked
    case Unlink(t) => t in s.tenants && s' == s.(tenants := s.tenants[t := None])
    case Clear(t) => s' == Cleared(s, t)
    case SetUser(u, t, email, active, superAdmin) =>
      && (u in s.users ==> s.users[u].tenant == t)
      && s' == s.(users :=
          s.users[u := User(t, email, active, superAdmin, if u in s.users then s.users[u].subject else None)])
    case AddTenant(t) => t !in s.tenants && s' == s.(tenants := s.tenants[t := None])
  }

  ghost predicate Run(states: seq<State>, ops: seq<Op>) {
    |states| == |ops| + 1 && forall i :: 0 <= i < |ops| ==> Step(states[i], ops[i], states[i + 1])
  }

  function Empty(now: int): State {
    State(now, map[], map[], map[], Past(map[], map[], map[], map[], [], map[], map[]))
  }

  // ---------------------------------------------------------------- what always holds

  /** A row agrees with its past: unchanged since it began, and decided exactly if a callback won. */
  predicate RowAgrees(s: State, id: RequestId) {
    id in s.requests ==>
      && id in s.past.begun && s.requests[id].start == s.past.begun[id] && id !in s.past.taken
      && (s.requests[id].handoff.Some? <==> id in s.past.won)
      && (id in s.past.won ==> s.requests[id].outcome == s.past.won[id])
  }

  predicate UserAgrees(s: State, u: UserId) {
    u in s.users ==>
      var key := (u, Epoch(s, u));
      (s.users[u].subject.None? ==> key !in s.past.bound)
          && (s.users[u].subject.Some? ==> key in s.past.bound && s.past.bound[key] == s.users[u].subject.value)
  }

  /** At most one grant for each attempt. */
  ghost predicate OneEach(grants: seq<Grant>) {
    forall i, j :: 0 <= i < j < |grants| ==> grants[i].id != grants[j].id
  }

  ghost predicate RowsOk(s: State) {
    (forall id :: RowAgrees(s, id)) && KeysOk(s.past)
  }

  ghost predicate KeysOk(p: Past) {
    && p.taken.Keys <= p.won.Keys <= p.begun.Keys == p.begunIn.Keys
    && (forall id <- p.begun :: p.begunIn[id] <= EpochOf(p, p.begun[id].tenant))
    && (forall id <- p.won :: !p.won[id].Pending?)
  }

  ghost predicate UsersOk(s: State) {
    && (forall u :: UserAgrees(s, u))
    && (forall k <- s.past.bound :: k.0 in s.users && k.1 <= Epoch(s, k.0))
  }

  ghost predicate GrantsOk(s: State) {
    OneEach(s.past.grants) && forall g <- s.past.grants :: g.id in s.past.taken && Justified(s, g)
  }

  ghost predicate Inv(s: State) {
    RowsOk(s) && UsersOk(s) && GrantsOk(s)
  }

  /** Who began, won, took and was bound never changes, and grants only join. */
  ghost predicate PastGrows(p: Past, p': Past) {
    && (forall id <- p.begun :: id in p'.begun && p'.begun[id] == p.begun[id])
    && (forall id <- p.begunIn :: id in p'.begunIn && p'.begunIn[id] == p.begunIn[id])
    && (forall id <- p.won :: id in p'.won && p'.won[id] == p.won[id])
    && (forall id <- p.taken :: id in p'.taken && p'.taken[id] == p.taken[id])
    && (forall k <- p.bound :: k in p'.bound && p'.bound[k] == p.bound[k])
    && p.grants <= p'.grants
  }

  /** What a later state keeps. */
  ghost predicate Later(s: State, s': State) {
    && s.now <= s'.now && PastGrows(s.past, s'.past)
    && (forall u <- s.users :: u in s'.users && s'.users[u].tenant == s.users[u].tenant)
    && (forall t: TenantId :: EpochOf(s.past, t) <= EpochOf(s'.past, t))
  }

  lemma JustifiedLater(s: State, s': State, g: Grant)
    requires Later(s, s') && Justified(s, g)
    ensures Justified(s', g)
  {
  }

  lemma LaterChains(a: State, b: State, c: State)
    requires Later(a, b) && Later(b, c)
    ensures Later(a, c)
  {
  }

  lemma ClearedKeeps(s: State, t: TenantId)
    ensures var c := Cleared(s, t);
            && c.now == s.now && c.requests == s.requests && c.tenants == s.tenants
            && c.past == s.past.(epochs := c.past.epochs)
            && c.users.Keys == s.users.Keys
            && (forall u <- s.users ::
            c.users[u] == if s.users[u].tenant == t then s.users[u].(subject := None) else s.users[u])
            && (forall x: TenantId :: EpochOf(c.past, x) == EpochOf(s.past, x) + if x == t then 1 else 0)
  {
  }

  predicate OnRows(op: Op) {
    op.Begin? || op.Expire? || op.Win? || op.Take?
  }

  predicate OnAccounts(op: Op) {
    op.Bind? || op.Relink? || op.Unlink? || op.Clear? || op.SetUser? || op.AddTenant?
  }

  lemma AccountsUntouched(s: State, op: Op, s': State)
    requires Step(s, op, s') && !OnAccounts(op)
    ensures s'.users == s.users && s'.past.bound == s.past.bound && s'.past.epochs == s.past.epochs && s.now <= s'.now
  {
    hide Justified;
  }

  lemma RowsUntouched(s: State, op: Op, s': State)
    requires Step(s, op, s') && !OnRows(op)
    ensures s'.requests == s.requests && s'.past.begun == s.past.begun && s'.past.begunIn == s.past.begunIn
    ensures s'.past.won == s.past.won && s'.past.taken == s.past.taken
    ensures s.past.grants <= s'.past.grants
  {
    hide Justified;
    if op.Relink? { ClearedKeeps(s.(tenants := s.tenants[op.tenant := Some(op.dir)]), op.tenant); }
    if op.Clear? { ClearedKeeps(s, op.tenant); }
    hide Cleared;
  }

  lemma RowStepIsLater(s: State, op: Op, s': State)
    requires Step(s, op, s') && OnRows(op) && s.past.begun.Keys == s.past.begunIn.Keys
    requires op.Win? || op.Take? ==> RowAgrees(s, op.id)
    ensures Later(s, s')
  {
  }

  lemma AccountStepIsLater(s: State, op: Op, s': State)
    requires Step(s, op, s') && OnAccounts(op) && (op.Bind? ==> UserAgrees(s, op.user))
    ensures Later(s, s')
  {
    RowsUntouched(s, op, s');
    if op.Relink? { ClearedKeeps(s.(tenants := s.tenants[op.tenant := Some(op.dir)]), op.tenant); }
    if op.Clear? { ClearedKeeps(s, op.tenant); }
    hide Cleared;
  }

  lemma StepIsLater(s: State, op: Op, s': State)
    requires Inv(s) && Step(s, op, s')
    ensures Later(s, s')
  {
    if OnRows(op) {
      assert op.Win? || op.Take? ==> RowAgrees(s, op.id);
      hide Inv, Step;
      RowStepIsLater(s, op, s');
    } else if OnAccounts(op) {
      assert op.Bind? ==> UserAgrees(s, op.user);
      hide Inv, Step;
      AccountStepIsLater(s, op, s');
    } else {
      RowsUntouched(s, op, s');
      AccountsUntouched(s, op, s');
      hide Step, Inv;
    }
  }

  lemma ClearingKeepsUsers(s: State, t: TenantId)
    requires UsersOk(s)
    ensures UsersOk(Cleared(s, t))
  {
    ClearedKeeps(s, t);
    hide Cleared;
    var c := Cleared(s, t);
    forall u ensures UserAgrees(c, u) {
      assert UserAgrees(s, u);
    }
  }

  lemma BindAgrees(s: State, x: UserId, subject: string, s': State, u: UserId)
    requires Step(s, Bind(x, subject), s') && UserAgrees(s, x) && UserAgrees(s, u)
    ensures UserAgrees(s', u)
  {
  }

  lemma SetUserAgrees(s: State, op: Op, s': State, u: UserId)
    requires op.SetUser? && Step(s, op, s') && UserAgrees(s, u) && forall k <- s.past.bound :: k.0 in s.users
    ensures UserAgrees(s', u)
  {
  }

  lemma TenantStepAgrees(s: State, op: Op, s': State, u: UserId)
    requires (op.Unlink? || op.AddTenant?) && Step(s, op, s') && UserAgrees(s, u)
    ensures UserAgrees(s', u)
  {
  }

  lemma UserStaysAgreed(s: State, op: Op, s': State, u: UserId)
    requires UsersOk(s) && Step(s, op, s') && (op.Bind? || op.SetUser? || op.Unlink? || op.AddTenant?)
    ensures UserAgrees(s', u)
  {
    hide Step, UserAgrees;
    match op
    case Bind(x, subject) => BindAgrees(s, x, subject, s', u);
    case SetUser(_, _, _, _, _) => SetUserAgrees(s, op, s', u);
    case _ => TenantStepAgrees(s, op, s', u);
  }

  lemma BoundStaysKnown(s: State, op: Op, s': State)
    requires UsersOk(s) && Step(s, op, s') && (op.Bind? || op.SetUser? || op.Unlink? || op.AddTenant?)
    ensures forall k <- s'.past.bound :: k.0 in s'.users && k.1 <= Epoch(s', k.0)
  {
    hide UserAgrees, Justified, Cleared;
  }

  lemma RelinkKeepsUsers(s: State, op: Op, s': State)
    requires UsersOk(s) && op.Relink? && Step(s, op, s')
    ensures UsersOk(s')
  {
    hide Cleared;
    var linked := s.(tenants := s.tenants[op.tenant := Some(op.dir)]);
    SameUsersOk(s, linked);
    ClearingKeepsUsers(linked, op.tenant);
  }

  lemma SameUsersOk(s: State, s': State)
    requires UsersOk(s) && s'.users == s.users && s'.past.bound == s.past.bound && s'.past.epochs == s.past.epochs
    ensures UsersOk(s')
  {
    assert forall u :: UserAgrees(s, u) ==> UserAgrees(s', u);
  }

  lemma AccountStepKeepsUsers(s: State, op: Op, s': State)
    requires UsersOk(s) && Step(s, op, s') && OnAccounts(op)
    ensures UsersOk(s')
  {
    if op.Relink? {
      hide UsersOk, Step;
      RelinkKeepsUsers(s, op, s');
    } else if op.Clear? {
      hide UsersOk, Cleared;
      ClearingKeepsUsers(s, op.tenant);
    } else {
      hide Step, UserAgrees;
      BoundStaysKnown(s, op, s');
      forall u ensures UserAgrees(s', u) {
        UserStaysAgreed(s, op, s', u);
      }
    }
  }

  lemma StepKeepsUsers(s: State, op: Op, s': State)
    requires UsersOk(s) && Step(s, op, s')
    ensures UsersOk(s')
  {
    if OnAccounts(op) {
      hide UsersOk;
      AccountStepKeepsUsers(s, op, s');
    } else {
      hide Step, UsersOk;
      AccountsUntouched(s, op, s');
      SameUsersOk(s, s');
    }
  }

  lemma RowStaysAgreed(s: State, op: Op, s': State, id: RequestId)
    requires Step(s, op, s') && OnRows(op) && RowAgrees(s, id) && KeysOk(s.past)
    ensures RowAgrees(s', id)
  {
  }

  lemma RowStepKeepsKeys(s: State, op: Op, s': State)
    requires Step(s, op, s') && OnRows(op) && KeysOk(s.past) && (op.Win? || op.Take? ==> RowAgrees(s, op.id))
    ensures KeysOk(s'.past)
  {
  }

  lemma SameRowsOk(s: State, s': State)
    requires RowsOk(s) && Later(s, s') && s'.requests == s.requests
    requires s'.past.begun == s.past.begun && s'.past.begunIn == s.past.begunIn
    requires s'.past.won == s.past.won && s'.past.taken == s.past.taken
    ensures RowsOk(s')
  {
    hide PastGrows;
    assert forall id :: RowAgrees(s, id) ==> RowAgrees(s', id);
    hide RowAgrees;
  }

  lemma StepKeepsRows(s: State, op: Op, s': State)
    requires RowsOk(s) && Step(s, op, s') && Later(s, s')
    ensures RowsOk(s')
  {
    hide Step, Later, KeysOk, RowAgrees;
    if OnRows(op) {
      assert op.Win? || op.Take? ==> RowAgrees(s, op.id);
      RowStepKeepsKeys(s, op, s');
      forall id ensures RowAgrees(s', id) {
        RowStaysAgreed(s, op, s', id);
      }
    } else {
      RowsUntouched(s, op, s');
      SameRowsOk(s, s');
    }
  }

  lemma StepKeepsGrants(s: State, op: Op, s': State)
    requires GrantsOk(s) && Step(s, op, s') && Later(s, s')
    ensures GrantsOk(s')
  {
    if op.Give? {
      hide Later, Justified;
      forall x | x in s'.past.grants ensures x.id in s'.past.taken && Justified(s', x) {
        JustifiedLater(s, s', x);
      }
    } else {
      OnlyGiveGrants(s, op, s');
      hide Step, OneEach, Justified;
      forall g | g in s'.past.grants ensures Justified(s', g) {
        JustifiedLater(s, s', g);
      }
    }
  }

  lemma OnlyGiveGrants(s: State, op: Op, s': State)
    requires Step(s, op, s') && !op.Give?
    ensures s'.past.grants == s.past.grants
  {
    if op.Relink? { ClearedKeeps(s.(tenants := s.tenants[op.tenant := Some(op.dir)]), op.tenant); }
    if op.Clear? { ClearedKeeps(s, op.tenant); }
    hide Cleared;
  }

  /** Every statement keeps the attempts consistent: above all, each yields at most one grant, and a justified one. */
  lemma StepKeepsInv(s: State, op: Op, s': State)
    requires Inv(s) && Step(s, op, s')
    ensures Inv(s') && Later(s, s')
  {
    StepIsLater(s, op, s');
    hide RowsOk, UsersOk, GrantsOk, Later, Step;
    StepKeepsRows(s, op, s');
    StepKeepsUsers(s, op, s');
    StepKeepsGrants(s, op, s');
  }

  lemma {:induction false} RunKeepsInv(states: seq<State>, ops: seq<Op>, i: nat, j: nat)
    requires Run(states, ops) && Inv(states[0]) && i <= j < |states|
    ensures Inv(states[i]) && Inv(states[j]) && Later(states[i], states[j])
    decreases j
  {
    hide Inv, Step, Later;
    if j > 0 {
      if i < j {
        RunKeepsInv(states, ops, i, j - 1);
        StepKeepsInv(states[j - 1], ops[j - 1], states[j]);
        LaterChains(states[i], states[j - 1], states[j]);
      } else {
        RunKeepsInv(states, ops, j - 1, j - 1);
        StepKeepsInv(states[j - 1], ops[j - 1], states[j]);
        LaterItself(states[j]);
      }
    } else {
      LaterItself(states[0]);
    }
  }

  lemma LaterItself(s: State)
    ensures Later(s, s)
  {
  }

  // ---------------------------------------------------------------- what every run guarantees

  /** Due to the attempt's holder, in time, for the identity its winner wrote; of its tenant and kind. */
  predicate WellGranted(s: State, g: Grant) {
    var p := s.past;
    && g.id in p.begun && p.begun[g.id].holder == Sha(g.shown) && g.foundAt < p.begun[g.id].expiresAt
    && g.id in p.won && g.identity == p.won[g.id] && g.identity.Identified?
    && (g.what.Session? ==> g.what.user in s.users && s.users[g.what.user].tenant == p.begun[g.id].tenant)
    && (g.what.Link? ==> p.begun[g.id].mode == LINK)
    && (g.what.Badge? ==> p.begun[g.id].mode == BADGE)
  }

  /**
   * In every run each attempt yields at most one session, link or badge, and a well granted one. The
   * statements alone do not see to it that `Give` is only taken when due: the calls of the controller
   * do (see `Sound` in SsoControllers), and `ControllerIsSafe` says it of them.
   */
  lemma OneGrantToItsHolder(states: seq<State>, ops: seq<Op>, now: int, i: nat)
    requires Run(states, ops) && states[0] == Empty(now) && i < |states|
    ensures OneEach(states[i].past.grants)
    ensures forall g <- states[i].past.grants :: WellGranted(states[i], g)
  {
    RunKeepsInv(states, ops, 0, i);
    assert forall g <- states[i].past.grants :: Justified(states[i], g);
  }

  /** At most one callback wins an attempt, and what it wrote never changes. */
  lemma OneCallbackWins(states: seq<State>, ops: seq<Op>, now: int, i: nat, j: nat)
    requires Run(states, ops) && states[0] == Empty(now) && i < j < |ops|
    requires ops[i].Win?
    ensures ops[j].Win? ==> ops[j].id != ops[i].id
    ensures ops[i].id in states[j].past.won && states[j].past.won[ops[i].id] == ops[i].outcome
  {
    RunKeepsInv(states, ops, i + 1, j);
    assert Step(states[i], ops[i], states[i + 1]);
    assert Step(states[j], ops[j], states[j + 1]);
    assert RowAgrees(states[j], ops[i].id);
  }

  /** Between two clearings of a tenant's subjects, all sessions of one user carry the same subject. */
  lemma SameEpochSameSubject(states: seq<State>, ops: seq<Op>, now: int, i: nat, g: Grant, h: Grant)
    requires Run(states, ops) && states[0] == Empty(now) && i < |states|
    requires g in states[i].past.grants && h in states[i].past.grants && g.what.Session? && g.what == h.what
    ensures g.identity.Identified? && h.identity.Identified? && g.identity.subject == h.identity.subject
  {
    RunKeepsInv(states, ops, 0, i);
    assert Justified(states[i], g) && Justified(states[i], h);
  }

  /** The step forgets the tenant's subjects: a link to another directory, or an unlink. */
  ghost predicate Clears(s: State, op: Op, t: TenantId) {
    op == Clear(t) || (op.Relink? && op.tenant == t && t in s.tenants && s.tenants[t] != Some(op.dir))
  }

  lemma EpochStep(s: State, op: Op, s': State, t: TenantId)
    requires Inv(s) && Step(s, op, s') && !Clears(s, op, t)
    ensures EpochOf(s'.past, t) == EpochOf(s.past, t)
    ensures forall id <- s'.past.begun ::
        id in s.past.begun
        || (id in s'.past.begunIn && s'.past.begunIn[id] == EpochOf(s.past, s'.past.begun[id].tenant))
  {
    hide Inv, Justified, RowAgrees, UserAgrees;
  }

  /** While nothing clears a tenant's subjects its epoch stays, and attempts begin in it. */
  lemma {:induction false} EpochStays(states: seq<State>, ops: seq<Op>, t: TenantId, a: nat, i: nat)
    requires Run(states, ops) && Inv(states[0]) && a <= i < |states|
    requires forall k :: a <= k < i ==> !Clears(states[k], ops[k], t)
    ensures EpochOf(states[i].past, t) == EpochOf(states[a].past, t)
    ensures forall id <- states[i].past.begun :: id in states[a].past.begun || states[i].past.begun[id].tenant != t
              || (id in states[i].past.begunIn && states[i].past.begunIn[id] == EpochOf(states[a].past, t))
    decreases i
  {
    hide Inv, Step, EpochOf;
    if a < i {
      EpochStays(states, ops, t, a, i - 1);
      RunKeepsInv(states, ops, i - 1, i);
      EpochStep(states[i - 1], ops[i - 1], states[i], t);
    }
  }

  /**
   * As long as the tenant is neither unlinked nor linked to another directory, all single sign-on
   * sessions of one user, from attempts begun in that time, carry the same subject.
   */
  lemma NoRelinkSameSubject(states: seq<State>, ops: seq<Op>, now: int, t: TenantId, a: nat, i: nat, g: Grant, h: Grant)
    requires Run(states, ops) && states[0] == Empty(now) && a <= i < |states|
    requires forall k :: a <= k < i ==> !Clears(states[k], ops[k], t)
    requires g in states[i].past.grants && h in states[i].past.grants && g.what.Session? && h.what.Session?
    requires g.what.user == h.what.user
    requires g.id !in states[a].past.begun && h.id !in states[a].past.begun
    requires g.what.user in states[i].users && states[i].users[g.what.user].tenant == t
    ensures g.identity.Identified? && h.identity.Identified? && g.identity.subject == h.identity.subject
  {
    RunKeepsInv(states, ops, 0, i);
    EpochStays(states, ops, t, a, i);
    assert g.id in states[i].past.begun && h.id in states[i].past.begun by {
      assert Justified(states[i], g) && Justified(states[i], h);
    }
    hide Step, RowsOk, UsersOk, Later, Run;
    SameBound(states[i], g, h, EpochOf(states[a].past, t));
  }

  lemma SameBound(s: State, g: Grant, h: Grant, epoch: nat)
    requires GrantsOk(s) && g in s.past.grants && h in s.past.grants && g.what.Session? && h.what.Session?
    requires g.what.user == h.what.user
    requires g.id in s.past.begunIn && h.id in s.past.begunIn && s.past.begunIn[g.id] == epoch
    requires s.past.begunIn[h.id] == epoch
    requires g.what.user in s.users && Epoch(s, g.what.user) == epoch
    ensures g.identity.Identified? && h.identity.Identified? && g.identity.subject == h.identity.subject
  {
    assert Justified(s, g) && Justified(s, h);
  }

  lemma RunGoesOn(states: seq<State>, ops: seq<Op>, op: Op, s': State)
    requires Run(states, ops) && Step(states[|ops|], op, s')
    ensures Run(states + [s'], ops + [op])
  {
    hide Step;
    var ss, os := states + [s'], ops + [op];
    forall i | 0 <= i < |os| ensures Step(ss[i], os[i], ss[i + 1]) {
      if i < |ops| { assert Step(states[i], ops[i], states[i + 1]); }
    }
  }
}
