/**
 * The second factor of one account: codes of the authenticator app and recovery codes, used up by
 * conditional updates. Calls read the row, decide, and write later; any number interleave.
 */
module SecondFactor {
  import opened Options

  type Secret = nat
  type Hash = nat

  const TOTP_STEP_S := 30

  /** What the password earned: a sign-in may go on for a while, at the session version of then. */
  datatype Ticket = Ticket(version: nat, until: int)

  /** What a call wants the code for. */
  datatype Purpose = Login(ticket: Ticket) | Enable(codes: seq<Hash>) | Regenerate(codes: seq<Hash>) | Disable

  datatype Row = Row(active: bool, version: nat, lockedUntil: Option<int>,
                     enabled: bool, secret: Option<Secret>, lastStep: Option<int>, hashes: Option<seq<Hash>>)

  /**
   * A code that was used up. `epoch` counts how often the last step was reset (an enrolment), and
   * `generation` how often the recovery codes were replaced.
   */
  datatype Used =
    | Totp(epoch: nat, secret: Secret, step: int, code: string, readAt: int)
    | Recovery(generation: nat, hash: Hash, code: string)

  datatype Reply = LoggedIn | Enabled | NewCodes | TurnedOff | SetUp | CodeInvalid | Locked | Conflict | SessionExpired

  datatype Call =
    | Guard(purpose: Purpose, code: string)
    | Read(purpose: Purpose, code: string)
    | TotpWrite(purpose: Purpose, code: string, secret: Secret, step: int, readAt: int)
    | RecoveryWrite(purpose: Purpose, code: string, hash: Hash, old_: seq<Hash>)
    | EnableWrite(codes: seq<Hash>)
    | RegenerateWrite(codes: seq<Hash>)
    | DisableWrite
    | SetupRead(secret: Secret)
    | SetupWrite(secret: Secret)
    | Over(reply: Reply)

  // ---------------------------------------------------------------- codes

  /** The number of the half minute. */
  function TotpStep(atMs: int): (step: int)
    ensures step * 30_000 <= atMs < (step + 1) * 30_000
  {
    atMs / 1000 / TOTP_STEP_S
  }

  predicate SixDigits(code: string): (six: bool)
    ensures six <==> |code| == 6 && forall c <- code :: 48 <= c as int <= 57
  {
    |code| == 6 && forall c <- code :: '0' <= c <= '9'
  }

  /** A step whose code it is, in the window around now and after the last one used. */
  predicate Matches(totp: (Secret, int) -> string, secret: Secret, code: string, last: Option<int>, now: int,
          step: int) {
    now - 1 <= step <= now + 1 && totp(secret, step) == code && (last.Some? ==> last.value < step)
  }

  /** The earliest matching step, if any. */
  method VerifyTotp(totp: (Secret, int) -> string, secret: Secret, code: string, last: Option<int>, atMs: int)
    returns (found: Option<int>)
    ensures found.Some? ==> SixDigits(code) && Matches(totp, secret, code, last, TotpStep(atMs), found.value)
    ensures found.Some? ==> forall s :: Matches(totp, secret, code, last, TotpStep(atMs), s) ==> found.value <= s
    ensures found.None? ==> !SixDigits(code) || forall s :: !Matches(totp, secret, code, last, TotpStep(atMs), s)
  {
    if !SixDigits(code) { return None; }
    var now := TotpStep(atMs);
    var steps := [now - 1, now, now + 1];
    for i := 0 to |steps|
      invariant forall s :: Matches(totp, secret, code, last, now, s) ==> steps[0] + i <= s
    {
      if last.Some? && steps[i] <= last.value { continue; }
      if totp(secret, steps[i]) == code { return Some(steps[i]); }
    }
    found := None;
  }

  function Without(hashes: seq<Hash>, h: Hash): (r: seq<Hash>)
    ensures forall x :: x in r <==> x in hashes && x != h
  {
    if hashes == [] then [] else (if hashes[0] == h then [] else [hashes[0]]) + Without(hashes[1..], h)
  }

  // ---------------------------------------------------------------- what has been used

  /** Within one enrolment the steps used are strictly increasing. */
  ghost predicate StepsIncrease(used: seq<Used>) {
    forall i, j :: 0 <= i < j < |used| && used[i].Totp? && used[j].Totp? && used[i].epoch == used[j].epoch ==>
        used[i].step < used[j].step
  }

  /** No recovery code of one generation is used twice. */
  ghost predicate CodesOnce(used: seq<Used>) {
    forall i, j ::
        0 <= i < j < |used| && used[i].Recovery? && used[j].Recovery? && used[i].generation == used[j].generation ==>
        used[i].hash != used[j].hash
  }

  /** The row knows what was used: later steps only, and none of the hashes. */
  ghost predicate RowKnows(row: Row, used: seq<Used>, epoch: nat, generation: nat) {
    && (forall u <- used :: u.Totp? ==>
        u.epoch <= epoch && (u.epoch == epoch ==> row.lastStep.Some? && u.step <= row.lastStep.value))
    && (forall u <- used :: u.Recovery? ==>
        u.generation <= generation && (u.generation == generation && row.hashes.Some? ==> u.hash !in row.hashes.value))
  }

  ghost predicate Proper(totp: (Secret, int) -> string, hash: string -> Hash, u: Used) {
    match u
    case Totp(_, secret, step, code, readAt) => SixDigits(code) && totp(secret, step) == code
        && TotpStep(readAt) - 1 <= step <= TotpStep(readAt) + 1
    case Recovery(_, h, code) => hash(code) == h
  }

  ghost predicate Consistent(row: Row, used: seq<Used>, epoch: nat, generation: nat) {
    StepsIncrease(used) && CodesOnce(used) && RowKnows(row, used, epoch, generation)
  }

  lemma StepUsed(row: Row, used: seq<Used>, epoch: nat, generation: nat, u: Used)
    requires Consistent(row, used, epoch, generation)
    requires u.Totp? && u.epoch == epoch && (row.lastStep.Some? ==> row.lastStep.value < u.step)
    ensures Consistent(row.(lastStep := Some(u.step)), used + [u], epoch, generation)
  {
    assert forall i :: 0 <= i < |used| ==> used[i] in used;
  }

  lemma CodeUsed(row: Row, used: seq<Used>, epoch: nat, generation: nat, u: Used)
    requires Consistent(row, used, epoch, generation)
    requires u.Recovery? && u.generation == generation && row.hashes.Some? && u.hash in row.hashes.value
    ensures Consistent(row.(hashes := Some(Without(row.hashes.value, u.hash))), used + [u], epoch, generation)
  {
    assert forall i :: 0 <= i < |used| ==> used[i] in used;
  }

  /** Replacing the codes starts a new generation, resetting the last step a new enrolment. */
  lemma Renewed(row: Row, row': Row, used: seq<Used>, epoch: nat, generation: nat, epoch': nat, generation': nat)
    requires Consistent(row, used, epoch, generation) && epoch <= epoch' && generation <= generation'
    requires epoch' == epoch ==> row'.lastStep == row.lastStep
    requires generation' == generation ==> row'.hashes == row.hashes
    ensures Consistent(row', used, epoch', generation')
  {
  }

  class Account {
    /** The code of a secret at a step, and the digest of a recovery code. */
    const totp: (Secret, int) -> string
    const hash: string -> Hash
    var now: int
    var row: Row
    var calls: map<nat, Call>
    ghost var epoch: nat
    ghost var generation: nat
    ghost var used: seq<Used>

    /** What a call about to write has established. */
    ghost predicate Sound(c: Call) {
      match c
      case TotpWrite(_, code, secret, step, readAt) => SixDigits(code) && totp(secret, step) == code
          && TotpStep(readAt) - 1 <= step <= TotpStep(readAt) + 1
      case RecoveryWrite(_, code, h, old_) => hash(code) == h && h in old_
      case _ => true
    }

    ghost predicate Valid()
      reads this
    {
      && Consistent(row, used, epoch, generation)
      && (forall u <- used :: Proper(totp, hash, u))
      && (forall c <- calls :: Sound(calls[c]))
    }

    constructor (totp: (Secret, int) -> string, hash: string -> Hash, start: int)
      ensures Valid() && used == [] && calls == map[]
    {
      this.totp, this.hash, now := totp, hash, start;
      row := Row(true, 0, None, false, None, None, None);
      calls, epoch, generation, used := map[], 0, 0, [];
    }

    method Tick(to: int)
      requires Valid() && now <= to
      modifies this`now
      ensures Valid() && now == to
    {
      now := to;
    }

    method Arrive(c: nat, call: Call)
      requires Valid() && c !in calls
      requires (call.Guard? && call.purpose.Enable?) || (call.Read? && !call.purpose.Enable?) || call.SetupRead?
      modifies this`calls
      ensures Valid() && calls == old(calls)[c := call]
    {
      calls := calls[c := call];
    }

    /** The console resets the second factor, and no session or ticket from before counts any longer. */
    method Reset()
      requires Valid()
      modifies this`row, this`epoch, this`generation
      ensures Valid() && row == TurnedOffRow(old(row)).(version := old(row).version + 1) && epoch == old(epoch) + 1
    {
      row := TurnedOffRow(row).(version := row.version + 1);
      epoch, generation := epoch + 1, generation + 1;
    }

    /** The rest of the account changes: its switch, a new password or a sign-out, a lock set or lifted. */
    method Change(active: bool, version: nat, lockedUntil: Option<int>)
      requires Valid()
      modifies this`row
      ensures Valid() && row == old(row).(active := active, version := version, lockedUntil := lockedUntil)
    {
      ghost var was := row;
      row := row.(active := active, version := version, lockedUntil := lockedUntil);
      Renewed(was, row, used, epoch, generation, epoch, generation);
      hide Consistent, Proper;
    }

    /** Enrolling starts with a look at whether the account is enrolled already. */
    method ReadGuard(c: nat)
      requires Valid() && c in calls && calls[c].Guard?
      modifies this`calls
      ensures Valid()
      ensures calls ==
          old(calls)[c := if row.enabled then Over(Conflict) else Read(old(calls)[c].purpose, old(calls)[c].code)]
    {
      hide Consistent, Proper;
      calls := calls[c := if row.enabled then Over(Conflict) else Read(calls[c].purpose, calls[c].code)];
    }

    /** A code of the app for some step, or the digest of a recovery code left. */
    ghost predicate Accepted(code: string)
      reads this
    {
      && row.secret.Some?
      && if SixDigits(code) then exists s :: Matches(totp, row.secret.value, code, row.lastStep, TotpStep(now), s)
         else row.hashes.Some? && hash(code) in row.hashes.value
    }

    /** Reads the row and decides: which step the code is for, or whether its digest is in the list. */
    method ReadRow(c: nat)
      requires Valid() && c in calls && calls[c].Read?
      modifies this`calls
      ensures Valid() && calls.Keys == old(calls).Keys
      ensures var was := old(calls)[c];
              match calls[c]
              case TotpWrite(purpose, code, secret, step, readAt) =>
                && was == Read(purpose, code) && Admitted(row, purpose, now) && !HeldBack(row, purpose, now)
                && SixDigits(code) && row.secret == Some(secret) && readAt == now
                && Matches(totp, secret, code, row.lastStep, TotpStep(now), step)
              case RecoveryWrite(purpose, code, h, old_) =>
                && was == Read(purpose, code) && Admitted(row, purpose, now) && !HeldBack(row, purpose, now)
                && row.secret.Some? && !SixDigits(code) && row.hashes == Some(old_) && h == hash(code) && h in old_
              case Over(reply) =>
                if !Admitted(row, was.purpose, now)
                    then reply == (if was.purpose.Login? then SessionExpired else Conflict)
                else if HeldBack(row, was.purpose, now) then reply == Locked
                else reply == CodeInvalid && !Accepted(was.code)
              case _ => false
      ensures old(calls)[c].purpose.Login? ==>
                var t := old(calls)[c].purpose.ticket;
                var admitted := now < t.until && row.active && row.enabled && row.version == t.version;
                var locked := row.lockedUntil.Some? && now < row.lockedUntil.value;
                && (calls[c] == Over(SessionExpired) <==> !admitted)
                && (calls[c] == Over(Locked) <==> admitted && locked)
      ensures !old(calls)[c].purpose.Login? ==>
                && calls[c] != Over(SessionExpired) && calls[c] != Over(Locked)
                && (calls[c] == Over(Conflict) <==>
                    if old(calls)[c].purpose.Enable? then row.secret.None? else !row.enabled)
    {
      var purpose, code := calls[c].purpose, calls[c].code;
      hide Consistent, Proper;
      if !Admitted(row, purpose, now) {
        calls := calls[c := Over(if purpose.Login? then SessionExpired else Conflict)];
      } else if HeldBack(row, purpose, now) {
        calls := calls[c := Over(Locked)];
      } else if row.secret.None? {
        calls := calls[c := Over(CodeInvalid)];
      } else if SixDigits(code) {
        var step := VerifyTotp(totp, row.secret.value, code, row.lastStep, now);
        calls := calls[c := if step.Some? then TotpWrite(purpose, code, row.secret.value, step.value, now)
            else Over(CodeInvalid)];
      } else {
        var hashes := if row.hashes.Some? then row.hashes.value else [];
        calls := calls[c := if hash(code) in hashes then RecoveryWrite(purpose, code, hash(code), hashes)
            else Over(CodeInvalid)];
      }
    }

    /** Where a call goes once its code is used up; enrolling and new codes take a code of the app only. */
    function Next(purpose: Purpose, byApp: bool): (next: Call)
      ensures next == Over(LoggedIn) <==> purpose.Login?
      ensures next == DisableWrite <==> purpose.Disable?
      ensures next.EnableWrite? <==> byApp && purpose.Enable?
      ensures next.RegenerateWrite? <==> byApp && purpose.Regenerate?
      ensures next.EnableWrite? || next.RegenerateWrite? ==> next.codes == purpose.codes
      ensures next == Over(CodeInvalid) <==> !byApp && (purpose.Enable? || purpose.Regenerate?)
    {
      match purpose
      case Login(_) => Over(LoggedIn)
      case Enable(codes) => if byApp then EnableWrite(codes) else Over(CodeInvalid)
      case Regenerate(codes) => if byApp then RegenerateWrite(codes) else Over(CodeInvalid)
      case Disable => DisableWrite
    }

    /** Only if no later or equal step was used meanwhile. */
    method WriteStep(c: nat)
      requires Valid() && c in calls && calls[c].TotpWrite?
      modifies this`row, this`calls, this`used
      ensures Valid()
      ensures var was := old(calls)[c];
              if old(row).lastStep.None? || old(row).lastStep.value < was.step then
                && row == old(row).(lastStep := Some(was.step)) && calls == old(calls)[c := Next(was.purpose, true)]
                && used == old(used) + [Totp(epoch, was.secret, was.step, was.code, was.readAt)]
              else row == old(row) && used == old(used) && calls == old(calls)[c := Over(CodeInvalid)]
    {
      var call := calls[c];
      assert Sound(call);
      if row.lastStep.None? || row.lastStep.value < call.step {
        ghost var u := Totp(epoch, call.secret, call.step, call.code, call.readAt);
        StepUsed(row, used, epoch, generation, u);
        assert Proper(totp, hash, u);
        hide Consistent, Proper;
        row := row.(lastStep := Some(call.step));
        used := used + [u];
        calls := calls[c := Next(call.purpose, true)];
      } else {
        calls := calls[c := Over(CodeInvalid)];
      }
    }

    /** Only if the whole list is still the one read. */
    method WriteHashes(c: nat)
      requires Valid() && c in calls && calls[c].RecoveryWrite?
      modifies this`row, this`calls, this`used
      ensures Valid()
      ensures var was := old(calls)[c];
              if old(row).hashes == Some(was.old_) then
                && row == old(row).(hashes := Some(Without(was.old_, was.hash)))
                && calls == old(calls)[c := Next(was.purpose, false)]
                && used == old(used) + [Recovery(generation, was.hash, was.code)]
              else row == old(row) && used == old(used) && calls == old(calls)[c := Over(CodeInvalid)]
    {
      var call := calls[c];
      assert Sound(call);
      if row.hashes == Some(call.old_) {
        ghost var u := Recovery(generation, call.hash, call.code);
        CodeUsed(row, used, epoch, generation, u);
        assert Proper(totp, hash, u);
        hide Consistent, Proper;
        row := row.(hashes := Some(Without(call.old_, call.hash)));
        used := used + [u];
        calls := calls[c := Next(call.purpose, false)];
      } else {
        calls := calls[c := Over(CodeInvalid)];
      }
    }

    /** The writes that follow: enrolled with new codes, new codes, or all of it gone. */
    method WriteAfter(c: nat)
      requires Valid() && c in calls && (calls[c].EnableWrite? || calls[c].RegenerateWrite? || calls[c].DisableWrite?)
      modifies this`row, this`calls, this`epoch, this`generation
      ensures Valid() && generation == old(generation) + 1
      ensures epoch == old(epoch) + (if old(calls)[c].DisableWrite? then 1 else 0)
      ensures var was := old(calls)[c];
              match was
              case EnableWrite(codes) => row == old(row).(enabled := true, hashes := Some(codes))
                  && calls == old(calls)[c := Over(Enabled)]
              case RegenerateWrite(codes) => row == old(row).(hashes := Some(codes))
                  && calls == old(calls)[c := Over(NewCodes)]
              case _ => row == TurnedOffRow(old(row)) && calls == old(calls)[c := Over(TurnedOff)]
    {
      var call := calls[c];
      ghost var was, e, g := row, epoch, generation;
      match call {
        case EnableWrite(codes) =>
          row := row.(enabled := true, hashes := Some(codes));
          calls := calls[c := Over(Enabled)];
        case RegenerateWrite(codes) =>
          row := row.(hashes := Some(codes));
          calls := calls[c := Over(NewCodes)];
        case DisableWrite =>
          row := TurnedOffRow(row);
          epoch := epoch + 1;
          calls := calls[c := Over(TurnedOff)];
      }
      generation := generation + 1;
      Renewed(was, row, used, e, g, epoch, generation);
      hide Consistent, Proper;
    }

    /** Setting up replaces an unfinished enrolment; refused when one is in force. */
    method ReadSetup(c: nat)
      requires Valid() && c in calls && calls[c].SetupRead?
      modifies this`calls
      ensures Valid()
      ensures calls == old(calls)[c := if row.enabled then Over(Conflict) else SetupWrite(old(calls)[c].secret)]
    {
      hide Consistent, Proper;
      calls := calls[c := if row.enabled then Over(Conflict) else SetupWrite(calls[c].secret)];
    }

    method WriteSetup(c: nat)
      requires Valid() && c in calls && calls[c].SetupWrite?
      modifies this`row, this`calls, this`epoch, this`generation
      ensures Valid() && epoch == old(epoch) + 1 && generation == old(generation) + 1
      ensures row == old(row).(secret := Some(old(calls)[c].secret), lastStep := None, hashes := None)
      ensures calls == old(calls)[c := Over(SetUp)]
    {
      ghost var was := row;
      row := row.(secret := Some(calls[c].secret), lastStep := None, hashes := None);
      calls := calls[c := Over(SetUp)];
      epoch, generation := epoch + 1, generation + 1;
      Renewed(was, row, used, epoch - 1, generation - 1, epoch, generation);
      hide Consistent, Proper;
    }
  }

  function TurnedOffRow(row: Row): Row {
    row.(enabled := false, secret := None, lastStep := None, hashes := None)
  }

  /**
   * Whom the calls serve: a sign-in needs a ticket of this session version that still counts, and an
   * active, enrolled account; enrolling needs one that was set up.
   */
  predicate Admitted(row: Row, purpose: Purpose, now: int) {
    match purpose
    case Login(ticket) => now < ticket.until && row.active && row.version == ticket.version && row.enabled
    case Enable(_) => row.secret.Some?
    case Regenerate(_) => row.enabled
    case Disable => row.enabled
  }

  predicate HeldBack(row: Row, purpose: Purpose, now: int) {
    purpose.Login? && row.lockedUntil.Some? && now < row.lockedUntil.value
  }

  /**
   * Whatever the calls and their order: within one enrolment no step, and so no code of a step, is
   * accepted twice, in one generation no recovery code is, and each step accepted is within one of
   * the clock's at the time the row was read.
   */
  lemma NoCodeTwice(a: Account, i: nat, j: nat)
    requires a.Valid() && i < j < |a.used|
    ensures a.used[i].Totp? && a.used[j].Totp? && a.used[i].epoch == a.used[j].epoch ==> a.used[i].step < a.used[j].step
    ensures a.used[i].Recovery? && a.used[j].Recovery? && a.used[i].generation == a.used[j].generation ==>
        a.used[i].hash != a.used[j].hash && a.used[i].code != a.used[j].code
    ensures a.used[i].Totp? ==>
        a.totp(a.used[i].secret, a.used[i].step) == a.used[i].code
        && TotpStep(a.used[i].readAt) - 1 <= a.used[i].step <= TotpStep(a.used[i].readAt) + 1
  {
    assert Proper(a.totp, a.hash, a.used[i]) && Proper(a.totp, a.hash, a.used[j]);
  }
}
