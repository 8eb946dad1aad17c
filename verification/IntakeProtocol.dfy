/** The intake submission protocol under interleaving.

  Any number of submission attempts run against one link, each a sequence of
  atomic database statements: the claim, the check of the issuer and the target,
  the staging transaction, the uploads, the finalisation and its re-read, and
  the release after a failure; it may also stop for good at any point
  (career-gate/lib/client-intake-link.ts,
   career-gate/app/api/public/client-intake/[token]/route.ts,
   career-gate/lib/smart-client-mobile.ts).
  Staff may revoke the link at any time. Every statement carries the clock value
  it ran under; no order of these values is assumed.
 */
module IntakeProtocol {
  import opened IntakeLink
  import opened Options

  /** Where an attempt stands. `since` is the claim time it recorded. */
  datatype Phase =
    | Idle
    | Holding(since: Time)
    | Working(since: Time)
    | Uploading(since: Time, caseId: CaseId)
    | Staged(since: Time, caseId: CaseId)
    | Rereading(since: Time, caseId: CaseId)
    | Failing(since: Time)
    | Finished(caseId: CaseId, finalized: bool)
    | Ended

  /** Can the attempt still change the link or the staged case? */
  predicate Live(phase: Phase) {
    phase.Holding? || phase.Working? || phase.Uploading? || phase.Staged?
    || phase.Rereading? || phase.Failing?
  }

  /** `staged` is the case stored under the link's idempotency key, `created`
      every case ever stored under it and `deleted` those rolled back after a
      failed upload. */
  datatype State = State(
    row: Row,
    target: Option<CaseId>,
    staged: Option<CaseId>,
    created: set<CaseId>,
    deleted: set<CaseId>,
    attempts: map<nat, Phase>)

  datatype Op =
    | Claim
    | Check(passed: bool)
    | Fail
    | Stage(newCase: CaseId)
    | UploadOk
    | UploadFailed
    | Finalize
    | Reread
    | Release
    | Crash

  datatype Action =
    | Attempt(id: nat, now: Time, op: Op)
    | Revoke(now: Time)

  function PhaseOf(s: State, id: nat): Phase {
    if id in s.attempts then s.attempts[id] else Idle
  }

  function Enter(s: State, id: nat, phase: Phase): State {
    s.(attempts := s.attempts[id := phase])
  }

  function Begin(expiresAt: Time, target: Option<CaseId>): State {
    State(Issued(expiresAt, target), target, None, {}, {}, map[])
  }

  /** Get the case of the idempotency key or create it; for a link issued for
      an existing case, close the link against that case in the same
      transaction. */
  function StageStep(s: State, id: nat, now: Time, newCase: CaseId): State
    requires PhaseOf(s, id).Working?
  {
    var since := PhaseOf(s, id).since;
    if s.target.Some? then
      if s.row.status == Used then Enter(s, id, Staged(since, s.target.value))
      else if s.row.status == Processing then
        Enter(s, id, Staged(since, s.target.value)).(row := FinalizeRow(s.row, now, s.target.value))
      else Enter(s, id, Failing(since))
    else if s.staged.Some? then Enter(s, id, Staged(since, s.staged.value))
    else if newCase in s.created then s
    else Enter(s, id, Uploading(since, newCase)).(staged := Some(newCase), created := s.created + {newCase})
  }

  /** A failed upload deletes the case again, unless the link refers to it. */
  function UploadFailedStep(s: State, id: nat): State
    requires PhaseOf(s, id).Uploading?
  {
    var Uploading(since, caseId) := PhaseOf(s, id);
    var s' := Enter(s, id, Failing(since));
    if s.row.importCaseId == Some(caseId) then s'
    else s'.(staged := None, deleted := s.deleted + {caseId})
  }

  /** The link can only be closed against a case that exists. */
  function FinalizeStep(s: State, id: nat, now: Time): State
    requires PhaseOf(s, id).Staged?
  {
    var Staged(since, caseId) := PhaseOf(s, id);
    if s.row.status != Processing then Enter(s, id, Rereading(since, caseId))
    else if caseId in s.deleted then Enter(s, id, Failing(since))
    else Enter(s, id, Finished(caseId, true)).(row := FinalizeRow(s.row, now, caseId))
  }

  /** One atomic statement of one attempt. A statement the attempt is not at is
      no step. */
  function AttemptStep(s: State, id: nat, now: Time, op: Op): State {
    var phase := PhaseOf(s, id);
    match op
    case Claim =>
      if !phase.Idle? then s
      else if Claimable(s.row, now) then Enter(s, id, Holding(now)).(row := ClaimRow(s.row, now))
      else Enter(s, id, Ended)
    case Check(passed) =>
      if !phase.Holding? then s
      else Enter(s, id, if passed then Working(phase.since) else Failing(phase.since))
    case Fail => if phase.Working? || phase.Staged? || phase.Rereading? then Enter(s, id, Failing(phase.since)) else s
    case Stage(newCase) => if phase.Working? then StageStep(s, id, now, newCase) else s
    case UploadOk => if phase.Uploading? then Enter(s, id, Staged(phase.since, phase.caseId)) else s
    case UploadFailed => if phase.Uploading? then UploadFailedStep(s, id) else s
    case Finalize => if phase.Staged? then FinalizeStep(s, id, now) else s
    case Reread =>
      if !phase.Rereading? then s
      else Enter(s, id, Finished(phase.caseId, s.row.status == Used && s.row.importCaseId == Some(phase.caseId)))
    case Release =>
      if phase.Failing? then Enter(s, id, Ended).(row := ReleaseRow(s.row, now)) else s
    case Crash => if phase.Idle? || phase.Finished? then s else Enter(s, id, Ended)
  }

  function Step(s: State, a: Action): State {
    match a
    case Attempt(id, now, op) => AttemptStep(s, id, now, op)
    case Revoke(now) => s.(row := RevokeRow(s.row, now))
  }

  function Run(s: State, actions: seq<Action>): State {
    if actions == [] then s else Step(Run(s, actions[..|actions| - 1]), actions[|actions| - 1])
  }

  // ------------------------------------------------------------------
  // What every run keeps
  // ------------------------------------------------------------------

  ghost predicate PhaseKnown(s: State, phase: Phase) {
    match phase
    case Uploading(_, c) => s.target.None? && s.staged == Some(c)
    case Staged(_, c) =>
      if s.target.Some? then s.target == Some(c) else c in s.created && (c in s.deleted || s.staged == Some(c))
    case Finished(c, finalized) => finalized ==> s.row.status == Used && s.row.importCaseId == Some(c)
    case _ => true
  }

  /** The invariant of the protocol. A used link names the one case staged under
      its key, or the case it was issued for; cases are created once, and all but
      the staged one have been rolled back. */
  ghost predicate Inv(s: State) {
    && Consistent(s.row)
    && s.created == s.deleted + (if s.staged.Some? then {s.staged.value} else {})
    && (s.staged.Some? ==> s.staged.value !in s.deleted)
    && (s.target.Some? ==> s.created == {} && s.row.importCaseId == s.target)
    && (s.target.None? ==> if s.row.status == Used then s.row.importCaseId == s.staged else s.row.importCaseId == None)
    && (forall id | id in s.attempts :: PhaseKnown(s, s.attempts[id]))
    && (forall i, j | i in s.attempts && j in s.attempts && i != j ::
          !(s.attempts[i].Uploading? && s.attempts[j].Uploading?))
  }

  lemma StageInv(s: State, id: nat, now: Time, newCase: CaseId)
    requires Inv(s) && PhaseOf(s, id).Working?
    ensures Inv(StageStep(s, id, now, newCase))
  {
  }

  lemma FinalizeInv(s: State, id: nat, now: Time)
    requires Inv(s) && PhaseOf(s, id).Staged?
    ensures Inv(FinalizeStep(s, id, now))
  {
  }

  lemma UploadFailedInv(s: State, id: nat)
    requires Inv(s) && PhaseOf(s, id).Uploading?
    ensures Inv(UploadFailedStep(s, id))
  {
  }

  lemma RowInv(s: State, id: nat, now: Time)
    requires Inv(s)
    ensures Inv(AttemptStep(s, id, now, Claim)) && Inv(AttemptStep(s, id, now, Release))
    ensures Inv(s.(row := RevokeRow(s.row, now)))
  {
  }

  lemma PhaseInv(s: State, id: nat, now: Time, op: Op)
    requires Inv(s) && (op.Check? || op.Fail? || op.UploadOk? || op.Reread? || op.Crash?)
    ensures Inv(AttemptStep(s, id, now, op))
  {
  }

  lemma StepInv(s: State, a: Action)
    requires Inv(s)
    ensures Inv(Step(s, a))
  {
    match a
    case Revoke(now) => RowInv(s, 0, now);
    case Attempt(id, now, op) =>
      var phase := PhaseOf(s, id);
      match op
      case Stage(newCase) => if phase.Working? { StageInv(s, id, now, newCase); }
      case Finalize => if phase.Staged? { FinalizeInv(s, id, now); }
      case UploadFailed => if phase.Uploading? { UploadFailedInv(s, id); }
      case Claim => RowInv(s, id, now);
      case Release => RowInv(s, id, now);
      case _ => PhaseInv(s, id, now, op);
  }

  lemma {:induction false} RunInv(s: State, actions: seq<Action>)
    requires Inv(s)
    ensures Inv(Run(s, actions))
  {
    if actions != [] {
      RunInv(s, actions[..|actions| - 1]);
      StepInv(Run(s, actions[..|actions| - 1]), actions[|actions| - 1]);
    }
  }

  /** A spent or revoked link never changes again. */
  lemma {:induction false} TerminalAbsorbing(s: State, actions: seq<Action>)
    requires Terminal(s.row)
    ensures Run(s, actions).row == s.row
  {
    if actions != [] {
      TerminalAbsorbing(s, actions[..|actions| - 1]);
    }
  }

  /** All finalisations that report success name the same case, and it is the
      one the link is closed against. */
  lemma {:induction false} FinalizedAgree(expiresAt: Time, target: Option<CaseId>, actions: seq<Action>, i: nat, j: nat)
    requires var s := Run(Begin(expiresAt, target), actions);
      && PhaseOf(s, i).Finished? && PhaseOf(s, i).finalized
      && PhaseOf(s, j).Finished? && PhaseOf(s, j).finalized
    ensures var s := Run(Begin(expiresAt, target), actions);
      && PhaseOf(s, i).caseId == PhaseOf(s, j).caseId
      && s.row.status == Used && s.row.importCaseId == Some(PhaseOf(s, i).caseId)
      && (target == None ==> s.staged == Some(PhaseOf(s, i).caseId))
      && (target != None ==> target == Some(PhaseOf(s, i).caseId))
  {
    RunInv(Begin(expiresAt, target), actions);
    RunTarget(Begin(expiresAt, target), actions);
  }

  lemma {:induction false} RunTarget(s: State, actions: seq<Action>)
    ensures Run(s, actions).target == s.target
    ensures Run(s, actions).row.expiresAt == s.row.expiresAt
  {
    if actions != [] {
      RunTarget(s, actions[..|actions| - 1]);
    }
  }

  /** However many attempts run, at most one case exists under the link's key at
      a time, as many were created as were rolled back or still exist, and once
      the link is used its case is never rolled back. */
  lemma {:induction false} OneStagedCase(expiresAt: Time, actions: seq<Action>, more: seq<Action>)
    ensures var s := Run(Begin(expiresAt, None), actions);
      && |s.created| == |s.deleted| + (if s.staged.Some? then 1 else 0)
      && (s.deleted == {} ==> |s.created| <= 1)
      && (s.row.status == Used ==> Run(s, more).staged == s.staged && s.staged.Some?)
  {
    var s := Run(Begin(expiresAt, None), actions);
    RunInv(Begin(expiresAt, None), actions);
    RunTarget(Begin(expiresAt, None), actions);
    RunInv(s, more);
    RunTarget(s, more);
    if Terminal(s.row) {
      TerminalAbsorbing(s, more);
    }
  }

  // ------------------------------------------------------------------
  // Claims
  // ------------------------------------------------------------------

  predicate ClaimSucceeds(s: State, a: Action) {
    a.Attempt? && a.op.Claim? && PhaseOf(s, a.id).Idle? && Claimable(s.row, a.now)
  }

  predicate ReleaseTakesEffect(s: State, a: Action) {
    a.Attempt? && a.op.Release? && PhaseOf(s, a.id).Failing? && s.row.status == Processing && s.row.expiresAt > a.now
  }

  /** The state the k-th action of a run meets. */
  function Before(s: State, actions: seq<Action>, k: nat): State
    requires k <= |actions|
  {
    Run(s, actions[..k])
  }

  lemma BeforeNext(s: State, actions: seq<Action>, k: nat)
    requires k < |actions|
    ensures Before(s, actions, k + 1) == Step(Before(s, actions, k), actions[k])
  {
    assert actions[..k + 1][..k] == actions[..k];
  }

  /** A revocation closes the link for good, unless it was closed before: the row
      from then on, whatever happens, and no later claim succeeds. */
  lemma {:induction false} RevokedForGood(s: State, actions: seq<Action>, k: nat, j: nat)
    requires k < j <= |actions| && actions[k].Revoke?
    ensures var before := Before(s, actions, k).row;
      Before(s, actions, j).row ==
        if before.status == Used || before.status == Revoked then before
        else before.(status := Revoked, revokedAt := Some(actions[k].now), processingStartedAt := None)
    ensures j < |actions| ==> !ClaimSucceeds(Before(s, actions, j), actions[j])
    decreases j
  {
    BeforeNext(s, actions, j - 1);
    if k < j - 1 {
      RevokedForGood(s, actions, k, j - 1);
      ClosedStays(Before(s, actions, j - 1), actions[j - 1]);
    }
  }

  lemma ClosedStays(s: State, a: Action)
    requires s.row.status == Used || s.row.status == Revoked
    ensures Step(s, a).row == s.row
  {
  }

  /** An attempt that is over stays so. */
  lemma OverStays(s: State, a: Action, id: nat)
    requires PhaseOf(s, id) == Ended || PhaseOf(s, id).Finished?
    ensures PhaseOf(Step(s, a), id) == PhaseOf(s, id)
  {
  }

  /** Once begun, never idle again. */
  lemma {:induction false} NeverIdleAgain(s: State, actions: seq<Action>, id: nat, i: nat, j: nat)
    requires i <= j <= |actions| && !PhaseOf(Before(s, actions, i), id).Idle?
    ensures !PhaseOf(Before(s, actions, j), id).Idle?
    decreases j
  {
    if i < j {
      NeverIdleAgain(s, actions, id, i, j - 1);
      BeforeNext(s, actions, j - 1);
      hide Run, Before, ClaimRow, StageStep, UploadFailedStep, FinalizeStep;
      StepNotIdle(Before(s, actions, j - 1), actions[j - 1], id);
    }
  }

  lemma StepNotIdle(s: State, a: Action, id: nat)
    requires !PhaseOf(s, id).Idle?
    ensures !PhaseOf(Step(s, a), id).Idle?
  {
  }

  /** An attempt claims the link once at most; whoever released it, or stopped, is
      done with it. */
  lemma OneClaimEach(s: State, actions: seq<Action>, i: nat, j: nat)
    requires i < j < |actions|
    requires ClaimSucceeds(Before(s, actions, i), actions[i]) && ClaimSucceeds(Before(s, actions, j), actions[j])
    ensures actions[i].id != actions[j].id
  {
    BeforeNext(s, actions, i);
    assert !PhaseOf(Step(Before(s, actions, i), actions[i]), actions[i].id).Idle?;
    hide Step, Run, Before;
    NeverIdleAgain(s, actions, actions[i].id, i + 1, j);
  }

  /** A release takes effect exactly when it changes the link. */
  lemma ReleaseExactly(s: State, a: Action)
    requires Inv(s) && a.Attempt? && a.op.Release?
    ensures ReleaseTakesEffect(s, a) <==> Step(s, a).row != s.row
    ensures PhaseOf(s, a.id).Failing? ==> PhaseOf(Step(s, a), a.id) == Ended
  {
  }

  /** Staging into an existing case succeeds exactly when the link is being
      processed or was used for that case already, and leaves it used for it. */
  lemma TargetStaged(s: State, id: nat, now: Time, newCase: CaseId)
    requires Inv(s) && s.target.Some? && PhaseOf(s, id).Working?
    ensures var s', since := Step(s, Attempt(id, now, Stage(newCase))), PhaseOf(s, id).since;
      if s.row.status == Processing || s.row.status == Used then
        PhaseOf(s', id) == Staged(since, s.target.value) && s'.row.status == Used && s'.row.importCaseId == s.target
      else
        PhaseOf(s', id) == Failing(since) && s'.row == s.row
  {
  }

  /** The attempt claimed the link and then passed its check. */
  ghost predicate PassedBy(s: State, actions: seq<Action>, id: nat, n: nat)
    requires n <= |actions|
  {
    exists i, j | 0 <= i < j < n ::
      && ClaimSucceeds(Before(s, actions, i), actions[i]) && actions[i].id == id
      && actions[j].Attempt? && actions[j].id == id && actions[j].op == Check(true)
  }

  ghost predicate ClaimedBy(s: State, actions: seq<Action>, id: nat, n: nat)
    requires n <= |actions|
  {
    exists i | 0 <= i < n :: ClaimSucceeds(Before(s, actions, i), actions[i]) && actions[i].id == id
  }

  predicate PastCheck(phase: Phase) {
    phase.Working? || phase.Uploading? || phase.Staged? || phase.Rereading? || phase.Finished?
  }

  /** Nothing is staged, uploaded or finalised but by an attempt that claimed the
      link and then passed the check of issuer and target. */
  lemma {:induction false} NothingUnchecked(expiresAt: Time, target: Option<CaseId>, actions: seq<Action>, id: nat, n: nat)
    requires n <= |actions|
    ensures var s := Begin(expiresAt, target);
      && (PastCheck(PhaseOf(Before(s, actions, n), id)) ==> PassedBy(s, actions, id, n))
      && (PhaseOf(Before(s, actions, n), id).Holding? ==> ClaimedBy(s, actions, id, n))
  {
    var s := Begin(expiresAt, target);
    if n > 0 {
      NothingUnchecked(expiresAt, target, actions, id, n - 1);
      BeforeNext(s, actions, n - 1);
      var before, a := Before(s, actions, n - 1), actions[n - 1];
      PhaseMoves(before, a, id);
      hide Step, Run, ClaimSucceeds, Before;
      if ClaimSucceeds(before, a) && a.id == id {
        assert ClaimedBy(s, actions, id, n);
      }
    } else {
      assert actions[..0] == [];
    }
  }

  /** How an attempt gets to hold the link and past the check. */
  lemma PhaseMoves(s: State, a: Action, id: nat)
    ensures var phase, phase' := PhaseOf(s, id), PhaseOf(Step(s, a), id);
      && (phase'.Holding? ==> phase.Holding? || (ClaimSucceeds(s, a) && a.id == id))
      && (PastCheck(phase') ==>
            PastCheck(phase) || (phase.Holding? && a.Attempt? && a.id == id && a.op == Check(true)))
  {
  }

  ghost predicate NoReleaseBetween(s: State, actions: seq<Action>, i: nat, j: nat)
    requires j <= |actions|
  {
    forall k | i < k < j :: !ReleaseTakesEffect(Before(s, actions, k), actions[k])
  }

  /** The link has been held since time t, or is closed. */
  ghost predicate HeldSince(row: Row, t: Time) {
    && row.status != Active
    && (row.status == Processing ==> row.processingStartedAt.Some? && row.processingStartedAt.value >= t)
  }

  lemma StepHeld(s: State, a: Action, t: Time)
    requires HeldSince(s.row, t) && !ReleaseTakesEffect(s, a)
    ensures HeldSince(Step(s, a).row, t)
  {
  }

  lemma {:induction false} SinceClaim(s: State, actions: seq<Action>, i: nat, j: nat)
    requires i < j <= |actions|
    requires ClaimSucceeds(Before(s, actions, i), actions[i])
    requires NoReleaseBetween(s, actions, i, j)
    ensures HeldSince(Before(s, actions, j).row, actions[i].now)
  {
    BeforeNext(s, actions, j - 1);
    if i < j - 1 {
      SinceClaim(s, actions, i, j - 1);
      StepHeld(Before(s, actions, j - 1), actions[j - 1], actions[i].now);
    }
  }

  /** Two successful claims of one link are separated by a release, or the times
      they recorded are more than fifteen minutes apart. */
  lemma ClaimsSeparated(s: State, actions: seq<Action>, i: nat, j: nat)
    requires i < j < |actions|
    requires ClaimSucceeds(Before(s, actions, i), actions[i])
    requires ClaimSucceeds(Before(s, actions, j), actions[j])
    ensures (exists k | i < k < j :: ReleaseTakesEffect(Before(s, actions, k), actions[k]))
         || actions[j].now - actions[i].now > STALE_AFTER
  {
    if NoReleaseBetween(s, actions, i, j) {
      SinceClaim(s, actions, i, j);
    }
  }

  /** A link that is neither spent nor revoked nor expired can be claimed exactly
      when nobody has held it, unreleased, for the last fifteen minutes. */
  lemma ClaimableExactly(s: State, id: nat, now: Time)
    requires Inv(s) && PhaseOf(s, id).Idle?
    ensures PhaseOf(AttemptStep(s, id, now, Claim), id).Holding? <==>
      && !Terminal(s.row)
      && now < s.row.expiresAt
      && (s.row.status == Processing ==> s.row.processingStartedAt.value < now - STALE_AFTER)
  {
  }

  /** Whatever attempts did before and wherever they stopped, a new attempt that
      can claim the link, passes the checks and meets no failure closes it. */
  lemma RecoveryCompletes(s: State, id: nat, now: Time, newCase: CaseId)
    requires Inv(s) && PhaseOf(s, id).Idle? && Claimable(s.row, now) && newCase !in s.created
    ensures var done := Run(s, Submission(id, now, newCase));
      && PhaseOf(done, id).Finished? && PhaseOf(done, id).finalized
      && done.row.status == Used
      && done.row.importCaseId == Some(
           if s.target.Some? then s.target.value else if s.staged.Some? then s.staged.value else newCase)
  {
    SubmissionRun(s, id, now, newCase);
    var checked := Step(Step(s, Attempt(id, now, Claim)), Attempt(id, now, Check(true)));
    StepInv(s, Attempt(id, now, Claim));
    StepInv(Step(s, Attempt(id, now, Claim)), Attempt(id, now, Check(true)));
    assert PhaseOf(checked, id) == Working(now) && checked.row == ClaimRow(s.row, now);
    WorkCompletes(checked, id, now, newCase);
  }

  lemma WorkCompletes(s: State, id: nat, now: Time, newCase: CaseId)
    requires Inv(s) && PhaseOf(s, id).Working? && s.row.status == Processing && newCase !in s.created
    ensures var done := Step(Step(Step(Step(s, Attempt(id, now, Stage(newCase))), Attempt(id, now, UploadOk)),
        Attempt(id, now, Finalize)), Attempt(id, now, Reread));
      var caseId := if s.target.Some? then s.target.value else if s.staged.Some? then s.staged.value else newCase;
      && PhaseOf(done, id) == Finished(caseId, true)
      && done.row.status == Used
      && done.row.importCaseId == Some(caseId)
  {
    var caseId := if s.target.Some? then s.target.value else if s.staged.Some? then s.staged.value else newCase;
    var staged := Step(s, Attempt(id, now, Stage(newCase)));
    var uploaded := Step(staged, Attempt(id, now, UploadOk));
    assert PhaseOf(uploaded, id) == Staged(PhaseOf(s, id).since, caseId);
    assert uploaded.row == if s.target.Some? then FinalizeRow(s.row, now, caseId) else s.row;
    assert s.target.None? ==> caseId !in uploaded.deleted;
    var finalized := Step(uploaded, Attempt(id, now, Finalize));
    var done := Step(finalized, Attempt(id, now, Reread));
    assert done.row.status == Used && done.row.importCaseId == Some(caseId);
  }

  function Submission(id: nat, now: Time, newCase: CaseId): seq<Action> {
    [Attempt(id, now, Claim), Attempt(id, now, Check(true)), Attempt(id, now, Stage(newCase)),
     Attempt(id, now, UploadOk), Attempt(id, now, Finalize), Attempt(id, now, Reread)]
  }

  lemma SubmissionRun(s: State, id: nat, now: Time, newCase: CaseId)
    ensures Run(s, Submission(id, now, newCase)) ==
      Step(Step(Step(Step(Step(Step(s, Attempt(id, now, Claim)), Attempt(id, now, Check(true))),
        Attempt(id, now, Stage(newCase))), Attempt(id, now, UploadOk)), Attempt(id, now, Finalize)), Attempt(id, now, Reread))
  {
    var actions := Submission(id, now, newCase);
    forall k: nat | k < 6 ensures Before(s, actions, k + 1) == Step(Before(s, actions, k), actions[k]) {
      BeforeNext(s, actions, k);
    }
    assert actions[..6] == actions && actions[..0] == [];
    assert Before(s, actions, 0) == s;
    assert Before(s, actions, 1) == Step(s, actions[0]);
    assert Before(s, actions, 2) == Step(Before(s, actions, 1), actions[1]);
    assert Before(s, actions, 3) == Step(Before(s, actions, 2), actions[2]);
    assert Before(s, actions, 4) == Step(Before(s, actions, 3), actions[3]);
    assert Before(s, actions, 5) == Step(Before(s, actions, 4), actions[4]);
    assert Before(s, actions, 6) == Step(Before(s, actions, 5), actions[5]);
  }

  /** After the link has expired only the terminal states can be entered. */
  lemma AfterExpiry(s: State, a: Action)
    requires Inv(s) && a.now >= s.row.expiresAt
    requires Step(s, a).row != s.row
    ensures Terminal(Step(s, a).row)
  {
  }

  // ------------------------------------------------------------------
  // Exclusive ownership
  // ------------------------------------------------------------------

  ghost predicate IsLive(s: State, id: nat) {
    id in s.attempts && Live(s.attempts[id])
  }

  ghost predicate Exclusive(s: State) {
    forall i, j | IsLive(s, i) && IsLive(s, j) :: i == j
  }

  /** A live attempt's claim is the one recorded on the link, or the link is
      closed. */
  ghost predicate Owned(s: State) {
    forall id | IsLive(s, id) ::
      Terminal(s.row) || (s.row.status == Processing && s.row.processingStartedAt == Some(s.attempts[id].since))
  }

  /** At every claim, no live attempt is older than fifteen minutes. */
  ghost predicate Prompt(s: State, actions: seq<Action>) {
    forall k, id | 0 <= k < |actions| && actions[k].Attempt? && actions[k].op.Claim? && IsLive(Before(s, actions, k), id) ::
      actions[k].now <= Before(s, actions, k).attempts[id].since + STALE_AFTER
  }

  /** The one step that can break exclusive ownership, exactly. */
  lemma ExclusiveStep(s: State, a: Action)
    requires Inv(s) && Exclusive(s) && Owned(s)
    ensures Exclusive(Step(s, a)) && Owned(Step(s, a)) <==>
      !(ClaimSucceeds(s, a) && exists id :: IsLive(s, id) && s.attempts[id].since + STALE_AFTER < a.now)
  {
    if ClaimSucceeds(s, a) {
      var s' := Step(s, a);
      assert IsLive(s', a.id);
      if id :| IsLive(s, id) && s.attempts[id].since + STALE_AFTER < a.now {
        assert id != a.id && IsLive(s', id);
      } else {
        assert forall id :: !IsLive(s, id);
      }
    } else {
      KeepsExclusive(s, a);
    }
  }

  lemma KeepsExclusive(s: State, a: Action)
    requires Inv(s) && Exclusive(s) && Owned(s) && !ClaimSucceeds(s, a)
    ensures Exclusive(Step(s, a)) && Owned(Step(s, a))
  {
    var s' := Step(s, a);
    LivesOn(s, a);
    if a.Attempt? && a.op.Release? && PhaseOf(s, a.id).Failing? {
      assert IsLive(s, a.id) && !IsLive(s', a.id);
    } else {
      RowLeft(s, a);
    }
  }

  /** But for a claim no statement brings an attempt to life or moves its claim
      time. */
  lemma LivesOn(s: State, a: Action)
    requires !ClaimSucceeds(s, a)
    ensures forall id | IsLive(Step(s, a), id) :: IsLive(s, id) && Step(s, a).attempts[id].since == s.attempts[id].since
  {
  }

  /** But for a claim and a release a statement leaves the status of the link
      alone or closes it. */
  lemma RowLeft(s: State, a: Action)
    requires !ClaimSucceeds(s, a) && !(a.Attempt? && a.op.Release? && PhaseOf(s, a.id).Failing?)
    ensures var r, r' := s.row, Step(s, a).row;
      Terminal(r') || (r'.status == r.status && r'.processingStartedAt == r.processingStartedAt)
  {
  }

  /** The link has no fencing token. It is nevertheless exclusively owned
      throughout every run in which no claim meets an attempt that is still
      going after fifteen minutes. */
  lemma {:induction false} ExclusiveWhenPrompt(expiresAt: Time, target: Option<CaseId>, actions: seq<Action>)
    requires Prompt(Begin(expiresAt, target), actions)
    ensures var s := Run(Begin(expiresAt, target), actions); Exclusive(s) && Owned(s)
  {
    var s := Begin(expiresAt, target);
    if actions != [] {
      var init := actions[..|actions| - 1];
      assert forall k | 0 <= k <= |init| :: init[..k] == actions[..k];
      assert forall k | 0 <= k < |init| :: Before(s, init, k) == Before(s, actions, k);
      ExclusiveWhenPrompt(expiresAt, target, init);
      RunInv(s, init);
      assert Before(s, actions, |init|) == Run(s, init);
      ExclusiveStep(Run(s, init), actions[|init|]);
    }
  }

  /** Without promptness ownership is lost, and the fifteen minutes with it: a
      superseded attempt's release lets a third attempt in two milliseconds after
      the second claimed the link. */
  lemma OwnershipLost(expiresAt: Time) returns (actions: seq<Action>)
    requires expiresAt > 1_000_000
    ensures var s := Run(Begin(expiresAt, None), actions);
      && PhaseOf(s, 2) == Holding(900_001) && PhaseOf(s, 3) == Holding(900_003)
      && s.row.status == Processing && s.row.processingStartedAt == Some(900_003)
  {
    var first, second := Attempt(1, 0, Claim), Attempt(2, 900_001, Claim);
    var refused, released := Attempt(1, 900_002, Check(false)), Attempt(1, 900_002, Release);
    var third := Attempt(3, 900_003, Claim);
    actions := [first, second, refused, released, third];
    var s := Begin(expiresAt, None);
    forall k: nat | k < 5 ensures Before(s, actions, k + 1) == Step(Before(s, actions, k), actions[k]) {
      BeforeNext(s, actions, k);
    }
    assert actions[..5] == actions && actions[..0] == [];
    assert Before(s, actions, 0) == s;
    assert Before(s, actions, 1) == Step(s, first);
    assert Before(s, actions, 2) == Step(Before(s, actions, 1), second);
    assert Before(s, actions, 3) == Step(Before(s, actions, 2), refused);
    assert Before(s, actions, 4) == Step(Before(s, actions, 3), released);
    assert Before(s, actions, 5) == Step(Before(s, actions, 4), third);
  }
}
