/** Claiming a document extraction for human review (src/server.js:167-178).

  A claim reads the run, checks it, and swaps it conditionally on the status and
  update time it read; the claim time is the clock value of the read. A claimant
  commits or releases the run without saying which claim it holds. Any number of
  people act on one run, their statements interleaved in any way. */
module ExtractionProtocol {
  import opened DocumentExtraction

  datatype Phase =
    | Idle
    | Read(snapshot: Row, now: Time)
    | Holder(claimedAt: Time)
    | Refused
    | Done

  datatype State = State(row: Row, attempts: map<nat, Phase>, commits: nat)

  datatype Action =
    | ReadRun(id: nat, now: Time)
    | Swap(id: nat)
    | Commit(id: nat, now: Time)
    | Release(id: nat, now: Time)

  function PhaseOf(s: State, id: nat): Phase {
    if id in s.attempts then s.attempts[id] else Idle
  }

  function Enter(s: State, id: nat, phase: Phase): State {
    s.(attempts := s.attempts[id := phase])
  }

  function Step(s: State, a: Action): State {
    var phase := PhaseOf(s, a.id);
    match a
    case ReadRun(id, now) =>
      if !phase.Idle? then s
      else Enter(s, id, if Available(s.row, now) then Read(s.row, now) else Refused)
    case Swap(id) =>
      if !phase.Read? then s
      else if Matches(s.row, phase.snapshot) then
        Enter(s, id, Holder(phase.now)).(row := SwapRow(s.row, phase.snapshot, phase.now))
      else Enter(s, id, Refused)
    case Commit(id, now) =>
      if !phase.Holder? then s
      else if Committable(s.row, now) then
        Enter(s, id, Done).(row := CommitRow(s.row, now), commits := s.commits + 1)
      else s
    case Release(id, now) =>
      if !phase.Holder? then s
      else Enter(s, id, Done).(row := ReleaseRow(s.row, now))
  }

  function Run(s: State, actions: seq<Action>): State {
    if actions == [] then s else Step(Run(s, actions[..|actions| - 1]), actions[|actions| - 1])
  }

  function Before(s: State, actions: seq<Action>, k: nat): State
    requires k <= |actions|
  {
    Run(s, actions[..k])
  }

  lemma BeforeNext(s: State, actions: seq<Action>, k: nat)
    requires k < |actions|
    ensures Before(s, actions, k + 1) == Step(Before(s, actions, k), actions[k])
  {
    assert actions[..k + 1][..k] == actions[..k];
  }

  predicate ClaimSucceeds(s: State, a: Action) {
    a.Swap? && PhaseOf(s, a.id).Read? && Matches(s.row, PhaseOf(s, a.id).snapshot)
  }

  predicate ReleaseTakesEffect(s: State, a: Action) {
    a.Release? && PhaseOf(s, a.id).Holder? && s.row.status == Reviewing
  }

  function ClaimTime(s: State, a: Action): Time
    requires ClaimSucceeds(s, a)
  {
    PhaseOf(s, a.id).now
  }

  /** The verified fields are committed by a holder alone, of a run that is under
      review and has not expired, and the run is then confirmed. */
  lemma CommitsExactly(s: State, a: Action)
    ensures var s' := Step(s, a);
      && (s'.commits != s.commits <==>
            a.Commit? && PhaseOf(s, a.id).Holder? && s.row.status == Reviewing && a.now < s.row.expiresAt)
      && (s'.commits != s.commits ==>
            s'.commits == s.commits + 1 && s'.row == s.row.(status := Confirmed, updatedAt := a.now))
  {
  }

  lemma StepNotIdle(s: State, a: Action, id: nat)
    requires !PhaseOf(s, id).Idle?
    ensures !PhaseOf(Step(s, a), id).Idle?
    ensures PhaseOf(s, id) == Refused || PhaseOf(s, id) == Done ==> PhaseOf(Step(s, a), id) == PhaseOf(s, id)
  {
  }

  /** A refused reader, and whoever committed or released, is done with the run. */
  lemma Over(s: State, a: Action)
    ensures a.ReadRun? && PhaseOf(s, a.id).Idle? && !Available(s.row, a.now) ==> PhaseOf(Step(s, a), a.id) == Refused
    ensures a.Swap? && PhaseOf(s, a.id).Read? && !ClaimSucceeds(s, a) ==> PhaseOf(Step(s, a), a.id) == Refused
    ensures (a.Commit? && Step(s, a).commits != s.commits) || (a.Release? && PhaseOf(s, a.id).Holder?) ==>
      PhaseOf(Step(s, a), a.id) == Done
  {
  }

  /** A run nobody has read yet. */
  function Begin(row: Row): State {
    State(row, map[], 0)
  }

  /** Every reader found the run available; nothing is committed but a confirmed
      run, and that once. */
  ghost predicate Inv(s: State) {
    && (forall id | id in s.attempts && s.attempts[id].Read? ::
          Available(s.attempts[id].snapshot, s.attempts[id].now) && s.attempts[id].snapshot.expiresAt == s.row.expiresAt)
    && (s.commits == if s.row.status == Confirmed then 1 else 0)
  }

  lemma StepInv(s: State, a: Action)
    requires Inv(s)
    ensures Inv(Step(s, a))
  {
  }

  lemma {:induction false} RunInv(s: State, actions: seq<Action>)
    requires Inv(s)
    ensures Inv(Run(s, actions))
  {
    if actions != [] {
      RunInv(s, actions[..|actions| - 1]);
      StepInv(Run(s, actions[..|actions| - 1]), actions[|actions| - 1]);
    }
  }

  /** The guard checked at the read still holds of the row at the swap: no
      concurrent change can slip in between. */
  lemma GuardHoldsAtSwap(row: Row, actions: seq<Action>, k: nat)
    requires k < |actions| && row.status != Confirmed
    requires ClaimSucceeds(Before(Begin(row), actions, k), actions[k])
    ensures var s := Before(Begin(row), actions, k);
      Available(s.row, ClaimTime(s, actions[k])) && s.row == PhaseOf(s, actions[k].id).snapshot
  {
    RunInv(Begin(row), actions[..k]);
  }

  /** Under review since a claim at time t, or finally decided. */
  ghost predicate HeldSince(row: Row, t: Time) {
    row.status != PendingReview && (row.status == Reviewing ==> row.updatedAt >= t)
  }

  lemma StepHeld(s: State, a: Action, t: Time)
    requires Inv(s) && HeldSince(s.row, t) && !ReleaseTakesEffect(s, a)
    ensures HeldSince(Step(s, a).row, t)
  {
  }

  ghost predicate NoReleaseBetween(s: State, actions: seq<Action>, i: nat, j: nat)
    requires j <= |actions|
  {
    forall k | i < k < j :: !ReleaseTakesEffect(Before(s, actions, k), actions[k])
  }

  lemma {:induction false} SinceClaim(s: State, actions: seq<Action>, i: nat, j: nat)
    requires Inv(s) && i < j <= |actions|
    requires ClaimSucceeds(Before(s, actions, i), actions[i])
    requires NoReleaseBetween(s, actions, i, j)
    ensures HeldSince(Before(s, actions, j).row, ClaimTime(Before(s, actions, i), actions[i]))
  {
    BeforeNext(s, actions, j - 1);
    if i < j - 1 {
      SinceClaim(s, actions, i, j - 1);
      RunInv(s, actions[..j - 1]);
      StepHeld(Before(s, actions, j - 1), actions[j - 1], ClaimTime(Before(s, actions, i), actions[i]));
    }
  }

  /** Two successful claims of one run are separated by a release, or carry claim
      times at least five minutes apart. */
  lemma ClaimsSeparated(s: State, actions: seq<Action>, i: nat, j: nat)
    requires Inv(s) && i < j < |actions|
    requires ClaimSucceeds(Before(s, actions, i), actions[i])
    requires ClaimSucceeds(Before(s, actions, j), actions[j])
    ensures (exists k | i < k < j :: ReleaseTakesEffect(Before(s, actions, k), actions[k]))
      || ClaimTime(Before(s, actions, j), actions[j]) - ClaimTime(Before(s, actions, i), actions[i]) >= REVIEW_LEASE
  {
    if NoReleaseBetween(s, actions, i, j) {
      SinceClaim(s, actions, i, j);
      RunInv(s, actions[..j]);
    }
  }

  /** Leases can overlap, but the verified fields are committed at most once,
      and a confirmed run stays as it is. */
  lemma {:induction false} CommittedOnce(row: Row, actions: seq<Action>, more: seq<Action>)
    requires row.status != Confirmed
    ensures var s := Run(Begin(row), actions);
      s.commits <= 1 && (s.commits == 1 ==> Run(s, more).row == s.row && Run(s, more).commits == 1)
  {
    var s := Run(Begin(row), actions);
    RunInv(Begin(row), actions);
    RunInv(s, more);
    if s.commits == 1 {
      ConfirmedAbsorbing(s, more);
    }
  }

  lemma {:induction false} ConfirmedAbsorbing(s: State, actions: seq<Action>)
    requires s.row.status == Confirmed && Inv(s)
    ensures Run(s, actions).row == s.row
  {
    if actions != [] {
      ConfirmedAbsorbing(s, actions[..|actions| - 1]);
      RunInv(s, actions[..|actions| - 1]);
    }
  }

  /** Of all who read the run in the same state, at most one claims it unless a
      release intervenes. */
  lemma OneOfTheReaders(s: State, actions: seq<Action>, i: nat, j: nat)
    requires Inv(s) && i < j < |actions|
    requires ClaimSucceeds(Before(s, actions, i), actions[i])
    requires PhaseOf(Before(s, actions, j), actions[j].id).Read?
    requires PhaseOf(Before(s, actions, j), actions[j].id).snapshot == PhaseOf(Before(s, actions, i), actions[i].id).snapshot
    requires NoReleaseBetween(s, actions, i, j)
    ensures !ClaimSucceeds(Before(s, actions, j), actions[j])
  {
    SinceClaim(s, actions, i, j);
    RunInv(s, actions[..i]);
  }

  // ------------------------------------------------------------------
  // Exclusive holding
  // ------------------------------------------------------------------

  ghost predicate Live(s: State, id: nat) {
    PhaseOf(s, id).Holder?
  }

  ghost predicate Exclusive(s: State) {
    forall i, j | Live(s, i) && Live(s, j) :: i == j
  }

  /** A live holder's claim is the one recorded on the run, or the run is decided. */
  ghost predicate Owned(s: State) {
    forall id | Live(s, id) ::
      s.row.status == Confirmed || (s.row.status == Reviewing && s.row.updatedAt == PhaseOf(s, id).claimedAt)
  }

  /** Does the claim meet a holder whose five minutes are over? */
  ghost predicate Supersedes(s: State, a: Action) {
    ClaimSucceeds(s, a) && exists id :: Live(s, id) && PhaseOf(s, id).claimedAt + REVIEW_LEASE <= ClaimTime(s, a)
  }

  lemma KeepsExclusive(s: State, a: Action)
    requires Inv(s) && Exclusive(s) && Owned(s) && !ClaimSucceeds(s, a)
    ensures Exclusive(Step(s, a)) && Owned(Step(s, a))
  {
    var s' := Step(s, a);
    assert forall id | Live(s', id) :: Live(s, id) && PhaseOf(s', id) == PhaseOf(s, id);
    if (a.Commit? || a.Release?) && Live(s, a.id) && !Live(s', a.id) {
      assert forall id :: !Live(s', id);
    }
  }

  /** The one step that can break exclusive holding, exactly. */
  lemma ExclusiveStep(s: State, a: Action)
    requires Inv(s) && Exclusive(s) && Owned(s)
    ensures Exclusive(Step(s, a)) && Owned(Step(s, a)) <==> !Supersedes(s, a)
  {
    if ClaimSucceeds(s, a) {
      var s' := Step(s, a);
      assert Live(s', a.id) && !Live(s, a.id);
      if id :| Live(s, id) {
        assert Available(s.row, ClaimTime(s, a));
        assert PhaseOf(s, id).claimedAt + REVIEW_LEASE <= ClaimTime(s, a);
        assert id != a.id && Live(s', id);
      } else {
        forall id | Live(s', id) ensures id == a.id {
          assert !Live(s, id);
        }
        assert PhaseOf(s', a.id).claimedAt == s'.row.updatedAt;
      }
    } else {
      KeepsExclusive(s, a);
    }
  }

  /** No claim takes effect while a holder is older than five minutes at its
      clock value. */
  ghost predicate Prompt(s: State, actions: seq<Action>) {
    forall k, id | 0 <= k < |actions| && ClaimSucceeds(Before(s, actions, k), actions[k])
        && Live(Before(s, actions, k), id) ::
      ClaimTime(Before(s, actions, k), actions[k]) < PhaseOf(Before(s, actions, k), id).claimedAt + REVIEW_LEASE
  }

  /** A run is held exclusively throughout every history in which no claim meets
      a holder older than five minutes. */
  lemma {:induction false} ExclusiveWhenPrompt(row: Row, actions: seq<Action>)
    requires row.status != Confirmed && Prompt(Begin(row), actions)
    ensures var s := Run(Begin(row), actions); Exclusive(s) && Owned(s)
  {
    var s := Begin(row);
    if actions != [] {
      var init := actions[..|actions| - 1];
      assert forall k | 0 <= k <= |init| :: init[..k] == actions[..k];
      assert forall k | 0 <= k < |init| :: Before(s, init, k) == Before(s, actions, k);
      ExclusiveWhenPrompt(row, init);
      RunInv(s, init);
      assert Before(s, actions, |init|) == Run(s, init);
      ExclusiveStep(Run(s, init), actions[|init|]);
    }
  }

  /** Without a fencing token a superseded holder can give away a run another
      one holds: a third claim follows the second by a millisecond. */
  lemma LeaseLost() returns (row: Row, actions: seq<Action>)
    ensures var s := Run(Begin(row), actions);
      PhaseOf(s, 2) == Holder(300_000) && PhaseOf(s, 3) == Holder(300_002) && s.row.updatedAt == 300_002
  {
    row := Row(PendingReview, 0, 900_000);
    actions := [ReadRun(1, 0), Swap(1)] + [ReadRun(2, 300_000), Swap(2)] + [Release(1, 300_001)]
      + [ReadRun(3, 300_002), Swap(3)];
    var s0 := Begin(row);
    Claimed(s0, 1, 0);
    var s1 := Run(s0, [ReadRun(1, 0), Swap(1)]);
    Claimed(s1, 2, 300_000);
    var s2 := Run(s1, [ReadRun(2, 300_000), Swap(2)]);
    RunAppend(s2, [], Release(1, 300_001));
    assert [] + [Release(1, 300_001)] == [Release(1, 300_001)];
    var s3 := Run(s2, [Release(1, 300_001)]);
    Claimed(s3, 3, 300_002);
    RunConcat(s0, [ReadRun(1, 0), Swap(1)], [ReadRun(2, 300_000), Swap(2)]);
    RunConcat(s0, [ReadRun(1, 0), Swap(1)] + [ReadRun(2, 300_000), Swap(2)], [Release(1, 300_001)]);
    RunConcat(s0, [ReadRun(1, 0), Swap(1)] + [ReadRun(2, 300_000), Swap(2)] + [Release(1, 300_001)],
      [ReadRun(3, 300_002), Swap(3)]);
  }

  lemma RunAppend(s: State, actions: seq<Action>, a: Action)
    ensures Run(s, actions + [a]) == Step(Run(s, actions), a)
  {
    assert (actions + [a])[..|actions|] == actions;
  }

  lemma {:induction false} RunConcat(s: State, first: seq<Action>, second: seq<Action>)
    ensures Run(s, first + second) == Run(Run(s, first), second)
  {
    if second == [] {
      assert first + second == first;
    } else {
      RunConcat(s, first, second[..|second| - 1]);
      assert (first + second)[..|first + second| - 1] == first + second[..|second| - 1];
    }
  }

  /** Whoever reads an available run and swaps it at once holds it. */
  lemma Claimed(s: State, id: nat, now: Time)
    requires PhaseOf(s, id).Idle? && Available(s.row, now)
    ensures var s' := Run(s, [ReadRun(id, now), Swap(id)]);
      && s'.row == s.row.(status := Reviewing, updatedAt := now)
      && s'.attempts == s.attempts[id := Holder(now)]
  {
    RunAppend(s, [], ReadRun(id, now));
    assert [] + [ReadRun(id, now)] == [ReadRun(id, now)];
    RunAppend(s, [ReadRun(id, now)], Swap(id));
    assert [ReadRun(id, now)] + [Swap(id)] == [ReadRun(id, now), Swap(id)];
  }
}
