/** Reviews of one case running at the same time (src/server.js:364-376). Each
    reads the open findings once, resolves the stale ones row by row, and then
    inserts what is missing; the unique index on open deterministic keys answers a
    duplicate insert with a conflict, which the review ignores. */
module ReviewProtocol {
  import opened CaseFindings
  import opened Json
  import opened Options

  /** What a review has still to resolve and, after that, to insert. */
  datatype Phase =
    | Idle
    | Working(desired: Desired, stale: set<nat>, missing: set<Text>)

  datatype State = State(rows: seq<Row>, reviews: map<nat, Phase>)

  datatype Action =
    | Start(id: nat, desired: Desired)
    | ResolveOne(id: nat, row: nat)
    | InsertOne(id: nat, key: Text)

  function PhaseOf(s: State, id: nat): Phase {
    if id in s.reviews then s.reviews[id] else Idle
  }

  ghost predicate Finished(s: State, id: nat) {
    PhaseOf(s, id).Working? && PhaseOf(s, id).stale == {} && PhaseOf(s, id).missing == {}
  }

  ghost function StaleRows(rows: seq<Row>, caseId: nat, desired: Desired): set<nat> {
    set i: nat | i < |rows| && Standing(rows[i], caseId) && !Wanted(rows[i], desired)
  }

  ghost function MissingKeys(rows: seq<Row>, caseId: nat, desired: Desired): set<Text> {
    set key | key in desired.Keys && !Held(rows, caseId, desired, key)
  }

  /** An open finding stands for the key with the desired fingerprint. */
  ghost predicate Held(rows: seq<Row>, caseId: nat, desired: Desired, key: Text) {
    exists i :: StandsFor(rows, caseId, i, key) && Wanted(rows[i], desired)
  }

  function ResolvedAt(rows: seq<Row>, i: nat): seq<Row> {
    if i < |rows| && rows[i].status == Open then rows[i := rows[i].(status := Resolved)] else rows
  }

  ghost function InsertedFor(rows: seq<Row>, caseId: nat, key: Text, fingerprint: Text): seq<Row> {
    if Covered(rows, caseId, key) then rows
    else rows + [Row(caseId, Deterministic, Open, Some(key), Some(fingerprint))]
  }

  /** One statement of one review. A statement the review is not at is no step. */
  ghost function Step(s: State, caseId: nat, a: Action): State {
    var phase := PhaseOf(s, a.id);
    match a
    case Start(id, desired) =>
      if phase.Working? then s
      else
        s.(reviews := s.reviews[id := Working(desired, StaleRows(s.rows, caseId, desired), MissingKeys(s.rows, caseId, desired))])
    case ResolveOne(id, i) =>
      if !(phase.Working? && i in phase.stale) then s
      else State(ResolvedAt(s.rows, i), s.reviews[id := phase.(stale := phase.stale - {i})])
    case InsertOne(id, key) =>
      if !(phase.Working? && phase.stale == {} && key in phase.missing && key in phase.desired) then s
      else
        State(InsertedFor(s.rows, caseId, key, phase.desired[key]),
              s.reviews[id := phase.(missing := phase.missing - {key})])
  }

  ghost function Run(s: State, caseId: nat, actions: seq<Action>): State {
    if actions == [] then s else Step(Run(s, caseId, actions[..|actions| - 1]), caseId, actions[|actions| - 1])
  }

  /** What the unique index is over. */
  predicate IsOpenFor(row: Row, caseId: nat, key: Text) {
    row.caseId == caseId && row.origin == Deterministic && row.status == Open && row.key == Some(key)
  }

  /** The two statements of a review: an open row is resolved and nothing else; a
      finding is stored at the end, open, unless its key is open already. */
  lemma StatementsExactly(rows: seq<Row>, caseId: nat, i: nat, key: Text, fingerprint: Text)
    requires i < |rows|
    ensures var resolved, inserted := ResolvedAt(rows, i), InsertedFor(rows, caseId, key, fingerprint);
      && |resolved| == |rows| && (forall j | 0 <= j < |rows| && j != i :: resolved[j] == rows[j])
      && resolved[i] == (if rows[i].status == Open then rows[i].(status := Resolved) else rows[i])
      && inserted ==
           if exists row | row in rows :: IsOpenFor(row, caseId, key) then rows
           else rows + [Row(caseId, Deterministic, Open, Some(key), Some(fingerprint))]
  {
    if row :| row in rows && IsOpenFor(row, caseId, key) {
      var j :| 0 <= j < |rows| && rows[j] == row;
      assert StandsFor(rows, caseId, j, key);
    }
    if j :| StandsFor(rows, caseId, j, key) {
      assert rows[j] in rows && IsOpenFor(rows[j], caseId, key);
    }
  }

  /** A statement a review is at takes one thing off what it has still to do. */
  lemma Progress(s: State, caseId: nat, id: nat, i: nat, key: Text)
    requires PhaseOf(s, id).Working?
    ensures var phase := PhaseOf(s, id);
      && (i in phase.stale ==>
            PhaseOf(Step(s, caseId, ResolveOne(id, i)), id) == phase.(stale := phase.stale - {i}))
      && (phase.stale == {} && key in phase.missing && key in phase.desired ==>
            PhaseOf(Step(s, caseId, InsertOne(id, key)), id) == phase.(missing := phase.missing - {key}))
  {
  }

  /** From whatever state it is in, a review can finish on its own, with a
      statement for each thing it has still to do. */
  lemma {:induction false} CanFinish(s: State, caseId: nat, id: nat) returns (actions: seq<Action>)
    requires PhaseOf(s, id).Working? && PhaseOf(s, id).missing <= PhaseOf(s, id).desired.Keys
    ensures forall k | 0 <= k < |actions| :: actions[k].id == id && !actions[k].Start?
    ensures |actions| == |PhaseOf(s, id).stale| + |PhaseOf(s, id).missing|
    ensures Finished(Run(s, caseId, actions), id)
    decreases |PhaseOf(s, id).stale| + |PhaseOf(s, id).missing|
  {
    var phase := PhaseOf(s, id);
    if phase.stale == {} && phase.missing == {} {
      actions := [];
    } else {
      var a: Action;
      if i :| i in phase.stale {
        a := ResolveOne(id, i);
        Progress(s, caseId, id, i, []);
      } else {
        var key :| key in phase.missing;
        a := InsertOne(id, key);
        Progress(s, caseId, id, 0, key);
      }
      hide Step;
      var rest := CanFinish(Step(s, caseId, a), caseId, id);
      actions := [a] + rest;
      RunFrom(s, caseId, a, rest);
    }
  }

  lemma {:induction false} RunFrom(s: State, caseId: nat, a: Action, rest: seq<Action>)
    ensures Run(s, caseId, [a] + rest) == Run(Step(s, caseId, a), caseId, rest)
  {
    if rest == [] {
      assert [a] + rest == [a] && [a][..0] == [];
    } else {
      RunFrom(s, caseId, a, rest[..|rest| - 1]);
      assert ([a] + rest)[..|rest|] == [a] + rest[..|rest| - 1];
    }
  }

  // ------------------------------------------------------------------
  // Reviews of the same data
  // ------------------------------------------------------------------

  ghost predicate OneOpen(rows: seq<Row>, caseId: nat) {
    forall key, i, j | StandsFor(rows, caseId, i, key) && StandsFor(rows, caseId, j, key) :: i == j
  }

  /** What a review still has to do is enough: the rows it means to resolve are
      unwanted, no unwanted row stands but those, and every key it does not mean
      to insert is held. */
  ghost predicate Enough(rows: seq<Row>, caseId: nat, phase: Phase) {
    phase.Working? ==>
      && (forall i | i in phase.stale :: i < |rows| && !Wanted(rows[i], phase.desired))
      && (forall i: nat | i < |rows| && Standing(rows[i], caseId) && !Wanted(rows[i], phase.desired) :: i in phase.stale)
      && (forall key | key in phase.desired && key !in phase.missing :: Held(rows, caseId, phase.desired, key))
  }

  ghost predicate Inv(s: State, caseId: nat, desired: Desired) {
    && OneOpen(s.rows, caseId)
    && (forall id | id in s.reviews :: Enough(s.rows, caseId, s.reviews[id]))
    && (forall id | id in s.reviews && s.reviews[id].Working? :: s.reviews[id].desired == desired)
  }

  ghost predicate SameData(actions: seq<Action>, desired: Desired) {
    forall k | 0 <= k < |actions| && actions[k].Start? :: actions[k].desired == desired
  }

  lemma StartInv(s: State, caseId: nat, id: nat, desired: Desired)
    requires Inv(s, caseId, desired)
    ensures Inv(Step(s, caseId, Start(id, desired)), caseId, desired)
  {
    var phase := Working(desired, StaleRows(s.rows, caseId, desired), MissingKeys(s.rows, caseId, desired));
    assert Enough(s.rows, caseId, phase);
  }

  /** Resolving an unwanted row takes no finding away that any review relies on. */
  lemma ResolveKeeps(rows: seq<Row>, caseId: nat, i: nat, phase: Phase)
    requires Enough(rows, caseId, phase) && phase.Working?
    requires i < |rows| && !Wanted(rows[i], phase.desired)
    ensures Enough(ResolvedAt(rows, i), caseId, phase)
    ensures Enough(ResolvedAt(rows, i), caseId, phase.(stale := phase.stale - {i}))
  {
    var after := ResolvedAt(rows, i);
    forall key | key in phase.desired && key !in phase.missing ensures Held(after, caseId, phase.desired, key) {
      var j :| StandsFor(rows, caseId, j, key) && Wanted(rows[j], phase.desired);
      assert StandsFor(after, caseId, j, key) && Wanted(after[j], phase.desired);
    }
  }

  lemma ResolveInv(s: State, caseId: nat, id: nat, i: nat, desired: Desired)
    requires Inv(s, caseId, desired)
    ensures Inv(Step(s, caseId, ResolveOne(id, i)), caseId, desired)
  {
    var phase := PhaseOf(s, id);
    if phase.Working? && i in phase.stale {
      var s' := Step(s, caseId, ResolveOne(id, i));
      assert forall key, j | StandsFor(s'.rows, caseId, j, key) :: StandsFor(s.rows, caseId, j, key);
      forall other | other in s'.reviews ensures Enough(s'.rows, caseId, s'.reviews[other]) {
        if s.reviews[other].Working? {
          ResolveKeeps(s.rows, caseId, i, s.reviews[other]);
        }
      }
    }
  }

  /** A review that has resolved everything it meant to inserts a finding or finds
      the wanted one there; either way the key is held. */
  lemma InsertKeeps(rows: seq<Row>, caseId: nat, key: Text, phase: Phase)
    requires Enough(rows, caseId, phase) && phase.Working? && key in phase.desired
    ensures Enough(InsertedFor(rows, caseId, key, phase.desired[key]), caseId, phase)
    ensures phase.stale == {} ==>
      Enough(InsertedFor(rows, caseId, key, phase.desired[key]), caseId, phase.(missing := phase.missing - {key}))
  {
    var after := InsertedFor(rows, caseId, key, phase.desired[key]);
    assert forall i | 0 <= i < |rows| :: after[i] == rows[i];
    forall k | k in phase.desired && Held(rows, caseId, phase.desired, k) ensures Held(after, caseId, phase.desired, k) {
      var j :| StandsFor(rows, caseId, j, k) && Wanted(rows[j], phase.desired);
      assert StandsFor(after, caseId, j, k) && Wanted(after[j], phase.desired);
    }
    if phase.stale == {} {
      if Covered(rows, caseId, key) {
        var j :| StandsFor(rows, caseId, j, key);
        assert Wanted(rows[j], phase.desired);
      } else {
        assert StandsFor(after, caseId, |rows|, key) && Wanted(after[|rows|], phase.desired);
      }
      assert Held(after, caseId, phase.desired, key);
    }
  }

  lemma InsertInv(s: State, caseId: nat, id: nat, key: Text, desired: Desired)
    requires Inv(s, caseId, desired)
    ensures Inv(Step(s, caseId, InsertOne(id, key)), caseId, desired)
  {
    var phase := PhaseOf(s, id);
    if phase.Working? && phase.stale == {} && key in phase.missing && key in phase.desired {
      var s' := Step(s, caseId, InsertOne(id, key));
      OneOpenKept(s.rows, caseId, key, desired[key]);
      forall other | other in s'.reviews ensures Enough(s'.rows, caseId, s'.reviews[other]) {
        if s.reviews[other].Working? {
          InsertKeeps(s.rows, caseId, key, s.reviews[other]);
        }
      }
    }
  }

  lemma OneOpenKept(rows: seq<Row>, caseId: nat, key: Text, fingerprint: Text)
    requires OneOpen(rows, caseId)
    ensures OneOpen(InsertedFor(rows, caseId, key, fingerprint), caseId)
  {
    var after := InsertedFor(rows, caseId, key, fingerprint);
    forall k, i, j | StandsFor(after, caseId, i, k) && StandsFor(after, caseId, j, k) ensures i == j {
      assert i < |rows| ==> StandsFor(rows, caseId, i, k);
      assert j < |rows| ==> StandsFor(rows, caseId, j, k);
    }
  }

  lemma {:induction false} RunInv(s: State, caseId: nat, actions: seq<Action>, desired: Desired)
    requires Inv(s, caseId, desired) && SameData(actions, desired)
    ensures Inv(Run(s, caseId, actions), caseId, desired)
  {
    if actions != [] {
      var init, last := actions[..|actions| - 1], actions[|actions| - 1];
      RunInv(s, caseId, init, desired);
      var before := Run(s, caseId, init);
      match last
      case Start(id, d) => StartInv(before, caseId, id, desired);
      case ResolveOne(id, i) => ResolveInv(before, caseId, id, i, desired);
      case InsertOne(id, key) => InsertInv(before, caseId, id, key, desired);
    }
  }

  /** Any number of reviews of the same data may overlap, their statements
      interleaved in any way: as soon as one of them has finished the findings are
      reconciled, and they stay so whatever the others still do. */
  lemma ConcurrentReviews(rows: seq<Row>, caseId: nat, actions: seq<Action>, more: seq<Action>, desired: Desired, id: nat)
    requires OneOpen(rows, caseId) && SameData(actions, desired) && SameData(more, desired)
    requires Finished(Run(State(rows, map[]), caseId, actions), id)
    ensures Reconciled(Run(State(rows, map[]), caseId, actions).rows, caseId, desired)
    ensures Reconciled(Run(Run(State(rows, map[]), caseId, actions), caseId, more).rows, caseId, desired)
  {
    var s := Run(State(rows, map[]), caseId, actions);
    RunInv(State(rows, map[]), caseId, actions, desired);
    RunInv(s, caseId, more, desired);
    StaysFinished(s, caseId, more, id);
    FinishedReconciled(s, caseId, desired, id);
    FinishedReconciled(Run(s, caseId, more), caseId, desired, id);
  }

  lemma FinishedReconciled(s: State, caseId: nat, desired: Desired, id: nat)
    requires Inv(s, caseId, desired) && Finished(s, id)
    ensures Reconciled(s.rows, caseId, desired)
  {
    assert Enough(s.rows, caseId, s.reviews[id]);
    forall key | key in desired ensures Covered(s.rows, caseId, key) {
      assert Held(s.rows, caseId, desired, key);
      var i :| StandsFor(s.rows, caseId, i, key) && Wanted(s.rows[i], desired);
    }
  }

  lemma {:induction false} StaysFinished(s: State, caseId: nat, actions: seq<Action>, id: nat)
    requires Finished(s, id)
    ensures Finished(Run(s, caseId, actions), id)
  {
    if actions != [] {
      StaysFinished(s, caseId, actions[..|actions| - 1], id);
    }
  }

  // ------------------------------------------------------------------
  // Reviews of different data
  // ------------------------------------------------------------------

  /** An insert leaves the key held exactly when no other fingerprint is open for
      it: a conflict is ignored whatever the finding it ran into. */
  lemma InsertHoldsExactly(rows: seq<Row>, caseId: nat, desired: Desired, key: Text)
    requires key in desired
    ensures Held(InsertedFor(rows, caseId, key, desired[key]), caseId, desired, key) <==>
      (exists i :: StandsFor(rows, caseId, i, key) && rows[i].fingerprint == Some(desired[key]))
      || !Covered(rows, caseId, key)
    ensures OneOpen(rows, caseId) ==>
      (Held(InsertedFor(rows, caseId, key, desired[key]), caseId, desired, key) <==>
        forall i | StandsFor(rows, caseId, i, key) :: rows[i].fingerprint == Some(desired[key]))
  {
    var after := InsertedFor(rows, caseId, key, desired[key]);
    if Covered(rows, caseId, key) {
      var j :| StandsFor(rows, caseId, j, key);
      assert rows[j].fingerprint == Some(desired[key]) ==> StandsFor(after, caseId, j, key) && Wanted(after[j], desired);
    } else {
      assert StandsFor(after, caseId, |rows|, key) && Wanted(after[|rows|], desired);
    }
  }

  /** Does a statement of another review take away what this one counts on? It
      resolves the finding that holds a key this one does not mean to insert, or
      it stores a finding this one does not want and has not seen. */
  ghost predicate Undercuts(s: State, caseId: nat, id: nat, a: Action) {
    var phase, other := PhaseOf(s, id), PhaseOf(s, a.id);
    && a.id != id && phase.Working? && other.Working?
    && match a
       case Start(_, _) => false
       case ResolveOne(_, i) =>
         && i in other.stale && i < |s.rows| && Standing(s.rows[i], caseId)
         && Wanted(s.rows[i], phase.desired) && s.rows[i].key.value !in phase.missing
       case InsertOne(_, key) =>
         && other.stale == {} && key in other.missing && key in other.desired && !Covered(s.rows, caseId, key)
         && !(key in phase.desired && phase.desired[key] == other.desired[key])
  }

  lemma ResolveUndercuts(rows: seq<Row>, caseId: nat, i: nat, phase: Phase)
    requires OneOpen(rows, caseId) && Enough(rows, caseId, phase) && phase.Working?
    requires i < |rows| && Standing(rows[i], caseId)
    requires Wanted(rows[i], phase.desired) && rows[i].key.value !in phase.missing
    ensures !Enough(ResolvedAt(rows, i), caseId, phase)
  {
    var after, key := ResolvedAt(rows, i), rows[i].key.value;
    assert StandsFor(rows, caseId, i, key);
    forall j ensures !(StandsFor(after, caseId, j, key) && Wanted(after[j], phase.desired)) {
      assert StandsFor(after, caseId, j, key) ==> StandsFor(rows, caseId, j, key);
    }
    assert !Held(after, caseId, phase.desired, key);
  }

  /** Resolving anything else keeps what the review counts on. */
  lemma ResolveSpares(rows: seq<Row>, caseId: nat, i: nat, phase: Phase)
    requires Enough(rows, caseId, phase) && phase.Working?
    requires i < |rows| ==> (rows[i].status != Open || !Standing(rows[i], caseId)
      || !Wanted(rows[i], phase.desired) || rows[i].key.value in phase.missing)
    ensures Enough(ResolvedAt(rows, i), caseId, phase)
  {
    var after := ResolvedAt(rows, i);
    forall key | key in phase.desired && key !in phase.missing ensures Held(after, caseId, phase.desired, key) {
      var j :| StandsFor(rows, caseId, j, key) && Wanted(rows[j], phase.desired);
      assert StandsFor(after, caseId, j, key) && Wanted(after[j], phase.desired);
    }
  }

  /** A step of another review leaves this one's remaining work enough exactly
      when it does not undercut it. */
  lemma UndercutExactly(s: State, caseId: nat, id: nat, a: Action)
    requires OneOpen(s.rows, caseId) && Enough(s.rows, caseId, PhaseOf(s, id)) && a.id != id
    ensures Enough(Step(s, caseId, a).rows, caseId, PhaseOf(Step(s, caseId, a), id)) <==> !Undercuts(s, caseId, id, a)
  {
    var phase, other := PhaseOf(s, id), PhaseOf(s, a.id);
    assert PhaseOf(Step(s, caseId, a), id) == phase;
    if phase.Working? && other.Working? {
      match a
      case Start(_, _) =>
      case ResolveOne(_, i) =>
        if Undercuts(s, caseId, id, a) {
          ResolveUndercuts(s.rows, caseId, i, phase);
        } else if i in other.stale {
          ResolveSpares(s.rows, caseId, i, phase);
        }
      case InsertOne(_, key) =>
        if other.stale == {} && key in other.missing && key in other.desired {
          InsertUndercuts(s.rows, caseId, key, other.desired[key], phase);
        }
    }
  }

  lemma InsertUndercuts(rows: seq<Row>, caseId: nat, key: Text, fingerprint: Text, phase: Phase)
    requires Enough(rows, caseId, phase) && phase.Working?
    ensures Enough(InsertedFor(rows, caseId, key, fingerprint), caseId, phase) <==>
      Covered(rows, caseId, key) || (key in phase.desired && phase.desired[key] == fingerprint)
  {
    var after := InsertedFor(rows, caseId, key, fingerprint);
    if !Covered(rows, caseId, key) {
      assert Standing(after[|rows|], caseId) && |rows| !in phase.stale;
      assert forall i | 0 <= i < |rows| :: after[i] == rows[i];
      forall k | k in phase.desired && Held(rows, caseId, phase.desired, k) ensures Held(after, caseId, phase.desired, k) {
        var j :| StandsFor(rows, caseId, j, k) && Wanted(rows[j], phase.desired);
        assert StandsFor(after, caseId, j, k) && Wanted(after[j], phase.desired);
      }
    }
  }

  /** A review's own steps always do. */
  lemma OwnStepKeeps(s: State, caseId: nat, a: Action)
    requires Enough(s.rows, caseId, PhaseOf(s, a.id))
    ensures Enough(Step(s, caseId, a).rows, caseId, PhaseOf(Step(s, caseId, a), a.id))
  {
    var phase := PhaseOf(s, a.id);
    match a
    case Start(id, desired) =>
    case ResolveOne(id, i) => if phase.Working? && i in phase.stale { ResolveKeeps(s.rows, caseId, i, phase); }
    case InsertOne(id, key) =>
      if phase.Working? && phase.stale == {} && key in phase.missing && key in phase.desired {
        InsertKeeps(s.rows, caseId, key, phase);
      }
  }

  lemma StepOneOpen(s: State, caseId: nat, a: Action)
    requires OneOpen(s.rows, caseId)
    ensures OneOpen(Step(s, caseId, a).rows, caseId)
  {
    var rows, phase := s.rows, PhaseOf(s, a.id);
    match a
    case Start(_, _) =>
    case ResolveOne(_, i) =>
      assert forall key, j | StandsFor(ResolvedAt(rows, i), caseId, j, key) :: StandsFor(rows, caseId, j, key);
    case InsertOne(_, key) =>
      if phase.Working? && key in phase.desired {
        OneOpenKept(rows, caseId, key, phase.desired[key]);
      }
  }

  /** A finished review has its findings exactly while nothing it counts on is
      gone. */
  lemma FinishedExactly(s: State, caseId: nat, id: nat)
    requires OneOpen(s.rows, caseId) && Finished(s, id)
    ensures Reconciled(s.rows, caseId, PhaseOf(s, id).desired) <==> Enough(s.rows, caseId, PhaseOf(s, id))
  {
    var desired := PhaseOf(s, id).desired;
    forall key | key in desired
      ensures Held(s.rows, caseId, desired, key) ==> Covered(s.rows, caseId, key)
      ensures Reconciled(s.rows, caseId, desired) ==> Held(s.rows, caseId, desired, key)
    {
      if Held(s.rows, caseId, desired, key) {
        var i :| StandsFor(s.rows, caseId, i, key) && Wanted(s.rows[i], desired);
      }
      if Reconciled(s.rows, caseId, desired) {
        var i :| StandsFor(s.rows, caseId, i, key);
        assert Wanted(s.rows[i], desired);
      }
    }
  }

  /** The state the k-th action of a run meets. */
  ghost function Before(s: State, caseId: nat, actions: seq<Action>, k: nat): State
    requires k <= |actions|
  {
    Run(s, caseId, actions[..k])
  }

  /** Is the review undercut, for the first time since it had enough to do, by the
      k-th action? */
  ghost predicate UndercutAt(s: State, caseId: nat, actions: seq<Action>, id: nat, k: nat) {
    && k < |actions|
    && Enough(Before(s, caseId, actions, k).rows, caseId, PhaseOf(Before(s, caseId, actions, k), id))
    && Undercuts(Before(s, caseId, actions, k), caseId, id, actions[k])
  }

  lemma UndercutEarlier(s: State, caseId: nat, actions: seq<Action>, id: nat, k: nat)
    requires actions != [] && UndercutAt(s, caseId, actions[..|actions| - 1], id, k)
    ensures UndercutAt(s, caseId, actions, id, k)
  {
    var init := actions[..|actions| - 1];
    assert init[..k] == actions[..k] && init[k] == actions[k];
  }

  lemma UndercutLast(s: State, caseId: nat, actions: seq<Action>, id: nat)
    requires actions != []
    ensures var before := Run(s, caseId, actions[..|actions| - 1]);
      && (UndercutAt(s, caseId, actions, id, |actions| - 1) <==>
            Enough(before.rows, caseId, PhaseOf(before, id)) && Undercuts(before, caseId, id, actions[|actions| - 1]))
      && Run(s, caseId, actions) == Step(before, caseId, actions[|actions| - 1])
  {
  }

  lemma {:induction false} EnoughUnlessUndercut(s: State, caseId: nat, actions: seq<Action>, id: nat)
    requires OneOpen(s.rows, caseId) && Enough(s.rows, caseId, PhaseOf(s, id))
    ensures OneOpen(Run(s, caseId, actions).rows, caseId)
    ensures (forall k: nat :: !UndercutAt(s, caseId, actions, id, k)) ==>
      Enough(Run(s, caseId, actions).rows, caseId, PhaseOf(Run(s, caseId, actions), id))
  {
    if actions == [] {
      assert Run(s, caseId, actions) == s;
    } else {
      hide *;
      var init, last := actions[..|actions| - 1], actions[|actions| - 1];
      var before := Run(s, caseId, init);
      EnoughUnlessUndercut(s, caseId, init, id);
      UndercutLast(s, caseId, actions, id);
      StepOneOpen(before, caseId, last);
      if forall k: nat :: !UndercutAt(s, caseId, actions, id, k) {
        forall k: nat ensures !UndercutAt(s, caseId, init, id, k) {
          if UndercutAt(s, caseId, init, id, k) { UndercutEarlier(s, caseId, actions, id, k); }
        }
        if last.id == id {
          OwnStepKeeps(before, caseId, last);
        } else {
          UndercutExactly(before, caseId, id, last);
        }
      }
    }
  }

  /** Whatever data the reviews were started with and however they interleave, a
      finished review is reconciled at the end unless some step undercut it. */
  lemma ReconciledUnlessUndercut(rows: seq<Row>, caseId: nat, actions: seq<Action>, id: nat)
    requires OneOpen(rows, caseId)
    requires Finished(Run(State(rows, map[]), caseId, actions), id)
    ensures var s := Run(State(rows, map[]), caseId, actions);
      || Reconciled(s.rows, caseId, PhaseOf(s, id).desired)
      || exists k: nat :: UndercutAt(State(rows, map[]), caseId, actions, id, k)
  {
    EnoughUnlessUndercut(State(rows, map[]), caseId, actions, id);
    FinishedExactly(Run(State(rows, map[]), caseId, actions), caseId, id);
  }

  /** And the step that undercuts a finished review is the one that takes its
      reconciliation away: no other step does. */
  lemma BreakingStep(s: State, caseId: nat, id: nat, a: Action)
    requires OneOpen(s.rows, caseId) && Finished(s, id)
    requires Reconciled(s.rows, caseId, PhaseOf(s, id).desired)
    ensures Finished(Step(s, caseId, a), id)
    ensures Reconciled(Step(s, caseId, a).rows, caseId, PhaseOf(s, id).desired) <==> !Undercuts(s, caseId, id, a)
  {
    FinishedExactly(s, caseId, id);
    StepOneOpen(s, caseId, a);
    FinishedExactly(Step(s, caseId, a), caseId, id);
    if a.id == id {
      OwnStepKeeps(s, caseId, a);
    } else {
      UndercutExactly(s, caseId, id, a);
    }
  }

  lemma RunAppend(s: State, caseId: nat, actions: seq<Action>, a: Action)
    ensures Run(s, caseId, actions + [a]) == Step(Run(s, caseId, actions), caseId, a)
  {
    assert (actions + [a])[..|actions|] == actions;
  }

  /** If the data change between two overlapping reviews, the later review can
      finish and leave the finding of the earlier one open: its own insert was
      answered with the conflict it ignores. */
  lemma OverlapLosesUpdate(caseId: nat, key: Text, older: Text, newer: Text) returns (actions: seq<Action>)
    requires older != newer
    ensures var s := Run(State([], map[]), caseId, actions);
      && Finished(s, 1) && Finished(s, 2)
      && Reconciled(s.rows, caseId, map[key := older]) && !Reconciled(s.rows, caseId, map[key := newer])
    ensures |actions| == 4 && actions[0] == Start(1, map[key := older]) && actions[1] == Start(2, map[key := newer])
  {
    var s0 := State([], map[]);
    var first, second := Start(1, map[key := older]), Start(2, map[key := newer]);
    actions := [] + [first] + [second] + [InsertOne(1, key)] + [InsertOne(2, key)];
    RunAppend(s0, caseId, [], first);
    RunAppend(s0, caseId, [] + [first], second);
    RunAppend(s0, caseId, [] + [first] + [second], InsertOne(1, key));
    RunAppend(s0, caseId, [] + [first] + [second] + [InsertOne(1, key)], InsertOne(2, key));
    var none: seq<Row> := [];
    assert StaleRows(none, caseId, map[key := older]) == {} && StaleRows(none, caseId, map[key := newer]) == {};
    assert MissingKeys(none, caseId, map[key := older]) == {key} && MissingKeys(none, caseId, map[key := newer]) == {key};
    var s2 := State(none, map[1 := Working(map[key := older], {}, {key})][2 := Working(map[key := newer], {}, {key})]);
    assert Run(s0, caseId, [] + [first] + [second]) == s2;
    var row := Row(caseId, Deterministic, Open, Some(key), Some(older));
    assert !Covered(none, caseId, key);
    var s3 := Step(s2, caseId, InsertOne(1, key));
    assert s3.rows == [row];
    assert StandsFor([row], caseId, 0, key);
    assert Covered([row], caseId, key);
    var s4 := Step(s3, caseId, InsertOne(2, key));
    assert s4.rows == [row];
    assert !Wanted(row, map[key := newer]);
  }
}
