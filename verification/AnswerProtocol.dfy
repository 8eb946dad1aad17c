/** Several writers on the answers of one form (src/server.js:517-522, 1281,
    1292, 1305-1307).

  A synchronisation, an accepted suggestion or a confirmed document reads the
  answers once and then stores path after path, each store conditional on the
  revision read. A staff edit is shown the answers on a screen; its request reads
  the path again, is refused if the revision is not the one shown, and then
  stores conditionally on that revision. Answers are never deleted. The
  statements of any number of writers are interleaved in any way. */
module AnswerProtocol {
  import opened FormSuggestions
  import opened FormSync
  import opened Json
  import opened Options

  datatype Phase =
    | Idle
    | Shown(shown: map<Text, Answer>)
    | Checked(shown: map<Text, Answer>, path: Text, existing: Option<Answer>)
    | Refused
    | Saved

  /** A write that was accepted, with the answer its writer had been shown. */
  datatype Write = Accepted(id: nat, path: Text, over: Option<Answer>, answer: Answer)

  datatype State = State(answers: map<Text, Answer>, writers: map<nat, Phase>, log: seq<Write>)

  datatype Action =
    | Look(id: nat)
    | Store(id: nat, path: Text, answer: Answer)
    | Check(id: nat, path: Text)
    | Save(id: nat, answer: Answer)

  function AnswerAt(answers: map<Text, Answer>, path: Text): Option<Answer> {
    if path in answers then Some(answers[path]) else None
  }

  function PhaseOf(s: State, id: nat): Phase {
    if id in s.writers then s.writers[id] else Idle
  }

  function Enter(s: State, id: nat, phase: Phase): State {
    s.(writers := s.writers[id := phase])
  }

  function NextRevision(read: Option<Answer>): nat {
    if read.Some? then read.value.revision + 1 else 1
  }

  function TryWrite(s: State, id: nat, path: Text, read: Option<Answer>, answer: Answer, next: Phase): State
    requires PhaseOf(s, id).Shown? || PhaseOf(s, id).Checked?
  {
    if Accepts(s.answers, path, read) then
      var stored := answer.(revision := NextRevision(read));
      State(s.answers[path := stored], s.writers[id := next],
            s.log + [Accepted(id, path, AnswerAt(PhaseOf(s, id).shown, path), stored)])
    else Enter(s, id, Refused)
  }

  function Step(s: State, a: Action): State {
    var phase := PhaseOf(s, a.id);
    match a
    case Look(id) => if phase.Idle? then Enter(s, id, Shown(s.answers)) else s
    case Store(id, path, answer) =>
      if phase.Shown? then TryWrite(s, id, path, AnswerAt(phase.shown, path), answer, phase) else s
    case Check(id, path) =>
      if !phase.Shown? then s
      else if path in s.answers && s.answers[path].revision != RevisionAt(phase.shown, path) then Enter(s, id, Refused)
      else Enter(s, id, Checked(phase.shown, path, AnswerAt(s.answers, path)))
    case Save(id, answer) =>
      if phase.Checked? then TryWrite(s, id, phase.path, phase.existing, answer, Saved) else s
  }

  function Run(s: State, actions: seq<Action>): State {
    if actions == [] then s else Step(Run(s, actions[..|actions| - 1]), actions[|actions| - 1])
  }

  function Before(s: State, actions: seq<Action>, k: nat): State
    requires k <= |actions|
  {
    Run(s, actions[..k])
  }

  lemma BeforeNext(s: State, actions: seq<Action>, k: nat)
    requires k < |actions|
    ensures Before(s, actions, k + 1) == Step(Before(s, actions, k), actions[k])
  {
    assert actions[..k + 1][..k] == actions[..k];
  }

  function Begin(answers: map<Text, Answer>): State {
    State(answers, map[], [])
  }

  /** Stored answers have positive revisions (the first is 1). */
  ghost predicate Counted(answers: map<Text, Answer>) {
    forall path | path in answers :: answers[path].revision > 0
  }

  // ------------------------------------------------------------------
  // A revision stands for one answer
  // ------------------------------------------------------------------

  /** What was seen of the answers is still there or has a later revision. */
  ghost predicate Seen(shown: map<Text, Answer>, answers: map<Text, Answer>) {
    forall path | path in shown ::
      && path in answers && shown[path].revision <= answers[path].revision
      && (shown[path].revision == answers[path].revision ==> shown[path] == answers[path])
  }

  ghost predicate PhaseInv(phase: Phase, answers: map<Text, Answer>) {
    && (phase.Shown? || phase.Checked? ==> Seen(phase.shown, answers))
    && (phase.Checked? ==> phase.existing == AnswerAt(phase.shown, phase.path))
  }

  ghost predicate Inv(s: State) {
    && Counted(s.answers)
    && forall id | id in s.writers :: PhaseInv(s.writers[id], s.answers)
  }

  /** A write is attempted on this path, by a writer shown this answer. */
  predicate Attempts(s: State, a: Action) {
    || (a.Store? && PhaseOf(s, a.id).Shown?)
    || (a.Save? && PhaseOf(s, a.id).Checked?)
  }

  function Target(s: State, a: Action): Text
    requires Attempts(s, a)
  {
    if a.Store? then a.path else PhaseOf(s, a.id).path
  }

  function ShownAt(s: State, a: Action): Option<Answer>
    requires Attempts(s, a)
  {
    AnswerAt(PhaseOf(s, a.id).shown, Target(s, a))
  }

  /** A write is accepted if and only if the answer, all of it, is the one its
      writer was shown; it then raises the revision by one and is logged. */
  lemma AcceptedIfUnchanged(s: State, a: Action)
    requires Inv(s) && Attempts(s, a)
    ensures var path, t := Target(s, a), Step(s, a);
      var over := AnswerAt(s.answers, path);
      if over == ShownAt(s, a) then
        && t.answers == s.answers[path := a.answer.(revision := NextRevision(over))]
        && t.log == s.log + [Accepted(a.id, path, over, t.answers[path])]
      else
        && t.answers == s.answers && t.log == s.log && PhaseOf(t, a.id) == Refused
  {
    var phase := PhaseOf(s, a.id);
    assert PhaseInv(phase, s.answers);
  }

  /** The request of a staff edit goes on exactly while the answer is the one on
      the screen. */
  lemma CheckedIfUnchanged(s: State, id: nat, path: Text)
    requires Inv(s) && PhaseOf(s, id).Shown?
    ensures var shown, phase := PhaseOf(s, id).shown, PhaseOf(Step(s, Check(id, path)), id);
      phase ==
        if AnswerAt(s.answers, path) == AnswerAt(shown, path) then Checked(shown, path, AnswerAt(shown, path))
        else Refused
    ensures Step(s, Check(id, path)).answers == s.answers && Step(s, Check(id, path)).log == s.log
  {
    assert PhaseInv(PhaseOf(s, id), s.answers);
  }

  lemma NothingWritten(s: State, a: Action)
    requires !Attempts(s, a)
    ensures Step(s, a).answers == s.answers && Step(s, a).log == s.log
  {
  }

  lemma SeenLater(shown: map<Text, Answer>, answers: map<Text, Answer>, path: Text, answer: Answer)
    requires Seen(shown, answers)
    requires answer.revision == RevisionAt(answers, path) + 1
    ensures Seen(shown, answers[path := answer])
  {
  }

  lemma StepInv(s: State, a: Action)
    requires Inv(s)
    ensures Inv(Step(s, a))
  {
    var t := Step(s, a);
    if Attempts(s, a) {
      AcceptedIfUnchanged(s, a);
      var path := Target(s, a);
      forall id | id in t.writers ensures PhaseInv(t.writers[id], t.answers) {
        if id in s.writers {
          assert PhaseInv(s.writers[id], s.answers);
          assert t.writers[id] == s.writers[id] || t.writers[id].Refused? || t.writers[id].Saved?;
          if t.answers != s.answers && (s.writers[id].Shown? || s.writers[id].Checked?) {
            SeenLater(s.writers[id].shown, s.answers, path, t.answers[path]);
          }
        }
      }
    }
  }

  lemma {:induction false} RunInv(s: State, actions: seq<Action>)
    requires Inv(s)
    ensures Inv(Run(s, actions))
  {
    if actions != [] {
      RunInv(s, actions[..|actions| - 1]);
      StepInv(Run(s, actions[..|actions| - 1]), actions[|actions| - 1]);
    }
  }

  // ------------------------------------------------------------------
  // No update is lost
  // ------------------------------------------------------------------

  /** The answer the log says a path has. */
  function Latest(start: map<Text, Answer>, log: seq<Write>, path: Text): Option<Answer> {
    if log == [] then AnswerAt(start, path)
    else
      var last := log[|log| - 1];
      if last.path == path then Some(last.answer) else Latest(start, log[..|log| - 1], path)
  }

  function Writes(log: seq<Write>, path: Text): nat {
    if log == [] then 0 else Writes(log[..|log| - 1], path) + (if log[|log| - 1].path == path then 1 else 0)
  }

  /** Every write replaced the write before it, which its writer had been shown. */
  ghost predicate Linear(start: map<Text, Answer>, log: seq<Write>) {
    forall k | 0 <= k < |log| :: Follows(start, log, k)
  }

  ghost predicate Follows(start: map<Text, Answer>, log: seq<Write>, k: nat)
    requires k < |log|
  {
    && log[k].over == Latest(start, log[..k], log[k].path)
    && log[k].answer.revision == NextRevision(log[k].over)
  }

  ghost predicate Told(start: map<Text, Answer>, s: State, path: Text) {
    && AnswerAt(s.answers, path) == Latest(start, s.log, path)
    && RevisionAt(s.answers, path) == RevisionAt(start, path) + Writes(s.log, path)
  }

  lemma LinearSnoc(start: map<Text, Answer>, log: seq<Write>, e: Write)
    requires Linear(start, log)
    requires e.over == Latest(start, log, e.path) && e.answer.revision == NextRevision(e.over)
    ensures Linear(start, log + [e])
  {
    var longer := log + [e];
    forall k | 0 <= k < |longer| ensures Follows(start, longer, k) {
      if k < |log| {
        assert Follows(start, log, k) && longer[..k] == log[..k];
      } else {
        assert longer[..k] == log;
      }
    }
  }

  /** However the writers interleave: each accepted write overwrites exactly the
      answer its writer had been shown, which is the write accepted before it; a
      path has the answer accepted last, and its revision counts the writes. */
  lemma {:induction false} NoLostUpdate(start: map<Text, Answer>, actions: seq<Action>)
    requires Counted(start)
    ensures var s := Run(Begin(start), actions);
      Linear(start, s.log) && forall path :: Told(start, s, path)
  {
    if actions != [] {
      var init, a := actions[..|actions| - 1], actions[|actions| - 1];
      NoLostUpdate(start, init);
      RunInv(Begin(start), init);
      var s := Run(Begin(start), init);
      var t := Step(s, a);
      assert Run(Begin(start), actions) == t;
      if Attempts(s, a) && AnswerAt(s.answers, Target(s, a)) == ShownAt(s, a) {
        AcceptedIfUnchanged(s, a);
        WriteTold(start, s, t, a);
      } else {
        if Attempts(s, a) { AcceptedIfUnchanged(s, a); } else { NothingWritten(s, a); }
        SameTold(start, s, t);
      }
    }
  }

  lemma SameTold(start: map<Text, Answer>, s: State, t: State)
    requires t.answers == s.answers && t.log == s.log && forall path :: Told(start, s, path)
    ensures forall path :: Told(start, t, path)
  {
    forall path ensures Told(start, t, path) {
      assert Told(start, s, path);
    }
  }

  lemma WriteTold(start: map<Text, Answer>, s: State, t: State, a: Action)
    requires Linear(start, s.log) && forall path :: Told(start, s, path)
    requires Attempts(s, a) && t == Step(s, a)
    requires var path := Target(s, a);
      && path in t.answers
      && t.answers == s.answers[path := t.answers[path]]
      && t.answers[path].revision == NextRevision(AnswerAt(s.answers, path))
      && t.log == s.log + [Accepted(a.id, path, AnswerAt(s.answers, path), t.answers[path])]
    ensures Linear(start, t.log) && forall path :: Told(start, t, path)
  {
    var path, e := Target(s, a), t.log[|s.log|];
    assert Told(start, s, path);
    LinearSnoc(start, s.log, e);
    assert t.log[..|t.log| - 1] == s.log;
    forall other ensures Told(start, t, other) {
      assert Told(start, s, other);
    }
  }

  // ------------------------------------------------------------------
  // When a write is refused
  // ------------------------------------------------------------------

  predicate WriteSucceeds(s: State, a: Action, path: Text) {
    Attempts(s, a) && Target(s, a) == path && Accepts(s.answers, path, ShownAt(s, a))
  }

  lemma StepAt(s: State, a: Action, path: Text)
    requires Inv(s)
    ensures WriteSucceeds(s, a, path) ==> RevisionAt(Step(s, a).answers, path) == RevisionAt(s.answers, path) + 1
    ensures !WriteSucceeds(s, a, path) ==> AnswerAt(Step(s, a).answers, path) == AnswerAt(s.answers, path)
  {
    if Attempts(s, a) { AcceptedIfUnchanged(s, a); } else { NothingWritten(s, a); }
  }

  ghost predicate WrittenBetween(s: State, actions: seq<Action>, path: Text, i: nat, j: nat)
    requires j <= |actions|
  {
    exists k | i <= k < j :: WriteSucceeds(Before(s, actions, k), actions[k], path)
  }

  lemma WrittenSnoc(s: State, actions: seq<Action>, path: Text, i: nat, j: nat)
    requires i <= j < |actions|
    ensures WrittenBetween(s, actions, path, i, j + 1)
      <==> WrittenBetween(s, actions, path, i, j) || WriteSucceeds(Before(s, actions, j), actions[j], path)
  {
    hide Run, WriteSucceeds;
  }

  lemma NotYetWritten(s: State, actions: seq<Action>, path: Text, i: nat)
    requires i <= |actions|
    ensures !WrittenBetween(s, actions, path, i, i)
  {
    hide Run, WriteSucceeds;
  }

  /** A path has the answer it had, or a later revision, as it was not or was
      written meanwhile. */
  lemma {:induction false} ChangedIfWritten(s: State, actions: seq<Action>, path: Text, i: nat, j: nat)
    requires Inv(s) && i <= j <= |actions|
    ensures var before, after := Before(s, actions, i).answers, Before(s, actions, j).answers;
      if WrittenBetween(s, actions, path, i, j) then RevisionAt(after, path) > RevisionAt(before, path)
      else AnswerAt(after, path) == AnswerAt(before, path)
    decreases j
  {
    if i < j {
      var before, last := Before(s, actions, i).answers, Before(s, actions, j - 1);
      assert AnswerAt(before, path) == AnswerAt(last.answers, path) ==>
        RevisionAt(before, path) == RevisionAt(last.answers, path);
      assert AnswerAt(Step(last, actions[j - 1]).answers, path) == AnswerAt(last.answers, path) ==>
        RevisionAt(Step(last, actions[j - 1]).answers, path) == RevisionAt(last.answers, path);
      assert last == Run(s, actions[..j - 1]);
      hide *;
      ChangedIfWritten(s, actions, path, i, j - 1);
      RunInv(s, actions[..j - 1]);
      BeforeNext(s, actions, j - 1);
      StepAt(last, actions[j - 1], path);
      WrittenSnoc(s, actions, path, i, j - 1);
    } else {
      NotYetWritten(s, actions, path, i);
      hide *;
    }
  }

  ghost predicate Remembers(phase: Phase, answers: map<Text, Answer>) {
    !phase.Idle? && (phase.Shown? || phase.Checked? ==> phase.shown == answers)
  }

  lemma {:induction false} ShownStays(s: State, actions: seq<Action>, id: nat, i: nat, j: nat)
    requires i < j <= |actions|
    requires actions[i] == Look(id) && PhaseOf(Before(s, actions, i), id).Idle?
    ensures Remembers(PhaseOf(Before(s, actions, j), id), Before(s, actions, i).answers)
    decreases j
  {
    BeforeNext(s, actions, j - 1);
    if i < j - 1 {
      ShownStays(s, actions, id, i, j - 1);
    }
  }

  /** A write is refused if and only if another write of the path was accepted
      after its writer had looked. */
  lemma RefusedExactly(start: map<Text, Answer>, actions: seq<Action>, i: nat, j: nat)
    requires Counted(start) && i < j < |actions|
    requires actions[i] == Look(actions[j].id) && PhaseOf(Before(Begin(start), actions, i), actions[j].id).Idle?
    requires Attempts(Before(Begin(start), actions, j), actions[j])
    ensures var s := Before(Begin(start), actions, j);
      WriteSucceeds(s, actions[j], Target(s, actions[j]))
      <==> !WrittenBetween(Begin(start), actions, Target(s, actions[j]), i, j)
  {
    var s, a := Before(Begin(start), actions, j), actions[j];
    RunInv(Begin(start), actions[..j]);
    ShownStays(Begin(start), actions, a.id, i, j);
    ChangedIfWritten(Begin(start), actions, Target(s, a), i, j);
    AcceptedIfUnchanged(s, a);
  }

  // ------------------------------------------------------------------
  // A synchronisation nobody interferes with
  // ------------------------------------------------------------------

  /** The stores of a synchronisation, in order. */
  function Stores(id: nat, read: map<Text, Answer>, ss: seq<Suggestion>, who: nat): seq<Action> {
    if ss == [] then []
    else
      var last := ss[|ss| - 1];
      Stores(id, read, ss[..|ss| - 1], who)
      + (if Changing(read, last) then [Store(id, last.path, Filled(read, last, who))] else [])
  }

  lemma RunSnoc(s: State, actions: seq<Action>, a: Action)
    ensures Run(s, actions + [a]) == Step(Run(s, actions), a)
  {
    assert (actions + [a])[..|actions|] == actions;
  }

  /** What is gone through before the first conflict. */
  ghost function Safe(read: map<Text, Answer>, ss: seq<Suggestion>): seq<Suggestion> {
    ss[..SafeLength(read, ss)]
  }

  lemma SafeWhole(read: map<Text, Answer>, ss: seq<Suggestion>)
    requires Distinct(Changes(read, ss))
    ensures Safe(read, ss) == ss
  {
    SafeThroughout(read, ss);
  }

  lemma SafeSnoc(read: map<Text, Answer>, ss: seq<Suggestion>, s: Suggestion)
    ensures Safe(read, ss + [s]) == if Distinct(Changes(read, ss + [s])) then ss + [s] else Safe(read, ss)
    ensures Distinct(Changes(read, ss + [s])) <==>
      Distinct(Changes(read, ss)) && !(Changing(read, s) && s.path in Changes(read, ss))
  {
    var longer := ss + [s];
    assert longer[..|ss|] == ss && longer[|ss|] == s;
    SafeThroughout(read, ss);
    SafeThroughout(read, longer);
    if Changing(read, s) {
      DistinctSnoc(Changes(read, ss), s.path);
    }
  }

  /** One store more, by a synchronisation that found nobody in its way. */
  lemma StoreOneMore(t: State, id: nat, read: map<Text, Answer>, ss: seq<Suggestion>, s: Suggestion, who: nat)
    requires Changing(read, s) && t.answers == Stored(read, ss, who) && PhaseOf(t, id) == Shown(read)
    ensures var t' := Step(t, Store(id, s.path, Filled(read, s, who)));
      if s.path in Changes(read, ss) then t'.answers == t.answers && PhaseOf(t', id) == Refused
      else t'.answers == Stored(read, ss + [s], who) && PhaseOf(t', id) == Shown(read)
  {
    StoredAt(read, ss, who, s.path);
    ChangesSnoc(read, ss, s, who);
    hide Stored, Changes, Changing;
  }

  /** Its stores leave the answers the synchronisation on its own does, up to the
      first conflict. */
  lemma {:induction false} Undisturbed(s: State, id: nat, ss: seq<Suggestion>, who: nat)
    requires PhaseOf(s, id) == Shown(s.answers)
    ensures var read := s.answers;
      var t := Run(s, Stores(id, read, ss, who));
      && t.answers == Stored(read, Safe(read, ss), who)
      && PhaseOf(t, id) == if Distinct(Changes(read, ss)) then Shown(read) else Refused
  {
    var read := s.answers;
    if ss != [] {
      var init, last := ss[..|ss| - 1], ss[|ss| - 1];
      var stores := Stores(id, read, init, who);
      var t, store := Run(s, stores), Store(id, last.path, Filled(read, last, who));
      assert Stores(id, read, ss, who) == if Changing(read, last) then stores + [store] else stores;
      assert ss == init + [last];
      assert PhaseOf(t, id) == Refused ==> Step(t, store) == t;
      hide *;
      Undisturbed(s, id, init, who);
      SafeSnoc(read, init, last);
      ChangesSnoc(read, init, last, who);
      if Changing(read, last) {
        RunSnoc(s, stores, store);
        if Distinct(Changes(read, init)) {
          SafeWhole(read, init);
          StoreOneMore(t, id, read, init, last, who);
        }
      } else if Distinct(Changes(read, init)) {
        SafeWhole(read, init);
      }
    }
  }
}
