/** Synchronisation of one form with the verified canonical facts of its subject
    (src/server.js:517-530). */
module FormSync {
  import opened FormSuggestions
  import opened Json
  import opened Options

  /** Of a form and of an artifact generated from it. */
  datatype ReviewState = Draft | ReviewRequired | Reviewed | Final

  predicate Eligible(s: Suggestion) { s.errors == [] }

  predicate UpToDate(answers: map<Text, Answer>, s: Suggestion) {
    s.path in answers && answers[s.path].factId == Some(s.factId) && answers[s.path].value == s.value
  }

  /** Does a suggestion change the stored answer it finds? */
  predicate Changing(answers: map<Text, Answer>, s: Suggestion) {
    Eligible(s) && !UpToDate(answers, s)
  }

  function RevisionAt(answers: map<Text, Answer>, path: Text): nat {
    if path in answers then answers[path].revision else 0
  }

  /** Does the row still have the revision read, or is the path still free? */
  predicate Accepts(answers: map<Text, Answer>, path: Text, read: Option<Answer>) {
    if read.Some? then path in answers && answers[path].revision == read.value.revision else path !in answers
  }

  function Filled(answers: map<Text, Answer>, s: Suggestion, who: nat): Answer {
    Answer(s.value, Some(s.canonicalPath), Some(s.factId), true, RevisionAt(answers, s.path) + 1, Some(who))
  }

  /** The paths that change, judged by the answers read before the first write. */
  function Changes(read: map<Text, Answer>, ss: seq<Suggestion>): seq<Text> {
    if ss == [] then []
    else
      var last := ss[|ss| - 1];
      Changes(read, ss[..|ss| - 1]) + (if Changing(read, last) then [last.path] else [])
  }

  function Stored(read: map<Text, Answer>, ss: seq<Suggestion>, who: nat): map<Text, Answer> {
    if ss == [] then read
    else
      var last := ss[|ss| - 1];
      var before := Stored(read, ss[..|ss| - 1], who);
      if Changing(read, last) then before[last.path := Filled(read, last, who)] else before
  }

  ghost predicate Distinct(paths: seq<Text>) {
    forall i, j | 0 <= i < j < |paths| :: paths[i] != paths[j]
  }

  ghost predicate UniquePaths(fields: seq<Field>) {
    forall i, j | 0 <= i < j < |fields| :: fields[i].path != fields[j].path
  }

  /** The artifacts of a changed form that are not final want review again. */
  function Flagged(artifacts: seq<ReviewState>): (r: seq<ReviewState>)
    ensures |r| == |artifacts|
    ensures forall i | 0 <= i < |r| :: r[i] == if artifacts[i] == Final then Final else ReviewRequired
  {
    seq(|artifacts|, i requires 0 <= i < |artifacts| => if artifacts[i] == Final then Final else ReviewRequired)
  }

  /** How many suggestions are gone through before one changes a path again. */
  ghost function SafeLength(read: map<Text, Answer>, ss: seq<Suggestion>): (n: nat)
    ensures n <= |ss|
  {
    if ss == [] then 0
    else
      var n := SafeLength(read, ss[..|ss| - 1]);
      if n == |ss| - 1 && Distinct(Changes(read, ss)) then |ss| else n
  }

  datatype FormState = FormState(
    status: ReviewState,
    answers: map<Text, Answer>,
    artifacts: seq<ReviewState>,
    changeFinding: bool)

  function ChangedPaths(answers: map<Text, Answer>, fields: seq<Field>, facts: seq<Fact>): seq<Text> {
    Changes(answers, Suggestions(fields, facts, answers))
  }

  ghost predicate Conflicts(answers: map<Text, Answer>, fields: seq<Field>, facts: seq<Fact>) {
    !Distinct(ChangedPaths(answers, fields, facts))
  }

  /** A form after a synchronisation without conflict. */
  function AfterSync(form: FormState, fields: seq<Field>, facts: seq<Fact>, who: nat): FormState {
    var ss := Suggestions(fields, facts, form.answers);
    var stored := form.(answers := Stored(form.answers, ss, who));
    if Changes(form.answers, ss) == [] then stored
    else if form.status == Final then stored.(artifacts := Flagged(form.artifacts), changeFinding := true)
    else stored.(artifacts := Flagged(form.artifacts), status := Draft)
  }

  /** A form after a synchronisation that conflicted: what was stored before the
      conflict stays, and nothing but answers is touched. */
  ghost function AfterConflict(form: FormState, fields: seq<Field>, facts: seq<Fact>, who: nat): FormState {
    var ss := Suggestions(fields, facts, form.answers);
    form.(answers := Stored(form.answers, ss[..SafeLength(form.answers, ss)], who))
  }

  class FormInstance {
    var status: ReviewState
    var answers: map<Text, Answer>
    var artifacts: seq<ReviewState>
    /** Is the finding about a change after finalisation open? */
    var changeFinding: bool

    ghost function State(): FormState
      reads this
    {
      FormState(status, answers, artifacts, changeFinding)
    }

    constructor (status: ReviewState, answers: map<Text, Answer>, artifacts: seq<ReviewState>, changeFinding: bool)
      ensures this.status == status && this.answers == answers
      ensures this.artifacts == artifacts && this.changeFinding == changeFinding
    {
      this.status, this.answers, this.artifacts, this.changeFinding := status, answers, artifacts, changeFinding;
    }

    /** Store one answer: an UPDATE conditional on the revision read, or an
        INSERT that the unique path can refuse. */
    method StoreAnswer(path: Text, read: Option<Answer>, answer: Answer) returns (stored: bool)
      modifies this`answers
      ensures stored <==> Accepts(old(answers), path, read)
      ensures answers == if stored then old(answers)[path := answer] else old(answers)
    {
      stored := if read.Some? then path in answers && answers[path].revision == read.value.revision else path !in answers;
      if stored { answers := answers[path := answer]; }
    }

    /** The loop over the suggestions. The answers they are compared with were
        read once, before the first write. */
    method StoreAll(suggestions: seq<Suggestion>, who: nat) returns (changed: seq<Text>, conflict: bool)
      modifies this`answers
      ensures conflict <==> !Distinct(Changes(old(answers), suggestions))
      ensures !conflict ==> changed == Changes(old(answers), suggestions)
      ensures !conflict ==> answers == Stored(old(answers), suggestions, who)
      ensures answers == Stored(old(answers), suggestions[..SafeLength(old(answers), suggestions)], who)
    {
      var read := answers;
      changed, conflict := [], false;
      for i := 0 to |suggestions|
        invariant changed == Changes(read, suggestions[..i]) && Distinct(changed)
        invariant answers == Stored(read, suggestions[..i], who)
      {
        var s := suggestions[i];
        assert suggestions[..i + 1][..i] == suggestions[..i];
        StoredAt(read, suggestions[..i], who, s.path);
        DistinctSnoc(changed, s.path);
        if Changing(read, s) {
          var existing := if s.path in read then Some(read[s.path]) else None;
          var stored := StoreAnswer(s.path, existing, Filled(read, s, who));
          if !stored {
            ChangesPrefix(read, suggestions, i + 1);
            SafeUntil(read, suggestions, i);
            conflict := true;
            return;
          }
          changed := changed + [s.path];
        }
      }
      assert suggestions[..|suggestions|] == suggestions;
      SafeThroughout(read, suggestions);
    }

    /** Synchronise the form. A conflict leaves what was stored before it and
        touches nothing but answers. */
    method Synchronize(fields: seq<Field>, facts: seq<Fact>, who: nat) returns (changed: seq<Text>, conflict: bool)
      modifies this
      ensures var ss := Suggestions(fields, facts, old(answers));
        && (conflict <==> !Distinct(Changes(old(answers), ss)))
        && (!conflict ==> changed == Changes(old(answers), ss) && answers == Stored(old(answers), ss, who))
      ensures conflict || changed == [] ==>
        status == old(status) && artifacts == old(artifacts) && changeFinding == old(changeFinding)
      ensures !conflict && changed != [] ==>
        && status == (if old(status) == Final then Final else Draft)
        && changeFinding == (old(changeFinding) || old(status) == Final)
        && artifacts == Flagged(old(artifacts))
      ensures conflict <==> old(Conflicts(answers, fields, facts))
      ensures !conflict ==> State() == AfterSync(old(State()), fields, facts, who)
      ensures conflict ==> State() == AfterConflict(old(State()), fields, facts, who)
      ensures !conflict ==> changed == old(ChangedPaths(answers, fields, facts))
    {
      var suggestions := BuildCanonicalSuggestions(fields, facts, answers);
      changed, conflict := StoreAll(suggestions, who);
      if conflict || changed == [] { return; }
      if status == Final {
        if !changeFinding { changeFinding := true; }
      } else {
        status := Draft;
      }
      artifacts := Flagged(artifacts);
    }
  }

  /** Every form of a subject, each with the fields of its definition, up to the
      first that conflicts. */
  method SynchronizeForms(forms: seq<FormInstance>, definitions: seq<seq<Field>>, facts: seq<Fact>, who: nat)
    returns (updated: seq<(nat, seq<Text>)>, stopped: nat)
    requires |forms| == |definitions|
    requires forall i, j | 0 <= i < j < |forms| :: forms[i] != forms[j]
    modifies forms
    ensures stopped <= |forms|
    ensures forall i | 0 <= i < stopped ::
      && !old(Conflicts(forms[i].answers, definitions[i], facts))
      && forms[i].State() == AfterSync(old(forms[i].State()), definitions[i], facts, who)
    ensures stopped < |forms| ==>
      && old(Conflicts(forms[stopped].answers, definitions[stopped], facts))
      && forms[stopped].State() == AfterConflict(old(forms[stopped].State()), definitions[stopped], facts, who)
    ensures forall i | stopped < i < |forms| :: forms[i].State() == old(forms[i].State())
    ensures forall i: nat, paths: seq<Text> :: (i, paths) in updated <==>
      i < stopped && paths != [] && paths == old(ChangedPaths(forms[i].answers, definitions[i], facts))
  {
    hide *;
    updated, stopped := [], 0;
    while stopped < |forms|
      invariant stopped <= |forms|
      invariant forall i | 0 <= i < stopped ::
        && !old(Conflicts(forms[i].answers, definitions[i], facts))
        && forms[i].State() == AfterSync(old(forms[i].State()), definitions[i], facts, who)
      invariant forall i | stopped <= i < |forms| :: forms[i].State() == old(forms[i].State())
      invariant forall i | stopped <= i < |forms| :: forms[i].answers == old(forms[i].answers)
      invariant forall i: nat, paths: seq<Text> :: (i, paths) in updated <==>
        i < stopped && paths != [] && paths == old(ChangedPaths(forms[i].answers, definitions[i], facts))
    {
      var changed, conflict := forms[stopped].Synchronize(definitions[stopped], facts, who);
      if conflict { return; }
      if changed != [] { updated := updated + [(stopped, changed)]; }
      stopped := stopped + 1;
    }
  }

  /** What a synchronisation does besides storing answers: where no path changes,
      nothing; else no artifact but a final one still counts as reviewed, a final
      form stays final with the finding raised, and any other is a draft again. */
  lemma ChangeFollows(form: FormState, fields: seq<Field>, facts: seq<Fact>, who: nat)
    ensures var after := AfterSync(form, fields, facts, who);
      && |after.artifacts| == |form.artifacts|
      && (ChangedPaths(form.answers, fields, facts) == [] ==> after == form)
      && (ChangedPaths(form.answers, fields, facts) != [] ==>
            && (forall i | 0 <= i < |form.artifacts| ::
                  && after.artifacts[i] in {Final, ReviewRequired}
                  && (after.artifacts[i] == Final <==> form.artifacts[i] == Final))
            && after.status in {Final, Draft} && (after.status == Final <==> form.status == Final)
            && (after.changeFinding <==> form.changeFinding || form.status == Final))
  {
    if ChangedPaths(form.answers, fields, facts) == [] {
      NoChangeNoWrite(form.answers, Suggestions(fields, facts, form.answers), who);
    }
  }

  lemma DistinctSnoc(paths: seq<Text>, path: Text)
    ensures Distinct(paths + [path]) <==> Distinct(paths) && path !in paths
  {
    var longer := paths + [path];
    assert longer[|paths|] == path;
    assert forall i | 0 <= i < |paths| :: longer[i] == paths[i];
  }

  lemma ChangesSnoc(read: map<Text, Answer>, ss: seq<Suggestion>, s: Suggestion, who: nat)
    ensures Changes(read, ss + [s]) == Changes(read, ss) + (if Changing(read, s) then [s.path] else [])
    ensures Stored(read, ss + [s], who) ==
      if Changing(read, s) then Stored(read, ss, who)[s.path := Filled(read, s, who)] else Stored(read, ss, who)
  {
    assert (ss + [s])[..|ss|] == ss;
  }

  lemma {:induction false} ChangesPrefix(read: map<Text, Answer>, ss: seq<Suggestion>, n: nat)
    requires n <= |ss|
    ensures Changes(read, ss[..n]) <= Changes(read, ss)
    ensures !Distinct(Changes(read, ss[..n])) ==> !Distinct(Changes(read, ss))
  {
    if n < |ss| {
      var init := ss[..|ss| - 1];
      ChangesPrefix(read, init, n);
      assert init[..n] == ss[..n];
    } else {
      assert ss[..n] == ss;
    }
  }

  lemma {:induction false} SafeThroughout(read: map<Text, Answer>, ss: seq<Suggestion>)
    ensures SafeLength(read, ss) == |ss| <==> Distinct(Changes(read, ss))
  {
    if ss != [] {
      SafeThroughout(read, ss[..|ss| - 1]);
      ChangesPrefix(read, ss, |ss| - 1);
    }
  }

  /** The suggestion that conflicts is the first to change a path again. */
  lemma {:induction false} SafeUntil(read: map<Text, Answer>, ss: seq<Suggestion>, n: nat)
    requires n < |ss| && Distinct(Changes(read, ss[..n])) && !Distinct(Changes(read, ss[..n + 1]))
    ensures SafeLength(read, ss) == n
  {
    var init := ss[..|ss| - 1];
    if n < |ss| - 1 {
      assert init[..n] == ss[..n] && init[..n + 1] == ss[..n + 1];
      SafeUntil(read, init, n);
    } else {
      assert ss[..n + 1] == ss;
      SafeThroughout(read, init);
    }
  }

  /** What one path holds after some suggestions: a change at most, raising the
      revision by exactly one where there was an answer. */
  lemma {:induction false} StoredAt(read: map<Text, Answer>, ss: seq<Suggestion>, who: nat, path: Text)
    ensures path !in Changes(read, ss) ==>
      var after := Stored(read, ss, who);
      (path in after <==> path in read) && (path in read ==> after[path] == read[path])
    ensures path in Changes(read, ss) ==>
      path in Stored(read, ss, who) && Stored(read, ss, who)[path].revision == RevisionAt(read, path) + 1
  {
    if ss != [] {
      StoredAt(read, ss[..|ss| - 1], who, path);
    }
  }

  /** With no path changed twice, every changing suggestion is what its path
      holds in the end: the fact, its provenance and the next revision. */
  lemma {:induction false} StoredFilled(read: map<Text, Answer>, ss: seq<Suggestion>, who: nat, s: Suggestion)
    requires Distinct(Changes(read, ss))
    requires s in ss && Changing(read, s)
    ensures s.path in Changes(read, ss)
    ensures s.path in Stored(read, ss, who) && Stored(read, ss, who)[s.path] == Filled(read, s, who)
  {
    var init, last := ss[..|ss| - 1], ss[|ss| - 1];
    ChangesPrefix(read, ss, |ss| - 1);
    assert Distinct(Changes(read, init));
    if s in init {
      StoredFilled(read, init, who, s);
      DistinctSnoc(Changes(read, init), last.path);
    }
  }

  lemma {:induction false} ChangesCome(read: map<Text, Answer>, ss: seq<Suggestion>, path: Text) returns (s: Suggestion)
    requires path in Changes(read, ss)
    ensures s in ss && Changing(read, s) && s.path == path
  {
    var last := ss[|ss| - 1];
    if Changing(read, last) && last.path == path {
      s := last;
    } else {
      s := ChangesCome(read, ss[..|ss| - 1], path);
    }
  }

  /** The exact answers after a synchronisation without conflict. */
  lemma SyncExactly(read: map<Text, Answer>, ss: seq<Suggestion>, who: nat, path: Text)
    requires Distinct(Changes(read, ss))
    ensures var after := Stored(read, ss, who);
      && (forall s | s in ss && Changing(read, s) && s.path == path ::
            path in after && after[path] == Filled(read, s, who))
      && ((forall s | s in ss && Changing(read, s) :: s.path != path) ==>
            (path in after <==> path in read) && (path in read ==> after[path] == read[path]))
  {
    forall s | s in ss && Changing(read, s) && s.path == path
      ensures path in Stored(read, ss, who) && Stored(read, ss, who)[path] == Filled(read, s, who)
    {
      StoredFilled(read, ss, who, s);
    }
    if path in Changes(read, ss) {
      var s := ChangesCome(read, ss, path);
    } else {
      StoredAt(read, ss, who, path);
    }
  }

  /** Do the eligible suggestions for one path agree on fact and value? */
  ghost predicate Consistent(ss: seq<Suggestion>) {
    forall s, t | s in ss && t in ss && Eligible(s) && Eligible(t) && s.path == t.path ::
      s.factId == t.factId && s.value == t.value
  }

  lemma {:induction false} NothingToChange(answers: map<Text, Answer>, ss: seq<Suggestion>)
    ensures Changes(answers, ss) == [] <==> forall s | s in ss && Eligible(s) :: UpToDate(answers, s)
  {
    if ss != [] {
      NothingToChange(answers, ss[..|ss| - 1]);
      assert ss == ss[..|ss| - 1] + [ss[|ss| - 1]];
    }
  }

  /** A synchronisation leaves nothing for the next one exactly when the
      suggestions for one path agree: otherwise it never settles, whatever the
      answers. */
  lemma SettlesExactly(read: map<Text, Answer>, ss: seq<Suggestion>, who: nat)
    requires Distinct(Changes(read, ss))
    ensures Changes(Stored(read, ss, who), ss) == [] <==> Consistent(ss)
    ensures Changes(Stored(read, ss, who), ss) == [] ==> Stored(Stored(read, ss, who), ss, who) == Stored(read, ss, who)
  {
    var after := Stored(read, ss, who);
    NothingToChange(after, ss);
    if Consistent(ss) {
      forall s | s in ss && Eligible(s) ensures UpToDate(after, s) {
        SyncExactly(read, ss, who, s.path);
        if s.path in Changes(read, ss) {
          var t := ChangesCome(read, ss, s.path);
        } else {
          StoredAt(read, ss, who, s.path);
        }
      }
    }
    if Changes(after, ss) == [] {
      NoChangeNoWrite(after, ss, who);
    }
  }

  lemma {:induction false} NoChangeNoWrite(answers: map<Text, Answer>, ss: seq<Suggestion>, who: nat)
    requires Changes(answers, ss) == []
    ensures Stored(answers, ss, who) == answers
  {
    if ss != [] {
      NoChangeNoWrite(answers, ss[..|ss| - 1], who);
    }
  }

  // ------------------------------------------------------------------
  // Two fields on one path
  // ------------------------------------------------------------------

  /** Two fields with the path "p", filled from the leaves "a" and "b", and a
      current fact for either. */
  function TwoFields(): seq<Field> {
    [Field([112], [97], TextField, None, 0, 0), Field([112], [98], TextField, None, 0, 0)]
  }

  function TwoFacts(): seq<Fact> {
    [Fact(1, [97], String([120]), 1, true), Fact(2, [98], String([121]), 1, true)]
  }

  lemma TwoSuggestions(answers: map<Text, Answer>) returns (first: Suggestion, second: Suggestion)
    ensures Suggestions(TwoFields(), TwoFacts(), answers) == [first, second]
    ensures Eligible(first) && first.path == [112] && first.factId == 1 && first.value == String([120])
    ensures Eligible(second) && second.path == [112] && second.factId == 2 && second.value == String([121])
  {
    var fields, facts := TwoFields(), TwoFacts();
    assert Ranked(facts[1..][1..]) == [];
    assert facts[1..] == [facts[1]] && Ranked(facts[1..]) == [facts[1]];
    assert Ranked(facts) == [facts[0]] + [facts[1]] == facts;
    assert facts[1..][0].fieldPath == [98];
    assert FactFor(fields[0], facts) == Some(facts[0]);
    assert FindFact(facts, [98]) == FindFact(facts[1..], [98]) == Some(facts[1]);
    assert FactFor(fields[1], facts) == Some(facts[1]);
    assert 120 in [120 as Unit] && 121 in [121 as Unit];
    AcceptedExactly(fields[0], facts[0].value);
    AcceptedExactly(fields[1], facts[1].value);
    first, second := SuggestionFor(fields[0], facts, answers).value, SuggestionFor(fields[1], facts, answers).value;
    assert fields[..1] == [fields[0]] && fields[..1][..0] == [];
    assert Suggestions(fields[..1], facts, answers) == [first];
  }

  /** Such a form conflicts when it is empty: the second field meets what the first
      has just stored. */
  lemma PathConflict()
    ensures Conflicts(map[], TwoFields(), TwoFacts())
  {
    var first, second := TwoSuggestions(map[]);
    ChangesSnoc(map[], [], first, 0);
    ChangesSnoc(map[], [first], second, 0);
    assert [] + [first] == [first] && [first] + [second] == [first, second];
    var path: Text := [112];
    assert ChangedPaths(map[], TwoFields(), TwoFacts()) == [path] + [path];
    DistinctSnoc([path], path);
  }

  /** And once it holds the one fact it never settles: the next synchronisation
      stores the other. */
  lemma NeverSettles(who: nat) returns (form: FormState)
    ensures !Conflicts(form.answers, TwoFields(), TwoFacts())
    ensures ChangedPaths(AfterSync(form, TwoFields(), TwoFacts(), who).answers, TwoFields(), TwoFacts()) != []
  {
    var answers: map<Text, Answer> := map[[112] := Answer(String([120]), Some([97]), Some(1), true, 1, Some(who))];
    form := FormState(Draft, answers, [], false);
    var first, second := TwoSuggestions(answers);
    var ss := Suggestions(TwoFields(), TwoFacts(), answers);
    ChangesSnoc(answers, [], first, who);
    ChangesSnoc(answers, [first], second, who);
    assert [] + [first] == [first] && [first] + [second] == ss;
    assert UpToDate(answers, first) && !UpToDate(answers, second);
    assert Changes(answers, ss) == [[112]];
    SettlesExactly(answers, ss, who);
    assert !Consistent(ss) by { assert first in ss && second in ss; }
    var after := AfterSync(form, TwoFields(), TwoFacts(), who).answers;
    ChangesIgnoreMarks(after, TwoFields(), TwoFacts(), answers, after, who);
  }

  // ------------------------------------------------------------------
  // Fields with unique paths
  // ------------------------------------------------------------------

  ghost predicate From(s: Suggestion, fields: seq<Field>, facts: seq<Fact>, answers: map<Text, Answer>, i: int) {
    0 <= i < |fields| && SuggestionFor(fields[i], facts, answers) == Some(s)
  }

  lemma {:induction false} SuggestionsOf(fields: seq<Field>, facts: seq<Fact>, answers: map<Text, Answer>)
    ensures forall s :: s in Suggestions(fields, facts, answers) <==> exists i :: From(s, fields, facts, answers, i)
  {
    if fields != [] {
      var n := |fields| - 1;
      var init := fields[..n];
      SuggestionsOf(init, facts, answers);
      forall s ensures s in Suggestions(fields, facts, answers) <==> exists i :: From(s, fields, facts, answers, i) {
        if s in Suggestions(init, facts, answers) {
          var i :| From(s, init, facts, answers, i);
          assert From(s, fields, facts, answers, i);
        }
        if From(s, fields, facts, answers, n) {
          assert s in Suggestions(fields, facts, answers);
        }
        if i :| From(s, fields, facts, answers, i) && i < n {
          assert From(s, init, facts, answers, i);
        }
      }
    }
  }

  lemma {:induction false} UniqueDistinct(fields: seq<Field>, facts: seq<Fact>, answers: map<Text, Answer>,
          read: map<Text, Answer>)
    requires UniquePaths(fields)
    ensures Distinct(Changes(read, Suggestions(fields, facts, answers)))
  {
    if fields != [] {
      var n := |fields| - 1;
      var init := fields[..n];
      UniqueDistinct(init, facts, answers, read);
      var earlier := Suggestions(init, facts, answers);
      SuggestionsOf(init, facts, answers);
      forall path | path in Changes(read, earlier) ensures path != fields[n].path {
        var s := ChangesCome(read, earlier, path);
        var i :| From(s, init, facts, answers, i);
        assert fields[i].path != fields[n].path;
      }
      if SuggestionFor(fields[n], facts, answers).Some? {
        var s := SuggestionFor(fields[n], facts, answers).value;
        assert Suggestions(fields, facts, answers) == earlier + [s];
        ChangesSnoc(read, earlier, s, 0);
        DistinctSnoc(Changes(read, earlier), s.path);
        assert s.path == fields[n].path;
      } else {
        assert Suggestions(fields, facts, answers) == earlier;
      }
    }
  }

  lemma UniqueConsistent(fields: seq<Field>, facts: seq<Fact>, answers: map<Text, Answer>)
    requires UniquePaths(fields)
    ensures Consistent(Suggestions(fields, facts, answers))
  {
    SuggestionsOf(fields, facts, answers);
    var ss := Suggestions(fields, facts, answers);
    forall s, t | s in ss && t in ss && s.path == t.path ensures s == t {
      var i :| From(s, fields, facts, answers, i);
      var j :| From(t, fields, facts, answers, j);
      assert fields[i].path == fields[j].path;
    }
  }

  /** What changes does not depend on the answers the suggestions were built
      with: those decide only the conflict mark shown to staff. */
  lemma {:induction false} ChangesIgnoreMarks(read: map<Text, Answer>, fields: seq<Field>, facts: seq<Fact>,
          a: map<Text, Answer>, b: map<Text, Answer>, who: nat)
    ensures Changes(read, Suggestions(fields, facts, a)) == Changes(read, Suggestions(fields, facts, b))
    ensures Stored(read, Suggestions(fields, facts, a), who) == Stored(read, Suggestions(fields, facts, b), who)
  {
    if fields != [] {
      var init, field := fields[..|fields| - 1], fields[|fields| - 1];
      ChangesIgnoreMarks(read, init, facts, a, b, who);
      if FactFor(field, facts).Some? {
        var s, t := SuggestionFor(field, facts, a).value, SuggestionFor(field, facts, b).value;
        ChangesSnoc(read, Suggestions(init, facts, a), s, who);
        ChangesSnoc(read, Suggestions(init, facts, b), t, who);
        SameButMark(read, s, t, who);
        SuggestionsSnoc(fields, facts, a);
        SuggestionsSnoc(fields, facts, b);
      }
    }
  }

  lemma SameButMark(read: map<Text, Answer>, s: Suggestion, t: Suggestion, who: nat)
    requires s == t.(conflict := s.conflict)
    ensures Changing(read, s) == Changing(read, t) && Filled(read, s, who) == Filled(read, t, who)
  {
  }

  lemma SuggestionsSnoc(fields: seq<Field>, facts: seq<Fact>, answers: map<Text, Answer>)
    requires fields != [] && FactFor(fields[|fields| - 1], facts).Some?
    ensures Suggestions(fields, facts, answers) ==
      Suggestions(fields[..|fields| - 1], facts, answers) + [SuggestionFor(fields[|fields| - 1], facts, answers).value]
  {
  }

  /** With unique field paths a synchronisation never conflicts, and running it
      again on unchanged facts changes nothing. */
  lemma SyncIdempotent(read: map<Text, Answer>, fields: seq<Field>, facts: seq<Fact>, who: nat)
    requires UniquePaths(fields)
    ensures Distinct(Changes(read, Suggestions(fields, facts, read)))
    ensures var after := Stored(read, Suggestions(fields, facts, read), who);
      var again := Suggestions(fields, facts, after);
      Changes(after, again) == [] && Stored(after, again, who) == after
  {
    var ss := Suggestions(fields, facts, read);
    var after := Stored(read, ss, who);
    UniqueDistinct(fields, facts, read, read);
    UniqueConsistent(fields, facts, read);
    SettlesExactly(read, ss, who);
    ChangesIgnoreMarks(after, fields, facts, read, after, who);
  }

  /** The suggestions of a list of fields, field by field: the chosen fact of each
      that has one, in the order of the fields. */
  lemma SuggestedInOrder(fields: seq<Field>, field: Field, facts: seq<Fact>, answers: map<Text, Answer>)
    ensures Suggestions([], facts, answers) == []
    ensures forall s | IsSuggested(field, facts, answers, s) ::
      Suggestions(fields + [field], facts, answers) == Suggestions(fields, facts, answers) + [s]
    ensures (forall f | f in facts :: !Candidate(field, f)) ==>
      Suggestions(fields + [field], facts, answers) == Suggestions(fields, facts, answers)
  {
    SuggestedExactly(field, facts, answers);
    assert (fields + [field])[..|fields|] == fields;
    hide SuggestionFor, IsSuggested, Candidate;
  }

  /** The fact a field is to be filled with, if it has a current one the form may
      hold. */
  ghost predicate Fills(field: Field, facts: seq<Fact>, i: int) {
    Chosen(field, facts, i) && ComplaintsOf(field, facts[i].value) == []
  }

  /** What a field filled with the fact holds: the answer there was, if it came
      from this fact and has its value, else the fact with its provenance and the
      next revision. */
  function Holding(read: map<Text, Answer>, field: Field, fact: Fact, who: nat): Answer {
    if field.path !in read then Answer(fact.value, Some(field.canonicalPath), Some(fact.id), true, 1, Some(who))
    else
      var before := read[field.path];
      if before.factId == Some(fact.id) && before.value == fact.value then before
      else Answer(fact.value, Some(field.canonicalPath), Some(fact.id), true, before.revision + 1, Some(who))
  }

  /** With unique field paths every field whose chosen fact the form may hold ends
      up with it, and every other path holds what it held. */
  lemma FieldHoldsItsFact(read: map<Text, Answer>, fields: seq<Field>, facts: seq<Fact>, who: nat, path: Text)
    requires UniquePaths(fields)
    ensures var after := Stored(read, Suggestions(fields, facts, read), who);
      && (forall field, i | field in fields && field.path == path && Fills(field, facts, i) ::
            path in after && after[path] == Holding(read, field, facts[i], who))
      && ((forall field, i | field in fields && Fills(field, facts, i) :: field.path != path) ==>
            (path in after <==> path in read) && (path in read ==> after[path] == read[path]))
  {
    forall field, i | field in fields && field.path == path && Fills(field, facts, i)
      ensures path in Stored(read, Suggestions(fields, facts, read), who)
      ensures Stored(read, Suggestions(fields, facts, read), who)[path] == Holding(read, field, facts[i], who)
    {
      FieldFilled(read, fields, facts, who, field, i);
    }
    if forall field, i | field in fields && Fills(field, facts, i) :: field.path != path {
      PathLeft(read, fields, facts, who, path);
    }
  }

  lemma FillsExactly(read: map<Text, Answer>, field: Field, facts: seq<Fact>, s: Suggestion)
    requires SuggestionFor(field, facts, read) == Some(s)
    ensures s.path == field.path
    ensures Eligible(s) <==> exists i :: Fills(field, facts, i)
    ensures forall i | Chosen(field, facts, i) ::
      && (Eligible(s) <==> Fills(field, facts, i))
      && s.canonicalPath == field.canonicalPath && s.value == facts[i].value && s.factId == facts[i].id
  {
    SuggestedExactly(field, facts, read);
    assert IsSuggested(field, facts, read, s);
    HighestRevision(field, facts);
    hide ComplaintsOf, Chosen, SuggestionFor;
    var i :| Chosen(field, facts, i) && s.errors == ComplaintsOf(field, facts[i].value) && s.value == facts[i].value
      && s.factId == facts[i].id && s.canonicalPath == field.canonicalPath && s.path == field.path;
    assert forall j | Chosen(field, facts, j) :: facts[j] == facts[i];
    assert Eligible(s) <==> Fills(field, facts, i);
  }

  lemma FieldFilled(read: map<Text, Answer>, fields: seq<Field>, facts: seq<Fact>, who: nat, field: Field, i: int)
    requires UniquePaths(fields) && field in fields && Fills(field, facts, i)
    ensures var after := Stored(read, Suggestions(fields, facts, read), who);
      field.path in after && after[field.path] == Holding(read, field, facts[i], who)
  {
    var ss := Suggestions(fields, facts, read);
    HighestRevision(field, facts);
    SuggestionsOf(fields, facts, read);
    var k :| 0 <= k < |fields| && fields[k] == field;
    var s := SuggestionFor(field, facts, read).value;
    assert From(s, fields, facts, read, k) && s in ss;
    FillsExactly(read, field, facts, s);
    UniqueDistinct(fields, facts, read, read);
    UniqueConsistent(fields, facts, read);
    SyncExactly(read, ss, who, field.path);
    StoredAt(read, ss, who, field.path);
    hide Suggestions, SuggestionFor, Stored, Changes, Fills, From;
    if UpToDate(read, s) {
      UpToDateLeft(read, ss, s);
    } else {
      assert Changing(read, s);
    }
  }

  lemma UpToDateLeft(read: map<Text, Answer>, ss: seq<Suggestion>, s: Suggestion)
    requires Consistent(ss) && s in ss && Eligible(s) && UpToDate(read, s)
    ensures s.path !in Changes(read, ss)
  {
    if s.path in Changes(read, ss) {
      var t := ChangesCome(read, ss, s.path);
    }
  }

  /** No answer, or one from another fact or with another value. */
  predicate Differs(read: map<Text, Answer>, path: Text, fact: Fact) {
    path !in read || read[path].factId != Some(fact.id) || read[path].value != fact.value
  }

  lemma ChangedByField(read: map<Text, Answer>, fields: seq<Field>, facts: seq<Fact>, path: Text)
    returns (field: Field, i: int)
    requires path in Changes(read, Suggestions(fields, facts, read))
    ensures field in fields && field.path == path && Fills(field, facts, i)
    ensures Differs(read, path, facts[i])
  {
    var s := ChangesCome(read, Suggestions(fields, facts, read), path);
    SuggestionsOf(fields, facts, read);
    var k :| From(s, fields, facts, read, k);
    field := fields[k];
    FillsExactly(read, field, facts, s);
    hide Fills;
    i :| Fills(field, facts, i);
  }

  lemma PathLeft(read: map<Text, Answer>, fields: seq<Field>, facts: seq<Fact>, who: nat, path: Text)
    requires UniquePaths(fields)
    requires forall field, i | field in fields && Fills(field, facts, i) :: field.path != path
    ensures var after := Stored(read, Suggestions(fields, facts, read), who);
      (path in after <==> path in read) && (path in read ==> after[path] == read[path])
  {
    var ss := Suggestions(fields, facts, read);
    StoredAt(read, ss, who, path);
    if path in Changes(read, ss) {
      var field, i := ChangedByField(read, fields, facts, path);
    }
  }

  /** The paths a synchronisation reports: those of the fields whose chosen fact the
      form may hold and does not hold yet. */
  lemma ReportedExactly(read: map<Text, Answer>, fields: seq<Field>, facts: seq<Fact>, path: Text)
    requires UniquePaths(fields)
    ensures path in ChangedPaths(read, fields, facts) <==>
      exists field, i | field in fields && field.path == path && Fills(field, facts, i) :: Differs(read, path, facts[i])
  {
    if path in ChangedPaths(read, fields, facts) {
      var field, i := ChangedByField(read, fields, facts, path);
    }
    if field, i :| field in fields && field.path == path && Fills(field, facts, i) && Differs(read, path, facts[i]) {
      ReportedField(read, fields, facts, field, i);
    }
  }

  lemma ReportedField(read: map<Text, Answer>, fields: seq<Field>, facts: seq<Fact>, field: Field, i: int)
    requires UniquePaths(fields) && field in fields && Fills(field, facts, i)
    requires Differs(read, field.path, facts[i])
    ensures field.path in Changes(read, Suggestions(fields, facts, read))
  {
    HighestRevision(field, facts);
    SuggestionsOf(fields, facts, read);
    var k :| 0 <= k < |fields| && fields[k] == field;
    var s := SuggestionFor(field, facts, read).value;
    assert From(s, fields, facts, read, k);
    FillsExactly(read, field, facts, s);
    UniqueDistinct(fields, facts, read, read);
    StoredFilled(read, Suggestions(fields, facts, read), 0, s);
  }
}
