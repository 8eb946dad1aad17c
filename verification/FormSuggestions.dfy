/** Carrying verified canonical facts into the answers of a form
  (src/forms-engine.js:18-35, src/server.js:517-530). */
module FormSuggestions {
  import opened Json
  import opened Options

  datatype Kind = TextField | DateField | BooleanField | NumberField | EnumField | OtherField

  /** A length of zero is no bound. */
  datatype Field = Field(
    path: Text,
    canonicalPath: Text,
    kind: Kind,
    options: Option<seq<Value>>,
    maxLength: nat,
    minLength: nat)

  datatype Fact = Fact(id: nat, fieldPath: Text, value: Value, revision: nat, current: bool)

  datatype Answer = Answer(
    value: Value,
    canonicalPath: Option<Text>,
    factId: Option<nat>,
    verified: bool,
    revision: nat,
    changedBy: Option<nat>)

  datatype FieldError =
    | TextRequired
    | ValidDateRequired
    | BooleanRequired
    | FiniteNumberRequired
    | EnumValueNotAllowed
    | MaxLengthExceeded
    | MinLengthNotMet

  datatype Suggestion = Suggestion(
    path: Text,
    canonicalPath: Text,
    value: Value,
    factId: nat,
    sourceRevision: nat,
    conflict: bool,
    errors: seq<FieldError>)

  // ------------------------------------------------------------------
  // Validation
  // ------------------------------------------------------------------

  predicate IsTrimmed(c: Unit) {
    9 <= c <= 13 || c in {32, 160, 5760, 8232, 8233, 8239, 8287, 12288, 65279} || 8192 <= c <= 8202
  }

  /** Neither null, nor a blank text, nor an empty list. */
  predicate Present(v: Value) {
    match v
    case Undefined => false
    case Null => false
    case String(s) => exists c | c in s :: !IsTrimmed(c)
    case Array(items) => items != []
    case _ => true
  }

  function Digits(s: Text): nat
    requires forall c | c in s :: IsDigit(c)
  {
    if s == [] then 0
    else
      assert IsDigit(s[|s| - 1]) by { assert s[|s| - 1] in s; }
      var last: int := s[|s| - 1];
      10 * Digits(s[..|s| - 1]) + (last - 48)
  }

  function DaysIn(year: nat, month: nat): nat {
    if month == 2 then (if year % 4 == 0 && (year % 100 != 0 || year % 400 == 0) then 29 else 28)
    else if month in {4, 6, 9, 11} then 30
    else 31
  }

  /** A calendar date written year-month-day. */
  predicate IsDate(s: Text) {
    && |s| == 10 && s[4] == 45 && s[7] == 45
    && (forall c | c in s[..4] + s[5..7] + s[8..] :: IsDigit(c))
    && (assert forall c | c in s[..4] :: c in s[..4] + s[5..7] + s[8..];
        assert forall c | c in s[5..7] :: c in s[..4] + s[5..7] + s[8..];
        assert forall c | c in s[8..] :: c in s[..4] + s[5..7] + s[8..];
        var year, month, day := Digits(s[..4]), Digits(s[5..7]), Digits(s[8..]);
        1 <= month <= 12 && 1 <= day <= DaysIn(year, month))
  }

  function ErrorIf(b: bool, e: FieldError): seq<FieldError> { if b then [e] else [] }

  /** The complaints about a value, in order; an absent value has none. */
  function FieldErrors(field: Field, v: Value): seq<FieldError> {
    if !Present(v) then []
    else
      ErrorIf(field.kind == TextField && !v.String?, TextRequired)
      + ErrorIf(field.kind == DateField && !(v.String? && IsDate(v.s)), ValidDateRequired)
      + ErrorIf(field.kind == BooleanField && !v.Bool?, BooleanRequired)
      + ErrorIf(field.kind == NumberField && !v.Number?, FiniteNumberRequired)
      + ErrorIf(field.kind == EnumField && !(field.options.Some? && v in field.options.value && !v.Array? && !v.Object?),
          EnumValueNotAllowed)
      + ErrorIf(v.String? && field.maxLength > 0 && |v.s| > field.maxLength, MaxLengthExceeded)
      + ErrorIf(v.String? && field.minLength > 0 && |v.s| < field.minLength, MinLengthNotMet)
  }

  /** The units a text is trimmed of. */
  const WHITE_SPACE: seq<Unit> := [
    9, 10, 11, 12, 13, 32, 160, 5760, 8192, 8193, 8194, 8195, 8196, 8197, 8198, 8199, 8200, 8201, 8202, 8232, 8233,
    8239, 8287, 12288, 65279]

  predicate Absent(v: Value) {
    v.Undefined? || v.Null? || v == Array([]) || (v.String? && forall c | c in v.s :: c in WHITE_SPACE)
  }

  lemma AbsentExactly(v: Value)
    ensures Present(v) <==> !Absent(v)
  {
    assert forall c: Unit :: IsTrimmed(c) <==> c in WHITE_SPACE;
  }

  predicate IsLeap(year: nat) {
    year % 400 == 0 || (year % 4 == 0 && year % 100 != 0)
  }

  /** A day of the calendar. */
  predicate InCalendar(year: nat, month: nat, day: nat) {
    && 1 <= month <= 12 && 1 <= day <= 31
    && (month in [4, 6, 9, 11] ==> day <= 30)
    && (month == 2 ==> day <= 28 || (day == 29 && IsLeap(year)))
  }

  predicate LooksLikeDate(s: Text) {
    |s| == 10 && s[4] == 45 && s[7] == 45 && forall i | i in [0, 1, 2, 3, 5, 6, 8, 9] :: IsDigit(s[i])
  }

  /** Is this the day the text writes? */
  predicate IsDateOf(s: Text, year: nat, month: nat, day: nat) {
    && LooksLikeDate(s)
    && year == 1000 * (s[0] - 48) + 100 * (s[1] - 48) + 10 * (s[2] - 48) + (s[3] - 48)
    && month == 10 * (s[5] - 48) + (s[6] - 48) && day == 10 * (s[8] - 48) + (s[9] - 48)
    && InCalendar(year, month, day)
  }

  lemma DaysExactly(year: nat, month: nat, day: nat)
    ensures 1 <= month <= 12 && 1 <= day <= DaysIn(year, month) <==> InCalendar(year, month, day)
  {
  }

  lemma TwoDigits(s: Text)
    requires |s| == 2 && IsDigit(s[0]) && IsDigit(s[1])
    ensures forall c | c in s :: IsDigit(c)
    ensures Digits(s) == 10 * (s[0] - 48) + (s[1] - 48)
  {
    assert s[..1][..0] == [] && s[..1][0] == s[0];
    assert Digits(s[..1]) == s[0] - 48;
  }

  lemma FourDigits(s: Text)
    requires |s| == 4 && forall i | 0 <= i < 4 :: IsDigit(s[i])
    ensures forall c | c in s :: IsDigit(c)
    ensures Digits(s) == 1000 * (s[0] - 48) + 100 * (s[1] - 48) + 10 * (s[2] - 48) + (s[3] - 48)
  {
    TwoDigits(s[..2]);
    assert s[..3][..2] == s[..2];
    assert Digits(s[..3]) == 10 * Digits(s[..2]) + (s[2] - 48);
    assert s[..4] == s;
    assert Digits(s) == 10 * Digits(s[..3]) + (s[3] - 48);
  }

  /** A text is a date exactly when it writes a day of the calendar. */
  lemma DateExactly(s: Text)
    ensures IsDate(s) <==> exists year, month, day :: IsDateOf(s, year, month, day)
  {
    if |s| == 10 && s[4] == 45 && s[7] == 45 {
      DigitsOnly(s);
      if LooksLikeDate(s) {
        DateParts(s);
        var year, month, day := Digits(s[..4]), Digits(s[5..7]), Digits(s[8..]);
        DaysExactly(year, month, day);
        assert IsDate(s) <==> InCalendar(year, month, day);
        hide Digits, IsDate, LooksLikeDate, InCalendar;
        assert IsDateOf(s, year, month, day) <==> InCalendar(year, month, day);
      }
    }
  }

  lemma DigitsOnly(s: Text)
    requires |s| == 10 && s[4] == 45 && s[7] == 45
    ensures LooksLikeDate(s) <==> forall c | c in s[..4] + s[5..7] + s[8..] :: IsDigit(c)
  {
    assert s[..4] + s[5..7] + s[8..] == [s[0], s[1], s[2], s[3], s[5], s[6], s[8], s[9]];
  }

  lemma DateParts(s: Text)
    requires LooksLikeDate(s)
    ensures forall c | c in s[..4] || c in s[5..7] || c in s[8..] :: IsDigit(c)
    ensures Digits(s[..4]) == 1000 * (s[0] - 48) + 100 * (s[1] - 48) + 10 * (s[2] - 48) + (s[3] - 48)
    ensures Digits(s[5..7]) == 10 * (s[5] - 48) + (s[6] - 48) && Digits(s[8..]) == 10 * (s[8] - 48) + (s[9] - 48)
  {
    FourDigits(s[..4]);
    TwoDigits(s[5..7]);
    TwoDigits(s[8..]);
    hide Digits;
  }

  /** The complaints in the order they are made, and when each is made. */
  const COMPLAINTS: seq<FieldError> := [
    TextRequired, ValidDateRequired, BooleanRequired, FiniteNumberRequired, EnumValueNotAllowed, MaxLengthExceeded,
    MinLengthNotMet]

  ghost predicate Complains(field: Field, v: Value, e: FieldError) {
    match e
    case TextRequired => field.kind == TextField && !v.String?
    case ValidDateRequired =>
      field.kind == DateField && !(v.String? && exists year, month, day :: IsDateOf(v.s, year, month, day))
    case BooleanRequired => field.kind == BooleanField && !v.Bool?
    case FiniteNumberRequired => field.kind == NumberField && !v.Number?
    case EnumValueNotAllowed =>
      && field.kind == EnumField
      && (field.options == None || v.Array? || v.Object?
          || forall i | 0 <= i < |field.options.value| :: field.options.value[i] != v)
    case MaxLengthExceeded => v.String? && 0 < field.maxLength < |v.s|
    case MinLengthNotMet => v.String? && |v.s| < field.minLength
  }

  /** Those of the first n complaints that are made. */
  ghost function Made(field: Field, v: Value, n: nat): seq<FieldError>
    requires n <= |COMPLAINTS|
  {
    if n == 0 then [] else Made(field, v, n - 1) + ErrorIf(Complains(field, v, COMPLAINTS[n - 1]), COMPLAINTS[n - 1])
  }

  /** All that are made; an absent value draws none. */
  ghost function ComplaintsOf(field: Field, v: Value): seq<FieldError> {
    if Absent(v) then [] else Made(field, v, |COMPLAINTS|)
  }

  lemma EnumComplaint(field: Field, v: Value)
    ensures Complains(field, v, EnumValueNotAllowed) <==>
      field.kind == EnumField && !(field.options.Some? && v in field.options.value && !v.Array? && !v.Object?)
  {
  }

  lemma DateComplaint(field: Field, v: Value)
    ensures Complains(field, v, ValidDateRequired) <==> field.kind == DateField && !(v.String? && IsDate(v.s))
  {
    if v.String? { DateExactly(v.s); }
    hide IsDate, IsDateOf;
  }

  lemma MadeAll(field: Field, v: Value)
    ensures Made(field, v, 7) ==
      ErrorIf(Complains(field, v, TextRequired), TextRequired)
      + ErrorIf(Complains(field, v, ValidDateRequired), ValidDateRequired)
      + ErrorIf(Complains(field, v, BooleanRequired), BooleanRequired)
      + ErrorIf(Complains(field, v, FiniteNumberRequired), FiniteNumberRequired)
      + ErrorIf(Complains(field, v, EnumValueNotAllowed), EnumValueNotAllowed)
      + ErrorIf(Complains(field, v, MaxLengthExceeded), MaxLengthExceeded)
      + ErrorIf(Complains(field, v, MinLengthNotMet), MinLengthNotMet)
  {
    hide Complains, ErrorIf;
    assert Made(field, v, 0) == [];
    assert Made(field, v, 1) == ErrorIf(Complains(field, v, TextRequired), TextRequired);
    assert Made(field, v, 2) == Made(field, v, 1) + ErrorIf(Complains(field, v, ValidDateRequired), ValidDateRequired);
    assert Made(field, v, 3) == Made(field, v, 2) + ErrorIf(Complains(field, v, BooleanRequired), BooleanRequired);
    assert Made(field, v, 4) == Made(field, v, 3) + ErrorIf(Complains(field, v, FiniteNumberRequired), FiniteNumberRequired);
    assert Made(field, v, 5) == Made(field, v, 4) + ErrorIf(Complains(field, v, EnumValueNotAllowed), EnumValueNotAllowed);
    assert Made(field, v, 6) == Made(field, v, 5) + ErrorIf(Complains(field, v, MaxLengthExceeded), MaxLengthExceeded);
    assert Made(field, v, 7) == Made(field, v, 6) + ErrorIf(Complains(field, v, MinLengthNotMet), MinLengthNotMet);
  }

  /** An absent value draws no complaint; any other draws exactly those that
      apply, in order. */
  lemma ErrorsExactly(field: Field, v: Value)
    ensures FieldErrors(field, v) == ComplaintsOf(field, v)
  {
    AbsentExactly(v);
    MadeAll(field, v);
    EnumComplaint(field, v);
    DateComplaint(field, v);
    hide Present, Absent, IsDate, IsDateOf, Made, ErrorIf;
    assert ComplaintsOf(field, v) == if Absent(v) then [] else Made(field, v, 7);
  }

  /** A value draws no complaint exactly when the form may hold it: absent, or of
      the field's kind and within its length bounds. */
  lemma AcceptedExactly(field: Field, v: Value)
    ensures FieldErrors(field, v) == [] <==>
      || Absent(v)
      || (&& (match field.kind
              case TextField => v.String?
              case DateField => v.String? && exists year, month, day :: IsDateOf(v.s, year, month, day)
              case BooleanField => v.Bool?
              case NumberField => v.Number?
              case EnumField =>
                && field.options.Some? && !v.Array? && !v.Object?
                && exists i | 0 <= i < |field.options.value| :: field.options.value[i] == v
              case OtherField => true)
          && (v.String? ==> (field.maxLength == 0 || |v.s| <= field.maxLength) && field.minLength <= |v.s|))
  {
    AbsentExactly(v);
    if v.String? { DateExactly(v.s); }
    hide Present, Absent, IsDate, IsDateOf;
  }

  // ------------------------------------------------------------------
  // Suggestions
  // ------------------------------------------------------------------

  /** The last dotted segment of a canonical path. */
  function Leaf(path: Text): Text {
    if 46 !in path then path else Leaf(path[1..])
  }

  /** Stable insertion into a list of falling revisions. */
  function InsertFact(f: Fact, facts: seq<Fact>): seq<Fact> {
    if facts == [] || f.revision >= facts[0].revision then [f] + facts
    else [facts[0]] + InsertFact(f, facts[1..])
  }

  /** The current facts, highest revision first. */
  function Ranked(facts: seq<Fact>): seq<Fact> {
    if facts == [] then []
    else if facts[0].current then InsertFact(facts[0], Ranked(facts[1..]))
    else Ranked(facts[1..])
  }

  function FindFact(facts: seq<Fact>, leaf: Text): Option<Fact> {
    if facts == [] then None
    else if facts[0].fieldPath == leaf then Some(facts[0])
    else FindFact(facts[1..], leaf)
  }

  function FactFor(field: Field, facts: seq<Fact>): Option<Fact> {
    FindFact(Ranked(facts), Leaf(field.canonicalPath))
  }

  function SuggestionFor(field: Field, facts: seq<Fact>, answers: map<Text, Answer>): Option<Suggestion> {
    match FactFor(field, facts)
    case None => None
    case Some(fact) =>
      var conflict := field.path in answers && Present(answers[field.path].value) && answers[field.path].value != fact.value;
      Some(Suggestion(field.path, field.canonicalPath, fact.value, fact.id, fact.revision, conflict,
                      FieldErrors(field, fact.value)))
  }

  function Suggestions(fields: seq<Field>, facts: seq<Fact>, answers: map<Text, Answer>): seq<Suggestion> {
    if fields == [] then []
    else
      var rest := Suggestions(fields[..|fields| - 1], facts, answers);
      match SuggestionFor(fields[|fields| - 1], facts, answers)
      case None => rest
      case Some(s) => rest + [s]
  }

  method BuildCanonicalSuggestions(fields: seq<Field>, facts: seq<Fact>, answers: map<Text, Answer>)
    returns (suggestions: seq<Suggestion>)
    ensures suggestions == Suggestions(fields, facts, answers)
  {
    suggestions := [];
    var ranked := Ranked(facts);
    for i := 0 to |fields|
      invariant suggestions == Suggestions(fields[..i], facts, answers)
    {
      assert fields[..i + 1][..i] == fields[..i];
      var field := fields[i];
      var fact := FindFact(ranked, Leaf(field.canonicalPath));
      if fact.Some? {
        var conflict :=
          field.path in answers && Present(answers[field.path].value) && answers[field.path].value != fact.value.value;
        suggestions := suggestions + [Suggestion(field.path, field.canonicalPath, fact.value.value, fact.value.id,
          fact.value.revision, conflict, FieldErrors(field, fact.value.value))];
      }
    }
    assert fields[..|fields|] == fields;
  }

  lemma {:induction false} InsertFactMembers(f: Fact, facts: seq<Fact>)
    ensures forall x :: x in InsertFact(f, facts) <==> x == f || x in facts
  {
    if facts == [] || f.revision >= facts[0].revision {
      assert InsertFact(f, facts) == [f] + facts;
    } else {
      InsertFactMembers(f, facts[1..]);
      assert facts == [facts[0]] + facts[1..];
      assert InsertFact(f, facts) == [facts[0]] + InsertFact(f, facts[1..]);
    }
  }

  ghost predicate Falling(facts: seq<Fact>) {
    forall i, j | 0 <= i < j < |facts| :: facts[i].revision >= facts[j].revision
  }

  lemma {:induction false} InsertFactShape(f: Fact, facts: seq<Fact>)
    requires Falling(facts)
    ensures Falling(InsertFact(f, facts))
  {
    if facts != [] && f.revision < facts[0].revision {
      InsertFactShape(f, facts[1..]);
      InsertFactMembers(f, facts[1..]);
      var r := InsertFact(f, facts[1..]);
      forall j | 0 <= j < |r| ensures facts[0].revision >= r[j].revision {
        assert r[j] in r;
        if r[j] != f {
          var k :| 0 <= k < |facts[1..]| && facts[1..][k] == r[j];
          assert facts[k + 1] == r[j];
        }
      }
    }
  }

  lemma {:induction false} RankedShape(facts: seq<Fact>)
    ensures Falling(Ranked(facts))
    ensures forall x :: x in Ranked(facts) <==> x in facts && x.current
  {
    if facts != [] {
      RankedShape(facts[1..]);
      InsertFactShape(facts[0], Ranked(facts[1..]));
      InsertFactMembers(facts[0], Ranked(facts[1..]));
      assert facts == [facts[0]] + facts[1..];
    }
  }

  lemma {:induction false} FindFactFirst(facts: seq<Fact>, leaf: Text)
    requires Falling(facts)
    ensures FindFact(facts, leaf).None? ==> forall f | f in facts :: f.fieldPath != leaf
    ensures FindFact(facts, leaf).Some? ==>
      && FindFact(facts, leaf).value in facts
      && FindFact(facts, leaf).value.fieldPath == leaf
      && forall f | f in facts && f.fieldPath == leaf :: f.revision <= FindFact(facts, leaf).value.revision
  {
    if facts != [] {
      FindFactFirst(facts[1..], leaf);
      assert facts == [facts[0]] + facts[1..];
      forall f | f in facts[1..] ensures f.revision <= facts[0].revision {
        var k :| 0 <= k < |facts[1..]| && facts[1..][k] == f;
        assert facts[k + 1] == f;
      }
    }
  }

  /** The text after the last dot, all of it if there is none. */
  predicate AfterLastDot(path: Text, leaf: Text) {
    && |leaf| <= |path| && path[|path| - |leaf|..] == leaf && 46 !in leaf
    && (|leaf| == |path| || path[|path| - |leaf| - 1] == 46)
  }

  lemma {:induction false} LeafAfterDot(path: Text)
    ensures AfterLastDot(path, Leaf(path))
  {
    if 46 in path {
      LeafAfterDot(path[1..]);
      assert path == [path[0]] + path[1..];
    }
  }

  lemma NotLonger(path: Text, leaf: Text, other: Text)
    requires AfterLastDot(path, leaf) && AfterLastDot(path, other)
    ensures |leaf| <= |other|
  {
  }

  lemma LeafExactly(path: Text, leaf: Text)
    ensures AfterLastDot(path, leaf) <==> leaf == Leaf(path)
  {
    LeafAfterDot(path);
    if AfterLastDot(path, leaf) {
      var other := Leaf(path);
      NotLonger(path, leaf, other);
      NotLonger(path, other, leaf);
    }
  }

  predicate Candidate(field: Field, f: Fact) {
    f.current && AfterLastDot(field.canonicalPath, f.fieldPath)
  }

  /** The current fact for the text after the last dot with the highest revision,
      and of several the one listed first. */
  ghost predicate Chosen(field: Field, facts: seq<Fact>, i: int) {
    && 0 <= i < |facts| && Candidate(field, facts[i])
    && (forall j | 0 <= j < |facts| && Candidate(field, facts[j]) :: facts[j].revision <= facts[i].revision)
    && (forall j | 0 <= j < i && Candidate(field, facts[j]) :: facts[j].revision < facts[i].revision)
  }

  lemma {:induction false} InsertFound(f: Fact, facts: seq<Fact>, leaf: Text)
    requires Falling(facts)
    ensures var found := FindFact(facts, leaf);
      FindFact(InsertFact(f, facts), leaf) ==
        if f.fieldPath == leaf && (found.None? || f.revision >= found.value.revision) then Some(f) else found
  {
    FindFactFirst(facts, leaf);
    if facts == [] || f.revision >= facts[0].revision {
      assert ([f] + facts)[1..] == facts;
      assert forall x | x in facts :: x.revision <= f.revision by {
        forall x | x in facts ensures x.revision <= f.revision {
          var k :| 0 <= k < |facts| && facts[k] == x;
        }
      }
    } else {
      InsertFound(f, facts[1..], leaf);
      assert ([facts[0]] + InsertFact(f, facts[1..]))[1..] == InsertFact(f, facts[1..]);
    }
  }

  /** Is the fact chosen from these, if one is? */
  ghost predicate Picks(field: Field, facts: seq<Fact>, picked: Option<Fact>) {
    && (picked == None <==> forall f | f in facts :: !Candidate(field, f))
    && (picked != None <==> exists i :: Chosen(field, facts, i))
    && (forall i | Chosen(field, facts, i) :: picked == Some(facts[i]))
  }

  lemma PickedIs(field: Field, facts: seq<Fact>, i: int)
    requires Chosen(field, facts, i)
    ensures Picks(field, facts, Some(facts[i]))
  {
    hide Candidate;
    assert facts[i] in facts;
    forall j | Chosen(field, facts, j) ensures j == i {
      assert facts[i].revision == facts[j].revision;
    }
  }

  /** The fact chosen from the rest, seen in the whole list. */
  lemma ChosenInRest(field: Field, facts: seq<Fact>, picked: Option<Fact>) returns (k: int)
    requires facts != [] && picked.Some? && Picks(field, facts[1..], picked)
    ensures Chosen(field, facts[1..], k) && 0 <= k < |facts| - 1 && facts[k + 1] == picked.value
    ensures Candidate(field, facts[k + 1])
    ensures forall j | 0 < j < |facts| && Candidate(field, facts[j]) :: facts[j].revision <= picked.value.revision
    ensures forall j | 0 < j < k + 1 && Candidate(field, facts[j]) :: facts[j].revision < picked.value.revision
  {
    hide Candidate;
    var rest := facts[1..];
    k :| Chosen(field, rest, k);
    assert forall j | 0 < j < |facts| :: facts[j] == rest[j - 1];
  }

  lemma SkipFirst(field: Field, facts: seq<Fact>, picked: Option<Fact>)
    requires facts != [] && !Candidate(field, facts[0]) && Picks(field, facts[1..], picked)
    ensures Picks(field, facts, picked)
  {
    hide Candidate;
    if picked.Some? {
      var k := ChosenInRest(field, facts, picked);
      assert Chosen(field, facts, k + 1);
      PickedIs(field, facts, k + 1);
    } else {
      assert facts == [facts[0]] + facts[1..];
      assert forall i | Chosen(field, facts, i) :: facts[i] in facts;
    }
  }

  lemma PickFirst(field: Field, facts: seq<Fact>, picked: Option<Fact>)
    requires facts != [] && Candidate(field, facts[0]) && Picks(field, facts[1..], picked)
    requires picked.None? || facts[0].revision >= picked.value.revision
    ensures Picks(field, facts, Some(facts[0]))
  {
    hide Candidate;
    assert forall j | 0 < j < |facts| :: facts[j] in facts[1..];
    if picked.Some? {
      var k := ChosenInRest(field, facts, picked);
    }
    assert Chosen(field, facts, 0);
    PickedIs(field, facts, 0);
  }

  lemma KeepPicked(field: Field, facts: seq<Fact>, picked: Option<Fact>)
    requires facts != [] && Candidate(field, facts[0]) && Picks(field, facts[1..], picked)
    requires picked.Some? && facts[0].revision < picked.value.revision
    ensures Picks(field, facts, picked)
  {
    hide Candidate;
    var k := ChosenInRest(field, facts, picked);
    assert Chosen(field, facts, k + 1);
    PickedIs(field, facts, k + 1);
  }

  /** A field is filled from the current fact for the text after the last dot of
      its canonical path with the highest revision, the first listed of several,
      and has no suggestion exactly when there is no such fact. */
  lemma {:induction false} HighestRevision(field: Field, facts: seq<Fact>)
    ensures Picks(field, facts, FactFor(field, facts))
  {
    if facts == [] {
      assert forall i :: !Chosen(field, facts, i);
    } else {
      var f, rest, leaf := facts[0], facts[1..], Leaf(field.canonicalPath);
      assert facts == [f] + rest;
      HighestRevision(field, rest);
      RankedShape(rest);
      FindFactFirst(Ranked(rest), leaf);
      InsertFound(f, Ranked(rest), leaf);
      LeafExactly(field.canonicalPath, f.fieldPath);
      var before := FactFor(field, rest);
      if !Candidate(field, f) {
        SkipFirst(field, facts, before);
      } else if before.None? || f.revision >= before.value.revision {
        PickFirst(field, facts, before);
      } else {
        KeepPicked(field, facts, before);
      }
    }
  }

  /** Is this what the field is suggested? */
  ghost predicate IsSuggested(field: Field, facts: seq<Fact>, answers: map<Text, Answer>, s: Suggestion) {
    exists i :: Chosen(field, facts, i) &&
      s == Suggestion(field.path, field.canonicalPath, facts[i].value, facts[i].id, facts[i].revision,
             field.path in answers && !Absent(answers[field.path].value) && answers[field.path].value != facts[i].value,
             ComplaintsOf(field, facts[i].value))
  }

  lemma SuggestedExactly(field: Field, facts: seq<Fact>, answers: map<Text, Answer>)
    ensures forall s :: SuggestionFor(field, facts, answers) == Some(s) <==> IsSuggested(field, facts, answers, s)
    ensures SuggestionFor(field, facts, answers) == None <==> forall f | f in facts :: !Candidate(field, f)
  {
    HighestRevision(field, facts);
    if field.path in answers { AbsentExactly(answers[field.path].value); }
    if i :| Chosen(field, facts, i) {
      ErrorsExactly(field, facts[i].value);
      assert forall j | Chosen(field, facts, j) :: facts[j] == facts[i];
      hide FieldErrors, ComplaintsOf, Absent, Present, FactFor, Candidate;
      assert IsSuggested(field, facts, answers, SuggestionFor(field, facts, answers).value);
    }
  }
}
