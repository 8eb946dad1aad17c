/** Merging what several intake documents say about one applicant
    (career-gate/lib/client-intake-extraction.ts:51-124). How one field's text is
    normalised and how text is lower-cased are parameters. */
module DocumentMerge {
  import opened Options

  type Text = string

  const FIELD_COUNT: nat := 22

  /** The editable fields, numbered in their fixed order. */
  type Field = f: nat | f < FIELD_COUNT

  const FIELD_NAMES: seq<string> := [
    "full_name", "phone", "email", "date_of_birth", "first_name", "middle_name", "last_name", "street", "city", "state",
    "zip", "preferred_language", "english_proficiency", "work_location_candidates", "site_code", "alt_site_code",
    "backup_site_code", "shift_code", "shift_days", "shift_start_time", "shift_end_time", "additional_notes"]

  lemma FieldsNamed()
    ensures |FIELD_NAMES| == FIELD_COUNT
    ensures FIELD_NAMES[FULL_NAME] == "full_name" && FIELD_NAMES[DATE_OF_BIRTH] == "date_of_birth"
  {
  }

  const FULL_NAME: Field := 0
  const DATE_OF_BIRTH: Field := 3

  const CONFIDENCE_FLOOR: real := 0.85

  /** The fields that hold text which is not blank, and the confidences that are
      finite numbers. */
  datatype Applicant = Applicant(values: map<Field, Text>, confidence: map<Field, real>)

  datatype Document = Document(filename: Text, rows: seq<Applicant>)

  datatype Item = Item(value: Text, confidence: Option<real>, filename: Text)

  datatype Reason = Conflict | IdentityConflict | LowConfidence | InvalidValue | MultipleApplicants

  datatype Warning = SeveralApplicants(filename: Text) | NothingRead(filename: Text) | ApplicantsDisagree

  datatype Suggestions = Suggestions(
    fields: map<Field, Text>,
    imported: seq<Field>,
    review: seq<Field>,
    reasons: map<Field, Reason>,
    sources: map<Field, seq<Text>>,
    warnings: seq<Warning>)

  /** Normalising a field's text, or refusing it. */
  type Normalizer = (Field, Text) -> Option<Text>

  type Folding = Text -> Text

  // ------------------------------------------------------------------
  // Reading the documents
  // ------------------------------------------------------------------

  datatype Gathered = Gathered(
    seen: set<Field>,
    reasons: map<Field, Reason>,
    items: map<Field, seq<Item>>,
    warnings: seq<Warning>)

  function ItemsAt(g: Gathered, f: Field): seq<Item> {
    if f in g.items then g.items[f] else []
  }

  function UsableConfidence(row: Applicant, f: Field): Option<real> {
    if f in row.confidence && 0.0 <= row.confidence[f] <= 1.0 then Some(row.confidence[f]) else None
  }

  /** One field of a document about several applicants. */
  function Mark(g: Gathered, row: Applicant, f: Field): Gathered {
    if f !in row.values then g
    else g.(seen := g.seen + {f}, reasons := g.reasons[f := MultipleApplicants])
  }

  /** One field of a document about one applicant. */
  function Note(normal: Normalizer, g: Gathered, row: Applicant, filename: Text, f: Field): Gathered {
    if f !in row.values then g
    else
      var seen := g.(seen := g.seen + {f});
      match normal(f, row.values[f])
      case None => seen.(reasons := g.reasons[f := InvalidValue])
      case Some(v) => seen.(items := g.items[f := ItemsAt(g, f) + [Item(v, UsableConfidence(row, f), filename)]])
  }

  function MarkFields(g: Gathered, row: Applicant, n: nat): Gathered
    requires n <= FIELD_COUNT
  {
    if n == 0 then g else Mark(MarkFields(g, row, n - 1), row, n - 1)
  }

  function NoteFields(normal: Normalizer, g: Gathered, row: Applicant, filename: Text, n: nat): Gathered
    requires n <= FIELD_COUNT
  {
    if n == 0 then g else Note(normal, NoteFields(normal, g, row, filename, n - 1), row, filename, n - 1)
  }

  function MarkRows(g: Gathered, rows: seq<Applicant>): Gathered {
    if rows == [] then g else MarkFields(MarkRows(g, rows[..|rows| - 1]), rows[|rows| - 1], FIELD_COUNT)
  }

  function Read(normal: Normalizer, g: Gathered, d: Document): Gathered {
    if |d.rows| > 1 then MarkRows(g.(warnings := g.warnings + [SeveralApplicants(d.filename)]), d.rows)
    else if d.rows == [] then g.(warnings := g.warnings + [NothingRead(d.filename)])
    else NoteFields(normal, g, d.rows[0], d.filename, FIELD_COUNT)
  }

  function ReadAll(normal: Normalizer, docs: seq<Document>): Gathered {
    if docs == [] then Gathered({}, map[], map[], [])
    else Read(normal, ReadAll(normal, docs[..|docs| - 1]), docs[|docs| - 1])
  }

  method ReadDocument(normal: Normalizer, before: Gathered, d: Document) returns (g: Gathered)
    ensures g == Read(normal, before, d)
  {
    g := before;
    if |d.rows| > 1 {
      g := g.(warnings := g.warnings + [SeveralApplicants(d.filename)]);
      ghost var start := g;
      for i := 0 to |d.rows|
        invariant g == MarkRows(start, d.rows[..i])
      {
        assert d.rows[..i + 1][..i] == d.rows[..i];
        ghost var outer := g;
        for f := 0 to FIELD_COUNT
          invariant g == MarkFields(outer, d.rows[i], f)
        {
          if f in d.rows[i].values {
            g := g.(seen := g.seen + {f}, reasons := g.reasons[f := MultipleApplicants]);
          }
        }
      }
      assert d.rows[..|d.rows|] == d.rows;
      return;
    }
    if |d.rows| == 0 {
      g := g.(warnings := g.warnings + [NothingRead(d.filename)]);
      return;
    }
    var row := d.rows[0];
    for f := 0 to FIELD_COUNT
      invariant g == NoteFields(normal, before, row, d.filename, f)
    {
      if f !in row.values { continue; }
      g := g.(seen := g.seen + {f});
      match normal(f, row.values[f])
      case None => g := g.(reasons := g.reasons[f := InvalidValue]);
      case Some(v) =>
        var current := if f in g.items then g.items[f] else [];
        g := g.(items := g.items[f := current + [Item(v, UsableConfidence(row, f), d.filename)]]);
    }
  }

  // ------------------------------------------------------------------
  // Deciding the fields
  // ------------------------------------------------------------------

  /** Do the items agree up to case? */
  predicate Agree(fold: Folding, items: seq<Item>) {
    forall i, j | 0 <= i < |items| && 0 <= j < |items| :: fold(items[i].value) == fold(items[j].value)
  }

  predicate Confident(items: seq<Item>) {
    forall item | item in items :: item.confidence.Some? && item.confidence.value >= CONFIDENCE_FLOOR
  }

  predicate Disagree(fold: Folding, g: Gathered) {
    !Agree(fold, ItemsAt(g, FULL_NAME)) || !Agree(fold, ItemsAt(g, DATE_OF_BIRTH))
  }

  function FileNames(items: seq<Item>): seq<Text> {
    if items == [] then []
    else
      var before, name := FileNames(items[..|items| - 1]), items[|items| - 1].filename;
      if name in before then before else before + [name]
  }

  /** Fill the field in, give a reason against it, or leave the reason there is. */
  datatype Judgement = Fill | Because(reason: Reason) | Keep

  function Judge(fold: Folding, items: seq<Item>, mixed: bool, spoiled: bool): Judgement {
    if mixed then Because(IdentityConflict)
    else if !Agree(fold, items) then Because(Conflict)
    else if spoiled then Keep
    else if !Confident(items) then Because(LowConfidence)
    else Fill
  }

  function Record(s: Suggestions, items: seq<Item>, f: Field, j: Judgement): Suggestions
    requires items != []
  {
    var s' := s.(sources := s.sources[f := FileNames(items)]);
    match j
    case Fill => s'.(fields := s.fields[f := items[0].value])
    case Because(reason) => s'.(reasons := s.reasons[f := reason])
    case Keep => s'
  }

  /** The verdict on one field that has usable items. */
  function Decide(fold: Folding, s: Suggestions, items: seq<Item>, mixed: bool, f: Field): Suggestions
    requires items != []
  {
    Record(s, items, f, Judge(fold, items, mixed, f in s.reasons))
  }

  function DecideFields(fold: Folding, s: Suggestions, g: Gathered, mixed: bool, n: nat): Suggestions
    requires n <= FIELD_COUNT
  {
    if n == 0 then s
    else
      var before := DecideFields(fold, s, g, mixed, n - 1);
      if ItemsAt(g, n - 1) == [] then before else Decide(fold, before, ItemsAt(g, n - 1), mixed, n - 1)
  }

  predicate Reviewed(s: Suggestions, g: Gathered, f: Field) {
    f in g.seen && (f in s.reasons || f !in s.fields)
  }

  /** The fields below n, in order, that were filled in or are left to review. */
  function ImportedBelow(s: Suggestions, n: nat): seq<Field>
    requires n <= FIELD_COUNT
  {
    if n == 0 then [] else ImportedBelow(s, n - 1) + (if n - 1 in s.fields then [n - 1] else [])
  }

  function ReviewBelow(s: Suggestions, g: Gathered, n: nat): seq<Field>
    requires n <= FIELD_COUNT
  {
    if n == 0 then [] else ReviewBelow(s, g, n - 1) + (if Reviewed(s, g, n - 1) then [n - 1] else [])
  }

  function Undecided(g: Gathered): Suggestions {
    Suggestions(map[], [], [], g.reasons, map[], g.warnings)
  }

  function Conclude(fold: Folding, g: Gathered): Suggestions {
    var mixed := Disagree(fold, g);
    var s := DecideFields(fold, Undecided(g), g, mixed, FIELD_COUNT);
    s.(imported := ImportedBelow(s, FIELD_COUNT),
       review := ReviewBelow(s, g, FIELD_COUNT),
       warnings := if mixed then s.warnings + [ApplicantsDisagree] else s.warnings)
  }

  function Merged(normal: Normalizer, fold: Folding, docs: seq<Document>): Suggestions {
    Conclude(fold, ReadAll(normal, docs))
  }

  method DecideAll(fold: Folding, g: Gathered, mixed: bool) returns (s: Suggestions)
    ensures s == DecideFields(fold, Undecided(g), g, mixed, FIELD_COUNT)
  {
    hide Agree, Confident, FileNames;
    s := Undecided(g);
    for f := 0 to FIELD_COUNT
      invariant s == DecideFields(fold, Undecided(g), g, mixed, f)
    {
      var items := if f in g.items then g.items[f] else [];
      if items == [] { continue; }
      s := s.(sources := s.sources[f := FileNames(items)]);
      if mixed {
        s := s.(reasons := s.reasons[f := IdentityConflict]);
      } else if !Agree(fold, items) {
        s := s.(reasons := s.reasons[f := Conflict]);
      } else if f !in s.reasons {
        if !Confident(items) {
          s := s.(reasons := s.reasons[f := LowConfidence]);
        } else {
          s := s.(fields := s.fields[f := items[0].value]);
        }
      }
    }
  }

  method MergeIntakeDocumentSuggestions(normal: Normalizer, fold: Folding, docs: seq<Document>) returns (s: Suggestions)
    ensures s == Merged(normal, fold, docs)
  {
    var g := Gathered({}, map[], map[], []);
    for i := 0 to |docs|
      invariant g == ReadAll(normal, docs[..i])
    {
      assert docs[..i + 1][..i] == docs[..i];
      g := ReadDocument(normal, g, docs[i]);
    }
    assert docs[..|docs|] == docs;
    var mixed := !Agree(fold, ItemsAt(g, FULL_NAME)) || !Agree(fold, ItemsAt(g, DATE_OF_BIRTH));
    s := DecideAll(fold, g, mixed);
    var imported, review := [], [];
    for f := 0 to FIELD_COUNT
      invariant imported == ImportedBelow(s, f)
    {
      if f in s.fields { imported := imported + [f]; }
    }
    for f := 0 to FIELD_COUNT
      invariant review == ReviewBelow(s, g, f)
    {
      if f in g.seen && (f in s.reasons || f !in s.fields) { review := review + [f]; }
    }
    s := s.(imported := imported, review := review,
            warnings := if mixed then s.warnings + [ApplicantsDisagree] else s.warnings);
  }

  // ------------------------------------------------------------------
  // What the documents say about one field
  // ------------------------------------------------------------------

  /** A document mentions a field if some applicant in it has a text for it. */
  predicate Mentions(d: Document, f: Field) {
    exists row | row in d.rows :: f in row.values
  }

  /** A mention that can never be imported: the document is about several
      applicants, or the text could not be normalised. */
  predicate Spoils(normal: Normalizer, d: Document, f: Field) {
    Mentions(d, f) && (|d.rows| > 1 || normal(f, d.rows[0].values[f]).None?)
  }

  /** Why the last document that spoils a field does. */
  function SpoiledBy(normal: Normalizer, docs: seq<Document>, f: Field): Option<Reason> {
    if docs == [] then None
    else
      var last := docs[|docs| - 1];
      if Spoils(normal, last, f) then Some(if |last.rows| > 1 then MultipleApplicants else InvalidValue)
      else SpoiledBy(normal, docs[..|docs| - 1], f)
  }

  ghost predicate Mentioned(docs: seq<Document>, f: Field) {
    exists d | d in docs :: Mentions(d, f)
  }

  ghost predicate Spoiled(normal: Normalizer, docs: seq<Document>, f: Field) {
    exists d | d in docs :: Spoils(normal, d, f)
  }

  lemma OneMore(normal: Normalizer, docs: seq<Document>, d: Document, f: Field)
    ensures Mentioned(docs + [d], f) <==> Mentioned(docs, f) || Mentions(d, f)
    ensures Spoiled(normal, docs + [d], f) <==> Spoiled(normal, docs, f) || Spoils(normal, d, f)
    ensures ItemsOf(normal, docs + [d], f) == ItemsOf(normal, docs, f) + ItemOf(normal, d, f)
    ensures SpoiledBy(normal, docs + [d], f) ==
      if Spoils(normal, d, f) then Some(if |d.rows| > 1 then MultipleApplicants else InvalidValue)
      else SpoiledBy(normal, docs, f)
  {
    hide Mentions, Spoils, ItemOf;
    assert (docs + [d])[..|docs|] == docs;
    assert forall x :: x in docs + [d] <==> x in docs || x == d;
  }

  function ItemOf(normal: Normalizer, d: Document, f: Field): seq<Item> {
    if |d.rows| == 1 && f in d.rows[0].values && normal(f, d.rows[0].values[f]).Some?
    then
      var given := d.rows[0].confidence;
      [Item(normal(f, d.rows[0].values[f]).value,
            if f in given && 0.0 <= given[f] <= 1.0 then Some(given[f]) else None,
            d.filename)]
    else []
  }

  function ItemsOf(normal: Normalizer, docs: seq<Document>, f: Field): seq<Item> {
    if docs == [] then []
    else ItemsOf(normal, docs[..|docs| - 1], f) + ItemOf(normal, docs[|docs| - 1], f)
  }

  lemma {:induction false} MarkFieldsAt(g: Gathered, row: Applicant, n: nat, f: Field)
    requires n <= FIELD_COUNT
    ensures var h := MarkFields(g, row, n);
      && (f in h.seen <==> f in g.seen || (f < n && f in row.values))
      && (f in h.reasons <==> f in g.reasons || (f < n && f in row.values))
      && (f in h.reasons ==> h.reasons[f] == if f < n && f in row.values then MultipleApplicants else g.reasons[f])
      && h.items == g.items
  {
    if n > 0 {
      MarkFieldsAt(g, row, n - 1, f);
    }
  }

  lemma {:induction false} MarkRowsAt(g: Gathered, rows: seq<Applicant>, f: Field)
    ensures var h := MarkRows(g, rows);
      && (f in h.seen <==> f in g.seen || exists row | row in rows :: f in row.values)
      && (f in h.reasons <==> f in g.reasons || exists row | row in rows :: f in row.values)
      && (f in h.reasons ==>
            h.reasons[f] == if exists row | row in rows :: f in row.values then MultipleApplicants else g.reasons[f])
      && h.items == g.items
  {
    if rows != [] {
      var init, last := rows[..|rows| - 1], rows[|rows| - 1];
      MarkRowsAt(g, init, f);
      MarkFieldsAt(MarkRows(g, init), last, FIELD_COUNT, f);
      assert forall row :: row in rows <==> row in init || row == last by {
        assert rows == init + [last];
      }
    }
  }

  lemma {:induction false} NoteFieldsAt(normal: Normalizer, g: Gathered, row: Applicant, filename: Text, n: nat,
          f: Field)
    requires n <= FIELD_COUNT
    ensures var h := NoteFields(normal, g, row, filename, n);
      var noted := f < n && f in row.values;
      && (f in h.seen <==> f in g.seen || noted)
      && (f in h.reasons <==> f in g.reasons || (noted && normal(f, row.values[f]).None?))
      && (f in h.reasons ==>
            h.reasons[f] == if noted && normal(f, row.values[f]).None? then InvalidValue else g.reasons[f])
      && ItemsAt(h, f) == ItemsAt(g, f) +
           (if noted && normal(f, row.values[f]).Some?
            then [Item(normal(f, row.values[f]).value, UsableConfidence(row, f), filename)] else [])
  {
    if n > 0 {
      NoteFieldsAt(normal, g, row, filename, n - 1, f);
    }
  }

  lemma ReadAt(normal: Normalizer, g: Gathered, d: Document, f: Field)
    ensures var h := Read(normal, g, d);
      && (f in h.seen <==> f in g.seen || Mentions(d, f))
      && (f in h.reasons <==> f in g.reasons || Spoils(normal, d, f))
      && (f in h.reasons ==>
            h.reasons[f] ==
              if Spoils(normal, d, f) then (if |d.rows| > 1 then MultipleApplicants else InvalidValue) else g.reasons[f])
      && ItemsAt(h, f) == ItemsAt(g, f) + ItemOf(normal, d, f)
  {
    if |d.rows| > 1 {
      MarkRowsAt(g.(warnings := g.warnings + [SeveralApplicants(d.filename)]), d.rows, f);
    } else if d.rows != [] {
      NoteFieldsAt(normal, g, d.rows[0], d.filename, FIELD_COUNT, f);
      assert d.rows == [d.rows[0]];
    }
  }

  /** What was gathered about a field, said of the documents themselves. */
  lemma {:induction false} ReadAllAt(normal: Normalizer, docs: seq<Document>, f: Field)
    ensures var g := ReadAll(normal, docs);
      && (f in g.seen <==> Mentioned(docs, f))
      && (f in g.reasons <==> Spoiled(normal, docs, f))
      && (SpoiledBy(normal, docs, f) == if f in g.reasons then Some(g.reasons[f]) else None)
      && ItemsAt(g, f) == ItemsOf(normal, docs, f)
  {
    if docs != [] {
      var init, last := docs[..|docs| - 1], docs[|docs| - 1];
      assert ReadAll(normal, docs) == Read(normal, ReadAll(normal, init), last);
      assert docs == init + [last];
      hide *;
      ReadAllAt(normal, init, f);
      ReadAt(normal, ReadAll(normal, init), last, f);
      OneMore(normal, init, last, f);
    }
  }

  /** The two suggestions say the same of the field. */
  ghost predicate SameAt(s: Suggestions, t: Suggestions, f: Field) {
    && (f in s.reasons <==> f in t.reasons) && (f in s.reasons ==> s.reasons[f] == t.reasons[f])
    && (f in s.fields <==> f in t.fields) && (f in s.fields ==> s.fields[f] == t.fields[f])
    && (f in s.sources <==> f in t.sources) && (f in s.sources ==> s.sources[f] == t.sources[f])
  }

  /** What a field is decided to be on its own, without the other fields. */
  function DecidedAlone(fold: Folding, s: Suggestions, g: Gathered, mixed: bool, n: nat, f: Field): Suggestions {
    if f >= n || ItemsAt(g, f) == [] then s else Decide(fold, s, ItemsAt(g, f), mixed, f)
  }

  /** One more field is decided. */
  lemma DecideOneMore(fold: Folding, s: Suggestions, before: Suggestions, g: Gathered, mixed: bool, n: nat, f: Field)
    requires n < FIELD_COUNT && ItemsAt(g, n) != []
    requires SameAt(before, DecidedAlone(fold, s, g, mixed, n, f), f)
    ensures SameAt(Decide(fold, before, ItemsAt(g, n), mixed, n), DecidedAlone(fold, s, g, mixed, n + 1, f), f)
  {
    var items := ItemsAt(g, n);
    var t, expected := Decide(fold, before, items, mixed, n), DecidedAlone(fold, s, g, mixed, n, f);
    var j := Judge(fold, items, mixed, n in before.reasons);
    assert t == Record(before, items, n, j);
    if f == n {
      assert expected == s;
      assert n in before.reasons <==> n in s.reasons;
      assert DecidedAlone(fold, s, g, mixed, n + 1, f) == Record(s, items, n, j);
      hide *;
      RecordElsewhere(before, s, items, n, j, f);
    } else {
      assert DecidedAlone(fold, s, g, mixed, n + 1, f) == expected;
      hide *;
      RecordElsewhere(before, s, items, n, j, f);
      SameAtTransitive(t, before, expected, f);
    }
  }

  lemma {:induction false} DecideFieldsAt(fold: Folding, s: Suggestions, g: Gathered, mixed: bool, n: nat, f: Field)
    requires n <= FIELD_COUNT
    ensures SameAt(DecideFields(fold, s, g, mixed, n), DecidedAlone(fold, s, g, mixed, n, f), f)
  {
    hide Decide, ItemsAt;
    if n > 0 {
      DecideFieldsAt(fold, s, g, mixed, n - 1, f);
      if ItemsAt(g, n - 1) != [] {
        DecideOneMore(fold, s, DecideFields(fold, s, g, mixed, n - 1), g, mixed, n - 1, f);
      }
    }
  }

  lemma SameAtTransitive(s: Suggestions, t: Suggestions, u: Suggestions, f: Field)
    requires SameAt(s, t, f) && SameAt(t, u, f)
    ensures SameAt(s, u, f)
  {
  }

  /** A verdict on one field says nothing about the others, and depends on nothing
      said about them. */
  lemma RecordElsewhere(s: Suggestions, t: Suggestions, items: seq<Item>, f: Field, j: Judgement, other: Field)
    requires items != []
    ensures other != f ==> SameAt(Record(s, items, f, j), s, other)
    ensures SameAt(s, t, f) ==> SameAt(Record(s, items, f, j), Record(t, items, f, j), f)
  {
    hide FileNames;
  }

  lemma {:induction false} ListsAt(s: Suggestions, g: Gathered, n: nat, f: Field)
    requires n <= FIELD_COUNT
    ensures f in ImportedBelow(s, n) <==> f < n && f in s.fields
    ensures f in ReviewBelow(s, g, n) <==> f < n && Reviewed(s, g, f)
  {
    if n > 0 {
      ListsAt(s, g, n - 1, f);
    }
  }

  // ------------------------------------------------------------------
  // What is imported
  // ------------------------------------------------------------------

  /** Do the documents disagree about who the applicant is? */
  predicate IdentityUnclear(normal: Normalizer, fold: Folding, docs: seq<Document>) {
    !Agree(fold, ItemsOf(normal, docs, FULL_NAME)) || !Agree(fold, ItemsOf(normal, docs, DATE_OF_BIRTH))
  }

  function Find<V>(m: map<Field, V>, f: Field): Option<V> {
    if f in m then Some(m[f]) else None
  }

  /** What is decided for a field on its own. */
  lemma AloneSays(fold: Folding, g: Gathered, mixed: bool, f: Field)
    requires f < FIELD_COUNT
    ensures var t, items := DecidedAlone(fold, Undecided(g), g, mixed, FIELD_COUNT, f), ItemsAt(g, f);
      var j := Judge(fold, items, mixed, f in g.reasons);
      && Find(t.sources, f) == (if items == [] then None else Some(FileNames(items)))
      && Find(t.fields, f) == (if items != [] && j == Fill then Some(items[0].value) else None)
      && Find(t.reasons, f) == (if items != [] && j.Because? then Some(j.reason) else Find(g.reasons, f))
  {
    hide FileNames, Judge;
  }

  /** What the merged suggestions say of a field, from its own texts, what
      spoils it, and whether the applicant is unclear. */
  lemma MergedAt(normal: Normalizer, fold: Folding, docs: seq<Document>, f: Field)
    ensures var s := Merged(normal, fold, docs);
      var items := ItemsOf(normal, docs, f);
      var j := Judge(fold, items, IdentityUnclear(normal, fold, docs), Spoiled(normal, docs, f));
      && Find(s.sources, f) == (if items == [] then None else Some(FileNames(items)))
      && Find(s.fields, f) == (if items != [] && j == Fill then Some(items[0].value) else None)
      && Find(s.reasons, f) ==
           (if items != [] && j.Because? then Some(j.reason) else SpoiledBy(normal, docs, f))
  {
    var g, s := ReadAll(normal, docs), Merged(normal, fold, docs);
    var mixed := Disagree(fold, g);
    var d, t := DecideFields(fold, Undecided(g), g, mixed, FIELD_COUNT),
      DecidedAlone(fold, Undecided(g), g, mixed, FIELD_COUNT, f);
    assert s.sources == d.sources && s.fields == d.fields && s.reasons == d.reasons;
    assert mixed == IdentityUnclear(normal, fold, docs) by {
      ReadAllAt(normal, docs, FULL_NAME);
      ReadAllAt(normal, docs, DATE_OF_BIRTH);
    }
    assert Find(d.sources, f) == Find(t.sources, f) && Find(d.fields, f) == Find(t.fields, f)
      && Find(d.reasons, f) == Find(t.reasons, f) by {
      hide ReadAll, Disagree, DecidedAlone, DecideFields;
      DecideFieldsAt(fold, Undecided(g), g, mixed, FIELD_COUNT, f);
    }
    assert SpoiledBy(normal, docs, f) == Find(g.reasons, f) && (f in g.reasons <==> Spoiled(normal, docs, f))
      && ItemsAt(g, f) == ItemsOf(normal, docs, f) by {
      hide ReadAll, SpoiledBy, Spoiled, ItemsAt, ItemsOf;
      ReadAllAt(normal, docs, f);
    }
    hide *;
    AloneSays(fold, g, mixed, f);
  }

  lemma MergedLists(normal: Normalizer, fold: Folding, docs: seq<Document>, f: Field)
    ensures var s := Merged(normal, fold, docs);
      && (f in s.imported <==> f in s.fields)
      && (f in s.review <==> Mentioned(docs, f) && (f in s.reasons || f !in s.fields))
  {
    var g := ReadAll(normal, docs);
    var s := DecideFields(fold, Undecided(g), g, Disagree(fold, g), FIELD_COUNT);
    hide ReadAll, DecideFields, Disagree, Mentioned;
    ReadAllAt(normal, docs, f);
    ListsAt(s, g, FIELD_COUNT, f);
  }

  lemma {:induction false} SpoiledFor(normal: Normalizer, docs: seq<Document>, f: Field)
    ensures Spoiled(normal, docs, f) <==> SpoiledBy(normal, docs, f).Some?
  {
    hide ReadAll, Spoiled, SpoiledBy, Mentioned, ItemsOf;
    ReadAllAt(normal, docs, f);
  }

  /** Some two of the texts are not the same up to case. */
  predicate Differ(fold: Folding, items: seq<Item>) {
    exists x, y | x in items && y in items :: fold(x.value) != fold(y.value)
  }

  /** Some text has no usable confidence, or one below 85 per cent. */
  predicate Doubtful(items: seq<Item>) {
    exists item | item in items :: item.confidence.None? || item.confidence.value < 0.85
  }

  /** The documents differ about the name or the birth date of the applicant. */
  predicate TwoApplicants(normal: Normalizer, fold: Folding, docs: seq<Document>) {
    Differ(fold, ItemsOf(normal, docs, 0)) || Differ(fold, ItemsOf(normal, docs, 3))
  }

  lemma DifferExactly(fold: Folding, items: seq<Item>)
    ensures Agree(fold, items) <==> !Differ(fold, items)
    ensures Confident(items) <==> !Doubtful(items)
  {
    AgreeMembers(fold, items);
    hide Agree;
    if x, y :| x in items && y in items && fold(x.value) != fold(y.value) {
    }
  }

  lemma UnclearExactly(normal: Normalizer, fold: Folding, docs: seq<Document>)
    ensures IdentityUnclear(normal, fold, docs) <==> TwoApplicants(normal, fold, docs)
  {
    DifferExactly(fold, ItemsOf(normal, docs, FULL_NAME));
    DifferExactly(fold, ItemsOf(normal, docs, DATE_OF_BIRTH));
    hide Agree, Differ, ItemsOf, Confident, Doubtful;
  }

  /** A field is filled in exactly when some document has a usable text for it,
      all such texts agree up to case and are confident, no document spoils it,
      and nothing is unclear about who the applicant is. It then has the first
      such text. A field some document mentions is either filled in or left to
      review, never both; the others are neither. */
  lemma ImportedExactly(normal: Normalizer, fold: Folding, docs: seq<Document>, f: Field)
    ensures var s := Merged(normal, fold, docs);
      var items := ItemsOf(normal, docs, f);
      && (f in s.imported <==> f in s.fields)
      && (f in s.fields <==>
            && items != [] && !Differ(fold, items) && !Doubtful(items)
            && !TwoApplicants(normal, fold, docs)
            && !Spoiled(normal, docs, f))
      && (f in s.fields ==> s.fields[f] == items[0].value)
      && (f in s.review <==> Mentioned(docs, f) && f !in s.imported)
      && (f in s.imported ==> Mentioned(docs, f))
  {
    MergedLists(normal, fold, docs, f);
    DifferExactly(fold, ItemsOf(normal, docs, f));
    UnclearExactly(normal, fold, docs);
    hide Merged, IdentityUnclear, TwoApplicants, Spoiled, Agree, Differ, Confident, Doubtful, ItemsOf, Mentioned, SpoiledBy;
    MergedAt(normal, fold, docs, f);
    SpoiledFor(normal, docs, f);
    ItemsMentioned(normal, docs, f);
  }

  /** Why a field is left to review: first that the applicant is unclear, then
      that its texts disagree, then what the last document to spoil it did, then
      that a text is not confident. A field without a reason is filled in or has no
      text at all. */
  lemma ReasonsExactly(normal: Normalizer, fold: Folding, docs: seq<Document>, f: Field)
    ensures var s := Merged(normal, fold, docs);
      var items := ItemsOf(normal, docs, f);
      Find(s.reasons, f) ==
        if items != [] && TwoApplicants(normal, fold, docs) then Some(IdentityConflict)
        else if items != [] && Differ(fold, items) then Some(Conflict)
        else if Spoiled(normal, docs, f) then SpoiledBy(normal, docs, f)
        else if items != [] && Doubtful(items) then Some(LowConfidence)
        else None
  {
    DifferExactly(fold, ItemsOf(normal, docs, f));
    UnclearExactly(normal, fold, docs);
    hide Merged, IdentityUnclear, TwoApplicants, Spoiled, Agree, Differ, Confident, Doubtful, ItemsOf, SpoiledBy;
    MergedAt(normal, fold, docs, f);
    SpoiledFor(normal, docs, f);
  }

  /** Some item has the first name, and none up to there has the second. */
  ghost predicate NamedFirst(items: seq<Item>, first: Text, second: Text) {
    exists k | 0 <= k < |items| ::
      items[k].filename == first && forall j | 0 <= j <= k :: items[j].filename != second
  }

  lemma NamedStill(items: seq<Item>)
    requires items != []
    ensures forall x, y | NamedFirst(items[..|items| - 1], x, y) :: NamedFirst(items, x, y)
    ensures forall x, y | (exists item | item in items[..|items| - 1] :: item.filename == x)
      && (forall item | item in items[..|items| - 1] :: item.filename != y) :: NamedFirst(items, x, y)
  {
    var init := items[..|items| - 1];
    assert forall k | 0 <= k < |init| :: items[k] == init[k];
    forall x, y | NamedFirst(init, x, y) ensures NamedFirst(items, x, y) {
      var k :| 0 <= k < |init| && init[k].filename == x && forall j | 0 <= j <= k :: init[j].filename != y;
      assert items[k].filename == x && forall j | 0 <= j <= k :: items[j].filename != y;
    }
    forall x, y | (exists item | item in init :: item.filename == x) && (forall item | item in init :: item.filename != y)
      ensures NamedFirst(items, x, y)
    {
      var item :| item in init && item.filename == x;
      var k :| 0 <= k < |init| && init[k] == item;
      assert items[k].filename == x && forall j | 0 <= j <= k :: items[j] in init;
    }
  }

  lemma {:induction false} FileNamesOf(items: seq<Item>)
    ensures forall name :: name in FileNames(items) <==> exists item | item in items :: item.filename == name
    ensures forall i, j | 0 <= i < j < |FileNames(items)| :: FileNames(items)[i] != FileNames(items)[j]
    ensures forall i, j | 0 <= i < j < |FileNames(items)| :: NamedFirst(items, FileNames(items)[i], FileNames(items)[j])
  {
    if items != [] {
      var init, last := items[..|items| - 1], items[|items| - 1];
      var before := FileNames(init);
      FileNamesOf(init);
      NamedStill(items);
      assert items == init + [last];
      assert FileNames(items) == if last.filename in before then before else before + [last.filename];
      forall i, j | 0 <= i < j < |FileNames(items)| ensures NamedFirst(items, FileNames(items)[i], FileNames(items)[j]) {
        if j == |before| {
          assert before[i] in before;
        } else {
          assert NamedFirst(init, before[i], before[j]);
        }
      }
    }
  }

  /** The sources of a field are the documents with a usable text for it, each
      named once, in the order they are first named. */
  lemma SourcesExactly(normal: Normalizer, fold: Folding, docs: seq<Document>, f: Field)
    ensures var s := Merged(normal, fold, docs);
      && (f in s.sources <==> ItemsOf(normal, docs, f) != [])
      && (f in s.sources ==>
            && (forall name :: name in s.sources[f] <==>
                  exists item | item in ItemsOf(normal, docs, f) :: item.filename == name)
            && (forall i, j | 0 <= i < j < |s.sources[f]| :: s.sources[f][i] != s.sources[f][j])
            && (forall i, j | 0 <= i < j < |s.sources[f]| ::
                  NamedFirst(ItemsOf(normal, docs, f), s.sources[f][i], s.sources[f][j])))
  {
    hide Merged, IdentityUnclear, Spoiled, SpoiledBy, ItemsOf, Judge;
    MergedAt(normal, fold, docs, f);
    hide FileNames, NamedFirst;
    FileNamesOf(ItemsOf(normal, docs, f));
  }

  lemma {:induction false} ItemsMentioned(normal: Normalizer, docs: seq<Document>, f: Field)
    ensures ItemsOf(normal, docs, f) != [] ==> Mentioned(docs, f)
  {
    if docs != [] {
      var init, last := docs[..|docs| - 1], docs[|docs| - 1];
      ItemsMentioned(normal, init, f);
      assert docs == init + [last];
      if ItemOf(normal, last, f) != [] {
        assert last.rows[0] in last.rows && Mentions(last, f) && last in docs;
      }
    }
  }

  /** Nothing at all is filled in when the applicant is unclear. */
  lemma NothingMixed(normal: Normalizer, fold: Folding, docs: seq<Document>)
    requires TwoApplicants(normal, fold, docs)
    ensures var s := Merged(normal, fold, docs); s.fields == map[] && forall f: Field :: f !in s.imported
  {
    var s := Merged(normal, fold, docs);
    hide Merged;
    forall f: Field ensures f !in s.fields && f !in s.imported {
      ImportedExactly(normal, fold, docs, f);
    }
    assert s.fields.Keys == {};
  }

  lemma {:induction false} ListsOrdered(s: Suggestions, g: Gathered, n: nat)
    requires n <= FIELD_COUNT
    ensures forall i | 0 <= i < |ImportedBelow(s, n)| :: ImportedBelow(s, n)[i] < n
    ensures forall i, j | 0 <= i < j < |ImportedBelow(s, n)| :: ImportedBelow(s, n)[i] < ImportedBelow(s, n)[j]
    ensures forall i | 0 <= i < |ReviewBelow(s, g, n)| :: ReviewBelow(s, g, n)[i] < n
    ensures forall i, j | 0 <= i < j < |ReviewBelow(s, g, n)| :: ReviewBelow(s, g, n)[i] < ReviewBelow(s, g, n)[j]
  {
    if n > 0 {
      ListsOrdered(s, g, n - 1);
    }
  }

  /** The warnings of the documents, in order. */
  function WarningsOf(docs: seq<Document>): seq<Warning> {
    if docs == [] then []
    else
      var last := docs[|docs| - 1];
      WarningsOf(docs[..|docs| - 1])
      + (if |last.rows| == 0 then [NothingRead(last.filename)]
         else if |last.rows| == 1 then []
         else [SeveralApplicants(last.filename)])
  }

  lemma {:induction false} MarksKeepWarnings(g: Gathered, row: Applicant, n: nat)
    requires n <= FIELD_COUNT
    ensures MarkFields(g, row, n).warnings == g.warnings
  {
    if n > 0 {
      MarksKeepWarnings(g, row, n - 1);
    }
  }

  lemma {:induction false} RowsKeepWarnings(g: Gathered, rows: seq<Applicant>)
    ensures MarkRows(g, rows).warnings == g.warnings
  {
    if rows != [] {
      RowsKeepWarnings(g, rows[..|rows| - 1]);
      MarksKeepWarnings(MarkRows(g, rows[..|rows| - 1]), rows[|rows| - 1], FIELD_COUNT);
    }
  }

  lemma {:induction false} NotesKeepWarnings(normal: Normalizer, g: Gathered, row: Applicant, filename: Text, n: nat)
    requires n <= FIELD_COUNT
    ensures NoteFields(normal, g, row, filename, n).warnings == g.warnings
  {
    if n > 0 {
      NotesKeepWarnings(normal, g, row, filename, n - 1);
    }
  }

  lemma {:induction false} GatheredWarnings(normal: Normalizer, docs: seq<Document>)
    ensures ReadAll(normal, docs).warnings == WarningsOf(docs)
  {
    if docs != [] {
      var init, last := docs[..|docs| - 1], docs[|docs| - 1];
      var g := ReadAll(normal, init);
      GatheredWarnings(normal, init);
      RowsKeepWarnings(g.(warnings := g.warnings + [SeveralApplicants(last.filename)]), last.rows);
      if |last.rows| == 1 {
        NotesKeepWarnings(normal, g, last.rows[0], last.filename, FIELD_COUNT);
      }
    }
  }

  lemma {:induction false} DecisionsKeepWarnings(fold: Folding, s: Suggestions, g: Gathered, mixed: bool, n: nat)
    requires n <= FIELD_COUNT
    ensures DecideFields(fold, s, g, mixed, n).warnings == s.warnings
  {
    hide Judge, FileNames;
    if n > 0 {
      DecisionsKeepWarnings(fold, s, g, mixed, n - 1);
    }
  }

  /** The warnings are one for every document that is not about one applicant, in
      order, and at the end one that the documents are about different ones. The
      two lists of fields follow the order of the fields. */
  lemma WarningsExactly(normal: Normalizer, fold: Folding, docs: seq<Document>)
    ensures var s := Merged(normal, fold, docs);
      && s.warnings == WarningsOf(docs) + (if TwoApplicants(normal, fold, docs) then [ApplicantsDisagree] else [])
      && (forall i, j | 0 <= i < j < |s.imported| :: s.imported[i] < s.imported[j])
      && (forall i, j | 0 <= i < j < |s.review| :: s.review[i] < s.review[j])
  {
    var g := ReadAll(normal, docs);
    var mixed := Disagree(fold, g);
    assert mixed == IdentityUnclear(normal, fold, docs) by {
      ReadAllAt(normal, docs, FULL_NAME);
      ReadAllAt(normal, docs, DATE_OF_BIRTH);
    }
    UnclearExactly(normal, fold, docs);
    GatheredWarnings(normal, docs);
    DecisionsKeepWarnings(fold, Undecided(g), g, mixed, FIELD_COUNT);
    ListsOrdered(DecideFields(fold, Undecided(g), g, mixed, FIELD_COUNT), g, FIELD_COUNT);
    hide ReadAll, Disagree, DecideFields, ImportedBelow, ReviewBelow, IdentityUnclear, TwoApplicants, WarningsOf;
    var s := Merged(normal, fold, docs);
    assert WarningsOf(docs) + [] == WarningsOf(docs);
  }

  // ------------------------------------------------------------------
  // The order of the documents
  // ------------------------------------------------------------------

  lemma {:induction false} ItemsInvariant(normal: Normalizer, docs: seq<Document>, f: Field)
    ensures forall item :: item in ItemsOf(normal, docs, f) <==> exists d | d in docs :: item in ItemOf(normal, d, f)
  {
    if docs != [] {
      var init, last := docs[..|docs| - 1], docs[|docs| - 1];
      ItemsInvariant(normal, init, f);
      assert forall d :: d in docs <==> d in init || d == last by {
        assert docs == init + [last];
      }
    }
  }

  lemma SameItems(normal: Normalizer, fold: Folding, docs: seq<Document>, docs': seq<Document>, f: Field)
    requires forall d :: d in docs <==> d in docs'
    ensures var items, items' := ItemsOf(normal, docs, f), ItemsOf(normal, docs', f);
      && (forall item :: item in items <==> item in items')
      && Differ(fold, items) == Differ(fold, items') && Doubtful(items) == Doubtful(items')
      && (items == [] <==> items' == [])
  {
    var items, items' := ItemsOf(normal, docs, f), ItemsOf(normal, docs', f);
    ItemsInvariant(normal, docs, f);
    ItemsInvariant(normal, docs', f);
    hide ItemsOf, ItemOf;
    assert items != [] ==> items[0] in items;
    assert items' != [] ==> items'[0] in items';
  }

  lemma AgreeMembers(fold: Folding, items: seq<Item>)
    ensures Agree(fold, items) <==> forall x, y | x in items && y in items :: fold(x.value) == fold(y.value)
  {
    if forall x, y | x in items && y in items :: fold(x.value) == fold(y.value) {
      assert forall i | 0 <= i < |items| :: items[i] in items;
    }
  }

  /** Listing the documents in another order, or one of them repeatedly, changes
      neither which fields are filled in and which are left to review, nor, up to
      case, what they are filled in with. */
  lemma OrderIrrelevant(normal: Normalizer, fold: Folding, docs: seq<Document>, docs': seq<Document>, f: Field)
    requires forall d :: d in docs <==> d in docs'
    ensures var s, s' := Merged(normal, fold, docs), Merged(normal, fold, docs');
      && (f in s.imported <==> f in s'.imported)
      && (f in s.review <==> f in s'.review)
      && (f in s.fields <==> f in s'.fields)
      && (f in s.fields ==> fold(s.fields[f]) == fold(s'.fields[f]))
  {
    ImportedExactly(normal, fold, docs, f);
    ImportedExactly(normal, fold, docs', f);
    SameItems(normal, fold, docs, docs', f);
    SameItems(normal, fold, docs, docs', FULL_NAME);
    SameItems(normal, fold, docs, docs', DATE_OF_BIRTH);
    assert TwoApplicants(normal, fold, docs) == TwoApplicants(normal, fold, docs');
    assert Spoiled(normal, docs, f) == Spoiled(normal, docs', f) && Mentioned(docs, f) == Mentioned(docs', f);
    var items, items' := ItemsOf(normal, docs, f), ItemsOf(normal, docs', f);
    hide ItemsOf, Merged, TwoApplicants, Spoiled, Mentioned, Doubtful;
    if items != [] && !Differ(fold, items) {
      assert items'[0] in items && items[0] in items;
    }
  }
}
