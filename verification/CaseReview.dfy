/** The identity of a finding of the deterministic case review
    (src/server.js:333-338). Its reconciliation with the stored findings is in
    CaseFindings. */
module CaseReview {
  import opened CanonicalJson
  import opened Json
  import opened KeyOrder
  import opened Options

  // ------------------------------------------------------------------
  // The identity of a finding
  // ------------------------------------------------------------------

  datatype Finding = Finding(
    formInstance: Option<Text>,
    category: Text,
    fieldPath: Option<Text>,
    engine: Option<Text>,
    ruleId: Option<Text>,
    sourceReferences: seq<Text>)

  const CROSS_FORM_CONFLICT: Text := Ascii("CROSS_FORM_CONFLICT")

  /** Absent and empty texts are null. */
  function OrNull(t: Option<Text>): Value {
    if t.None? || t.value == [] then Null else String(t.value)
  }

  function EngineOf(f: Finding): Text {
    if f.engine.None? || f.engine.value == [] then Ascii("form_readiness") else f.engine.value
  }

  function References(refs: seq<Text>): (es: seq<Entry<()>>)
    ensures |es| == |refs|
  {
    if refs == [] then [] else [Entry(refs[0], ())] + References(refs[1..])
  }

  function Keys(es: seq<Entry<()>>): (ts: seq<Text>)
    ensures |ts| == |es|
  {
    if es == [] then [] else [es[0].key] + Keys(es[1..])
  }

  /** The references that belong to a finding's identity, in key order. */
  function IdentityReferences(f: Finding): seq<Text> {
    if f.category == CROSS_FORM_CONFLICT then Keys(Sort(References(f.sourceReferences))) else []
  }

  function Strings(ts: seq<Text>): (vs: seq<Value>)
    ensures |vs| == |ts|
    ensures forall i | 0 <= i < |ts| :: vs[i] == String(ts[i])
  {
    if ts == [] then [] else [String(ts[0])] + Strings(ts[1..])
  }

  const SEMANTIC_KEYS: seq<Text> := [
    Ascii("form_instance_id"), Ascii("category"), Ascii("field_path"),
    Ascii("engine"), Ascii("rule_id"), Ascii("source_references")
  ]

  function Labelling(keys: seq<Text>, values: seq<Value>): (es: seq<Entry<Value>>)
    requires |keys| == |values|
    ensures |es| == |keys|
    ensures forall i | 0 <= i < |keys| :: es[i] == Entry(keys[i], values[i])
  {
    if keys == [] then [] else [Entry(keys[0], values[0])] + Labelling(keys[1..], values[1..])
  }

  function SemanticValues(f: Finding): (values: seq<Value>)
    ensures |values| == 6
  {
    [OrNull(f.formInstance), String(f.category), OrNull(f.fieldPath), String(EngineOf(f)),
     OrNull(f.ruleId), Array(Strings(IdentityReferences(f)))]
  }

  /** What a finding's key is taken over. */
  function Semantic(f: Finding): Value {
    Object(Labelling(SEMANTIC_KEYS, SemanticValues(f)))
  }

  /** The same check on the same field of the same form. */
  ghost predicate SameIdentity(f: Finding, g: Finding) {
    && OrNull(f.formInstance) == OrNull(g.formInstance)
    && f.category == g.category
    && OrNull(f.fieldPath) == OrNull(g.fieldPath)
    && EngineOf(f) == EngineOf(g)
    && OrNull(f.ruleId) == OrNull(g.ruleId)
    && IdentityReferences(f) == IdentityReferences(g)
  }

  function DeterministicKey(digest: Text -> Text, f: Finding): Text {
    digest(Print(Semantic(f)))
  }

  lemma SemanticKeysDistinct()
    ensures forall i, j | 0 <= i < j < 6 :: SEMANTIC_KEYS[i] != SEMANTIC_KEYS[j]
  {
    assert SEMANTIC_KEYS[0][0] == 102 && SEMANTIC_KEYS[0][1] == 111;
    assert SEMANTIC_KEYS[1][0] == 99;
    assert SEMANTIC_KEYS[2][0] == 102 && SEMANTIC_KEYS[2][1] == 105;
    assert SEMANTIC_KEYS[3][0] == 101;
    assert SEMANTIC_KEYS[4][0] == 114;
    assert SEMANTIC_KEYS[5][0] == 115;
  }

  lemma SemanticValid(f: Finding)
    ensures Valid(Semantic(f))
  {
    SemanticKeysDistinct();
    var values := SemanticValues(f);
    assert forall i | 0 <= i < 6 :: Valid(values[i]);
  }

  lemma SameStrings(s: seq<Text>, t: seq<Text>)
    ensures Same(Array(Strings(s)), Array(Strings(t))) <==> s == t
  {
    if Same(Array(Strings(s)), Array(Strings(t))) {
      forall i | 0 <= i < |s| ensures s[i] == t[i] {
        assert Same(Strings(s)[i], Strings(t)[i]);
      }
    }
  }

  lemma SameValues(keys: seq<Text>, v: seq<Value>, w: seq<Value>)
    requires |keys| == |v| == |w|
    requires forall i, j | 0 <= i < j < |keys| :: keys[i] != keys[j]
    requires Same(Object(Labelling(keys, v)), Object(Labelling(keys, w)))
    ensures forall i | 0 <= i < |v| :: Same(v[i], w[i])
  {
    var x, y := Object(Labelling(keys, v)), Object(Labelling(keys, w));
    forall i | 0 <= i < |v| ensures Same(v[i], w[i]) {
      var j := MemberFound(x, y, i);
      hide *;
      assert keys[i] == keys[j];
    }
  }

  lemma MemberFound(x: Value, y: Value, i: nat) returns (j: nat)
    requires x.Object? && y.Object? && Same(x, y) && i < |x.members|
    ensures j < |y.members| && x.members[i].key == y.members[j].key && Same(x.members[i].value, y.members[j].value)
  {
    assert HasMember(y.members, x.members[i]);
    j :| 0 <= j < |y.members| && x.members[i].key == y.members[j].key && Same(x.members[i].value, y.members[j].value);
  }

  lemma {:induction false} SameByPlace(x: Value, y: Value)
    requires x.Object? && y.Object? && |x.members| == |y.members|
    requires forall i | 0 <= i < |x.members| ::
      x.members[i].key == y.members[i].key && Same(x.members[i].value, y.members[i].value)
    ensures Same(x, y)
  {
    forall i | 0 <= i < |x.members| ensures HasMember(y.members, x.members[i]) {
      assert x.members[i].key == y.members[i].key;
    }
  }

  /** Objects with the same keys in the same places compare value by value. */
  lemma {:induction false} SameShape(keys: seq<Text>, v: seq<Value>, w: seq<Value>)
    requires |keys| == |v| == |w|
    requires forall i, j | 0 <= i < j < |keys| :: keys[i] != keys[j]
    ensures Same(Object(Labelling(keys, v)), Object(Labelling(keys, w))) <==> forall i | 0 <= i < |v| :: Same(v[i], w[i])
  {
    var a, b := Labelling(keys, v), Labelling(keys, w);
    assert forall i | 0 <= i < |keys| :: a[i] == Entry(keys[i], v[i]) && b[i] == Entry(keys[i], w[i]);
    hide *;
    if Same(Object(a), Object(b)) {
      SameValues(keys, v, w);
    }
    if forall i | 0 <= i < |v| :: Same(v[i], w[i]) {
      SameByPlace(Object(a), Object(b));
    }
  }

  lemma SameOrNull(x: Option<Text>, y: Option<Text>)
    ensures Same(OrNull(x), OrNull(y)) <==> OrNull(x) == OrNull(y)
  {
  }

  lemma SixSame(v: seq<Value>, w: seq<Value>)
    requires |v| == |w| == 6
    ensures (forall i | 0 <= i < |v| :: Same(v[i], w[i])) <==>
      && Same(v[0], w[0]) && Same(v[1], w[1]) && Same(v[2], w[2])
      && Same(v[3], w[3]) && Same(v[4], w[4]) && Same(v[5], w[5])
  {
  }

  lemma SameTexts(s: Text, t: Text)
    ensures Same(String(s), String(t)) <==> s == t
  {
  }

  lemma SameSemantic(f: Finding, g: Finding)
    ensures Same(Semantic(f), Semantic(g)) <==> SameIdentity(f, g)
  {
    SemanticKeysDistinct();
    SameShape(SEMANTIC_KEYS, SemanticValues(f), SemanticValues(g));
    SameSemanticValues(f, g);
  }

  lemma SameSemanticValues(f: Finding, g: Finding)
    ensures (forall i | 0 <= i < 6 :: Same(SemanticValues(f)[i], SemanticValues(g)[i])) <==> SameIdentity(f, g)
  {
    SixSame(SemanticValues(f), SemanticValues(g));
    SameOrNull(f.formInstance, g.formInstance);
    SameTexts(f.category, g.category);
    SameOrNull(f.fieldPath, g.fieldPath);
    SameTexts(EngineOf(f), EngineOf(g));
    SameOrNull(f.ruleId, g.ruleId);
    SameStrings(IdentityReferences(f), IdentityReferences(g));
  }

  // ------------------------------------------------------------------
  // The identity, said of the finding's own fields
  // ------------------------------------------------------------------

  predicate Blank(t: Option<Text>) {
    t.None? || t.value == []
  }

  /** Equal, or absent or empty on both sides. */
  predicate Alike(x: Option<Text>, y: Option<Text>) {
    x == y || (Blank(x) && Blank(y))
  }

  /** An engine that is not named is the form readiness check. */
  predicate SameEngine(x: Option<Text>, y: Option<Text>) {
    var readiness := Some(Ascii("form_readiness"));
    Alike(x, y) || (Blank(x) && y == readiness) || (Blank(y) && x == readiness)
  }

  /** The same check of the same field of the same form; for a conflict between
      forms, with the same sources in any order. */
  predicate SameCheck(f: Finding, g: Finding) {
    && Alike(f.formInstance, g.formInstance) && f.category == g.category && Alike(f.fieldPath, g.fieldPath)
    && SameEngine(f.engine, g.engine) && Alike(f.ruleId, g.ruleId)
    && (f.category == Ascii("CROSS_FORM_CONFLICT") ==> multiset(f.sourceReferences) == multiset(g.sourceReferences))
  }

  ghost predicate NotFalling(es: seq<Entry<()>>) {
    forall i, j | 0 <= i < j < |es| :: !Before(es[j].key, es[i].key)
  }

  lemma {:induction false} InsertNotFalling(e: Entry<()>, es: seq<Entry<()>>)
    requires NotFalling(es)
    ensures NotFalling(Insert(e, es)) && multiset(Insert(e, es)) == multiset(es) + multiset{e}
  {
    if es == [] {
    } else if Before(e.key, es[0].key) {
      forall j | 0 <= j < |es| ensures !Before(es[j].key, e.key) {
        if Before(es[j].key, e.key) {
          BeforeTransitive(es[j].key, e.key, es[0].key);
          if j == 0 { BeforeIrreflexive(es[0].key); }
        }
      }
    } else {
      var r := Insert(e, es[1..]);
      InsertNotFalling(e, es[1..]);
      InsertKeeps(e, es[1..]);
      assert es == [es[0]] + es[1..];
      forall j | 0 <= j < |r| ensures !Before(r[j].key, es[0].key) {
        if r[j] != e {
          var i :| 0 <= i < |es[1..]| && es[1..][i] == r[j];
          assert es[i + 1] == r[j];
        }
      }
    }
  }

  lemma {:induction false} SortNotFalling(es: seq<Entry<()>>)
    ensures NotFalling(Sort(es)) && multiset(Sort(es)) == multiset(es)
  {
    if es != [] {
      SortNotFalling(es[1..]);
      InsertNotFalling(es[0], Sort(es[1..]));
      assert es == [es[0]] + es[1..];
    }
  }

  lemma SameHead(a: seq<Entry<()>>, b: seq<Entry<()>>)
    requires NotFalling(a) && NotFalling(b) && multiset(a) == multiset(b) && a != [] && b != []
    ensures a[0] == b[0]
  {
    assert a[0] in multiset(b) && b[0] in multiset(a);
    var i :| 0 <= i < |b| && b[i] == a[0];
    var j :| 0 <= j < |a| && a[j] == b[0];
    BeforeTotal(a[0].key, b[0].key);
    assert a[0].value == b[0].value;
  }

  lemma TailsCounted(a: seq<Entry<()>>)
    requires a != [] && NotFalling(a)
    ensures NotFalling(a[1..]) && multiset(a[1..]) == multiset(a) - multiset{a[0]} && a == [a[0]] + a[1..]
  {
    assert a == [a[0]] + a[1..];
    hide Before;
  }

  lemma {:induction false} OneOrder(a: seq<Entry<()>>, b: seq<Entry<()>>)
    requires NotFalling(a) && NotFalling(b) && multiset(a) == multiset(b)
    ensures a == b
  {
    if a == [] {
      assert |multiset(b)| == 0;
    } else {
      assert |multiset(a)| == |multiset(b)|;
      SameHead(a, b);
      TailsCounted(a);
      TailsCounted(b);
      hide NotFalling;
      OneOrder(a[1..], b[1..]);
    }
  }

  lemma {:induction false} ReferencesCounted(s: seq<Text>, x: Text)
    ensures multiset(References(s))[Entry(x, ())] == multiset(s)[x]
  {
    if s != [] {
      ReferencesCounted(s[1..], x);
      assert s == [s[0]] + s[1..];
      assert References(s) == [Entry(s[0], ())] + References(s[1..]);
    }
  }

  lemma SameReferences(s: seq<Text>, t: seq<Text>)
    ensures multiset(References(s)) == multiset(References(t)) <==> multiset(s) == multiset(t)
  {
    var m, n := multiset(References(s)), multiset(References(t));
    var p, q := multiset(s), multiset(t);
    forall x ensures m[Entry(x, ())] == p[x] && n[Entry(x, ())] == q[x] {
      ReferencesCounted(s, x);
      ReferencesCounted(t, x);
    }
    hide *;
    if m == n {
      SameCounts(p, q, m);
    }
    if p == q {
      forall e: Entry<()> ensures m[e] == n[e] {
        assert e.value == () && e == Entry(e.key, ());
      }
    }
  }

  lemma SameCounts(p: multiset<Text>, q: multiset<Text>, m: multiset<Entry<()>>)
    requires forall x :: m[Entry(x, ())] == p[x] && m[Entry(x, ())] == q[x]
    ensures p == q
  {
    forall x ensures p[x] == q[x] {
      assert m[Entry(x, ())] == p[x];
    }
  }

  lemma {:induction false} KeysDetermine(a: seq<Entry<()>>, b: seq<Entry<()>>)
    requires Keys(a) == Keys(b)
    ensures a == b
  {
    assert |a| == |b|;
    if a != [] {
      assert Keys(a)[0] == a[0].key && Keys(b)[0] == b[0].key;
      assert Keys(a)[1..] == Keys(a[1..]) && Keys(b)[1..] == Keys(b[1..]);
      KeysDetermine(a[1..], b[1..]);
      assert a[0].value == b[0].value;
      assert a == [a[0]] + a[1..] && b == [b[0]] + b[1..];
    }
  }

  /** Sorted, two lists of sources are equal exactly when they list the same
      sources as often. */
  lemma SortedAlike(s: seq<Text>, t: seq<Text>)
    ensures Keys(Sort(References(s))) == Keys(Sort(References(t))) <==> multiset(s) == multiset(t)
  {
    SortNotFalling(References(s));
    SortNotFalling(References(t));
    SameReferences(s, t);
    if multiset(s) == multiset(t) {
      OneOrder(Sort(References(s)), Sort(References(t)));
    }
    if Keys(Sort(References(s))) == Keys(Sort(References(t))) {
      KeysDetermine(Sort(References(s)), Sort(References(t)));
    }
  }

  lemma IdentityIsCheck(f: Finding, g: Finding)
    ensures SameIdentity(f, g) <==> SameCheck(f, g)
  {
    SortedAlike(f.sourceReferences, g.sourceReferences);
    hide Ascii, Keys, Sort, References;
    assert OrNull(f.formInstance) == OrNull(g.formInstance) <==> Alike(f.formInstance, g.formInstance);
    assert OrNull(f.fieldPath) == OrNull(g.fieldPath) <==> Alike(f.fieldPath, g.fieldPath);
    assert OrNull(f.ruleId) == OrNull(g.ruleId) <==> Alike(f.ruleId, g.ruleId);
    ReadinessNamed();
    assert EngineOf(f) == EngineOf(g) <==> SameEngine(f.engine, g.engine);
  }

  lemma ReadinessNamed()
    ensures Ascii("form_readiness") != []
  {
  }

  /** Two findings share a key exactly when they are the same check of the same
      field of the same form: neither the severity, nor the wording, nor the order
      in which a conflict lists its sources, takes part. The digest is taken to be
      injective. */
  lemma KeyIsIdentity(digest: Text -> Text, f: Finding, g: Finding)
    requires forall s, t | digest(s) == digest(t) :: s == t
    ensures DeterministicKey(digest, f) == DeterministicKey(digest, g) <==> SameCheck(f, g)
  {
    SemanticValid(f);
    SemanticValid(g);
    PrintDecides(Semantic(f), Semantic(g));
    SameSemantic(f, g);
    IdentityIsCheck(f, g);
  }

  lemma ConflictOrderIrrelevant(digest: Text -> Text, f: Finding, a: Text, b: Text)
    requires f.category == CROSS_FORM_CONFLICT
    ensures DeterministicKey(digest, f.(sourceReferences := [a, b]))
         == DeterministicKey(digest, f.(sourceReferences := [b, a]))
  {
    BeforeTotal(a, b);
    if Before(a, b) && Before(b, a) {
      BeforeTransitive(a, b, a);
      BeforeIrreflexive(a);
    }
    TwoReferences(a, b);
    TwoReferences(b, a);
  }

  lemma TwoReferences(a: Text, b: Text)
    ensures Sort(References([a, b])) == if Before(a, b) then [Entry(a, ()), Entry(b, ())] else [Entry(b, ()), Entry(a, ())]
  {
    var x, y := Entry(a, ()), Entry(b, ());
    assert [b][1..] == [] && [a, b][1..] == [b];
    assert References([b]) == [y] && References([a, b]) == [x] + [y];
    assert [y][1..] == [] && ([x] + [y])[1..] == [y];
    assert Sort([y]) == Insert(y, Sort([])) == [y];
    assert Sort([x] + [y]) == Insert(x, [y]);
    assert Insert(x, []) == [x];
    assert Insert(x, [y]) == if Before(a, b) then [x] + [y] else [y] + [x];
  }
}
