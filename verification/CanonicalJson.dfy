/** The canonical JSON printer every content fingerprint is taken over
    (src/server.js:545).

  It sorts object keys, prints no white space and quotes strings the way the
  platform's JSON serialiser does. The main theorem says that it is unambiguous:
  two values print alike exactly when they are the same JSON value up to the
  order of object keys, at any nesting depth.
 */
module CanonicalJson {
  import opened Json
  import opened JsonReader
  import opened JsonStrings
  import opened KeyOrder

  // ------------------------------------------------------------------
  // Printing
  // ------------------------------------------------------------------

  function Print(v: Value): Text
    decreases v, 0
  {
    match v
    case Undefined => NULL_TEXT
    case Null => NULL_TEXT
    case Bool(b) => if b then TRUE_TEXT else FALSE_TEXT
    case NonFinite => NULL_TEXT
    case Number(token) => token
    case String(s) => Quote(s)
    case Array(items) => [OPEN_ARRAY] + Join(PrintAll(items)) + [CLOSE_ARRAY]
    case Object(members) => [OPEN_OBJECT] + Join(Labelled(Sort(PrintMembers(members)))) + [CLOSE_OBJECT]
  }

  function PrintAll(items: seq<Value>): (texts: seq<Text>)
    ensures |texts| == |items|
    decreases items
  {
    if items == [] then [] else [Print(items[0])] + PrintAll(items[1..])
  }

  function PrintMembers(members: seq<Entry<Value>>): (entries: seq<Entry<Text>>)
    ensures |entries| == |members|
    decreases members
  {
    if members == [] then []
    else [Entry(members[0].key, Print(members[0].value))] + PrintMembers(members[1..])
  }

  function Label(e: Entry<Text>): Text {
    Quote(e.key) + [COLON] + e.value
  }

  function Labelled(entries: seq<Entry<Text>>): (texts: seq<Text>)
    ensures |texts| == |entries|
  {
    if entries == [] then [] else [Label(entries[0])] + Labelled(entries[1..])
  }

  function Join(texts: seq<Text>): Text {
    if texts == [] then []
    else if |texts| == 1 then texts[0]
    else texts[0] + [COMMA] + Join(texts[1..])
  }

  // ------------------------------------------------------------------
  // The normal form
  // ------------------------------------------------------------------

  /** The normal form: members in key order, one word for null. */
  function Normal(v: Value): Value
    decreases v, 0
  {
    match v
    case Undefined => Null
    case NonFinite => Null
    case Array(items) => Array(NormalAll(items))
    case Object(members) => Object(Sort(NormalMembers(members)))
    case _ => v
  }

  function NormalAll(items: seq<Value>): (r: seq<Value>)
    ensures |r| == |items|
    ensures forall i | 0 <= i < |items| :: r[i] == Normal(items[i])
    decreases items
  {
    if items == [] then [] else [Normal(items[0])] + NormalAll(items[1..])
  }

  function NormalMembers(members: seq<Entry<Value>>): (r: seq<Entry<Value>>)
    ensures |r| == |members|
    ensures forall i | 0 <= i < |members| :: r[i] == Entry(members[i].key, Normal(members[i].value))
    decreases members
  {
    if members == [] then []
    else [Entry(members[0].key, Normal(members[0].value))] + NormalMembers(members[1..])
  }

  // ------------------------------------------------------------------
  // Printing a value and printing its normal form agree
  // ------------------------------------------------------------------

  lemma {:induction false} OrderedSorted<T>(es: seq<Entry<T>>)
    requires Ordered(es)
    ensures Sort(es) == es
  {
    if es != [] {
      OrderedSorted(es[1..]);
      assert |es| > 1 ==> Before(es[0].key, es[1].key);
      assert es == [es[0]] + es[1..];
    }
  }

  lemma {:induction false} InsertPrints(e: Entry<Value>, es: seq<Entry<Value>>)
    ensures PrintMembers(Insert(e, es)) == Insert(Entry(e.key, Print(e.value)), PrintMembers(es))
  {
    if es == [] || Before(e.key, es[0].key) {
      assert ([e] + es)[1..] == es;
    } else {
      InsertPrints(e, es[1..]);
      assert Insert(e, es)[1..] == Insert(e, es[1..]);
      assert PrintMembers(es)[1..] == PrintMembers(es[1..]);
    }
  }

  /** Sorting before printing and printing before sorting are the same. */
  lemma {:induction false} SortPrints(es: seq<Entry<Value>>)
    ensures PrintMembers(Sort(es)) == Sort(PrintMembers(es))
  {
    if es != [] {
      SortPrints(es[1..]);
      InsertPrints(es[0], Sort(es[1..]));
      assert PrintMembers(es)[1..] == PrintMembers(es[1..]);
    }
  }

  lemma {:induction false} SortIdempotent<T>(es: seq<Entry<T>>)
    requires DistinctKeys(es)
    ensures Sort(Sort(es)) == Sort(es)
  {
    SortOrdered(es);
    OrderedSorted(Sort(es));
  }

  lemma PrintMembersKeys(members: seq<Entry<Value>>)
    ensures forall i | 0 <= i < |members| :: PrintMembers(members)[i].key == members[i].key
  {
  }

  lemma {:induction false} NormalPrints(v: Value)
    requires Valid(v)
    ensures Print(Normal(v)) == Print(v)
    decreases v, 0
  {
    match v
    case Array(items) => NormalAllPrints(items);
    case Object(members) =>
      var ns := NormalMembers(members);
      NormalMembersPrint(members);
      SortPrints(ns);
      PrintMembersKeys(members);
      SortIdempotent(PrintMembers(members));
    case _ =>
  }

  lemma {:induction false} NormalAllPrints(items: seq<Value>)
    requires forall i | 0 <= i < |items| :: Valid(items[i])
    ensures PrintAll(NormalAll(items)) == PrintAll(items)
    decreases items
  {
    if items != [] {
      NormalPrints(items[0]);
      NormalAllPrints(items[1..]);
    }
  }

  lemma {:induction false} NormalMembersPrint(members: seq<Entry<Value>>)
    requires forall i | 0 <= i < |members| :: Valid(members[i].value)
    ensures PrintMembers(NormalMembers(members)) == PrintMembers(members)
    decreases members
  {
    if members != [] {
      NormalPrints(members[0].value);
      NormalMembersPrint(members[1..]);
    }
  }

  // ------------------------------------------------------------------
  // Reading the text back: normal forms are determined by what they print as
  // ------------------------------------------------------------------

  /** In normal form: no word for null but null, members in key order. */
  ghost predicate IsNormal(v: Value)
    decreases v
  {
    match v
    case Undefined => false
    case NonFinite => false
    case Number(token) => IsNumberToken(token)
    case Array(items) => forall i | 0 <= i < |items| :: IsNormal(items[i])
    case Object(members) => Ordered(members) && forall i | 0 <= i < |members| :: IsNormal(members[i].value)
    case _ => true
  }

  /** What can follow a value: nothing, a comma or a closing bracket. */
  predicate Delimited(x: Text) {
    x == [] || x[0] in {COMMA, CLOSE_ARRAY, CLOSE_OBJECT} || IsSpace(x[0])
  }

  /** A value begins neither with white space nor with what can follow one. */
  lemma PrintBegins(v: Value)
    requires IsNormal(v)
    ensures Print(v) != [] && !IsSpace(Print(v)[0]) && !Delimited(Print(v))
  {
    if v.Number? {
      NumberTokenUnits(v.token);
      hide IsNumberToken;
    }
  }

  lemma {:induction false} NumberRead(token: Text, x: Text)
    requires NumberUnits(token) && Delimited(x)
    ensures NumberLength(token + x) == |token|
  {
    if token == [] {
      assert token + x == x;
      if x != [] {
        var c := x[0];
        assert c in [44, 93, 125, 9, 10, 13, 32];
      }
    } else {
      assert (token + x)[1..] == token[1..] + x;
      NumberRead(token[1..], x);
    }
  }

  /** The items of a list up to its closing bracket and what follows it. */
  function ItemsTail(items: seq<Value>, x: Text): Text {
    Join(PrintAll(items)) + [CLOSE_ARRAY] + x
  }

  /** What follows the first item. */
  function AfterItem(items: seq<Value>, x: Text): (w: Text)
    requires items != []
    ensures Delimited(w)
  {
    if |items| == 1 then [CLOSE_ARRAY] + x else [COMMA] + ItemsTail(items[1..], x)
  }

  lemma JoinStep(texts: seq<Text>, close: Text)
    requires texts != []
    ensures Join(texts) + close
         == texts[0] + (if |texts| == 1 then close else [COMMA] + (Join(texts[1..]) + close))
  {
  }

  lemma ItemsTailStep(items: seq<Value>, x: Text)
    requires items != []
    ensures ItemsTail(items, x) == Print(items[0]) + AfterItem(items, x)
  {
    var texts := PrintAll(items);
    assert texts[1..] == PrintAll(items[1..]);
    JoinStep(texts, [CLOSE_ARRAY] + x);
    ItemsTailShape(items, x);
    if |items| > 1 {
      ItemsTailShape(items[1..], x);
    }
  }

  lemma ItemsTailShape(items: seq<Value>, x: Text)
    ensures ItemsTail(items, x) == Join(PrintAll(items)) + ([CLOSE_ARRAY] + x)
  {
  }

  function MembersTail(members: seq<Entry<Value>>, x: Text): Text {
    Join(Labelled(PrintMembers(members))) + [CLOSE_OBJECT] + x
  }

  function AfterMember(members: seq<Entry<Value>>, x: Text): (w: Text)
    requires members != []
    ensures Delimited(w)
  {
    if |members| == 1 then [CLOSE_OBJECT] + x else [COMMA] + MembersTail(members[1..], x)
  }

  lemma MembersTailStep(members: seq<Entry<Value>>, x: Text)
    requires members != []
    ensures MembersTail(members, x)
         == Quote(members[0].key) + ([COLON] + (Print(members[0].value) + AfterMember(members, x)))
  {
    var ps := PrintMembers(members);
    var texts := Labelled(ps);
    assert ps[1..] == PrintMembers(members[1..]);
    assert texts[1..] == Labelled(ps[1..]);
    JoinStep(texts, [CLOSE_OBJECT] + x);
    MembersTailShape(members, x);
    if |members| > 1 {
      MembersTailShape(members[1..], x);
    }
    assert MembersTail(members, x) == texts[0] + AfterMember(members, x);
    LabelShape(ps[0], AfterMember(members, x));
  }

  lemma MembersTailShape(members: seq<Entry<Value>>, x: Text)
    ensures MembersTail(members, x) == Join(Labelled(PrintMembers(members))) + ([CLOSE_OBJECT] + x)
  {
  }

  lemma LabelShape(e: Entry<Text>, w: Text)
    ensures Label(e) + w == Quote(e.key) + ([COLON] + (e.value + w))
  {
  }

  lemma PrintArray(items: seq<Value>, x: Text)
    ensures Print(Array(items)) + x == [OPEN_ARRAY] + ItemsTail(items, x)
  {
  }

  lemma PrintObject(members: seq<Entry<Value>>, x: Text)
    requires Ordered(members)
    ensures Print(Object(members)) + x == [OPEN_OBJECT] + MembersTail(members, x)
  {
    SortPrints(members);
    OrderedSorted(members);
  }

  lemma NoWord(s: Text)
    requires s != [] && (IsDigit(s[0]) || s[0] == 45)
    ensures !Starts(s, NULL_TEXT) && !Starts(s, TRUE_TEXT) && !Starts(s, FALSE_TEXT)
  {
    assert |s| >= 4 ==> s[..4][0] == s[0];
    assert |s| >= 5 ==> s[..5][0] == s[0];
  }

  lemma ReadNumber(token: Text, x: Text)
    requires IsNumberToken(token) && Delimited(x)
    ensures ReadValue(token + x) == Parsed(Number(token), x)
  {
    var s := token + x;
    NumberTokenUnits(token);
    NumberRead(token, x);
    assert s[0] == token[0] && SkipSpace(s) == s;
    NoWord(s);
    assert s[..|token|] == token && s[|token|..] == x;
    hide IsNumberToken, NumberUnits, NumberLength, SkipSpace, Starts, ReadString, ReadItems, ReadMembers;
    assert ReadValue(s) == Parsed(Number(s[..NumberLength(s)]), s[NumberLength(s)..]);
  }

  lemma ReadWord(v: Value, x: Text)
    requires v.Null? || v.Bool?
    ensures ReadValue(Print(v) + x) == Parsed(v, x)
  {
    var word, s := Print(v), Print(v) + x;
    assert s[..|word|] == word && s[|word|..] == x;
    assert s[0] == word[0] && SkipSpace(s) == s;
    hide SkipSpace, NumberLength;
  }

  /** What a normal value prints as reads back as that value, whatever delimited
      text follows. */
  lemma {:induction false} ReadPrinted(v: Value, x: Text)
    requires IsNormal(v) && Delimited(x)
    ensures ReadValue(Print(v) + x) == Parsed(v, x)
    decreases v, 0
  {
    var s := Print(v) + x;
    match v
    case String(text) =>
      assert s[0] == QUOTE && s[1..] == Escape(text) + [QUOTE] + x;
      ReadEscaped(text, x);
    case Array(items) =>
      PrintArray(items, x);
      assert s[0] == OPEN_ARRAY && s[1..] == ItemsTail(items, x);
      ReadArray(items, x);
    case Object(members) =>
      PrintObject(members, x);
      assert s[0] == OPEN_OBJECT && s[1..] == MembersTail(members, x);
      ReadObject(members, x);
    case Number(token) => ReadNumber(token, x);
    case _ => ReadWord(v, x);
  }

  /** The last item of a list, and one before others. */
  lemma ItemStep(s: Text, v: Value, w: Text, t: Text, items: seq<Value>, x: Text)
    requires ReadValue(s) == Parsed(v, w)
    ensures w == [CLOSE_ARRAY] + x ==> ReadItems(s) == Parsed([v], x)
    ensures w == [COMMA] + t && ReadItems(t) == Parsed(items, x) ==> ReadItems(s) == Parsed([v] + items, x)
  {
    assert w == [CLOSE_ARRAY] + x ==> SkipSpace(w) == w && w[1..] == x;
    assert w == [COMMA] + t ==> SkipSpace(w) == w && w[1..] == t;
  }

  lemma MemberStep(s: Text, e: Entry<Value>, w: Text, t: Text, members: seq<Entry<Value>>, x: Text)
    requires ReadMember(s) == Parsed(e, w)
    ensures w == [CLOSE_OBJECT] + x ==> ReadMembers(s) == Parsed([e], x)
    ensures w == [COMMA] + t && ReadMembers(t) == Parsed(members, x) ==> ReadMembers(s) == Parsed([e] + members, x)
  {
    assert w == [CLOSE_OBJECT] + x ==> SkipSpace(w) == w && w[1..] == x;
    assert w == [COMMA] + t ==> SkipSpace(w) == w && w[1..] == t;
  }

  /** What is left when nothing is. */
  lemma NothingMore(x: Text)
    ensures ItemsTail([], x) == [CLOSE_ARRAY] + x && ([CLOSE_ARRAY] + x)[1..] == x
    ensures MembersTail([], x) == [CLOSE_OBJECT] + x && ([CLOSE_OBJECT] + x)[1..] == x
    ensures SkipSpace([CLOSE_ARRAY] + x) == [CLOSE_ARRAY] + x
    ensures SkipSpace([CLOSE_OBJECT] + x) == [CLOSE_OBJECT] + x
  {
  }

  lemma AfterFirst(members: seq<Entry<Value>>, x: Text)
    requires members != []
    ensures AfterMember(members, x) ==
      if |members| == 1 then [CLOSE_OBJECT] + x else [COMMA] + MembersTail(members[1..], x)
    ensures MembersTail(members, x) != [] && MembersTail(members, x)[0] != CLOSE_OBJECT
    ensures SkipSpace(MembersTail(members, x)) == MembersTail(members, x)
  {
    MembersTailStep(members, x);
  }

  lemma ItemsBegin(items: seq<Value>, x: Text)
    requires items != [] && IsNormal(items[0])
    ensures var s, w := ItemsTail(items, x), AfterItem(items, x);
      && s == Print(items[0]) + w
      && SkipSpace(s) == s && s != [] && s[0] != CLOSE_ARRAY
      && w == if |items| == 1 then [CLOSE_ARRAY] + x else [COMMA] + ItemsTail(items[1..], x)
  {
    ItemsTailStep(items, x);
    PrintBegins(items[0]);
    hide Print, IsNormal;
    assert ItemsTail(items, x)[0] == Print(items[0])[0];
  }

  lemma {:induction false} ReadArray(items: seq<Value>, x: Text)
    requires forall i | 0 <= i < |items| :: IsNormal(items[i])
    ensures var s := ItemsTail(items, x);
      && SkipSpace(s) == s && s != []
      && (s[0] == CLOSE_ARRAY <==> items == [])
      && (items == [] ==> s[1..] == x)
      && (items != [] ==> ReadItems(s) == Parsed(items, x))
    decreases items, 1
  {
    hide *;
    if items == [] {
      NothingMore(x);
    } else {
      var w := AfterItem(items, x);
      ItemsBegin(items, x);
      ReadPrinted(items[0], w);
      ReadArray(items[1..], x);
      ItemStep(ItemsTail(items, x), items[0], w, ItemsTail(items[1..], x), items[1..], x);
      assert items == [items[0]] + items[1..];
      assert |items| == 1 ==> items == [items[0]];
    }
  }

  lemma {:induction false} ReadObject(members: seq<Entry<Value>>, x: Text)
    requires forall i | 0 <= i < |members| :: IsNormal(members[i].value)
    ensures var s := MembersTail(members, x);
      && SkipSpace(s) == s && s != []
      && (s[0] == CLOSE_OBJECT <==> members == [])
      && (members == [] ==> s[1..] == x)
      && (members != [] ==> ReadMembers(s) == Parsed(members, x))
    decreases members, 1
  {
    hide *;
    if members == [] {
      NothingMore(x);
    } else {
      var w := AfterMember(members, x);
      AfterFirst(members, x);
      ReadFirst(members, x);
      ReadObject(members[1..], x);
      MemberStep(MembersTail(members, x), members[0], w, MembersTail(members[1..], x), members[1..], x);
      assert members == [members[0]] + members[1..];
      assert |members| == 1 ==> members == [members[0]];
    }
  }

  lemma LabelRead(s: Text, key: Text, v: Value, u: Text, w: Text)
    requires s != [] && s[0] == QUOTE && ReadString(s[1..]) == Parsed(key, [COLON] + u)
    requires ReadValue(u) == Parsed(v, w)
    ensures ReadMember(s) == Parsed(Entry(key, v), w)
  {
    assert SkipSpace([COLON] + u) == [COLON] + u && ([COLON] + u)[1..] == u;
  }

  lemma {:induction false} ReadFirst(members: seq<Entry<Value>>, x: Text)
    requires members != [] && IsNormal(members[0].value)
    ensures var s := MembersTail(members, x);
      && s != [] && s[0] == QUOTE
      && ReadMember(s) == Parsed(members[0], AfterMember(members, x))
    decreases members, 0
  {
    var e, w := members[0], AfterMember(members, x);
    var s, u := MembersTail(members, x), Print(e.value) + w;
    MembersTailStep(members, x);
    assert s == Quote(e.key) + ([COLON] + u);
    assert s[0] == QUOTE && s[1..] == Escape(e.key) + [QUOTE] + ([COLON] + u);
    hide *;
    ReadEscaped(e.key, [COLON] + u);
    ReadPrinted(e.value, w);
    LabelRead(s, e.key, e.value, u, w);
  }

  // ------------------------------------------------------------------
  // The theorem
  // ------------------------------------------------------------------

  lemma {:induction false} NormalIsNormal(v: Value)
    requires Valid(v)
    ensures IsNormal(Normal(v))
    decreases v
  {
    match v
    case Array(items) =>
      forall i | 0 <= i < |items| ensures IsNormal(Normal(items[i])) {
        NormalIsNormal(items[i]);
      }
    case Object(members) =>
      var ns := NormalMembers(members);
      SortOrdered(ns);
      SortKeeps(ns);
      forall i | 0 <= i < |ns| ensures IsNormal(Sort(ns)[i].value) {
        assert Sort(ns)[i] in Sort(ns);
        var j :| 0 <= j < |ns| && ns[j] == Sort(ns)[i];
        NormalIsNormal(members[j].value);
      }
    case _ =>
  }

  /** Equal normal forms are exactly equality up to key order. */
  lemma {:induction false} NormalDecides(a: Value, b: Value)
    requires Valid(a) && Valid(b)
    ensures Normal(a) == Normal(b) <==> Same(a, b)
    decreases a, 1
  {
    if a.Array? && b.Array? {
      if |a.items| == |b.items| {
        forall i | 0 <= i < |a.items|
          ensures Normal(a.items[i]) == Normal(b.items[i]) <==> Same(a.items[i], b.items[i])
        {
          NormalDecides(a.items[i], b.items[i]);
        }
      }
      assert NormalAll(a.items) == NormalAll(b.items) <==> Same(a, b);
    } else if a.Object? && b.Object? {
      var p, q := NormalMembers(a.members), NormalMembers(b.members);
      if Sort(p) == Sort(q) {
        SortKeeps(p);
        SortKeeps(q);
        SameFromNormal(a, b);
      }
      if Same(a, b) {
        NormalFromSame(a, b);
      }
    }
  }

  lemma {:induction false} SameFromNormal(a: Value, b: Value)
    requires Valid(a) && Valid(b) && a.Object? && b.Object?
    requires |a.members| == |b.members|
    requires forall e :: e in NormalMembers(a.members) ==> e in NormalMembers(b.members)
    ensures Same(a, b)
    decreases a, 0
  {
    var p, q := NormalMembers(a.members), NormalMembers(b.members);
    forall i | 0 <= i < |a.members|
      ensures HasMember(b.members, a.members[i])
    {
      assert p[i] in p;
      assert p[i] in q;
      var j :| 0 <= j < |q| && q[j] == p[i];
      NormalDecides(a.members[i].value, b.members[j].value);
      assert a.members[i].key == b.members[j].key;
    }
  }

  ghost function ElementsOf<T>(es: seq<Entry<T>>): set<Entry<T>> {
    set e | e in es
  }

  lemma ElementsOfCons<T>(es: seq<Entry<T>>)
    requires es != [] && DistinctKeys(es)
    ensures ElementsOf(es) == {es[0]} + ElementsOf(es[1..]) && es[0] !in ElementsOf(es[1..])
  {
    assert es == [es[0]] + es[1..];
  }

  lemma {:induction false} DistinctCount<T>(es: seq<Entry<T>>)
    requires DistinctKeys(es)
    ensures |ElementsOf(es)| == |es|
  {
    if es == [] {
      assert ElementsOf(es) == {};
    } else {
      ElementsOfCons(es);
      assert DistinctKeys(es[1..]);
      hide *;
      DistinctCount(es[1..]);
    }
  }

  /** As many members, all of them found in the other list: the same members. */
  lemma CountedSubset<T>(p: seq<Entry<T>>, q: seq<Entry<T>>)
    requires DistinctKeys(p) && DistinctKeys(q) && |p| == |q|
    requires forall e | e in p :: e in q
    ensures forall e :: e in p <==> e in q
  {
    var P, Q := ElementsOf(p), ElementsOf(q);
    DistinctCount(p);
    DistinctCount(q);
    assert P <= Q;
    assert |Q - P| == |Q| - |P|;
    assert Q - P == {};
    forall e | e in q ensures e in p {
      assert e in Q;
    }
  }

  lemma {:induction false} NormalFromSame(a: Value, b: Value)
    requires Valid(a) && Valid(b) && a.Object? && b.Object?
    requires Same(a, b)
    ensures Normal(a) == Normal(b)
    decreases a, 0
  {
    var p, q := NormalMembers(a.members), NormalMembers(b.members);
    forall e | e in p ensures e in q {
      var i :| 0 <= i < |p| && p[i] == e;
      assert HasMember(b.members, a.members[i]);
      var j :| 0 <= j < |b.members|
        && a.members[i].key == b.members[j].key && Same(a.members[i].value, b.members[j].value);
      NormalDecides(a.members[i].value, b.members[j].value);
      assert q[j] == e;
    }
    CountedSubset(p, q);
    SortOrdered(p);
    SortOrdered(q);
    SortKeeps(p);
    SortKeeps(q);
    OrderedUnique(Sort(p), Sort(q));
  }

  /** The canonical text is a JSON text, and reading it gives the value back in
      normal form. */
  lemma RoundTrip(v: Value)
    requires Valid(v)
    ensures ReadText(Print(v)) == Parsed(Normal(v), [])
  {
    NormalPrints(v);
    NormalIsNormal(v);
    ReadPrinted(Normal(v), []);
    assert Print(Normal(v)) + [] == Print(Normal(v));
  }

  /** White space about the text makes no difference; a text with anything else
      behind it is not a JSON text. */
  lemma SurroundedExactly(before: Text, v: Value, after: Text)
    requires Valid(v) && White(before) && Delimited(after)
    ensures ReadText(before + Print(v) + after) == if White(after) then Parsed(Normal(v), []) else Failed
  {
    hide *;
    NormalPrints(v);
    NormalIsNormal(v);
    ReadPrinted(Normal(v), after);
    assert before + Print(v) + after == before + (Print(v) + after);
    TextInWhite(before, Print(v) + after);
  }

  /** The canonical text is unambiguous: two values print alike if and only if
      they are the same JSON value up to the order of object keys. */
  lemma PrintDecides(a: Value, b: Value)
    requires Valid(a) && Valid(b)
    ensures Print(a) == Print(b) <==> Same(a, b)
  {
    RoundTrip(a);
    RoundTrip(b);
    NormalDecides(a, b);
    NormalPrints(a);
    NormalPrints(b);
  }
}
