/** JSON values as programs hold them, and when two of them are the same value
    (sections 2 to 7 of RFC 8259). Text is a sequence of UTF-16 code units. */
module Json {

  type Unit = c: int | 0 <= c < 0x10000

  type Text = seq<Unit>

  datatype Entry<T> = Entry(key: Text, value: T)

  /** A number is represented by the decimal text it prints as. `Undefined` and
      `NonFinite` (NaN and the infinities) are values the printer is handed but
      that JSON has no word for; both print as null. */
  datatype Value =
    | Undefined
    | Null
    | Bool(b: bool)
    | NonFinite
    | Number(token: Text)
    | String(s: Text)
    | Array(items: seq<Value>)
    | Object(members: seq<Entry<Value>>)

  /** The units of an ASCII text. */
  function Ascii(s: string): (t: Text)
    ensures |t| == |s|
    ensures forall i | 0 <= i < |s| && s[i] < 128 as char :: t[i] == s[i] as int
  {
    seq(|s|, i requires 0 <= i < |s| => s[i] as int % 0x10000)
  }

  ghost predicate DistinctKeys<T>(es: seq<Entry<T>>) {
    forall i, j | 0 <= i < j < |es| :: es[i].key != es[j].key
  }

  predicate IsDigit(c: Unit) { 48 <= c <= 57 }

  predicate IsNumberUnit(c: Unit) {
    IsDigit(c) || c in {43, 45, 46, 69, 101}
  }

  /** How many digits a text begins with. */
  function DigitRun(t: Text): (n: nat)
    ensures n <= |t|
  {
    if t != [] && IsDigit(t[0]) then 1 + DigitRun(t[1..]) else 0
  }

  /** Nothing, or an exponent. */
  predicate IsExponent(t: Text) {
    t == [] ||
    (&& t[0] in {69, 101}
     && var u := if |t| > 1 && t[1] in {43, 45} then t[2..] else t[1..];
        u != [] && DigitRun(u) == |u|)
  }

  /** A fraction and an exponent, either of which may be absent. */
  predicate IsFraction(t: Text) {
    if t != [] && t[0] == 46 then DigitRun(t[1..]) > 0 && IsExponent(t[1..][DigitRun(t[1..])..]) else IsExponent(t)
  }

  /** A number by the grammar of section 6 of RFC 8259. */
  predicate IsNumberToken(t: Text) {
    var u := if t != [] && t[0] == 45 then t[1..] else t;
    && u != [] && IsDigit(u[0])
    && IsFraction(if u[0] == 48 then u[1..] else u[DigitRun(u)..])
  }

  predicate AllDigits(t: Text) {
    forall i | 0 <= i < |t| :: 48 <= t[i] <= 57
  }

  /** Digits, no leading zero but the number zero itself. */
  predicate WholeForm(t: Text) {
    t != [] && AllDigits(t) && (t[0] == 48 ==> |t| == 1)
  }

  /** A point and digits, or nothing. */
  predicate FractionForm(t: Text) {
    t == [] || (t[0] == 46 && |t| > 1 && AllDigits(t[1..]))
  }

  /** The letter e of either case, perhaps a sign, and digits; or nothing. */
  predicate ExponentForm(t: Text) {
    t == []
    || (&& t[0] in [69, 101] && |t| > 1
        && (AllDigits(t[1..]) || (t[1] in [43, 45] && |t| > 2 && AllDigits(t[2..]))))
  }

  /** A number in its parts, the first of which is a minus sign or nothing. */
  predicate NumberForm(t: Text, minus: Text, whole: Text, fraction: Text, exponent: Text) {
    && t == minus + whole + fraction + exponent && minus in [[], [45]]
    && WholeForm(whole) && FractionForm(fraction) && ExponentForm(exponent)
  }

  lemma {:induction false} RunDigits(t: Text)
    ensures var n := DigitRun(t); AllDigits(t[..n]) && (n < |t| ==> !IsDigit(t[n]))
  {
    if t != [] && IsDigit(t[0]) {
      RunDigits(t[1..]);
      assert t == [t[0]] + t[1..];
    }
  }

  lemma {:induction false} RunOf(d: Text, rest: Text)
    requires AllDigits(d) && (rest != [] ==> !IsDigit(rest[0]))
    ensures DigitRun(d + rest) == |d| && (d + rest)[|d|..] == rest
  {
    if d == [] {
      assert d + rest == rest;
    } else {
      RunOf(d[1..], rest);
      assert (d + rest)[1..] == d[1..] + rest;
    }
  }

  lemma RunWhole(t: Text)
    ensures DigitRun(t) == |t| <==> AllDigits(t)
  {
    RunDigits(t);
    if AllDigits(t) {
      RunOf(t, []);
      assert t + [] == t;
    } else {
      assert t[..|t|] == t;
    }
  }

  lemma ExponentExactly(t: Text)
    ensures IsExponent(t) <==> ExponentForm(t)
  {
    if |t| > 1 {
      RunWhole(t[1..]);
      RunWhole(t[2..]);
      hide DigitRun;
      assert t[1] in [43, 45] ==> !IsDigit(t[1..][0]);
    }
  }

  predicate FractionSplit(t: Text, f: Text, e: Text) {
    t == f + e && FractionForm(f) && ExponentForm(e)
  }

  lemma SplitFraction(t: Text) returns (f: Text, e: Text)
    requires IsFraction(t)
    ensures FractionSplit(t, f, e)
  {
    if t != [] && t[0] == 46 {
      var n := DigitRun(t[1..]);
      RunDigits(t[1..]);
      f, e := t[..n + 1], t[n + 1..];
      assert f[1..] == t[1..][..n] && e == t[1..][n..];
    } else {
      f, e := [], t;
    }
    ExponentExactly(e);
  }

  lemma JoinFraction(t: Text, f: Text, e: Text)
    requires FractionSplit(t, f, e)
    ensures IsFraction(t)
  {
    ExponentExactly(e);
    if f == [] {
      assert t == e;
    } else {
      assert t[1..] == f[1..] + e;
      RunOf(f[1..], e);
    }
  }

  predicate WholeSplit(t: Text, w: Text, f: Text, e: Text) {
    t == w + f + e && WholeForm(w) && FractionForm(f) && ExponentForm(e)
  }

  lemma SplitWhole(t: Text) returns (w: Text, f: Text, e: Text)
    requires t != [] && IsDigit(t[0]) && IsFraction(if t[0] == 48 then t[1..] else t[DigitRun(t)..])
    ensures WholeSplit(t, w, f, e)
  {
    var n := if t[0] == 48 then 1 else DigitRun(t);
    w := t[..n];
    assert WholeForm(w) by { RunDigits(t); }
    var rest := t[n..];
    assert IsFraction(rest) && t == w + rest;
    hide *;
    f, e := SplitFraction(rest);
    WholeAndFraction(t, w, rest, f, e);
  }

  lemma WholeAndFraction(t: Text, w: Text, rest: Text, f: Text, e: Text)
    requires t == w + rest && WholeForm(w) && FractionSplit(rest, f, e)
    ensures WholeSplit(t, w, f, e)
  {
    hide WholeForm, FractionForm, ExponentForm;
  }

  lemma JoinWhole(t: Text, w: Text, f: Text, e: Text)
    requires WholeSplit(t, w, f, e)
    ensures t != [] && IsDigit(t[0]) && IsFraction(if t[0] == 48 then t[1..] else t[DigitRun(t)..])
  {
    assert t == w + (f + e) && t[0] == w[0];
    assert FractionSplit(f + e, f, e);
    JoinFraction(f + e, f, e);
    if w[0] != 48 {
      RunOf(w, f + e);
    }
    assert t[|w|..] == f + e;
  }

  lemma NumberParts(t: Text) returns (m: Text, w: Text, f: Text, e: Text)
    requires IsNumberToken(t)
    ensures NumberForm(t, m, w, f, e)
  {
    var u: Text;
    if t[0] == 45 {
      m, u := [45], t[1..];
    } else {
      m, u := [], t;
    }
    w, f, e := SplitWhole(u);
    assert t == m + u;
    hide IsFraction, DigitRun, FractionForm, ExponentForm, WholeForm;
    assert m + w + f + e == m + (w + f + e);
  }

  lemma NumberFromParts(t: Text, m: Text, w: Text, f: Text, e: Text)
    requires NumberForm(t, m, w, f, e)
    ensures IsNumberToken(t)
  {
    var u := w + f + e;
    assert t == m + u;
    JoinWhole(u, w, f, e);
    assert u[0] != 45;
    hide IsFraction, DigitRun, FractionForm, ExponentForm, WholeForm;
    if m == [] {
      assert t == u;
    } else {
      assert m == [45] && t[1..] == u;
    }
  }

  /** The numbers of section 6 of RFC 8259, part by part. */
  lemma NumberExactly(t: Text)
    ensures IsNumberToken(t) <==>
      exists minus, whole, fraction, exponent :: NumberForm(t, minus, whole, fraction, exponent)
  {
    hide *;
    if IsNumberToken(t) {
      var m, w, f, e := NumberParts(t);
    }
    if m, w, f, e :| NumberForm(t, m, w, f, e) {
      NumberFromParts(t, m, w, f, e);
    }
  }

  predicate NumberUnits(t: Text) {
    forall i | 0 <= i < |t| :: IsNumberUnit(t[i])
  }

  lemma {:induction false} DigitRunUnits(t: Text)
    requires NumberUnits(t[DigitRun(t)..])
    ensures NumberUnits(t)
  {
    if t != [] && IsDigit(t[0]) {
      assert t[1..][DigitRun(t[1..])..] == t[DigitRun(t)..];
      DigitRunUnits(t[1..]);
      assert t == [t[0]] + t[1..];
    } else {
      assert t[DigitRun(t)..] == t;
    }
  }

  lemma ExponentUnits(t: Text)
    requires IsExponent(t)
    ensures NumberUnits(t)
  {
    if t != [] {
      var k := if |t| > 1 && t[1] in {43, 45} then 2 else 1;
      assert t[k..][DigitRun(t[k..])..] == [];
      DigitRunUnits(t[k..]);
      assert t == t[..k] + t[k..];
    }
  }

  lemma FractionUnits(t: Text)
    requires IsFraction(t)
    ensures NumberUnits(t)
  {
    if t != [] && t[0] == 46 {
      ExponentUnits(t[1..][DigitRun(t[1..])..]);
      DigitRunUnits(t[1..]);
      assert t == [t[0]] + t[1..];
    } else {
      ExponentUnits(t);
    }
  }

  /** A number begins with a digit or a minus sign and has no other characters
      than numbers have. */
  lemma NumberTokenUnits(t: Text)
    requires IsNumberToken(t)
    ensures t != [] && (IsDigit(t[0]) || t[0] == 45)
    ensures NumberUnits(t)
  {
    var u := if t[0] == 45 then t[1..] else t;
    if u[0] == 48 {
      FractionUnits(u[1..]);
      assert u == [u[0]] + u[1..];
    } else {
      FractionUnits(u[DigitRun(u)..]);
      DigitRunUnits(u);
    }
    assert t[0] == 45 ==> t == [t[0]] + u;
  }

  /** Numbers print as number tokens and no object has a key twice. */
  ghost predicate Valid(v: Value)
    decreases v
  {
    match v
    case Number(token) => IsNumberToken(token)
    case Array(items) => forall i | 0 <= i < |items| :: Valid(items[i])
    case Object(members) =>
      && DistinctKeys(members)
      && forall i | 0 <= i < |members| :: Valid(members[i].value)
    case _ => true
  }

  predicate PrintsNull(v: Value) {
    v.Undefined? || v.Null? || v.NonFinite?
  }

  /** Equality of JSON values: array items in order, object members by key. */
  ghost predicate Same(a: Value, b: Value)
    decreases a
  {
    if PrintsNull(a) then PrintsNull(b)
    else if a.Array? then
      b.Array? && |a.items| == |b.items|
      && forall i | 0 <= i < |a.items| :: Same(a.items[i], b.items[i])
    else if a.Object? then
      b.Object? && |a.members| == |b.members|
      && forall i | 0 <= i < |a.members| :: HasMember(b.members, a.members[i])
    else a == b
  }

  /** There is a member of that key and value. */
  ghost predicate HasMember(members: seq<Entry<Value>>, e: Entry<Value>)
    decreases e
  {
    exists j | 0 <= j < |members| :: e.key == members[j].key && Same(e.value, members[j].value)
  }
}
