/** A reader for the grammar of RFC 8259, sections 2 to 7. An object is read as the
    list of its members. */
module JsonReader {
  import opened Json
  import opened JsonStrings

  const NULL_TEXT: Text := [110, 117, 108, 108]
  const TRUE_TEXT: Text := [116, 114, 117, 101]
  const FALSE_TEXT: Text := [102, 97, 108, 115, 101]

  predicate Starts(s: Text, word: Text) {
    |s| >= |word| && s[..|word|] == word
  }

  predicate IsSpace(c: Unit) { c in {32, 9, 10, 13} }

  function SkipSpace(s: Text): (t: Text)
    ensures |t| <= |s|
    ensures t != [] ==> !IsSpace(t[0])
  {
    if s != [] && IsSpace(s[0]) then SkipSpace(s[1..]) else s
  }

  /** How many leading units can belong to a number. */
  function NumberLength(s: Text): (n: nat)
    ensures n <= |s|
  {
    if s != [] && IsNumberUnit(s[0]) then 1 + NumberLength(s[1..]) else 0
  }

  function ReadValue(s: Text): (r: Parsed<Value>)
    ensures r.Parsed? ==> |r.rest| < |s|
    decreases |s|, 0
  {
    var t := SkipSpace(s);
    if t == [] then Failed
    else if t[0] == QUOTE then
      (match ReadString(t[1..])
       case Failed => Failed
       case Parsed(text, rest) => Parsed(String(text), rest))
    else if t[0] == OPEN_ARRAY then
      var u := SkipSpace(t[1..]);
      if u != [] && u[0] == CLOSE_ARRAY then Parsed(Array([]), u[1..])
      else
        (match ReadItems(t[1..])
         case Failed => Failed
         case Parsed(items, rest) => Parsed(Array(items), rest))
    else if t[0] == OPEN_OBJECT then
      var u := SkipSpace(t[1..]);
      if u != [] && u[0] == CLOSE_OBJECT then Parsed(Object([]), u[1..])
      else
        (match ReadMembers(t[1..])
         case Failed => Failed
         case Parsed(members, rest) => Parsed(Object(members), rest))
    else if Starts(t, NULL_TEXT) then Parsed(Null, t[4..])
    else if Starts(t, TRUE_TEXT) then Parsed(Bool(true), t[4..])
    else if Starts(t, FALSE_TEXT) then Parsed(Bool(false), t[5..])
    else if IsNumberToken(t[..NumberLength(t)]) then Parsed(Number(t[..NumberLength(t)]), t[NumberLength(t)..])
    else Failed
  }

  /** One item at least, up to the closing bracket. */
  function ReadItems(s: Text): (r: Parsed<seq<Value>>)
    ensures r.Parsed? ==> |r.rest| < |s|
    decreases |s|, 1
  {
    match ReadValue(s)
    case Failed => Failed
    case Parsed(v, rest) =>
      var t := SkipSpace(rest);
      if t != [] && t[0] == CLOSE_ARRAY then Parsed([v], t[1..])
      else if t != [] && t[0] == COMMA then
        match ReadItems(t[1..])
        case Failed => Failed
        case Parsed(items, rest') => Parsed([v] + items, rest')
      else Failed
  }

  /** One member at least, up to the closing brace. */
  function ReadMembers(s: Text): (r: Parsed<seq<Entry<Value>>>)
    ensures r.Parsed? ==> |r.rest| < |s|
    decreases |s|, 1
  {
    match ReadMember(s)
    case Failed => Failed
    case Parsed(e, rest) =>
      var t := SkipSpace(rest);
      if t != [] && t[0] == CLOSE_OBJECT then Parsed([e], t[1..])
      else if t != [] && t[0] == COMMA then
        match ReadMembers(t[1..])
        case Failed => Failed
        case Parsed(members, rest') => Parsed([e] + members, rest')
      else Failed
  }

  function ReadMember(s: Text): (r: Parsed<Entry<Value>>)
    ensures r.Parsed? ==> |r.rest| < |s|
    decreases |s|, 0
  {
    var t := SkipSpace(s);
    if t == [] || t[0] != QUOTE then Failed
    else
      match ReadString(t[1..])
      case Failed => Failed
      case Parsed(key, rest) =>
        var u := SkipSpace(rest);
        if u == [] || u[0] != COLON then Failed
        else
          match ReadValue(u[1..])
          case Failed => Failed
          case Parsed(v, rest') => Parsed(Entry(key, v), rest')
  }

  /** A whole JSON text. */
  function ReadText(s: Text): Parsed<Value> {
    match ReadValue(s)
    case Failed => Failed
    case Parsed(v, rest) => if SkipSpace(rest) == [] then Parsed(v, []) else Failed
  }

  /** Spaces, tabs and ends of lines. */
  predicate White(s: Text) {
    forall i | 0 <= i < |s| :: s[i] in [9, 10, 13, 32]
  }

  lemma {:induction false} SkipWhite(before: Text, s: Text)
    requires White(before)
    ensures SkipSpace(before + s) == SkipSpace(s)
  {
    if before == [] {
      assert before + s == s;
    } else {
      SkipWhite(before[1..], s);
      assert (before + s)[1..] == before[1..] + s;
    }
  }

  lemma {:induction false} SkipAll(s: Text)
    ensures SkipSpace(s) == [] <==> White(s)
  {
    if s != [] && IsSpace(s[0]) {
      SkipAll(s[1..]);
      assert s == [s[0]] + s[1..];
    }
  }

  /** A text is read when nothing but white space stands about its value. */
  lemma TextInWhite(before: Text, s: Text)
    requires White(before)
    ensures ReadText(before + s) ==
      match ReadValue(s)
      case Failed => Failed
      case Parsed(v, rest) => if White(rest) then Parsed(v, []) else Failed
  {
    SkipWhite(before, s);
    var r := ReadValue(s);
    assert ReadValue(before + s) == r;
    if r.Parsed? {
      SkipAll(r.rest);
    }
  }
}
