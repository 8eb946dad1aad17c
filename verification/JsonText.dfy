/** The texts the canonical printer writes, sign by sign (src/server.js:545 and
    sections 2 to 7 of RFC 8259). */
module JsonText {
  import opened CanonicalJson
  import opened Json
  import opened JsonReader
  import opened JsonStrings
  import opened KeyOrder

  /** The words and signs of a JSON text. */
  lemma Signs()
    ensures [QUOTE, BACKSLASH, COMMA, COLON, OPEN_ARRAY, CLOSE_ARRAY, OPEN_OBJECT, CLOSE_OBJECT, LETTER_U]
      == Ascii("\"\\,:[]{}u")
    ensures NULL_TEXT == Ascii("null") && TRUE_TEXT == Ascii("true") && FALSE_TEXT == Ascii("false")
  {
  }

  const SHORT_UNITS: seq<Unit> := [34, 92, 8, 9, 10, 12, 13]
  const SHORT_LETTERS: Text := Ascii("\"\\btnfr")

  /** The units with an escape of two letters, and the letters. */
  lemma ShortEscapes(i: nat)
    requires i < 7
    ensures ShortEscape(SHORT_UNITS[i]) == SHORT_LETTERS[i]
    ensures Unescaped(SHORT_LETTERS[i]) == Parsed(SHORT_UNITS[i], [])
  {
    var letters := "\"\\btnfr";
    assert letters[0] == '\"' && letters[1] == '\\' && letters[2] == 'b' && letters[3] == 't';
    assert letters[4] == 'n' && letters[5] == 'f' && letters[6] == 'r';
  }

  /** The digits of the long escapes are written small and read in either case. */
  lemma HexDigits(d: nat)
    requires d < 16
    ensures HexDigit(d) == Ascii("0123456789abcdef")[d]
    ensures DigitValue(Ascii("0123456789abcdef")[d]) == d == DigitValue(Ascii("0123456789ABCDEF")[d])
  {
    var small, large := "0123456789abcdef", "0123456789ABCDEF";
    assert small[d] as int == if d < 10 then 48 + d else 87 + d;
    assert large[d] as int == if d < 10 then 48 + d else 55 + d;
  }

  lemma OneUnit(c: Unit)
    ensures Quote([c]) == [QUOTE] + Chunk([c]) + [QUOTE]
  {
    var s: Text := [c];
    assert s[1..] == [] && Escape([]) == [];
    hide Chunk;
    assert Escape(s) == Chunk(s) + Escape(s[1..]) == Chunk(s);
  }

  /** What one unit of a text is written as: a short escape, */
  lemma ShortWritten(i: nat)
    requires i < 7
    ensures Quote([SHORT_UNITS[i]]) == [QUOTE, BACKSLASH] + [SHORT_LETTERS[i]] + [QUOTE]
  {
    OneUnit(SHORT_UNITS[i]);
    ShortEscapes(i);
    hide Quote;
    assert Chunk([SHORT_UNITS[i]]) == [BACKSLASH, SHORT_LETTERS[i]];
  }

  lemma NoShortEscape(c: Unit)
    requires c !in SHORT_UNITS
    ensures ShortEscape(c) == 0
  {
    var units := SHORT_UNITS;
    assert units[0] == 34 && units[1] == 92 && units[2] == 8 && units[3] == 9;
    assert units[4] == 10 && units[5] == 12 && units[6] == 13;
  }

  /** the long escape of any other control and of a lone surrogate, */
  lemma LongWritten(c: Unit)
    requires c !in SHORT_UNITS && (c < 32 || 0xD800 <= c < 0xE000)
    ensures var digits := Ascii("0123456789abcdef");
      Quote([c]) == [QUOTE, BACKSLASH, LETTER_U]
        + [digits[c / 4096], digits[c / 256 % 16], digits[c / 16 % 16], digits[c % 16]] + [QUOTE]
  {
    OneUnit(c);
    NoShortEscape(c);
    LongChunk(c);
    hide *;
    HexWritten(c);
  }

  lemma LongChunk(c: Unit)
    requires ShortEscape(c) == 0 && (c < 32 || 0xD800 <= c < 0xE000)
    ensures Chunk([c]) == [BACKSLASH, LETTER_U] + Hex4(c)
  {
    hide ShortEscape, Hex4;
  }

  lemma HexWritten(c: Unit)
    ensures var digits := Ascii("0123456789abcdef");
      Hex4(c) == [digits[c / 4096], digits[c / 256 % 16], digits[c / 16 % 16], digits[c % 16]]
  {
    HexDigits(c / 4096);
    HexDigits(c / 256 % 16);
    HexDigits(c / 16 % 16);
    HexDigits(c % 16);
    hide HexDigit, Ascii;
  }

  /** or the unit itself. */
  lemma PlainWritten(c: Unit)
    requires c !in SHORT_UNITS && 32 <= c && !(0xD800 <= c < 0xE000)
    ensures Quote([c]) == [QUOTE] + [c] + [QUOTE]
  {
    OneUnit(c);
    NoShortEscape(c);
    hide Quote, ShortEscape;
  }

  /** A surrogate pair is written as it stands. */
  lemma PairWritten(high: Unit, low: Unit)
    requires 0xD800 <= high < 0xDC00 <= low < 0xE000
    ensures Quote([high, low]) == [QUOTE] + [high, low] + [QUOTE]
  {
    var s: Text := [high, low];
    assert s[..2] == s && s[2..] == [];
    assert Escape(s) == s + Escape([]);
  }

  /** One unit, or a surrogate pair, that does not run on into the rest. */
  predicate IsPiece(piece: Text, rest: Text) {
    || (|piece| == 2 && 0xD800 <= piece[0] < 0xDC00 <= piece[1] < 0xE000)
    || (|piece| == 1 && !(0xD800 <= piece[0] < 0xDC00 && rest != [] && 0xDC00 <= rest[0] < 0xE000))
  }

  lemma PieceFirst(piece: Text, rest: Text)
    requires IsPiece(piece, rest)
    ensures HeadLength(piece + rest) == |piece| && Chunk(piece + rest) == Chunk(piece)
    ensures (piece + rest)[|piece|..] == rest
  {
    var s := piece + rest;
    assert s[..|piece|] == piece && piece[..|piece|] == piece;
    assert StartsPair(s) <==> |piece| == 2;
    hide Hex4, ShortEscape;
  }

  lemma EscapedPiece(piece: Text, rest: Text)
    requires IsPiece(piece, rest)
    ensures Escape(piece + rest) == Escape(piece) + Escape(rest)
  {
    PieceFirst(piece, rest);
    PieceFirst(piece, []);
    assert piece + [] == piece;
    hide Chunk, HeadLength;
    assert Escape(piece) == Chunk(piece) + Escape([]) && Escape([]) == [];
    assert Escape(piece + rest) == Chunk(piece) + Escape(rest);
  }

  /** A text is written piece by piece. */
  lemma TextWritten(piece: Text, rest: Text)
    requires IsPiece(piece, rest)
    ensures |Quote(piece)| >= 2 && |Quote(rest)| >= 2 && Quote([]) == [QUOTE, QUOTE]
    ensures Quote(piece + rest) == Quote(piece)[..|Quote(piece)| - 1] + Quote(rest)[1..]
  {
    EscapedPiece(piece, rest);
    assert Escape([]) == [];
    hide Escape;
    Spliced(QUOTE, Escape(piece), Escape(rest));
  }

  lemma Spliced(mark: Unit, p: Text, r: Text)
    ensures var s, t := [mark] + p + [mark], [mark] + r + [mark];
      [mark] + (p + r) + [mark] == s[..|s| - 1] + t[1..]
  {
    var s, t := [mark] + p + [mark], [mark] + r + [mark];
    assert s[..|s| - 1] == [mark] + p && t[1..] == r + [mark];
  }

  lemma WordsWritten(b: bool, token: Text)
    ensures Print(Null) == Print(Undefined) == Print(NonFinite) == NULL_TEXT
    ensures Print(Bool(b)) == if b then TRUE_TEXT else FALSE_TEXT
    ensures Print(Number(token)) == token
  {
  }

  /** A list: brackets, and commas between the items. */
  lemma ArrayWritten(v: Value, items: seq<Value>)
    ensures Print(Array([])) == [OPEN_ARRAY, CLOSE_ARRAY] && Print(Array([v])) == [OPEN_ARRAY] + Print(v) + [CLOSE_ARRAY]
    ensures Print(Array(items)) != []
    ensures items != [] ==>
      Print(Array([v] + items)) == [OPEN_ARRAY] + Print(v) + [COMMA] + Print(Array(items))[1..]
  {
    var texts, t := PrintAll(items), Print(v);
    PrintedList(items);
    PrintedList([v]);
    PrintedList([v] + items);
    PrintedList([]);
    AllPrinted(v, items);
    assert Join([]) == [] && Join([t]) == t && PrintAll([]) == [];
    JoinFirst(t, texts);
    hide *;
    assert ([OPEN_ARRAY] + Join(texts) + [CLOSE_ARRAY])[1..] == Join(texts) + [CLOSE_ARRAY];
  }

  lemma PrintedList(items: seq<Value>)
    ensures Print(Array(items)) == [OPEN_ARRAY] + Join(PrintAll(items)) + [CLOSE_ARRAY]
  {
    hide Join, PrintAll;
  }

  lemma AllPrinted(v: Value, items: seq<Value>)
    ensures |PrintAll(items)| == |items|
    ensures PrintAll([v]) == [Print(v)] && PrintAll([v] + items) == [Print(v)] + PrintAll(items)
  {
    assert [v][1..] == [] && ([v] + items)[1..] == items;
    hide Print;
  }

  /** An object: braces, the member with the least key first, a colon after its
      key, and commas between members, wherever that member was listed. */
  lemma ObjectWritten(key: Text, v: Value, before: seq<Entry<Value>>, after: seq<Entry<Value>>)
    requires Valid(Object(before + [Entry(key, v)] + after))
    requires forall e | e in before + after :: Before(key, e.key)
    ensures Print(Object([])) == [OPEN_OBJECT, CLOSE_OBJECT] && Print(Object(before + after)) != []
    ensures Print(Object(before + [Entry(key, v)] + after)) ==
      [OPEN_OBJECT] + Quote(key) + [COLON] + Print(v)
      + (if before + after == [] then [CLOSE_OBJECT] else [COMMA] + Print(Object(before + after))[1..])
  {
    var e, rest := Entry(key, v), before + after;
    Moved(before, e, after);
    FirstWritten(e, rest);
  }

  lemma FirstWritten(e: Entry<Value>, rest: seq<Entry<Value>>)
    requires forall x | x in rest :: Before(e.key, x.key)
    ensures Print(Object([])) == [OPEN_OBJECT, CLOSE_OBJECT] && Print(Object(rest)) != []
    ensures Print(Object([e] + rest)) ==
      [OPEN_OBJECT] + Quote(e.key) + [COLON] + Print(e.value)
      + (if rest == [] then [CLOSE_OBJECT] else [COMMA] + Print(Object(rest))[1..])
  {
    assert ([e] + rest)[1..] == rest;
    var first, printed := Entry(e.key, Print(e.value)), PrintMembers(rest);
    assert PrintMembers([e] + rest) == [first] + printed;
    assert ([first] + printed)[1..] == printed;
    SortKeeps(printed);
    PrintMembersKeys(rest);
    var sorted := Sort(printed);
    assert sorted != [] ==> Before(e.key, sorted[0].key) by {
      if sorted != [] {
        assert sorted[0] in printed;
        var i :| 0 <= i < |printed| && printed[i] == sorted[0];
        assert rest[i] in rest;
      }
    }
    assert Sort([first] + printed) == [first] + sorted;
    assert ([first] + sorted)[1..] == sorted;
    var labels := Labelled(sorted);
    assert Labelled([first] + sorted) == [Label(first)] + labels;
    assert ([Label(first)] + labels)[1..] == labels;
    hide Print, Label, Labelled, Sort, Quote;
    JoinFirst(Label(first), labels);
    FirstJoined(e, rest, Label(first), labels);
  }

  lemma JoinFirst(text: Text, texts: seq<Text>)
    ensures Join([text] + texts) == if texts == [] then text else text + [COMMA] + Join(texts)
  {
    assert ([text] + texts)[1..] == texts;
  }

  lemma FirstJoined(e: Entry<Value>, rest: seq<Entry<Value>>, named: Text, labels: seq<Text>)
    requires named == Label(Entry(e.key, Print(e.value))) && labels == Labelled(Sort(PrintMembers(rest)))
    requires (labels == [] <==> rest == []) && Labelled(Sort(PrintMembers([e] + rest))) == [named] + labels
    requires Join([named] + labels) == if labels == [] then named else named + [COMMA] + Join(labels)
    ensures Print(Object([])) == [OPEN_OBJECT, CLOSE_OBJECT] && Print(Object(rest)) != []
    ensures Print(Object([e] + rest)) ==
      [OPEN_OBJECT] + Quote(e.key) + [COLON] + Print(e.value)
      + (if rest == [] then [CLOSE_OBJECT] else [COMMA] + Print(Object(rest))[1..])
  {
    EmptyWritten();
    PrintedObject(rest);
    PrintedObject([e] + rest);
    assert named == Quote(e.key) + [COLON] + Print(e.value) by { hide Quote, Print; }
    hide *;
    assert ([OPEN_OBJECT] + Join(labels) + [CLOSE_OBJECT])[1..] == Join(labels) + [CLOSE_OBJECT];
  }

  lemma PrintedObject(members: seq<Entry<Value>>)
    ensures Print(Object(members)) == [OPEN_OBJECT] + Join(Labelled(Sort(PrintMembers(members)))) + [CLOSE_OBJECT]
  {
    hide Join, Labelled, Sort, PrintMembers;
  }

  lemma EmptyWritten()
    ensures Print(Object([])) == [OPEN_OBJECT, CLOSE_OBJECT]
  {
    assert PrintMembers([]) == [] && Sort<Text>([]) == [] && Labelled([]) == [] && Join([]) == [];
  }

  lemma Relisted<T>(before: seq<Entry<T>>, e: Entry<T>, after: seq<Entry<T>>)
    requires DistinctKeys(before + [e] + after)
    ensures DistinctKeys([e] + (before + after))
    ensures forall x :: x in before + [e] + after <==> x in [e] + (before + after)
  {
    var a, b := before + [e] + after, [e] + (before + after);
    forall i, j | 0 <= i < j < |b| ensures b[i].key != b[j].key {
      var m := if i == 0 then |before| else if i <= |before| then i - 1 else i;
      var n := if j <= |before| then j - 1 else j;
      assert b[i] == a[m] && b[j] == a[n] && m != n;
    }
  }

  lemma SameSorted<T>(before: seq<Entry<T>>, e: Entry<T>, after: seq<Entry<T>>)
    requires DistinctKeys(before + [e] + after)
    ensures Sort(before + [e] + after) == Sort([e] + (before + after))
  {
    var a, b := before + [e] + after, [e] + (before + after);
    Relisted(before, e, after);
    SortOrdered(a);
    SortOrdered(b);
    SortKeeps(a);
    SortKeeps(b);
    hide Sort, DistinctKeys, Ordered;
    OrderedUnique(Sort(a), Sort(b));
  }

  /** Where a member is listed makes no difference. */
  lemma Moved(before: seq<Entry<Value>>, e: Entry<Value>, after: seq<Entry<Value>>)
    requires Valid(Object(before + [e] + after))
    ensures Print(Object(before + [e] + after)) == Print(Object([e] + (before + after)))
  {
    var p, q, r := PrintMembers(before), Entry(e.key, Print(e.value)), PrintMembers(after);
    PrintedObject(before + [e] + after);
    PrintedObject([e] + (before + after));
    AroundPrinted(before, e, after);
    FirstPrinted(e, before + after);
    MembersPrinted(before, after);
    KeysStayDistinct(before + [e] + after);
    hide *;
    SameSorted(p, q, r);
  }

  lemma KeysStayDistinct(members: seq<Entry<Value>>)
    requires Valid(Object(members))
    ensures DistinctKeys(PrintMembers(members))
  {
    PrintMembersKeys(members);
    hide PrintMembers;
  }

  lemma FirstPrinted(e: Entry<Value>, rest: seq<Entry<Value>>)
    ensures PrintMembers([e] + rest) == [Entry(e.key, Print(e.value))] + PrintMembers(rest)
  {
    assert ([e] + rest)[1..] == rest;
    hide Print;
  }

  lemma AroundPrinted(before: seq<Entry<Value>>, e: Entry<Value>, after: seq<Entry<Value>>)
    ensures PrintMembers(before + [e] + after)
      == PrintMembers(before) + [Entry(e.key, Print(e.value))] + PrintMembers(after)
  {
    hide *;
    MembersPrinted(before, [e] + after);
    FirstPrinted(e, after);
    assert before + ([e] + after) == before + [e] + after;
  }

  lemma {:induction false} MembersPrinted(first: seq<Entry<Value>>, second: seq<Entry<Value>>)
    ensures PrintMembers(first + second) == PrintMembers(first) + PrintMembers(second)
  {
    if first == [] {
      assert first + second == second && PrintMembers([]) == [];
    } else {
      hide *;
      MembersPrinted(first[1..], second);
      FirstPrinted(first[0], first[1..]);
      FirstPrinted(first[0], first[1..] + second);
      assert first == [first[0]] + first[1..];
      assert first + second == [first[0]] + (first[1..] + second);
    }
  }
}
