/** Quoted strings as the platform's JSON serialiser writes them, with a lone
    surrogate escaped, and as the grammar of section 7 of RFC 8259 reads them. */
module JsonStrings {
  import opened Json

  const QUOTE: Unit := 34
  const BACKSLASH: Unit := 92
  const COMMA: Unit := 44
  const COLON: Unit := 58
  const OPEN_ARRAY: Unit := 91
  const CLOSE_ARRAY: Unit := 93
  const OPEN_OBJECT: Unit := 123
  const CLOSE_OBJECT: Unit := 125
  const LETTER_U: Unit := 117

  predicate IsHigh(c: Unit) { 0xD800 <= c < 0xDC00 }

  predicate IsLow(c: Unit) { 0xDC00 <= c < 0xE000 }

  function HexDigit(d: int): Unit
    requires 0 <= d < 16
  {
    if d < 10 then 48 + d else 87 + d
  }

  function Hex4(c: Unit): Text {
    [HexDigit(c / 4096), HexDigit(c / 256 % 16), HexDigit(c / 16 % 16), HexDigit(c % 16)]
  }

  /** The two-unit escapes: quotation mark, backslash, \b \t \n \f \r. */
  function ShortEscape(c: Unit): (letter: Unit)
    ensures letter == 0 || letter in {34, 92, 98, 116, 110, 102, 114}
  {
    if c == 34 then 34
    else if c == 92 then 92
    else if c == 8 then 98
    else if c == 9 then 116
    else if c == 10 then 110
    else if c == 12 then 102
    else if c == 13 then 114
    else 0
  }

  /** A surrogate pair is printed as it stands. */
  predicate StartsPair(s: Text) {
    |s| >= 2 && IsHigh(s[0]) && IsLow(s[1])
  }

  function HeadLength(s: Text): (n: nat)
    requires s != []
    ensures 0 < n <= |s|
  {
    if StartsPair(s) then 2 else 1
  }

  /** What the first character of the text prints as. A lone surrogate is
      escaped, so the output is always well-formed. */
  function Chunk(s: Text): Text
    requires s != []
  {
    var c := s[0];
    if StartsPair(s) then s[..2]
    else if ShortEscape(c) != 0 then [BACKSLASH, ShortEscape(c)]
    else if c < 32 || IsHigh(c) || IsLow(c) then [BACKSLASH, LETTER_U] + Hex4(c)
    else [c]
  }

  function Escape(s: Text): Text {
    if s == [] then [] else Chunk(s) + Escape(s[HeadLength(s)..])
  }

  function Quote(s: Text): Text {
    [QUOTE] + Escape(s) + [QUOTE]
  }

  // ------------------------------------------------------------------
  // Reading
  // ------------------------------------------------------------------

  datatype Parsed<+T> = Failed | Parsed(value: T, rest: Text)

  /** The value of a hexadecimal digit of either case, or -1. */
  function DigitValue(c: Unit): (d: int)
    ensures -1 <= d < 16
  {
    var n: int := c;
    if 48 <= n <= 57 then n - 48
    else if 97 <= n <= 102 then n - 87
    else if 65 <= n <= 70 then n - 55
    else -1
  }

  predicate IsHex4(t: Text) {
    |t| == 4 && forall i | 0 <= i < 4 :: DigitValue(t[i]) >= 0
  }

  function FromHex4(t: Text): Unit
    requires IsHex4(t)
  {
    4096 * DigitValue(t[0]) + 256 * DigitValue(t[1]) + 16 * DigitValue(t[2]) + DigitValue(t[3])
  }

  /** What a two-unit escape stands for. */
  function Unescaped(letter: Unit): Parsed<Unit> {
    if letter in {34, 92, 47} then Parsed(letter, [])
    else if letter == 98 then Parsed(8, [])
    else if letter == 102 then Parsed(12, [])
    else if letter == 110 then Parsed(10, [])
    else if letter == 114 then Parsed(13, [])
    else if letter == 116 then Parsed(9, [])
    else Failed
  }

  /** One unit of a string. */
  function ReadUnit(s: Text): (r: Parsed<Unit>)
    requires s != []
    ensures r.Parsed? ==> |r.rest| < |s|
  {
    if s[0] == BACKSLASH then
      if |s| < 2 then Failed
      else if s[1] == LETTER_U then
        if |s| >= 6 && IsHex4(s[2..6]) then Parsed(FromHex4(s[2..6]), s[6..]) else Failed
      else if Unescaped(s[1]).Parsed? then Parsed(Unescaped(s[1]).value, s[2..])
      else Failed
    else if s[0] < 32 then Failed
    else Parsed(s[0], s[1..])
  }

  /** A string after its opening mark. */
  function ReadString(s: Text): (r: Parsed<Text>)
    ensures r.Parsed? ==> |r.rest| < |s|
    decreases |s|
  {
    if s == [] then Failed
    else if s[0] == QUOTE then Parsed([], s[1..])
    else
      match ReadUnit(s)
      case Failed => Failed
      case Parsed(c, rest) =>
        match ReadString(rest)
        case Failed => Failed
        case Parsed(t, rest') => Parsed([c] + t, rest')
  }

  lemma HexDigitValue(d: int)
    requires 0 <= d < 16
    ensures DigitValue(HexDigit(d)) == d
  {
  }

  lemma Hex4Read(c: Unit)
    ensures IsHex4(Hex4(c)) && FromHex4(Hex4(c)) == c
  {
    HexDigitValue(c / 4096);
    HexDigitValue(c / 256 % 16);
    HexDigitValue(c / 16 % 16);
    HexDigitValue(c % 16);
    assert c / 16 / 16 == c / 256;
    assert c / 256 / 16 == c / 4096;
  }

  /** What any single unit prints as reads as that unit. */
  lemma ReadChunk(s: Text, w: Text)
    requires s != [] && !StartsPair(s)
    ensures Chunk(s) != [] && (Chunk(s) + w)[0] != QUOTE
    ensures ReadUnit(Chunk(s) + w) == Parsed(s[0], w)
  {
    var c := s[0];
    if ShortEscape(c) != 0 {
      assert ([BACKSLASH, ShortEscape(c)] + w)[2..] == w;
    } else if c < 32 || IsHigh(c) || IsLow(c) {
      var t := [BACKSLASH, LETTER_U] + Hex4(c) + w;
      assert t[2..6] == Hex4(c) && t[6..] == w;
      Hex4Read(c);
    } else {
      assert ([c] + w)[1..] == w;
    }
  }

  lemma ReadStep(s: Text, c: Unit, w: Text, t: Text, x: Text)
    requires s != [] && s[0] != QUOTE && ReadUnit(s) == Parsed(c, w) && ReadString(w) == Parsed(t, x)
    ensures ReadString(s) == Parsed([c] + t, x)
  {
  }

  /** A surrogate pair reads as its two units. */
  lemma ReadPair(high: Unit, low: Unit, w: Text)
    requires IsHigh(high) && IsLow(low)
    ensures ReadUnit([high] + ([low] + w)) == Parsed(high, [low] + w)
    ensures ReadUnit([low] + w) == Parsed(low, w)
  {
    assert ([high] + ([low] + w))[1..] == [low] + w;
    assert ([low] + w)[1..] == w;
  }

  lemma EscapePair(s: Text, x: Text)
    requires StartsPair(s)
    ensures Escape(s) + [QUOTE] + x == [s[0]] + ([s[1]] + (Escape(s[2..]) + [QUOTE] + x))
  {
    assert s[..2] == [s[0]] + [s[1]];
  }

  lemma EscapeOne(s: Text, x: Text)
    requires s != [] && !StartsPair(s)
    ensures Escape(s) + [QUOTE] + x == Chunk(s) + (Escape(s[1..]) + [QUOTE] + x)
  {
  }

  /** The units of a string, escaped and closed, read back as the string. */
  lemma {:induction false} ReadEscaped(s: Text, x: Text)
    ensures ReadString(Escape(s) + [QUOTE] + x) == Parsed(s, x)
    decreases |s|
  {
    if s == [] {
      assert ([QUOTE] + x)[1..] == x;
      assert Escape(s) + [QUOTE] + x == [QUOTE] + x;
    } else if StartsPair(s) {
      var w := Escape(s[2..]) + [QUOTE] + x;
      EscapePair(s, x);
      ReadPair(s[0], s[1], w);
      assert s[0] != QUOTE && s[1] != QUOTE;
      hide *;
      ReadEscaped(s[2..], x);
      ReadStep([s[1]] + w, s[1], w, s[2..], x);
      ReadStep([s[0]] + ([s[1]] + w), s[0], [s[1]] + w, [s[1]] + s[2..], x);
      assert s == [s[0]] + ([s[1]] + s[2..]);
    } else {
      var w := Escape(s[1..]) + [QUOTE] + x;
      EscapeOne(s, x);
      ReadChunk(s, w);
      hide *;
      ReadEscaped(s[1..], x);
      ReadStep(Chunk(s) + w, s[0], w, s[1..], x);
      assert s == [s[0]] + s[1..];
    }
  }
}
