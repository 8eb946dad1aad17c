/** When two rows of an import count as one person (src/server.js:535). */
module ClientIdentity {

  /** The identifying columns of a normalised row, empty where absent. `name` is
      the lower-cased legal name, `contact` the e-mail address or else the
      telephone number. */
  datatype Identity = Identity(
    aNumber: string,
    passport: string,
    uscis: string,
    name: string,
    born: string,
    contact: string)

  /** The first number that identifies a person, or empty. */
  function StrongNumber(n: Identity): string {
    if n.aNumber != "" then n.aNumber else if n.passport != "" then n.passport else n.uscis
  }

  function IdentityKey(n: Identity): string {
    if StrongNumber(n) != "" then StrongNumber(n) else n.name + "|" + n.born + "|" + n.contact
  }

  // ------------------------------------------------------------------
  // The exact condition
  // ------------------------------------------------------------------

  /** A character more in front of the first piece, or a bar and so a piece more. */
  function Prepended(c: char, ps: seq<string>): (r: seq<string>)
    requires ps != []
    ensures r != []
  {
    if c == '|' then [""] + ps else [[c] + ps[0]] + ps[1..]
  }

  /** A text cut at its vertical bars. */
  function Pieces(s: string): (ps: seq<string>)
    ensures ps != []
  {
    if s == "" then [""] else Prepended(s[0], Pieces(s[1..]))
  }

  function Joined(ps: seq<string>): string
    requires ps != []
  {
    if |ps| == 1 then ps[0] else ps[0] + "|" + Joined(ps[1..])
  }

  /** What identifies a row: the pieces of its number, or those of its name, birth
      date and contact one after another. */
  function IdentityPieces(n: Identity): seq<string> {
    if StrongNumber(n) != "" then Pieces(StrongNumber(n)) else Pieces(n.name) + Pieces(n.born) + Pieces(n.contact)
  }

  lemma JoinedPrepended(c: char, ps: seq<string>)
    requires ps != []
    ensures Joined(Prepended(c, ps)) == [c] + Joined(ps)
  {
    if c == '|' {
      assert ([""] + ps)[1..] == ps;
    } else {
      assert ([[c] + ps[0]] + ps[1..])[1..] == ps[1..];
    }
  }

  lemma {:induction false} JoinedPieces(s: string)
    ensures Joined(Pieces(s)) == s
  {
    if s != "" {
      JoinedPieces(s[1..]);
      JoinedPrepended(s[0], Pieces(s[1..]));
      assert s == [s[0]] + s[1..];
    }
  }

  lemma PiecesCons(c: char, s: string)
    ensures Pieces([c] + s) == Prepended(c, Pieces(s))
  {
    assert ([c] + s)[1..] == s;
  }

  lemma PrependedConcat(c: char, ps: seq<string>, qs: seq<string>)
    requires ps != []
    ensures Prepended(c, ps + qs) == Prepended(c, ps) + qs
  {
  }

  lemma {:induction false} PiecesJoin(a: string, b: string)
    ensures Pieces(a + "|" + b) == Pieces(a) + Pieces(b)
  {
    if a == "" {
      assert a + "|" + b == ['|'] + b;
      PiecesCons('|', b);
    } else {
      PiecesJoin(a[1..], b);
      PiecesCons(a[0], a[1..]);
      PiecesCons(a[0], a[1..] + "|" + b);
      PrependedConcat(a[0], Pieces(a[1..]), Pieces(b));
      assert a == [a[0]] + a[1..];
      assert a + "|" + b == [a[0]] + (a[1..] + "|" + b);
    }
  }

  lemma KeyPieces(n: Identity)
    ensures Pieces(IdentityKey(n)) == IdentityPieces(n)
  {
    if StrongNumber(n) == "" {
      PiecesJoin(n.name + "|" + n.born, n.contact);
      PiecesJoin(n.name, n.born);
    }
  }

  /** Two rows count as one person exactly when they are identified by the same
      list of pieces, wherever a bar stands in a number, a name, a birth date or a
      contact. */
  lemma SharedExactly(m: Identity, n: Identity)
    ensures IdentityKey(m) == IdentityKey(n) <==> IdentityPieces(m) == IdentityPieces(n)
  {
    KeyPieces(m);
    KeyPieces(n);
    JoinedPieces(IdentityKey(m));
    JoinedPieces(IdentityKey(n));
  }

  // ------------------------------------------------------------------
  // Texts without bars
  // ------------------------------------------------------------------

  predicate BarFree(s: string) { '|' !in s }

  predicate Plain(n: Identity) {
    BarFree(StrongNumber(n)) && BarFree(n.name) && BarFree(n.born)
  }

  lemma {:induction false} OnePiece(s: string)
    ensures BarFree(s) <==> Pieces(s) == [s]
  {
    if s != "" {
      OnePiece(s[1..]);
      assert s == [s[0]] + s[1..];
      if !BarFree(s[1..]) {
        JoinedPieces(s[1..]);
        assert |Pieces(s[1..])| > 1;
      }
    }
  }

  /** The identifying numbers, the one that counts most first. */
  function Numbers(n: Identity): (r: seq<string>)
    ensures |r| == 3
  {
    [n.aNumber, n.passport, n.uscis]
  }

  /** The first of them that is there. */
  predicate FirstNumber(n: Identity, i: int) {
    0 <= i < 3 && Numbers(n)[i] != "" && forall j | 0 <= j < i :: Numbers(n)[j] == ""
  }

  predicate NoNumber(n: Identity) {
    n.aNumber == n.passport == n.uscis == ""
  }

  /** The first identifying numbers are equal, whichever kinds of number these are,
      or neither has one and name, birth date and contact agree, blank ones
      included. */
  ghost predicate SamePerson(m: Identity, n: Identity) {
    || (exists i, j | FirstNumber(m, i) && FirstNumber(n, j) :: Numbers(m)[i] == Numbers(n)[j])
    || (NoNumber(m) && NoNumber(n) && m.name == n.name && m.born == n.born && m.contact == n.contact)
  }

  lemma NumberFirst(n: Identity)
    ensures forall i | FirstNumber(n, i) :: StrongNumber(n) == Numbers(n)[i]
    ensures StrongNumber(n) == "" <==> NoNumber(n)
    ensures !NoNumber(n) ==> exists i :: FirstNumber(n, i)
  {
    if n.aNumber != "" {
      assert FirstNumber(n, 0);
    } else if n.passport != "" {
      assert FirstNumber(n, 1);
    } else if n.uscis != "" {
      assert FirstNumber(n, 2);
    }
  }

  lemma SameNumbers(m: Identity, n: Identity)
    ensures SamePerson(m, n) <==>
      && StrongNumber(m) == StrongNumber(n)
      && (StrongNumber(m) == "" ==> m.name == n.name && m.born == n.born && m.contact == n.contact)
  {
    NumberFirst(m);
    NumberFirst(n);
    hide StrongNumber;
  }

  /** The rule as meant, and the one way around it: a bar in a number, a name or a
      birth date that moves text from one column to another. */
  lemma SharedIdentity(m: Identity, n: Identity)
    ensures IdentityKey(m) == IdentityKey(n) <==>
      SamePerson(m, n) || (!(Plain(m) && Plain(n)) && IdentityPieces(m) == IdentityPieces(n))
  {
    SharedExactly(m, n);
    SameNumbers(m, n);
    if Plain(m) && Plain(n) {
      PlainShared(m, n);
    }
  }

  lemma PlainShared(m: Identity, n: Identity)
    requires Plain(m) && Plain(n)
    ensures IdentityPieces(m) == IdentityPieces(n) <==> SamePerson(m, n)
  {
    SameNumbers(m, n);
    PlainPieces(m);
    PlainPieces(n);
    JoinedPieces(m.contact);
    JoinedPieces(n.contact);
    hide Pieces, Joined, IdentityKey, IdentityPieces, SamePerson, StrongNumber;
    SamePieces(m.name, m.born, Pieces(m.contact), n.name, n.born, Pieces(n.contact));
    assert |[m.name, m.born] + Pieces(m.contact)| > 1 && |[n.name, n.born] + Pieces(n.contact)| > 1;
  }

  lemma SamePieces(a: string, b: string, ps: seq<string>, c: string, d: string, qs: seq<string>)
    ensures [a, b] + ps == [c, d] + qs <==> a == c && b == d && ps == qs
  {
    var s, t := [a, b] + ps, [c, d] + qs;
    assert s[0] == a && s[1] == b && s[2..] == ps;
    assert t[0] == c && t[1] == d && t[2..] == qs;
  }

  lemma PlainPieces(n: Identity)
    requires Plain(n)
    ensures IdentityPieces(n) == if StrongNumber(n) != "" then [StrongNumber(n)] else [n.name, n.born] + Pieces(n.contact)
  {
    OnePiece(StrongNumber(n));
    OnePiece(n.name);
    OnePiece(n.born);
  }

  // ------------------------------------------------------------------
  // Different people, one identity
  // ------------------------------------------------------------------

  /** The alien number of one person is the passport number of another who shares
      nothing else with them. */
  lemma CrossKindCollision() returns (m: Identity, n: Identity)
    ensures IdentityKey(m) == IdentityKey(n)
    ensures m.aNumber != "" && n.aNumber == "" && m.passport == "" && n.passport == m.aNumber
    ensures m.name != n.name && m.born != n.born && m.contact != n.contact
  {
    m := Identity("123456789", "", "", "a", "1990-01-01", "a@example.org");
    n := Identity("", "123456789", "", "b", "1980-01-01", "b@example.org");
  }

  /** A bar in a name stands for the separator. */
  lemma BarCollision() returns (m: Identity, n: Identity)
    ensures IdentityKey(m) == IdentityKey(n)
    ensures StrongNumber(m) == StrongNumber(n) == ""
    ensures m.name != n.name && m.born != n.born && m.contact != n.contact
  {
    m := Identity("", "", "", "x|2000-01-01", "", "a@b.c");
    n := Identity("", "", "", "x", "2000-01-01", "|a@b.c");
    assert IdentityKey(m) == "x|2000-01-01||a@b.c" == IdentityKey(n);
  }
}
