/** Sorting the members of an object by key, code unit by code unit. */
module KeyOrder {
  import opened Json

  /** The order the default sort puts strings in: code unit by code unit. */
  predicate Before(a: Text, b: Text) {
    b != [] && (a == [] || a[0] < b[0] || (a[0] == b[0] && Before(a[1..], b[1..])))
  }

  lemma {:induction false} BeforeTotal(a: Text, b: Text)
    ensures Before(a, b) || Before(b, a) || a == b
  {
    if a != [] && b != [] && a[0] == b[0] {
      BeforeTotal(a[1..], b[1..]);
      assert a == [a[0]] + a[1..] && b == [b[0]] + b[1..];
    }
  }

  lemma {:induction false} BeforeTransitive(a: Text, b: Text, c: Text)
    requires Before(a, b) && Before(b, c)
    ensures Before(a, c)
  {
    if a != [] && a[0] == b[0] == c[0] {
      BeforeTransitive(a[1..], b[1..], c[1..]);
    }
  }

  lemma {:induction false} BeforeIrreflexive(a: Text)
    ensures !Before(a, a)
  {
    if a != [] {
      BeforeIrreflexive(a[1..]);
    }
  }

  /** One text comes before another where they part with the smaller unit, or ends
      where the other goes on. */
  ghost predicate PartsBelow(a: Text, b: Text, k: nat) {
    k <= |a| && k < |b| && a[..k] == b[..k] && (k == |a| || a[k] < b[k])
  }

  lemma {:induction false} BeforeExactly(a: Text, b: Text)
    ensures Before(a, b) <==> exists k: nat :: PartsBelow(a, b, k)
  {
    if b == [] {
    } else if a == [] || a[0] < b[0] {
      assert PartsBelow(a, b, 0);
    } else if a[0] == b[0] {
      BeforeExactly(a[1..], b[1..]);
      if k: nat :| PartsBelow(a[1..], b[1..], k) {
        assert a[..k + 1] == [a[0]] + a[1..][..k] && b[..k + 1] == [b[0]] + b[1..][..k];
        assert PartsBelow(a, b, k + 1);
      }
      if k: nat :| PartsBelow(a, b, k) {
        assert k > 0;
        assert a[1..][..k - 1] == a[..k][1..] && b[1..][..k - 1] == b[..k][1..];
        assert PartsBelow(a[1..], b[1..], k - 1);
      }
    } else {
      assert forall k: nat | PartsBelow(a, b, k) :: k == 0 || a[..k][0] == b[..k][0];
    }
  }

  ghost predicate Ordered<T>(es: seq<Entry<T>>) {
    forall i, j | 0 <= i < j < |es| :: Before(es[i].key, es[j].key)
  }

  function Insert<T>(e: Entry<T>, es: seq<Entry<T>>): seq<Entry<T>> {
    if es == [] || Before(e.key, es[0].key) then [e] + es
    else [es[0]] + Insert(e, es[1..])
  }

  /** The members in key order. */
  function Sort<T>(es: seq<Entry<T>>): seq<Entry<T>> {
    if es == [] then [] else Insert(es[0], Sort(es[1..]))
  }

  lemma {:induction false} InsertKeeps<T>(e: Entry<T>, es: seq<Entry<T>>)
    ensures |Insert(e, es)| == |es| + 1
    ensures forall x :: x in Insert(e, es) <==> x == e || x in es
    ensures forall i | 0 <= i < |es| + 1 :: Insert(e, es)[i] == e || Insert(e, es)[i] in es
  {
    if es == [] || Before(e.key, es[0].key) {
    } else {
      InsertKeeps(e, es[1..]);
      assert es == [es[0]] + es[1..];
    }
  }

  lemma {:induction false} SortKeeps<T>(es: seq<Entry<T>>)
    ensures |Sort(es)| == |es|
    ensures forall x :: x in Sort(es) <==> x in es
    ensures forall i | 0 <= i < |es| :: Sort(es)[i] in es
  {
    if es != [] {
      SortKeeps(es[1..]);
      InsertKeeps(es[0], Sort(es[1..]));
      assert es == [es[0]] + es[1..];
    }
  }

  lemma {:induction false} InsertOrdered<T>(e: Entry<T>, es: seq<Entry<T>>)
    requires Ordered(es)
    requires forall i | 0 <= i < |es| :: es[i].key != e.key
    ensures Ordered(Insert(e, es))
  {
    if es == [] {
    } else if Before(e.key, es[0].key) {
      forall j | 0 <= j < |es| ensures Before(e.key, es[j].key) {
        if j > 0 { BeforeTransitive(e.key, es[0].key, es[j].key); }
      }
    } else {
      BeforeTotal(e.key, es[0].key);
      assert es[0] in es;
      InsertOrdered(e, es[1..]);
      InsertKeeps(e, es[1..]);
      var r := Insert(e, es[1..]);
      forall j | 0 <= j < |r| ensures Before(es[0].key, r[j].key) {
        if r[j] != e {
          var i :| 0 <= i < |es[1..]| && es[1..][i] == r[j];
          assert es[i + 1] == r[j];
        }
      }
    }
  }

  lemma {:induction false} SortOrdered<T>(es: seq<Entry<T>>)
    requires DistinctKeys(es)
    ensures Ordered(Sort(es))
  {
    if es != [] {
      SortOrdered(es[1..]);
      SortKeeps(es[1..]);
      var r := Sort(es[1..]);
      forall j | 0 <= j < |r| ensures r[j].key != es[0].key {
        var i :| 0 <= i < |es[1..]| && es[1..][i] == r[j];
        assert es[i + 1] == r[j];
      }
      InsertOrdered(es[0], Sort(es[1..]));
    }
  }

  /** Two ordered lists with the same members are the same list. */
  lemma {:induction false} OrderedUnique<T>(a: seq<Entry<T>>, b: seq<Entry<T>>)
    requires Ordered(a) && Ordered(b)
    requires forall x :: x in a <==> x in b
    ensures a == b
  {
    assert a != [] ==> a[0] in a;
    assert b != [] ==> b[0] in b;
    if a != [] && b != [] {
      HeadsAgree(a, b);
      forall x ensures x in a[1..] <==> x in b[1..] {
        TailMembers(a, x);
        TailMembers(b, x);
      }
      OrderedUnique(a[1..], b[1..]);
      assert a == [a[0]] + a[1..] && b == [b[0]] + b[1..];
    }
  }

  lemma TailMembers<T>(a: seq<Entry<T>>, x: Entry<T>)
    requires a != [] && Ordered(a)
    ensures x in a[1..] <==> x in a && x != a[0]
  {
    assert a == [a[0]] + a[1..];
    if x in a[1..] {
      var i :| 0 <= i < |a[1..]| && a[1..][i] == x;
      assert Before(a[0].key, a[i + 1].key);
      BeforeIrreflexive(a[0].key);
    }
  }

  lemma HeadsAgree<T>(a: seq<Entry<T>>, b: seq<Entry<T>>)
    requires a != [] && b != [] && Ordered(a) && Ordered(b)
    requires forall x :: x in a <==> x in b
    ensures a[0] == b[0]
  {
    assert a[0] in b && b[0] in a;
    var i :| 0 <= i < |b| && b[i] == a[0];
    var j :| 0 <= j < |a| && a[j] == b[0];
    if i > 0 && j > 0 {
      BeforeTransitive(a[0].key, b[0].key, a[0].key);
      BeforeIrreflexive(a[0].key);
    }
  }
}
