/** Reconciliation of the stored findings of a case with the findings a review
  computes (src/server.js:361-376), and its effect on the finding the canonical
  synchronisation leaves (src/server.js:524-525). */
module CaseFindings {
  import opened Json
  import opened Options

  datatype Status = Open | Accepted | Resolved | Dismissed

  datatype Origin = Deterministic | Ai | Human

  /** A stored finding. Rows are never deleted, so a row's id is its position. */
  datatype Row = Row(caseId: nat, origin: Origin, status: Status, key: Option<Text>, fingerprint: Option<Text>)

  /** What the review wants open: the key of each computed finding with its
      fingerprint, the last of several with one key. */
  type Desired = map<Text, Text>

  datatype Computed = Computed(key: Text, fingerprint: Text)

  function DesiredOf(findings: seq<Computed>): Desired {
    if findings == [] then map[]
    else
      var last := findings[|findings| - 1];
      DesiredOf(findings[..|findings| - 1])[last.key := last.fingerprint]
  }

  /** An open deterministic finding of the case. */
  predicate Standing(row: Row, caseId: nat) {
    row.caseId == caseId && row.origin == Deterministic && row.status == Open
  }

  predicate Wanted(row: Row, desired: Desired) {
    row.key.Some? && row.key.value in desired && row.fingerprint == Some(desired[row.key.value])
  }

  ghost predicate StandsFor(rows: seq<Row>, caseId: nat, i: int, key: Text) {
    0 <= i < |rows| && Standing(rows[i], caseId) && rows[i].key == Some(key)
  }

  ghost predicate Covered(rows: seq<Row>, caseId: nat, key: Text) {
    exists i :: StandsFor(rows, caseId, i, key)
  }

  /** The open deterministic findings of the case are exactly one per desired
      key, with the desired fingerprint. */
  ghost predicate Reconciled(rows: seq<Row>, caseId: nat, desired: Desired) {
    && (forall i | 0 <= i < |rows| && Standing(rows[i], caseId) :: Wanted(rows[i], desired))
    && (forall key | key in desired :: Covered(rows, caseId, key))
    && (forall key, i, j | StandsFor(rows, caseId, i, key) && StandsFor(rows, caseId, j, key) :: i == j)
  }

  /** Nothing but the standing findings of the case is touched, and those are at
      most resolved; what is added is open and for this case. */
  ghost predicate OnlyResolvesAndAdds(before: seq<Row>, after: seq<Row>, caseId: nat) {
    && |before| <= |after|
    && (forall i | 0 <= i < |before| ::
          after[i] == before[i] || (Standing(before[i], caseId) && after[i] == before[i].(status := Resolved)))
    && (forall i | |before| <= i < |after| :: Standing(after[i], caseId))
  }

  class FindingTable {
    var rows: seq<Row>
    /** How many statements changed the table. */
    var writes: nat

    constructor (rows: seq<Row>)
      ensures this.rows == rows && writes == 0
    {
      this.rows, writes := rows, 0;
    }

    /** The PATCH of one open row to resolved. */
    method ResolveRow(i: nat)
      requires i < |rows|
      modifies this
      ensures rows == old(rows)[i := if old(rows)[i].status == Open then old(rows)[i].(status := Resolved) else old(rows)[i]]
      ensures writes == old(writes) + (if old(rows)[i].status == Open then 1 else 0)
    {
      if rows[i].status == Open {
        rows := rows[i := rows[i].(status := Resolved)];
        writes := writes + 1;
      }
    }

    /** The POST of one finding. The unique index on open deterministic keys
        answers a duplicate with a conflict, and nothing is stored. */
    method InsertOpen(caseId: nat, key: Text, fingerprint: Text) returns (conflict: bool)
      modifies this
      ensures conflict <==> Covered(old(rows), caseId, key)
      ensures conflict ==> rows == old(rows) && writes == old(writes)
      ensures !conflict ==>
        rows == old(rows) + [Row(caseId, Deterministic, Open, Some(key), Some(fingerprint))] && writes == old(writes) + 1
    {
      var i := 0;
      while i < |rows|
        invariant 0 <= i <= |rows|
        invariant forall k | 0 <= k < i :: !StandsFor(rows, caseId, k, key)
        invariant rows == old(rows) && writes == old(writes)
      {
        if Standing(rows[i], caseId) && rows[i].key == Some(key) {
          assert StandsFor(rows, caseId, i, key);
          return true;
        }
        i := i + 1;
      }
      rows := rows + [Row(caseId, Deterministic, Open, Some(key), Some(fingerprint))];
      writes := writes + 1;
      return false;
    }

    /** Walk the standing findings: a wanted one is kept and its key struck off,
        the others, duplicates included, are resolved. */
    method ResolveStale(caseId: nat, desired: Desired) returns (missing: Desired)
      modifies this
      ensures |rows| == |old(rows)| && OnlyResolvesAndAdds(old(rows), rows, caseId)
      ensures missing.Keys <= desired.Keys && forall key | key in missing :: missing[key] == desired[key]
      ensures Reconciled(rows, caseId, desired - missing.Keys)
      ensures forall key | key in missing :: !Covered(rows, caseId, key)
      ensures Reconciled(old(rows), caseId, desired) ==> rows == old(rows) && writes == old(writes) && missing == map[]
    {
      ghost var before := rows;
      missing := desired;
      var i := 0;
      while i < |rows|
        invariant 0 <= i <= |before| && |rows| == |before|
        invariant rows[i..] == before[i..]
        invariant OnlyResolvesAndAdds(before, rows, caseId)
        invariant missing.Keys <= desired.Keys && forall key | key in missing :: missing[key] == desired[key]
        invariant forall k | 0 <= k < i && Standing(rows[k], caseId) ::
          Wanted(rows[k], desired) && rows[k].key.value !in missing
        invariant forall key | key in desired && key !in missing :: exists k :: k < i && StandsFor(rows, caseId, k, key)
        invariant forall key, j, k |
          j < i && k < i && StandsFor(rows, caseId, j, key) && StandsFor(rows, caseId, k, key) :: j == k
        invariant Reconciled(before, caseId, desired) ==> rows == before && writes == old(writes)
      {
        ghost var here := rows;
        assert rows[i] == rows[i..][0] == before[i..][0] == before[i];
        if Standing(rows[i], caseId) {
          if rows[i].key.Some? && rows[i].key.value in missing && rows[i].fingerprint == Some(missing[rows[i].key.value]) {
            var key := rows[i].key.value;
            assert StandsFor(rows, caseId, i, key);
            missing := missing - {key};
          } else {
            assert Reconciled(before, caseId, desired) ==> false by {
              if Reconciled(before, caseId, desired) {
                assert StandsFor(before, caseId, i, before[i].key.value);
              }
            }
            ResolveRow(i);
            assert forall key, k | k < i :: StandsFor(rows, caseId, k, key) <==> StandsFor(here, caseId, k, key);
          }
        }
        i := i + 1;
      }
    }

    /** The persisted review of a case. Without form instances it stores
        nothing. */
    method PersistReview(caseId: nat, hasForms: bool, findings: seq<Computed>) returns (conflicted: bool)
      modifies this
      ensures Reconciled(rows, caseId, DesiredOf(findings)) <==>
        hasForms || Reconciled(old(rows), caseId, DesiredOf(findings))
      ensures !hasForms ==> rows == old(rows) && writes == old(writes)
      ensures OnlyResolvesAndAdds(old(rows), rows, caseId)
      ensures !conflicted
      ensures Reconciled(old(rows), caseId, DesiredOf(findings)) ==> rows == old(rows) && writes == old(writes)
    {
      conflicted := false;
      if !hasForms { return; }
      var desired := LastByKey(findings);
      var missing := ResolveStale(caseId, desired);
      conflicted := InsertMissing(caseId, desired, missing);
    }

    /** Store what still has no standing finding. */
    method InsertMissing(caseId: nat, ghost desired: Desired, wanted: Desired) returns (conflicted: bool)
      requires wanted.Keys <= desired.Keys && forall key | key in wanted :: wanted[key] == desired[key]
      requires Reconciled(rows, caseId, desired - wanted.Keys)
      requires forall key | key in wanted :: !Covered(rows, caseId, key)
      modifies this
      ensures Reconciled(rows, caseId, desired)
      ensures |rows| >= |old(rows)| && rows[..|old(rows)|] == old(rows)
      ensures forall i | |old(rows)| <= i < |rows| :: Standing(rows[i], caseId)
      ensures !conflicted
      ensures wanted == map[] ==> rows == old(rows) && writes == old(writes)
    {
      conflicted := false;
      var missing := wanted;
      while missing != map[]
        invariant |rows| >= |old(rows)| && rows[..|old(rows)|] == old(rows)
        invariant forall i | |old(rows)| <= i < |rows| :: Standing(rows[i], caseId)
        invariant missing.Keys <= wanted.Keys && forall key | key in missing :: missing[key] == desired[key]
        invariant Reconciled(rows, caseId, desired - missing.Keys)
        invariant forall key | key in missing :: !Covered(rows, caseId, key)
        invariant !conflicted
        invariant wanted == map[] ==> rows == old(rows) && writes == old(writes)
        decreases missing.Keys
      {
        var key :| key in missing;
        ghost var here := rows;
        var conflict := InsertOpen(caseId, key, missing[key]);
        conflicted := conflicted || conflict;
        AddedReconciles(here, rows, caseId, desired - missing.Keys, key, missing[key]);
        assert desired - (missing - {key}).Keys == (desired - missing.Keys)[key := missing[key]];
        missing := missing - {key};
      }
      assert desired - missing.Keys == desired;
    }
  }

  /** A case that has lost its forms: a review of it leaves the finding of a form
      that is gone open. */
  method FormlessReview() returns (table: FindingTable)
    ensures fresh(table)
    ensures !Reconciled(table.rows, 1, DesiredOf([]))
    ensures |table.rows| == 1 && Standing(table.rows[0], 1)
  {
    table := new FindingTable([Row(1, Deterministic, Open, Some([107]), Some([102]))]);
    var conflicted := table.PersistReview(1, false, []);
    assert Standing(table.rows[0], 1) && !Wanted(table.rows[0], DesiredOf([]));
  }

  /** Later findings replace earlier ones with the same key. */
  method LastByKey(findings: seq<Computed>) returns (desired: Desired)
    ensures desired == DesiredOf(findings)
  {
    desired := map[];
    for i := 0 to |findings|
      invariant desired == DesiredOf(findings[..i])
    {
      assert findings[..i + 1][..i] == findings[..i];
      desired := desired[findings[i].key := findings[i].fingerprint];
    }
    assert findings[..|findings|] == findings;
  }

  lemma AddedReconciles(before: seq<Row>, after: seq<Row>, caseId: nat, desired: Desired, key: Text, fingerprint: Text)
    requires Reconciled(before, caseId, desired)
    requires !Covered(before, caseId, key)
    requires after == before + [Row(caseId, Deterministic, Open, Some(key), Some(fingerprint))]
    ensures Reconciled(after, caseId, desired[key := fingerprint])
    ensures forall k | k != key :: Covered(after, caseId, k) <==> Covered(before, caseId, k)
  {
    assert StandsFor(after, caseId, |before|, key);
    forall k | k != key ensures Covered(after, caseId, k) <==> Covered(before, caseId, k) {
      if i :| StandsFor(before, caseId, i, k) { assert StandsFor(after, caseId, i, k); }
      if i :| StandsFor(after, caseId, i, k) { assert StandsFor(before, caseId, i, k); }
    }
    forall k | k in desired[key := fingerprint] ensures Covered(after, caseId, k) {
      assert k != key ==> Covered(before, caseId, k);
    }
    forall k, i, j | StandsFor(after, caseId, i, k) && StandsFor(after, caseId, j, k) ensures i == j {
      assert i < |before| ==> StandsFor(before, caseId, i, k);
      assert j < |before| ==> StandsFor(before, caseId, j, k);
    }
    forall i | 0 <= i < |after| && Standing(after[i], caseId) ensures Wanted(after[i], desired[key := fingerprint]) {
      if i < |before| {
        assert after[i] == before[i];
        assert StandsFor(before, caseId, i, before[i].key.value);
      }
    }
  }

  // ------------------------------------------------------------------
  // Consequences
  // ------------------------------------------------------------------

  /** Lower-case hexadecimal, 64 units: what a digest looks like. */
  predicate IsDigest(t: Text) {
    |t| == 64 && forall c | c in t :: c in Ascii("0123456789abcdef")
  }

  /** The key of the finding the canonical synchronisation leaves on a final form:
      these words and the form's id. */
  predicate IsChangeKey(t: Text) {
    Ascii("canonical-change-after-final:") <= t
  }

  /** The words have a hyphen, a digest has none. */
  lemma NoChangeKey(t: Text)
    requires IsDigest(t)
    ensures !IsChangeKey(t)
  {
    var words, digits := "canonical-change-after-final:", "0123456789abcdef";
    assert words[9] == '-' && Ascii(words)[9] == 45;
    assert forall i | 0 <= i < 16 :: Ascii(digits)[i] == digits[i] as int != 45;
    assert t[9] in t;
  }

  lemma {:induction false} DesiredKeys(findings: seq<Computed>)
    ensures forall key | key in DesiredOf(findings) :: exists f | f in findings :: f.key == key
  {
    if findings != [] {
      DesiredKeys(findings[..|findings| - 1]);
      assert findings == findings[..|findings| - 1] + [findings[|findings| - 1]];
    }
  }

  /** The last of the findings with the key. */
  ghost predicate LastWith(findings: seq<Computed>, key: Text, i: int) {
    0 <= i < |findings| && findings[i].key == key && forall j | i < j < |findings| :: findings[j].key != key
  }

  /** What is desired is the last finding computed for each key. */
  lemma {:induction false} DesiredExactly(findings: seq<Computed>, key: Text)
    ensures key in DesiredOf(findings) <==> exists f | f in findings :: f.key == key
    ensures forall i | LastWith(findings, key, i) ::
      key in DesiredOf(findings) && DesiredOf(findings)[key] == findings[i].fingerprint
  {
    if findings != [] {
      var init, last := findings[..|findings| - 1], findings[|findings| - 1];
      DesiredExactly(init, key);
      assert findings == init + [last];
      forall i | LastWith(findings, key, i) && i < |init| ensures LastWith(init, key, i) && last.key != key {
        assert findings[|init|] == last;
      }
    }
  }

  /** No review computes the finding about canonical data changed after a form
      was finalised, so the next persisted review of a case that has forms
      resolves it, blocker or not. */
  lemma ChangeAfterFinalResolved(before: seq<Row>, after: seq<Row>, caseId: nat, findings: seq<Computed>,
          i: nat, key: Text)
    requires forall f | f in findings :: IsDigest(f.key)
    requires IsChangeKey(key) && StandsFor(before, caseId, i, key)
    requires OnlyResolvesAndAdds(before, after, caseId) && Reconciled(after, caseId, DesiredOf(findings))
    ensures after[i] == before[i].(status := Resolved)
    ensures !Covered(after, caseId, key)
  {
    DesiredKeys(findings);
    if IsDigest(key) { NoChangeKey(key); }
    assert key !in DesiredOf(findings);
  }
}
