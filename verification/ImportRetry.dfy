/** Several runs of one import batch (src/server.js:536-541): when exactly a run
    creates a client for an identity, and so when a retry, or a run that overlaps
    another, creates a second one. */
module ImportRetry {
  import opened BulkImport
  import opened Options

  // ------------------------------------------------------------------
  // When a run creates a client
  // ------------------------------------------------------------------

  predicate Tried(row: Row) {
    !Closed(row) && !row.skip && !row.unresolved
  }

  predicate Refers(row: Row) {
    row.resultClient.Some? || row.mergeClient.Some?
  }

  /** Does the row get as far as a client, if no earlier row of its identity did? */
  predicate Reaches(row: Row, chance: Chance) {
    Tried(row) && chance.fault != (if Refers(row) then AtLookup else AtClient)
  }

  predicate ReachesAt(rows: seq<Row>, chances: seq<Chance>, key: string, i: int)
    requires |rows| == |chances|
  {
    0 <= i < |rows| && KeyOf(rows[i]) == key && Reaches(rows[i], chances[i])
  }

  /** The first row of the identity to get as far as a client, and one that refers
      to none. */
  predicate MakesAt(rows: seq<Row>, chances: seq<Chance>, key: string, i: int)
    requires |rows| == |chances|
  {
    ReachesAt(rows, chances, key, i) && !Refers(rows[i]) && forall j | 0 <= j < i :: !ReachesAt(rows, chances, key, j)
  }

  ghost predicate Unrecorded(rows: seq<Row>, key: string) {
    forall row | row in rows && KeyOf(row) == key :: row.resultClient.None?
  }

  ghost predicate MakesClient(rows: seq<Row>, chances: seq<Chance>, key: string)
    requires |rows| == |chances|
  {
    Unrecorded(rows, key) && exists i :: MakesAt(rows, chances, key, i)
  }

  /** What others store between two rows of the run. */
  datatype Arrival = Arrival(clients: set<ClientId>, cases: set<CaseId>)

  const NOTHING: Arrival := Arrival({}, {})

  /** Identifiers are drawn at random: none is drawn twice or taken. */
  ghost predicate Unique(clients: set<ClientId>, chances: seq<Chance>, arrivals: seq<Arrival>) {
    && (forall i, j | 0 <= i < j < |chances| :: chances[i].clientId != chances[j].clientId)
    && (forall i | 0 <= i < |chances| :: chances[i].clientId !in clients)
    && (forall i, j | 0 <= i < |chances| && 0 <= j < |arrivals| :: chances[i].clientId !in arrivals[j].clients)
  }

  /** The first n rows of a run beside which others store clients and cases. */
  ghost function Amid(start: Progress, rows: seq<Row>, chances: seq<Chance>, arrivals: seq<Arrival>, n: nat): Progress
    requires n <= |rows| == |chances| == |arrivals|
  {
    if n == 0 then start
    else
      var p := Amid(start, rows, chances, arrivals, n - 1);
      Advance(Joined(p, arrivals[n - 1]), rows[n - 1], chances[n - 1])
  }

  function Joined(p: Progress, arrival: Arrival): Progress {
    p.(clients := p.clients + arrival.clients, cases := p.cases + arrival.cases)
  }

  /** One row: what it does to the cache and to the list of clients made. */
  lemma RowMakes(start: Progress, p: Progress, row: Row, chance: Chance, key: string)
    requires Cached(start, p) && References([row], start.clients) && chance.clientId !in p.clients
    ensures var q := Advance(p, row, chance);
      && (key in q.cache <==> key in p.cache || (KeyOf(row) == key && Reaches(row, chance)))
      && (key in q.made <==>
            key in p.made || (KeyOf(row) == key && key !in p.cache && Reaches(row, chance) && !Refers(row)))
      && q.clients <= p.clients + {chance.clientId}
  {
    assert row in [row];
    AdvanceCache(p, row, chance);
    AdvanceMade(p, row, chance);
    hide Advance, WithClient, WithCase, CaseFails, KeyOf;
  }

  /** After n rows: what is cached, and what was made. */
  ghost predicate Told(start: Progress, rows: seq<Row>, chances: seq<Chance>, n: nat, key: string, p: Progress)
    requires n <= |rows| == |chances|
  {
    && (forall i | n <= i < |chances| :: chances[i].clientId !in p.clients)
    && (key in p.cache <==> key in start.cache || exists i :: i < n && ReachesAt(rows, chances, key, i))
    && (key in p.made <==> key !in start.cache && exists i :: i < n && MakesAt(rows, chances, key, i))
  }

  lemma {:induction false} AmidTold(start: Progress, rows: seq<Row>, chances: seq<Chance>, arrivals: seq<Arrival>,
          n: nat, key: string)
    requires n <= |rows| == |chances| == |arrivals|
    requires start.made == [] && Cached(start, start) && References(rows, start.clients)
    requires Unique(start.clients, chances, arrivals)
    ensures Cached(start, Amid(start, rows, chances, arrivals, n))
    ensures Told(start, rows, chances, n, key, Amid(start, rows, chances, arrivals, n))
  {
    if n > 0 {
      AmidTold(start, rows, chances, arrivals, n - 1, key);
      var p := Joined(Amid(start, rows, chances, arrivals, n - 1), arrivals[n - 1]);
      assert References([rows[n - 1]], start.clients) by { assert rows[n - 1] in rows; }
      AdvanceCached(start, p, rows[n - 1], chances[n - 1]);
      RowMakes(start, p, rows[n - 1], chances[n - 1], key);
      ToldMore(start, rows, chances, n, key, p, Amid(start, rows, chances, arrivals, n));
    }
  }

  lemma ToldMore(start: Progress, rows: seq<Row>, chances: seq<Chance>, n: nat, key: string, p: Progress, q: Progress)
    requires 0 < n <= |rows| == |chances|
    requires Told(start, rows, chances, n - 1, key, p)
    requires forall i, j | 0 <= i < j < |chances| :: chances[i].clientId != chances[j].clientId
    requires q.clients <= p.clients + {chances[n - 1].clientId}
    requires key in q.cache <==> key in p.cache || (KeyOf(rows[n - 1]) == key && Reaches(rows[n - 1], chances[n - 1]))
    requires key in q.made <==>
      || key in p.made
      || (KeyOf(rows[n - 1]) == key && key !in p.cache && Reaches(rows[n - 1], chances[n - 1]) && !Refers(rows[n - 1]))
    ensures Told(start, rows, chances, n, key, q)
  {
    hide KeyOf, Reaches, Refers;
    var last := n - 1;
    assert ReachesAt(rows, chances, key, last) <==> KeyOf(rows[last]) == key && Reaches(rows[last], chances[last]);
    assert (exists i :: i < n && ReachesAt(rows, chances, key, i)) <==>
      (exists i :: i < last && ReachesAt(rows, chances, key, i)) || ReachesAt(rows, chances, key, last);
    assert (exists i :: i < n && MakesAt(rows, chances, key, i)) <==>
      (exists i :: i < last && MakesAt(rows, chances, key, i)) || MakesAt(rows, chances, key, last);
    assert key !in start.cache ==>
      (MakesAt(rows, chances, key, last) <==>
        KeyOf(rows[last]) == key && key !in p.cache && Reaches(rows[last], chances[last]) && !Refers(rows[last]));
  }

  lemma SeededExactly(rows: seq<Row>, key: string)
    ensures key !in Seeded(rows) <==> Unrecorded(rows, key)
  {
    SeededFrom(rows);
    if !Unrecorded(rows, key) {
      var row :| row in rows && KeyOf(row) == key && row.resultClient.Some?;
    }
  }

  /** A run, alone or beside others, creates a client for an identity exactly when
      no row of that identity has a client recorded and the first row of it to get
      as far as a client refers to none. */
  lemma MadeExactly(rows: seq<Row>, clients: set<ClientId>, cases: set<CaseId>, chances: seq<Chance>,
          arrivals: seq<Arrival>, key: string)
    requires |rows| == |chances| == |arrivals| && References(rows, clients) && Unique(clients, chances, arrivals)
    ensures key in Amid(Started(rows, clients, cases), rows, chances, arrivals, |rows|).made <==>
      MakesClient(rows, chances, key)
  {
    var start := Started(rows, clients, cases);
    SeededFrom(rows);
    SeededExactly(rows, key);
    assert Cached(start, start);
    AmidTold(start, rows, chances, arrivals, |rows|, key);
    hide KeyOf, Reaches, Refers, Amid, Cached;
    if i :| MakesAt(rows, chances, key, i) {
      assert i < |rows|;
    }
  }

  lemma {:induction false} AmidNothing(start: Progress, rows: seq<Row>, chances: seq<Chance>, arrivals: seq<Arrival>,
          n: nat)
    requires n <= |rows| == |chances| == |arrivals|
    requires forall i | 0 <= i < |arrivals| :: arrivals[i] == NOTHING
    ensures Amid(start, rows, chances, arrivals, n) == Process(start, rows[..n], chances[..n])
  {
    if n > 0 {
      AmidNothing(start, rows, chances, arrivals, n - 1);
      ProcessStep(start, rows, chances, n - 1);
      var p := Process(start, rows[..n - 1], chances[..n - 1]);
      assert Joined(p, NOTHING) == p;
    }
  }

  /** What others stored before a row is there when the row has run. */
  lemma {:induction false} ArrivalsStay(start: Progress, rows: seq<Row>, chances: seq<Chance>, arrivals: seq<Arrival>,
          n: nat, i: nat)
    requires i < n <= |rows| == |chances| == |arrivals|
    ensures var p := Amid(start, rows, chances, arrivals, n);
      arrivals[i].clients <= p.clients && arrivals[i].cases <= p.cases
  {
    var before := Amid(start, rows, chances, arrivals, n - 1);
    if i < n - 1 {
      ArrivalsStay(start, rows, chances, arrivals, n - 1, i);
    }
    var p := Joined(before, arrivals[n - 1]);
    assert before.clients <= p.clients && before.cases <= p.cases;
    ClientsExactly(p, rows[n - 1], chances[n - 1]);
    CasesExactly(p, rows[n - 1], chances[n - 1]);
    hide Advance, CourseOf, Joined;
  }

  function Quiet(n: nat): seq<Arrival> {
    seq(n, i => NOTHING)
  }

  lemma AloneMadeExactly(rows: seq<Row>, clients: set<ClientId>, cases: set<CaseId>, chances: seq<Chance>, key: string)
    requires |rows| == |chances| && References(rows, clients) && Unique(clients, chances, [])
    ensures key in Finished(rows, clients, cases, chances).made <==> MakesClient(rows, chances, key)
  {
    var start, quiet := Started(rows, clients, cases), Quiet(|rows|);
    AmidNothing(start, rows, chances, quiet, |rows|);
    assert rows[..|rows|] == rows && chances[..|rows|] == chances;
    MadeExactly(rows, clients, cases, chances, quiet, key);
  }

  // ------------------------------------------------------------------
  // Second clients
  // ------------------------------------------------------------------

  /** A retry creates a second client for an identity exactly when the first run
      made one, left no row of the identity with a client recorded, and a row of it
      that refers to none is again the first to get as far as a client. */
  lemma RetryDuplicatesExactly(rows: seq<Row>, clients: set<ClientId>, cases: set<CaseId>,
          chances: seq<Chance>, again: seq<Chance>, key: string)
    requires |rows| == |chances| == |again| && References(rows, clients) && Unique(clients, chances, [])
    requires Unique(Finished(rows, clients, cases, chances).clients, again, [])
    ensures |Finished(rows, clients, cases, chances).done| == |again|
    ensures var p := Finished(rows, clients, cases, chances);
      key in p.made && key in Finished(p.done, p.clients, p.cases, again).made <==>
        MakesClient(rows, chances, key) && MakesClient(p.done, again, key)
  {
    RunKept(rows, clients, cases, chances);
    var p := Finished(rows, clients, cases, chances);
    AloneMadeExactly(rows, clients, cases, chances, key);
    AloneMadeExactly(p.done, p.clients, p.cases, again, key);
  }

  /** Two runs that read the batch before either wrote to it, their rows
      interleaved in any way, both create a client for an identity exactly when
      either would alone: nothing either of them stores stops the other. */
  lemma OverlapDuplicatesExactly(rows: seq<Row>, clients: set<ClientId>, cases: set<CaseId>,
          one: seq<Chance>, beside: seq<Arrival>, other: seq<Chance>, beside': seq<Arrival>, key: string)
    requires |rows| == |one| == |beside| == |other| == |beside'| && References(rows, clients)
    requires Unique(clients, one, beside) && Unique(clients, other, beside')
    ensures var start := Started(rows, clients, cases);
      key in Amid(start, rows, one, beside, |rows|).made && key in Amid(start, rows, other, beside', |rows|).made <==>
        MakesClient(rows, one, key) && MakesClient(rows, other, key)
    ensures MakesClient(rows, one, key) <==> key in Finished(rows, clients, cases, one).made
  {
    MadeExactly(rows, clients, cases, one, beside, key);
    MadeExactly(rows, clients, cases, other, beside', key);
    AloneMadeExactly(rows, clients, cases, one, key);
  }

  /** It happens to the simplest of batches: one row, no failure, two runs. */
  lemma OverlapDuplicate() returns (row: Row, one: Chance, other: Chance)
    ensures one.fault == NoFault == other.fault && one.clientId != other.clientId
    ensures var start := Started([row], {}, {});
      && KeyOf(row) in Amid(start, [row], [one], [NOTHING], 1).made
      && KeyOf(row) in Amid(start, [row], [other], [Arrival({one.clientId}, {one.caseId})], 1).made
  {
    row, one, other := SampleRow(), Chance(NoFault, 0, 0), Chance(NoFault, 1, 1);
    assert MakesAt([row], [one], KeyOf(row), 0) && MakesAt([row], [other], KeyOf(row), 0);
    MadeExactly([row], {}, {}, [one], [NOTHING], KeyOf(row));
    MadeExactly([row], {}, {}, [other], [Arrival({one.clientId}, {one.caseId})], KeyOf(row));
  }

  // ------------------------------------------------------------------
  // Any number of runs
  // ------------------------------------------------------------------

  /** A batch with the stored clients and cases. */
  datatype Batch = Batch(rows: seq<Row>, clients: set<ClientId>, cases: set<CaseId>)

  function RunOnce(b: Batch, chances: seq<Chance>): Batch {
    if |chances| != |b.rows| then b
    else
      var p := Finished(b.rows, b.clients, b.cases, chances);
      Batch(p.done, p.clients, p.cases)
  }

  function Runs(b: Batch, runs: seq<seq<Chance>>): Batch {
    if runs == [] then b else RunOnce(Runs(b, runs[..|runs| - 1]), runs[|runs| - 1])
  }

  /** One run more: the loop over the rows the runs before it left. */
  lemma RunsMore(b: Batch, runs: seq<seq<Chance>>, chances: seq<Chance>)
    requires |chances| == |Runs(b, runs).rows|
    ensures Runs(b, []) == b
    ensures var before, after := Runs(b, runs), Runs(b, runs + [chances]);
      var p := Finished(before.rows, before.clients, before.cases, chances);
      after.rows == p.done && after.clients == p.clients && after.cases == p.cases
  {
    assert (runs + [chances])[..|runs|] == runs;
    hide Finished;
  }

  ghost predicate OneClient(b: Batch, key: string, client: Option<ClientId>) {
    References(b.rows, b.clients) && Agreed(b.rows, key, client)
  }

  /** After any number of runs all results of an identity are still one client, and
      the one it had if it had one, unless review chose another for some row. */
  lemma {:induction false} OneClientForever(b: Batch, runs: seq<seq<Chance>>, key: string, client: Option<ClientId>)
    returns (after: Option<ClientId>)
    requires OneClient(b, key, client)
    ensures OneClient(Runs(b, runs), key, after)
    ensures !Unrecorded(b.rows, key) ==> after == client && !Unrecorded(Runs(b, runs).rows, key)
  {
    if runs == [] {
      after := client;
    } else {
      var last := runs[|runs| - 1];
      var middle := OneClientForever(b, runs[..|runs| - 1], key, client);
      var before := Runs(b, runs[..|runs| - 1]);
      if |last| != |before.rows| {
        after := middle;
      } else {
        after := IdentityKeepsItsClient(before.rows, before.clients, before.cases, last, key, middle);
        if !Unrecorded(before.rows, key) {
          RecordedStays(before, last, key);
          var row :| row in before.rows && KeyOf(row) == key && row.resultClient.Some?;
        }
      }
    }
  }

  lemma RecordedStays(b: Batch, chances: seq<Chance>, key: string)
    requires |chances| == |b.rows| && References(b.rows, b.clients) && !Unrecorded(b.rows, key)
    ensures !Unrecorded(RunOnce(b, chances).rows, key)
  {
    hide *;
    RunKept(b.rows, b.clients, b.cases, chances);
    var p := Finished(b.rows, b.clients, b.cases, chances);
    RecordedRow(b, chances, key, p);
  }

  lemma RecordedRow(b: Batch, chances: seq<Chance>, key: string, p: Progress)
    requires |chances| == |b.rows| && !Unrecorded(b.rows, key)
    requires p == Finished(b.rows, b.clients, b.cases, chances) && |p.done| == |b.rows|
    requires forall i | 0 <= i < |b.rows| :: Settles(b.rows[i], p.done[i])
    ensures !Unrecorded(RunOnce(b, chances).rows, key)
  {
    assert RunOnce(b, chances).rows == p.done;
    hide Finished, RunOnce;
    var i :| 0 <= i < |b.rows| && KeyOf(b.rows[i]) == key && b.rows[i].resultClient.Some?;
    assert p.done[i] in p.done && KeyOf(p.done[i]) == key && p.done[i].resultClient.Some?;
  }
}
