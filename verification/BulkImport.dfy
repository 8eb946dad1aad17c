/** Processing an approved import batch (src/server.js:535-543): the loop over
    its rows and the fold it computes. Every statement that records progress
    succeeds; everything else a row needs can fail. */
module BulkImport {
  import opened ClientIdentity
  import opened Options

  type ClientId = nat
  type CaseId = nat

  // ------------------------------------------------------------------
  // Rows and the stored state
  // ------------------------------------------------------------------

  datatype RowStatus = Waiting | Completed | Skipped | Failed

  /** `unresolved` is a row with validation errors, or with a possible duplicate
      nobody chose a client for. */
  datatype Row = Row(
    identity: Identity,
    status: RowStatus,
    skip: bool,
    unresolved: bool,
    mergeClient: Option<ClientId>,
    matchedCase: Option<CaseId>,
    wantsCase: bool,
    resultClient: Option<ClientId>,
    resultCase: Option<CaseId>)

  predicate Closed(row: Row) { row.status == Completed || row.status == Skipped }

  function KeyOf(row: Row): string { IdentityKey(row.identity) }

  /** Where the database fails a row, if it does, and the identifiers drawn for
      what the row may create. */
  datatype Fault = NoFault | AtLookup | AtClient | AtCase | AfterCase

  datatype Chance = Chance(fault: Fault, clientId: ClientId, caseId: CaseId)

  datatype BatchStatus = Draft | Approved | Processing | Complete | Unfinished

  /** `made` lists the identity keys of the rows clients were created for, and
      `orphans` the cases of rows that failed after their case was stored. */
  datatype Progress = Progress(
    done: seq<Row>,
    cache: map<string, ClientId>,
    clients: set<ClientId>,
    cases: set<CaseId>,
    processed: nat,
    createdClients: nat,
    createdCases: nat,
    skipped: nat,
    failed: nat,
    made: seq<string>,
    orphans: set<CaseId>)

  // ------------------------------------------------------------------
  // One row
  // ------------------------------------------------------------------

  /** The client a row refers to: its own result, the client chosen in review,
      or the client of an earlier row with the same identity. */
  function Wanted(p: Progress, row: Row): Option<ClientId> {
    if row.resultClient.Some? then row.resultClient
    else if row.mergeClient.Some? then row.mergeClient
    else if KeyOf(row) in p.cache then Some(p.cache[KeyOf(row)])
    else None
  }

  predicate Creates(p: Progress, row: Row) {
    Wanted(p, row).None? || Wanted(p, row).value !in p.clients
  }

  predicate ClientFails(p: Progress, row: Row, chance: Chance) {
    || (Wanted(p, row).Some? && chance.fault == AtLookup)
    || (Creates(p, row) && (chance.fault == AtClient || chance.clientId in p.clients))
  }

  function ClientOf(p: Progress, row: Row, chance: Chance): ClientId {
    if Creates(p, row) then chance.clientId else Wanted(p, row).value
  }

  function WithClient(p: Progress, row: Row, chance: Chance): Progress {
    var c := ClientOf(p, row, chance);
    var q := p.(cache := p.cache[KeyOf(row) := c]);
    if Creates(p, row)
    then q.(clients := p.clients + {c}, createdClients := p.createdClients + 1, made := p.made + [KeyOf(row)])
    else q
  }

  predicate InsertsCase(row: Row) {
    row.resultCase.None? && row.matchedCase.None? && row.wantsCase
  }

  predicate TouchesCase(row: Row) {
    row.resultCase.Some? || row.matchedCase.Some? || row.wantsCase
  }

  predicate CaseFails(p: Progress, row: Row, chance: Chance) {
    || (TouchesCase(row) && chance.fault == AtCase)
    || (InsertsCase(row) && (chance.fault == AfterCase || chance.caseId in p.cases))
  }

  /** The case a row that does not fail ends up with. */
  function CaseOf(p: Progress, row: Row, chance: Chance): Option<CaseId> {
    if row.resultCase.Some? then (if row.resultCase.value in p.cases then row.resultCase else None)
    else if row.matchedCase.Some? then (if row.matchedCase.value in p.cases then row.matchedCase else None)
    else if row.wantsCase then Some(chance.caseId)
    else None
  }

  function WithCase(p: Progress, row: Row, chance: Chance): Progress {
    if !InsertsCase(row) || chance.fault == AtCase || chance.caseId in p.cases then p
    else
      var q := p.(cases := p.cases + {chance.caseId});
      if chance.fault == AfterCase then q.(orphans := p.orphans + {chance.caseId})
      else q.(createdCases := p.createdCases + 1)
  }

  function Close(p: Progress, row: Row): Progress {
    match row.status
    case Completed => p.(done := p.done + [row], processed := p.processed + 1)
    case Skipped => p.(done := p.done + [row], processed := p.processed + 1, skipped := p.skipped + 1)
    case Failed => p.(done := p.done + [row], failed := p.failed + 1)
    case Waiting => p
  }

  function Advance(p: Progress, row: Row, chance: Chance): Progress {
    if Closed(row) then Close(p, row)
    else if row.skip then Close(p, row.(status := Skipped))
    else if row.unresolved || ClientFails(p, row, chance) then Close(p, row.(status := Failed))
    else
      var q := WithClient(p, row, chance);
      var r := WithCase(q, row, chance);
      if CaseFails(q, row, chance) then Close(r, row.(status := Failed))
      else
        Close(r, row.(status := Completed,
                      resultClient := Some(ClientOf(p, row, chance)), resultCase := CaseOf(q, row, chance)))
  }

  function Process(p: Progress, rows: seq<Row>, chances: seq<Chance>): Progress
    requires |rows| == |chances|
  {
    if rows == [] then p
    else Advance(Process(p, rows[..|rows| - 1], chances[..|rows| - 1]), rows[|rows| - 1], chances[|rows| - 1])
  }

  lemma ProcessStep(p: Progress, rows: seq<Row>, chances: seq<Chance>, i: nat)
    requires |rows| == |chances| && i < |rows|
    ensures Process(p, rows[..i + 1], chances[..i + 1]) == Advance(Process(p, rows[..i], chances[..i]), rows[i], chances[i])
  {
    assert rows[..i + 1][..i] == rows[..i] && chances[..i + 1][..i] == chances[..i];
  }

  /** The identities whose client is already known, the last row of each. */
  function Seeded(rows: seq<Row>): map<string, ClientId> {
    if rows == [] then map[]
    else
      var before, last := Seeded(rows[..|rows| - 1]), rows[|rows| - 1];
      if last.resultClient.Some? then before[KeyOf(last) := last.resultClient.value] else before
  }

  function ResultClients(rows: seq<Row>): set<ClientId> {
    set row | row in rows && row.resultClient.Some? :: row.resultClient.value
  }

  function ResultCases(rows: seq<Row>): set<CaseId> {
    set row | row in rows && row.resultCase.Some? :: row.resultCase.value
  }

  function Started(rows: seq<Row>, clients: set<ClientId>, cases: set<CaseId>): Progress {
    Progress([], Seeded(rows), clients, cases, 0, |ResultClients(rows)|, |ResultCases(rows)|, 0, 0, [], {})
  }

  function Finished(rows: seq<Row>, clients: set<ClientId>, cases: set<CaseId>, chances: seq<Chance>): Progress
    requires |rows| == |chances|
  {
    Process(Started(rows, clients, cases), rows, chances)
  }

  // ------------------------------------------------------------------
  // The batch
  // ------------------------------------------------------------------

  predicate Runnable(status: BatchStatus) {
    status == Approved || status == Processing || status == Unfinished
  }

  class Import {
    var status: BatchStatus
    var rows: seq<Row>
    var clients: set<ClientId>
    var cases: set<CaseId>
    var processed: nat
    var createdClients: nat
    var createdCases: nat
    var skipped: nat
    var failed: nat

    constructor (status: BatchStatus, rows: seq<Row>, clients: set<ClientId>, cases: set<CaseId>)
      ensures this.status == status && this.rows == rows && this.clients == clients && this.cases == cases
    {
      this.status, this.rows, this.clients, this.cases := status, rows, clients, cases;
      processed, createdClients, createdCases, skipped, failed := 0, 0, 0, 0, 0;
    }

    /** Do the fields and the cache hold this progress, with the rows up to i done
        and the others still to do? */
    ghost predicate Holds(p: Progress, cache: map<string, ClientId>, i: nat, all: seq<Row>)
      reads this
    {
      && |rows| == |all| && |p.done| == i <= |all|
      && rows == p.done + all[i..]
      && cache == p.cache && clients == p.clients && cases == p.cases
      && processed == p.processed && skipped == p.skipped && failed == p.failed
      && createdClients == p.createdClients && createdCases == p.createdCases
    }

    /** One row up to its completion; false when an exception ends it. */
    method ImportRow(row: Row, cache: map<string, ClientId>, chance: Chance, ghost p: Progress)
      returns (cache': map<string, ClientId>, ok: bool, client: ClientId, found: Option<CaseId>)
      requires p.cache == cache && p.clients == clients && p.cases == cases
      requires p.createdClients == createdClients && p.createdCases == createdCases
      modifies this`clients, this`cases, this`createdClients, this`createdCases
      ensures var q := WithClient(p, row, chance);
        var r := if ClientFails(p, row, chance) then p else WithCase(q, row, chance);
        && cache' == r.cache && clients == r.clients && cases == r.cases
        && createdClients == r.createdClients && createdCases == r.createdCases
        && (ok <==> !ClientFails(p, row, chance) && !CaseFails(q, row, chance))
        && (ok ==> client == ClientOf(p, row, chance) && found == CaseOf(q, row, chance))
    {
      var key := KeyOf(row);
      cache', ok, client, found := cache, false, 0, None;
      var wanted :=
        if row.resultClient.Some? then row.resultClient
        else if row.mergeClient.Some? then row.mergeClient
        else if key in cache then Some(cache[key]) else None;
      if wanted.Some? && chance.fault == AtLookup { return; }
      if wanted.Some? && wanted.value in clients {
        client := wanted.value;
      } else {
        if chance.fault == AtClient || chance.clientId in clients { return; }
        client := chance.clientId;
        clients := clients + {client};
        createdClients := createdClients + 1;
      }
      cache' := cache[key := client];
      if row.matchedCase.Some? && row.resultCase.None? {
        if chance.fault == AtCase { return; }
        if row.matchedCase.value in cases { found := row.matchedCase; }
      } else if row.wantsCase && row.resultCase.None? {
        if chance.fault == AtCase || chance.caseId in cases { return; }
        cases := cases + {chance.caseId};
        if chance.fault == AfterCase { return; }
        found := Some(chance.caseId);
        createdCases := createdCases + 1;
      } else if row.resultCase.Some? {
        if chance.fault == AtCase { return; }
        if row.resultCase.value in cases { found := row.resultCase; }
      }
      ok := true;
    }

    /** One turn of the loop. */
    method OneRow(i: nat, cache: map<string, ClientId>, chance: Chance, ghost p: Progress, ghost all: seq<Row>)
      returns (cache': map<string, ClientId>)
      requires i < |all| && Holds(p, cache, i, all)
      modifies this`rows, this`clients, this`cases
      modifies this`processed, this`skipped, this`failed, this`createdClients, this`createdCases
      ensures Holds(Advance(p, all[i], chance), cache', i + 1, all)
    {
      var row := rows[i];
      assert row == all[i] && forall x :: rows[i := x] == p.done + [x] + all[i + 1..];
      assert rows == p.done + [row] + all[i + 1..];
      cache' := cache;
      if row.status == Completed || row.status == Skipped {
        processed := processed + 1;
        if row.status == Skipped { skipped := skipped + 1; }
        return;
      }
      if row.skip {
        rows := rows[i := row.(status := Skipped)];
        processed, skipped := processed + 1, skipped + 1;
        return;
      }
      var ok, client, found := false, 0, None;
      if !row.unresolved {
        cache', ok, client, found := ImportRow(row, cache, chance, p);
      }
      if ok {
        rows := rows[i := row.(status := Completed, resultClient := Some(client), resultCase := found)];
        processed := processed + 1;
      } else {
        failed := failed + 1;
        rows := rows[i := row.(status := Failed)];
      }
    }

    /** Run the batch. A batch that is not waiting to run is left alone. */
    method ProcessImport(chances: seq<Chance>) returns (ok: bool)
      requires |chances| == |rows|
      modifies this
      ensures Runnable(old(status)) <==> old(status) in {Approved, Processing, Unfinished}
      ensures !Runnable(old(status)) ==>
        ok && status == old(status) && rows == old(rows) && clients == old(clients) && cases == old(cases)
      ensures Runnable(old(status)) ==>
        var p := Finished(old(rows), old(clients), old(cases), chances);
        && rows == p.done && clients == p.clients && cases == p.cases
        && processed == p.processed && skipped == p.skipped && failed == p.failed
        && createdClients == p.createdClients && createdCases == p.createdCases
        && status == (if p.failed == 0 then Complete else Unfinished)
        && (ok <==> p.failed == 0)
    {
      if status != Approved && status != Processing && status != Unfinished { return true; }
      status := Processing;
      var cache := Seeded(rows);
      processed, skipped, failed := 0, 0, 0;
      createdClients, createdCases := |ResultClients(rows)|, |ResultCases(rows)|;
      ghost var all, start := rows, Started(rows, clients, cases);
      ghost var p := start;
      for i := 0 to |rows|
        invariant |rows| == |all|
        invariant p == Process(start, all[..i], chances[..i])
        invariant Holds(p, cache, i, all)
      {
        ProcessStep(start, all, chances, i);
        hide *;
        ghost var q := Advance(p, all[i], chances[i]);
        cache := OneRow(i, cache, chances[i], p, all);
        p := q;
      }
      assert all[..|all|] == all && chances[..|all|] == chances && all[|all|..] == [];
      status := if failed > 0 then Unfinished else Complete;
      ok := failed == 0;
    }
  }

  // ------------------------------------------------------------------
  // Counts
  // ------------------------------------------------------------------

  function Tally(rows: seq<Row>, status: RowStatus): nat {
    if rows == [] then 0
    else Tally(rows[..|rows| - 1], status) + (if rows[|rows| - 1].status == status then 1 else 0)
  }

  lemma TallyAdd(rows: seq<Row>, row: Row, status: RowStatus)
    ensures Tally(rows + [row], status) == Tally(rows, status) + (if row.status == status then 1 else 0)
  {
    assert (rows + [row])[..|rows|] == rows;
  }

  /** The counters say what the rows say; every client and case stored since the
      start is counted or, if its row failed, left over. */
  ghost predicate Counted(start: Progress, p: Progress) {
    && p.processed == Tally(p.done, Completed) + Tally(p.done, Skipped)
    && p.skipped == Tally(p.done, Skipped)
    && p.failed == Tally(p.done, Failed)
    && p.processed + p.failed == |p.done|
    && start.clients <= p.clients && |p.clients| == |start.clients| + |p.made|
    && p.createdClients == start.createdClients + |p.made|
    && start.cases <= p.cases && p.orphans <= p.cases - start.cases
    && |p.cases| == |start.cases| + (p.createdCases - start.createdCases) + |p.orphans|
  }

  lemma CloseCounted(start: Progress, p: Progress, row: Row)
    requires Counted(start, p) && row.status != Waiting
    ensures Counted(start, Close(p, row))
  {
    TallyAdd(p.done, row, Completed);
    TallyAdd(p.done, row, Skipped);
    TallyAdd(p.done, row, Failed);
  }

  lemma ClientCounted(start: Progress, p: Progress, row: Row, chance: Chance)
    requires Counted(start, p) && !ClientFails(p, row, chance)
    ensures Counted(start, WithClient(p, row, chance))
  {
  }

  lemma CaseCounted(start: Progress, p: Progress, row: Row, chance: Chance)
    requires Counted(start, p)
    ensures Counted(start, WithCase(p, row, chance))
  {
  }

  lemma AdvanceCounted(start: Progress, p: Progress, row: Row, chance: Chance)
    requires Counted(start, p)
    ensures Counted(start, Advance(p, row, chance))
  {
    if !Closed(row) && !row.skip && !row.unresolved && !ClientFails(p, row, chance) {
      var q := WithClient(p, row, chance);
      ClientCounted(start, p, row, chance);
      CaseCounted(start, q, row, chance);
      var closed := if CaseFails(q, row, chance) then row.(status := Failed)
        else row.(status := Completed, resultClient := Some(ClientOf(p, row, chance)), resultCase := CaseOf(q, row, chance));
      CloseCounted(start, WithCase(q, row, chance), closed);
    } else {
      var closed := if Closed(row) then row else row.(status := if row.skip then Skipped else Failed);
      CloseCounted(start, p, closed);
    }
  }

  lemma {:induction false} ProcessCounted(start: Progress, rows: seq<Row>, chances: seq<Chance>)
    requires |rows| == |chances| && Counted(start, start)
    ensures Counted(start, Process(start, rows, chances))
  {
    if rows != [] {
      var n := |rows| - 1;
      ProcessCounted(start, rows[..n], chances[..n]);
      AdvanceCounted(start, Process(start, rows[..n], chances[..n]), rows[n], chances[n]);
    }
  }

  // ------------------------------------------------------------------
  // What becomes of each row
  // ------------------------------------------------------------------

  /** Closed rows stay; the others end up completed with a client, skipped when
      review said so, or failed with nothing recorded. */
  predicate Settles(row: Row, after: Row) {
    if Closed(row) then after == row
    else if row.skip then after == row.(status := Skipped)
    else
      || after == row.(status := Failed)
      || (&& !row.unresolved && after.status == Completed && after.resultClient.Some?
          && after == row.(status := Completed, resultClient := after.resultClient, resultCase := after.resultCase))
  }

  /** The row as the loop leaves it. */
  function After(p: Progress, row: Row, chance: Chance): Row {
    if Closed(row) then row
    else if row.skip then row.(status := Skipped)
    else if row.unresolved || ClientFails(p, row, chance) || CaseFails(WithClient(p, row, chance), row, chance)
    then row.(status := Failed)
    else row.(status := Completed, resultClient := Some(ClientOf(p, row, chance)),
              resultCase := CaseOf(WithClient(p, row, chance), row, chance))
  }

  lemma AdvanceDone(p: Progress, row: Row, chance: Chance)
    ensures Advance(p, row, chance).done == p.done + [After(p, row, chance)]
    ensures Settles(row, After(p, row, chance)) && After(p, row, chance).status != Waiting
  {
  }

  lemma {:induction false} RowsSettle(start: Progress, rows: seq<Row>, chances: seq<Chance>)
    requires |rows| == |chances| && start.done == []
    ensures var done := Process(start, rows, chances).done;
      |done| == |rows| && forall i | 0 <= i < |rows| :: Settles(rows[i], done[i]) && done[i].status != Waiting
  {
    if rows != [] {
      var n := |rows| - 1;
      RowsSettle(start, rows[..n], chances[..n]);
      var p := Process(start, rows[..n], chances[..n]);
      AdvanceDone(p, rows[n], chances[n]);
      hide Advance, Settles, After;
      assert forall i | 0 <= i < n :: rows[..n][i] == rows[i];
    }
  }

  /** What decides about one row: whether it is tried, the client it refers to,
      whether a client is to be created, whether it gets as far as a client, and what
      it does about a case. */
  datatype Course = Course(tried: bool, refers: Option<ClientId>, creates: bool, reaches: bool, inserts: bool,
                           touches: bool)

  function CourseOf(p: Progress, row: Row, chance: Chance): Course {
    var key := IdentityKey(row.identity);
    var tried := row.status in {Waiting, Failed} && !row.skip && !row.unresolved;
    var refers := match row.resultClient
      case Some(client) => Some(client)
      case None =>
        match row.mergeClient
        case Some(client) => Some(client)
        case None => if key in p.cache then Some(p.cache[key]) else None;
    var creates := forall client | client in p.clients :: refers != Some(client);
    Course(tried, refers, creates,
           && tried && (refers != None ==> chance.fault != AtLookup)
           && (creates ==> chance.fault != AtClient && chance.clientId !in p.clients),
           row.resultCase == None == row.matchedCase && row.wantsCase,
           row.resultCase != None || row.matchedCase != None || row.wantsCase)
  }

  lemma CourseExactly(p: Progress, row: Row, chance: Chance)
    ensures var c := CourseOf(p, row, chance);
      && (c.tried <==> !Closed(row) && !row.skip && !row.unresolved)
      && c.refers == Wanted(p, row) && (c.creates <==> Creates(p, row))
      && (c.reaches <==> c.tried && !ClientFails(p, row, chance))
      && (c.inserts <==> InsertsCase(row)) && (c.touches <==> TouchesCase(row))
  {
    hide IdentityKey;
  }

  /** The clients: one is stored, cached, counted and listed as made exactly for a
      row that gets as far as a client and refers to no stored one; such a row
      caches its client in any case. */
  lemma ClientsExactly(p: Progress, row: Row, chance: Chance)
    ensures var q, c, key := Advance(p, row, chance), CourseOf(p, row, chance), IdentityKey(row.identity);
      && q.clients == (if c.reaches && c.creates then p.clients + {chance.clientId} else p.clients)
      && q.createdClients == p.createdClients + (if c.reaches && c.creates then 1 else 0)
      && q.made == p.made + (if c.reaches && c.creates then [key] else [])
      && q.cache == (if !c.reaches then p.cache
                     else p.cache[key := if c.creates then chance.clientId else c.refers.value])
  {
    CourseExactly(p, row, chance);
    assert KeyOf(row) == IdentityKey(row.identity);
    AdvanceMade(p, row, chance);
    AdvanceCache(p, row, chance);
    hide IdentityKey, CourseOf, KeyOf, Wanted;
  }

  /** The cases: one is stored exactly for a row that gets as far as a client, asks
      for a case and has none, unless that statement fails; it is counted unless
      something after it fails, and then left over. */
  lemma CasesExactly(p: Progress, row: Row, chance: Chance)
    ensures var q, c := Advance(p, row, chance), CourseOf(p, row, chance);
      var stores := c.reaches && c.inserts && chance.fault != AtCase && chance.caseId !in p.cases;
      && q.cases == (if stores then p.cases + {chance.caseId} else p.cases)
      && q.createdCases == p.createdCases + (if stores && chance.fault != AfterCase then 1 else 0)
      && q.orphans == (if stores && chance.fault == AfterCase then p.orphans + {chance.caseId} else p.orphans)
  {
    CourseExactly(p, row, chance);
    hide IdentityKey, CourseOf, KeyOf, Wanted, Creates;
  }

  /** The row: closed rows stay, others are skipped where review said so, completed
      where no statement fails, and failed otherwise; and the counters follow. */
  lemma RowExactly(p: Progress, row: Row, chance: Chance)
    ensures var q, c := Advance(p, row, chance), CourseOf(p, row, chance);
      var closed := row.status in {Completed, Skipped};
      var completes := c.reaches && !(c.touches && chance.fault == AtCase)
        && !(c.inserts && (chance.fault == AfterCase || chance.caseId in p.cases));
      var stored := (x: Option<CaseId>) => if x.Some? && x.value in p.cases then x else None;
      var after :=
        if closed then row
        else if row.skip then row.(status := Skipped)
        else if !completes then row.(status := Failed)
        else row.(status := Completed,
                  resultClient := Some(if c.creates then chance.clientId else c.refers.value),
                  resultCase := if row.resultCase != None then stored(row.resultCase)
                                else if row.matchedCase != None then stored(row.matchedCase)
                                else if row.wantsCase then Some(chance.caseId) else None);
      && q.done == p.done + [after]
      && q.processed == p.processed + (if after.status == Failed then 0 else 1)
      && q.skipped == p.skipped + (if after.status == Skipped then 1 else 0)
      && q.failed == p.failed + (if after.status == Failed then 1 else 0)
  {
    CourseExactly(p, row, chance);
    AdvanceDone(p, row, chance);
    hide IdentityKey, CourseOf, KeyOf, Wanted, Creates;
  }

  /** The books of one run. */
  lemma RunBooks(rows: seq<Row>, clients: set<ClientId>, cases: set<CaseId>, chances: seq<Chance>)
    requires |rows| == |chances|
    ensures var p := Finished(rows, clients, cases, chances);
      && |p.done| == |rows| && p.processed + p.failed == |rows| && p.skipped <= p.processed
      && (forall i | 0 <= i < |rows| :: Settles(rows[i], p.done[i]) && p.done[i].status != Waiting)
      && p.processed == Tally(p.done, Completed) + Tally(p.done, Skipped)
      && p.failed == Tally(p.done, Failed)
      && |p.clients| == |clients| + |p.made|
      && p.createdClients == |ResultClients(rows)| + |p.made|
      && |p.cases| == |cases| + (p.createdCases - |ResultCases(rows)|) + |p.orphans|
  {
    ProcessCounted(Started(rows, clients, cases), rows, chances);
    RowsSettle(Started(rows, clients, cases), rows, chances);
  }

  // ------------------------------------------------------------------
  // One client an identity
  // ------------------------------------------------------------------

  /** Every client a row refers to is stored. */
  ghost predicate References(rows: seq<Row>, clients: set<ClientId>) {
    forall row | row in rows ::
      && (row.resultClient.Some? ==> row.resultClient.value in clients)
      && (row.mergeClient.Some? ==> row.mergeClient.value in clients)
  }

  ghost predicate Distinct(keys: seq<string>) {
    forall i, j | 0 <= i < j < |keys| :: keys[i] != keys[j]
  }

  /** What is cached is stored, and what was made is cached. */
  ghost predicate Cached(start: Progress, p: Progress) {
    && start.clients <= p.clients
    && start.cache.Keys <= p.cache.Keys
    && (forall key | key in p.cache :: p.cache[key] in p.clients)
    && (forall key | key in p.made :: key in p.cache && key !in start.cache)
    && Distinct(p.made)
  }

  lemma AdvanceCached(start: Progress, p: Progress, row: Row, chance: Chance)
    requires Cached(start, p) && References([row], start.clients)
    ensures Cached(start, Advance(p, row, chance))
  {
    assert row in [row];
    var q := Advance(p, row, chance);
    AdvanceCache(p, row, chance);
    AdvanceMade(p, row, chance);
    assert Creates(p, row) ==> KeyOf(row) !in p.cache;
    hide Advance, WithClient, WithCase, CaseFails;
  }

  /** It is a new one if none was wanted or the one wanted is not stored. */
  lemma AdvanceMade(p: Progress, row: Row, chance: Chance)
    ensures var made := !Closed(row) && !row.skip && !row.unresolved && !ClientFails(p, row, chance) && Creates(p, row);
      var q := Advance(p, row, chance);
      && q.clients == (if made then p.clients + {ClientOf(p, row, chance)} else p.clients)
      && q.made == (if made then p.made + [KeyOf(row)] else p.made)
  {
  }

  lemma {:induction false} ProcessCached(start: Progress, rows: seq<Row>, chances: seq<Chance>)
    requires |rows| == |chances| && Cached(start, start) && References(rows, start.clients)
    ensures Cached(start, Process(start, rows, chances))
  {
    if rows != [] {
      var n := |rows| - 1;
      assert forall row | row in rows[..n] :: row in rows;
      ProcessCached(start, rows[..n], chances[..n]);
      assert rows[n] in rows;
      AdvanceCached(start, Process(start, rows[..n], chances[..n]), rows[n], chances[n]);
    }
  }

  lemma {:induction false} SeededFrom(rows: seq<Row>)
    ensures forall key :: key in Seeded(rows) <==> exists row :: row in rows && row.resultClient.Some? && KeyOf(row) == key
    ensures forall key | key in Seeded(rows) ::
      exists row :: row in rows && row.resultClient == Some(Seeded(rows)[key]) && KeyOf(row) == key
  {
    if rows != [] {
      var init, last := rows[..|rows| - 1], rows[|rows| - 1];
      SeededFrom(init);
      assert rows == init + [last];
      forall key | key in Seeded(rows)
        ensures exists row :: row in rows && row.resultClient == Some(Seeded(rows)[key]) && KeyOf(row) == key
      {
        if last.resultClient.Some? && KeyOf(last) == key {
          assert last in rows;
        } else {
          assert key in Seeded(init) && Seeded(rows)[key] == Seeded(init)[key];
          var row :| row in init && row.resultClient == Some(Seeded(init)[key]) && KeyOf(row) == key;
          assert row in rows;
        }
      }
      forall row | row in rows && row.resultClient.Some? ensures KeyOf(row) in Seeded(rows) {
        if row in init {
          assert KeyOf(row) in Seeded(init);
        }
      }
    }
  }

  /** The client cached for an identity at the start is that of the last row that
      has one recorded. */
  lemma {:induction false} SeededLast(rows: seq<Row>, i: nat)
    requires i < |rows| && rows[i].resultClient.Some?
    requires forall j | i < j < |rows| && KeyOf(rows[j]) == KeyOf(rows[i]) :: rows[j].resultClient.None?
    ensures KeyOf(rows[i]) in Seeded(rows) && Seeded(rows)[KeyOf(rows[i])] == rows[i].resultClient.value
  {
    hide KeyOf;
    if i < |rows| - 1 {
      assert forall j | 0 <= j < |rows| - 1 :: rows[..|rows| - 1][j] == rows[j];
      SeededLast(rows[..|rows| - 1], i);
    }
  }

  /** In one run at most one client is created for an identity, and none for an
      identity that had a result before, if the clients rows refer to are found. */
  lemma OneClientAnIdentity(rows: seq<Row>, clients: set<ClientId>, cases: set<CaseId>, chances: seq<Chance>)
    requires |rows| == |chances| && References(rows, clients)
    ensures var p := Finished(rows, clients, cases, chances);
      Distinct(p.made) && forall row | row in rows && row.resultClient.Some? :: KeyOf(row) !in p.made
  {
    var start := Started(rows, clients, cases);
    SeededFrom(rows);
    assert Cached(start, start);
    ProcessCached(start, rows, chances);
  }

  /** Results refer to stored clients again, so the same holds of the next run. */
  lemma {:induction false} ReferencesKept(start: Progress, rows: seq<Row>, chances: seq<Chance>)
    requires |rows| == |chances| && start.done == [] && Cached(start, start) && References(rows, start.clients)
    ensures References(Process(start, rows, chances).done, Process(start, rows, chances).clients)
  {
    if rows != [] {
      var n := |rows| - 1;
      assert forall row | row in rows[..n] :: row in rows;
      ReferencesKept(start, rows[..n], chances[..n]);
      ProcessCached(start, rows[..n], chances[..n]);
      var p := Process(start, rows[..n], chances[..n]);
      assert rows[n] in rows;
      AdvanceReferences(start, p, rows[n], chances[n]);
    }
  }

  lemma AdvanceReferences(start: Progress, p: Progress, row: Row, chance: Chance)
    requires Cached(start, p) && References(p.done, p.clients) && References([row], start.clients)
    ensures References(Advance(p, row, chance).done, Advance(p, row, chance).clients)
  {
    assert row in [row];
    var q := Advance(p, row, chance);
    assert p.clients <= q.clients;
    forall x | x in q.done
      ensures x.resultClient.Some? ==> x.resultClient.value in q.clients
      ensures x.mergeClient.Some? ==> x.mergeClient.value in q.clients
    {
    }
  }

  /** A retry creates a client for an identity only if the run before it left no
      row of that identity with a client recorded: all that were tried failed. */
  lemma RetryDuplicates(rows: seq<Row>, clients: set<ClientId>, cases: set<CaseId>, chances: seq<Chance>,
          again: seq<Chance>, key: string)
    requires |rows| == |chances| == |again| && References(rows, clients)
    requires forall row | row in rows && row.status == Completed :: row.resultClient.Some?
    ensures |Finished(rows, clients, cases, chances).done| == |rows|
    ensures var p := Finished(rows, clients, cases, chances);
      key in Finished(p.done, p.clients, p.cases, again).made ==>
      forall i | 0 <= i < |rows| && KeyOf(rows[i]) == key ::
        p.done[i].resultClient.None? && p.done[i].status in {Failed, Skipped}
  {
    hide *;
    RunKept(rows, clients, cases, chances);
    var p := Finished(rows, clients, cases, chances);
    OneClientAnIdentity(p.done, p.clients, p.cases, again);
    forall i | 0 <= i < |rows| && KeyOf(rows[i]) == key && key in Finished(p.done, p.clients, p.cases, again).made
      ensures p.done[i].resultClient.None? && p.done[i].status in {Failed, Skipped}
    {
      assert rows[i] in rows && p.done[i] in p.done;
      SettledRow(rows[i], p.done[i]);
    }
  }

  lemma RunKept(rows: seq<Row>, clients: set<ClientId>, cases: set<CaseId>, chances: seq<Chance>)
    requires |rows| == |chances| && References(rows, clients)
    ensures var p := Finished(rows, clients, cases, chances);
      && |p.done| == |rows| && References(p.done, p.clients)
      && forall i | 0 <= i < |rows| :: Settles(rows[i], p.done[i]) && p.done[i].status != Waiting
  {
    var start := Started(rows, clients, cases);
    SeededFrom(rows);
    assert Cached(start, start);
    RowsSettle(start, rows, chances);
    ReferencesKept(start, rows, chances);
  }

  lemma SettledRow(row: Row, after: Row)
    requires Settles(row, after) && after.status != Waiting
    requires row.status == Completed ==> row.resultClient.Some?
    ensures KeyOf(after) == KeyOf(row)
    ensures after.resultClient.None? ==> after.status in {Failed, Skipped}
  {
  }

  /** And it happens: the client is stored, the case fails, the row is retried. */
  lemma RetryDuplicate() returns (row: Row, first: Chance, second: Chance)
    ensures !Closed(row) && References([row], {})
    ensures var p := Finished([row], {}, {}, [first]);
      && p.done == [row.(status := Failed)]
      && p.made == [KeyOf(row)] && Finished(p.done, p.clients, p.cases, [second]).made == [KeyOf(row)]
      && |Finished(p.done, p.clients, p.cases, [second]).clients| == 2
  {
    row := SampleRow();
    first, second := Chance(AtCase, 0, 0), Chance(NoFault, 1, 0);
    CaseFailed();
    Retried();
    hide *;
  }

  function SampleRow(): Row {
    Row(Identity("", "", "", "n", "d", "c"), Waiting, false, false, None, None, true, None, None)
  }

  lemma CaseFailed()
    ensures !Closed(SampleRow()) && References([SampleRow()], {})
    ensures var p := Finished([SampleRow()], {}, {}, [Chance(AtCase, 0, 0)]);
      p.done == [SampleRow().(status := Failed)] && p.made == [KeyOf(SampleRow())] && p.clients == {0} && p.cases == {}
  {
    OneRowRun(SampleRow(), {}, {}, Chance(AtCase, 0, 0));
  }

  lemma Retried()
    ensures var p := Finished([SampleRow().(status := Failed)], {0}, {}, [Chance(NoFault, 1, 0)]);
      p.made == [KeyOf(SampleRow())] && p.clients == {0, 1} && |p.clients| == 2
  {
    OneRowRun(SampleRow().(status := Failed), {0}, {}, Chance(NoFault, 1, 0));
  }

  lemma OneRowRun(row: Row, clients: set<ClientId>, cases: set<CaseId>, chance: Chance)
    requires row.resultClient.None?
    ensures Started([row], clients, cases).cache == map[]
    ensures Finished([row], clients, cases, [chance]) == Advance(Started([row], clients, cases), row, chance)
  {
    assert Seeded([row]) == Seeded([]) == map[];
    assert Process(Started([row], clients, cases), [], []) == Started([row], clients, cases);
    hide Advance;
  }

  // ------------------------------------------------------------------
  // What a completed row refers to
  // ------------------------------------------------------------------

  /** The client chosen in review, the case already known or matched, or a case
      that was not there before. */
  ghost predicate Right(start: Progress, row: Row, after: Row) {
    !Closed(row) && after.status == Completed ==>
      && (row.resultClient.Some? ==> after.resultClient == row.resultClient)
      && (row.resultClient.None? && row.mergeClient.Some? ==> after.resultClient == row.mergeClient)
      && (row.resultCase.Some? && row.resultCase.value in start.cases ==> after.resultCase == row.resultCase)
      && (row.resultCase.None? && row.matchedCase.Some? && row.matchedCase.value in start.cases ==>
            after.resultCase == row.matchedCase)
      && (InsertsCase(row) ==> after.resultCase.Some? && after.resultCase.value !in start.cases)
      && (!TouchesCase(row) ==> after.resultCase.None?)
  }

  lemma AfterRight(start: Progress, p: Progress, row: Row, chance: Chance)
    requires Cached(start, p) && start.cases <= p.cases && References([row], start.clients)
    ensures Right(start, row, After(p, row, chance))
  {
    assert row in [row];
  }

  lemma {:induction false} ProcessRight(start: Progress, rows: seq<Row>, chances: seq<Chance>)
    requires |rows| == |chances| && start.done == []
    requires Cached(start, start) && Counted(start, start) && References(rows, start.clients)
    ensures |Process(start, rows, chances).done| == |rows|
    ensures forall i | 0 <= i < |rows| :: Right(start, rows[i], Process(start, rows, chances).done[i])
  {
    if rows != [] {
      var n := |rows| - 1;
      var p := Process(start, rows[..n], chances[..n]);
      assert Process(start, rows, chances) == Advance(p, rows[n], chances[n]);
      PrefixReferences(rows, start.clients);
      ProcessCounted(start, rows[..n], chances[..n]);
      assert start.cases <= p.cases;
      hide *;
      ProcessRight(start, rows[..n], chances[..n]);
      ProcessCached(start, rows[..n], chances[..n]);
      AfterRight(start, p, rows[n], chances[n]);
      AdvanceDone(p, rows[n], chances[n]);
    }
  }

  lemma PrefixReferences(rows: seq<Row>, clients: set<ClientId>)
    requires rows != [] && References(rows, clients)
    ensures References(rows[..|rows| - 1], clients) && References([rows[|rows| - 1]], clients)
  {
    assert forall row | row in rows[..|rows| - 1] :: row in rows;
  }

  /** Every row the run completes gets the client review chose for it and the
      case known, matched or wanted for it, if the clients rows refer to are
      found. */
  lemma ResultsRight(rows: seq<Row>, clients: set<ClientId>, cases: set<CaseId>, chances: seq<Chance>)
    requires |rows| == |chances| && References(rows, clients)
    ensures var p := Finished(rows, clients, cases, chances);
      && |p.done| == |rows|
      && forall i | 0 <= i < |rows| :: Right(Started(rows, clients, cases), rows[i], p.done[i])
  {
    SeededFrom(rows);
    ProcessRight(Started(rows, clients, cases), rows, chances);
  }

  // ------------------------------------------------------------------
  // Rows of one identity agree
  // ------------------------------------------------------------------

  /** All results of an identity are one client, and nobody chose another. */
  ghost predicate Agreed(rows: seq<Row>, key: string, client: Option<ClientId>) {
    forall row | row in rows && KeyOf(row) == key ::
      row.mergeClient.None? && (row.resultClient.Some? ==> row.resultClient == client)
  }

  ghost function CachedFor(p: Progress, key: string): Option<ClientId> {
    if key in p.cache then Some(p.cache[key]) else None
  }

  lemma AdvanceAgreed(start: Progress, p: Progress, row: Row, chance: Chance, key: string)
    requires Cached(start, p) && References([row], start.clients)
    requires Agreed(p.done, key, CachedFor(p, key))
    requires CachedFor(start, key).Some? ==> CachedFor(p, key) == CachedFor(start, key)
    requires Agreed([row], key, CachedFor(start, key))
    ensures var q := Advance(p, row, chance);
      && Agreed(q.done, key, CachedFor(q, key))
      && (CachedFor(p, key).Some? ==> CachedFor(q, key) == CachedFor(p, key))
  {
    assert row in [row];
    AdvanceDone(p, row, chance);
    AdvanceCache(p, row, chance);
    assert KeyOf(row) == key && !Closed(row) ==> Creates(p, row) == CachedFor(p, key).None?;
    hide Advance, WithClient, WithCase, ClientFails, CaseFails, CaseOf;
    var after := After(p, row, chance);
    assert KeyOf(after) == KeyOf(row) && after.mergeClient == row.mergeClient;
    forall x | x in p.done + [after] && KeyOf(x) == key
      ensures x.mergeClient.None? && (x.resultClient.Some? ==> x.resultClient == CachedFor(Advance(p, row, chance), key))
    {
    }
  }

  /** A row that got as far as a client caches it. */
  lemma AdvanceCache(p: Progress, row: Row, chance: Chance)
    ensures var tried := !Closed(row) && !row.skip && !row.unresolved && !ClientFails(p, row, chance);
      Advance(p, row, chance).cache == if tried then p.cache[KeyOf(row) := ClientOf(p, row, chance)] else p.cache
  {
  }

  lemma {:induction false} ProcessAgreed(start: Progress, rows: seq<Row>, chances: seq<Chance>, key: string)
    requires |rows| == |chances| && start.done == [] && Cached(start, start) && References(rows, start.clients)
    requires Agreed(rows, key, CachedFor(start, key))
    ensures var p := Process(start, rows, chances);
      && Agreed(p.done, key, CachedFor(p, key))
      && (CachedFor(start, key).Some? ==> CachedFor(p, key) == CachedFor(start, key))
  {
    if rows != [] {
      var n := |rows| - 1;
      assert forall row | row in rows[..n] :: row in rows;
      ProcessAgreed(start, rows[..n], chances[..n], key);
      ProcessCached(start, rows[..n], chances[..n]);
      assert rows[n] in rows;
      AdvanceAgreed(start, Process(start, rows[..n], chances[..n]), rows[n], chances[n], key);
    }
  }

  /** If nobody chose a client for any row of an identity and the results it has
      are one client, then after the run, and so after any number of runs, all
      its results are still one client. */
  lemma IdentityKeepsItsClient(rows: seq<Row>, clients: set<ClientId>, cases: set<CaseId>, chances: seq<Chance>,
          key: string, client: Option<ClientId>)
    returns (after: Option<ClientId>)
    requires |rows| == |chances| && References(rows, clients) && Agreed(rows, key, client)
    ensures Agreed(Finished(rows, clients, cases, chances).done, key, after)
    ensures References(Finished(rows, clients, cases, chances).done, Finished(rows, clients, cases, chances).clients)
    ensures (exists row :: row in rows && KeyOf(row) == key && row.resultClient.Some?) ==> after == client
  {
    var start := Started(rows, clients, cases);
    SeededFrom(rows);
    ReferencesKept(start, rows, chances);
    ProcessAgreed(start, rows, chances, key);
    after := CachedFor(Finished(rows, clients, cases, chances), key);
  }
}
