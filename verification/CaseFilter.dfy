/** Compilation of the case predicate into a listing query (src/access.js:385-434).

  The query language is modelled by its abstract syntax and evaluated in SQL's
  three-valued logic: a test on a NULL column is unknown, and a WHERE clause
  keeps a row only when it is true. The main theorem states exactly which
  accessible rows the compiled query leaves out, and that it never returns a
  row the predicate refuses.
 */
module CaseFilter {
  import opened Access
  import opened Options

  /** Kleene's three truth values. */
  datatype Truth = False | Unknown | True

  function And(x: Truth, y: Truth): Truth {
    if x == False || y == False then False
    else if x == Unknown || y == Unknown then Unknown
    else True
  }

  function Or(x: Truth, y: Truth): Truth {
    if x == True || y == True then True
    else if x == Unknown || y == Unknown then Unknown
    else False
  }

  function Not(x: Truth): Truth {
    match x
    case True => False
    case False => True
    case Unknown => Unknown
  }

  function Certainty(x: Truth): nat {
    match x
    case False => 0
    case Unknown => 1
    case True => 2
  }

  /** The connectives are the least, the greatest and the mirror image of three
      values in a row. */
  lemma KleeneExactly(x: Truth, y: Truth)
    ensures Certainty(And(x, y)) == if Certainty(x) < Certainty(y) then Certainty(x) else Certainty(y)
    ensures Certainty(Or(x, y)) == if Certainty(x) > Certainty(y) then Certainty(x) else Certainty(y)
    ensures Certainty(Not(x)) == 2 - Certainty(x)
  {
  }

  function Known(b: bool): Truth { if b then True else False }

  datatype Test =
    | IdIn(ids: set<Uuid>)
    | TeamIn(ids: set<Uuid>)
    | ClientIn(ids: set<Uuid>)
    | ServiceIn(codes: set<string>)
    | AssigneeIs(id: Uuid)

  /** column = value and column IN (list): unknown on a NULL column. */
  function Eval(t: Test, row: CaseRow): Truth {
    match t
    case IdIn(ids) => Known(row.id in ids)
    case TeamIn(ids) => if row.teamId.None? then Unknown else Known(row.teamId.value in ids)
    case ClientIn(ids) => if row.clientId.None? then Unknown else Known(row.clientId.value in ids)
    case ServiceIn(codes) => if row.serviceCode.None? then Unknown else Known(row.serviceCode.value in codes)
    case AssigneeIs(id) => if row.assignedUserId.None? then Unknown else Known(row.assignedUserId.value == id)
  }

  function AnyOf(tests: seq<Test>, row: CaseRow): Truth {
    if tests == [] then False else Or(Eval(tests[0], row), AnyOf(tests[1..], row))
  }

  function NoneOf(tests: seq<Test>, row: CaseRow): Truth {
    if tests == [] then True else And(Not(Eval(tests[0], row)), NoneOf(tests[1..], row))
  }

  /** No filter at all, a filter nothing passes, or a query made of an optional
      union and of exclusions. */
  datatype Query =
    | Unfiltered
    | MatchesNothing
    | Where(union: Option<seq<Test>>, exclusions: seq<Test>)

  /** Does the database return the row? */
  predicate Selects(q: Query, row: CaseRow) {
    match q
    case Unfiltered => true
    case MatchesNothing => false
    case Where(union, exclusions) =>
      And(if union.Some? then AnyOf(union.value, row) else True, NoneOf(exclusions, row)) == True
  }

  // ------------------------------------------------------------------
  // The compiler
  // ------------------------------------------------------------------

  ghost function CaseIds(ts: set<Target>): set<Uuid> { set t | t in ts && t.OnCase? :: t.id }

  ghost function ClientIds(ts: set<Target>): set<Uuid> { set t | t in ts && t.OnClient? :: t.id }

  /** Service codes named directly or through their practice area. */
  ghost function ServiceCodes(catalogue: Catalogue, ts: set<Target>): set<string> {
    (set t | t in ts && t.OnService? :: t.key)
    + (set c | c in catalogue && OnCategory(catalogue[c]) in ts)
  }

  ghost function AllowedTargets(a: Resolved, p: Permission): set<Target> {
    set t | t in a.granted && Allows(a, t, p)
  }

  /** Expand the service codes of a set of targets, area by area and entry by
      entry of the catalogue. */
  method ExpandCodes(catalogue: Catalogue, ts: set<Target>) returns (codes: set<string>)
    ensures codes == ServiceCodes(catalogue, ts)
  {
    codes := set t | t in ts && t.OnService? :: t.key;
    var areas := set t | t in ts && t.OnCategory? :: t.key;
    ghost var done: set<string> := {};
    while areas != {}
      invariant forall x :: x in areas || x in done <==> OnCategory(x) in ts
      invariant codes == (set t | t in ts && t.OnService? :: t.key)
                       + (set c | c in catalogue && catalogue[c] in done)
      decreases areas
    {
      var area :| area in areas;
      var entries := catalogue.Keys;
      ghost var before := codes;
      while entries != {}
        invariant entries <= catalogue.Keys
        invariant codes == before + (set c | c in catalogue.Keys - entries && catalogue[c] == area)
        decreases entries
      {
        var code :| code in entries;
        if catalogue[code] == area { codes := codes + {code}; }
        entries := entries - {code};
      }
      areas := areas - {area};
      done := done + {area};
    }
  }

  /** One clause for each kind of target present. */
  method TargetClauses(catalogue: Catalogue, ts: set<Target>) returns (clauses: seq<Test>)
    ensures clauses == TargetTests(catalogue, ts)
  {
    clauses := [];
    var cases := set t | t in ts && t.OnCase? :: t.id;
    var clients := set t | t in ts && t.OnClient? :: t.id;
    if cases != {} { clauses := clauses + [IdIn(cases)]; }
    if clients != {} { clauses := clauses + [ClientIn(clients)]; }
    var codes := ExpandCodes(catalogue, ts);
    if codes != {} { clauses := clauses + [ServiceIn(codes)]; }
  }

  /** The compiler, clause by clause. */
  method CaseListFilter(catalogue: Catalogue, a: Resolved, p: Permission) returns (q: Query)
    ensures q == Compiled(catalogue, a, p)
  {
    if a.isOwner { return Unfiltered; }
    var clauses: seq<Test> := [];
    var scope := ScopeFor(a, ModuleOf(p));
    var permitted := HasPermission(a, p);
    var globallyPermitted := permitted && scope == Global;
    if permitted {
      if scope == TeamScope && a.teamIds != {} { clauses := clauses + [TeamIn(a.teamIds)]; }
      if scope == Assigned {
        if a.assignedCaseIds != {} { clauses := clauses + [IdIn(a.assignedCaseIds)]; }
        if a.userId.Some? { clauses := clauses + [AssigneeIs(a.userId.value)]; }
      }
      if scope == ClientSelf && a.clientIds != {} { clauses := clauses + [ClientIn(a.clientIds)]; }
    }
    assert clauses == ScopeTests(a, p);
    var allowed := set t | t in a.granted && Allows(a, t, p);
    var granting := TargetClauses(catalogue, allowed);
    clauses := clauses + granting;
    var exclusions := TargetClauses(catalogue, a.restricted);
    if !globallyPermitted && clauses == [] { return MatchesNothing; }
    if globallyPermitted && exclusions == [] { return Unfiltered; }
    q := Where(if globallyPermitted then None else Some(clauses), exclusions);
  }

  function OneIf(b: bool, t: Test): seq<Test> { if b then [t] else [] }

  ghost function ScopeTests(a: Resolved, p: Permission): seq<Test> {
    var scope := ScopeFor(a, ModuleOf(p));
    if !HasPermission(a, p) then []
    else if scope == TeamScope then OneIf(a.teamIds != {}, TeamIn(a.teamIds))
    else if scope == Assigned then
      OneIf(a.assignedCaseIds != {}, IdIn(a.assignedCaseIds))
      + (if a.userId.Some? then [AssigneeIs(a.userId.value)] else [])
    else if scope == ClientSelf then OneIf(a.clientIds != {}, ClientIn(a.clientIds))
    else []
  }

  ghost function TargetTests(catalogue: Catalogue, ts: set<Target>): seq<Test> {
    OneIf(CaseIds(ts) != {}, IdIn(CaseIds(ts)))
    + OneIf(ClientIds(ts) != {}, ClientIn(ClientIds(ts)))
    + OneIf(ServiceCodes(catalogue, ts) != {}, ServiceIn(ServiceCodes(catalogue, ts)))
  }

  ghost predicate Everywhere(a: Resolved, p: Permission) {
    HasPermission(a, p) && ScopeFor(a, ModuleOf(p)) == Global
  }

  ghost function Compiled(catalogue: Catalogue, a: Resolved, p: Permission): Query {
    var clauses := ScopeTests(a, p) + TargetTests(catalogue, AllowedTargets(a, p));
    var exclusions := TargetTests(catalogue, a.restricted);
    if a.isOwner then Unfiltered
    else if !Everywhere(a, p) && clauses == [] then MatchesNothing
    else if Everywhere(a, p) && exclusions == [] then Unfiltered
    else Where(if Everywhere(a, p) then None else Some(clauses), exclusions)
  }

  // ------------------------------------------------------------------
  // Correctness
  // ------------------------------------------------------------------

  /** Every allowance was recorded together with its grant, and no grant or
      restriction names an empty key: what the resolver guarantees. */
  ghost predicate WellFormed(a: Resolved) {
    && a.allowances.Keys <= a.granted
    && ProperKeys(a.granted)
    && ProperKeys(a.restricted)
  }

  /** A row the principal reaches by the free-text assignment label alone. */
  ghost predicate OnlyByLabel(catalogue: Catalogue, a: Resolved, row: CaseRow, p: Permission) {
    && ScopeFor(a, ModuleOf(p)) == Assigned
    && AssignedByLabel(a, row)
    && !AssignedById(a, row)
    && forall t | t in TargetsOf(catalogue, row) :: !Allows(a, t, p)
  }

  /** The accessible rows a listing leaves out. */
  ghost predicate Gap(catalogue: Catalogue, a: Resolved, row: CaseRow, p: Permission) {
    || (row.clientId.None? && ClientIds(a.restricted) != {})
    || (row.serviceCode.None? && ServiceCodes(catalogue, a.restricted) != {})
    || OnlyByLabel(catalogue, a, row, p)
  }

  lemma {:induction false} AnyOfTrue(tests: seq<Test>, row: CaseRow)
    ensures AnyOf(tests, row) == True <==> exists t | t in tests :: Eval(t, row) == True
    ensures AnyOf(tests, row) == False <==> forall t | t in tests :: Eval(t, row) == False
  {
    if tests != [] {
      AnyOfTrue(tests[1..], row);
      assert tests == [tests[0]] + tests[1..];
    }
  }

  lemma {:induction false} NoneOfTrue(tests: seq<Test>, row: CaseRow)
    ensures NoneOf(tests, row) == True <==> forall t | t in tests :: Eval(t, row) == False
    ensures NoneOf(tests, row) == False <==> exists t | t in tests :: Eval(t, row) == True
  {
    if tests != [] {
      NoneOfTrue(tests[1..], row);
      assert tests == [tests[0]] + tests[1..];
    }
  }

  ghost predicate ProperKeys(ts: set<Target>) {
    forall t | t in ts :: !(t.OnCategory? && t.key == "") && !(t.OnService? && t.key == "")
  }

  /** The service test covers a practice area through the catalogue. */
  lemma ServiceMeaning(catalogue: Catalogue, ts: set<Target>, row: CaseRow)
    requires ProperKeys(ts)
    ensures Eval(ServiceIn(ServiceCodes(catalogue, ts)), row) == True <==>
      || (CodeOf(row).Some? && OnService(CodeOf(row).value) in ts)
      || (CategoryOf(catalogue, row).Some? && OnCategory(CategoryOf(catalogue, row).value) in ts)
  {
    if row.serviceCode.Some? {
      var code := row.serviceCode.value;
      assert code in ServiceCodes(catalogue, ts) <==>
        OnService(code) in ts || (code in catalogue && OnCategory(catalogue[code]) in ts);
    }
  }

  /** Some test of a target list is true of a row exactly when one of the
      targets names the row. */
  lemma TargetTestsMeaning(catalogue: Catalogue, ts: set<Target>, row: CaseRow)
    requires ProperKeys(ts)
    ensures (exists t | t in TargetTests(catalogue, ts) :: Eval(t, row) == True) <==> TargetsOf(catalogue, row) * ts != {}
  {
    var tests := TargetTests(catalogue, ts);
    var byCase, byClient, byCode := IdIn(CaseIds(ts)), ClientIn(ClientIds(ts)), ServiceIn(ServiceCodes(catalogue, ts));
    assert forall t | t in tests :: t == byCase || t == byClient || t == byCode;
    assert CaseIds(ts) != {} ==> byCase in tests;
    assert ClientIds(ts) != {} ==> byClient in tests;
    assert ServiceCodes(catalogue, ts) != {} ==> byCode in tests;
    assert Eval(byCase, row) == True <==> OnCase(row.id) in ts;
    assert Eval(byClient, row) == True <==> row.clientId.Some? && OnClient(row.clientId.value) in ts;
    ServiceMeaning(catalogue, ts, row);
    NamesMeaning(catalogue, ts, row);
  }

  lemma NamesMeaning(catalogue: Catalogue, ts: set<Target>, row: CaseRow)
    ensures TargetsOf(catalogue, row) * ts != {} <==>
      || OnCase(row.id) in ts
      || (row.clientId.Some? && OnClient(row.clientId.value) in ts)
      || (CodeOf(row).Some? && OnService(CodeOf(row).value) in ts)
      || (CategoryOf(catalogue, row).Some? && OnCategory(CategoryOf(catalogue, row).value) in ts)
  {
    var both := TargetsOf(catalogue, row) * ts;
    assert OnCase(row.id) in ts ==> OnCase(row.id) in both;
    assert row.clientId.Some? && OnClient(row.clientId.value) in ts ==> OnClient(row.clientId.value) in both;
    assert CodeOf(row).Some? && OnService(CodeOf(row).value) in ts ==> OnService(CodeOf(row).value) in both;
    assert CategoryOf(catalogue, row).Some? && OnCategory(CategoryOf(catalogue, row).value) in ts
      ==> OnCategory(CategoryOf(catalogue, row).value) in both;
  }

  /** An exclusion list is passed exactly when no target names the row and no
      column it tests is NULL. */
  lemma ExclusionsMeaning(catalogue: Catalogue, ts: set<Target>, row: CaseRow)
    requires ProperKeys(ts)
    ensures NoneOf(TargetTests(catalogue, ts), row) == True <==>
      && TargetsOf(catalogue, row) * ts == {}
      && !(row.clientId.None? && ClientIds(ts) != {})
      && !(row.serviceCode.None? && ServiceCodes(catalogue, ts) != {})
  {
    var tests := TargetTests(catalogue, ts);
    NoneOfTrue(tests, row);
    TargetTestsMeaning(catalogue, ts, row);
    assert ClientIds(ts) != {} ==> ClientIn(ClientIds(ts)) in tests;
    assert ServiceCodes(catalogue, ts) != {} ==> ServiceIn(ServiceCodes(catalogue, ts)) in tests;
  }

  /** The scope tests select what the scope admits, the label apart. */
  lemma ScopeTestsMeaning(a: Resolved, row: CaseRow, p: Permission)
    requires !Everywhere(a, p)
    ensures (exists t | t in ScopeTests(a, p) :: Eval(t, row) == True) <==>
      && HasPermission(a, p)
      && InScope(a, row, ScopeFor(a, ModuleOf(p)))
      && (ScopeFor(a, ModuleOf(p)) == Assigned ==> AssignedById(a, row))
  {
    var tests := ScopeTests(a, p);
    if HasPermission(a, p) {
      match ScopeFor(a, ModuleOf(p))
      case TeamScope => assert a.teamIds != {} ==> TeamIn(a.teamIds) in tests;
      case Assigned =>
        assert a.assignedCaseIds != {} ==> IdIn(a.assignedCaseIds) in tests;
        assert a.userId.Some? ==> AssigneeIs(a.userId.value) in tests;
      case ClientSelf => assert a.clientIds != {} ==> ClientIn(a.clientIds) in tests;
      case _ =>
    }
  }

  lemma GrantsMeaning(catalogue: Catalogue, a: Resolved, row: CaseRow, p: Permission)
    requires WellFormed(a)
    ensures (exists t | t in TargetsOf(catalogue, row) :: Allows(a, t, p)) <==>
      TargetsOf(catalogue, row) * AllowedTargets(a, p) != {}
  {
    if t :| t in TargetsOf(catalogue, row) && Allows(a, t, p) {
      assert t in TargetsOf(catalogue, row) * AllowedTargets(a, p);
    }
    if t :| t in TargetsOf(catalogue, row) * AllowedTargets(a, p) {
      assert t in TargetsOf(catalogue, row) && Allows(a, t, p);
    }
  }

  /** The union selects what is granted or in scope, the label apart. */
  lemma UnionMeaning(catalogue: Catalogue, a: Resolved, row: CaseRow, p: Permission)
    requires WellFormed(a) && !Everywhere(a, p)
    ensures AnyOf(ScopeTests(a, p) + TargetTests(catalogue, AllowedTargets(a, p)), row) == True <==>
      || (exists t | t in TargetsOf(catalogue, row) :: Allows(a, t, p))
      || (&& HasPermission(a, p)
          && InScope(a, row, ScopeFor(a, ModuleOf(p)))
          && (ScopeFor(a, ModuleOf(p)) == Assigned ==> AssignedById(a, row)))
  {
    var allowed := AllowedTargets(a, p);
    var scoped, targeted := ScopeTests(a, p), TargetTests(catalogue, allowed);
    GrantsMeaning(catalogue, a, row, p);
    TargetTestsMeaning(catalogue, allowed, row);
    ScopeTestsMeaning(a, row, p);
    AnyOfTrue(scoped + targeted, row);
    AnyOfTrue(scoped, row);
    AnyOfTrue(targeted, row);
    assert forall t :: t in scoped + targeted <==> t in scoped || t in targeted;
  }

  /** Compiler correctness. The database returns a row if and only if the row
      predicate admits it and it is not one of the gap rows. */
  lemma CompiledExactly(catalogue: Catalogue, a: Resolved, row: CaseRow, p: Permission)
    requires WellFormed(a) && !a.isOwner
    ensures Selects(Compiled(catalogue, a, p), row) <==>
      CanAccessCase(catalogue, a, row, p) && !Gap(catalogue, a, row, p)
  {
    ExclusionsMeaning(catalogue, a.restricted, row);
    SelectsBoth(catalogue, a, row, p);
    if !Everywhere(a, p) {
      UnionMeaning(catalogue, a, row, p);
    }
    hide Compiled, Selects, AnyOf, NoneOf, TargetTests, ScopeTests, ServiceCodes, ClientIds;
  }

  /** A query selects what its union and its exclusions both admit. */
  lemma SelectsBoth(catalogue: Catalogue, a: Resolved, row: CaseRow, p: Permission)
    requires !a.isOwner
    ensures Selects(Compiled(catalogue, a, p), row) <==>
      && (Everywhere(a, p) || AnyOf(ScopeTests(a, p) + TargetTests(catalogue, AllowedTargets(a, p)), row) == True)
      && NoneOf(TargetTests(catalogue, a.restricted), row) == True
  {
    hide TargetTests, ScopeTests, AllowedTargets;
  }

  /** No listing shows a row the predicate refuses, the owner's included. */
  lemma CompiledSound(catalogue: Catalogue, a: Resolved, row: CaseRow, p: Permission)
    requires WellFormed(a)
    requires Selects(Compiled(catalogue, a, p), row)
    ensures CanAccessCase(catalogue, a, row, p)
  {
    if !a.isOwner {
      CompiledExactly(catalogue, a, row, p);
    }
  }

  /** The rows the database returns for the query, in table order. */
  ghost function Rows(q: Query, table: seq<CaseRow>): seq<CaseRow> {
    if table == [] then []
    else (if Selects(q, table[0]) then [table[0]] else []) + Rows(q, table[1..])
  }

  ghost function Page(rows: seq<CaseRow>, limit: nat): seq<CaseRow> {
    if |rows| <= limit then rows else rows[..limit]
  }

  lemma {:induction false} RowsSelected(q: Query, table: seq<CaseRow>)
    ensures forall row | row in Rows(q, table) :: Selects(q, row)
  {
    if table != [] {
      RowsSelected(q, table[1..]);
    }
  }

  lemma {:induction false} AllKept(catalogue: Catalogue, a: Resolved, rows: seq<CaseRow>, p: Permission)
    requires forall row | row in rows :: CanAccessCase(catalogue, a, row, p)
    ensures FilterAccessible(catalogue, a, rows, p) == rows
  {
    if rows != [] {
      AllKept(catalogue, a, rows[1..], p);
      assert rows == [rows[0]] + rows[1..];
      assert rows[0] in rows;
    }
  }

  /** The row filter kept as defence in depth removes nothing from a page the
      database returned, so no page is shorter than its limit and the query's
      result make it. */
  lemma {:induction false} PageNeverShortened(catalogue: Catalogue, a: Resolved, table: seq<CaseRow>,
          p: Permission, limit: nat)
    requires WellFormed(a)
    ensures var page := Page(Rows(Compiled(catalogue, a, p), table), limit);
      FilterAccessible(catalogue, a, page, p) == page
  {
    var q := Compiled(catalogue, a, p);
    var page := Page(Rows(q, table), limit);
    RowsSelected(q, table);
    forall row | row in page ensures CanAccessCase(catalogue, a, row, p) {
      assert row in Rows(q, table);
      CompiledSound(catalogue, a, row, p);
    }
    AllKept(catalogue, a, page, p);
  }

  ghost predicate NoGaps(catalogue: Catalogue, a: Resolved, table: seq<CaseRow>, p: Permission) {
    forall row | row in table && CanAccessCase(catalogue, a, row, p) :: !Gap(catalogue, a, row, p)
  }

  /** Listing through the query and filtering the whole table give the same
      rows exactly when no accessible row of the table is a gap row. */
  lemma {:induction false} ListingComplete(catalogue: Catalogue, a: Resolved, table: seq<CaseRow>, p: Permission)
    requires WellFormed(a) && !a.isOwner
    ensures Rows(Compiled(catalogue, a, p), table) == FilterAccessible(catalogue, a, table, p) <==>
      NoGaps(catalogue, a, table, p)
  {
    if table != [] {
      var head, rest := table[0], table[1..];
      assert table == [head] + rest;
      ListingComplete(catalogue, a, rest, p);
      CompiledExactly(catalogue, a, head, p);
      var listed, kept := Rows(Compiled(catalogue, a, p), rest), FilterAccessible(catalogue, a, rest, p);
      if !CanAccessCase(catalogue, a, head, p) {
        assert [] + listed == listed && [] + kept == kept;
        assert NoGaps(catalogue, a, table, p) <==> NoGaps(catalogue, a, rest, p);
      } else if Gap(catalogue, a, head, p) {
        ListingNotLonger(catalogue, a, rest, p);
        assert |[head] + kept| > |listed|;
        assert head in table;
      } else {
        assert ([head] + listed)[1..] == listed && ([head] + kept)[1..] == kept;
      }
    }
  }

  lemma {:induction false} ListingNotLonger(catalogue: Catalogue, a: Resolved, table: seq<CaseRow>, p: Permission)
    requires WellFormed(a) && !a.isOwner
    ensures |Rows(Compiled(catalogue, a, p), table)| <= |FilterAccessible(catalogue, a, table, p)|
  {
    if table != [] {
      ListingNotLonger(catalogue, a, table[1..], p);
      CompiledExactly(catalogue, a, table[0], p);
    }
  }
}
