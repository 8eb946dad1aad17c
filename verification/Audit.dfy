/** The audit agent's rule scan over stored alerts
    (career-gate/lib/audit.ts:155-193, career-gate/lib/actions.ts:888-895). */
module Audit {
  import opened Options

  type Client = nat
  type Rule = nat

  /** What a rule found, as identified by its fingerprint. */
  type Evidence = nat

  datatype Slot = Slot(client: Client, rule: Rule)

  /** What the rules say now: a rule returns at most one row a client. */
  type Verdicts = map<Slot, Evidence>

  /** The open alerts: a unique index keeps one for a client and a rule. */
  type OpenAlerts = map<Slot, Evidence>

  type Ignored = set<(Slot, Evidence)>

  predicate InScope(slot: Slot, scope: Option<Client>) {
    scope.None? || slot.client == scope.value
  }

  // ------------------------------------------------------------------
  // One scan
  // ------------------------------------------------------------------

  /** The alert a covered slot should have after a scan. Evidence staff ignored
      neither opens an alert nor refreshes the one that is open. */
  predicate Stays(open: OpenAlerts, ignored: Ignored, verdicts: Verdicts, slot: Slot) {
    slot in verdicts && ((slot, verdicts[slot]) !in ignored || slot in open)
  }

  function EvidenceAfter(open: OpenAlerts, ignored: Ignored, verdicts: Verdicts, slot: Slot): Evidence
    requires Stays(open, ignored, verdicts, slot)
  {
    if (slot, verdicts[slot]) in ignored then open[slot] else verdicts[slot]
  }

  /** The open alerts after the covered slots were scanned; the others are as
      they were. */
  ghost function Scanned(open: OpenAlerts, ignored: Ignored, verdicts: Verdicts, covered: iset<Slot>): OpenAlerts {
    map slot | slot in open.Keys + verdicts.Keys
        && (if slot in covered then Stays(open, ignored, verdicts, slot) else slot in open)
      :: if slot in covered then EvidenceAfter(open, ignored, verdicts, slot) else open[slot]
  }

  /** The slots of some rules, for one client or all. */
  ghost function Slots(rules: set<Rule>, scope: Option<Client>): iset<Slot> {
    iset slot: Slot | slot.rule in rules && InScope(slot, scope)
  }

  function Elements(rules: seq<Rule>): set<Rule> {
    set r | r in rules
  }

  ghost function Scan(open: OpenAlerts, ignored: Ignored, verdicts: Verdicts, rules: set<Rule>,
          scope: Option<Client>): OpenAlerts {
    Scanned(open, ignored, verdicts, Slots(rules, scope))
  }

  /** The open alerts of some slots, with their evidence. */
  function Alerts(open: OpenAlerts, slots: set<Slot>): set<(Slot, Evidence)> {
    set slot | slot in slots && slot in open :: (slot, open[slot])
  }

  /** The alerts a scan takes away. */
  function Cleared(before: OpenAlerts, after: OpenAlerts): set<(Slot, Evidence)> {
    Alerts(before, before.Keys - after.Keys)
  }

  /** How many slots have an alert after and had none before, and the reverse. */
  ghost function Gained(before: OpenAlerts, after: OpenAlerts): nat {
    |after.Keys - before.Keys|
  }

  ghost function Lost(before: OpenAlerts, after: OpenAlerts): nat {
    |before.Keys - after.Keys|
  }

  /** In a scan and the next one nothing that came goes again and nothing that
      went comes again. */
  ghost predicate Follows(open: OpenAlerts, middle: OpenAlerts, last: OpenAlerts) {
    && (forall slot | slot in middle && slot !in open :: slot in last)
    && (forall slot | slot in last && slot !in middle :: slot !in open)
    && (forall slot | slot in middle && slot !in last :: slot in open && open[slot] == middle[slot])
  }

  lemma KeysAdd<T>(a: set<T>, b: set<T>, c: set<T>)
    requires b - a <= c && (c - b) !! a && b - c <= a
    ensures |c - a| == |b - a| + |c - b|
    ensures |a - c| == |a - b| + |b - c|
  {
    assert c - a == (b - a) + (c - b);
    assert a - c == (a - b) + (b - c);
  }

  lemma OneMore<T>(a: set<T>, b: set<T>, x: T)
    ensures |(b + {x}) - a| == |b - a| + (if x in a || x in b then 0 else 1)
  {
    if x in a || x in b {
      assert (b + {x}) - a == b - a;
    } else {
      assert (b + {x}) - a == (b - a) + {x};
    }
  }

  lemma CountsAdd(open: OpenAlerts, middle: OpenAlerts, last: OpenAlerts)
    requires Follows(open, middle, last)
    ensures Gained(open, last) == Gained(open, middle) + Gained(middle, last)
    ensures Lost(open, last) == Lost(open, middle) + Lost(middle, last)
  {
    KeysAdd(open.Keys, middle.Keys, last.Keys);
  }

  lemma ClearedAdd(open: OpenAlerts, middle: OpenAlerts, last: OpenAlerts)
    requires Follows(open, middle, last)
    ensures multiset(Cleared(open, last)) == multiset(Cleared(open, middle)) + multiset(Cleared(middle, last))
  {
    var all, first, second := Cleared(open, last), Cleared(open, middle), Cleared(middle, last);
    forall alert ensures alert in all <==> alert in first || alert in second {
    }
    assert all == first + second;
    assert first !! second;
  }

  lemma ScannedFollows(open: OpenAlerts, ignored: Ignored, verdicts: Verdicts, first: iset<Slot>, second: iset<Slot>)
    ensures var middle := Scanned(open, ignored, verdicts, first);
      Follows(open, middle, Scanned(middle, ignored, verdicts, second))
  {
  }

  lemma ScannedAgain(open: OpenAlerts, ignored: Ignored, verdicts: Verdicts, first: iset<Slot>, second: iset<Slot>)
    ensures Scanned(Scanned(open, ignored, verdicts, first), ignored, verdicts, second)
      == Scanned(open, ignored, verdicts, first + second)
  {
    var middle := Scanned(open, ignored, verdicts, first);
    var last := Scanned(middle, ignored, verdicts, second);
    var joint := Scanned(open, ignored, verdicts, first + second);
    forall slot ensures slot in last <==> slot in joint {
    }
    forall slot | slot in last ensures last[slot] == joint[slot] {
    }
  }

  /** Scanning some slots and then others is scanning them together, and the
      counts of alerts created and cleared add up. */
  lemma ScannedTwice(open: OpenAlerts, ignored: Ignored, verdicts: Verdicts, first: iset<Slot>, second: iset<Slot>)
    ensures var middle := Scanned(open, ignored, verdicts, first);
      var last := Scanned(middle, ignored, verdicts, second);
      && last == Scanned(open, ignored, verdicts, first + second)
      && Gained(open, last) == Gained(open, middle) + Gained(middle, last)
      && Lost(open, last) == Lost(open, middle) + Lost(middle, last)
      && multiset(Cleared(open, last)) == multiset(Cleared(open, middle)) + multiset(Cleared(middle, last))
  {
    var middle := Scanned(open, ignored, verdicts, first);
    var last := Scanned(middle, ignored, verdicts, second);
    ScannedAgain(open, ignored, verdicts, first, second);
    ScannedFollows(open, ignored, verdicts, first, second);
    CountsAdd(open, middle, last);
    ClearedAdd(open, middle, last);
  }

  /** Does the verdict on a slot write an alert? */
  predicate Raises(ignored: Ignored, verdicts: Verdicts, slot: Slot) {
    slot in verdicts && (slot, verdicts[slot]) !in ignored
  }

  /** The alerts after the verdicts on some slots were written. */
  ghost predicate Written(start: OpenAlerts, open: OpenAlerts, ignored: Ignored, verdicts: Verdicts, slots: set<Slot>) {
    && (forall slot :: slot in open <==> slot in start || (slot in slots && Raises(ignored, verdicts, slot)))
    && (forall slot | slot in open ::
          open[slot] == if slot in slots && Raises(ignored, verdicts, slot) then verdicts[slot] else start[slot])
  }

  function Findings(verdicts: Verdicts, rule: Rule, scope: Option<Client>): set<Slot> {
    set slot | slot in verdicts && slot.rule == rule && InScope(slot, scope)
  }

  function Clients(slots: set<Slot>): set<Client> {
    set slot | slot in slots :: slot.client
  }

  /** The open alerts of one rule whose client was not hit. */
  function Stale(open: OpenAlerts, rule: Rule, scope: Option<Client>, hits: set<Client>): set<Slot> {
    set slot | slot in open && slot.rule == rule && InScope(slot, scope) && slot.client !in hits
  }

  lemma HitExactly(verdicts: Verdicts, rule: Rule, scope: Option<Client>, slot: Slot)
    requires slot.rule == rule && InScope(slot, scope)
    ensures slot.client in Clients(Findings(verdicts, rule, scope)) <==> slot in verdicts
  {
    var findings := Findings(verdicts, rule, scope);
    if slot.client in Clients(findings) {
      var hit :| hit in findings && hit.client == slot.client;
      assert hit == slot;
    }
    if slot in verdicts {
      assert slot in findings;
    }
  }

  /** Writing what a rule finds and then resolving what it no longer finds is
      what a scan should do. */
  lemma RaisedThenCleared(open: OpenAlerts, raised: OpenAlerts, ignored: Ignored, verdicts: Verdicts,
          rule: Rule, scope: Option<Client>)
    requires Written(open, raised, ignored, verdicts, Findings(verdicts, rule, scope))
    ensures var after := raised - Stale(raised, rule, scope, Clients(Findings(verdicts, rule, scope)));
      && after == Scan(open, ignored, verdicts, {rule}, scope)
      && Follows(open, raised, after)
  {
    var findings := Findings(verdicts, rule, scope);
    var after := raised - Stale(raised, rule, scope, Clients(findings));
    var scanned := Scan(open, ignored, verdicts, {rule}, scope);
    forall slot: Slot
      ensures slot in after <==> slot in scanned
      ensures slot in after ==> after[slot] == scanned[slot]
      ensures slot in raised && slot !in after ==> slot in open && open[slot] == raised[slot]
    {
      if slot.rule == rule && InScope(slot, scope) {
        HitExactly(verdicts, rule, scope, slot);
      }
    }
    assert after == scanned;
  }

  lemma UpsertCounts(start: OpenAlerts, before: OpenAlerts, slot: Slot, evidence: Evidence)
    ensures Gained(start, before[slot := evidence]) ==
      Gained(start, before) + (if slot in before || slot in start then 0 else 1)
  {
    OneMore(start.Keys, before.Keys, slot);
    assert before[slot := evidence].Keys == before.Keys + {slot};
  }

  function Upserted(open: OpenAlerts, ignored: Ignored, verdicts: Verdicts, slot: Slot): OpenAlerts
    requires slot in verdicts
  {
    if (slot, verdicts[slot]) in ignored then open else open[slot := verdicts[slot]]
  }

  lemma WrittenMore(start: OpenAlerts, open: OpenAlerts, ignored: Ignored, verdicts: Verdicts, done: set<Slot>,
          slot: Slot)
    requires Written(start, open, ignored, verdicts, done) && slot in verdicts
    ensures Written(start, Upserted(open, ignored, verdicts, slot), ignored, verdicts, done + {slot})
  {
  }

  lemma GainedMore(start: OpenAlerts, open: OpenAlerts, ignored: Ignored, verdicts: Verdicts, done: set<Slot>,
          slot: Slot)
    requires Written(start, open, ignored, verdicts, done) && slot in verdicts
    ensures Upserted(open, ignored, verdicts, slot) ==
      if (slot, verdicts[slot]) in ignored then open else open[slot := verdicts[slot]]
    ensures Gained(start, Upserted(open, ignored, verdicts, slot))
      == Gained(start, open) + (if (slot, verdicts[slot]) in ignored || slot in open then 0 else 1)
  {
    assert slot in start ==> slot in open;
    assert Upserted(open, ignored, verdicts, slot) ==
      if (slot, verdicts[slot]) in ignored then open else open[slot := verdicts[slot]];
    hide *;
    UpsertCounts(start, open, slot, verdicts[slot]);
  }

  lemma ClientsMore(done: set<Slot>, slot: Slot)
    ensures Clients(done + {slot}) == Clients(done) + {slot.client}
  {
  }

  lemma ClearStep(start: OpenAlerts, done: set<Slot>, slot: Slot)
    requires slot in start && slot !in done
    ensures slot in start - done && (start - done)[slot] == start[slot]
    ensures (start - done) - {slot} == start - (done + {slot})
    ensures |done + {slot}| == |done| + 1
    ensures multiset(Alerts(start, done + {slot})) == multiset(Alerts(start, done)) + multiset{(slot, start[slot])}
  {
    assert Alerts(start, done + {slot}) == Alerts(start, done) + {(slot, start[slot])};
    assert (slot, start[slot]) !in Alerts(start, done);
  }

  lemma RaisedOnly(open: OpenAlerts, raised: OpenAlerts, stale: set<Slot>)
    requires open.Keys <= raised.Keys && stale <= raised.Keys
    requires Follows(open, raised, raised - stale)
    ensures var after := raised - stale;
      && Gained(open, after) == Gained(open, raised)
      && Lost(open, after) == |stale|
      && multiset(Cleared(open, after)) == multiset(Alerts(raised, stale))
  {
    var after := raised - stale;
    CountsAdd(open, raised, after);
    ClearedAdd(open, raised, after);
    assert open.Keys - raised.Keys == {} && after.Keys - raised.Keys == {};
    assert raised.Keys - after.Keys == stale;
    assert Cleared(open, raised) == {};
  }

  lemma NothingScanned(open: OpenAlerts, ignored: Ignored, verdicts: Verdicts, scope: Option<Client>)
    ensures Scan(open, ignored, verdicts, Elements([]), scope) == open
  {
    hide Stays, EvidenceAfter;
    assert forall slot :: slot !in Slots(Elements([]), scope);
  }

  lemma NothingCounted(open: OpenAlerts)
    ensures Cleared(open, open) == {} && Gained(open, open) == Lost(open, open) == 0
  {
  }

  lemma RulesAdd(open: OpenAlerts, ignored: Ignored, verdicts: Verdicts, rules: seq<Rule>, i: nat,
          scope: Option<Client>)
    requires i < |rules|
    ensures var middle := Scan(open, ignored, verdicts, Elements(rules[..i]), scope);
      var last := Scan(middle, ignored, verdicts, {rules[i]}, scope);
      && last == Scan(open, ignored, verdicts, Elements(rules[..i + 1]), scope)
      && Gained(open, last) == Gained(open, middle) + Gained(middle, last)
      && Lost(open, last) == Lost(open, middle) + Lost(middle, last)
      && multiset(Cleared(open, last)) == multiset(Cleared(open, middle)) + multiset(Cleared(middle, last))
  {
    assert rules[..i + 1] == rules[..i] + [rules[i]];
    assert Elements(rules[..i + 1]) == Elements(rules[..i]) + {rules[i]};
    assert Slots(Elements(rules[..i + 1]), scope) == Slots(Elements(rules[..i]), scope) + Slots({rules[i]}, scope);
    ScannedTwice(open, ignored, verdicts, Slots(Elements(rules[..i]), scope), Slots({rules[i]}, scope));
  }

  class AlertTable {
    var open: OpenAlerts
    var ignored: Ignored
    var resolved: multiset<(Slot, Evidence)>

    constructor ()
      ensures open == map[] && ignored == {} && resolved == multiset{}
    {
      open, ignored, resolved := map[], {}, multiset{};
    }

    /** INSERT … ON CONFLICT DO UPDATE; true when the row is new. */
    method Upsert(slot: Slot, evidence: Evidence) returns (inserted: bool)
      modifies this`open
      ensures open == old(open)[slot := evidence]
      ensures inserted <==> slot !in old(open)
    {
      inserted := slot !in open;
      open := open[slot := evidence];
    }

    method ResolveAlert(slot: Slot)
      requires slot in open
      modifies this`open, this`resolved
      ensures open == old(open) - {slot}
      ensures resolved == old(resolved) + multiset{(slot, old(open)[slot])}
    {
      resolved := resolved + multiset{(slot, open[slot])};
      open := open - {slot};
    }

    method IgnoreAlert(slot: Slot)
      requires slot in open
      modifies this`open, this`ignored
      ensures open == old(open) - {slot}
      ensures ignored == old(ignored) + {(slot, old(open)[slot])}
    {
      ignored := ignored + {(slot, open[slot])};
      open := open - {slot};
    }

    /** Any slot still to do. */
    static method Next(done: set<Slot>, all: set<Slot>) returns (slot: Slot)
      requires done <= all && done != all
      ensures slot in all && slot !in done
    {
      assert exists x :: x in all && x !in done;
      slot :| slot in all && slot !in done;
    }

    /** Write the findings of one rule, in whatever order they come. */
    method RaiseFindings(findings: set<Slot>, verdicts: Verdicts) returns (hits: set<Client>, created: nat)
      requires findings <= verdicts.Keys
      modifies this`open
      ensures hits == Clients(findings)
      ensures Written(old(open), open, ignored, verdicts, findings)
      ensures created == Gained(old(open), open)
    {
      assert Clients({}) == {} && Written(open, open, ignored, verdicts, {}) && Gained(open, open) == 0;
      hide *;
      hits, created := {}, 0;
      var done := {};
      while done != findings
        invariant done <= findings
        invariant hits == Clients(done)
        invariant Written(old(open), open, ignored, verdicts, done)
        invariant created == Gained(old(open), open)
        decreases findings - done
      {
        var slot := Next(done, findings);
        var evidence := verdicts[slot];
        WrittenMore(old(open), open, ignored, verdicts, done, slot);
        GainedMore(old(open), open, ignored, verdicts, done, slot);
        ClientsMore(done, slot);
        done := done + {slot};
        hits := hits + {slot.client};
        if (slot, evidence) !in ignored {
          var inserted := Upsert(slot, evidence);
          if inserted { created := created + 1; }
        }
      }
    }

    /** Resolve the open alerts of one rule whose client was not hit. */
    method ClearStale(rule: Rule, scope: Option<Client>, hits: set<Client>) returns (cleared: nat)
      modifies this`open, this`resolved
      ensures var stale := Stale(old(open), rule, scope, hits);
        && open == old(open) - stale
        && cleared == |stale|
        && resolved == old(resolved) + multiset(Alerts(old(open), stale))
    {
      var stale := Stale(open, rule, scope, hits);
      assert stale <= open.Keys && Alerts(open, {}) == {} && open - {} == open;
      hide *;
      var done := {};
      cleared := 0;
      while done != stale
        invariant done <= stale && cleared == |done|
        invariant open == old(open) - done
        invariant resolved == old(resolved) + multiset(Alerts(old(open), done))
        decreases stale - done
      {
        var slot := Next(done, stale);
        ClearStep(old(open), done, slot);
        ResolveAlert(slot);
        done := done + {slot};
        cleared := cleared + 1;
      }
    }

    method RunRule(rule: Rule, verdicts: Verdicts, scope: Option<Client>) returns (created: nat, cleared: nat)
      modifies this`open, this`resolved
      ensures open == Scan(old(open), ignored, verdicts, {rule}, scope)
      ensures created == Gained(old(open), open)
      ensures cleared == Lost(old(open), open)
      ensures resolved == old(resolved) + multiset(Cleared(old(open), open))
    {
      var hits;
      hits, created := RaiseFindings(Findings(verdicts, rule, scope), verdicts);
      ghost var raised := open;
      cleared := ClearStale(rule, scope, hits);
      RaisedThenCleared(old(open), raised, ignored, verdicts, rule, scope);
      RaisedOnly(old(open), raised, Stale(raised, rule, scope, hits));
    }

    /** Every rule in turn, for one client or all. */
    method RunAudit(rules: seq<Rule>, verdicts: Verdicts, scope: Option<Client>) returns (created: nat, cleared: nat)
      modifies this`open, this`resolved
      ensures open == Scan(old(open), ignored, verdicts, Elements(rules), scope)
      ensures created == Gained(old(open), open)
      ensures cleared == Lost(old(open), open)
      ensures resolved == old(resolved) + multiset(Cleared(old(open), open))
    {
      hide *;
      NothingScanned(open, ignored, verdicts, scope);
      NothingCounted(open);
      created, cleared := 0, 0;
      for i := 0 to |rules|
        invariant open == Scan(old(open), ignored, verdicts, Elements(rules[..i]), scope)
        invariant created == Gained(old(open), open)
        invariant cleared == Lost(old(open), open)
        invariant resolved == old(resolved) + multiset(Cleared(old(open), open))
      {
        RulesAdd(old(open), ignored, verdicts, rules, i, scope);
        var more, fewer := RunRule(rules[i], verdicts, scope);
        created, cleared := created + more, cleared + fewer;
      }
      assert rules[..|rules|] == rules;
    }
  }

  // ------------------------------------------------------------------
  // What a scan achieves
  // ------------------------------------------------------------------

  /** After a full scan an alert of a scanned rule is open exactly for the
      clients the rule flags now, except those whose current evidence was
      ignored and who had no open alert. It shows the current evidence except
      where that evidence was ignored while an older alert was open. */
  lemma FullScan(open: OpenAlerts, ignored: Ignored, verdicts: Verdicts, rules: set<Rule>, slot: Slot)
    requires slot.rule in rules
    ensures var after := Scan(open, ignored, verdicts, rules, None);
      && (slot in after ==> slot in verdicts)
      && (slot in verdicts ==>
            (slot !in after <==> (slot, verdicts[slot]) in ignored && slot !in open))
      && (slot in after ==>
            (after[slot] != verdicts[slot] <==>
              (slot, verdicts[slot]) in ignored && slot in open && open[slot] != verdicts[slot]))
  {
  }

  /** A second scan changes nothing, whatever its scope within the first's. */
  lemma SecondScanIdle(open: OpenAlerts, ignored: Ignored, verdicts: Verdicts, rules: set<Rule>,
          scope: Option<Client>, again: Option<Client>)
    requires scope.None? || again == scope
    ensures var after := Scan(open, ignored, verdicts, rules, scope);
      Scan(after, ignored, verdicts, rules, again) == after
  {
    ScannedTwice(open, ignored, verdicts, Slots(rules, scope), Slots(rules, again));
    assert Slots(rules, scope) + Slots(rules, again) == Slots(rules, scope);
  }

  /** Scans of single clients, one after another. */
  ghost function ScanEach(open: OpenAlerts, ignored: Ignored, verdicts: Verdicts, rules: set<Rule>,
          clients: seq<Client>): OpenAlerts {
    if clients == [] then open
    else
      Scan(ScanEach(open, ignored, verdicts, rules, clients[..|clients| - 1]), ignored, verdicts, rules,
        Some(clients[|clients| - 1]))
  }

  /** How many alerts those scans create in all, and how many they clear. */
  ghost function CreatedEach(open: OpenAlerts, ignored: Ignored, verdicts: Verdicts, rules: set<Rule>,
          clients: seq<Client>): nat {
    if clients == [] then 0
    else
      var before := ScanEach(open, ignored, verdicts, rules, clients[..|clients| - 1]);
      var after := ScanEach(open, ignored, verdicts, rules, clients);
      CreatedEach(open, ignored, verdicts, rules, clients[..|clients| - 1]) + Gained(before, after)
  }

  ghost function ClearedEach(open: OpenAlerts, ignored: Ignored, verdicts: Verdicts, rules: set<Rule>,
          clients: seq<Client>): nat {
    if clients == [] then 0
    else
      var before := ScanEach(open, ignored, verdicts, rules, clients[..|clients| - 1]);
      var after := ScanEach(open, ignored, verdicts, rules, clients);
      ClearedEach(open, ignored, verdicts, rules, clients[..|clients| - 1]) + Lost(before, after)
  }

  ghost function SlotsOf(rules: set<Rule>, clients: seq<Client>): iset<Slot> {
    iset slot: Slot | slot.rule in rules && slot.client in clients
  }

  lemma {:induction false} EachIsTogether(open: OpenAlerts, ignored: Ignored, verdicts: Verdicts,
          rules: set<Rule>, clients: seq<Client>)
    ensures var after := ScanEach(open, ignored, verdicts, rules, clients);
      && after == Scanned(open, ignored, verdicts, SlotsOf(rules, clients))
      && CreatedEach(open, ignored, verdicts, rules, clients) == Gained(open, after)
      && ClearedEach(open, ignored, verdicts, rules, clients) == Lost(open, after)
  {
    if clients == [] {
      NobodyScanned(open, ignored, verdicts, rules);
      hide Scanned, SlotsOf, Gained, Lost;
    } else {
      hide *;
      EachUnfolds(open, ignored, verdicts, rules, clients);
      ClientsAdd(rules, clients);
      var init := clients[..|clients| - 1];
      EachIsTogether(open, ignored, verdicts, rules, init);
      ScannedTwice(open, ignored, verdicts, SlotsOf(rules, init), Slots(rules, Some(clients[|clients| - 1])));
    }
  }

  lemma NobodyScanned(open: OpenAlerts, ignored: Ignored, verdicts: Verdicts, rules: set<Rule>)
    ensures Scanned(open, ignored, verdicts, SlotsOf(rules, [])) == open
    ensures Gained(open, open) == Lost(open, open) == 0
  {
  }

  lemma EachUnfolds(open: OpenAlerts, ignored: Ignored, verdicts: Verdicts, rules: set<Rule>, clients: seq<Client>)
    requires clients != []
    ensures var init := clients[..|clients| - 1];
      var middle, last := ScanEach(open, ignored, verdicts, rules, init), ScanEach(open, ignored, verdicts, rules, clients);
      && last == Scanned(middle, ignored, verdicts, Slots(rules, Some(clients[|clients| - 1])))
      && CreatedEach(open, ignored, verdicts, rules, clients)
        == CreatedEach(open, ignored, verdicts, rules, init) + Gained(middle, last)
      && ClearedEach(open, ignored, verdicts, rules, clients)
        == ClearedEach(open, ignored, verdicts, rules, init) + Lost(middle, last)
  {
    hide Scanned, Slots, Gained, Lost;
  }

  lemma ClientsAdd(rules: set<Rule>, clients: seq<Client>)
    requires clients != []
    ensures SlotsOf(rules, clients[..|clients| - 1]) + Slots(rules, Some(clients[|clients| - 1])) == SlotsOf(rules, clients)
  {
    assert clients == clients[..|clients| - 1] + [clients[|clients| - 1]];
  }

  /** Scanning clients one by one, in any order and any of them repeatedly, gives
      the alerts and the counts of one full scan, if every client with an alert
      or a finding has its turn. */
  lemma OneByOne(open: OpenAlerts, ignored: Ignored, verdicts: Verdicts, rules: set<Rule>, clients: seq<Client>)
    requires forall slot | slot in open.Keys + verdicts.Keys :: slot.client in clients
    ensures var full := Scan(open, ignored, verdicts, rules, None);
      && ScanEach(open, ignored, verdicts, rules, clients) == full
      && CreatedEach(open, ignored, verdicts, rules, clients) == Gained(open, full)
      && ClearedEach(open, ignored, verdicts, rules, clients) == Lost(open, full)
  {
    EachIsTogether(open, ignored, verdicts, rules, clients);
    AllClients(open, ignored, verdicts, rules, clients);
    hide *;
  }

  lemma AllClients(open: OpenAlerts, ignored: Ignored, verdicts: Verdicts, rules: set<Rule>, clients: seq<Client>)
    requires forall slot | slot in open.Keys + verdicts.Keys :: slot.client in clients
    ensures Scanned(open, ignored, verdicts, SlotsOf(rules, clients)) == Scan(open, ignored, verdicts, rules, None)
  {
  }

  // ------------------------------------------------------------------
  // Runs of scans and staff decisions, while the facts change
  // ------------------------------------------------------------------

  datatype State = State(open: OpenAlerts, ignored: Ignored)

  datatype Event =
    | ScanNow(verdicts: Verdicts, rules: set<Rule>, scope: Option<Client>)
    | Resolve(slot: Slot)
    | Ignore(slot: Slot)

  ghost function Step(s: State, e: Event): State {
    match e
    case ScanNow(verdicts, rules, scope) => s.(open := Scan(s.open, s.ignored, verdicts, rules, scope))
    case Resolve(slot) => s.(open := s.open - {slot})
    case Ignore(slot) =>
      if slot in s.open then State(s.open - {slot}, s.ignored + {(slot, s.open[slot])}) else s
  }

  ghost function Run(s: State, events: seq<Event>): State {
    if events == [] then s else Step(Run(s, events[..|events| - 1]), events[|events| - 1])
  }

  /** What staff decide about one alert: resolved, it closes; ignored, it closes and
      the evidence it showed is remembered. No other alert is touched, and an alert
      that is not open cannot be decided. */
  lemma DecisionsExactly(s: State, slot: Slot, other: Slot)
    ensures var resolved, ignored := Step(s, Resolve(slot)), Step(s, Ignore(slot));
      && (other in resolved.open <==> other in s.open && other != slot) && resolved.ignored == s.ignored
      && (other in ignored.open <==> other in s.open && other != slot)
      && (other in resolved.open ==> resolved.open[other] == s.open[other] == ignored.open[other])
      && forall e :: (other, e) in ignored.ignored <==>
           (other, e) in s.ignored || (other == slot && slot in s.open && s.open[slot] == e)
  {
  }

  ghost predicate NoneIgnoredOpen(s: State) {
    forall slot | slot in s.open :: (slot, s.open[slot]) !in s.ignored
  }

  /** In every run, evidence once ignored never shows in an open alert again. */
  lemma {:induction false} IgnoredNeverReopens(s: State, events: seq<Event>)
    requires NoneIgnoredOpen(s)
    ensures NoneIgnoredOpen(Run(s, events))
    ensures s.ignored <= Run(s, events).ignored
  {
    if events != [] {
      IgnoredNeverReopens(s, events[..|events| - 1]);
    }
  }

  /** So the one way an alert can show outdated evidence after a full scan is
      that the current evidence was ignored earlier; such an alert differs from
      it, and no alert shows the ignored evidence itself. */
  lemma OutdatedExactly(s: State, events: seq<Event>, verdicts: Verdicts, rules: set<Rule>, slot: Slot)
    requires NoneIgnoredOpen(s) && slot.rule in rules
    ensures var before := Run(s, events);
      var after := Step(before, ScanNow(verdicts, rules, None)).open;
      slot in after ==> (after[slot] != verdicts[slot] <==> (slot, verdicts[slot]) in before.ignored)
  {
    IgnoredNeverReopens(s, events);
  }

  /** It does happen: evidence is ignored, changes, and changes back. The client
      then has an open alert about a state of affairs that is past. */
  lemma OutdatedAlert() returns (slot: Slot, past: Evidence, current: Evidence, events: seq<Event>)
    ensures past != current
    ensures var s := Run(State(map[], {}), events);
      s.open == map[slot := past] && (slot, current) in s.ignored
    ensures events != [] && events[|events| - 1] == ScanNow(map[slot := current], {slot.rule}, None)
  {
    slot, past, current := Slot(0, 0), 1, 2;
    var now, other := ScanNow(map[slot := current], {0}, None), ScanNow(map[slot := past], {0}, None);
    var s0, s1, s2, s3 := State(map[], {}), State(map[slot := current], {}), State(map[], {(slot, current)}),
      State(map[slot := past], {(slot, current)});
    OneSlotScanned(s0, slot, current);
    assert Step(s1, Ignore(slot)) == s2;
    OneSlotScanned(s2, slot, past);
    OneSlotScanned(s3, slot, current);
    hide Step, Scan;
    RunAppend(s0, [], now);
    RunAppend(s0, [] + [now], Ignore(slot));
    RunAppend(s0, [] + [now] + [Ignore(slot)], other);
    RunAppend(s0, [] + [now] + [Ignore(slot)] + [other], now);
    events := [] + [now] + [Ignore(slot)] + [other] + [now];
  }

  lemma RunAppend(s: State, events: seq<Event>, e: Event)
    ensures Run(s, events + [e]) == Step(Run(s, events), e)
  {
    assert (events + [e])[..|events|] == events;
  }

  lemma OneSlotScanned(s: State, slot: Slot, evidence: Evidence)
    requires s.open.Keys <= {slot}
    ensures Step(s, ScanNow(map[slot := evidence], {slot.rule}, None)) ==
      if (slot, evidence) in s.ignored then s else s.(open := map[slot := evidence])
  {
  }
}
