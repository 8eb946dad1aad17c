/** Reading the ledger (career-gate/lib/accounting-ledger-read.ts:58-100): the
  running credits standing after each transaction in ledger order, and what
  remains refundable on a payment. */
module LedgerView {
  import opened Accounting
  import opened Options

  // ------------------------------------------------------------------
  // Credits standing after each transaction
  // ------------------------------------------------------------------

  /** Insert by date, after the rows of the same date: rows are ordered by date
      and, within a date, by when they were created. */
  function Place(rows: seq<Txn>, t: Txn): seq<Txn> {
    if rows == [] || t.occurredOn < rows[0].occurredOn then [t] + rows
    else [rows[0]] + Place(rows[1..], t)
  }

  /** The ledger, listed in the order its rows were created, in ledger order. */
  function InOrder(ledger: seq<Txn>): seq<Txn> {
    if ledger == [] then [] else Place(InOrder(ledger[..|ledger| - 1]), ledger[|ledger| - 1])
  }

  /** The window sum: for each row, the signed sum of the frame that ends with
      it. */
  function CreditsAfter(rows: seq<Txn>): (r: seq<Cents>)
    ensures |r| == |rows|
  {
    seq(|rows|, k requires 0 <= k < |rows| => NetCredits(rows[..k + 1]))
  }

  /** How many rows come before a transaction of that date. */
  function Position(rows: seq<Txn>, on: Date): (p: nat)
    ensures p <= |rows|
  {
    if rows == [] || on < rows[0].occurredOn then 0 else 1 + Position(rows[1..], on)
  }

  ghost predicate Chronological(rows: seq<Txn>) {
    forall i, j | 0 <= i < j < |rows| :: rows[i].occurredOn <= rows[j].occurredOn
  }

  lemma {:induction false} PlaceShape(rows: seq<Txn>, t: Txn)
    ensures var p := Position(rows, t.occurredOn);
      && Place(rows, t) == rows[..p] + [t] + rows[p..]
      && (forall i | 0 <= i < p :: rows[i].occurredOn <= t.occurredOn)
      && (p < |rows| ==> t.occurredOn < rows[p].occurredOn)
  {
    if rows != [] && rows[0].occurredOn <= t.occurredOn {
      PlaceShape(rows[1..], t);
      var p := Position(rows, t.occurredOn);
      assert rows[..p] == [rows[0]] + rows[1..][..p - 1] && rows[p..] == rows[1..][p - 1..];
      forall i | 0 <= i < p ensures rows[i].occurredOn <= t.occurredOn {
        if i > 0 { assert rows[i] == rows[1..][i - 1]; }
      }
    }
  }

  lemma {:induction false} InOrderChronological(ledger: seq<Txn>)
    ensures Chronological(InOrder(ledger))
  {
    if ledger != [] {
      var rows, t := InOrder(ledger[..|ledger| - 1]), ledger[|ledger| - 1];
      InOrderChronological(ledger[..|ledger| - 1]);
      PlaceShape(rows, t);
    }
  }

  lemma {:induction false} NetCreditsConcat(first: seq<Txn>, second: seq<Txn>)
    ensures NetCredits(first + second) == NetCredits(first) + NetCredits(second)
  {
    if second == [] {
      assert first + second == first;
    } else {
      NetCreditsConcat(first, second[..|second| - 1]);
      assert (first + second)[..|first + second| - 1] == first + second[..|second| - 1];
    }
  }

  lemma {:induction false} InOrderKeepsCredits(ledger: seq<Txn>)
    ensures NetCredits(InOrder(ledger)) == NetCredits(ledger)
    ensures |InOrder(ledger)| == |ledger|
  {
    if ledger != [] {
      var rows, t := InOrder(ledger[..|ledger| - 1]), ledger[|ledger| - 1];
      assert InOrder(ledger) == Place(rows, t);
      assert NetCredits(ledger) == NetCredits(ledger[..|ledger| - 1]) + Signed(t);
      hide *;
      InOrderKeepsCredits(ledger[..|ledger| - 1]);
      PlaceShape(rows, t);
      var p := Position(rows, t.occurredOn);
      ShiftedFrame(rows, t, p, |rows| - 1);
      assert rows[p..|rows|] == rows[p..] && rows[..|rows|] == rows;
    }
  }

  /** The last row shows the net credits the balance is computed from. */
  lemma LastIsNetCredits(ledger: seq<Txn>)
    requires ledger != []
    ensures var rows := InOrder(ledger);
      rows != [] && CreditsAfter(rows)[|rows| - 1] == NetCredits(ledger)
  {
    InOrderKeepsCredits(ledger);
    var rows := InOrder(ledger);
    assert rows[..|rows|] == rows;
  }

  /** Recording a transaction, backdated or not, leaves the earlier rows of the
      view as they were and shifts every later row by its signed amount: by
      nothing when it is not confirmed. */
  lemma BackdatedShift(ledger: seq<Txn>, t: Txn)
    ensures var rows, rows' := InOrder(ledger), InOrder(ledger + [t]);
      var p := Position(rows, t.occurredOn);
      && rows' == rows[..p] + [t] + rows[p..]
      && Chronological(rows')
      && (forall k | 0 <= k < p :: CreditsAfter(rows')[k] == CreditsAfter(rows)[k])
      && (forall k | p <= k < |rows| :: CreditsAfter(rows')[k + 1] == CreditsAfter(rows)[k] + Signed(t))
      && CreditsAfter(rows')[p] == NetCredits(rows[..p]) + Signed(t)
  {
    var rows, rows' := InOrder(ledger), InOrder(ledger + [t]);
    assert (ledger + [t])[..|ledger|] == ledger;
    PlaceShape(rows, t);
    InOrderChronological(ledger + [t]);
    InsertedFrames(rows, t, Position(rows, t.occurredOn));
  }

  function Inserted(rows: seq<Txn>, t: Txn, p: nat): seq<Txn>
    requires p <= |rows|
  {
    rows[..p] + [t] + rows[p..]
  }

  lemma InsertedFrames(rows: seq<Txn>, t: Txn, p: nat)
    requires p <= |rows|
    ensures var credits, credits' := CreditsAfter(rows), CreditsAfter(Inserted(rows, t, p));
      && (forall k | 0 <= k < p :: credits'[k] == credits[k])
      && (forall k | p <= k < |rows| :: credits'[k + 1] == credits[k] + Signed(t))
      && credits'[p] == NetCredits(rows[..p]) + Signed(t)
  {
    var credits, credits' := CreditsAfter(rows), CreditsAfter(Inserted(rows, t, p));
    forall k | 0 <= k < p ensures credits'[k] == credits[k] {
      assert Inserted(rows, t, p)[..k + 1] == rows[..k + 1];
    }
    forall k | p <= k < |rows| ensures credits'[k + 1] == credits[k] + Signed(t) {
      LaterFrame(rows, t, p, k);
    }
    LaterFrame(rows, t, p, p - 1);
  }

  lemma LaterFrame(rows: seq<Txn>, t: Txn, p: nat, k: int)
    requires p <= k + 1 <= |rows|
    ensures NetCredits(Inserted(rows, t, p)[..k + 2]) == NetCredits(rows[..k + 1]) + Signed(t)
  {
    assert Inserted(rows, t, p)[..k + 2] == rows[..p] + [t] + rows[p..k + 1];
    ShiftedFrame(rows, t, p, k);
  }

  /** A frame that gains a transaction. */
  lemma ShiftedFrame(rows: seq<Txn>, t: Txn, p: nat, k: int)
    requires p <= k + 1 <= |rows|
    ensures NetCredits(rows[..p] + [t] + rows[p..k + 1]) == NetCredits(rows[..k + 1]) + Signed(t)
  {
    NetCreditsConcat(rows[..p] + [t], rows[p..k + 1]);
    NetCreditsConcat(rows[..p], [t]);
    NetCreditsConcat(rows[..p], rows[p..k + 1]);
    assert rows[..k + 1] == rows[..p] + rows[p..k + 1];
    assert [t][..0] == [];
  }

  // ------------------------------------------------------------------
  // What remains refundable
  // ------------------------------------------------------------------

  /** Before clamping at zero. */
  function Unrefunded(ledger: seq<Txn>, payment: Txn): Cents {
    payment.amount - RefundedSum(ledger, payment.key)
  }

  /** Entries have distinct keys, every confirmed refund refers to a confirmed
      payment, and no payment is refunded beyond its amount. */
  ghost predicate RefundsCovered(ledger: seq<Txn>) {
    && (forall i, j | 0 <= i < j < |ledger| :: ledger[i].key != ledger[j].key)
    && (forall t | t in ledger && t.kind == Refund && t.status == Confirmed ::
          t.related.Some? && FindPayment(ledger, t.related.value).Some?)
    && (forall key | FindPayment(ledger, key).Some? :: Unrefunded(ledger, FindPayment(ledger, key).value) >= 0)
  }

  lemma {:induction false} FindPaymentMeaning(ledger: seq<Txn>, key: string)
    ensures FindPayment(ledger, key).Some? <==>
      exists t | t in ledger :: t.key == key && t.kind == Payment && t.status == Confirmed
    ensures FindPayment(ledger, key).Some? ==>
      FindPayment(ledger, key).value in ledger && FindPayment(ledger, key).value.key == key
  {
    if ledger != [] {
      FindPaymentMeaning(ledger[1..], key);
      assert ledger == [ledger[0]] + ledger[1..];
    }
  }

  lemma {:induction false} FindPaymentAppend(ledger: seq<Txn>, t: Txn, key: string)
    ensures FindPayment(ledger, key).Some? ==> FindPayment(ledger + [t], key) == FindPayment(ledger, key)
    ensures FindPayment(ledger, key).None? ==>
      FindPayment(ledger + [t], key) ==
        if t.key == key && t.kind == Payment && t.status == Confirmed then Some(t) else None
  {
    if ledger == [] {
      assert ledger + [t] == [t] && [t][1..] == [];
    } else {
      FindPaymentAppend(ledger[1..], t, key);
      assert (ledger + [t])[1..] == ledger[1..] + [t];
    }
  }

  lemma {:induction false} NothingRefunded(ledger: seq<Txn>, key: string)
    requires forall t | t in ledger :: !IsRefundOf(t, key)
    ensures RefundedSum(ledger, key) == 0
  {
    if ledger != [] {
      NothingRefunded(ledger[..|ledger| - 1], key);
    }
  }

  lemma AppendCovered(b: Books, r: Operation)
    requires r.Record? && RefundsCovered(b.ledger) && !HasKey(b.ledger, r.key) && RecordError(b, r) == None
    ensures RefundsCovered(b.ledger + [Entry(r)])
  {
    var ledger, t := b.ledger, Entry(r);
    var ledger' := ledger + [t];
    assert ledger'[..|ledger|] == ledger;
    forall key ensures RefundedSum(ledger', key) == RefundedSum(ledger, key) + (if IsRefundOf(t, key) then r.amount else 0) {
    }
    forall i, j | 0 <= i < j < |ledger'| ensures ledger'[i].key != ledger'[j].key {
      assert ledger'[i] in ledger;
    }
    forall u | u in ledger' && u.kind == Refund && u.status == Confirmed
      ensures u.related.Some? && FindPayment(ledger', u.related.value).Some?
    {
      FindPaymentAppend(ledger, t, u.related.value);
    }
    forall key | FindPayment(ledger', key).Some? ensures Unrefunded(ledger', FindPayment(ledger', key).value) >= 0 {
      FindPaymentAppend(ledger, t, key);
      FindPaymentMeaning(ledger, key);
      if FindPayment(ledger, key).None? {
        forall u | u in ledger ensures !IsRefundOf(u, key) {
        }
        NothingRefunded(ledger, key);
      }
    }
  }

  lemma {:induction false} RunCovered(b: Books, ops: seq<Operation>)
    requires RefundsCovered(b.ledger)
    ensures RefundsCovered(Run(b, ops).ledger)
  {
    if ops != [] {
      var before, op := Run(b, ops[..|ops| - 1]), ops[|ops| - 1];
      RunCovered(b, ops[..|ops| - 1]);
      if op.Record? && Apply(before, op).Done? && !HasKey(before.ledger, op.key) {
        AppendCovered(before, op);
      }
    }
  }

  /** In every run no payment is refunded beyond its amount, so what the view
      shows as refundable is never clamped. */
  lemma RefundableNeverNegative(fee: Cents, rules: map<Staff, Rule>, staff: set<Staff>, ops: seq<Operation>,
          payment: Txn)
    requires var ledger := Run(Opened(fee, rules, staff), ops).ledger;
      payment in ledger && payment.kind == Payment && payment.status == Confirmed
    ensures Unrefunded(Run(Opened(fee, rules, staff), ops).ledger, payment) >= 0
  {
    var ledger := Run(Opened(fee, rules, staff), ops).ledger;
    RunCovered(Opened(fee, rules, staff), ops);
    FindPaymentMeaning(ledger, payment.key);
    var found := FindPayment(ledger, payment.key).value;
    var i :| 0 <= i < |ledger| && ledger[i] == payment;
    var j :| 0 <= j < |ledger| && ledger[j] == found;
  }

  // ------------------------------------------------------------------
  // Sending an entry twice
  // ------------------------------------------------------------------

  lemma PostedRefunds(b: Books, r: Operation, key: string)
    requires r.Record?
    ensures RefundedSum(Posted(b, r).ledger, key) ==
      RefundedSum(b.ledger, key) + (if !HasKey(b.ledger, r.key) && IsRefundOf(Entry(r), key) then r.amount else 0)
  {
    assert (b.ledger + [Entry(r)])[..|b.ledger|] == b.ledger;
  }

  lemma PostedPayment(b: Books, r: Operation, key: string)
    requires r.Record? && FindPayment(b.ledger, key).Some?
    ensures FindPayment(Posted(b, r).ledger, key) == FindPayment(b.ledger, key)
  {
    FindPaymentAppend(b.ledger, Entry(r), key);
  }

  /** The refund check runs before the replay is recognised. An entry sent twice
      is accepted the second time unless it is a refund, new the first time, that
      the payment could not bear twice. */
  lemma ReplayAccepted(b: Books, r: Operation)
    requires r.Record? && Apply(b, r).Done?
    ensures Apply(After(b, r), r).Done? <==>
      || r.kind != Refund
      || HasKey(b.ledger, r.key)
      || RefundedSum(b.ledger, r.related.value) + 2 * r.amount <= FindPayment(b.ledger, r.related.value).value.amount
  {
    assert After(b, r).ledger == Posted(b, r).ledger;
    if r.related.Some? {
      PostedPayment(b, r, r.related.value);
      PostedRefunds(b, r, r.related.value);
    }
  }

  /** A client pays in full and is refunded in full; the refund sent again, with
      the same key, is refused. */
  lemma ReplayRefused() returns (fee: Cents, payment: Operation, refund: Operation)
    ensures refund.Record? && refund.kind == Refund
    ensures var b := Run(Opened(fee, map[], {}), [payment]);
      && Apply(b, refund).Done? && HasKey(After(b, refund).ledger, refund.key)
      && Apply(After(b, refund), refund) == Refused(RefundExceedsPayment)
  {
    fee := 100;
    payment := Record("p", Payment, None, 100, 0, Some("cash"), None, None);
    refund := Record("r", Refund, None, 100, 1, None, Some("p"), None);
    hide *;
    PaidOnce(payment);
    RefundedTwice(Run(Opened(fee, map[], {}), [payment]), payment, refund);
  }

  /** The books of an account whose one payment is refunded in full. */
  lemma RefundedTwice(b: Books, payment: Operation, refund: Operation)
    requires payment == Record("p", Payment, None, 100, 0, Some("cash"), None, None)
    requires refund == Record("r", Refund, None, 100, 1, None, Some("p"), None)
    requires b.foreignKeys == {} && FindPayment(b.ledger, "p") == Some(Entry(payment))
    requires RefundedSum(b.ledger, "p") == 0 && !HasKey(b.ledger, "r")
    ensures Apply(b, refund).Done? && HasKey(After(b, refund).ledger, refund.key)
    ensures Apply(After(b, refund), refund) == Refused(RefundExceedsPayment)
  {
    hide Settle, FindPayment, RefundedSum;
    var after := After(b, refund);
    assert RecordError(b, refund) == None;
    assert after == Settle(Posted(b, refund), RecordSettling(refund));
    SettleKeepsLedger(Posted(b, refund), RecordSettling(refund));
    assert after.ledger == b.ledger + [Entry(refund)];
    assert Entry(refund) in after.ledger;
    PostedPayment(b, refund, "p");
    PostedRefunds(b, refund, "p");
    assert RecordError(after, refund) == Some(RefundExceedsPayment);
  }

  lemma SettleKeepsLedger(b: Books, x: Settling)
    ensures Settle(b, x).ledger == b.ledger && Settle(b, x).foreignKeys == b.foreignKeys
  {
  }

  lemma PaidOnce(payment: Operation)
    requires payment == Record("p", Payment, None, 100, 0, Some("cash"), None, None)
    ensures var b := Run(Opened(100, map[], {}), [payment]);
      && b.foreignKeys == {}
      && FindPayment(b.ledger, "p") == Some(Entry(payment))
      && RefundedSum(b.ledger, "p") == 0
      && !HasKey(b.ledger, "r")
  {
    var books := Opened(100, map[], {});
    assert books.ledger == [] && books.foreignKeys == {};
    assert RecordError(books, payment) == None;
    assert [payment][..0] == [] && Run(books, []) == books && Run(books, [payment]) == After(books, payment);
    var t := Entry(payment);
    assert t.key == "p" && t.kind == Payment && t.status == Confirmed;
    hide *;
    FirstEntry(books, payment);
    OnePayment(t);
  }

  lemma FirstEntry(b: Books, r: Operation)
    requires b.ledger == [] && r.Record? && RecordError(b, r) == None
    ensures After(b, r).ledger == [Entry(r)] && After(b, r).foreignKeys == b.foreignKeys
  {
    hide Settle, RecordError;
    SettleKeepsLedger(Posted(b, r), RecordSettling(r));
    assert After(b, r) == Settle(Posted(b, r), RecordSettling(r));
  }

  lemma OnePayment(t: Txn)
    requires t.key == "p" && t.kind == Payment && t.status == Confirmed
    ensures FindPayment([t], "p") == Some(t) && RefundedSum([t], "p") == 0 && !HasKey([t], "r")
  {
    assert [t][..0] == [];
  }
}
