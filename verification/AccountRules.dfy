/** The rules of an account in figures and in the words of its ledger
    (career-gate/lib/accounting-ledger.ts, career-gate/lib/accounting-commission.ts,
    career-gate/app/api/staff/accounting/route.ts, migration 033): what every
    operation is refused for, and what it leaves behind. */
module AccountRules {
  import opened Accounting
  import opened LedgerView
  import opened Options
  import opened Settlement

  // ------------------------------------------------------------------
  // Balance
  // ------------------------------------------------------------------

  /** The confirmed entries of one direction, added up. */
  function ConfirmedSum(ledger: seq<Txn>, direction: Direction): Cents {
    if ledger == [] then 0
    else
      var t := ledger[|ledger| - 1];
      ConfirmedSum(ledger[..|ledger| - 1], direction)
      + (if t.status == Confirmed && t.direction == direction then t.amount else 0)
  }

  function Standing(b: Books): Cents { ConfirmedSum(b.ledger, Credit) - ConfirmedSum(b.ledger, Debit) }

  lemma {:induction false} CreditsExactly(ledger: seq<Txn>)
    ensures NetCredits(ledger) == ConfirmedSum(ledger, Credit) - ConfirmedSum(ledger, Debit)
  {
    if ledger != [] {
      CreditsExactly(ledger[..|ledger| - 1]);
    }
  }

  /** What is owed: the fee less the discount and the credits, and what was debited. */
  lemma BalanceExactly(b: Books)
    ensures Balance(b) == b.fee - b.discount - ConfirmedSum(b.ledger, Credit) + ConfirmedSum(b.ledger, Debit)
  {
    CreditsExactly(b.ledger);
  }

  /** What the balance view says, by what stands to the account's credit. */
  lemma ViewExactly(b: Books)
    ensures var refunded := b.status == Refunded && Standing(b) <= 0;
      && (View(b) == ViewRefunded <==> refunded)
      && (View(b) == ViewPaid <==> !refunded && Standing(b) >= b.fee - b.discount)
      && (View(b) == ViewUnpaid <==> !refunded && Standing(b) < b.fee - b.discount && Standing(b) <= 0)
      && (View(b) == ViewPartiallyPaid <==> 0 < Standing(b) < b.fee - b.discount)
  {
    CreditsExactly(b.ledger);
  }

  // ------------------------------------------------------------------
  // Settlement
  // ------------------------------------------------------------------

  /** Settled for an account that owes this much: the status. */
  lemma StatusExactly(b: Books, x: Settling)
    ensures var status := Settle(b, x).status;
      && (status == Paid <==> Balance(b) <= 0)
      && (status == Refunded <==> Balance(b) > 0 && Standing(b) <= 0 && (x.refundRecorded || b.status == Refunded))
  {
    CreditsExactly(b.ledger);
  }

  predicate Counts(c: Commission) {
    c.status in [Eligible, Approved, PaidOut]
  }

  /** What settlement makes of the commissions: an account that still owes has
      those that count reversed; a paid one gets its first, if the completer is on
      record and has a rule. */
  lemma CommissionsExactly(b: Books, x: Settling)
    ensures var cs, cs' := b.commissions, Settle(b, x).commissions;
      if Balance(b) > 0 then
        && |cs'| == |cs|
        && forall i | 0 <= i < |cs| :: cs'[i] == if Counts(cs[i]) then cs[i].(status := Reversed) else cs[i]
      else if cs != [] || b.completedBy.None? || b.completedBy.value !in b.rules then cs' == cs
      else
        var rule := b.rules[b.completedBy.value];
        && |cs'| == 1 && cs'[0].employee == b.completedBy.value && cs'[0].ruleVersion == rule.version
        && cs'[0].basis == b.fee - b.discount && IsCommissionOn(rule, b.fee - b.discount, cs'[0].amount)
        && cs'[0].eligibleOn == x.on && cs'[0].status == Eligible
  {
    PaidMeansNothingOwed(b, x);
    assert View(Projection(b, x)) == View(Settle(b, x));
    if b.completedBy.Some? && b.completedBy.value in b.rules {
      CommissionExactly(b.rules[b.completedBy.value], b.fee - b.discount);
    }
    hide CommissionAmount, IsCommissionOn, NetCredits;
  }

  /** Everything settlement leaves alone. */
  ghost predicate SameOtherwise(b: Books, b': Books) {
    && b'.fee == b.fee && b'.rules == b.rules && b'.activeStaff == b.activeStaff
    && b'.documents == b.documents && b'.foreignKeys == b.foreignKeys
  }

  // ------------------------------------------------------------------
  // Recording an entry
  // ------------------------------------------------------------------

  /** The reasons to refuse an entry, in the order they are looked for. */
  const REASONS: seq<Error> := [
    PaymentMethodRequired, RefundLinkRequired, AdjustmentDirectionRequired, InvalidReceipt, RelatedNotFound,
    RefundExceedsPayment, IdempotencyConflict]

  predicate IsPayment(t: Txn, key: string) {
    t.key == key && t.kind == Payment && t.status == Confirmed
  }

  ghost predicate FirstPayment(ledger: seq<Txn>, key: string, i: int) {
    0 <= i < |ledger| && IsPayment(ledger[i], key) && forall j | 0 <= j < i :: !IsPayment(ledger[j], key)
  }

  /** What was refunded of a payment. */
  function RefundsOf(ledger: seq<Txn>, key: string): Cents {
    if ledger == [] then 0
    else
      var t := ledger[|ledger| - 1];
      RefundsOf(ledger[..|ledger| - 1], key)
      + (if t.kind == Refund && t.status == Confirmed && t.related == Some(key) then t.amount else 0)
  }

  ghost predicate Speaks(b: Books, r: Operation, error: Error)
    requires r.Record?
  {
    match error
    case PaymentMethodRequired => r.kind == Payment && r.means == None
    case RefundLinkRequired => r.kind == Refund && r.related == None
    case AdjustmentDirectionRequired => r.kind == Adjustment && r.adjustment == None
    case InvalidReceipt => r.receipt.Some? && r.receipt.value !in b.documents
    case RelatedNotFound => r.related.Some? && forall t | t in b.ledger :: !IsPayment(t, r.related.value)
    case RefundExceedsPayment =>
      && r.kind == Refund && r.related.Some?
      && exists i | FirstPayment(b.ledger, r.related.value, i) ::
           RefundsOf(b.ledger, r.related.value) + r.amount > b.ledger[i].amount
    case IdempotencyConflict => r.key in b.foreignKeys && forall t | t in b.ledger :: t.key != r.key
    case _ => false
  }

  lemma {:induction false} RefundsExactly(ledger: seq<Txn>, key: string)
    ensures RefundedSum(ledger, key) == RefundsOf(ledger, key)
  {
    if ledger != [] {
      RefundsExactly(ledger[..|ledger| - 1], key);
    }
  }

  lemma {:induction false} PaymentFound(ledger: seq<Txn>, key: string)
    ensures FindPayment(ledger, key).None? <==> forall t | t in ledger :: !IsPayment(t, key)
    ensures forall i | FirstPayment(ledger, key, i) :: FindPayment(ledger, key) == Some(ledger[i])
    ensures FindPayment(ledger, key).Some? ==> exists i :: FirstPayment(ledger, key, i)
  {
    if ledger != [] {
      var rest := ledger[1..];
      assert ledger == [ledger[0]] + rest;
      PaymentFound(rest, key);
      if IsPayment(ledger[0], key) {
        assert FirstPayment(ledger, key, 0);
        assert forall i | FirstPayment(ledger, key, i) :: i == 0;
      } else {
        assert FindPayment(ledger, key) == FindPayment(rest, key);
        forall i | FirstPayment(ledger, key, i) ensures FirstPayment(rest, key, i - 1) {
          assert forall j | 0 <= j < |rest| :: rest[j] == ledger[j + 1];
        }
        if i :| FirstPayment(rest, key, i) {
          assert forall j | 0 < j < |ledger| :: ledger[j] == rest[j - 1];
          assert FirstPayment(ledger, key, i + 1);
        }
      }
    }
  }

  /** An entry is refused for a reason exactly when that reason speaks against it
      and none looked for earlier does. */
  lemma RecordRefusedExactly(b: Books, r: Operation, i: nat)
    requires r.Record? && i < |REASONS|
    ensures Apply(b, r) == Refused(REASONS[i]) <==>
      Speaks(b, r, REASONS[i]) && forall j | 0 <= j < i :: !Speaks(b, r, REASONS[j])
  {
    RefusedFor(b, r);
    ReasonFound(b, r);
    hide Apply, Speaks, RecordError;
  }

  lemma RefusedFor(b: Books, r: Operation)
    requires r.Record?
    ensures forall error :: Apply(b, r) == Refused(error) <==> RecordError(b, r) == Some(error)
    ensures Apply(b, r).Done? <==> RecordError(b, r) == None
  {
    hide RecordError, Settle, Posted;
  }

  lemma RecordAcceptedExactly(b: Books, r: Operation)
    requires r.Record?
    ensures Apply(b, r).Done? <==> forall i | 0 <= i < |REASONS| :: !Speaks(b, r, REASONS[i])
  {
    RefusedFor(b, r);
    ReasonFound(b, r);
    hide Apply, Speaks, RecordError;
  }

  lemma ReasonFound(b: Books, r: Operation)
    requires r.Record?
    ensures RecordError(b, r) ==
      if Speaks(b, r, REASONS[0]) then Some(REASONS[0])
      else if Speaks(b, r, REASONS[1]) then Some(REASONS[1])
      else if Speaks(b, r, REASONS[2]) then Some(REASONS[2])
      else if Speaks(b, r, REASONS[3]) then Some(REASONS[3])
      else if Speaks(b, r, REASONS[4]) then Some(REASONS[4])
      else if Speaks(b, r, REASONS[5]) then Some(REASONS[5])
      else if Speaks(b, r, REASONS[6]) then Some(REASONS[6])
      else None
  {
    if r.related.Some? {
      PaymentFound(b.ledger, r.related.value);
      RefundsExactly(b.ledger, r.related.value);
    }
  }

  /** What a recorded entry leaves: the entry, unless its key was there before, the
      means and date of a payment, the receipt, and an account settled for it. */
  lemma RecordedExactly(b: Books, r: Operation)
    requires r.Record? && Apply(b, r).Done?
    ensures var b' := After(b, r);
      var direction := match r.kind case Refund => Debit case Adjustment => r.adjustment.value case _ => Credit;
      && b'.ledger == (if exists t | t in b.ledger :: t.key == r.key then b.ledger
                       else b.ledger + [Txn(r.key, r.kind, direction, r.amount, Confirmed, r.on, r.related)])
      && b'.means == (if r.kind == Payment then r.means else b.means)
      && b'.paidOn == (if r.kind == Payment then Some(r.on) else b.paidOn)
      && b'.receipt == (if r.receipt.Some? then r.receipt else b.receipt)
      && b'.discount == b.discount && b'.completedBy == b.completedBy && SameOtherwise(b, b')
      && (b'.status == Paid <==> Balance(b') <= 0)
      && (b'.status == Refunded <==>
            Balance(b') > 0 && Standing(b') <= 0 && (r.kind == Refund || b.status == Refunded))
  {
    StatusExactly(Posted(b, r), RecordSettling(r));
    PaidMeansNothingOwed(Posted(b, r), RecordSettling(r));
  }

  // ------------------------------------------------------------------
  // The other operations
  // ------------------------------------------------------------------

  lemma CompletionRefusedExactly(b: Books, who: Staff, on: Date)
    ensures var outcome := Apply(b, Complete(who, on));
      var taken := b.completedBy.Some? && b.completedBy.value != who && exists c | c in b.commissions :: Counts(c);
      && (outcome == Refused(StaffNotFound) <==> who !in b.activeStaff)
      && (outcome == Refused(LockedByCommission) <==> who in b.activeStaff && taken)
      && (outcome.Done? <==> who in b.activeStaff && !taken)
  {
    assert forall c | c in b.commissions :: Live(c) <==> Counts(c);
  }

  lemma CompletedExactly(b: Books, who: Staff, on: Date)
    requires Apply(b, Complete(who, on)).Done?
    ensures var b' := After(b, Complete(who, on));
      && b'.completedBy == Some(who) && b'.ledger == b.ledger && b'.discount == b.discount
      && b'.means == b.means && b'.paidOn == b.paidOn && b'.receipt == b.receipt && SameOtherwise(b, b')
      && b'.commissions == Settle(b.(completedBy := Some(who)), Settling(on, false, None, None, None)).commissions
  {
  }

  lemma DiscountRefusedExactly(b: Books, how: DiscountType, value: real, reason: string, on: Date, cents: Cents)
    requires IsDiscountOf(b.fee, how, value, cents)
    ensures var outcome := Apply(b, Discount(how, value, reason, on));
      && (outcome == Refused(DiscountValueInvalid) <==> value < 0.0)
      && (outcome == Refused(PercentageOutOfRange) <==> how == Percentage && value > 100.0)
      && (outcome == Refused(DiscountExceedsFee) <==>
            value >= 0.0 && !(how == Percentage && value > 100.0) && cents > b.fee)
      && (outcome == Refused(ReasonRequired) <==>
            value >= 0.0 && !(how == Percentage && value > 100.0) && 0 < cents <= b.fee && reason == "")
      && (outcome.Done? <==>
            value >= 0.0 && !(how == Percentage && value > 100.0) && cents <= b.fee && (cents <= 0 || reason != ""))
      && (outcome.Done? ==> outcome.books.discount == cents)
  {
    DiscountExactly(b.fee, how, value);
    NearestOnce(if how == Percentage then b.fee as real * value / 100.0 else value * 100.0, cents,
      EffectiveDiscount(b.fee, how, value));
    hide IsDiscountOf, EffectiveDiscount;
  }

  lemma DiscountedExactly(b: Books, how: DiscountType, value: real, reason: string, on: Date)
    requires Apply(b, Discount(how, value, reason, on)).Done?
    ensures var b' := After(b, Discount(how, value, reason, on));
      && IsDiscountOf(b.fee, how, value, b'.discount)
      && b'.ledger == b.ledger && b'.completedBy == b.completedBy
      && b'.means == b.means && b'.paidOn == b.paidOn && b'.receipt == b.receipt && SameOtherwise(b, b')
      && b'.commissions == Settle(b.(discount := b'.discount), Settling(on, false, None, None, None)).commissions
  {
    DiscountExactly(b.fee, how, value);
    hide IsDiscountOf, EffectiveDiscount;
  }

  /** The moves staff can make with a commission. */
  lemma MovedExactly(b: Books, to: CommissionStatus)
    requires b.commissions != []
    ensures var from := b.commissions[0].status;
      Apply(b, MoveCommission(to)) ==
        if (from, to) in [(Eligible, Approved), (Eligible, Cancelled), (Approved, PaidOut), (Approved, Cancelled),
                          (PaidOut, Reversed)]
        then Done(b.(commissions := [b.commissions[0].(status := to)] + b.commissions[1..]))
        else Refused(InvalidTransition)
  {
    assert b.commissions[0 := b.commissions[0].(status := to)] ==
      [b.commissions[0].(status := to)] + b.commissions[1..];
  }

  /** What goes on around the account: rules and staff change, documents are filed,
      and keys are taken by entries of other accounts, but never one of its own. */
  lemma AroundExactly(b: Books, staff: Staff, rule: Rule, document: nat, key: string)
    ensures After(b, ChangeRule(staff, Some(rule))) == b.(rules := b.rules[staff := rule])
    ensures After(b, ChangeRule(staff, None)) == b.(rules := map who | who in b.rules && who != staff :: b.rules[who])
    ensures After(b, ChangeStaff(staff, true)) == b.(activeStaff := b.activeStaff + {staff})
    ensures After(b, ChangeStaff(staff, false)) == b.(activeStaff := b.activeStaff - {staff})
    ensures After(b, FileDocument(document)) == b.(documents := b.documents + {document})
    ensures After(b, RecordElsewhere(key)) ==
      if exists t | t in b.ledger :: t.key == key then b else b.(foreignKeys := b.foreignKeys + {key})
  {
    assert b.rules - {staff} == map who | who in b.rules && who != staff :: b.rules[who];
  }
}
