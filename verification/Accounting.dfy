/** Settlement of a client account (career-gate/lib/accounting-ledger.ts,
  career-gate/lib/accounting-commission.ts, and the balance view and completion
  guard of migration 033).

  Money is in cents and rates are in hundredths of a percent. `Books` is
  everything one account's settlement depends on; the class updates it in place
  and is proved against the functions here. */
module Accounting {
  import opened Options

  type Cents = int

  /** Ledger amounts are positive. */
  type Sum = c: Cents | c > 0 witness 1

  type Staff = nat

  type Date = int

  datatype Direction = Credit | Debit

  datatype Kind = Payment | Refund | Adjustment | Waiver

  datatype TxnStatus = TxnPending | Confirmed | Failed | Voided | TxnRefunded

  /** A ledger row. `related` is the idempotency key of the payment a refund
      refers to. */
  datatype Txn = Txn(
    key: string,
    kind: Kind,
    direction: Direction,
    amount: Sum,
    status: TxnStatus,
    occurredOn: Date,
    related: Option<string>)

  datatype AccountStatus = Pending | Paid | Refunded

  /** What the balance view says about an account. */
  datatype ViewStatus = ViewRefunded | ViewPaid | ViewUnpaid | ViewPartiallyPaid

  datatype RateKind = Fixed | Percent

  datatype Rule = Rule(version: nat, kind: RateKind, value: nat)

  datatype CommissionStatus = Eligible | Approved | PaidOut | Cancelled | Reversed

  datatype Commission = Commission(
    employee: Staff,
    ruleVersion: nat,
    basis: Cents,
    amount: Cents,
    eligibleOn: Date,
    status: CommissionStatus)

  /** `documents` are the documents of the client, and `foreignKeys` the keys of
      the entries of other accounts: a key is unique over all of them. */
  datatype Books = Books(
    fee: Cents,
    discount: Cents,
    status: AccountStatus,
    means: Option<string>,
    paidOn: Option<Date>,
    receipt: Option<nat>,
    ledger: seq<Txn>,
    completedBy: Option<Staff>,
    rules: map<Staff, Rule>,
    activeStaff: set<Staff>,
    documents: set<nat>,
    foreignKeys: set<string>,
    commissions: seq<Commission>)

  // ------------------------------------------------------------------
  // Balance
  // ------------------------------------------------------------------

  function Signed(t: Txn): Cents {
    var amount: Cents := t.amount;
    if t.status != Confirmed then 0 else if t.direction == Credit then amount else -amount
  }

  function NetCredits(ledger: seq<Txn>): Cents {
    if ledger == [] then 0 else NetCredits(ledger[..|ledger| - 1]) + Signed(ledger[|ledger| - 1])
  }

  function NetFee(b: Books): Cents { b.fee - b.discount }

  function Balance(b: Books): Cents { NetFee(b) - NetCredits(b.ledger) }

  /** The status column of the balance view. */
  function View(b: Books): ViewStatus {
    if b.status == Refunded && NetCredits(b.ledger) <= 0 then ViewRefunded
    else if NetCredits(b.ledger) >= NetFee(b) then ViewPaid
    else if NetCredits(b.ledger) <= 0 then ViewUnpaid
    else ViewPartiallyPaid
  }

  function Projected(b: Books, refundRecorded: bool): AccountStatus {
    if Balance(b) <= 0 then Paid
    else if (refundRecorded || b.status == Refunded) && NetCredits(b.ledger) <= 0 then Refunded
    else Pending
  }

  // ------------------------------------------------------------------
  // Commissions
  // ------------------------------------------------------------------

  predicate Live(c: Commission) {
    c.status != Cancelled && c.status != Reversed
  }

  /** Half a unit rounds up, as the platform's rounding does. */
  function RoundHalfUp(x: real): int {
    (x + 0.5).Floor
  }

  /** The commission on a net fee. */
  function CommissionAmount(rule: Rule, netFee: Cents): Cents {
    match rule.kind
    case Percent => RoundHalfUp(netFee as real * rule.value as real / 10000.0)
    case Fixed => rule.value
  }

  function NewCommission(b: Books, employee: Staff, rule: Rule, on: Date): Commission {
    Commission(employee, rule.version, NetFee(b), CommissionAmount(rule, NetFee(b)), on, Eligible)
  }

  function ReverseAll(cs: seq<Commission>): (r: seq<Commission>)
    ensures |r| == |cs|
    ensures forall i | 0 <= i < |cs| :: r[i] == if Live(cs[i]) then cs[i].(status := Reversed) else cs[i]
  {
    if cs == [] then []
    else [if Live(cs[0]) then cs[0].(status := Reversed) else cs[0]] + ReverseAll(cs[1..])
  }

  datatype Block = NotBlocked | ApplicationNotCompleted | NoActiveRule

  /** What the settlement reports about a missing commission. */
  function BlockedBy(b: Books): Block {
    if b.completedBy.None? then ApplicationNotCompleted
    else if b.completedBy.value !in b.rules then NoActiveRule
    else NotBlocked
  }

  /** The commission rows after settlement. A second commission for the account
      runs into the uniqueness constraint and is dropped. */
  function CommissionsSettled(b: Books, on: Date): seq<Commission> {
    if View(b) != ViewPaid then ReverseAll(b.commissions)
    else if BlockedBy(b) != NotBlocked || b.commissions != [] then b.commissions
    else [NewCommission(b, b.completedBy.value, b.rules[b.completedBy.value], on)]
  }

  datatype Settling = Settling(
    on: Date,
    refundRecorded: bool,
    means: Option<string>,
    paidOn: Option<Date>,
    receipt: Option<nat>)

  function Plain(on: Date): Settling { Settling(on, false, None, None, None) }

  function Coalesce<T>(a: Option<T>, b: Option<T>): Option<T> {
    if a.Some? then a else b
  }

  function Projection(b: Books, x: Settling): Books {
    b.(status := Projected(b, x.refundRecorded),
       means := Coalesce(x.means, b.means),
       paidOn := Coalesce(x.paidOn, b.paidOn),
       receipt := Coalesce(x.receipt, b.receipt))
  }

  /** The single settlement path. */
  function Settle(b: Books, x: Settling): Books {
    var p := Projection(b, x);
    p.(commissions := CommissionsSettled(p, x.on))
  }

  // ------------------------------------------------------------------
  // Operations
  // ------------------------------------------------------------------

  datatype Error =
    | PaymentMethodRequired
    | RefundLinkRequired
    | AdjustmentDirectionRequired
    | InvalidReceipt
    | RelatedNotFound
    | RefundExceedsPayment
    | IdempotencyConflict
    | StaffNotFound
    | LockedByCommission
    | DiscountValueInvalid
    | PercentageOutOfRange
    | DiscountExceedsFee
    | ReasonRequired
    | InvalidTransition

  datatype Outcome = Done(books: Books) | Refused(error: Error)

  datatype DiscountType = Amount | Percentage

  datatype Operation =
    | Record(
        key: string,
        kind: Kind,
        adjustment: Option<Direction>,
        amount: Sum,
        on: Date,
        means: Option<string>,
        related: Option<string>,
        receipt: Option<nat>)
    | Complete(who: Staff, on: Date)
    | Discount(how: DiscountType, value: real, reason: string, on: Date)
    | MoveCommission(to: CommissionStatus)
    | ChangeRule(employee: Staff, rule: Option<Rule>)
    | ChangeStaff(member: Staff, active: bool)
    | FileDocument(document: nat)
    | RecordElsewhere(foreignKey: string)

  function DirectionOf(kind: Kind, adjustment: Option<Direction>): Direction {
    match kind
    case Refund => Debit
    case Adjustment => if adjustment.Some? then adjustment.value else Credit
    case _ => Credit
  }

  /** The confirmed payment with the given key, if the ledger has one. */
  function FindPayment(ledger: seq<Txn>, key: string): Option<Txn> {
    if ledger == [] then None
    else if ledger[0].key == key && ledger[0].kind == Payment && ledger[0].status == Confirmed then Some(ledger[0])
    else FindPayment(ledger[1..], key)
  }

  predicate IsRefundOf(t: Txn, key: string) {
    t.kind == Refund && t.status == Confirmed && t.related == Some(key)
  }

  function RefundedSum(ledger: seq<Txn>, key: string): Cents {
    if ledger == [] then 0
    else RefundedSum(ledger[..|ledger| - 1], key)
         + (if IsRefundOf(ledger[|ledger| - 1], key) then ledger[|ledger| - 1].amount else 0)
  }

  function HasKey(ledger: seq<Txn>, key: string): bool {
    exists t | t in ledger :: t.key == key
  }

  function Entry(r: Operation): Txn
    requires r.Record?
  {
    Txn(r.key, r.kind, DirectionOf(r.kind, r.adjustment), r.amount, Confirmed, r.on, r.related)
  }

  /** The ledger after recording: a key used before adds nothing. */
  function Posted(b: Books, r: Operation): Books
    requires r.Record?
  {
    if HasKey(b.ledger, r.key) then b else b.(ledger := b.ledger + [Entry(r)])
  }

  function RecordSettling(r: Operation): Settling
    requires r.Record?
  {
    if r.kind == Payment then Settling(r.on, false, r.means, Some(r.on), r.receipt)
    else Settling(r.on, r.kind == Refund, None, None, r.receipt)
  }

  /** Why an entry is refused, in the order the reasons are looked for. */
  function RecordError(b: Books, r: Operation): Option<Error>
    requires r.Record?
  {
    if r.kind == Payment && r.means.None? then Some(PaymentMethodRequired)
    else if r.kind == Refund && r.related.None? then Some(RefundLinkRequired)
    else if r.kind == Adjustment && r.adjustment.None? then Some(AdjustmentDirectionRequired)
    else if r.receipt.Some? && r.receipt.value !in b.documents then Some(InvalidReceipt)
    else if r.related.Some? && FindPayment(b.ledger, r.related.value).None? then Some(RelatedNotFound)
    else if r.kind == Refund
         && RefundedSum(b.ledger, r.related.value) + r.amount > FindPayment(b.ledger, r.related.value).value.amount
    then Some(RefundExceedsPayment)
    else if !HasKey(b.ledger, r.key) && r.key in b.foreignKeys then Some(IdempotencyConflict)
    else None
  }

  function RecordStep(b: Books, r: Operation): Outcome
    requires r.Record?
  {
    match RecordError(b, r)
    case Some(error) => Refused(error)
    case None => Done(Settle(Posted(b, r), RecordSettling(r)))
  }

  /** The completion guard: the completer cannot change while a commission
      derived from it is live. */
  function CompleteStep(b: Books, who: Staff, on: Date): Outcome {
    if who !in b.activeStaff then Refused(StaffNotFound)
    else if b.completedBy.Some? && b.completedBy.value != who && (exists c | c in b.commissions :: Live(c))
    then Refused(LockedByCommission)
    else Done(Settle(b.(completedBy := Some(who)), Plain(on)))
  }

  /** The effective discount in cents. `value` is in currency units or percent. */
  function EffectiveDiscount(fee: Cents, kind: DiscountType, value: real): Cents {
    match kind
    case Percentage => RoundHalfUp(fee as real * value / 100.0)
    case Amount => RoundHalfUp(value * 100.0)
  }

  function DiscountStep(b: Books, kind: DiscountType, value: real, reason: string, on: Date): Outcome {
    if value < 0.0 then Refused(DiscountValueInvalid)
    else if kind == Percentage && value > 100.0 then Refused(PercentageOutOfRange)
    else
      var effective := EffectiveDiscount(b.fee, kind, value);
      if effective > b.fee then Refused(DiscountExceedsFee)
      else if effective > 0 && reason == "" then Refused(ReasonRequired)
      else Done(Settle(b.(discount := effective), Plain(on)))
  }

  predicate Allowed(from: CommissionStatus, to: CommissionStatus) {
    match from
    case Eligible => to == Approved || to == Cancelled
    case Approved => to == PaidOut || to == Cancelled
    case PaidOut => to == Reversed
    case Cancelled => false
    case Reversed => false
  }

  function MoveStep(b: Books, to: CommissionStatus): Outcome {
    if b.commissions == [] || !Allowed(b.commissions[0].status, to) then Refused(InvalidTransition)
    else Done(b.(commissions := b.commissions[0 := b.commissions[0].(status := to)]))
  }

  function Apply(b: Books, op: Operation): Outcome {
    match op
    case Record(_, _, _, _, _, _, _, _) => RecordStep(b, op)
    case Complete(who, on) => CompleteStep(b, who, on)
    case Discount(kind, value, reason, on) => DiscountStep(b, kind, value, reason, on)
    case MoveCommission(to) => MoveStep(b, to)
    case ChangeRule(employee, rule) =>
      Done(b.(rules := if rule.Some? then b.rules[employee := rule.value] else b.rules - {employee}))
    case ChangeStaff(member, active) =>
      Done(b.(activeStaff := if active then b.activeStaff + {member} else b.activeStaff - {member}))
    case FileDocument(document) => Done(b.(documents := b.documents + {document}))
    case RecordElsewhere(key) => Done(if HasKey(b.ledger, key) then b else b.(foreignKeys := b.foreignKeys + {key}))
  }

  /** A refused operation is rolled back. */
  function After(b: Books, op: Operation): Books {
    match Apply(b, op)
    case Done(books) => books
    case Refused(_) => b
  }

  function Run(b: Books, ops: seq<Operation>): Books {
    if ops == [] then b else After(Run(b, ops[..|ops| - 1]), ops[|ops| - 1])
  }

  function Opened(fee: Cents, rules: map<Staff, Rule>, staff: set<Staff>): Books {
    Books(fee, 0, Pending, None, None, None, [], None, rules, staff, {}, {}, [])
  }

  // ------------------------------------------------------------------
  // The account, updated in place
  // ------------------------------------------------------------------

  class Account {
    var fee: Cents
    var discount: Cents
    var status: AccountStatus
    var means: Option<string>
    var paidOn: Option<Date>
    var receipt: Option<nat>
    var ledger: seq<Txn>
    var completedBy: Option<Staff>
    var rules: map<Staff, Rule>
    var activeStaff: set<Staff>
    var documents: set<nat>
    var foreignKeys: set<string>
    var commissions: seq<Commission>

    function State(): Books
      reads this
    {
      Books(fee, discount, status, means, paidOn, receipt, ledger, completedBy, rules, activeStaff,
            documents, foreignKeys, commissions)
    }

    constructor (fee: Cents, rules: map<Staff, Rule>, staff: set<Staff>)
      ensures State() == Opened(fee, rules, staff)
      ensures this.fee == fee && discount == 0 && status == Pending && ledger == [] && commissions == []
      ensures means == None && paidOn == None && receipt == None && completedBy == None
      ensures this.rules == rules && activeStaff == staff && documents == {} && foreignKeys == {}
    {
      this.fee, discount, status, means, paidOn, receipt := fee, 0, Pending, None, None, None;
      documents, foreignKeys := {}, {};
      ledger, completedBy, this.rules, activeStaff, commissions := [], None, rules, staff, [];
    }

    /** Project the status, then derive the commission from the view. */
    method ReconcileAccount(x: Settling) returns (commission: Option<Commission>, blocked: Block)
      modifies this
      ensures State() == Settle(old(State()), x)
      ensures blocked == if View(State()) == ViewPaid then BlockedBy(State()) else NotBlocked
      ensures blocked == ApplicationNotCompleted <==> View(State()) == ViewPaid && completedBy.None?
      ensures blocked == NoActiveRule <==>
        View(State()) == ViewPaid && completedBy.Some? && completedBy.value !in rules
      ensures View(State()) == ViewPaid && blocked == NotBlocked ==> commissions != [] && commission == Some(commissions[0])
    {
      hide NetCredits, CommissionAmount, CommissionsSettled, BlockedBy;
      var netCredits := NetCredits(ledger);
      var balance := fee - discount - netCredits;
      var refunded := x.refundRecorded || status == Refunded;
      status := if balance <= 0 then Paid else if refunded && netCredits <= 0 then Refunded else Pending;
      means := Coalesce(x.means, means);
      paidOn := Coalesce(x.paidOn, paidOn);
      receipt := Coalesce(x.receipt, receipt);
      assert State() == Projection(old(State()), x);
      commission, blocked := DeriveCommission(x.on);
    }

    /** Create the commission of a paid account, or reverse that of another. */
    method DeriveCommission(on: Date) returns (commission: Option<Commission>, blocked: Block)
      modifies this`commissions
      ensures State() == old(State()).(commissions := CommissionsSettled(old(State()), on))
      ensures View(State()) == View(old(State())) && BlockedBy(State()) == BlockedBy(old(State()))
      ensures blocked == if View(State()) == ViewPaid then BlockedBy(State()) else NotBlocked
      ensures blocked == ApplicationNotCompleted <==> View(State()) == ViewPaid && completedBy.None?
      ensures blocked == NoActiveRule <==>
        View(State()) == ViewPaid && completedBy.Some? && completedBy.value !in rules
      ensures View(State()) == ViewPaid && blocked == NotBlocked ==> commissions != [] && commission == Some(commissions[0])
    {
      hide NetCredits, CommissionAmount;
      commission, blocked := None, NotBlocked;
      if View(State()) == ViewPaid {
        if completedBy.None? {
          blocked := ApplicationNotCompleted;
        } else if completedBy.value !in rules {
          blocked := NoActiveRule;
        } else {
          if commissions == [] {
            commissions := [NewCommission(State(), completedBy.value, rules[completedBy.value], on)];
          }
          commission := Some(commissions[0]);
        }
      } else {
        commissions := ReverseAll(commissions);
      }
    }

    /** Append to the ledger unless the key was used before, then settle. */
    method RecordTransaction(r: Operation) returns (error: Option<Error>)
      requires r.Record?
      modifies this
      ensures State() == After(old(State()), r)
      ensures error.Some? ==> Apply(old(State()), r) == Refused(error.value)
      ensures error.None? ==> Apply(old(State()), r).Done?
    {
      if r.kind == Payment && r.means.None? { return Some(PaymentMethodRequired); }
      if r.kind == Refund && r.related.None? { return Some(RefundLinkRequired); }
      if r.kind == Adjustment && r.adjustment.None? { return Some(AdjustmentDirectionRequired); }
      if r.receipt.Some? && r.receipt.value !in documents { return Some(InvalidReceipt); }
      if r.related.Some? {
        var payment := FindPayment(ledger, r.related.value);
        if payment.None? { return Some(RelatedNotFound); }
        if r.kind == Refund && RefundedSum(ledger, r.related.value) + r.amount > payment.value.amount {
          return Some(RefundExceedsPayment);
        }
      }
      if !HasKey(ledger, r.key) {
        if r.key in foreignKeys { return Some(IdempotencyConflict); }
        ledger := ledger + [Txn(r.key, r.kind, DirectionOf(r.kind, r.adjustment), r.amount, Confirmed, r.on, r.related)];
      }
      var payment := r.kind == Payment;
      var means, paidOn := if payment then r.means else None, if payment then Some(r.on) else None;
      var _, _ := ReconcileAccount(Settling(r.on, r.kind == Refund, means, paidOn, r.receipt));
      return None;
    }

    method RecordApplicationCompletion(who: Staff, on: Date) returns (error: Option<Error>)
      modifies this
      ensures State() == After(old(State()), Complete(who, on))
      ensures error.Some? ==> Apply(old(State()), Complete(who, on)) == Refused(error.value)
      ensures error.None? ==> Apply(old(State()), Complete(who, on)).Done?
    {
      if who !in activeStaff { return Some(StaffNotFound); }
      if completedBy.Some? && completedBy.value != who && exists c | c in commissions :: Live(c) {
        return Some(LockedByCommission);
      }
      completedBy := Some(who);
      var _, _ := ReconcileAccount(Plain(on));
      return None;
    }

    method ApplyAccountDiscount(how: DiscountType, value: real, reason: string, on: Date) returns (error: Option<Error>)
      modifies this
      ensures State() == After(old(State()), Discount(how, value, reason, on))
      ensures error.Some? ==> Apply(old(State()), Discount(how, value, reason, on)) == Refused(error.value)
      ensures error.None? ==> Apply(old(State()), Discount(how, value, reason, on)).Done?
    {
      if value < 0.0 { return Some(DiscountValueInvalid); }
      if how == Percentage && value > 100.0 { return Some(PercentageOutOfRange); }
      var effective := EffectiveDiscount(fee, how, value);
      if effective > fee { return Some(DiscountExceedsFee); }
      if effective > 0 && reason == "" { return Some(ReasonRequired); }
      discount := effective;
      var _, _ := ReconcileAccount(Plain(on));
      return None;
    }
  }
}
