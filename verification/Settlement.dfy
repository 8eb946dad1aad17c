/** What settlement guarantees: of one call, of repeated calls, and over every
  run of ledger entries, discounts, completions, commission decisions and
  changes of rules and staff. */
module Settlement {
  import opened Accounting
  import opened Options

  // ------------------------------------------------------------------
  // One settlement
  // ------------------------------------------------------------------

  /** The projected status and the balance view agree after settlement: both say
      paid exactly when nothing is owed. */
  lemma PaidMeansNothingOwed(b: Books, x: Settling)
    ensures Settle(b, x).status == Paid <==> Balance(b) <= 0
    ensures View(Settle(b, x)) == ViewPaid <==> Balance(b) <= 0
    ensures Balance(Settle(b, x)) == Balance(b)
  {
  }

  /** A settlement for another reason does not turn a refunded account with
      nothing standing to its credit into a pending one. */
  lemma RefundedStays(b: Books, on: Date)
    requires b.status == Refunded && Balance(b) > 0
    ensures Settle(b, Plain(on)).status == (if NetCredits(b.ledger) <= 0 then Refunded else Pending)
  {
  }

  lemma {:induction false} ReverseAllTwice(cs: seq<Commission>)
    ensures ReverseAll(ReverseAll(cs)) == ReverseAll(cs)
  {
    assert forall i | 0 <= i < |cs| :: ReverseAll(ReverseAll(cs))[i] == ReverseAll(cs)[i];
  }

  /** Settling again on unchanged books changes nothing, for the same reason or
      for none. */
  lemma SettleTwice(b: Books, x: Settling, on: Date)
    ensures Settle(Settle(b, x), Plain(on)) == Settle(b, x)
    ensures Settle(Settle(b, x), x) == Settle(b, x)
  {
    PaidMeansNothingOwed(b, x);
    ReverseAllTwice(b.commissions);
  }

  // ------------------------------------------------------------------
  // Rounding
  // ------------------------------------------------------------------

  lemma RoundNear(x: real)
    ensures x - 0.5 < RoundHalfUp(x) as real <= x + 0.5
  {
  }

  ghost predicate Nearest(exact: real, cents: Cents) {
    exact - 0.5 < cents as real <= exact + 0.5
  }

  /** A commission on a net fee: the percentage in hundredths, to the nearest cent,
      or the fixed amount. */
  ghost predicate IsCommissionOn(rule: Rule, netFee: Cents, amount: Cents) {
    match rule.kind
    case Percent => Nearest(netFee as real * rule.value as real / 10000.0, amount)
    case Fixed => amount == rule.value
  }

  lemma CommissionExactly(rule: Rule, netFee: Cents)
    ensures IsCommissionOn(rule, netFee, CommissionAmount(rule, netFee))
  {
    if rule.kind == Percent {
      RoundNear(netFee as real * rule.value as real / 10000.0);
    }
  }

  /** A discount as entered, in cents of the fee. */
  ghost predicate IsDiscountOf(fee: Cents, how: DiscountType, value: real, cents: Cents) {
    Nearest(if how == Percentage then fee as real * value / 100.0 else value * 100.0, cents)
  }

  lemma DiscountExactly(fee: Cents, how: DiscountType, value: real)
    ensures IsDiscountOf(fee, how, value, EffectiveDiscount(fee, how, value))
  {
    RoundNear(if how == Percentage then fee as real * value / 100.0 else value * 100.0);
  }

  lemma NearestOnce(exact: real, x: Cents, y: Cents)
    requires Nearest(exact, x) && Nearest(exact, y)
    ensures x == y
  {
  }

  lemma RoundAtMost(x: real, n: int)
    requires x <= n as real
    ensures RoundHalfUp(x) <= n
  {
  }

  lemma RoundAtLeast(x: real, n: int)
    requires x >= n as real
    ensures RoundHalfUp(x) >= n
  {
  }

  lemma ScaleBetween(n: real, rate: real, whole: real)
    requires n >= 0.0 && 0.0 <= rate <= whole && whole > 0.0
    ensures 0.0 <= n * rate / whole <= n
  {
    assert n * rate <= n * whole;
    assert n * rate >= 0.0;
  }

  /** A percentage never discounts more than the fee, so it is never refused for
      exceeding it, and the stored amount is within half a cent of the exact
      one. */
  lemma PercentageWithinFee(fee: Cents, value: real)
    requires fee >= 0 && 0.0 <= value <= 100.0
    ensures var effective := EffectiveDiscount(fee, Percentage, value);
      && 0 <= effective <= fee
      && fee as real * value / 100.0 - 0.5 < effective as real <= fee as real * value / 100.0 + 0.5
  {
    var exact := fee as real * value / 100.0;
    ScaleBetween(fee as real, value, 100.0);
    RoundNear(exact);
    RoundAtMost(exact, fee);
    RoundAtLeast(exact, 0);
  }

  lemma PercentageNeverExceeds(b: Books, value: real, reason: string, on: Date)
    requires b.fee >= 0
    ensures Apply(b, Discount(Percentage, value, reason, on)) != Refused(DiscountExceedsFee)
  {
    if 0.0 <= value <= 100.0 {
      PercentageWithinFee(b.fee, value);
    }
  }

  /** A percentage commission of at most the whole never exceeds the net fee. */
  lemma CommissionWithinFee(rule: Rule, netFee: Cents)
    requires rule.kind == Percent && rule.value <= 10000 && netFee >= 0
    ensures 0 <= CommissionAmount(rule, netFee) <= netFee
  {
    var exact := netFee as real * rule.value as real / 10000.0;
    ScaleBetween(netFee as real, rule.value as real, 10000.0);
    RoundAtMost(exact, netFee);
    RoundAtLeast(exact, 0);
  }

  // ------------------------------------------------------------------
  // Every run
  // ------------------------------------------------------------------

  /** At most one commission; a live one belongs to a paid account and to the
      recorded completer; the net fee is not negative. */
  ghost predicate Inv(b: Books) {
    && |b.commissions| <= 1
    && (forall c | c in b.commissions && Live(c) :: b.status == Paid && b.completedBy == Some(c.employee))
    && (b.status == Paid ==> Balance(b) <= 0)
    && 0 <= b.discount <= b.fee
  }

  lemma SettleInv(b: Books, x: Settling)
    requires |b.commissions| <= 1 && 0 <= b.discount <= b.fee
    requires forall c | c in b.commissions && Live(c) :: b.completedBy == Some(c.employee)
    ensures Inv(Settle(b, x))
  {
    PaidMeansNothingOwed(b, x);
    var s := Settle(b, x);
    if Balance(b) > 0 {
      assert s.commissions == ReverseAll(b.commissions);
      assert forall i | 0 <= i < |s.commissions| :: !Live(s.commissions[i]);
    }
  }

  lemma ProductNonNegative(x: real, y: real)
    requires x >= 0.0 && y >= 0.0
    ensures x * y >= 0.0
  {
  }

  lemma DiscountInv(b: Books, op: Operation)
    requires Inv(b) && op.Discount? && Apply(b, op).Done?
    ensures Inv(After(b, op))
  {
    var exact := if op.how == Percentage then b.fee as real * op.value / 100.0 else op.value * 100.0;
    ProductNonNegative(b.fee as real, op.value);
    RoundAtLeast(exact, 0);
    SettleInv(b.(discount := EffectiveDiscount(b.fee, op.how, op.value)), Plain(op.on));
  }

  lemma StepInv(b: Books, op: Operation)
    requires Inv(b)
    ensures Inv(After(b, op))
  {
    if Apply(b, op).Done? {
      match op
      case Record(_, _, _, _, _, _, _, _) => SettleInv(Posted(b, op), RecordSettling(op));
      case Complete(who, on) => SettleInv(b.(completedBy := Some(who)), Plain(on));
      case Discount(_, _, _, _) => DiscountInv(b, op);
      case _ =>
    }
  }

  lemma {:induction false} RunInv(b: Books, ops: seq<Operation>)
    requires Inv(b)
    ensures Inv(Run(b, ops))
  {
    if ops != [] {
      RunInv(b, ops[..|ops| - 1]);
      StepInv(Run(b, ops[..|ops| - 1]), ops[|ops| - 1]);
    }
  }

  /** In every run from an opened account: one commission at most, none live on
      an account that is not paid, a live one owned by the completer on record. */
  lemma EveryRun(fee: Cents, rules: map<Staff, Rule>, staff: set<Staff>, ops: seq<Operation>)
    requires fee >= 0
    ensures var b := Run(Opened(fee, rules, staff), ops);
      && |b.commissions| <= 1
      && (b.status != Paid ==> forall c | c in b.commissions :: !Live(c))
      && (forall c | c in b.commissions && Live(c) :: Balance(b) <= 0 && b.completedBy == Some(c.employee))
      && NetFee(b) >= 0
  {
    RunInv(Opened(fee, rules, staff), ops);
  }

  predicate SameTerms(c: Commission, d: Commission) {
    c.(status := d.status) == d
  }

  lemma SettleKeepsCommission(b: Books, x: Settling)
    requires |b.commissions| == 1
    ensures var cs := Settle(b, x).commissions;
      && |cs| == 1
      && SameTerms(b.commissions[0], cs[0])
      && (!Live(b.commissions[0]) ==> cs[0] == b.commissions[0])
  {
    hide View, BlockedBy, CommissionAmount, NetCredits;
    assert b.commissions != [];
  }

  /** Once created, a commission keeps its owner, amount, basis and rule version,
      and one that was cancelled or reversed stays so. */
  lemma StepKeepsCommission(b: Books, op: Operation)
    requires |b.commissions| == 1
    ensures var b' := After(b, op);
      && |b'.commissions| == 1
      && SameTerms(b.commissions[0], b'.commissions[0])
      && (!Live(b.commissions[0]) ==> b'.commissions[0] == b.commissions[0])
  {
    if Apply(b, op).Done? {
      match op
      case Record(_, _, _, _, _, _, _, _) => SettleKeepsCommission(Posted(b, op), RecordSettling(op));
      case Complete(who, on) => SettleKeepsCommission(b.(completedBy := Some(who)), Plain(on));
      case Discount(how, value, _, on) =>
        SettleKeepsCommission(b.(discount := EffectiveDiscount(b.fee, how, value)), Plain(on));
      case _ =>
    }
    hide Settle;
  }

  lemma {:induction false} CommissionFinal(b: Books, ops: seq<Operation>)
    requires |b.commissions| == 1
    ensures var b' := Run(b, ops);
      && |b'.commissions| == 1
      && SameTerms(b.commissions[0], b'.commissions[0])
      && (!Live(b.commissions[0]) ==> b'.commissions[0] == b.commissions[0])
  {
    if ops != [] {
      CommissionFinal(b, ops[..|ops| - 1]);
      StepKeepsCommission(Run(b, ops[..|ops| - 1]), ops[|ops| - 1]);
    }
  }

  /** A commission comes into being only on a paid account, for the completer on
      record, on the net fee and the rule then in force. */
  lemma CreatedForCompleter(b: Books, op: Operation)
    requires b.commissions == [] && After(b, op).commissions != []
    ensures var b' := After(b, op);
      && b'.commissions == [b'.commissions[0]]
      && b'.completedBy == Some(b'.commissions[0].employee)
      && b'.commissions[0].employee in b'.rules
      && b'.commissions[0].ruleVersion == b'.rules[b'.commissions[0].employee].version
      && b'.commissions[0].basis == NetFee(b')
      && IsCommissionOn(b'.rules[b'.commissions[0].employee], NetFee(b'), b'.commissions[0].amount)
      && b'.commissions[0].status == Eligible
      && Balance(b') <= 0
  {
    var c := After(b, op).commissions[0];
    CommissionExactly(After(b, op).rules[c.employee], NetFee(After(b, op)));
    hide IsCommissionOn, CommissionAmount;
  }

  /** A reversed commission stays reversed even when the account is paid in full
      again: the money that comes back earns nothing. */
  lemma ReversedStaysReversed(b: Books, ops: seq<Operation>)
    requires |b.commissions| == 1 && b.commissions[0].status == Reversed
    ensures Run(b, ops).commissions == b.commissions
  {
    CommissionFinal(b, ops);
  }

  // ------------------------------------------------------------------
  // No commission is lost to the order of events
  // ------------------------------------------------------------------

  /** Recording money and recording the completion commute. When the account
      ends up paid, both orders create the same commission; only the date it
      became eligible on may differ. */
  lemma CompletionCommutes(b: Books, r: Operation, who: Staff, on: Date)
    requires r.Record? && Apply(b, r).Done?
    requires b.commissions == [] && (b.completedBy == None || b.completedBy == Some(who))
    requires who in b.activeStaff && who in b.rules
    requires Balance(After(b, r)) <= 0
    ensures var moneyFirst, workFirst := After(After(b, r), Complete(who, on)), After(After(b, Complete(who, on)), r);
      && moneyFirst.(commissions := []) == workFirst.(commissions := [])
      && |moneyFirst.commissions| == 1 && |workFirst.commissions| == 1
      && moneyFirst.commissions[0].(eligibleOn := 0) == workFirst.commissions[0].(eligibleOn := 0)
      && moneyFirst.commissions[0].employee == who
      && IsCommissionOn(b.rules[who], NetFee(b), moneyFirst.commissions[0].amount)
  {
    hide NetCredits, CommissionAmount, IsCommissionOn, View, FindPayment, RefundedSum, HasKey;
    CommissionExactly(b.rules[who], NetFee(b));
    var posted, x := Posted(b, r), RecordSettling(r);
    var d := MoneyFirst(b, r, who, on);
    var w := After(b, Complete(who, on));
    SettledWith(b.(completedBy := Some(who)), Plain(on), who);
    assert Posted(w, r) == w.(ledger := posted.ledger);
    PaidSettle(Posted(w, r), x, who);
  }

  lemma MoneyFirst(b: Books, r: Operation, who: Staff, on: Date) returns (d: Date)
    requires r.Record? && Apply(b, r).Done?
    requires b.commissions == [] && (b.completedBy == None || b.completedBy == Some(who))
    requires who in b.activeStaff && who in b.rules
    requires Balance(After(b, r)) <= 0
    ensures After(After(b, r), Complete(who, on)) == Posted(b, r).(
      status := Paid,
      means := Coalesce(RecordSettling(r).means, b.means),
      paidOn := Coalesce(RecordSettling(r).paidOn, b.paidOn),
      receipt := Coalesce(RecordSettling(r).receipt, b.receipt),
      completedBy := Some(who),
      commissions := [NewCommission(b, who, b.rules[who], d)])
  {
    hide NetCredits, CommissionAmount, IsCommissionOn, View, FindPayment, RefundedSum, HasKey;
    CommissionExactly(b.rules[who], NetFee(b));
    var posted, x := Posted(b, r), RecordSettling(r);
    var settled := Settle(posted, x);
    PaidMeansNothingOwed(posted, x);
    SettledWith(posted, x, who);
    d := if settled.commissions == [] then on else x.on;
    PaidSettle(settled.(completedBy := Some(who)), Plain(on), who);
    assert After(b, r) == settled;
  }

  /** Settling paid books whose completer has a rule. */
  lemma PaidSettle(b: Books, x: Settling, who: Staff)
    requires Balance(b) <= 0 && b.completedBy == Some(who) && who in b.rules
    ensures Settle(b, x) == b.(
      status := Paid,
      means := Coalesce(x.means, b.means),
      paidOn := Coalesce(x.paidOn, b.paidOn),
      receipt := Coalesce(x.receipt, b.receipt),
      commissions := if b.commissions == [] then [NewCommission(b, who, b.rules[who], x.on)] else b.commissions)
  {
  }

  /** Settling books without commissions, once the completer is on record. */
  lemma SettledWith(b: Books, x: Settling, who: Staff)
    requires b.commissions == [] && who in b.rules
    requires b.completedBy == None || b.completedBy == Some(who)
    ensures Settle(b, x).commissions ==
      if Balance(b) > 0 || b.completedBy == None then [] else [NewCommission(b, who, b.rules[who], x.on)]
  {
  }

  /** What a new entry does to the balance: a refund or a debit adjustment raises
      it by its amount, everything else lowers it. */
  lemma EntryMovesBalance(b: Books, r: Operation)
    requires r.Record? && Apply(b, r).Done?
    ensures Balance(After(b, r)) ==
      if HasKey(b.ledger, r.key) then Balance(b)
      else if r.kind == Refund || (r.kind == Adjustment && r.adjustment == Some(Debit)) then Balance(b) + r.amount
      else Balance(b) - r.amount
  {
    PaidMeansNothingOwed(Posted(b, r), RecordSettling(r));
    assert (b.ledger + [Entry(r)])[..|b.ledger|] == b.ledger;
  }

  /** Sending the same ledger entry again, where it is accepted, leaves everything
      as it was. */
  lemma ReplayIdempotent(b: Books, r: Operation)
    requires r.Record? && Apply(b, r).Done? && Apply(After(b, r), r).Done?
    ensures After(After(b, r), r) == After(b, r)
  {
    var b' := After(b, r);
    assert HasKey(b'.ledger, r.key) by {
      if !HasKey(b.ledger, r.key) {
        assert Entry(r) in b'.ledger;
      }
    }
    ReverseAllTwice(b.commissions);
  }
}
