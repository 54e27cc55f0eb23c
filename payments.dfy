/**
 * Recording a payment: the amount check of the payment form, the update of
 * the paid loan (balance, status, history, past-due date) and of the loan
 * list around it.
 */
module LoanPayments {
  import opened Wrappers
  import opened Calendar
  import opened JsValues
  import opened Types
  import opened LoanImport
  import opened LoanLists

  /**
   * The past-due date after a payment leaves `newBalance` owing, on day
   * `today`: cleared once nothing is owed or when there is no repayment
   * date; while the repayment date has passed, an existing past-due date is
   * kept and a missing one becomes the repayment date; cleared while the
   * repayment date has not passed.
   */
  function PassDueAfterPayment(l: Loan, newBalance: real, today: int): (r: Option<CivilDate>)
    requires DatesValid(l)
    ensures newBalance <= 0.0 ==> r == None
    ensures l.expectedRepaymentDate.None? ==> r == None
    ensures l.expectedRepaymentDate.Some? && today <= DaysFromCivil(l.expectedRepaymentDate.value) ==> r == None
    ensures r.Some? ==> r == l.passDueDate || r == l.expectedRepaymentDate
    ensures newBalance > 0.0 && l.expectedRepaymentDate.Some? && today > DaysFromCivil(l.expectedRepaymentDate.value) ==>
              r.Some? && (l.passDueDate.Some? ==> r == l.passDueDate)
  {
    if newBalance <= 0.0 then None
    else if l.expectedRepaymentDate.Some? then
      var due := DaysFromCivil(l.expectedRepaymentDate.value);
      if today > due && l.passDueDate.None? then l.expectedRepaymentDate
      else if today <= due then None
      else l.passDueDate
    else None
  }

  /**
   * A loan whose past-due date is unset or is its repayment date (as every
   * imported loan's is) gets the same past-due date from a payment as the
   * importer would give it for the new balance.
   */
  lemma PassDueAgreesWithImport(l: Loan, newBalance: real, today: int)
    requires DatesValid(l)
    requires l.passDueDate.None? || l.passDueDate == l.expectedRepaymentDate
    ensures PassDueAfterPayment(l, newBalance, today) == PastDue(l.expectedRepaymentDate, newBalance, today)
  {
  }

  /** `Math.max(0, x)`. */
  function ClampAtZero(x: real): (r: real)
    ensures r >= 0.0 && r >= x
    ensures r == x || r == 0.0
  {
    if x > 0.0 then x else 0.0
  }

  /** The paid loan: balance down by the amount (never below zero), payment appended, status and past-due date brought up to date. */
  function ApplyPayment(l: Loan, amount: real, today: int): (r: Loan)
    requires DatesValid(l)
    ensures r.outstandingBalance >= 0.0
    ensures r.outstandingBalance == l.outstandingBalance - amount || (r.outstandingBalance == 0.0 && l.outstandingBalance - amount <= 0.0)
    ensures r.status == PaidOff <==> r.outstandingBalance <= 0.0
    ensures |r.paymentHistory| == |l.paymentHistory| + 1
    ensures r.paymentHistory[..|l.paymentHistory|] == l.paymentHistory
    ensures r.paymentHistory[|l.paymentHistory|].amount == amount
    ensures Valid(r.paymentHistory[|l.paymentHistory|].date)
    ensures DaysFromCivil(r.paymentHistory[|l.paymentHistory|].date) == today
    ensures r.passDueDate == PassDueAfterPayment(l, r.outstandingBalance, today)
    ensures r.(outstandingBalance := l.outstandingBalance, status := l.status,
               paymentHistory := l.paymentHistory, passDueDate := l.passDueDate) == l
    ensures DatesValid(r)
  {
    var balance := ClampAtZero(l.outstandingBalance - amount);
    var history := l.paymentHistory + [Payment(amount, CivilFromDays(today))];
    assert history[..|l.paymentHistory|] == l.paymentHistory;
    l.(outstandingBalance := balance,
       status := if balance <= 0.0 then PaidOff else Outstanding,
       paymentHistory := history,
       passDueDate := PassDueAfterPayment(l, balance, today))
  }

  /** A payment of a non-negative amount never raises a non-negative balance. */
  lemma BalanceNeverIncreases(l: Loan, amount: real, today: int)
    requires DatesValid(l)
    requires l.outstandingBalance >= 0.0 && amount >= 0.0
    ensures 0.0 <= ApplyPayment(l, amount, today).outstandingBalance <= l.outstandingBalance
  {
  }

  /** Within the balance the clamp never bites, and the money moves from the balance to the history. */
  lemma {:induction false} PaymentConserves(l: Loan, amount: real, today: int)
    requires DatesValid(l)
    requires 0.0 < amount <= l.outstandingBalance
    ensures var r := ApplyPayment(l, amount, today);
            r.outstandingBalance == l.outstandingBalance - amount
            && r.outstandingBalance + PaymentsTotal(r.paymentHistory)
               == l.outstandingBalance + PaymentsTotal(l.paymentHistory)
  {
    var r := ApplyPayment(l, amount, today);
    var h := r.paymentHistory;
    assert h[..|h| - 1] == l.paymentHistory;
  }

  /** `handleRecordPayment`'s list update: the loans with that id are paid, the rest stay as they are. */
  function RecordPaymentIn(loans: seq<Loan>, loanId: string, amount: real, today: int): (r: seq<Loan>)
    requires AllDatesValid(loans)
    ensures |r| == |loans|
    ensures forall i :: 0 <= i < |r| && loans[i].id != loanId ==> r[i] == loans[i]
    ensures forall i :: 0 <= i < |r| && loans[i].id == loanId ==> r[i] == ApplyPayment(loans[i], amount, today)
    ensures AllDatesValid(r)
  {
    seq(|loans|, i requires 0 <= i < |loans| && DatesValid(loans[i]) =>
      if loans[i].id == loanId then ApplyPayment(loans[i], amount, today) else loans[i])
  }

  /** Paying the first loans of a list is paying those loans. */
  lemma RecordPaymentPrefix(loans: seq<Loan>, loanId: string, amount: real, today: int, n: nat)
    requires AllDatesValid(loans) && n <= |loans|
    ensures RecordPaymentIn(loans, loanId, amount, today)[..n] == RecordPaymentIn(loans[..n], loanId, amount, today)
  {
  }

  /**
   * A payment no larger than the balance of each loan it is applied to moves
   * money from the outstanding total to the collected total and changes
   * neither their sum nor the amounts lent.
   */
  lemma {:induction false} RecordPaymentConserves(loans: seq<Loan>, loanId: string, amount: real, today: int)
    requires AllDatesValid(loans)
    requires WithinBalance(loans, loanId, amount)
    ensures var r := RecordPaymentIn(loans, loanId, amount, today);
            SumOutstanding(r) + SumCollected(r) == SumOutstanding(loans) + SumCollected(loans)
            && SumOriginal(r) == SumOriginal(loans)
  {
    if loans != [] {
      var n := |loans| - 1;
      var r := RecordPaymentIn(loans, loanId, amount, today);
      RecordPaymentPrefix(loans, loanId, amount, today, n);
      assert forall l :: l in loans[..n] ==> l in loans;
      RecordPaymentConserves(loans[..n], loanId, amount, today);
      if loans[n].id == loanId {
        PaymentConserves(loans[n], amount, today);
      }
    }
  }

  /** The amount is positive and no more than the balance of any loan carrying the id. */
  predicate WithinBalance(loans: seq<Loan>, loanId: string, amount: real) {
    forall l :: l in loans && l.id == loanId ==> 0.0 < amount <= l.outstandingBalance
  }

  /** Paying a list is paying its first loan and then the rest. */
  lemma RecordPaymentCons(x: Loan, ys: seq<Loan>, loanId: string, amount: real, today: int)
    requires DatesValid(x) && AllDatesValid(ys)
    ensures AllDatesValid([x] + ys)
    ensures RecordPaymentIn([x] + ys, loanId, amount, today)
            == [if x.id == loanId then ApplyPayment(x, amount, today) else x] + RecordPaymentIn(ys, loanId, amount, today)
  {
    var xs := [x] + ys;
    var r := RecordPaymentIn(xs, loanId, amount, today);
    var rhs := [if x.id == loanId then ApplyPayment(x, amount, today) else x]
               + RecordPaymentIn(ys, loanId, amount, today);
    forall i | 0 <= i < |r|
      ensures r[i] == rhs[i]
    {
      if i > 0 {
        assert xs[i] == ys[i - 1];
      }
    }
  }

  /** A payment keeps every loan in a selection that does not look at the paid fields. */
  lemma {:induction false} PaymentCommutesWithFilter(loans: seq<Loan>, loanId: string, amount: real, today: int,
                                                     p: Loan -> bool)
    requires AllDatesValid(loans)
    requires forall l :: l in loans ==> p(ApplyPayment(l, amount, today)) == p(l)
    ensures AllDatesValid(Filter(loans, p))
    ensures Filter(RecordPaymentIn(loans, loanId, amount, today), p)
            == RecordPaymentIn(Filter(loans, p), loanId, amount, today)
  {
    if loans != [] {
      var x, tail := loans[0], loans[1..];
      assert loans == [x] + tail;
      assert forall l :: l in tail ==> l in loans;
      PaymentCommutesWithFilter(tail, loanId, amount, today, p);
      CommuteCons(x, tail, loanId, amount, today, p);
    }
  }

  /** The step of the induction above: one more loan in front. */
  lemma CommuteCons(x: Loan, tail: seq<Loan>, loanId: string, amount: real, today: int, p: Loan -> bool)
    requires DatesValid(x) && AllDatesValid(tail) && AllDatesValid(Filter(tail, p))
    requires p(ApplyPayment(x, amount, today)) == p(x)
    requires Filter(RecordPaymentIn(tail, loanId, amount, today), p)
             == RecordPaymentIn(Filter(tail, p), loanId, amount, today)
    ensures AllDatesValid(Filter([x] + tail, p))
    ensures Filter(RecordPaymentIn([x] + tail, loanId, amount, today), p)
            == RecordPaymentIn(Filter([x] + tail, p), loanId, amount, today)
  {
    var y := if x.id == loanId then ApplyPayment(x, amount, today) else x;
    RecordPaymentCons(x, tail, loanId, amount, today);
    FilterCons(y, RecordPaymentIn(tail, loanId, amount, today), p);
    FilterCons(x, tail, p);
    if p(x) {
      RecordPaymentCons(x, Filter(tail, p), loanId, amount, today);
    }
  }

  /**
   * In the performance table, an accepted payment moves money from an
   * agent's outstanding column to the collected column: their sum, the
   * amount lent and the number of loans stay the same.
   */
  lemma PaymentKeepsAgentTotals(agent: Agent, loans: seq<Loan>, loanId: string, amount: real, today: int)
    requires AllDatesValid(loans)
    requires WithinBalance(loans, loanId, amount)
    ensures var before := Stats(agent, loans);
            var after := Stats(agent, RecordPaymentIn(loans, loanId, amount, today));
            after.totalOutstandingAmount + after.totalAmountCollected
              == before.totalOutstandingAmount + before.totalAmountCollected
            && after.totalOriginalAssignedAmount == before.totalOriginalAssignedAmount
            && after.assignedLoansCount == before.assignedLoansCount
  {
    var mine := Filter(loans, l => AssignedTo(l, agent.id));
    PaymentCommutesWithFilter(loans, loanId, amount, today, l => AssignedTo(l, agent.id));
    RecordPaymentConserves(mine, loanId, amount, today);
  }

  /** What the payment form does with the text typed into it. */
  datatype PaymentCheck = NoLoan | InvalidAmount | ExceedsBalance | Accepted(loanId: string, amount: real)

  /**
   * `handleSubmit`'s checks: no loan, an amount that is not a positive number,
   * or one above the outstanding balance is refused; an amount up to and
   * including the balance is passed on with the loan's id.
   */
  function CheckPayment(loan: Option<Loan>, input: string, host: Host): (r: PaymentCheck)
    ensures r == NoLoan <==> loan.None?
    ensures r == InvalidAmount <==>
              loan.Some? && (host.parseFloat(input).NaN? || host.parseFloat(input).value <= 0.0)
    ensures r == ExceedsBalance <==>
              loan.Some? && host.parseFloat(input).Finite?
              && 0.0 < host.parseFloat(input).value && host.parseFloat(input).value > loan.value.outstandingBalance
    ensures r.Accepted? <==>
              loan.Some? && host.parseFloat(input).Finite?
              && 0.0 < host.parseFloat(input).value <= loan.value.outstandingBalance
    ensures r.Accepted? ==> r.loanId == loan.value.id && r.amount == host.parseFloat(input).value
  {
    if loan.None? then NoLoan
    else
      var amount := host.parseFloat(input);
      if amount.NaN? || amount.value <= 0.0 then InvalidAmount
      else if amount.value > loan.value.outstandingBalance then ExceedsBalance
      else Accepted(loan.value.id, amount.value)
  }

  /** An accepted payment is taken off the balance in full: the clamp never triggers. */
  lemma AcceptedPaymentIsExact(loan: Loan, input: string, host: Host, today: int)
    requires DatesValid(loan)
    requires CheckPayment(Some(loan), input, host).Accepted?
    ensures var amount := CheckPayment(Some(loan), input, host).amount;
            ApplyPayment(loan, amount, today).outstandingBalance == loan.outstandingBalance - amount
  {
  }

  /** The message the payment form shows. */
  datatype PaymentMessage = NoMessage | EnterPositiveAmount | CannotExceedBalance | PaymentRecorded

  /** The payment form: the amount typed and the message shown. */
  class PaymentForm {
    var paymentAmount: string
    var message: PaymentMessage

    /** Opening the form clears it. */
    constructor ()
      ensures paymentAmount == "" && message == NoMessage
    {
      paymentAmount := "";
      message := NoMessage;
    }

    /** Typing into the amount field. */
    method Type(text: string)
      modifies this
      ensures paymentAmount == text && message == old(message)
    {
      paymentAmount := text;
    }

    /**
     * Submitting: returns the `onRecordPayment(loanId, amount)` call the form
     * makes, if any, and updates the message and the field.
     */
    method Submit(loan: Option<Loan>, host: Host) returns (call: Option<(string, real)>)
      modifies this
      ensures var check := CheckPayment(loan, old(paymentAmount), host);
              (call.Some? <==> check.Accepted?)
              && (check.Accepted? ==> call.value == (check.loanId, check.amount)
                                      && message == PaymentRecorded && paymentAmount == "")
              && (check == NoLoan ==> message == old(message) && paymentAmount == old(paymentAmount))
              && (check == InvalidAmount ==> message == EnterPositiveAmount && paymentAmount == old(paymentAmount))
              && (check == ExceedsBalance ==> message == CannotExceedBalance && paymentAmount == old(paymentAmount))
    {
      var check := CheckPayment(loan, paymentAmount, host);
      match check {
        case NoLoan =>
          call := None;
        case InvalidAmount =>
          message := EnterPositiveAmount;
          call := None;
        case ExceedsBalance =>
          message := CannotExceedBalance;
          call := None;
        case Accepted(id, amount) =>
          call := Some((id, amount));
          message := PaymentRecorded;
          paymentAmount := "";
      }
    }
  }
}
