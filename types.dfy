/**
 * The records the application keeps: loans with their payment and
 * communication histories, and agents. A date field holds the calendar day its
 * `YYYY-MM-DD` text names; an optional field absent from the record and one
 * holding `null` are both `None`.
 */
module Types {
  import opened Wrappers
  import opened Calendar
  import opened JsValues

  datatype Status = Outstanding | PaidOff

  datatype Payment = Payment(amount: real, date: CivilDate)

  datatype CommType = Call | Email | Visit | SMS | Other

  datatype CommEntry = CommEntry(
    id: string,
    date: CivilDate,
    kind: CommType,
    notes: string,
    agentId: string,
    agentName: Option<string>)

  datatype Loan = Loan(
    id: string,
    client: Option<string>,
    branch: Option<string>,
    accountNumber: string,
    phoneNumber: Option<string>,
    product: Option<string>,
    originalAmount: real,
    totalLiab: Option<JsNum>,
    startDate: Option<CivilDate>,
    maturedOn: Option<CivilDate>,
    expectedRepaymentDate: Option<CivilDate>,
    repaymentAmount: Option<real>,
    remark: Option<string>,
    passDueDate: Option<CivilDate>,
    interestRepaid: Option<JsNum>,
    outstandingBalance: real,
    interestOutstanding: Option<JsNum>,
    status: Status,
    assignedAgentId: Option<string>,
    paymentHistory: seq<Payment>,
    communicationHistory: seq<CommEntry>,
    term: Option<JsNum>,
    interestRate: Option<JsNum>)

  datatype Agent = Agent(id: string, name: string, username: string, isAdmin: bool)

  /** `!!loan.assignedAgentId`: an agent id is set and is not the empty string. */
  predicate IsAssigned(l: Loan) {
    l.assignedAgentId.Some? && l.assignedAgentId.value != ""
  }

  /** `loan.assignedAgentId === agentId`. */
  predicate AssignedTo(l: Loan, agentId: string) {
    l.assignedAgentId == Some(agentId)
  }

  /** The loans whose elements satisfy `p`, in their order (`Array.prototype.filter`). */
  function Filter<T>(xs: seq<T>, p: T -> bool): (r: seq<T>)
    ensures |r| <= |xs|
    ensures forall x :: x in r ==> x in xs && p(x)
    ensures forall x :: x in xs && p(x) ==> x in r
  {
    if xs == [] then []
    else (if p(xs[0]) then [xs[0]] else []) + Filter(xs[1..], p)
  }

  /** Filtering a list is filtering its first element and then the rest. */
  lemma FilterCons<T>(x: T, xs: seq<T>, p: T -> bool)
    ensures Filter([x] + xs, p) == (if p(x) then [x] else []) + Filter(xs, p)
  {
    assert ([x] + xs)[1..] == xs;
  }

  /** Filtering keeps exactly the elements that pass, with their multiplicities. */
  lemma {:induction false} FilterMultiset<T>(xs: seq<T>, p: T -> bool, q: T -> bool)
    requires forall x :: q(x) <==> !p(x)
    ensures multiset(Filter(xs, p)) + multiset(Filter(xs, q)) == multiset(xs)
  {
    if xs != [] {
      var h, t := xs[0], xs[1..];
      FilterMultiset(t, p, q);
      assert xs == [h] + t;
      assert multiset(xs) == multiset{h} + multiset(t);
      FilterCons(h, t, p);
      FilterCons(h, t, q);
    }
  }

  lemma {:induction false} FilterAppend<T>(xs: seq<T>, ys: seq<T>, p: T -> bool)
    ensures Filter(xs + ys, p) == Filter(xs, p) + Filter(ys, p)
  {
    if xs != [] {
      var x, t := xs[0], xs[1..];
      var h := if p(x) then [x] else [];
      assert xs == [x] + t;
      assert xs + ys == [x] + (t + ys);
      FilterCons(x, t + ys, p);
      FilterCons(x, t, p);
      FilterAppend(t, ys, p);
      var a, b := Filter(t, p), Filter(ys, p);
      calc {
        Filter(xs + ys, p);
        h + Filter(t + ys, p);
        h + (a + b);
        { assert h + (a + b) == (h + a) + b; }
        (h + a) + b;
        Filter(xs, p) + b;
      }
    } else {
      assert xs + ys == ys;
    }
  }

  /** Filtering with a predicate every element passes changes nothing. */
  lemma {:induction false} FilterAll<T>(xs: seq<T>, p: T -> bool)
    requires forall i :: 0 <= i < |xs| ==> p(xs[i])
    ensures Filter(xs, p) == xs
  {
    if xs != [] {
      FilterAll(xs[1..], p);
    }
  }

  /** Filtering with a predicate no element passes leaves nothing. */
  lemma {:induction false} FilterNone<T>(xs: seq<T>, p: T -> bool)
    requires forall i :: 0 <= i < |xs| ==> !p(xs[i])
    ensures Filter(xs, p) == []
  {
    if xs != [] {
      FilterNone(xs[1..], p);
    }
  }

  /** Two complementary filters share the elements out between them. */
  lemma {:induction false} FilterSplitCount<T>(xs: seq<T>, p: T -> bool, q: T -> bool)
    requires forall x :: q(x) <==> !p(x)
    ensures |Filter(xs, p)| + |Filter(xs, q)| == |xs|
  {
    if xs != [] {
      FilterSplitCount(xs[1..], p, q);
    }
  }

  /** The sum of the amounts of a payment history. */
  function PaymentsTotal(ps: seq<Payment>): real {
    if ps == [] then 0.0 else PaymentsTotal(ps[..|ps| - 1]) + ps[|ps| - 1].amount
  }
}
