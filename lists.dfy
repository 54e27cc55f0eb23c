/**
 * The whole-list views and updates of the dashboards: the search box over
 * the loan table, an agent's own loans, deleting an agent or a loan, editing
 * a remark, logging a communication, and the per-agent performance figures.
 */
module LoanLists {
  import opened Wrappers
  import opened Text
  import opened Calendar
  import opened Types
  import opened Distribution

  /** `field && field.toLowerCase().includes(term)` for an optional text field. */
  predicate FieldMatches(field: Option<string>, lowerTerm: string) {
    field.Some? && field.value != "" && Contains(Lower(field.value), lowerTerm)
  }

  /** A loan matches when its client, account number or phone number contains the term. */
  predicate MatchesSearch(l: Loan, lowerTerm: string) {
    FieldMatches(l.client, lowerTerm)
    || (l.accountNumber != "" && Contains(Lower(l.accountNumber), lowerTerm))
    || FieldMatches(l.phoneNumber, lowerTerm)
  }

  /**
   * The search box: a term that is blank after trimming shows every loan;
   * otherwise the loans matching the lower-cased (untrimmed) term, in order.
   */
  function Search(loans: seq<Loan>, term: string): (r: seq<Loan>)
    ensures |r| <= |loans|
    ensures AllWhitespace(term) ==> r == loans
    ensures !AllWhitespace(term) ==>
              forall l :: l in r <==> l in loans && MatchesSearch(l, Lower(term))
  {
    TrimBlank(term);
    if Trim(term) == [] then loans
    else Filter(loans, l => MatchesSearch(l, Lower(term)))
  }

  /** Searching again with the same term finds the same loans. */
  lemma SearchIdempotent(loans: seq<Loan>, term: string)
    ensures Search(Search(loans, term), term) == Search(loans, term)
  {
    TrimBlank(term);
    if Trim(term) != [] {
      var r := Search(loans, term);
      FilterAll(r, l => MatchesSearch(l, Lower(term)));
    }
  }

  /** The search does not depend on the case of the term. */
  lemma SearchIgnoresCase(loans: seq<Loan>, term: string)
    ensures Search(loans, Lower(term)) == Search(loans, term)
  {
    TrimBlank(term);
    TrimBlank(Lower(term));
    LowerKeepsBlank(term);
    LowerIdempotent(term);
  }

  /** An agent's dashboard: the loans assigned to that agent, narrowed by the search term. */
  function AgentLoans(loans: seq<Loan>, agentId: string, term: string): (r: seq<Loan>)
    ensures |r| <= |loans|
    ensures forall l :: l in r ==> l in loans && AssignedTo(l, agentId)
    ensures AllWhitespace(term) ==>
              forall l :: l in loans && AssignedTo(l, agentId) ==> l in r
    ensures !AllWhitespace(term) ==>
              forall l :: l in r <==> l in loans && AssignedTo(l, agentId) && MatchesSearch(l, Lower(term))
  {
    Search(Filter(loans, l => AssignedTo(l, agentId)), term)
  }

  /** Deleting an agent from the agent list. */
  function RemoveAgent(agents: seq<Agent>, agentId: string): (r: seq<Agent>)
    ensures forall a :: a in r <==> a in agents && a.id != agentId
  {
    Filter(agents, (a: Agent) => a.id != agentId)
  }

  /** The cascade of deleting an agent: that agent's loans become unassigned. */
  function UnassignAgent(loans: seq<Loan>, agentId: string): (r: seq<Loan>)
    ensures |r| == |loans|
    ensures forall i :: 0 <= i < |r| ==> !AssignedTo(r[i], agentId)
    ensures forall i :: 0 <= i < |r| ==> r[i].(assignedAgentId := loans[i].assignedAgentId) == loans[i]
    ensures forall i :: 0 <= i < |r| && !AssignedTo(loans[i], agentId) ==> r[i] == loans[i]
  {
    seq(|loans|, i requires 0 <= i < |loans| =>
      if AssignedTo(loans[i], agentId) then loans[i].(assignedAgentId := None) else loans[i])
  }

  /** After the cascade no loan is left with an agent that is no longer on the list. */
  lemma DeleteAgentLeavesNoOrphans(agents: seq<Agent>, loans: seq<Loan>, agentId: string)
    requires forall i :: 0 <= i < |loans| && loans[i].assignedAgentId.Some? ==>
               exists a :: a in agents && a.id == loans[i].assignedAgentId.value
    ensures var r := UnassignAgent(loans, agentId);
            forall i :: 0 <= i < |r| && r[i].assignedAgentId.Some? ==>
              exists a :: a in RemoveAgent(agents, agentId) && a.id == r[i].assignedAgentId.value
  {
    var r := UnassignAgent(loans, agentId);
    forall i | 0 <= i < |r| && r[i].assignedAgentId.Some?
      ensures exists a :: a in RemoveAgent(agents, agentId) && a.id == r[i].assignedAgentId.value
    {
      var a :| a in agents && a.id == loans[i].assignedAgentId.value;
      assert a in RemoveAgent(agents, agentId);
    }
  }

  /** Deleting a loan: every loan with that id goes, every other stays. */
  function RemoveLoan(loans: seq<Loan>, loanId: string): (r: seq<Loan>)
    ensures forall l :: l in r <==> l in loans && l.id != loanId
  {
    Filter(loans, (l: Loan) => l.id != loanId)
  }

  /** Deleting a loan loses nothing but the loans carrying its id. */
  lemma RemoveLoanKeepsOthers(loans: seq<Loan>, loanId: string)
    ensures multiset(RemoveLoan(loans, loanId)) + multiset(Filter(loans, (l: Loan) => l.id == loanId))
            == multiset(loans)
  {
    FilterMultiset(loans, (l: Loan) => l.id != loanId, (l: Loan) => l.id == loanId);
  }

  /** Editing a remark: only the `remark` of the loans with that id changes. */
  function UpdateRemark(loans: seq<Loan>, loanId: string, remark: string): (r: seq<Loan>)
    ensures |r| == |loans|
    ensures forall i :: 0 <= i < |r| ==> r[i].(remark := loans[i].remark) == loans[i]
    ensures forall i :: 0 <= i < |r| ==> r[i].remark == if loans[i].id == loanId then Some(remark) else loans[i].remark
  {
    seq(|loans|, i requires 0 <= i < |loans| =>
      if loans[i].id == loanId then loans[i].(remark := Some(remark)) else loans[i])
  }

  /** The name recorded with a log entry: the first agent with that id, if its name is not blank. */
  function LogAgentName(agents: seq<Agent>, agentId: string): (r: string)
    ensures r == "Unknown Agent" || exists a :: a in agents && a.id == agentId && a.name == r
    ensures (forall a :: a in agents ==> a.id != agentId) ==> r == "Unknown Agent"
  {
    if agents == [] then "Unknown Agent"
    else if agents[0].id == agentId then
      (if agents[0].name != "" then agents[0].name else "Unknown Agent")
    else LogAgentName(agents[1..], agentId)
  }

  /**
   * The name found is the one of the first agent carrying the id, or
   * 'Unknown Agent' when that agent's name is blank, whatever later agents
   * with the same id are called.
   */
  lemma {:induction false} LogAgentNameIsFirst(agents: seq<Agent>, agentId: string, k: nat)
    requires k < |agents| && agents[k].id == agentId
    requires forall j :: 0 <= j < k ==> agents[j].id != agentId
    ensures LogAgentName(agents, agentId) == if agents[k].name != "" then agents[k].name else "Unknown Agent"
  {
    if k > 0 {
      LogAgentNameIsFirst(agents[1..], agentId, k - 1);
    }
  }

  /**
   * Logging a communication: a new entry dated today, with the name of the
   * agent, goes in front of the history of each loan with that id.
   */
  function AddCommunication(loans: seq<Loan>, agents: seq<Agent>, loanId: string, entryId: string,
                            today: int, kind: CommType, notes: string, agentId: string): (r: seq<Loan>)
    ensures |r| == |loans|
    ensures forall i :: 0 <= i < |r| ==>
              r[i].(communicationHistory := loans[i].communicationHistory) == loans[i]
    ensures forall i :: 0 <= i < |r| && loans[i].id != loanId ==> r[i] == loans[i]
    ensures forall i :: 0 <= i < |r| && loans[i].id == loanId ==>
              |r[i].communicationHistory| == |loans[i].communicationHistory| + 1
              && r[i].communicationHistory[1..] == loans[i].communicationHistory
              && r[i].communicationHistory[0].id == entryId
              && r[i].communicationHistory[0].agentId == agentId
              && r[i].communicationHistory[0].kind == kind
              && r[i].communicationHistory[0].notes == notes
              && r[i].communicationHistory[0].agentName == Some(LogAgentName(agents, agentId))
              && Valid(r[i].communicationHistory[0].date)
              && DaysFromCivil(r[i].communicationHistory[0].date) == today
  {
    var entry := CommEntry(entryId, CivilFromDays(today), kind, notes, agentId, Some(LogAgentName(agents, agentId)));
    seq(|loans|, i requires 0 <= i < |loans| =>
      if loans[i].id == loanId then loans[i].(communicationHistory := [entry] + loans[i].communicationHistory)
      else loans[i])
  }

  /** Loans that are fully paid. */
  predicate IsPaidOff(l: Loan) {
    l.status == PaidOff
  }

  /** Loans still outstanding. */
  predicate IsOutstanding(l: Loan) {
    l.status == Outstanding
  }

  function SumOriginal(ls: seq<Loan>): real {
    if ls == [] then 0.0 else SumOriginal(ls[..|ls| - 1]) + ls[|ls| - 1].originalAmount
  }

  function SumOutstanding(ls: seq<Loan>): real {
    if ls == [] then 0.0 else SumOutstanding(ls[..|ls| - 1]) + ls[|ls| - 1].outstandingBalance
  }

  function SumCollected(ls: seq<Loan>): real {
    if ls == [] then 0.0 else SumCollected(ls[..|ls| - 1]) + PaymentsTotal(ls[|ls| - 1].paymentHistory)
  }

  function PaymentCount(ls: seq<Loan>): nat {
    if ls == [] then 0 else PaymentCount(ls[..|ls| - 1]) + |ls[|ls| - 1].paymentHistory|
  }

  /** One row of the agent performance table. */
  datatype AgentStats = AgentStats(
    id: string,
    name: string,
    assignedLoansCount: nat,
    totalOriginalAssignedAmount: real,
    paymentsCollectedCount: nat,
    totalAmountCollected: real,
    paidOffLoansCount: nat,
    outstandingLoansCount: nat,
    totalOutstandingAmount: real)

  /** The figures of one agent over the loans assigned to that agent. */
  function Stats(agent: Agent, loans: seq<Loan>): (s: AgentStats)
    ensures s.id == agent.id && s.name == agent.name
    ensures s.assignedLoansCount <= |loans|
    ensures s.paidOffLoansCount + s.outstandingLoansCount == s.assignedLoansCount
    ensures var mine := Filter(loans, l => AssignedTo(l, agent.id));
      s.assignedLoansCount == |mine|
      && s.paidOffLoansCount == |Filter(mine, IsPaidOff)|
      && s.outstandingLoansCount == |Filter(mine, IsOutstanding)|
      && s.totalOriginalAssignedAmount == SumOriginal(mine)
      && s.totalAmountCollected == SumCollected(mine)
      && s.totalOutstandingAmount == SumOutstanding(mine)
      && s.paymentsCollectedCount == PaymentCount(mine)
  {
    var mine := Filter(loans, l => AssignedTo(l, agent.id));
    FilterSplitCount(mine, IsPaidOff, IsOutstanding);
    AgentStats(agent.id, agent.name, |mine|, SumOriginal(mine), PaymentCount(mine), SumCollected(mine),
               |Filter(mine, IsPaidOff)|, |Filter(mine, IsOutstanding)|, SumOutstanding(mine))
  }

  /** `agentPerformance`: one row per collection agent, in roster order. */
  function AgentPerformance(agents: seq<Agent>, loans: seq<Loan>): (r: seq<AgentStats>)
    ensures |r| == |Roster(agents)|
    ensures forall i :: 0 <= i < |r| ==> r[i] == Stats(Roster(agents)[i], loans)
  {
    var roster := Roster(agents);
    seq(|roster|, i requires 0 <= i < |roster| => Stats(roster[i], loans))
  }

  /**
   * Corollary of `Stats`, `AgentPerformance` and `Roster`, gathered for row i:
   * it is the i-th collection agent's, and counts each of that agent's loans
   * exactly once as paid off or as outstanding.
   */
  lemma PerformanceCountsAdd(agents: seq<Agent>, loans: seq<Loan>, i: nat)
    requires i < |Roster(agents)|
    ensures var s := AgentPerformance(agents, loans)[i];
            var a := Roster(agents)[i];
            s.paidOffLoansCount + s.outstandingLoansCount == s.assignedLoansCount
            && s.id == a.id && !a.isAdmin
            && s.assignedLoansCount == |Filter(loans, l => AssignedTo(l, a.id))|
  {
  }
}
