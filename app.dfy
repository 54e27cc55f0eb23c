/**
 * The application state behind the two dashboards: the agents, the loans,
 * the logged-in user, the login error, and the loans of an upload waiting
 * for the admin to confirm or cancel their distribution. One method per
 * handler; fresh ids and today's day number come in as parameters.
 */
module App {
  import opened Wrappers
  import opened Text
  import opened Calendar
  import opened JsValues
  import opened Types
  import opened LoanImport
  import opened Distribution
  import opened LoanLists
  import opened LoanPayments

  /** What a storage slot held when the application started. */
  datatype Stored<T> = Absent | Corrupt | Present(value: T)

  /** A stored loan, and whether its communication history was stored as an array. */
  datatype StoredLoan = StoredLoan(loan: Loan, historyIsArray: bool)

  /** The loaded loans, each with a history that is not an array replaced by the empty one. */
  function NormaliseLoaded(stored: seq<StoredLoan>): (r: seq<Loan>)
    ensures |r| == |stored|
    ensures forall i :: 0 <= i < |r| ==>
              r[i].(communicationHistory := stored[i].loan.communicationHistory) == stored[i].loan
    ensures forall i :: 0 <= i < |r| ==>
              r[i].communicationHistory == if stored[i].historyIsArray then stored[i].loan.communicationHistory else []
  {
    seq(|stored|, i requires 0 <= i < |stored| =>
      if stored[i].historyIsArray then stored[i].loan else stored[i].loan.(communicationHistory := []))
  }

  /** Normalising keeps the dates of the stored loans. */
  lemma NormaliseKeepsDates(stored: seq<StoredLoan>)
    requires forall i :: 0 <= i < |stored| ==> DatesValid(stored[i].loan)
    ensures AllDatesValid(NormaliseLoaded(stored))
  {
    var r := NormaliseLoaded(stored);
    forall l | l in r ensures DatesValid(l) {
      var i :| 0 <= i < |r| && r[i] == l;
      assert DatesValid(stored[i].loan);
    }
  }

  /** The loans to start with: the stored ones, or the seed loans when nothing usable is stored. */
  function LoadLoans(stored: Stored<seq<StoredLoan>>, seed: seq<Loan>): (r: seq<Loan>)
    ensures stored.Absent? ==> r == seed
    ensures stored.Present? ==> r == NormaliseLoaded(stored.value)
    ensures stored.Corrupt? ==>
              |r| == |seed| && forall i :: 0 <= i < |r| ==> r[i] == seed[i].(communicationHistory := [])
  {
    match stored
    case Absent => seed
    case Present(ls) => NormaliseLoaded(ls)
    case Corrupt => seq(|seed|, i requires 0 <= i < |seed| => seed[i].(communicationHistory := []))
  }

  /** The agents to start with: the stored list, or the seed agents. */
  function LoadAgents(stored: Stored<seq<Agent>>, seed: seq<Agent>): (r: seq<Agent>)
    ensures r == if stored.Present? then stored.value else seed
  {
    if stored.Present? then stored.value else seed
  }

  /** The stored user is restored only while some agent has both its id and its username. */
  function RestoreUser(agents: seq<Agent>, stored: Stored<Agent>): (r: Option<Agent>)
    ensures r.Some? <==>
              stored.Present? && exists a :: a in agents && a.id == stored.value.id && a.username == stored.value.username
    ensures r.Some? ==> r.value == stored.value
  {
    if stored.Present? && exists a :: a in agents && a.id == stored.value.id && a.username == stored.value.username
    then Some(stored.value)
    else None
  }

  /** The first agent whose username equals `username` ignoring (ASCII) case. */
  function FindByUsername(agents: seq<Agent>, username: string): (r: Option<Agent>)
    ensures r.None? <==> forall a :: a in agents ==> Lower(a.username) != Lower(username)
    ensures r.Some? ==> r.value in agents && Lower(r.value.username) == Lower(username)
  {
    if agents == [] then None
    else if Lower(agents[0].username) == Lower(username) then Some(agents[0])
    else FindByUsername(agents[1..], username)
  }

  /** The agent found is the first match in list order. */
  lemma {:induction false} FindByUsernameIsFirst(agents: seq<Agent>, username: string, k: nat)
    requires k < |agents| && Lower(agents[k].username) == Lower(username)
    requires forall j :: 0 <= j < k ==> Lower(agents[j].username) != Lower(username)
    ensures FindByUsername(agents, username) == Some(agents[k])
  {
    if k > 0 {
      FindByUsernameIsFirst(agents[1..], username, k - 1);
    }
  }

  /** Typing the username in another case logs in the same agent. */
  lemma {:induction false} LoginIgnoresCase(agents: seq<Agent>, username: string)
    ensures FindByUsername(agents, Lower(username)) == FindByUsername(agents, username)
  {
    LowerIdempotent(username);
    if agents != [] {
      LoginIgnoresCase(agents[1..], username);
    }
  }

  /** Every transformation of the loan list keeps the dates valid. */
  lemma UnassignKeepsDates(loans: seq<Loan>, agentId: string)
    requires AllDatesValid(loans)
    ensures AllDatesValid(UnassignAgent(loans, agentId))
  {
    var r := UnassignAgent(loans, agentId);
    forall l | l in r ensures DatesValid(l) {
      var i :| 0 <= i < |r| && r[i] == l;
      assert loans[i] in loans;
    }
  }

  lemma RemarkKeepsDates(loans: seq<Loan>, loanId: string, remark: string)
    requires AllDatesValid(loans)
    ensures AllDatesValid(UpdateRemark(loans, loanId, remark))
  {
    var r := UpdateRemark(loans, loanId, remark);
    forall l | l in r ensures DatesValid(l) {
      var i :| 0 <= i < |r| && r[i] == l;
      assert loans[i] in loans;
    }
  }

  lemma CommunicationKeepsDates(loans: seq<Loan>, agents: seq<Agent>, loanId: string, entryId: string,
                                today: int, kind: CommType, notes: string, agentId: string)
    requires AllDatesValid(loans)
    ensures AllDatesValid(AddCommunication(loans, agents, loanId, entryId, today, kind, notes, agentId))
  {
    var r := AddCommunication(loans, agents, loanId, entryId, today, kind, notes, agentId);
    forall l | l in r ensures DatesValid(l) {
      var i :| 0 <= i < |r| && r[i] == l;
      assert loans[i] in loans;
    }
  }

  lemma DistributionKeepsDates(newLoans: seq<Loan>, existing: seq<Loan>, agents: seq<Agent>)
    requires AllDatesValid(newLoans) && AllDatesValid(existing)
    ensures AllDatesValid(Distributed(newLoans, existing, agents))
  {
    var roster := Roster(agents);
    if |roster| > 0 {
      var pool := Pool(existing, newLoans);
      assert AllDatesValid(pool);
      var kept := Kept(existing, pool);
      assert forall l :: l in kept ==> l in Filter(existing, Settled);
      var dealt := Deal(pool, roster);
      forall l | l in dealt ensures DatesValid(l) {
        var i :| 0 <= i < |dealt| && dealt[i] == l;
        assert pool[i] in pool;
      }
    }
  }

  /** The error the login screen shows. */
  datatype LoginError = NoLoginError | InvalidUsername

  /** What an upload came to. */
  datatype UploadOutcome = NoCollectionAgents | NoDataRows | NoValidLoans | AwaitingConfirmation

  class LoanApp {
    var agents: seq<Agent>
    var loans: seq<Loan>
    var loggedInUser: Option<Agent>
    var loginError: LoginError
    /** `newlyUploadedLoans`: an upload waiting for the distribution prompt. */
    var pendingLoans: seq<Loan>
    /** Whether the distribution prompt is open. */
    var confirmingDistribution: bool

    /** Every loan date is a calendar day, and the prompt is open exactly while an upload waits. */
    predicate Valid()
      reads this
    {
      AllDatesValid(loans) && AllDatesValid(pendingLoans)
      && (confirmingDistribution <==> pendingLoans != [])
    }

    /** Start-up: restore agents, loans and the session from storage, falling back to the seed data. */
    constructor (storedAgents: Stored<seq<Agent>>, storedLoans: Stored<seq<StoredLoan>>, storedUser: Stored<Agent>,
                 seedAgents: seq<Agent>, seedLoans: seq<Loan>)
      requires AllDatesValid(seedLoans)
      requires storedLoans.Present? ==> forall i :: 0 <= i < |storedLoans.value| ==> DatesValid(storedLoans.value[i].loan)
      ensures Valid()
      ensures agents == LoadAgents(storedAgents, seedAgents)
      ensures loans == LoadLoans(storedLoans, seedLoans)
      ensures loggedInUser == RestoreUser(agents, storedUser)
      ensures loginError == NoLoginError && pendingLoans == []
    {
      agents := LoadAgents(storedAgents, seedAgents);
      loans := LoadLoans(storedLoans, seedLoans);
      var restoredAgents := LoadAgents(storedAgents, seedAgents);
      loggedInUser := RestoreUser(restoredAgents, storedUser);
      loginError := NoLoginError;
      pendingLoans := [];
      confirmingDistribution := false;
      if storedLoans.Present? {
        NormaliseKeepsDates(storedLoans.value);
      } else if storedLoans.Corrupt? {
        var r := LoadLoans(storedLoans, seedLoans);
        forall l | l in r ensures DatesValid(l) {
          var i :| 0 <= i < |r| && r[i] == l;
          assert seedLoans[i] in seedLoans;
        }
      }
    }

    /** `handleLogin`: log in the first agent with that username, ignoring case, or show the error. */
    method Login(username: string)
      requires Valid()
      modifies this
      ensures Valid()
      ensures agents == old(agents) && loans == old(loans)
      ensures pendingLoans == old(pendingLoans) && confirmingDistribution == old(confirmingDistribution)
      ensures var found := FindByUsername(old(agents), username);
              if found.Some? then loggedInUser == found && loginError == NoLoginError
              else loggedInUser == old(loggedInUser) && loginError == InvalidUsername
    {
      var found := FindByUsername(agents, username);
      if found.Some? {
        loggedInUser := found;
        loginError := NoLoginError;
      } else {
        loginError := InvalidUsername;
      }
    }

    /** `handleLogout`. */
    method Logout()
      requires Valid()
      modifies this
      ensures Valid()
      ensures loggedInUser == None
      ensures agents == old(agents) && loans == old(loans) && loginError == old(loginError)
      ensures pendingLoans == old(pendingLoans) && confirmingDistribution == old(confirmingDistribution)
    {
      loggedInUser := None;
    }

    /** `handleUpdateLoanRemark`. */
    method UpdateLoanRemark(loanId: string, remark: string)
      requires Valid()
      modifies this
      ensures Valid()
      ensures loans == UpdateRemark(old(loans), loanId, remark)
      ensures agents == old(agents) && loggedInUser == old(loggedInUser) && loginError == old(loginError)
      ensures pendingLoans == old(pendingLoans) && confirmingDistribution == old(confirmingDistribution)
    {
      RemarkKeepsDates(loans, loanId, remark);
      loans := UpdateRemark(loans, loanId, remark);
    }

    /** `handleAddCommunicationLog`, with the entry id and today's day number supplied. */
    method AddCommunicationLog(loanId: string, entryId: string, today: int, kind: CommType, notes: string, agentId: string)
      requires Valid()
      modifies this
      ensures Valid()
      ensures loans == AddCommunication(old(loans), old(agents), loanId, entryId, today, kind, notes, agentId)
      ensures agents == old(agents) && loggedInUser == old(loggedInUser) && loginError == old(loginError)
      ensures pendingLoans == old(pendingLoans) && confirmingDistribution == old(confirmingDistribution)
    {
      CommunicationKeepsDates(loans, agents, loanId, entryId, today, kind, notes, agentId);
      loans := AddCommunication(loans, agents, loanId, entryId, today, kind, notes, agentId);
    }

    /** `handleRecordPayment` on the agent dashboard. */
    method RecordPayment(loanId: string, amount: real, today: int)
      requires Valid()
      modifies this
      ensures Valid()
      ensures loans == RecordPaymentIn(old(loans), loanId, amount, today)
      ensures agents == old(agents) && loggedInUser == old(loggedInUser) && loginError == old(loginError)
      ensures pendingLoans == old(pendingLoans) && confirmingDistribution == old(confirmingDistribution)
    {
      loans := RecordPaymentIn(loans, loanId, amount, today);
    }

    /** `handleAddAgent`: a new collection agent at the end of the list. */
    method AddAgent(id: string, name: string, username: string)
      requires Valid()
      modifies this
      ensures Valid()
      ensures agents == old(agents) + [Agent(id, name, username, false)]
      ensures loans == old(loans) && loggedInUser == old(loggedInUser) && loginError == old(loginError)
      ensures pendingLoans == old(pendingLoans) && confirmingDistribution == old(confirmingDistribution)
    {
      agents := agents + [Agent(id, name, username, false)];
    }

    /** `handleDeleteAgent`: an empty id does nothing; otherwise the agent goes and its loans become unassigned. */
    method DeleteAgent(agentId: string)
      requires Valid()
      modifies this
      ensures Valid()
      ensures agentId == "" ==> agents == old(agents) && loans == old(loans)
      ensures agentId != "" ==>
                agents == RemoveAgent(old(agents), agentId) && loans == UnassignAgent(old(loans), agentId)
      ensures loggedInUser == old(loggedInUser) && loginError == old(loginError)
      ensures pendingLoans == old(pendingLoans) && confirmingDistribution == old(confirmingDistribution)
    {
      if agentId == "" {
        return;
      }
      UnassignKeepsDates(loans, agentId);
      agents := RemoveAgent(agents, agentId);
      loans := UnassignAgent(loans, agentId);
    }

    /** `handleDeleteLoan`: an empty id does nothing; otherwise the loans with that id go. */
    method DeleteLoan(loanId: string)
      requires Valid()
      modifies this
      ensures Valid()
      ensures loans == if loanId == "" then old(loans) else RemoveLoan(old(loans), loanId)
      ensures agents == old(agents) && loggedInUser == old(loggedInUser) && loginError == old(loginError)
      ensures pendingLoans == old(pendingLoans) && confirmingDistribution == old(confirmingDistribution)
    {
      if loanId != "" {
        loans := RemoveLoan(loans, loanId);
      }
    }

    /**
     * The upload handler on an already-read sheet: refused without collection
     * agents or without a data row; otherwise the rows are imported (`ids`
     * are the fresh ids drawn for the data rows) and, if any loan survives,
     * the loans wait for the distribution prompt.
     */
    method UploadRows(sheet: seq<seq<CellValue>>, ids: seq<string>, host: Host, today: int) returns (outcome: UploadOutcome)
      requires Valid()
      requires |sheet| < 2 || |ids| == |sheet| - 1
      modifies this
      ensures Valid()
      ensures agents == old(agents) && loans == old(loans)
      ensures loggedInUser == old(loggedInUser) && loginError == old(loginError)
      ensures outcome == NoCollectionAgents <==> Roster(old(agents)) == []
      ensures outcome == NoDataRows <==> Roster(old(agents)) != [] && |sheet| < 2
      ensures outcome == NoValidLoans <==>
                Roster(old(agents)) != [] && |sheet| >= 2
                && ParseLoans(HeaderKeys(sheet[0], host), sheet[1..], ids, host, today) == []
      ensures outcome == AwaitingConfirmation ==>
                pendingLoans == ParseLoans(HeaderKeys(sheet[0], host), sheet[1..], ids, host, today)
                && pendingLoans != [] && confirmingDistribution
      ensures outcome != AwaitingConfirmation ==>
                pendingLoans == old(pendingLoans) && confirmingDistribution == old(confirmingDistribution)
    {
      if Roster(agents) == [] {
        return NoCollectionAgents;
      }
      if |sheet| < 2 {
        return NoDataRows;
      }
      var parsed := ParseLoans(HeaderKeys(sheet[0], host), sheet[1..], ids, host, today);
      if parsed == [] {
        return NoValidLoans;
      }
      FreshDatesValid(parsed);
      pendingLoans := parsed;
      confirmingDistribution := true;
      outcome := AwaitingConfirmation;
    }

    /** `handleConfirmDistribution`: the waiting loans and the unassigned ones are dealt out. */
    method ConfirmDistribution()
      requires Valid()
      modifies this
      ensures Valid()
      ensures loans == Distributed(old(pendingLoans), old(loans), old(agents))
      ensures pendingLoans == [] && !confirmingDistribution
      ensures agents == old(agents) && loggedInUser == old(loggedInUser) && loginError == old(loginError)
    {
      DistributionKeepsDates(pendingLoans, loans, agents);
      loans := DistributeLoans(pendingLoans, loans, agents);
      pendingLoans := [];
      confirmingDistribution := false;
    }

    /** `handleCancelDistribution`: the waiting loans join the list unassigned. */
    method CancelDistribution()
      requires Valid()
      modifies this
      ensures Valid()
      ensures loans == old(loans) + old(pendingLoans)
      ensures pendingLoans == [] && !confirmingDistribution
      ensures agents == old(agents) && loggedInUser == old(loggedInUser) && loginError == old(loginError)
    {
      loans := loans + pendingLoans;
      pendingLoans := [];
      confirmingDistribution := false;
    }
  }
}
