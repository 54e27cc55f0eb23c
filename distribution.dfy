/**
 * `distributeLoans`: the existing unassigned Outstanding loans and the newly
 * uploaded ones form a pool that is dealt round-robin to the collection
 * agents (the non-admin agents, in list order); the loans already assigned or
 * paid off are kept in front of the dealt pool.
 */
module Distribution {
  import opened Wrappers
  import opened Types
  import Calendar

  /** `agents.filter(agent => !agent.isAdmin)`. */
  function Roster(agents: seq<Agent>): (r: seq<Agent>)
    ensures |r| <= |agents|
    ensures forall a :: a in r <==> a in agents && !a.isAdmin
  {
    Filter(agents, (a: Agent) => !a.isAdmin)
  }

  /** Unassigned and Outstanding: the existing loans that join the pool. */
  predicate InPool(l: Loan) {
    !IsAssigned(l) && l.status == Outstanding
  }

  /** Assigned or Paid Off: the existing loans kept as they are. */
  predicate Settled(l: Loan) {
    IsAssigned(l) || l.status == PaidOff
  }

  /** With two statuses the two groups split the existing loans exactly. */
  lemma SettledIsNotInPool(l: Loan)
    ensures Settled(l) <==> !InPool(l)
  {
  }

  /** `allUnassigned`: existing pool loans in order, then the new loans in order. */
  function Pool(existing: seq<Loan>, newLoans: seq<Loan>): seq<Loan> {
    Filter(existing, InPool) + newLoans
  }

  /** The agent the `i`-th loan of the pool goes to. */
  function AgentFor(roster: seq<Agent>, i: nat): Agent
    requires |roster| > 0
  {
    roster[i % |roster|]
  }

  function Deal(pool: seq<Loan>, roster: seq<Agent>): seq<Loan>
    requires |roster| > 0
  {
    seq(|pool|, i requires 0 <= i < |pool| => pool[i].(assignedAgentId := Some(AgentFor(roster, i).id)))
  }

  /**
   * The `uniqueAlreadyAssignedOrPaid` filter: drop a kept loan that is itself
   * unassigned and shares its id with a pool loan.
   */
  predicate Shadowed(l: Loan, pool: seq<Loan>) {
    !IsAssigned(l) && exists ul :: ul in pool && ul.id == l.id
  }

  function Kept(existing: seq<Loan>, pool: seq<Loan>): seq<Loan> {
    Filter(Filter(existing, Settled), (l: Loan) => !Shadowed(l, pool))
  }

  /** What `distributeLoans(newLoans, existing)` returns. */
  function Distributed(newLoans: seq<Loan>, existing: seq<Loan>, agents: seq<Agent>): seq<Loan> {
    var roster := Roster(agents);
    if |roster| == 0 then newLoans
    else
      var pool := Pool(existing, newLoans);
      Kept(existing, pool) + Deal(pool, roster)
  }

  lemma ModStep(i: nat, n: nat)
    requires n > 0
    ensures (i % n + 1) % n == (i + 1) % n
  {
    var q := i / n;
    if i % n + 1 == n {
      Calendar.DivModUnique(i + 1, n, q + 1, 0);
    } else {
      Calendar.DivModUnique(i + 1, n, q, i % n + 1);
    }
  }

  /** `distributeLoans`: the loop advances `currentAgentIndex` modulo the roster size. */
  method DistributeLoans(newLoans: seq<Loan>, existing: seq<Loan>, agents: seq<Agent>) returns (r: seq<Loan>)
    ensures r == Distributed(newLoans, existing, agents)
  {
    var roster := Roster(agents);
    if |roster| == 0 {
      return newLoans;
    }
    var n := |roster|;
    var currentAgentIndex := 0;
    var pool := Filter(existing, InPool) + newLoans;
    var dealt: seq<Loan> := [];
    var i := 0;
    while i < |pool|
      invariant 0 <= i <= |pool| && |dealt| == i
      invariant currentAgentIndex == i % n
      invariant forall k :: 0 <= k < i ==> dealt[k] == pool[k].(assignedAgentId := Some(AgentFor(roster, k).id))
    {
      var agent := roster[currentAgentIndex];
      ModStep(i, n);
      currentAgentIndex := (currentAgentIndex + 1) % n;
      dealt := dealt + [pool[i].(assignedAgentId := Some(agent.id))];
      i := i + 1;
    }
    var kept := Filter(Filter(existing, Settled), (l: Loan) => !Shadowed(l, pool));
    assert dealt == Deal(pool, roster);
    r := kept + dealt;
  }

  // ---------------------------------------------------------------- properties

  /** Without collection agents the new loans come back alone: the existing loans are not in the result. */
  lemma NoAgentsKeepsOnlyNewLoans(newLoans: seq<Loan>, existing: seq<Loan>, agents: seq<Agent>)
    requires forall a :: a in agents ==> a.isAdmin
    ensures Distributed(newLoans, existing, agents) == newLoans
  {
    FilterNone(agents, (a: Agent) => !a.isAdmin);
  }

  /**
   * Round robin: behind the kept loans, the `k`-th pool loan appears unchanged
   * except that it is assigned to agent `k mod n` of the roster.
   */
  lemma RoundRobin(newLoans: seq<Loan>, existing: seq<Loan>, agents: seq<Agent>, k: nat)
    requires |Roster(agents)| > 0 && k < |Pool(existing, newLoans)|
    ensures var pool := Pool(existing, newLoans);
      var r := Distributed(newLoans, existing, agents);
      var roster := Roster(agents);
      var at := |Kept(existing, pool)| + k;
      at < |r| && r[at] == pool[k].(assignedAgentId := Some(roster[k % |roster|].id))
  {
  }

  /** Consecutive pool loans go to consecutive collection agents, wrapping round after the last. */
  lemma NextAgent(roster: seq<Agent>, k: nat)
    requires |roster| > 0
    ensures var j := k % |roster|;
      AgentFor(roster, k + 1) == if j + 1 == |roster| then roster[0] else roster[j + 1]
  {
    var n, j := |roster|, k % |roster|;
    ModStep(k, n);
    if j + 1 == n {
      Calendar.DivModUnique(j + 1, n, 1, 0);
    } else {
      Calendar.DivModUnique(j + 1, n, 0, j + 1);
    }
  }

  /** Ids are pairwise distinct. */
  predicate DistinctIds(ls: seq<Loan>) {
    forall i, j :: 0 <= i < j < |ls| ==> ls[i].id != ls[j].id
  }

  /** With distinct ids no kept loan is shadowed: the unique filter keeps every settled loan. */
  lemma {:induction false} UniqueFilterKeepsAll(existing: seq<Loan>, newLoans: seq<Loan>)
    requires DistinctIds(existing + newLoans)
    ensures Kept(existing, Pool(existing, newLoans)) == Filter(existing, Settled)
  {
    var pool := Pool(existing, newLoans);
    var settled := Filter(existing, Settled);
    forall k | 0 <= k < |settled| ensures !Shadowed(settled[k], pool) {
      var l := settled[k];
      assert l in settled;
      if !IsAssigned(l) {
        var a :| 0 <= a < |existing| && existing[a] == l;
        NoPoolLoanSharesId(existing, newLoans, a);
      }
    }
    FilterAll(settled, (l: Loan) => !Shadowed(l, pool));
  }

  /** A paid-off existing loan shares its id with no pool loan when ids are distinct. */
  lemma NoPoolLoanSharesId(existing: seq<Loan>, newLoans: seq<Loan>, a: nat)
    requires DistinctIds(existing + newLoans)
    requires a < |existing| && existing[a].status == PaidOff
    ensures forall ul :: ul in Pool(existing, newLoans) ==> ul.id != existing[a].id
  {
    var xs := existing + newLoans;
    forall ul | ul in Pool(existing, newLoans) ensures ul.id != existing[a].id {
      if ul in Filter(existing, InPool) {
        var b :| 0 <= b < |existing| && existing[b] == ul;
        assert xs[b] == ul && xs[a] == existing[a];
      } else {
        var b :| 0 <= b < |newLoans| && newLoans[b] == ul;
        assert xs[|existing| + b] == ul && xs[a] == existing[a];
      }
    }
  }

  /** A loan with its assignment cleared: what distribution may not change. */
  function Unassigned(l: Loan): Loan {
    l.(assignedAgentId := None)
  }

  function UnassignedAll(ls: seq<Loan>): (r: seq<Loan>)
    ensures |r| == |ls| && forall i :: 0 <= i < |ls| ==> r[i] == Unassigned(ls[i])
  {
    seq(|ls|, i requires 0 <= i < |ls| => Unassigned(ls[i]))
  }

  lemma UnassignedAppend(a: seq<Loan>, b: seq<Loan>)
    ensures UnassignedAll(a + b) == UnassignedAll(a) + UnassignedAll(b)
  {
  }

  /** Splitting by a predicate and clearing assignments keeps every loan exactly once. */
  lemma {:induction false} UnassignedSplit(xs: seq<Loan>)
    ensures multiset(UnassignedAll(Filter(xs, Settled))) + multiset(UnassignedAll(Filter(xs, InPool)))
         == multiset(UnassignedAll(xs))
  {
    if xs != [] {
      var h, t := xs[0], xs[1..];
      UnassignedSplit(t);
      assert xs == [h] + t;
      var s := if Settled(h) then [h] else [];
      var p := if InPool(h) then [h] else [];
      FilterCons(h, t, Settled);
      FilterCons(h, t, InPool);
      UnassignedAppend(s, Filter(t, Settled));
      UnassignedAppend(p, Filter(t, InPool));
      UnassignedAppend([h], t);
    }
  }

  /**
   * Distribution only assigns: with distinct ids and at least one collection
   * agent, the result holds every existing and every new loan exactly once,
   * each unchanged apart from `assignedAgentId`.
   */
  lemma OnlyAssignmentChanges(newLoans: seq<Loan>, existing: seq<Loan>, agents: seq<Agent>)
    requires |Roster(agents)| > 0
    requires DistinctIds(existing + newLoans)
    ensures multiset(UnassignedAll(Distributed(newLoans, existing, agents)))
         == multiset(UnassignedAll(existing + newLoans))
  {
    var roster := Roster(agents);
    var pool := Pool(existing, newLoans);
    UniqueFilterKeepsAll(existing, newLoans);
    var dealt := Deal(pool, roster);
    assert UnassignedAll(dealt) == UnassignedAll(pool);
    UnassignedAppend(Filter(existing, Settled), dealt);
    UnassignedAppend(Filter(existing, InPool), newLoans);
    UnassignedAppend(existing, newLoans);
    UnassignedSplit(existing);
  }

  /** Every dealt loan is assigned to a collection agent. */
  lemma DealtLoansAssigned(newLoans: seq<Loan>, existing: seq<Loan>, agents: seq<Agent>)
    requires |Roster(agents)| > 0
    ensures var r := Distributed(newLoans, existing, agents);
      var front := |Kept(existing, Pool(existing, newLoans))|;
      forall k :: front <= k < |r| ==> exists a :: a in agents && !a.isAdmin && r[k].assignedAgentId == Some(a.id)
  {
    var pool := Pool(existing, newLoans);
    var roster := Roster(agents);
    var r := Distributed(newLoans, existing, agents);
    var front := |Kept(existing, pool)|;
    forall k | front <= k < |r|
      ensures exists a :: a in agents && !a.isAdmin && r[k].assignedAgentId == Some(a.id)
    {
      var a := roster[(k - front) % |roster|];
      assert a in roster;
      assert r[k] == Deal(pool, roster)[k - front];
    }
  }

  /** With nothing to deal, distribution hands back the existing list unchanged. */
  lemma NothingToDeal(existing: seq<Loan>, agents: seq<Agent>)
    requires |Roster(agents)| > 0
    requires forall k :: 0 <= k < |existing| ==> !InPool(existing[k])
    ensures Distributed([], existing, agents) == existing
  {
    var pool := Pool(existing, []);
    FilterNone(existing, InPool);
    assert pool == [];
    FilterAll(existing, Settled);
    FilterAll(existing, (l: Loan) => !Shadowed(l, pool));
  }

  /**
   * Distributing again with no new loans changes nothing, as long as every
   * collection agent has a non-empty id (an empty id would read as unassigned).
   */
  lemma RedistributeIsNoOp(newLoans: seq<Loan>, existing: seq<Loan>, agents: seq<Agent>)
    requires |Roster(agents)| > 0
    requires forall a :: a in agents && !a.isAdmin ==> a.id != ""
    ensures var once := Distributed(newLoans, existing, agents);
      Distributed([], once, agents) == once
  {
    var once := Distributed(newLoans, existing, agents);
    var pool := Pool(existing, newLoans);
    var roster := Roster(agents);
    var kept := Kept(existing, pool);
    forall k | 0 <= k < |once| ensures !InPool(once[k]) {
      if k < |kept| {
        assert once[k] in kept;
      } else {
        var a := roster[(k - |kept|) % |roster|];
        assert a in roster;
        assert once[k].assignedAgentId == Some(a.id);
      }
    }
    NothingToDeal(once, agents);
  }
}
