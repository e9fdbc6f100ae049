/** What the arbiter promises over runs: the lock is atomic and the round robin is fair. */
module AtArbitration {
  import opened AtProtocol
  import opened AtSafety
  import opened AtRuns

  // ---------------------------------------------------------------------------------------
  // The lock

  // Between a locked grant to a master and that master's next unlocked grant, nobody else is
  // granted: grants i to j go to one master if all of them but the last carry the lock.
  lemma {:induction false} LockStays(log: seq<Event>, i: nat, j: nat)
    requires LockRespected(log) && i <= j < |Grants(log)|
    requires forall k :: i <= k < j ==> Grants(log)[k].locked
    ensures Grants(log)[j].grantee == Grants(log)[i].grantee
    decreases j
  {
    if i < j {
      LockStays(log, i, j - 1);
    }
  }

  // In every run, in both arbitration modes.
  lemma LockAtomic(c: Config, run: seq<State>, acts: seq<Action>, n: nat, i: nat, j: nat)
    requires ValidConfig(c) && IsRun(c, run, acts) && n < |run|
    requires i <= j < |Grants(run[n].log)|
    requires forall k :: i <= k < j ==> Grants(run[n].log)[k].locked
    ensures Grants(run[n].log)[j].grantee == Grants(run[n].log)[i].grantee
  {
    RunsSafe(c, run, acts, n);
    LockStays(run[n].log, i, j);
  }

  // ---------------------------------------------------------------------------------------
  // Priority

  // Without a lock the highest pending master wins.
  lemma PriorityWinner(c: Config, s: State, early: bool)
    requires Placed(c, s) && GuardOpen(s) && !c.roundRobin && !s.isLock
    requires exists m :: Pending(s.requestMap, m)
    ensures var n := AfterArbitrate(c, s, early);
      && Pending(s.requestMap, n.owner)
      && (forall m :: Pending(s.requestMap, m) ==> m <= n.owner)
      && !Pending(n.requestMap, n.owner)
  {
    PriorityPickIsHighest(s.requestMap, MASTERS);
    PickIsPending(c, s);
  }

  // Without a lock the round robin picks the pending master that comes next after `robin`.
  lemma RobinWinner(c: Config, s: State, early: bool)
    requires Placed(c, s) && GuardOpen(s) && c.roundRobin && !s.isLock
    requires exists m :: Pending(s.requestMap, m)
    ensures var n := AfterArbitrate(c, s, early);
      && Pending(s.requestMap, n.owner) && n.owner < c.masters && s.robin < c.masters
      && (forall m :: Pending(s.requestMap, m) && m < c.masters ==>
            Distance(c.masters, s.robin, n.owner) <= Distance(c.masters, s.robin, m))
      && n.robin == n.owner && !Pending(n.requestMap, n.owner)
  {
    PickIsPending(c, s);
    RobinPickIsNearest(s.requestMap, c.masters, s.robin, c.masters);
  }

  // ---------------------------------------------------------------------------------------
  // Round robin

  // The action grants, without a lock, a master other than m.
  ghost predicate Bypasses(c: Config, s: State, a: Action, m: nat)
    requires c.masters <= |s.requestMap| == MASTERS
  {
    a.Arbitrate? && GuardOpen(s) && !s.isLock && Pick(c, s) >= 0 && Pick(c, s) != m
  }

  ghost function CountBypasses(c: Config, run: seq<State>, acts: seq<Action>, m: nat, i: nat, j: nat): nat
    requires i <= j <= |acts| && |run| == |acts| + 1
    decreases j
  {
    if i == j then 0
    else
      CountBypasses(c, run, acts, m, i, j - 1)
      + BypassAt(c, run, acts, m, j - 1)
  }

  // A grant to another master brings a pending one nearer; nothing takes it farther away.
  lemma StepNears(c: Config, s: State, a: Action, m: nat)
    requires Placed(c, s) && Enabled(c, s, a) && c.roundRobin && m < c.masters
    requires Pending(s.requestMap, m) && Pending(Next(c, s, a).requestMap, m)
    ensures var r := Next(c, s, a).robin; r == 0 || r < c.masters
    ensures Distance(c.masters, Next(c, s, a).robin, m) + B(Bypasses(c, s, a, m)) <= Distance(c.masters, s.robin, m)
  {
    if a.Arbitrate? && GuardOpen(s) && Pick(c, s) >= 0 {
      PickIsPending(c, s);
      assert Recorded(c, s, Pick(c, s));
      if !s.isLock {
        RobinPickIsNearest(s.requestMap, c.masters, s.robin, c.masters);
      }
    }
  }

  // The distance of m in state i of a run.
  ghost function DistanceAt(c: Config, run: seq<State>, m: nat, i: nat): nat
    requires i < |run| && m < c.masters
  {
    var robin := run[i].robin;
    if robin == 0 || robin < c.masters then Distance(c.masters, robin, m) else 0
  }

  ghost function BypassAt(c: Config, run: seq<State>, acts: seq<Action>, m: nat, i: nat): nat
    requires i < |acts| < |run|
  {
    B(c.masters <= |run[i].requestMap| == MASTERS && Bypasses(c, run[i], acts[i], m))
  }

  lemma RunNears(c: Config, run: seq<State>, acts: seq<Action>, m: nat, i: nat)
    requires ValidConfig(c) && c.roundRobin && m < c.masters
    requires IsRun(c, run, acts) && i < |acts|
    requires Pending(run[i].requestMap, m) && Pending(run[i + 1].requestMap, m)
    ensures DistanceAt(c, run, m, i + 1) + BypassAt(c, run, acts, m, i) <= DistanceAt(c, run, m, i)
  {
    RunsPlaced(c, run, acts, i);
    StepOfRun(c, run, acts, i + 1);
    StepNears(c, run[i], acts[i], m);
  }

  ghost predicate Nears(c: Config, run: seq<State>, acts: seq<Action>, m: nat, k: nat)
    requires k < |acts| < |run| && m < c.masters
  {
    DistanceAt(c, run, m, k + 1) + BypassAt(c, run, acts, m, k) <= DistanceAt(c, run, m, k)
  }

  lemma {:induction false} NearsAdd(c: Config, run: seq<State>, acts: seq<Action>, m: nat, i: nat, j: nat)
    requires m < c.masters && i <= j <= |acts| && |run| == |acts| + 1
    requires forall k :: i <= k < j ==> Nears(c, run, acts, m, k)
    ensures CountBypasses(c, run, acts, m, i, j) + DistanceAt(c, run, m, j) <= DistanceAt(c, run, m, i)
    decreases j
  {
    if i < j {
      NearsAdd(c, run, acts, m, i, j - 1);
      assert Nears(c, run, acts, m, j - 1);
    }
  }

  lemma BypassesNear(c: Config, run: seq<State>, acts: seq<Action>, m: nat, i: nat, j: nat)
    requires ValidConfig(c) && c.roundRobin && m < c.masters
    requires IsRun(c, run, acts) && i <= j < |run|
    requires forall k :: i <= k <= j ==> Pending(run[k].requestMap, m)
    ensures CountBypasses(c, run, acts, m, i, j) + DistanceAt(c, run, m, j) <= DistanceAt(c, run, m, i)
  {
    forall k: nat | i <= k < j ensures Nears(c, run, acts, m, k) { RunNears(c, run, acts, m, k); }
    NearsAdd(c, run, acts, m, i, j);
  }

  // While a master's request stays pending, at most masters - 1 unlocked grants go to others.
  lemma BoundedBypass(c: Config, run: seq<State>, acts: seq<Action>, m: nat, i: nat, j: nat)
    requires ValidConfig(c) && c.roundRobin && m < c.masters
    requires IsRun(c, run, acts) && i <= j < |run|
    requires forall k :: i <= k <= j ==> Pending(run[k].requestMap, m)
    ensures CountBypasses(c, run, acts, m, i, j) <= c.masters - 1
  {
    BypassesNear(c, run, acts, m, i, j);
  }
}
