/**
 Theorems about runs of the approximately-timed bus: when the arbiter can go on, which
 references are held, and what is snooped.
 */
module AtTheorems {
  import opened Bus
  import opened AtProtocol
  import opened AtSafety
  import opened AtRuns

  // ---------------------------------------------------------------------------------------
  // The arbiter is not wedged

  // Both halves of transaction t are over.
  ghost predicate Finished(s: State, t: nat) {
    t in s.endReqDone && t in s.ended
  }

  // Every granted transaction is finished.
  ghost predicate Quiescent(s: State) {
    forall t :: t in s.granted ==> Finished(s, t)
  }

  lemma QuiescentIsEmpty(c: Config, s: State)
    requires Placed(c, s) && Quiescent(s)
    ensures s.requestQ == s.responseQ == s.endResponseQ == {}
    ensures s.owesEndReq == s.owesBeginResp == s.owesEndResp == {}
  {
    forall t: nat
      ensures t !in s.requestQ && t !in s.responseQ && t !in s.endResponseQ
      ensures t !in s.owesEndReq && t !in s.owesBeginResp && t !in s.owesEndResp
    {
      if t < |s.txs| {
        PlacedAt(c, s, t);
      }
    }
  }

  // With every granted transaction finished, the arbiter is ready if and only if no END_REQ
  // came after the last transaction ended.
  lemma QuiescentReadyIff(c: Config, s: State)
    requires Inv(c, s) && Quiescent(s)
    ensures GuardOpen(s) <==> !EndReqSince(s.log)
  {
    QuiescentIsEmpty(c, s);
  }

  // ... and if it is not ready then, it never is again: no further transaction is granted.
  ghost predicate Wedged(c: Config, s: State) {
    Placed(c, s) && Quiescent(s) && s.dataBus.WaitStates?
  }

  lemma WedgedKept(c: Config, s: State, a: Action)
    requires Wedged(c, s) && Enabled(c, s, a)
    ensures Wedged(c, Next(c, s, a)) && Next(c, s, a).granted == s.granted && Next(c, s, a).log == s.log
  {
    QuiescentIsEmpty(c, s);
    PlacedKept(c, s, a);
  }

  lemma WedgedStart(c: Config, run: seq<State>, acts: seq<Action>, i: nat)
    requires ValidConfig(c) && IsRun(c, run, acts) && i < |run| && Quiescent(run[i]) && !GuardOpen(run[i])
    ensures Wedged(c, run[i])
  {
    RunsSafe(c, run, acts, i);
    QuiescentIsEmpty(c, run[i]);
  }

  lemma WedgedStep(c: Config, run: seq<State>, acts: seq<Action>, i: nat)
    requires IsRun(c, run, acts) && 0 < i < |run| && Wedged(c, run[i - 1])
    ensures Wedged(c, run[i]) && run[i].granted == run[i - 1].granted && run[i].log == run[i - 1].log
  {
    StepOfRun(c, run, acts, i);
    WedgedKept(c, run[i - 1], acts[i - 1]);
  }

  lemma {:induction false} WedgedForever(c: Config, run: seq<State>, acts: seq<Action>, i: nat, j: nat)
    requires ValidConfig(c) && IsRun(c, run, acts) && i <= j < |run|
    requires Quiescent(run[i]) && !GuardOpen(run[i])
    ensures Wedged(c, run[j]) && run[j].granted == run[i].granted && run[j].log == run[i].log
    decreases j
  {
    if i == j {
      WedgedStart(c, run, acts, i);
    } else {
      WedgedForever(c, run, acts, i, j - 1);
      WedgedStep(c, run, acts, j);
    }
  }

  // A transaction's END_REQ is handled before its END_RESP.
  ghost predicate InOrder(s: State, a: Action) {
    a.DeliverEndResp? ==> a.t in s.endReqDone
  }

  ghost predicate IsOrderedRun(c: Config, run: seq<State>, acts: seq<Action>) {
    IsRun(c, run, acts) && forall i :: 0 <= i < |acts| ==> InOrder(run[i], acts[i])
  }

  // Some transaction has had its END_REQ handled and is still to end.
  ghost predicate InDataPhase(s: State, t: nat) {
    t in s.endReqDone && t !in s.ended
  }

  ghost predicate WaitsForSomeone(s: State) {
    && (forall t :: t in s.ended ==> t in s.endReqDone)
    && (EndReqSince(s.log) ==> exists t :: InDataPhase(s, t))
  }

  lemma WaitsKept(c: Config, s: State, a: Action)
    requires Placed(c, s) && WaitsForSomeone(s) && Enabled(c, s, a) && InOrder(s, a)
    ensures WaitsForSomeone(Next(c, s, a))
  {
    var n := Next(c, s, a);
    match a
    case DeliverEndReq(t) =>
      PlacedAt(c, s, t);
      assert InDataPhase(n, t);
    case DeliverEndResp(t) =>
      var slave := s.responseMap[s.txs[t].master].slave;
      LogExtends(s.log + if slave == PNP_ID then [] else [EndResp(slave, t)], Release(t));
    case DeliverBeginResp(t, _) =>
      LogExtends(s.log, BeginResp(s.responseMap[s.txs[t].master].master, t));
      assert forall u :: InDataPhase(s, u) ==> InDataPhase(n, u);
    case Arbitrate(early) =>
      if GuardOpen(s) && Pick(c, s) >= 0 {
        PickIsPending(c, s);
        GrantLog(c, s, Pick(c, s), early);
      }
      assert forall u :: InDataPhase(s, u) ==> InDataPhase(n, u);
    case _ =>
      assert forall u :: InDataPhase(s, u) ==> InDataPhase(n, u);
  }

  lemma StepOfOrderedRun(c: Config, run: seq<State>, acts: seq<Action>, i: nat)
    requires IsOrderedRun(c, run, acts) && i < |acts|
    ensures IsStep(c, run[i], acts[i], run[i + 1]) && InOrder(run[i], acts[i])
  {
    StepOfRun(c, run, acts, i + 1);
  }

  lemma WaitsStep(c: Config, run: seq<State>, acts: seq<Action>, i: nat)
    requires ValidConfig(c) && IsOrderedRun(c, run, acts) && i < |acts| && WaitsForSomeone(run[i])
    ensures WaitsForSomeone(run[i + 1])
  {
    RunsPlaced(c, run, acts, i);
    StepOfOrderedRun(c, run, acts, i);
    WaitsKept(c, run[i], acts[i]);
  }

  lemma WaitsStart(c: Config, run: seq<State>, acts: seq<Action>)
    requires IsRun(c, run, acts)
    ensures WaitsForSomeone(run[0])
  {
  }

  lemma {:induction false} OrderedRunsFit(c: Config, run: seq<State>, acts: seq<Action>, i: nat)
    requires ValidConfig(c) && IsOrderedRun(c, run, acts) && i < |run|
    ensures WaitsForSomeone(run[i])
    decreases i
  {
    if i == 0 {
      WaitsStart(c, run, acts);
    } else {
      OrderedRunsFit(c, run, acts, i - 1);
      WaitsStep(c, run, acts, i - 1);
    }
  }

  // When END_REQ of each transaction is handled before its END_RESP, wait states are always
  // those of some transaction that is still to end.
  lemma OrderedRunsWait(c: Config, run: seq<State>, acts: seq<Action>, i: nat)
    requires ValidConfig(c) && IsOrderedRun(c, run, acts) && i < |run|
    ensures WaitsForSomeone(run[i])
    ensures run[i].dataBus.WaitStates? ==> exists t :: InDataPhase(run[i], t)
  {
    OrderedRunsFit(c, run, acts, i);
    RunsSafe(c, run, acts, i);
  }

  // In such a run the arbiter never wedges: once every granted transaction is finished it is
  // ready, and its next turn grants if and only if a request is pending that the lock lets by.
  lemma OrderedRunsNeverWedge(c: Config, run: seq<State>, acts: seq<Action>, i: nat, early: bool)
    requires ValidConfig(c) && IsOrderedRun(c, run, acts) && i < |run| && Quiescent(run[i])
    ensures GuardOpen(run[i])
    ensures Ready(c, run[i])
      && (AfterArbitrate(c, run[i], early).granted != run[i].granted
          <==> exists m :: Pending(run[i].requestMap, m) && (run[i].isLock ==> m == run[i].lockMaster))
  {
    var s := run[i];
    RunsSafe(c, run, acts, i);
    OrderedRunsWait(c, run, acts, i);
    QuiescentReadyIff(c, s);
    forall t: nat | InDataPhase(s, t) ensures false { PlacedAt(c, s, t); }
    GrantsIff(c, s, early);
  }

  // A ready arbiter grants if and only if a request is pending that the lock lets by.
  lemma GrantsIff(c: Config, s: State, early: bool)
    requires Placed(c, s) && GuardOpen(s)
    ensures AfterArbitrate(c, s, early).granted != s.granted
      <==> exists m :: Pending(s.requestMap, m) && (s.isLock ==> m == s.lockMaster)
  {
    PickIsPending(c, s);
    var w := Pick(c, s);
    if w >= 0 {
      assert Recorded(c, s, w);
      PlacedAt(c, s, s.requestMap[w].trans);
    } else if !s.isLock {
      forall m | Pending(s.requestMap, m) ensures false {
        assert Recorded(c, s, m);
        if c.roundRobin {
          RobinPickIsNearest(s.requestMap, c.masters, s.robin, c.masters);
        } else {
          PriorityPickIsHighest(s.requestMap, MASTERS);
        }
      }
    }
  }

  // ---------------------------------------------------------------------------------------
  // What a turn of the arbiter does

  // Transaction t has been decoded, and waits for its grant.
  ghost predicate Waiting(s: State, t: nat) {
    t < |s.txs| && t !in s.acceptQ && t !in s.dropped && t !in s.lost && t !in s.granted
  }

  // The last grant carried no lock, or was to this master.
  ghost predicate LockLetsBy(s: State, m: nat) {
    var g := Grants(s.log);
    g == [] || !g[|g| - 1].locked || g[|g| - 1].grantee == m
  }

  // The data bus is in no wait states: a response has begun since the last transaction
  // ended, or no address phase has.
  ghost predicate NoWaitStates(s: State) {
    BeginRespSince(s.log) || !EndReqSince(s.log)
  }

  ghost predicate MayGrant(s: State) {
    && (forall t :: !InAddressPhase(s, t))
    && NoWaitStates(s)
    && exists t: nat :: Waiting(s, t) && LockLetsBy(s, s.txs[t].master)
  }

  lemma GuardIs(s: State)
    requires OneOwner(s) && BusInv(s)
    ensures GuardOpen(s) <==> (forall t :: !InAddressPhase(s, t)) && NoWaitStates(s)
  {
  }

  lemma WaitingIsPending(c: Config, s: State, t: nat)
    requires Placed(c, s)
    ensures Waiting(s, t) <==> t < |s.txs| && IsPending(s, t)
  {
    if t < |s.txs| {
      PlacedAt(c, s, t);
    }
  }

  lemma SomeoneWaits(c: Config, s: State)
    requires Placed(c, s) && LockTellsLog(s)
    ensures (exists t: nat :: Waiting(s, t) && LockLetsBy(s, s.txs[t].master))
      <==> exists m :: Pending(s.requestMap, m) && (s.isLock ==> m == s.lockMaster)
  {
    if t: nat :| Waiting(s, t) && LockLetsBy(s, s.txs[t].master) {
      WaitingIsPending(c, s, t);
      assert Pending(s.requestMap, s.txs[t].master);
    }
    if m :| Pending(s.requestMap, m) && (s.isLock ==> m == s.lockMaster) {
      assert Recorded(c, s, m);
      WaitingIsPending(c, s, s.requestMap[m].trans);
      assert Waiting(s, s.requestMap[m].trans);
    }
  }

  // The turn of the arbiter in any state of a run: it grants if and only if no transaction
  // is in its address phase, the data bus is in no wait states, and a transaction waits that
  // the lock lets by.  It grants one that waits, and changes nothing otherwise.
  lemma TurnGrantsIff(c: Config, s: State, early: bool)
    requires Inv(c, s)
    ensures var n := Next(c, s, Arbitrate(early));
      && (MayGrant(s) ==> exists t: nat :: Waiting(s, t) && LockLetsBy(s, s.txs[t].master)
                                            && n.granted == s.granted + {t} && n.owner == s.txs[t].master)
      && (!MayGrant(s) ==> n == s)
  {
    GuardIs(s);
    SomeoneWaits(c, s);
    if GuardOpen(s) {
      PickIsPending(c, s);
      GrantsIff(c, s, early);
      var w := Pick(c, s);
      if w >= 0 {
        assert Recorded(c, s, w);
        var t := s.requestMap[w].trans;
        WaitingIsPending(c, s, t);
        assert Waiting(s, t) && LockLetsBy(s, s.txs[t].master);
      }
    }
  }

  lemma RunsGrantIff(c: Config, run: seq<State>, acts: seq<Action>, i: nat, early: bool)
    requires ValidConfig(c) && IsRun(c, run, acts) && i < |run|
    ensures Ready(c, run[i])
    ensures Next(c, run[i], Arbitrate(early)).granted != run[i].granted <==> MayGrant(run[i])
    ensures !MayGrant(run[i]) ==> Next(c, run[i], Arbitrate(early)) == run[i]
  {
    RunsSafe(c, run, acts, i);
    TurnGrantsIff(c, run[i], early);
  }

  // A slave that answers BEGIN_REQ with END_REQ at once does what one does that calls back
  // right after.  A read of the configuration area needs no slave: both phases are queued.
  lemma EarlyEndReq(c: Config, s: State, m: nat)
    requires Placed(c, s) && Pending(s.requestMap, m)
    ensures var t := s.requestMap[m].trans;
      var n := AfterGrant(c, s, m, false);
      Ready(c, n) && if s.requestMap[m].slave == PNP_ID
        then AfterGrant(c, s, m, true) == n && t in n.requestQ && t in n.responseQ
        else t in n.owesEndReq && AfterGrant(c, s, m, true) == Next(c, n, SlaveEndReq(t))
  {
    var t := s.requestMap[m].trans;
    assert Recorded(c, s, m);
    PlacedAt(c, s, t);
    GrantReady(c, s, m, false);
    assert s.owesEndReq + {t} - {t} == s.owesEndReq;
  }

  // Likewise for a master that answers BEGIN_RESP with END_RESP.
  lemma EarlyEndResp(c: Config, s: State, t: nat)
    requires Placed(c, s) && t in s.responseQ
    ensures var n := AfterBeginResp(s, t, false);
      Ready(c, n) && t in n.owesEndResp && AfterBeginResp(s, t, true) == Next(c, n, MasterEndResp(t))
  {
    PlacedAt(c, s, t);
    assert s.owesEndResp + {t} - {t} == s.owesEndResp;
  }

  // ---------------------------------------------------------------------------------------
  // References

  ghost function Sum(refs: seq<int>): int {
    if refs == [] then 0 else Sum(refs[..|refs| - 1]) + refs[|refs| - 1]
  }

  ghost function EndedBelow(s: State, n: nat): set<nat> {
    set t | t in s.ended && t < n
  }

  lemma OneMoreEnded(s: State, n: nat)
    ensures |EndedBelow(s, n + 1)| == |EndedBelow(s, n)| + B(n in s.ended)
  {
    if n in s.ended {
      assert EndedBelow(s, n + 1) == EndedBelow(s, n) + {n};
    } else {
      assert EndedBelow(s, n + 1) == EndedBelow(s, n);
    }
  }

  lemma {:induction false} SumTellsEnded(s: State, n: nat)
    requires RefsTellEnded(s) && n <= |s.txs|
    ensures Sum(s.refs[..n]) == n - |EndedBelow(s, n)|
  {
    if n == 0 {
      assert EndedBelow(s, n) == {};
    } else {
      SumTellsEnded(s, n - 1);
      assert s.refs[..n][..n - 1] == s.refs[..n - 1];
      OneMoreEnded(s, n - 1);
    }
  }

  // In every state of every run the references the bus holds are the transactions issued
  // and not ended.
  lemma ReferencesHeld(c: Config, s: State)
    requires Inv(c, s)
    ensures Sum(s.refs) == |s.txs| - |s.ended|
  {
    SumTellsEnded(s, |s.txs|);
    assert s.refs[..|s.txs|] == s.refs;
    assert EndedBelow(s, |s.txs|) == s.ended;
  }

  // ---------------------------------------------------------------------------------------
  // Snooping

  ghost predicate EndsWrite(txs: seq<Payload>, e: Event) {
    e.EndReq? && e.trans < |txs| && txs[e.trans].command.Write?
  }

  // Of two events in a row: a snoop is of the write whose END_REQ comes next, and END_REQ of
  // a write comes after a snoop.
  ghost predicate SnoopFits(txs: seq<Payload>, a: Event, b: Event) {
    && (a.Snoop? <==> EndsWrite(txs, b))
    && (a.Snoop? ==> var p := txs[b.trans]; a == Snoop(p.master, p.address, p.length))
  }

  ghost predicate SnoopsFit(txs: seq<Payload>, log: seq<Event>) {
    && (log != [] ==> !EndsWrite(txs, log[0]) && !log[|log| - 1].Snoop?)
    && forall k :: 0 < k < |log| ==> SnoopFits(txs, log[k - 1], log[k])
  }

  lemma SnoopsFitConcat(txs: seq<Payload>, a: seq<Event>, b: seq<Event>)
    requires SnoopsFit(txs, a) && SnoopsFit(txs, b)
    ensures SnoopsFit(txs, a + b)
  {
    var log := a + b;
    forall k | 0 < k < |log| ensures SnoopFits(txs, log[k - 1], log[k]) {
      assert k < |a| ==> SnoopFits(txs, a[k - 1], a[k]);
      assert k > |a| ==> SnoopFits(txs, b[k - |a| - 1], b[k - |a|]);
    }
  }

  lemma IssueKeepsFit(c: Config, s: State, p: Payload)
    requires AllGenuine(c, s) && SnoopsFit(s.txs, s.log)
    ensures SnoopsFit(s.txs + [p], s.log)
  {
    forall e | e in s.log ensures EndsWrite(s.txs + [p], e) == EndsWrite(s.txs, e) { assert Genuine(c, s, e); }
    forall k | 0 < k < |s.log| ensures SnoopFits(s.txs + [p], s.log[k - 1], s.log[k]) {
      assert SnoopFits(s.txs, s.log[k - 1], s.log[k]);
    }
  }

  lemma SnoopsFitKept(c: Config, s: State, a: Action)
    requires Ready(c, s) && AllGenuine(c, s) && SnoopsFit(s.txs, s.log) && Enabled(c, s, a)
    ensures SnoopsFit(Next(c, s, a).txs, Next(c, s, a).log)
  {
    if a.Issue? {
      IssueKeepsFit(c, s, a.payload);
    } else {
      var more := NewEvents(c, s, a);
      SnoopsFitConcat(s.txs, s.log, more);
    }
  }

  lemma GrantEvents(c: Config, s: State, m: nat, early: bool) returns (more: seq<Event>)
    requires Ready(c, s) && Pending(s.requestMap, m)
    ensures AfterGrant(c, s, m, early).log == s.log + more && SnoopsFit(s.txs, more)
  {
    var r := s.requestMap[m];
    var grant := Granted(m, r.trans, s.txs[r.trans].lock);
    more := if r.slave == PNP_ID then [grant] else [grant, BeginReq(r.slave, r.trans)];
  }

  lemma EndReqEvents(s: State, t: nat) returns (more: seq<Event>)
    requires t < |s.txs| && s.txs[t].master < |s.requestMap|
    ensures AfterEndReq(s, t).log == s.log + more && SnoopsFit(s.txs, more)
  {
    var p := s.txs[t];
    var e := EndReq(s.requestMap[p.master].master, t);
    more := if p.command.Write? then [Snoop(p.master, p.address, p.length), e] else [e];
    assert s.log + [Snoop(p.master, p.address, p.length)] + [e] == s.log + [Snoop(p.master, p.address, p.length), e];
    assert s.log + [] + [e] == s.log + [e];
  }

  lemma EndRespEvents(s: State, t: nat) returns (more: seq<Event>)
    requires t < |s.txs| == |s.refs| && s.txs[t].master < |s.responseMap|
    ensures AfterEndResp(s, t).log == s.log + more && SnoopsFit(s.txs, more)
  {
    var slave := s.responseMap[s.txs[t].master].slave;
    more := (if slave == PNP_ID then [] else [EndResp(slave, t)]) + [Release(t)];
    assert AfterEndResp(s, t).log == s.log + more;
  }

  // The events of a step, which fit by themselves.
  lemma NewEvents(c: Config, s: State, a: Action) returns (more: seq<Event>)
    requires Ready(c, s) && Enabled(c, s, a) && !a.Issue?
    ensures Next(c, s, a).txs == s.txs && Next(c, s, a).log == s.log + more && SnoopsFit(s.txs, more)
  {
    more := [];
    match a
    case Arbitrate(early) =>
      if GuardOpen(s) && Pick(c, s) >= 0 {
        PickIsPending(c, s);
        more := GrantEvents(c, s, Pick(c, s), early);
      }
    case DeliverEndReq(t) => more := EndReqEvents(s, t);
    case DeliverBeginResp(t, _) => more := [BeginResp(s.responseMap[s.txs[t].master].master, t)];
    case DeliverEndResp(t) => more := EndRespEvents(s, t);
    case _ =>
  }

  lemma SnoopStep(c: Config, run: seq<State>, acts: seq<Action>, i: nat)
    requires ValidConfig(c) && IsRun(c, run, acts) && 0 < i < |run| && SnoopsFit(run[i - 1].txs, run[i - 1].log)
    ensures SnoopsFit(run[i].txs, run[i].log)
  {
    RunsPlaced(c, run, acts, i - 1);
    StepOfRun(c, run, acts, i);
    SnoopsFitKept(c, run[i - 1], acts[i - 1]);
  }

  // In every state of every run: the snoop broadcasts are exactly those of the writes, each
  // with the master, address and length of its write, right before its END_REQ is passed on.
  lemma {:induction false} RunsSnoop(c: Config, run: seq<State>, acts: seq<Action>, i: nat)
    requires ValidConfig(c) && IsRun(c, run, acts) && i < |run|
    ensures SnoopsFit(run[i].txs, run[i].log)
    decreases i
  {
    if i > 0 {
      RunsSnoop(c, run, acts, i - 1);
      SnoopStep(c, run, acts, i);
    }
  }
}
