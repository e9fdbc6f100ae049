/**
 What every run of the approximately-timed bus keeps.  Nothing here assumes that a master
 waits for one transaction before it issues the next, nor in which order the queues deliver.
 */
module AtSafety {
  import opened Bus
  import opened AtProtocol

  function B(b: bool): nat { if b then 1 else 0 }

  // ---------------------------------------------------------------------------------------
  // The event log

  // Some BEGIN_RESP has been passed on since the last transaction ended.
  ghost predicate BeginRespSince(log: seq<Event>) {
    |log| > 0 &&
    var e := log[|log| - 1];
    !e.Release? && (e.BeginResp? || BeginRespSince(log[..|log| - 1]))
  }

  // Some END_REQ has been passed on since the last transaction ended.
  ghost predicate EndReqSince(log: seq<Event>) {
    |log| > 0 &&
    var e := log[|log| - 1];
    !e.Release? && (e.EndReq? || EndReqSince(log[..|log| - 1]))
  }

  // The grants, in order.
  ghost function Grants(log: seq<Event>): (g: seq<Event>)
    ensures forall i :: 0 <= i < |g| ==> g[i].Granted?
  {
    if log == [] then []
    else
      var e := log[|log| - 1];
      Grants(log[..|log| - 1]) + if e.Granted? then [e] else []
  }

  // How often an event has occurred.
  ghost function Count(log: seq<Event>, e: Event): nat {
    if log == [] then 0 else Count(log[..|log| - 1], e) + B(log[|log| - 1] == e)
  }

  lemma LogExtends(log: seq<Event>, e: Event)
    ensures BeginRespSince(log + [e]) == (!e.Release? && (e.BeginResp? || BeginRespSince(log)))
    ensures EndReqSince(log + [e]) == (!e.Release? && (e.EndReq? || EndReqSince(log)))
    ensures Grants(log + [e]) == Grants(log) + if e.Granted? then [e] else []
  {
    assert (log + [e])[..|log|] == log;
  }

  // ---------------------------------------------------------------------------------------
  // The invariant

  // Transaction t is the one that waits for arbitration on behalf of its master.
  ghost predicate IsPending(s: State, t: nat)
    requires t < |s.txs|
  {
    var m := s.txs[t].master;
    Pending(s.requestMap, m) && s.requestMap[m].trans == t
  }

  // A granted transaction whose END_REQ has not been handled.
  ghost predicate InAddressPhase(s: State, t: nat) {
    t in s.owesEndReq || t in s.requestQ
  }

  // BEGIN_RESP has been passed to the master and the transaction has not ended.
  ghost predicate InResponse(s: State, t: nat) {
    t in s.owesEndResp || t in s.endResponseQ
  }

  ghost predicate KnownHistory(s: State) {
    && (forall t :: t in s.dropped ==> t < |s.txs|)
    && (forall t :: t in s.lost ==> t < |s.txs|)
    && (forall t :: t in s.granted ==> t < |s.txs|)
    && (forall t :: t in s.endReqDone ==> t < |s.txs|)
    && (forall t :: t in s.ended ==> t < |s.txs|)
  }

  // Transaction t is in exactly one stage.
  ghost predicate OneStage(s: State, t: nat)
    requires t < |s.txs|
  {
    B(t in s.acceptQ) + B(t in s.dropped) + B(t in s.lost) + B(IsPending(s, t)) + B(t in s.granted) == 1
  }

  // A granted transaction is at exactly one point of its request half and at exactly one
  // point of its response half; any other transaction is at none.
  ghost predicate OneTrack(s: State, t: nat) {
    && B(t in s.owesEndReq) + B(t in s.requestQ) + B(t in s.endReqDone) == B(t in s.granted)
    && B(t in s.owesBeginResp) + B(t in s.responseQ) + B(t in s.owesEndResp) + B(t in s.endResponseQ) + B(t in s.ended)
       == B(t in s.granted)
  }

  // A record that has been written tells the truth about the transaction it names.
  ghost predicate Truthful(c: Config, s: State, m: nat, r: Connection) {
    && r.trans < |s.txs|
    && r.trans !in s.acceptQ && r.trans !in s.dropped
    && s.txs[r.trans].master == m
    && r.master == m
    && r.slave == c.route(s.txs[r.trans].address) >= 0
  }

  // The two tables hold the same record of master m, but for its state.
  ghost predicate Recorded(c: Config, s: State, m: nat)
    requires m < |s.requestMap| == |s.responseMap|
  {
    if s.responseMap[m].state.TransInit? then s.requestMap[m].state.TransInit?
    else
      && Truthful(c, s, m, s.responseMap[m])
      && !s.requestMap[m].state.TransInit?
      && s.requestMap[m] == s.responseMap[m].(state := s.requestMap[m].state)
  }

  // A transaction that has been decoded has left a record.
  ghost predicate LeftRecord(s: State, t: nat)
    requires t < |s.txs|
  {
    t !in s.acceptQ && t !in s.dropped ==>
      s.txs[t].master < |s.responseMap| && !s.responseMap[s.txs[t].master].state.TransInit?
  }

  // At most one transaction is in the address phase; the bus owner is its master, and -1
  // exactly when there is none.
  ghost predicate OneOwner(s: State) {
    && (forall t, u :: InAddressPhase(s, t) && InAddressPhase(s, u) ==> t == u)
    && (forall t: nat :: InAddressPhase(s, t) ==> t < |s.txs| && s.owner == s.txs[t].master)
    && (s.owner != -1 ==> exists t :: InAddressPhase(s, t))
  }

  // The data bus state is what has happened since the last transaction ended.
  ghost predicate BusTellsLog(s: State) {
    && (s.dataBus.Response? <==> BeginRespSince(s.log))
    && (s.dataBus.WaitStates? <==> EndReqSince(s.log) && !BeginRespSince(s.log))
    && (BeginRespSince(s.log) ==> exists t :: InResponse(s, t))
  }

  // The lock is that of the last grant.
  ghost predicate LockTellsLog(s: State) {
    var g := Grants(s.log);
    if g == [] then !s.isLock
    else s.isLock == g[|g| - 1].locked && s.lockMaster == g[|g| - 1].grantee
  }

  // The grant after a locked one goes to the same master.
  ghost predicate LockRespected(log: seq<Event>) {
    var g := Grants(log);
    forall i :: 0 <= i < |g| - 1 && g[i].locked ==> g[i + 1].grantee == g[i].grantee
  }

  // An event speaks of an issued transaction and goes to its master or slave.
  ghost predicate Genuine(c: Config, s: State, e: Event) {
    match e
    case Granted(m, t, l) => t < |s.txs| && m == s.txs[t].master && l == s.txs[t].lock
    case BeginReq(slave, t) => t < |s.txs| && 0 <= slave == c.route(s.txs[t].address) != PNP_ID
    case Snoop(_, _, _) => true
    case EndReq(m, t) => t < |s.txs| && m == s.txs[t].master
    case BeginResp(m, t) => t < |s.txs| && m == s.txs[t].master
    case EndResp(slave, t) => t < |s.txs| && 0 <= slave != PNP_ID
    case Release(t) => t < |s.txs|
  }

  ghost predicate AllGenuine(c: Config, s: State) {
    forall e :: e in s.log ==> Genuine(c, s, e)
  }

  // Each phase is passed on once for each transaction, when it has got that far.
  ghost predicate Once(c: Config, s: State, t: nat)
    requires t < |s.txs|
  {
    var p := s.txs[t];
    && Count(s.log, Granted(p.master, t, p.lock)) == B(t in s.granted)
    && Count(s.log, BeginReq(c.route(p.address), t)) == B(t in s.granted && c.route(p.address) != PNP_ID)
    && Count(s.log, EndReq(p.master, t)) == B(t in s.endReqDone)
    && Count(s.log, BeginResp(p.master, t)) == B(InResponse(s, t) || t in s.ended)
    && Count(s.log, Release(t)) == B(t in s.ended)
  }

  ghost predicate AllOnce(c: Config, s: State) {
    forall t :: 0 <= t < |s.txs| ==> Once(c, s, t)
  }

  // How often END_RESP of a transaction has been passed on, to whatever slave.
  ghost function EndResps(log: seq<Event>, t: nat): nat {
    if log == [] then 0
    else
      var e := log[|log| - 1];
      EndResps(log[..|log| - 1], t) + B(e.EndResp? && e.trans == t)
  }

  // END_RESP of a transaction is passed on at most once, and not before it ends.
  ghost predicate EndRespOnceAtMost(s: State) {
    forall t: nat :: EndResps(s.log, t) <= B(t in s.ended)
  }

  // The bus holds one reference to a transaction until it ends, and none after.
  ghost predicate RefsTellEnded(s: State) {
    |s.refs| == |s.txs| && forall t :: 0 <= t < |s.txs| ==> s.refs[t] == 1 - B(t in s.ended)
  }

  // Where the transactions are: who holds them and what the connection tables say of them.
  ghost predicate Placed(c: Config, s: State) {
    && Ready(c, s)
    && KnownHistory(s)
    && (forall t :: 0 <= t < |s.txs| ==> OneStage(s, t))
    && (forall t :: 0 <= t < |s.txs| ==> OneTrack(s, t))
    && (forall t :: 0 <= t < |s.txs| ==> LeftRecord(s, t))
    && (forall m :: 0 <= m < MASTERS ==> Recorded(c, s, m))
  }

  // What `Placed` says of transaction u, for use in one step.
  lemma PlacedAt(c: Config, s: State, u: nat)
    requires Placed(c, s) && u < |s.txs|
    ensures OneStage(s, u) && OneTrack(s, u) && LeftRecord(s, u) && Recorded(c, s, s.txs[u].master)
  {
  }

  // A step that moves a granted transaction along its tracks and touches no table.
  lemma TracksPlaced(c: Config, s: State, n: State)
    requires Placed(c, s)
    requires n.txs == s.txs && n.requestMap == s.requestMap && n.responseMap == s.responseMap
    requires n.acceptQ == s.acceptQ && n.dropped == s.dropped && n.lost == s.lost && n.granted == s.granted
    requires Ready(c, n) && KnownHistory(n)
    requires forall u :: 0 <= u < |s.txs| ==> OneTrack(n, u)
    ensures Placed(c, n)
  {
    forall u: nat | u < |s.txs| ensures OneStage(n, u) && LeftRecord(n, u) { PlacedAt(c, s, u); }
    forall m: nat | m < MASTERS ensures Recorded(c, n, m) { assert Recorded(c, s, m); }
  }

  lemma DeliverTrack(c: Config, s: State, a: Action, u: nat)
    requires Placed(c, s) && Enabled(c, s, a) && u < |s.txs|
    requires a.DeliverEndReq? || a.DeliverBeginResp? || a.DeliverEndResp?
    ensures OneTrack(Next(c, s, a), u)
  {
    PlacedAt(c, s, u);
  }

  lemma DeliverPlaced(c: Config, s: State, a: Action)
    requires Placed(c, s) && Enabled(c, s, a)
    requires a.DeliverEndReq? || a.DeliverBeginResp? || a.DeliverEndResp?
    ensures Placed(c, Next(c, s, a))
  {
    var n := Next(c, s, a);
    ReadyKept(c, s, a);
    forall u: nat | u < |s.txs| ensures OneTrack(n, u) { DeliverTrack(c, s, a, u); }
    TracksPlaced(c, s, n);
  }

  lemma SendTrack(c: Config, s: State, a: Action, u: nat)
    requires Placed(c, s) && Enabled(c, s, a) && u < |s.txs|
    requires a.SlaveEndReq? || a.SlaveBeginResp? || a.MasterEndResp?
    ensures OneTrack(Next(c, s, a), u)
  {
    PlacedAt(c, s, u);
  }

  lemma SendPlaced(c: Config, s: State, a: Action)
    requires Placed(c, s) && Enabled(c, s, a)
    requires a.SlaveEndReq? || a.SlaveBeginResp? || a.MasterEndResp?
    ensures Placed(c, Next(c, s, a))
  {
    var n := Next(c, s, a);
    ReadyKept(c, s, a);
    forall u: nat | u < |s.txs| ensures OneTrack(n, u) { SendTrack(c, s, a, u); }
    TracksPlaced(c, s, n);
  }

  lemma IssuePlaced(c: Config, s: State, p: Payload)
    requires Placed(c, s) && p.master < c.masters
    ensures Placed(c, AfterIssue(s, p))
  {
    var n := AfterIssue(s, p);
    ReadyKept(c, s, Issue(p));
    forall u: nat | u < |n.txs| ensures OneStage(n, u) && OneTrack(n, u) && LeftRecord(n, u) {
      if u < |s.txs| {
        PlacedAt(c, s, u);
      } else {
        assert Recorded(c, s, p.master);
      }
    }
    forall m: nat | m < MASTERS ensures Recorded(c, n, m) { assert Recorded(c, s, m); }
  }

  lemma DropPlaced(c: Config, s: State, t: nat)
    requires Placed(c, s) && t in s.acceptQ && c.route(s.txs[t].address) < 0
    ensures Placed(c, AfterAccept(c, s, t))
  {
    var n := AfterAccept(c, s, t);
    ReadyKept(c, s, Accept(t));
    forall u: nat | u < |n.txs| ensures OneStage(n, u) && OneTrack(n, u) && LeftRecord(n, u) { PlacedAt(c, s, u); }
    forall m: nat | m < MASTERS ensures Recorded(c, n, m) { assert Recorded(c, s, m); }
  }

  lemma AcceptStage(c: Config, s: State, t: nat, u: nat)
    requires Placed(c, s) && t in s.acceptQ && c.route(s.txs[t].address) >= 0
    requires u < |s.txs|
    ensures OneStage(AfterAccept(c, s, t), u)
  {
    PlacedAt(c, s, t);
    PlacedAt(c, s, u);
  }

  lemma AcceptPlaced(c: Config, s: State, t: nat)
    requires Placed(c, s) && t in s.acceptQ && c.route(s.txs[t].address) >= 0
    ensures Placed(c, AfterAccept(c, s, t))
  {
    var n := AfterAccept(c, s, t);
    ReadyKept(c, s, Accept(t));
    PlacedAt(c, s, t);
    forall u: nat | u < |n.txs| ensures OneStage(n, u) { AcceptStage(c, s, t, u); }
    forall u: nat | u < |n.txs| ensures OneTrack(n, u) && LeftRecord(n, u) { PlacedAt(c, s, u); }
    forall m: nat | m < MASTERS ensures Recorded(c, n, m) { assert Recorded(c, s, m); }
  }

  lemma GrantStage(c: Config, s: State, m: nat, early: bool, u: nat)
    requires Placed(c, s) && Pending(s.requestMap, m)
    requires u < |s.txs|
    ensures OneStage(AfterGrant(c, s, m, early), u) && OneTrack(AfterGrant(c, s, m, early), u)
  {
    assert Recorded(c, s, m);
    PlacedAt(c, s, s.requestMap[m].trans);
    PlacedAt(c, s, u);
  }

  lemma GrantPlaced(c: Config, s: State, m: nat, early: bool)
    requires Placed(c, s) && Pending(s.requestMap, m)
    ensures Placed(c, AfterGrant(c, s, m, early))
  {
    var n := AfterGrant(c, s, m, early);
    GrantReady(c, s, m, early);
    forall u: nat | u < |n.txs| ensures OneStage(n, u) && OneTrack(n, u) { GrantStage(c, s, m, early, u); }
    assert Recorded(c, s, m);
    forall u: nat | u < |n.txs| ensures LeftRecord(n, u) { PlacedAt(c, s, u); }
    forall k: nat | k < MASTERS ensures Recorded(c, n, k) { assert Recorded(c, s, k); }
  }

  lemma PlacedKept(c: Config, s: State, a: Action)
    requires Placed(c, s) && Enabled(c, s, a)
    ensures Placed(c, Next(c, s, a))
  {
    match a
    case Issue(p) => IssuePlaced(c, s, p);
    case Accept(t) => if c.route(s.txs[t].address) >= 0 { AcceptPlaced(c, s, t); } else { DropPlaced(c, s, t); }
    case Arbitrate(early) =>
      if GuardOpen(s) && Pick(c, s) >= 0 {
        PickIsPending(c, s);
        GrantPlaced(c, s, Pick(c, s), early);
      }
    case SlaveEndReq(_) => SendPlaced(c, s, a);
    case SlaveBeginResp(_) => SendPlaced(c, s, a);
    case MasterEndResp(_) => SendPlaced(c, s, a);
    case DeliverEndReq(_) => DeliverPlaced(c, s, a);
    case DeliverBeginResp(_, _) => DeliverPlaced(c, s, a);
    case DeliverEndResp(_) => DeliverPlaced(c, s, a);
  }

  // ---------------------------------------------------------------------------------------
  // The address bus

  lemma GrantOwner(c: Config, s: State, m: nat, early: bool)
    requires Placed(c, s) && OneOwner(s) && s.owner == -1 && Pending(s.requestMap, m)
    ensures OneOwner(AfterGrant(c, s, m, early))
  {
    var n := AfterGrant(c, s, m, early);
    var t := s.requestMap[m].trans;
    assert Recorded(c, s, m);
    assert InAddressPhase(n, t);
    forall u: nat | InAddressPhase(n, u) ensures u == t { assert !InAddressPhase(s, u); }
  }

  lemma OwnerKept(c: Config, s: State, a: Action)
    requires Placed(c, s) && OneOwner(s) && Enabled(c, s, a)
    ensures OneOwner(Next(c, s, a))
  {
    var n := Next(c, s, a);
    match a
    case Arbitrate(early) =>
      if GuardOpen(s) && Pick(c, s) >= 0 {
        PickIsPending(c, s);
        GrantOwner(c, s, Pick(c, s), early);
      }
    case SlaveEndReq(t) =>
      assert InAddressPhase(s, t);
      assert forall u :: InAddressPhase(n, u) <==> InAddressPhase(s, u);
    case DeliverEndReq(t) =>
      assert InAddressPhase(s, t);
      PlacedAt(c, s, t);
      assert forall u :: InAddressPhase(n, u) ==> InAddressPhase(s, u) && u != t;
    case _ =>
      assert forall u :: InAddressPhase(n, u) <==> InAddressPhase(s, u);
  }

  // ---------------------------------------------------------------------------------------
  // The data bus and the lock

  ghost predicate BusInv(s: State) {
    BusTellsLog(s) && LockTellsLog(s) && LockRespected(s.log)
  }

  lemma BusKept(c: Config, s: State, a: Action)
    requires Placed(c, s) && BusInv(s) && Enabled(c, s, a)
    ensures BusInv(Next(c, s, a))
  {
    var n := Next(c, s, a);
    match a
    case Arbitrate(early) =>
      if GuardOpen(s) && Pick(c, s) >= 0 {
        PickIsPending(c, s);
        GrantBus(c, s, Pick(c, s), early);
      }
    case DeliverEndReq(t) => EndReqBus(c, s, t);
    case DeliverBeginResp(t, _) =>
      LogExtends(s.log, BeginResp(s.responseMap[s.txs[t].master].master, t));
      assert InResponse(n, t);
    case DeliverEndResp(t) => EndRespBus(c, s, t);
    case MasterEndResp(t) =>
      assert forall u :: InResponse(n, u) <==> InResponse(s, u);
    case _ =>
      assert n.log == s.log && forall u :: InResponse(n, u) <==> InResponse(s, u);
  }

  lemma GrantExtends(log: seq<Event>, grant: Event, begin: Event)
    requires grant.Granted? && begin.BeginReq?
    ensures BeginRespSince(log + [grant]) == BeginRespSince(log + [grant, begin]) == BeginRespSince(log)
    ensures EndReqSince(log + [grant]) == EndReqSince(log + [grant, begin]) == EndReqSince(log)
    ensures Grants(log + [grant]) == Grants(log + [grant, begin]) == Grants(log) + [grant]
  {
    LogExtends(log, grant);
    LogExtends(log + [grant], begin);
    assert log + [grant, begin] == log + [grant] + [begin];
  }

  // What a grant adds to the log.
  lemma GrantLog(c: Config, s: State, m: nat, early: bool)
    requires Ready(c, s) && Pending(s.requestMap, m)
    ensures var log := AfterGrant(c, s, m, early).log;
      && BeginRespSince(log) == BeginRespSince(s.log)
      && EndReqSince(log) == EndReqSince(s.log)
      && Grants(log) == Grants(s.log) + [Granted(m, s.requestMap[m].trans, s.txs[s.requestMap[m].trans].lock)]
  {
    var r := s.requestMap[m];
    GrantExtends(s.log, Granted(m, r.trans, s.txs[r.trans].lock), BeginReq(r.slave, r.trans));
  }

  lemma GrantBus(c: Config, s: State, m: nat, early: bool)
    requires Placed(c, s) && BusInv(s) && Pending(s.requestMap, m)
    requires s.isLock ==> m == s.lockMaster
    ensures BusInv(AfterGrant(c, s, m, early))
  {
    var n := AfterGrant(c, s, m, early);
    GrantLog(c, s, m, early);
    assert BusTellsLog(n) by {
      assert forall u :: InResponse(n, u) <==> InResponse(s, u);
    }
  }

  lemma EndReqBus(c: Config, s: State, t: nat)
    requires Placed(c, s) && BusInv(s) && t in s.requestQ
    ensures BusInv(AfterEndReq(s, t))
  {
    var n := AfterEndReq(s, t);
    var p := s.txs[t];
    var snoop := Snoop(p.master, p.address, p.length);
    var e := EndReq(s.requestMap[p.master].master, t);
    LogExtends(s.log, snoop);
    LogExtends(s.log + [snoop], e);
    LogExtends(s.log, e);
    assert s.log + [] == s.log;
    assert Grants(n.log) == Grants(s.log);
    assert forall u :: InResponse(n, u) <==> InResponse(s, u);
  }

  lemma EndRespBus(c: Config, s: State, t: nat)
    requires Placed(c, s) && BusInv(s) && t in s.endResponseQ
    ensures BusInv(AfterEndResp(s, t))
  {
    var n := AfterEndResp(s, t);
    var e := EndResp(s.responseMap[s.txs[t].master].slave, t);
    LogExtends(s.log, e);
    LogExtends(s.log + [e], Release(t));
    LogExtends(s.log, Release(t));
    assert s.log + [] == s.log;
    assert Grants(n.log) == Grants(s.log);
  }

  // ---------------------------------------------------------------------------------------
  // The log

  // The log says no more than what is so.
  lemma GenuineKept(c: Config, s: State, a: Action)
    requires Placed(c, s) && AllGenuine(c, s) && Enabled(c, s, a)
    ensures AllGenuine(c, Next(c, s, a))
  {
    var n := Next(c, s, a);
    forall e | e in n.log ensures Genuine(c, n, e) {
      if e in s.log {
        assert Genuine(c, s, e);
      } else {
        NewEventGenuine(c, s, a, e);
      }
    }
  }

  lemma NewEventGenuine(c: Config, s: State, a: Action, e: Event)
    requires Placed(c, s) && Enabled(c, s, a)
    requires e in Next(c, s, a).log && e !in s.log
    ensures Genuine(c, Next(c, s, a), e)
  {
    match a
    case Arbitrate(_) =>
      PickIsPending(c, s);
      assert Recorded(c, s, Pick(c, s));
    case DeliverEndReq(t) => PlacedAt(c, s, t);
    case DeliverBeginResp(t, _) => PlacedAt(c, s, t);
    case DeliverEndResp(t) => PlacedAt(c, s, t);
    case _ =>
  }

  lemma CountAppend(log: seq<Event>, a: Event, e: Event)
    ensures Count(log + [a], e) == Count(log, e) + B(a == e)
  {
    assert (log + [a])[..|log|] == log;
  }

  // How often an event occurs after a step that appends at most two.
  lemma CountAfter(log: seq<Event>, a: Event, b: Event, e: Event)
    ensures Count(log + [a, b], e) == Count(log, e) + B(a == e) + B(b == e)
    ensures Count(log + [a] + [b], e) == Count(log, e) + B(a == e) + B(b == e)
    ensures Count(log + [] + [b], e) == Count(log, e) + B(b == e)
  {
    assert log + [a, b] == log + [a] + [b];
    assert log + [] == log;
    CountAppend(log, a, e);
    CountAppend(log + [a], b, e);
    CountAppend(log, b, e);
  }

  lemma {:induction false} CountAbsent(log: seq<Event>, e: Event)
    requires e !in log
    ensures Count(log, e) == 0
  {
    if log != [] {
      CountAbsent(log[..|log| - 1], e);
    }
  }

  lemma GrantCount(c: Config, s: State, m: nat, early: bool, e: Event)
    requires Placed(c, s) && Pending(s.requestMap, m)
    ensures var r := s.requestMap[m];
      Count(AfterGrant(c, s, m, early).log, e)
      == Count(s.log, e) + B(Granted(m, r.trans, s.txs[r.trans].lock) == e)
         + B(r.slave != PNP_ID && BeginReq(r.slave, r.trans) == e)
  {
    var r := s.requestMap[m];
    var grant := Granted(m, r.trans, s.txs[r.trans].lock);
    CountAfter(s.log, grant, BeginReq(r.slave, r.trans), e);
    CountAppend(s.log, grant, e);
  }

  lemma GrantOnce(c: Config, s: State, m: nat, early: bool, u: nat)
    requires Placed(c, s) && Pending(s.requestMap, m) && u < |s.txs| && Once(c, s, u)
    ensures Once(c, AfterGrant(c, s, m, early), u)
  {
    var p := s.txs[u];
    assert Recorded(c, s, m);
    PlacedAt(c, s, s.requestMap[m].trans);
    PlacedAt(c, s, u);
    GrantCount(c, s, m, early, Granted(p.master, u, p.lock));
    GrantCount(c, s, m, early, BeginReq(c.route(p.address), u));
    GrantCount(c, s, m, early, EndReq(p.master, u));
    GrantCount(c, s, m, early, BeginResp(p.master, u));
    GrantCount(c, s, m, early, Release(u));
  }

  // Of the events a delivery appends, `Once` counts only `last`.
  lemma DeliverCount(c: Config, s: State, a: Action, e: Event)
    requires Placed(c, s) && Enabled(c, s, a)
    requires a.DeliverEndReq? || a.DeliverBeginResp? || a.DeliverEndResp?
    requires !e.Snoop? && !e.EndResp?
    ensures var m := s.txs[a.t].master;
      var last := if a.DeliverEndReq? then EndReq(m, a.t) else if a.DeliverBeginResp? then BeginResp(m, a.t) else Release(a.t);
      Count(Next(c, s, a).log, e) == Count(s.log, e) + B(last == e)
  {
    PlacedAt(c, s, a.t);
    var p := s.txs[a.t];
    if a.DeliverEndReq? {
      CountAfter(s.log, Snoop(p.master, p.address, p.length), EndReq(p.master, a.t), e);
    } else if a.DeliverBeginResp? {
      CountAppend(s.log, BeginResp(p.master, a.t), e);
    } else {
      CountAfter(s.log, EndResp(s.responseMap[p.master].slave, a.t), Release(a.t), e);
    }
  }

  // What a step adds to the counts of transaction u.
  ghost predicate CountsMove(c: Config, s: State, log: seq<Event>, u: nat, asked: bool, answered: bool, ended: bool)
    requires u < |s.txs|
  {
    var p := s.txs[u];
    && Count(log, Granted(p.master, u, p.lock)) == Count(s.log, Granted(p.master, u, p.lock))
    && Count(log, BeginReq(c.route(p.address), u)) == Count(s.log, BeginReq(c.route(p.address), u))
    && Count(log, EndReq(p.master, u)) == Count(s.log, EndReq(p.master, u)) + B(asked)
    && Count(log, BeginResp(p.master, u)) == Count(s.log, BeginResp(p.master, u)) + B(answered)
    && Count(log, Release(u)) == Count(s.log, Release(u)) + B(ended)
  }

  lemma DeliverCounts(c: Config, s: State, a: Action, u: nat)
    requires Placed(c, s) && Enabled(c, s, a) && u < |s.txs|
    requires a.DeliverEndReq? || a.DeliverBeginResp? || a.DeliverEndResp?
    ensures CountsMove(c, s, Next(c, s, a).log, u,
                       a.DeliverEndReq? && a.t == u, a.DeliverBeginResp? && a.t == u, a.DeliverEndResp? && a.t == u)
  {
    var p := s.txs[u];
    DeliverCount(c, s, a, Granted(p.master, u, p.lock));
    DeliverCount(c, s, a, BeginReq(c.route(p.address), u));
    DeliverCount(c, s, a, EndReq(p.master, u));
    DeliverCount(c, s, a, BeginResp(p.master, u));
    DeliverCount(c, s, a, Release(u));
  }

  // What a delivery does to the places of transaction u that the counts depend on.
  ghost predicate PlacesMove(s: State, n: State, u: nat, asked: bool, answered: bool, ended: bool) {
    && (u in n.granted <==> u in s.granted)
    && B(u in n.endReqDone) == B(u in s.endReqDone) + B(asked)
    && B(InResponse(n, u) || u in n.ended) == B(InResponse(s, u) || u in s.ended) + B(answered)
    && B(u in n.ended) == B(u in s.ended) + B(ended)
  }

  lemma EndReqMoves(c: Config, s: State, t: nat, u: nat)
    requires Placed(c, s) && t in s.requestQ && u < |s.txs|
    ensures PlacesMove(s, AfterEndReq(s, t), u, t == u, false, false)
  {
    PlacedAt(c, s, u);
  }

  lemma BeginRespMoves(c: Config, s: State, t: nat, early: bool, u: nat)
    requires Placed(c, s) && t in s.responseQ && u < |s.txs|
    ensures PlacesMove(s, AfterBeginResp(s, t, early), u, false, t == u, false)
  {
    PlacedAt(c, s, u);
  }

  lemma EndRespMoves(c: Config, s: State, t: nat, u: nat)
    requires Placed(c, s) && t in s.endResponseQ && u < |s.txs|
    ensures PlacesMove(s, AfterEndResp(s, t), u, false, false, t == u)
  {
    PlacedAt(c, s, u);
  }

  // Once the places and the counts have moved alike, the counts fit again.
  lemma OnceMoves(c: Config, s: State, n: State, u: nat, asked: bool, answered: bool, ended: bool)
    requires u < |s.txs| && n.txs == s.txs && Once(c, s, u) && PlacesMove(s, n, u, asked, answered, ended)
    requires CountsMove(c, s, n.log, u, asked, answered, ended)
    ensures Once(c, n, u)
  {
  }

  lemma DeliverOnce(c: Config, s: State, a: Action, u: nat)
    requires Placed(c, s) && Enabled(c, s, a) && u < |s.txs| && Once(c, s, u)
    requires a.DeliverEndReq? || a.DeliverBeginResp? || a.DeliverEndResp?
    ensures Once(c, Next(c, s, a), u)
  {
    DeliverCounts(c, s, a, u);
    match a
    case DeliverEndReq(t) =>
      EndReqMoves(c, s, t, u);
      OnceMoves(c, s, AfterEndReq(s, t), u, t == u, false, false);
    case DeliverBeginResp(t, early) =>
      BeginRespMoves(c, s, t, early, u);
      OnceMoves(c, s, AfterBeginResp(s, t, early), u, false, t == u, false);
    case DeliverEndResp(t) =>
      EndRespMoves(c, s, t, u);
      OnceMoves(c, s, AfterEndResp(s, t), u, false, false, t == u);
  }

  lemma IssueOnce(c: Config, s: State, p: Payload)
    requires Placed(c, s) && AllGenuine(c, s)
    ensures Once(c, AfterIssue(s, p), |s.txs|)
  {
    var u := |s.txs|;
    assert forall e :: e in s.log ==> Genuine(c, s, e);
    CountAbsent(s.log, Granted(p.master, u, p.lock));
    CountAbsent(s.log, BeginReq(c.route(p.address), u));
    CountAbsent(s.log, EndReq(p.master, u));
    CountAbsent(s.log, BeginResp(p.master, u));
    CountAbsent(s.log, Release(u));
  }

  // A step that appends nothing.
  lemma QuietOnce(c: Config, s: State, a: Action, u: nat)
    requires Placed(c, s) && Enabled(c, s, a) && u < |s.txs| && Once(c, s, u)
    requires !a.Arbitrate? && !a.DeliverEndReq? && !a.DeliverBeginResp? && !a.DeliverEndResp?
    ensures Once(c, Next(c, s, a), u)
  {
    var n := Next(c, s, a);
    assert InResponse(n, u) == InResponse(s, u);
  }

  lemma OnceKept(c: Config, s: State, a: Action)
    requires Placed(c, s) && AllGenuine(c, s) && AllOnce(c, s) && Enabled(c, s, a)
    ensures AllOnce(c, Next(c, s, a))
  {
    var n := Next(c, s, a);
    forall u: nat | u < |n.txs| ensures Once(c, n, u) {
      if u == |s.txs| {
        IssueOnce(c, s, a.payload);
      } else {
        assert Once(c, s, u);
        OnceKeptAt(c, s, a, u);
      }
    }
  }

  lemma OnceKeptAt(c: Config, s: State, a: Action, u: nat)
    requires Placed(c, s) && Enabled(c, s, a) && u < |s.txs| && Once(c, s, u)
    ensures Once(c, Next(c, s, a), u)
  {
    if a.DeliverEndReq? || a.DeliverBeginResp? || a.DeliverEndResp? {
      DeliverOnce(c, s, a, u);
    } else if !a.Arbitrate? {
      QuietOnce(c, s, a, u);
    } else if GuardOpen(s) && Pick(c, s) >= 0 {
      PickIsPending(c, s);
      GrantOnce(c, s, Pick(c, s), a.early, u);
    }
  }

  lemma EndRespsAppend(log: seq<Event>, e: Event, t: nat)
    ensures EndResps(log + [e], t) == EndResps(log, t) + B(e.EndResp? && e.trans == t)
  {
    assert (log + [e])[..|log|] == log;
  }

  // Only handling END_RESP of a transaction passes it on, and at most once.
  lemma EndRespsMove(c: Config, s: State, a: Action, t: nat)
    requires Ready(c, s) && Enabled(c, s, a)
    ensures EndResps(Next(c, s, a).log, t) <= EndResps(s.log, t) + B(a.DeliverEndResp? && a.t == t)
  {
    match a
    case Arbitrate(early) =>
      if GuardOpen(s) && Pick(c, s) >= 0 {
        PickIsPending(c, s);
        GrantEndResps(c, s, Pick(c, s), early, t);
      }
    case DeliverEndReq(u) =>
      var p := s.txs[u];
      var e := EndReq(s.requestMap[p.master].master, u);
      assert s.log + [] == s.log;
      EndRespsAppend(s.log, Snoop(p.master, p.address, p.length), t);
      EndRespsAppend(s.log + [Snoop(p.master, p.address, p.length)], e, t);
      EndRespsAppend(s.log, e, t);
    case DeliverBeginResp(u, _) =>
      EndRespsAppend(s.log, BeginResp(s.responseMap[s.txs[u].master].master, u), t);
    case DeliverEndResp(u) =>
      var e := EndResp(s.responseMap[s.txs[u].master].slave, u);
      assert s.log + [] == s.log;
      EndRespsAppend(s.log, e, t);
      EndRespsAppend(s.log + [e], Release(u), t);
      EndRespsAppend(s.log, Release(u), t);
    case _ =>
  }

  lemma GrantEndResps(c: Config, s: State, m: nat, early: bool, t: nat)
    requires Ready(c, s) && Pending(s.requestMap, m)
    ensures EndResps(AfterGrant(c, s, m, early).log, t) == EndResps(s.log, t)
  {
    var r := s.requestMap[m];
    var grant := Granted(m, r.trans, s.txs[r.trans].lock);
    EndRespsAppend(s.log, grant, t);
    EndRespsAppend(s.log + [grant], BeginReq(r.slave, r.trans), t);
    assert s.log + [grant, BeginReq(r.slave, r.trans)] == s.log + [grant] + [BeginReq(r.slave, r.trans)];
  }

  lemma EndRespsKept(c: Config, s: State, a: Action)
    requires Placed(c, s) && EndRespOnceAtMost(s) && Enabled(c, s, a)
    ensures EndRespOnceAtMost(Next(c, s, a))
  {
    var n := Next(c, s, a);
    forall t: nat ensures EndResps(n.log, t) <= B(t in n.ended) {
      assert EndResps(s.log, t) <= B(t in s.ended);
      EndRespsMove(c, s, a, t);
      if a.DeliverEndResp? {
        PlacedAt(c, s, a.t);
      }
    }
  }

  lemma EndDropsReference(c: Config, s: State, t: nat)
    requires Placed(c, s) && RefsTellEnded(s) && t in s.endResponseQ
    ensures RefsTellEnded(AfterEndResp(s, t))
  {
    PlacedAt(c, s, t);
  }

  lemma RefsKept(c: Config, s: State, a: Action)
    requires Placed(c, s) && RefsTellEnded(s) && Enabled(c, s, a)
    ensures RefsTellEnded(Next(c, s, a))
  {
    match a
    case DeliverEndResp(t) => EndDropsReference(c, s, t);
    case Arbitrate(_) => PickIsPending(c, s);
    case _ =>
  }

  // ---------------------------------------------------------------------------------------
  // All of it

  ghost predicate Inv(c: Config, s: State) {
    && Placed(c, s)
    && OneOwner(s)
    && BusInv(s)
    && AllGenuine(c, s)
    && AllOnce(c, s)
    && EndRespOnceAtMost(s)
    && RefsTellEnded(s)
  }

  lemma InitHolds(c: Config)
    requires ValidConfig(c)
    ensures Inv(c, Init())
  {
  }

  lemma InvKept(c: Config, s: State, a: Action)
    requires Inv(c, s) && Enabled(c, s, a)
    ensures Inv(c, Next(c, s, a))
  {
    PlacedKept(c, s, a);
    OwnerKept(c, s, a);
    BusKept(c, s, a);
    GenuineKept(c, s, a);
    OnceKept(c, s, a);
    EndRespsKept(c, s, a);
    RefsKept(c, s, a);
  }
}
