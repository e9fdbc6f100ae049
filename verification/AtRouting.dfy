/**
 Where END_RESP goes and which transactions are lost: both depend on the record a master has
 left last, which decoding overwrites.
 */
module AtRouting {
  import opened Bus
  import opened AtProtocol
  import opened AtSafety
  import opened AtRuns

  // ---------------------------------------------------------------------------------------
  // Decoding

  // Transaction t has been decoded, to a slave or to the configuration area.
  ghost predicate Decoded(s: State, t: nat) {
    t < |s.txs| && t !in s.acceptQ && t !in s.dropped
  }

  // The step decodes t.
  ghost predicate Decodes(c: Config, s: State, a: Action, t: nat) {
    a == Accept(t) && t < |s.txs| && c.route(s.txs[t].address) >= 0
  }

  lemma DecodedStep(c: Config, s: State, a: Action, t: nat)
    requires Ready(c, s) && Enabled(c, s, a)
    ensures Decoded(Next(c, s, a), t) <==> Decoded(s, t) || (Decodes(c, s, a, t) && t !in s.dropped)
  {
  }

  // A decoded transaction has been decoded at some step.
  lemma {:induction false} DecodedSince(c: Config, run: seq<State>, acts: seq<Action>, n: nat, t: nat) returns (i: nat)
    requires IsRun(c, run, acts) && n < |run| && Decoded(run[n], t)
    ensures i < n && Decodes(c, run[i], acts[i], t)
    decreases n
  {
    if n > 0 {
      StepOfRun(c, run, acts, n);
      DecodedStep(c, run[n - 1], acts[n - 1], t);
      if Decoded(run[n - 1], t) {
        i := DecodedSince(c, run, acts, n - 1, t);
      } else {
        i := n - 1;
      }
    }
  }

  // The transaction of master m that was decoded last before step n, or -1.
  ghost function Latest(c: Config, run: seq<State>, acts: seq<Action>, n: nat, m: nat): int
    requires n <= |acts| < |run|
  {
    if n == 0 then -1
    else
      var s, a := run[n - 1], acts[n - 1];
      if a.Accept? && Decodes(c, s, a, a.t) && s.txs[a.t].master == m then a.t else Latest(c, run, acts, n - 1, m)
  }

  // A master's response record names it.
  ghost predicate RecordNames(s: State, m: nat, latest: int) {
    && m < |s.responseMap|
    && if latest == -1 then s.responseMap[m].state.TransInit?
       else !s.responseMap[m].state.TransInit? && s.responseMap[m].trans == latest
  }

  lemma RecordStep(c: Config, s: State, a: Action, m: nat, latest: int)
    requires Ready(c, s) && Enabled(c, s, a) && RecordNames(s, m, latest)
    ensures RecordNames(Next(c, s, a), m, if a.Accept? && Decodes(c, s, a, a.t) && s.txs[a.t].master == m then a.t else latest)
  {
  }

  lemma {:induction false} RecordIsLatest(c: Config, run: seq<State>, acts: seq<Action>, n: nat, m: nat)
    requires IsRun(c, run, acts) && n < |run| && m < MASTERS
    ensures RecordNames(run[n], m, Latest(c, run, acts, n, m))
    decreases n
  {
    if n > 0 {
      RecordIsLatest(c, run, acts, n - 1, m);
      StepOfRun(c, run, acts, n);
      RecordStep(c, run[n - 1], acts[n - 1], m, Latest(c, run, acts, n - 1, m));
    }
  }

  // ---------------------------------------------------------------------------------------
  // Where END_RESP goes

  // What handling END_RESP of t should send: END_RESP to its slave, none for the
  // configuration area, and the release.
  ghost function Home(c: Config, s: State, t: nat): seq<Event>
    requires t < |s.txs|
  {
    var slave := c.route(s.txs[t].address);
    (if slave == PNP_ID then [] else [EndResp(slave, t)]) + [Release(t)]
  }

  lemma SentIsHome(c: Config, s: State, t: nat)
    requires Placed(c, s) && t in s.endResponseQ
    ensures AfterEndResp(s, t).log == s.log + Home(c, s, t)
      <==> s.responseMap[s.txs[t].master].slave == c.route(s.txs[t].address)
  {
    PlacedAt(c, s, t);
    var slave := s.responseMap[s.txs[t].master].slave;
    var sent := (if slave == PNP_ID then [] else [EndResp(slave, t)]) + [Release(t)];
    assert AfterEndResp(s, t).log == s.log + sent;
    if s.log + sent == s.log + Home(c, s, t) {
      assert (s.log + sent)[|s.log|..] == sent && (s.log + Home(c, s, t))[|s.log|..] == Home(c, s, t);
      assert sent[0] == Home(c, s, t)[0];
    }
  }

  // In any run: END_RESP of t goes where BEGIN_REQ of t went if and only if the transaction
  // of its master that was decoded last is for the same slave.
  lemma EndRespHomeIff(c: Config, run: seq<State>, acts: seq<Action>, i: nat, t: nat)
    requires ValidConfig(c) && IsRun(c, run, acts) && i < |acts| && acts[i] == DeliverEndResp(t)
    ensures t < |run[i].txs|
    ensures var s := run[i];
      var latest := Latest(c, run, acts, i, s.txs[t].master);
      && 0 <= latest < |s.txs| && s.txs[latest].master == s.txs[t].master
      && (run[i + 1].log == s.log + Home(c, s, t) <==> c.route(s.txs[latest].address) == c.route(s.txs[t].address))
  {
    var s := run[i];
    RunsSafe(c, run, acts, i);
    StepOfRun(c, run, acts, i + 1);
    PlacedAt(c, s, t);
    RecordIsLatest(c, run, acts, i, s.txs[t].master);
    SentIsHome(c, s, t);
  }

  // ---------------------------------------------------------------------------------------
  // One transaction decoded at a time for each master

  // When a transaction is decoded, all those of its master decoded before have ended.
  ghost predicate DecodesInTurn(c: Config, s: State, a: Action) {
    forall t: nat, u: nat :: Decodes(c, s, a, t) && Decoded(s, u) && s.txs[u].master == s.txs[t].master ==> u in s.ended
  }

  ghost predicate IsTurnRun(c: Config, run: seq<State>, acts: seq<Action>) {
    IsRun(c, run, acts) && forall i :: 0 <= i < |acts| ==> DecodesInTurn(c, run[i], acts[i])
  }

  // What a master can do for its part: it issues only when it has been passed END_REQ of all
  // its earlier transactions and has sent their END_RESP.  (The bus may still have to handle
  // END_RESP when it decodes the new one.)
  ghost predicate IssuesInTurn(s: State, a: Action) {
    a.Issue? ==>
      forall t :: 0 <= t < |s.txs| && s.txs[t].master == a.payload.master ==>
                    t in s.endReqDone && (t in s.endResponseQ || t in s.ended)
  }

  ghost predicate IsPoliteRun(c: Config, run: seq<State>, acts: seq<Action>) {
    IsRun(c, run, acts) && forall i :: 0 <= i < |acts| ==> IssuesInTurn(run[i], acts[i])
  }

  // The record of a decoded transaction that has not ended is still there.
  ghost predicate KeepsRecord(s: State, t: nat)
    requires t < |s.txs|
  {
    Decoded(s, t) && t !in s.ended ==>
      s.txs[t].master < |s.responseMap| && s.responseMap[s.txs[t].master].trans == t
  }

  // END_RESP has gone, once, to the slave that got BEGIN_REQ, and to no other.
  ghost predicate EndRespHome(c: Config, s: State, t: nat)
    requires t < |s.txs|
  {
    forall slave :: Count(s.log, EndResp(slave, t))
      == B(t in s.ended && slave == c.route(s.txs[t].address) && slave != PNP_ID)
  }

  ghost predicate InTurn(c: Config, s: State) {
    && s.lost == {}
    && (forall t :: 0 <= t < |s.txs| ==> KeepsRecord(s, t))
    && (forall t :: 0 <= t < |s.txs| ==> EndRespHome(c, s, t))
  }

  lemma EndRespCount(c: Config, s: State, a: Action, slave: int, t: nat)
    requires Placed(c, s) && Enabled(c, s, a)
    ensures Count(Next(c, s, a).log, EndResp(slave, t)) == Count(s.log, EndResp(slave, t))
      + B(a.DeliverEndResp? && a.t == t && slave == s.responseMap[s.txs[t].master].slave && slave != PNP_ID)
  {
    var e := EndResp(slave, t);
    match a
    case Arbitrate(early) =>
      if GuardOpen(s) && Pick(c, s) >= 0 {
        PickIsPending(c, s);
        GrantCount(c, s, Pick(c, s), early, e);
      }
    case DeliverEndReq(u) =>
      var p := s.txs[u];
      CountAfter(s.log, Snoop(p.master, p.address, p.length), EndReq(s.requestMap[p.master].master, u), e);
    case DeliverBeginResp(u, _) =>
      CountAppend(s.log, BeginResp(s.responseMap[s.txs[u].master].master, u), e);
    case DeliverEndResp(u) =>
      CountAfter(s.log, EndResp(s.responseMap[s.txs[u].master].slave, u), Release(u), e);
    case _ =>
  }

  lemma EndRespHomeKept(c: Config, s: State, a: Action, t: nat)
    requires Placed(c, s) && Enabled(c, s, a) && t < |s.txs| && EndRespHome(c, s, t) && KeepsRecord(s, t)
    ensures EndRespHome(c, Next(c, s, a), t)
  {
    var n := Next(c, s, a);
    PlacedAt(c, s, t);
    forall slave: int
      ensures Count(n.log, EndResp(slave, t)) == B(t in n.ended && slave == c.route(s.txs[t].address) && slave != PNP_ID)
    {
      EndRespCount(c, s, a, slave, t);
    }
  }

  // Nothing has been sent for a transaction that is yet to be issued.
  lemma IssueHome(c: Config, s: State, p: Payload)
    requires Placed(c, s) && AllGenuine(c, s)
    ensures EndRespHome(c, AfterIssue(s, p), |s.txs|)
  {
    var t := |s.txs|;
    forall slave: int ensures Count(s.log, EndResp(slave, t)) == 0 {
      assert EndResp(slave, t) in s.log ==> Genuine(c, s, EndResp(slave, t));
      CountAbsent(s.log, EndResp(slave, t));
    }
  }

  lemma AcceptKeepsRecord(c: Config, s: State, u: nat, t: nat)
    requires Placed(c, s) && u in s.acceptQ && DecodesInTurn(c, s, Accept(u))
    requires t < |s.txs| && KeepsRecord(s, t)
    ensures KeepsRecord(AfterAccept(c, s, u), t)
  {
    PlacedAt(c, s, t);
    PlacedAt(c, s, u);
    if c.route(s.txs[u].address) >= 0 {
      assert Decodes(c, s, Accept(u), u);
    }
  }

  lemma RecordKept(c: Config, s: State, a: Action, t: nat)
    requires Placed(c, s) && Enabled(c, s, a) && DecodesInTurn(c, s, a) && t < |s.txs| && KeepsRecord(s, t)
    ensures KeepsRecord(Next(c, s, a), t)
  {
    match a
    case Accept(u) => AcceptKeepsRecord(c, s, u, t);
    case Arbitrate(_) => PickIsPending(c, s);
    case _ =>
  }

  // No transaction waits for arbitration when its master's next one is decoded.
  lemma NothingLost(c: Config, s: State, a: Action)
    requires Placed(c, s) && Enabled(c, s, a) && DecodesInTurn(c, s, a) && s.lost == {}
    ensures Next(c, s, a).lost == {}
  {
    match a
    case Accept(t) =>
      var m := s.txs[t].master;
      if c.route(s.txs[t].address) >= 0 && Pending(s.requestMap, m) {
        var u := s.requestMap[m].trans;
        PlacedAt(c, s, t);
        PlacedAt(c, s, u);
        assert Recorded(c, s, m) && IsPending(s, u);
        assert Decodes(c, s, a, t) && Decoded(s, u);
      }
    case Arbitrate(_) => PickIsPending(c, s);
    case _ =>
  }

  lemma InTurnKept(c: Config, s: State, a: Action)
    requires Placed(c, s) && AllGenuine(c, s) && InTurn(c, s) && Enabled(c, s, a) && DecodesInTurn(c, s, a)
    ensures InTurn(c, Next(c, s, a))
  {
    var n := Next(c, s, a);
    NothingLost(c, s, a);
    forall t: nat | t < |n.txs| ensures EndRespHome(c, n, t) && KeepsRecord(n, t) {
      if t < |s.txs| {
        assert EndRespHome(c, s, t) && KeepsRecord(s, t);
        EndRespHomeKept(c, s, a, t);
        RecordKept(c, s, a, t);
      } else {
        IssueHome(c, s, a.payload);
      }
    }
  }

  lemma InTurnNext(c: Config, s: State, a: Action, n: State)
    requires Placed(c, s) && AllGenuine(c, s) && InTurn(c, s) && IsStep(c, s, a, n) && DecodesInTurn(c, s, a)
    ensures InTurn(c, n)
  {
    InTurnKept(c, s, a);
  }

  lemma StepOfTurnRun(c: Config, run: seq<State>, acts: seq<Action>, i: nat)
    requires IsTurnRun(c, run, acts) && i < |acts|
    ensures IsStep(c, run[i], acts[i], run[i + 1]) && DecodesInTurn(c, run[i], acts[i])
  {
    StepOfRun(c, run, acts, i + 1);
  }

  lemma InTurnStep(c: Config, run: seq<State>, acts: seq<Action>, i: nat)
    requires ValidConfig(c) && IsTurnRun(c, run, acts) && i < |acts| && InTurn(c, run[i])
    ensures InTurn(c, run[i + 1])
  {
    RunsPlaced(c, run, acts, i);
    StepOfTurnRun(c, run, acts, i);
    InTurnNext(c, run[i], acts[i], run[i + 1]);
  }

  // If no transaction is decoded before all earlier ones of its master have ended, then in
  // every state of every run no transaction is lost, and END_RESP of each goes once to the
  // slave that got its BEGIN_REQ, or to no slave if it read the configuration area.
  lemma {:induction false} TurnRunsSafe(c: Config, run: seq<State>, acts: seq<Action>, i: nat)
    requires ValidConfig(c) && IsTurnRun(c, run, acts) && i < |run|
    ensures InTurn(c, run[i])
    decreases i
  {
    if i > 0 {
      TurnRunsSafe(c, run, acts, i - 1);
      InTurnStep(c, run, acts, i - 1);
    }
  }

  // ---------------------------------------------------------------------------------------
  // Lost transactions

  // Between steps i and j, t was decoded, then another transaction of its master, and t had
  // not been granted by then.
  ghost predicate Overtaken(c: Config, run: seq<State>, acts: seq<Action>, t: nat, i: nat, j: nat)
    requires i < j < |acts| < |run|
  {
    && Decodes(c, run[i], acts[i], t)
    && acts[j].Accept? && Decodes(c, run[j], acts[j], acts[j].t)
    && t < |run[j].txs| && run[j].txs[acts[j].t].master == run[j].txs[t].master
    && t !in run[j].granted
  }

  // A step loses exactly the pending transaction of the master whose next one it decodes.
  lemma LostStep(c: Config, s: State, a: Action, t: nat)
    requires Placed(c, s) && Enabled(c, s, a)
    ensures t in Next(c, s, a).lost
      <==> t in s.lost
           || (a.Accept? && Decodes(c, s, a, a.t) && t < |s.txs| && s.txs[a.t].master == s.txs[t].master && IsPending(s, t))
  {
    match a
    case Accept(u) =>
      var m := s.txs[u].master;
      if Pending(s.requestMap, m) {
        assert Recorded(c, s, m);
      }
    case Arbitrate(_) => PickIsPending(c, s);
    case _ =>
  }

  // From its decoding on a transaction is pending, lost or granted.
  lemma {:induction false} DecodedStays(c: Config, run: seq<State>, acts: seq<Action>, t: nat, i: nat, n: nat)
    requires ValidConfig(c) && IsRun(c, run, acts) && i < n < |run| && Decodes(c, run[i], acts[i], t)
    ensures Decoded(run[n], t)
    decreases n
  {
    StepOfRun(c, run, acts, n);
    if n == i + 1 {
      RunsSafe(c, run, acts, i);
      PlacedAt(c, run[i], t);
    } else {
      DecodedStays(c, run, acts, t, i, n - 1);
    }
    DecodedStep(c, run[n - 1], acts[n - 1], t);
  }

  // Step j loses t.
  ghost predicate LostAt(c: Config, run: seq<State>, acts: seq<Action>, j: nat, t: nat)
    requires j < |acts| < |run|
  {
    var s, a := run[j], acts[j];
    && a.Accept? && Decodes(c, s, a, a.t)
    && t < |s.txs| && s.txs[a.t].master == s.txs[t].master && IsPending(s, t)
  }

  lemma LostStepOfRun(c: Config, run: seq<State>, acts: seq<Action>, n: nat, t: nat)
    requires ValidConfig(c) && IsRun(c, run, acts) && 0 < n < |run|
    ensures t in run[n].lost <==> t in run[n - 1].lost || LostAt(c, run, acts, n - 1, t)
  {
    RunsSafe(c, run, acts, n - 1);
    StepOfRun(c, run, acts, n);
    LostStep(c, run[n - 1], acts[n - 1], t);
  }

  ghost predicate OvertakenBefore(c: Config, run: seq<State>, acts: seq<Action>, t: nat, n: nat)
    requires n < |run| == |acts| + 1
  {
    exists i: nat, j: nat :: i < j < n && Overtaken(c, run, acts, t, i, j)
  }

  // In any run: a transaction is lost if and only if another of its master was decoded after
  // it and before it was granted.
  lemma {:induction false} LostIff(c: Config, run: seq<State>, acts: seq<Action>, n: nat, t: nat)
    requires ValidConfig(c) && IsRun(c, run, acts) && n < |run|
    ensures t in run[n].lost <==> OvertakenBefore(c, run, acts, t, n)
    decreases n
  {
    if n > 0 {
      LostIff(c, run, acts, n - 1, t);
      LostStepOfRun(c, run, acts, n, t);
      if LostAt(c, run, acts, n - 1, t) {
        LostIsOvertaken(c, run, acts, n - 1, t);
      }
      forall i: nat, j: nat | i < j < n && Overtaken(c, run, acts, t, i, j) ensures t in run[n].lost {
        if j == n - 1 {
          OvertakenIsLost(c, run, acts, i, j, t);
        }
      }
    }
  }

  lemma LostIsOvertaken(c: Config, run: seq<State>, acts: seq<Action>, j: nat, t: nat)
    requires ValidConfig(c) && IsRun(c, run, acts) && j < |acts| && LostAt(c, run, acts, j, t)
    ensures exists i: nat :: i < j && Overtaken(c, run, acts, t, i, j)
  {
    RunsSafe(c, run, acts, j);
    PlacedAt(c, run[j], t);
    var i := DecodedSince(c, run, acts, j, t);
    assert Overtaken(c, run, acts, t, i, j);
  }

  lemma OvertakenIsLost(c: Config, run: seq<State>, acts: seq<Action>, i: nat, j: nat, t: nat)
    requires ValidConfig(c) && IsRun(c, run, acts) && i < j < |acts| && Overtaken(c, run, acts, t, i, j)
    ensures t in run[j + 1].lost
  {
    DecodedStays(c, run, acts, t, i, j);
    LostStepOfRun(c, run, acts, j + 1, t);
    RunsSafe(c, run, acts, j);
    PlacedAt(c, run[j], t);
  }

  // Nothing has been done for t, and the bus still holds it.
  ghost predicate Forgotten(c: Config, s: State, t: nat) {
    && t < |s.txs| == |s.refs|
    && t !in s.granted && t !in s.ended
    && s.refs[t] == 1
    && var p := s.txs[t];
       && Count(s.log, Granted(p.master, t, p.lock)) == Count(s.log, BeginReq(c.route(p.address), t)) == 0
       && Count(s.log, EndReq(p.master, t)) == Count(s.log, BeginResp(p.master, t)) == Count(s.log, Release(t)) == 0
  }

  lemma StrandedIsForgotten(c: Config, run: seq<State>, acts: seq<Action>, n: nat, t: nat)
    requires ValidConfig(c) && IsRun(c, run, acts) && n < |run| && (t in run[n].lost || t in run[n].dropped)
    ensures Forgotten(c, run[n], t)
  {
    RunsSafe(c, run, acts, n);
    PlacedAt(c, run[n], t);
    assert Once(c, run[n], t);
  }

  // A lost transaction is never granted, in no continuation of the run: its master gets
  // neither END_REQ nor BEGIN_RESP, and its reference is never released.
  lemma {:induction false} LostForever(c: Config, run: seq<State>, acts: seq<Action>, i: nat, n: nat, t: nat)
    requires ValidConfig(c) && IsRun(c, run, acts) && i <= n < |run| && t in run[i].lost
    ensures t in run[n].lost && Forgotten(c, run[n], t)
    decreases n
  {
    if i < n {
      LostForever(c, run, acts, i, n - 1, t);
      LostStepOfRun(c, run, acts, n, t);
    }
    StrandedIsForgotten(c, run, acts, n, t);
  }

  lemma DroppedStep(c: Config, s: State, a: Action, t: nat)
    requires Ready(c, s) && Enabled(c, s, a) && t in s.dropped
    ensures t in Next(c, s, a).dropped
  {
  }

  // Nor is one whose address decodes to nothing.
  lemma {:induction false} DroppedForever(c: Config, run: seq<State>, acts: seq<Action>, i: nat, n: nat, t: nat)
    requires ValidConfig(c) && IsRun(c, run, acts) && i <= n < |run| && t in run[i].dropped
    ensures t in run[n].dropped && Forgotten(c, run[n], t)
    decreases n
  {
    if i < n {
      DroppedForever(c, run, acts, i, n - 1, t);
      StepOfRun(c, run, acts, n);
      DroppedStep(c, run[n - 1], acts[n - 1], t);
    }
    StrandedIsForgotten(c, run, acts, n, t);
  }

  // ---------------------------------------------------------------------------------------
  // Masters that wait for END_REQ lose nothing

  // A master issues only when it has been passed END_REQ of all its earlier transactions,
  // whatever has become of their responses.
  ghost predicate IssuesAfterEndReq(s: State, a: Action) {
    a.Issue? ==>
      forall t :: 0 <= t < |s.txs| && s.txs[t].master == a.payload.master ==> t in s.endReqDone
  }

  ghost predicate IsExclusiveRun(c: Config, run: seq<State>, acts: seq<Action>) {
    IsRun(c, run, acts) && forall i :: 0 <= i < |acts| ==> IssuesAfterEndReq(run[i], acts[i])
  }

  // The other transactions of its master have been granted.
  ghost predicate OthersGranted(s: State, t: nat)
    requires t < |s.txs|
  {
    forall u :: 0 <= u < |s.txs| && u != t && s.txs[u].master == s.txs[t].master ==> u in s.granted
  }

  // Nothing is lost, and while a transaction waits to be decoded its master has no other
  // that waits for its grant.
  ghost predicate NoneOvertaken(s: State) {
    s.lost == {} && forall t :: 0 <= t < |s.txs| && t in s.acceptQ ==> OthersGranted(s, t)
  }

  lemma NoneLostStep(c: Config, s: State, a: Action)
    requires Placed(c, s) && Enabled(c, s, a) && NoneOvertaken(s)
    ensures Next(c, s, a).lost == {}
  {
    forall t: nat ensures t !in Next(c, s, a).lost {
      LostStep(c, s, a, t);
      if t < |s.txs| && a.Accept? {
        PlacedAt(c, s, t);
        PlacedAt(c, s, a.t);
        assert OthersGranted(s, a.t);
      }
    }
  }

  lemma IssueOthersGranted(c: Config, s: State, p: Payload, t: nat)
    requires Placed(c, s) && NoneOvertaken(s) && IssuesAfterEndReq(s, Issue(p))
    requires t <= |s.txs| && t in AfterIssue(s, p).acceptQ
    ensures OthersGranted(AfterIssue(s, p), t)
  {
    var n := AfterIssue(s, p);
    forall u: nat | u < |n.txs| && u != t && n.txs[u].master == n.txs[t].master ensures u in n.granted {
      if u < |s.txs| {
        PlacedAt(c, s, u);
      }
      if t < |s.txs| {
        PlacedAt(c, s, t);
        assert OthersGranted(s, t);
      }
    }
  }

  lemma OthersGrantedKept(c: Config, s: State, a: Action, t: nat)
    requires Ready(c, s) && Enabled(c, s, a) && !a.Issue?
    requires t < |s.txs| && t in Next(c, s, a).acceptQ && (t in s.acceptQ ==> OthersGranted(s, t))
    ensures OthersGranted(Next(c, s, a), t)
  {
  }

  lemma NoneOvertakenKept(c: Config, s: State, a: Action)
    requires Placed(c, s) && NoneOvertaken(s) && Enabled(c, s, a) && IssuesAfterEndReq(s, a)
    ensures NoneOvertaken(Next(c, s, a))
  {
    var n := Next(c, s, a);
    NoneLostStep(c, s, a);
    forall t: nat | t < |n.txs| && t in n.acceptQ ensures OthersGranted(n, t) {
      if a.Issue? {
        IssueOthersGranted(c, s, a.payload, t);
      } else {
        OthersGrantedKept(c, s, a, t);
      }
    }
  }

  lemma ExclusiveStep(c: Config, run: seq<State>, acts: seq<Action>, i: nat)
    requires ValidConfig(c) && IsExclusiveRun(c, run, acts) && 0 < i < |run| && NoneOvertaken(run[i - 1])
    ensures NoneOvertaken(run[i])
  {
    RunsPlaced(c, run, acts, i - 1);
    StepOfRun(c, run, acts, i);
    assert IssuesAfterEndReq(run[i - 1], acts[i - 1]);
    NoneOvertakenKept(c, run[i - 1], acts[i - 1]);
  }

  // If every master waits for END_REQ of a transaction before it issues the next, nothing
  // is lost in any run.
  lemma {:induction false} ExclusiveRunsLoseNone(c: Config, run: seq<State>, acts: seq<Action>, i: nat)
    requires ValidConfig(c) && IsExclusiveRun(c, run, acts) && i < |run|
    ensures NoneOvertaken(run[i])
    decreases i
  {
    if i > 0 {
      ExclusiveRunsLoseNone(c, run, acts, i - 1);
      ExclusiveStep(c, run, acts, i);
    }
  }

  // So it is when masters do all they can, although END_RESP may still go astray.
  lemma PoliteRunsLoseNone(c: Config, run: seq<State>, acts: seq<Action>, i: nat)
    requires ValidConfig(c) && IsPoliteRun(c, run, acts) && i < |run|
    ensures run[i].lost == {}
  {
    forall k | 0 <= k < |acts| ensures IssuesAfterEndReq(run[k], acts[k]) { assert IssuesInTurn(run[k], acts[k]); }
    ExclusiveRunsLoseNone(c, run, acts, i);
  }
}
