/** Concrete runs on which the approximately-timed bus does not keep what one might expect. */
module AtWitnesses {
  import opened Bus
  import opened AtProtocol
  import opened AtSafety
  import opened AtRuns
  import opened AtRouting
  import opened AtTheorems

  // Addresses below 0x8000_0000 belong to slave 0, those below 0xFFFF_F000 to slave 1, the
  // rest is the configuration area.
  ghost function Route(a: Address): int {
    if a < 0x8000_0000 then 0 else if a < 0xFFFF_F000 then 1 else PNP_ID
  }

  ghost const ONE_MASTER := Config(1, false, (a: Address) => Route(a))

  const AREA_READ := Payload(0, 0xFFFF_F000, Read, 32, false)
  const READ_0 := Payload(0, 0x4000_0000, Read, 4, false)
  const READ_1 := Payload(0, 0x8000_0000, Read, 4, false)

  // A run of the one master in which END_REQ and END_RESP come in order and the master, or
  // the decoder, takes turns, as far as that is asked for.
  ghost predicate Witness(run: seq<State>, acts: seq<Action>, ordered: bool, polite: bool, turn: bool) {
    && IsRun(ONE_MASTER, run, acts)
    && (ordered ==> IsOrderedRun(ONE_MASTER, run, acts))
    && (polite ==> IsPoliteRun(ONE_MASTER, run, acts))
    && (turn ==> IsTurnRun(ONE_MASTER, run, acts))
  }

  lemma Begin(ordered: bool, polite: bool, turn: bool)
    ensures Witness([Init()], [], ordered, polite, turn)
  {
  }

  lemma ExtendRun(run: seq<State>, acts: seq<Action>, s: State, a: Action, n: State)
    requires IsRun(ONE_MASTER, run, acts) && run[|acts|] == s && IsStep(ONE_MASTER, s, a, n)
    ensures IsRun(ONE_MASTER, run + [n], acts + [a])
  {
    var r, b := run + [n], acts + [a];
    forall i: nat | i < |b| ensures StepAt(ONE_MASTER, r, b, i) {
      if i < |acts| {
        assert StepAt(ONE_MASTER, run, acts, i);
      }
    }
  }

  // A run that goes on by one step.
  lemma Extend(run: seq<State>, acts: seq<Action>, s: State, a: Action, n: State, ordered: bool, polite: bool, turn: bool)
    requires Witness(run, acts, ordered, polite, turn) && run[|acts|] == s && IsStep(ONE_MASTER, s, a, n)
    requires ordered ==> InOrder(s, a)
    requires polite ==> IssuesInTurn(s, a)
    requires turn ==> DecodesInTurn(ONE_MASTER, s, a)
    ensures Witness(run + [n], acts + [a], ordered, polite, turn)
    ensures |run + [n]| == |acts + [a]| + 1 && (run + [n])[|acts + [a]|] == n
  {
    ExtendRun(run, acts, s, a, n);
    var r, b := run + [n], acts + [a];
    forall i: nat | i < |b|
      ensures ordered ==> InOrder(r[i], b[i])
      ensures polite ==> IssuesInTurn(r[i], b[i])
      ensures turn ==> DecodesInTurn(ONE_MASTER, r[i], b[i])
    {
      if i < |acts| {
        assert r[i] == run[i] && b[i] == acts[i];
      }
    }
  }

  // ---------------------------------------------------------------------------------------
  // Master 0 issues p; it is decoded and granted

  ghost function Issued(p: Payload): State {
    Init().(txs := [p], refs := [1], acceptQ := {0})
  }

  ghost function DecodedState(p: Payload): State {
    var r := Connection(0, Route(p.address), TransPending, 0);
    Issued(p).(acceptQ := {}, requestMap := Init().requestMap[0 := r], responseMap := Init().responseMap[0 := r])
  }

  ghost function InGrant(p: Payload): State {
    var r := Connection(0, Route(p.address), TransScheduled, 0);
    DecodedState(p).(requestMap := Init().requestMap[0 := r], owner := 0, isLock := p.lock, granted := {0})
  }

  lemma IssueStep(p: Payload)
    requires p.master == 0
    ensures IsStep(ONE_MASTER, Init(), Issue(p), Issued(p)) && IssuesInTurn(Init(), Issue(p))
  {
  }

  lemma DecodeStep(p: Payload)
    requires p.master == 0
    ensures IsStep(ONE_MASTER, Issued(p), Accept(0), DecodedState(p))
    ensures DecodesInTurn(ONE_MASTER, Issued(p), Accept(0))
  {
    var n := AfterAccept(ONE_MASTER, Issued(p), 0);
    assert n.acceptQ == {} && n.lost == {};
  }

  lemma PickZero(p: Payload)
    ensures Pick(ONE_MASTER, DecodedState(p)) == 0 && Pending(DecodedState(p).requestMap, 0)
  {
    var table := DecodedState(p).requestMap;
    PriorityPickIsHighest(table, MASTERS);
    assert Pending(table, 0);
    assert forall m :: 0 < m < MASTERS ==> table[m] == NO_CONNECTION;
  }

  lemma DecodedRun(p: Payload, ordered: bool, polite: bool, turn: bool) returns (run: seq<State>, acts: seq<Action>)
    requires p.master == 0
    ensures Witness(run, acts, ordered, polite, turn) && run[|acts|] == DecodedState(p)
  {
    Begin(ordered, polite, turn);
    IssueStep(p);
    Extend([Init()], [], Init(), Issue(p), Issued(p), ordered, polite, turn);
    run, acts := [Init()] + [Issued(p)], [] + [Issue(p)];
    DecodeStep(p);
    Extend(run, acts, Issued(p), Accept(0), DecodedState(p), ordered, polite, turn);
    run, acts := run + [DecodedState(p)], acts + [Accept(0)];
  }

  // ---------------------------------------------------------------------------------------
  // A long read of the configuration area

  // The arbiter itself queues END_REQ and BEGIN_RESP.
  ghost function AreaGranted(): State {
    InGrant(AREA_READ).(requestQ := {0}, responseQ := {0}, log := [Granted(0, 0, false)])
  }

  ghost function AreaResponding(): State {
    AreaGranted().(responseQ := {}, dataBus := Response, owesEndResp := {0},
      log := [Granted(0, 0, false), BeginResp(0, 0)])
  }

  ghost function AreaReplied(): State {
    AreaResponding().(owesEndResp := {}, endResponseQ := {0})
  }

  ghost function AreaEnded(): State {
    AreaReplied().(endResponseQ := {}, dataBus := Idle, refs := [0], ended := {0},
      log := [Granted(0, 0, false), BeginResp(0, 0), Release(0)])
  }

  ghost function AreaWedged(): State {
    AreaEnded().(requestQ := {}, owner := -1, dataBus := WaitStates, endReqDone := {0},
      log := [Granted(0, 0, false), BeginResp(0, 0), Release(0), EndReq(0, 0)])
  }

  lemma AreaGrantIs()
    requires Ready(ONE_MASTER, DecodedState(AREA_READ)) && Pending(DecodedState(AREA_READ).requestMap, 0)
    ensures AfterGrant(ONE_MASTER, DecodedState(AREA_READ), 0, false) == AreaGranted()
  {
    var n := AfterGrant(ONE_MASTER, DecodedState(AREA_READ), 0, false);
    assert n.requestQ == {0} && n.responseQ == {0} && n.granted == {0};
    assert n.log == [Granted(0, 0, false)];
    assert n.requestMap == InGrant(AREA_READ).requestMap;
  }

  lemma AreaGrantStep()
    ensures IsStep(ONE_MASTER, DecodedState(AREA_READ), Arbitrate(false), AreaGranted())
  {
    PickZero(AREA_READ);
    AreaGrantIs();
  }

  lemma AreaRespondStep()
    ensures IsStep(ONE_MASTER, AreaGranted(), DeliverBeginResp(0, false), AreaResponding())
  {
    assert AfterBeginResp(AreaGranted(), 0, false) == AreaResponding();
  }

  lemma AreaReplyStep()
    ensures IsStep(ONE_MASTER, AreaResponding(), MasterEndResp(0), AreaReplied())
  {
  }

  lemma AreaEndStep()
    ensures IsStep(ONE_MASTER, AreaReplied(), DeliverEndResp(0), AreaEnded())
  {
    assert AfterEndResp(AreaReplied(), 0) == AreaEnded();
  }

  lemma AreaWedgeStep()
    ensures IsStep(ONE_MASTER, AreaEnded(), DeliverEndReq(0), AreaWedged())
  {
    assert AfterEndReq(AreaEnded(), 0) == AreaWedged();
  }

  lemma AreaGrantedRun() returns (run: seq<State>, acts: seq<Action>)
    ensures Witness(run, acts, false, true, true) && run[|acts|] == AreaGranted()
  {
    run, acts := DecodedRun(AREA_READ, false, true, true);
    AreaGrantStep();
    Extend(run, acts, DecodedState(AREA_READ), Arbitrate(false), AreaGranted(), false, true, true);
    run, acts := run + [AreaGranted()], acts + [Arbitrate(false)];
  }

  lemma AreaRepliedRun() returns (run: seq<State>, acts: seq<Action>)
    ensures Witness(run, acts, false, true, true) && run[|acts|] == AreaReplied()
  {
    run, acts := AreaGrantedRun();
    AreaRespondStep();
    Extend(run, acts, AreaGranted(), DeliverBeginResp(0, false), AreaResponding(), false, true, true);
    run, acts := run + [AreaResponding()], acts + [DeliverBeginResp(0, false)];
    AreaReplyStep();
    Extend(run, acts, AreaResponding(), MasterEndResp(0), AreaReplied(), false, true, true);
    run, acts := run + [AreaReplied()], acts + [MasterEndResp(0)];
  }

  // A read of the configuration area whose END_REQ is handled after its END_RESP, as can
  // happen when it is long (its END_REQ is delayed by a clock for each word, its BEGIN_RESP
  // by one clock): nothing is under way any more, but the bus is dead from then on.
  lemma LateEndReqWedges() returns (run: seq<State>, acts: seq<Action>)
    ensures IsTurnRun(ONE_MASTER, run, acts) && IsPoliteRun(ONE_MASTER, run, acts)
    ensures var s := run[|acts|];
      s.granted == s.endReqDone == s.ended == {0} && Quiescent(s) && !GuardOpen(s)
  {
    run, acts := AreaRepliedRun();
    AreaEndStep();
    Extend(run, acts, AreaReplied(), DeliverEndResp(0), AreaEnded(), false, true, true);
    run, acts := run + [AreaEnded()], acts + [DeliverEndResp(0)];
    AreaWedgeStep();
    Extend(run, acts, AreaEnded(), DeliverEndReq(0), AreaWedged(), false, true, true);
    run, acts := run + [AreaWedged()], acts + [DeliverEndReq(0)];
  }

  // ---------------------------------------------------------------------------------------
  // Two transactions of one master, for two slaves

  const GRANT := [Granted(0, 0, false), BeginReq(0, 0)]
  const ANSWERED := GRANT + [EndReq(0, 0), BeginResp(0, 0)]

  ghost function SlaveGranted(): State {
    InGrant(READ_0).(owesEndReq := {0}, owesBeginResp := {0}, log := GRANT)
  }

  ghost function RequestSent(): State {
    SlaveGranted().(owesEndReq := {}, requestQ := {0})
  }

  ghost function RequestDone(): State {
    RequestSent().(requestQ := {}, owner := -1, dataBus := WaitStates, endReqDone := {0}, log := GRANT + [EndReq(0, 0)])
  }

  ghost function ResponseSent(): State {
    RequestDone().(owesBeginResp := {}, responseQ := {0})
  }

  ghost function Responding(): State {
    ResponseSent().(responseQ := {}, dataBus := Response, owesEndResp := {0}, log := ANSWERED)
  }

  ghost function Replied(): State {
    Responding().(owesEndResp := {}, endResponseQ := {0})
  }

  ghost function SecondIssued(): State {
    Replied().(txs := [READ_0, READ_1], refs := [1, 1], acceptQ := {1})
  }

  ghost function SecondDecoded(): State {
    var r := Connection(0, 1, TransPending, 1);
    SecondIssued().(acceptQ := {}, requestMap := Init().requestMap[0 := r], responseMap := Init().responseMap[0 := r])
  }

  ghost function FirstEnded(): State {
    SecondDecoded().(endResponseQ := {}, dataBus := Idle, refs := [0, 1], ended := {0},
      log := ANSWERED + [EndResp(1, 0), Release(0)])
  }

  lemma SlaveGrantIs()
    requires Ready(ONE_MASTER, DecodedState(READ_0)) && Pending(DecodedState(READ_0).requestMap, 0)
    ensures AfterGrant(ONE_MASTER, DecodedState(READ_0), 0, false) == SlaveGranted()
  {
    var n := AfterGrant(ONE_MASTER, DecodedState(READ_0), 0, false);
    assert n.owesEndReq == {0} && n.owesBeginResp == {0} && n.granted == {0};
    assert n.log == GRANT;
    assert n.requestMap == InGrant(READ_0).requestMap;
  }

  lemma SlaveGrantStep()
    ensures IsStep(ONE_MASTER, DecodedState(READ_0), Arbitrate(false), SlaveGranted())
  {
    PickZero(READ_0);
    SlaveGrantIs();
  }

  lemma RequestStep()
    ensures IsStep(ONE_MASTER, SlaveGranted(), SlaveEndReq(0), RequestSent())
  {
  }

  lemma RequestDoneStep()
    ensures IsStep(ONE_MASTER, RequestSent(), DeliverEndReq(0), RequestDone())
  {
    assert AfterEndReq(RequestSent(), 0) == RequestDone();
  }

  lemma ResponseStep()
    ensures IsStep(ONE_MASTER, RequestDone(), SlaveBeginResp(0), ResponseSent())
  {
  }

  lemma RespondStep()
    ensures IsStep(ONE_MASTER, ResponseSent(), DeliverBeginResp(0, false), Responding())
  {
    assert AfterBeginResp(ResponseSent(), 0, false) == Responding();
  }

  lemma ReplyStep()
    ensures IsStep(ONE_MASTER, Responding(), MasterEndResp(0), Replied())
  {
  }

  lemma SecondIssueStep()
    ensures IsStep(ONE_MASTER, Replied(), Issue(READ_1), SecondIssued()) && IssuesInTurn(Replied(), Issue(READ_1))
  {
    assert AfterIssue(Replied(), READ_1) == SecondIssued();
  }

  lemma SecondDecodeStep()
    ensures IsStep(ONE_MASTER, SecondIssued(), Accept(1), SecondDecoded())
  {
    var n := AfterAccept(ONE_MASTER, SecondIssued(), 1);
    assert n.acceptQ == {} && n.lost == {};
    assert n.requestMap == SecondDecoded().requestMap;
  }

  lemma AstrayStep()
    ensures IsStep(ONE_MASTER, SecondDecoded(), DeliverEndResp(0), FirstEnded())
  {
    assert AfterEndResp(SecondDecoded(), 0) == FirstEnded();
  }

  lemma SlaveGrantedRun() returns (run: seq<State>, acts: seq<Action>)
    ensures Witness(run, acts, true, true, false) && run[|acts|] == SlaveGranted()
  {
    run, acts := DecodedRun(READ_0, true, true, false);
    SlaveGrantStep();
    Extend(run, acts, DecodedState(READ_0), Arbitrate(false), SlaveGranted(), true, true, false);
    run, acts := run + [SlaveGranted()], acts + [Arbitrate(false)];
  }

  lemma RequestDoneRun() returns (run: seq<State>, acts: seq<Action>)
    ensures Witness(run, acts, true, true, false) && run[|acts|] == RequestDone()
  {
    run, acts := SlaveGrantedRun();
    RequestStep();
    Extend(run, acts, SlaveGranted(), SlaveEndReq(0), RequestSent(), true, true, false);
    run, acts := run + [RequestSent()], acts + [SlaveEndReq(0)];
    RequestDoneStep();
    Extend(run, acts, RequestSent(), DeliverEndReq(0), RequestDone(), true, true, false);
    run, acts := run + [RequestDone()], acts + [DeliverEndReq(0)];
  }

  lemma RespondingRun() returns (run: seq<State>, acts: seq<Action>)
    ensures Witness(run, acts, true, true, false) && run[|acts|] == Responding()
  {
    run, acts := RequestDoneRun();
    ResponseStep();
    Extend(run, acts, RequestDone(), SlaveBeginResp(0), ResponseSent(), true, true, false);
    run, acts := run + [ResponseSent()], acts + [SlaveBeginResp(0)];
    RespondStep();
    Extend(run, acts, ResponseSent(), DeliverBeginResp(0, false), Responding(), true, true, false);
    run, acts := run + [Responding()], acts + [DeliverBeginResp(0, false)];
  }

  lemma SecondIssuedRun() returns (run: seq<State>, acts: seq<Action>)
    ensures Witness(run, acts, true, true, false) && run[|acts|] == SecondIssued()
  {
    run, acts := RespondingRun();
    ReplyStep();
    Extend(run, acts, Responding(), MasterEndResp(0), Replied(), true, true, false);
    run, acts := run + [Replied()], acts + [MasterEndResp(0)];
    SecondIssueStep();
    Extend(run, acts, Replied(), Issue(READ_1), SecondIssued(), true, true, false);
    run, acts := run + [SecondIssued()], acts + [Issue(READ_1)];
  }

  lemma SecondDecodedRun() returns (run: seq<State>, acts: seq<Action>)
    ensures Witness(run, acts, true, true, false) && run[|acts|] == SecondDecoded()
  {
    run, acts := SecondIssuedRun();
    SecondDecodeStep();
    Extend(run, acts, SecondIssued(), Accept(1), SecondDecoded(), true, true, false);
    run, acts := run + [SecondDecoded()], acts + [Accept(1)];
  }

  // A master issues its second transaction when it has been passed END_REQ of the first and
  // has sent END_RESP; the bus decodes the second before it handles that END_RESP.  END_RESP
  // of the first, whose BEGIN_REQ went to slave 0, is sent to slave 1.
  lemma RacingEndRespAstray() returns (run: seq<State>, acts: seq<Action>)
    ensures IsOrderedRun(ONE_MASTER, run, acts) && IsPoliteRun(ONE_MASTER, run, acts)
    ensures var log := run[|acts|].log;
      BeginReq(0, 0) in log && EndResp(1, 0) in log && EndResp(0, 0) !in log
  {
    run, acts := SecondDecodedRun();
    AstrayStep();
    Extend(run, acts, SecondDecoded(), DeliverEndResp(0), FirstEnded(), true, true, false);
    run, acts := run + [FirstEnded()], acts + [DeliverEndResp(0)];
    assert FirstEnded().log[4] == EndResp(1, 0) && FirstEnded().log[1] == BeginReq(0, 0);
  }

  // ---------------------------------------------------------------------------------------
  // Two transactions of one master, the second decoded before the first is granted

  ghost function OtherIssued(): State {
    DecodedState(READ_0).(txs := [READ_0, READ_1], refs := [1, 1], acceptQ := {1})
  }

  ghost function FirstLost(): State {
    var r := Connection(0, 1, TransPending, 1);
    OtherIssued().(acceptQ := {}, requestMap := Init().requestMap[0 := r], responseMap := Init().responseMap[0 := r],
      lost := {0})
  }

  lemma OtherIssueStep()
    ensures IsStep(ONE_MASTER, DecodedState(READ_0), Issue(READ_1), OtherIssued())
  {
    assert AfterIssue(DecodedState(READ_0), READ_1) == OtherIssued();
  }

  lemma LoseStep()
    ensures IsStep(ONE_MASTER, OtherIssued(), Accept(1), FirstLost())
  {
    var n := AfterAccept(ONE_MASTER, OtherIssued(), 1);
    assert n.acceptQ == {} && n.lost == {0};
    assert n.requestMap == FirstLost().requestMap;
  }

  // The first is lost.
  lemma OvertakenIsLostRun() returns (run: seq<State>, acts: seq<Action>)
    ensures IsOrderedRun(ONE_MASTER, run, acts) && run[|acts|].lost == {0}
  {
    run, acts := DecodedRun(READ_0, true, false, false);
    OtherIssueStep();
    Extend(run, acts, DecodedState(READ_0), Issue(READ_1), OtherIssued(), true, false, false);
    run, acts := run + [OtherIssued()], acts + [Issue(READ_1)];
    LoseStep();
    Extend(run, acts, OtherIssued(), Accept(1), FirstLost(), true, false, false);
    run, acts := run + [FirstLost()], acts + [Accept(1)];
  }
}
