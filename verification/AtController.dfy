/**
 The approximately-timed bus controller: the transport calls and one turn of each thread.
 Every method makes exactly one step of the transition system in AtProtocol.
 */
module AtController {
  import opened Bus
  import opened BusDecoding
  import opened AtProtocol
  import opened AddressDecoder
  import opened Bits
  import CA = ConfigArea

  datatype Phase = BEGIN_REQ | END_REQ | BEGIN_RESP | END_RESP | DATA_SPLIT | OTHER

  datatype Sync = Accepted | Completed

  // A request as a master hands it over; the bus adds who sent it.
  datatype Request = Request(address: Address, command: Command, length: nat, lock: bool)

  class Controller {
    const masters: nat
    const roundRobin: bool

    // The plug & play configuration area, and whether it is decoded.
    const fpnpen: bool
    const pnp: CA.PlugAndPlay

    const decoder: Decoder

    const requestMap: array<Connection>
    const responseMap: array<Connection>
    var addressBusOwner: int
    var dataBus: DataBus
    var isLock: bool
    var lockMaster: nat
    var robin: nat
    var acceptPEQ: set<nat>
    var requestPEQ: set<nat>
    var responsePEQ: set<nat>
    var endResponsePEQ: set<nat>

    // The payloads, in the order in which they were issued, their data buffers, and the bus's
    // references to them.
    var payloads: seq<Payload>
    var buffers: seq<array<nat>>
    var refCounts: seq<int>

    // The state of the transition system; it also says what the environment owes.
    ghost var state: State

    // How addresses are decoded.
    ghost const route: Address -> int

    ghost function Cfg(): Config { Config(masters, roundRobin, route) }

    // The fields that the choice of an owner leaves alone are those of the state.
    ghost predicate TiedApart()
      reads this, requestMap, responseMap
    {
      && requestMap != responseMap
      && state.txs == payloads && state.refs == refCounts
      && state.acceptQ == acceptPEQ && state.requestQ == requestPEQ
      && state.responseQ == responsePEQ && state.endResponseQ == endResponsePEQ
      && state.responseMap == responseMap[..] && state.dataBus == dataBus
    }

    // The fields of the controller are those of the state.
    ghost predicate Tied()
      reads this, requestMap, responseMap
    {
      && TiedApart()
      && state.requestMap == requestMap[..] && state.owner == addressBusOwner
      && state.isLock == isLock && state.lockMaster == lockMaster && state.robin == robin
    }

    ghost predicate Decodes()
      reads `payloads, `buffers, decoder
    {
      && Routes(route, fpnpen, pnp, decoder)
      && (forall t :: 0 <= t < |payloads| ==> payloads[t].address < WORD)
      && |buffers| == |payloads|
      && forall t :: 0 <= t < |payloads| ==> payloads[t].length <= buffers[t].Length
    }

    ghost predicate Valid()
      reads this, decoder, requestMap, responseMap
    {
      Tied() && Decodes() && Ready(Cfg(), state)
    }

    // A step out of a valid state leads to a valid state.
    twostate lemma StaysValid(a: Action)
      requires old(Valid()) && old(Enabled(Cfg(), state, a))
      requires Tied() && Decodes() && state == Next(Cfg(), old(state), a)
      ensures Valid()
    {
      ReadyKept(Cfg(), old(state), a);
    }

    constructor (masters: nat, roundRobin: bool, fpnpen: bool, pnp: CA.PlugAndPlay, decoder: Decoder,
                 ghost route: Address -> int)
      requires masters <= MASTERS && Routes(route, fpnpen, pnp, decoder)
      requires forall a: Address :: -1 <= route(a) <= PNP_ID
      ensures Valid() && state == Init()
      ensures this.masters == masters && this.roundRobin == roundRobin && this.fpnpen == fpnpen
      ensures this.pnp == pnp && this.decoder == decoder && this.route == route
    {
      this.masters, this.roundRobin, this.fpnpen := masters, roundRobin, fpnpen;
      this.pnp, this.decoder, this.route := pnp, decoder, route;
      requestMap := new Connection[MASTERS](_ => NO_CONNECTION);
      responseMap := new Connection[MASTERS](_ => NO_CONNECTION);
      addressBusOwner, dataBus, isLock, lockMaster, robin := -1, Idle, false, 0, 0;
      acceptPEQ, requestPEQ, responsePEQ, endResponsePEQ := {}, {}, {}, {};
      payloads, buffers, refCounts := [], [], [];
      state := Init();
      new;
      assert requestMap[..] == Init().requestMap && responseMap[..] == Init().responseMap;
    }

    // BEGIN_REQ and END_RESP of a master.
    method NbTransportFw(masterId: nat, r: Request, data: array<nat>, trans: nat, phase: Phase)
        returns (status: Sync, error: bool)
      requires Valid() && masterId < masters
      requires phase.BEGIN_REQ? ==> trans == |payloads| && r.address < WORD && r.length <= data.Length
      requires phase.END_RESP? ==> trans in state.owesEndResp
      modifies this
      ensures Tied() && Decodes()
      ensures status == if phase.BEGIN_REQ? then Accepted else Completed
      ensures error <==> !phase.BEGIN_REQ? && !phase.END_RESP?
      ensures phase.BEGIN_REQ? ==> buffers == old(buffers) + [data]
      ensures !phase.BEGIN_REQ? ==> buffers == old(buffers)
      ensures phase.BEGIN_REQ? ==>
        state == Next(Cfg(), old(state), Issue(Payload(masterId, r.address, r.command, r.length, r.lock)))
      ensures phase.END_RESP? ==> state == Next(Cfg(), old(state), MasterEndResp(trans))
      ensures error ==> state == old(state)
    {
      error := false;
      if phase.BEGIN_REQ? {
        payloads := payloads + [Payload(masterId, r.address, r.command, r.length, r.lock)];
        buffers := buffers + [data];
        refCounts := refCounts + [1];
        acceptPEQ := acceptPEQ + {trans};
        state := AfterIssue(state, Payload(masterId, r.address, r.command, r.length, r.lock));
        return Accepted, false;
      } else if phase.END_RESP? {
        endResponsePEQ := endResponsePEQ + {trans};
        state := Next(Cfg(), state, MasterEndResp(trans));
        return Completed, false;
      } else {
        error := true;
      }
      return Completed, error;
    }

    // END_REQ and BEGIN_RESP of a slave; a split is ignored.
    method NbTransportBw(trans: nat, phase: Phase) returns (status: Sync, error: bool)
      requires Valid()
      requires phase.END_REQ? ==> trans in state.owesEndReq
      requires phase.BEGIN_RESP? ==> trans in state.owesBeginResp
      modifies this
      ensures Tied() && Decodes() && status == Accepted
      ensures phase.END_REQ? ==> state == Next(Cfg(), old(state), SlaveEndReq(trans))
      ensures phase.BEGIN_RESP? ==> state == Next(Cfg(), old(state), SlaveBeginResp(trans))
      ensures !phase.END_REQ? && !phase.BEGIN_RESP? ==> state == old(state)
      ensures error <==> !phase.END_REQ? && !phase.BEGIN_RESP? && !phase.DATA_SPLIT?
    {
      error := false;
      if phase.END_REQ? {
        requestPEQ := requestPEQ + {trans};
        state := Next(Cfg(), state, SlaveEndReq(trans));
      } else if phase.DATA_SPLIT? {
      } else if phase.BEGIN_RESP? {
        responsePEQ := responsePEQ + {trans};
        state := Next(Cfg(), state, SlaveBeginResp(trans));
      } else {
        error := true;
      }
      return Accepted, error;
    }

    // Passes END_REQ on to the master.
    method RequestThread(t: nat) returns (sent: seq<Event>)
      requires Valid() && t in requestPEQ
      modifies this
      ensures Tied() && Decodes()
      ensures state == AfterEndReq(old(state), t) && state.log == old(state).log + sent
    {
      var p := payloads[t];
      var connection := requestMap[p.master];
      requestPEQ := requestPEQ - {t};
      sent := [];
      if p.command.Write? {
        sent := [Snoop(p.master, p.address, p.length)];
      }
      addressBusOwner := -1;
      if dataBus != Response {
        dataBus := WaitStates;
      }
      sent := sent + [EndReq(connection.master, t)];
      state := AfterEndReq(state, t);
    }

    // Passes BEGIN_RESP on to the master.  `early` says that it answers with END_RESP.
    method ResponseThread(t: nat, early: bool) returns (sent: seq<Event>)
      requires Valid() && t in responsePEQ
      modifies this
      ensures Tied() && Decodes()
      ensures state == AfterBeginResp(old(state), t, early) && state.log == old(state).log + sent
    {
      var connection := responseMap[payloads[t].master];
      responsePEQ := responsePEQ - {t};
      dataBus := Response;
      sent := [BeginResp(connection.master, t)];
      if early {
        endResponsePEQ := endResponsePEQ + {t};
      }
      state := AfterBeginResp(state, t, early);
    }

    // Passes END_RESP on to the slave and gives up the transaction.
    method EndResponseThread(t: nat) returns (sent: seq<Event>)
      requires Valid() && t in endResponsePEQ
      modifies this
      ensures Tied() && Decodes()
      ensures state == AfterEndResp(old(state), t) && state.log == old(state).log + sent
    {
      var connection := responseMap[payloads[t].master];
      endResponsePEQ := endResponsePEQ - {t};
      dataBus := Idle;
      sent := [];
      if connection.slave != PNP_ID {
        sent := [EndResp(connection.slave, t)];
      }
      refCounts := refCounts[t := refCounts[t] - 1];
      sent := sent + [Release(t)];
      state := AfterEndResp(state, t);
    }

    // Decodes a queued transaction and records its connection for its master.
    method AcceptThread(t: nat)
      requires Valid() && t in acceptPEQ
      requires InConfigArea(fpnpen, pnp, payloads[t].address) || decoder.CanLookUp(payloads[t].address)
      modifies this, requestMap, responseMap, decoder`cache, decoder`totalTransactions, decoder`rightTransactions
      ensures Tied() && Decodes()
      ensures state == AfterAccept(Cfg(), old(state), t)
    {
      var slave := Decode(fpnpen, pnp, decoder, payloads[t].address, route);
      Record(t, slave);
    }

    // Takes a decoded transaction off the queue and records its connection for its master.
    method Record(t: nat, slave: int)
      requires Tied() && Ready(Cfg(), state) && t < |payloads| && slave == route(payloads[t].address)
      modifies this`acceptPEQ, this`state, requestMap, responseMap
      ensures Tied() && state == AfterAccept(Cfg(), old(state), t)
    {
      var m := payloads[t].master;
      acceptPEQ := acceptPEQ - {t};
      if slave >= 0 {
        var connection := Connection(m, slave, TransPending, t);
        requestMap[m] := connection;
        responseMap[m] := connection;
      }
      state := AfterAccept(Cfg(), state, t);
    }

    // Master w of the state, if any, has been made the owner of the address bus.
    ghost predicate Scheduled(w: int, trans: nat, slave: int)
      reads this, requestMap
    {
      if w < 0 then
        && addressBusOwner == -1 && isLock == state.isLock && lockMaster == state.lockMaster
        && requestMap[..] == state.requestMap
      else
        && Pending(state.requestMap, w)
        && trans == state.requestMap[w].trans < |payloads|
        && slave == state.requestMap[w].slave
        && addressBusOwner == w && isLock == payloads[trans].lock && lockMaster == w
        && requestMap[..] == state.requestMap[w := state.requestMap[w].(state := TransScheduled)]
    }

    // Makes master m the owner of the address bus.
    method Schedule(m: nat) returns (trans: nat, slave: int)
      requires requestMap[..] == state.requestMap && payloads == state.txs
      requires Ready(Cfg(), state) && Pending(state.requestMap, m)
      modifies this`addressBusOwner, this`isLock, this`lockMaster, requestMap
      ensures Scheduled(m, trans, slave)
    {
      addressBusOwner := m;
      requestMap[m] := requestMap[m].(state := TransScheduled);
      trans, slave := requestMap[m].trans, requestMap[m].slave;
      isLock := payloads[trans].lock;
      lockMaster := m;
    }

    // Looks for the highest pending master and schedules it.
    method PickByPriority() returns (trans: nat, slave: int)
      requires Tied() && Ready(Cfg(), state) && addressBusOwner == -1
      modifies this`addressBusOwner, this`isLock, this`lockMaster, requestMap
      ensures Scheduled(PriorityPick(state.requestMap, MASTERS), trans, slave)
    {
      trans, slave := 0, 0;
      var i := 15;
      while i >= 0
        invariant -1 <= i <= 15
        invariant PriorityPick(state.requestMap, MASTERS) == PriorityPick(state.requestMap, i + 1)
        invariant Tied() && addressBusOwner == -1
      {
        if requestMap[i].state.TransPending? {
          trans, slave := Schedule(i);
          break;
        }
        i := i - 1;
      }
    }

    // Steps the round-robin position through the masters to the first pending one; it comes
    // back to where it was if there is none.
    method TurnToPending() returns (found: bool)
      requires masters <= requestMap.Length && (robin == 0 || robin < masters)
      modifies this`robin
      ensures var w := RobinPick(requestMap[..], masters, old(robin), masters);
        found == (w >= 0) && robin == if w >= 0 then w else old(robin)
    {
      ghost var w := RobinPick(requestMap[..], masters, robin, masters);
      ghost var start := robin;
      var i := 0;
      while i < masters
        invariant 0 <= i <= masters
        invariant robin == if masters == 0 then start else Turned(masters, start, i)
        invariant RobinPick(requestMap[..], masters, robin, masters - i) == w
      {
        robin := (robin + 1) % masters;
        if requestMap[robin].state.TransPending? {
          return true;
        }
        i := i + 1;
      }
      if masters > 0 {
        TurnedIs(masters, start, masters);
      }
      return false;
    }

    // Schedules the pending master that comes next in turn.
    method PickByRobin() returns (trans: nat, slave: int)
      requires Tied() && Ready(Cfg(), state) && addressBusOwner == -1
      modifies this`addressBusOwner, this`isLock, this`lockMaster, this`robin, requestMap
      ensures var w := RobinPick(state.requestMap, masters, state.robin, masters);
        Scheduled(w, trans, slave) && robin == if w >= 0 then w else state.robin
    {
      trans, slave := 0, 0;
      RobinPickIsPending(state.requestMap, masters, state.robin, masters);
      var found := TurnToPending();
      if found {
        trans, slave := Schedule(robin);
      }
    }

    // The buffer of a transaction holds what a read of the configuration area returns.
    ghost predicate HoldsArea(trans: nat, area: CA.Area)
      requires area.Valid()
      reads this, set b | b in buffers
    {
      && trans < |buffers| && trans < |payloads| && payloads[trans].length <= buffers[trans].Length
      && buffers[trans][..payloads[trans].length] == CA.AreaBytes(area, payloads[trans].address, payloads[trans].length)
    }

    // Answers a read of the configuration area: the bytes of the area go into the buffer of
    // the transaction.
    method CopyArea(trans: nat)
      requires trans < |payloads| == |buffers| && payloads[trans].length <= buffers[trans].Length
      requires payloads[trans].address < WORD && pnp.Contents().Valid()
      modifies buffers[trans]
      ensures HoldsArea(trans, old(pnp.Contents()))
      ensures buffers[trans][payloads[trans].length..] == old(buffers[trans][payloads[trans].length..])
    {
      pnp.ReadBytes(payloads[trans].address, payloads[trans].length, buffers[trans]);
    }

    // The phases of a granted access: one to the configuration area has its END_REQ and
    // BEGIN_RESP queued at once, any other goes to its slave with BEGIN_REQ.
    method Send(trans: nat, slave: int, early: bool) returns (sent: seq<Event>)
      requires 0 <= addressBusOwner < MASTERS
      requires Ready(Cfg(), state) && Pending(state.requestMap, addressBusOwner)
      requires Scheduled(addressBusOwner, trans, slave)
      requires TiedApart() && robin == if roundRobin && !state.isLock then addressBusOwner else state.robin
      modifies this`requestPEQ, this`responsePEQ, this`state
      ensures state == AfterGrant(Cfg(), old(state), addressBusOwner, early) && state.log == old(state).log + sent
      ensures Tied()
    {
      sent := [Granted(addressBusOwner, trans, isLock)];
      if slave == PNP_ID {
        requestPEQ := requestPEQ + {trans};
        responsePEQ := responsePEQ + {trans};
      } else {
        sent := sent + [BeginReq(slave, trans)];
        if early {
          requestPEQ := requestPEQ + {trans};
        }
      }
      state := AfterGrant(Cfg(), state, addressBusOwner, early);
    }

    // Serves a scheduled access: one to the configuration area is answered by the bus
    // itself, with an okay status, any other is forwarded to its slave.
    method Forward(trans: nat, slave: int, early: bool) returns (sent: seq<Event>, okay: bool)
      requires 0 <= addressBusOwner < MASTERS
      requires Ready(Cfg(), state) && Pending(state.requestMap, addressBusOwner)
      requires Scheduled(addressBusOwner, trans, slave)
      requires TiedApart() && robin == if roundRobin && !state.isLock then addressBusOwner else state.robin
      requires trans < |payloads| == |buffers| && payloads[trans].length <= buffers[trans].Length
      requires payloads[trans].address < WORD && pnp.Contents().Valid()
      modifies this`requestPEQ, this`responsePEQ, this`state, buffers[trans]
      ensures state == AfterGrant(Cfg(), old(state), addressBusOwner, early) && state.log == old(state).log + sent
      ensures Tied()
      ensures okay <==> slave == PNP_ID
      ensures okay ==> HoldsArea(trans, old(pnp.Contents()))
      ensures okay ==> var n := payloads[trans].length; buffers[trans][n..] == old(buffers[trans][n..])
      ensures !okay ==> buffers[trans][..] == old(buffers[trans][..])
    {
      okay := slave == PNP_ID;
      if okay {
        CopyArea(trans);
      }
      sent := Send(trans, slave, early);
    }

    // Picks the next owner of the address bus: under a lock only its holder, otherwise by
    // priority or round robin.
    method PickOwner() returns (trans: nat, slave: int)
      requires Tied() && Ready(Cfg(), state) && addressBusOwner == -1
      modifies this`addressBusOwner, this`isLock, this`lockMaster, this`robin, requestMap
      ensures var w := Pick(Cfg(), state);
        && Scheduled(w, trans, slave)
        && robin == if w >= 0 && roundRobin && !state.isLock then w else state.robin
      ensures TiedApart()
    {
      trans, slave := 0, 0;
      if !roundRobin {
        if !isLock {
          trans, slave := PickByPriority();
        } else if requestMap[lockMaster].state.TransPending? {
          trans, slave := Schedule(lockMaster);
        }
      } else {
        if !isLock {
          trans, slave := PickByRobin();
        } else if requestMap[lockMaster].state.TransPending? {
          trans, slave := Schedule(lockMaster);
        }
      }
    }

    // Grants the next pending request, if there is one that may be granted.
    method GrantNext(early: bool) returns (sent: seq<Event>, answered: int)
      requires Valid() && GuardOpen(state) && pnp.Contents().Valid()
      modifies this, requestMap, set b | b in buffers
      ensures Tied() && payloads == old(payloads) && buffers == old(buffers)
      ensures state == AfterArbitrate(Cfg(), old(state), early) && state.log == old(state).log + sent
      ensures answered == AreaPick(old(state))
      ensures answered >= 0 ==> HoldsArea(answered, old(pnp.Contents()))
      ensures answered >= 0 ==>
        var n := payloads[answered].length; buffers[answered][n..] == old(buffers[answered][n..])
      ensures forall b :: b in buffers && (answered < 0 || b != buffers[answered]) ==> b[..] == old(b[..])
    {
      sent, answered := [], -1;
      PickIsPending(Cfg(), state);
      var trans, slave := PickOwner();
      if addressBusOwner != -1 {
        var okay;
        sent, okay := Forward(trans, slave, early);
        if okay {
          answered := trans;
        }
      }
    }

    // One turn of the arbiter.  `early` says that the slave answers BEGIN_REQ with END_REQ.
    // `answered` is the transaction that the bus has answered itself, or -1.
    method ArbitrateTurn(early: bool) returns (sent: seq<Event>, answered: int)
      requires Valid() && pnp.Contents().Valid()
      modifies this, requestMap, set b | b in buffers
      ensures Tied() && Decodes() && buffers == old(buffers)
      ensures state == Next(Cfg(), old(state), Arbitrate(early)) && state.log == old(state).log + sent
      ensures answered == if GuardOpen(old(state)) then AreaPick(old(state)) else -1
      ensures answered >= 0 ==> HoldsArea(answered, old(pnp.Contents()))
      ensures answered >= 0 ==>
        var n := payloads[answered].length; buffers[answered][n..] == old(buffers[answered][n..])
      ensures forall b :: b in buffers && (answered < 0 || b != buffers[answered]) ==> b[..] == old(b[..])
    {
      sent, answered := [], -1;
      if addressBusOwner == -1 && (dataBus == Response || dataBus == Idle) {
        sent, answered := GrantNext(early);
      }
    }

    // The access to the configuration area that is granted next, or -1.
    ghost function AreaPick(s: State): int
      requires Ready(Cfg(), s)
    {
      var w := Pick(Cfg(), s);
      PickIsPending(Cfg(), s);
      if w >= 0 && s.requestMap[w].slave == PNP_ID then s.requestMap[w].trans else -1
    }
  }
}
