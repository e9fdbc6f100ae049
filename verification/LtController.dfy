/**
 The blocking transport of the bus: what one call does from one wait to the next.  Every
 method makes exactly one step of the transition system in LtBus.
 */
module LtController {
  import opened Bus
  import opened BusDecoding
  import opened LtBus
  import opened AddressDecoder
  import opened Bits
  import CA = ConfigArea

  // Where a stretch of a call ends.
  datatype Outcome = Spins | Waits(status: Status) | Forwards(socket: nat) | Returns(status: Status)

  // What a write through the bus tells the caches.
  datatype Snoop = NoSnoop | Snoop(masterId: nat, address: nat, length: nat)

  class Controller {
    const fpnpen: bool
    const decoder: Decoder
    const pnp: CA.PlugAndPlay

    var busy: bool
    var isLock: bool
    var lockMaster: nat

    // The state of the transition system.
    ghost var state: State
    ghost const route: nat -> int

    ghost function Cfg(): Config { Config(route) }

    ghost predicate Tied()
      reads this
    {
      state.busy == busy && state.isLock == isLock && state.lockMaster == lockMaster
    }

    ghost predicate Decodes()
      reads this, decoder
    {
      && Routes(route, fpnpen, pnp, decoder)
      && forall i :: 0 <= i < |state.calls| ==> state.calls[i].address < WORD
    }

    ghost predicate Valid()
      reads this, decoder
    {
      Tied() && Decodes() && Inv(Cfg(), state)
    }

    twostate lemma StaysValid(a: Action)
      requires old(Valid()) && old(Enabled(state, a))
      requires Tied() && Decodes() && state == Next(Cfg(), old(state), a)
      ensures Valid()
    {
      InvKept(Cfg(), old(state), a);
    }

    constructor (fpnpen: bool, decoder: Decoder, pnp: CA.PlugAndPlay, ghost route: nat -> int)
      requires Routes(route, fpnpen, pnp, decoder)
      ensures Valid() && state == Init()
      ensures this.decoder == decoder && this.pnp == pnp && this.route == route
    {
      this.fpnpen := fpnpen;
      this.decoder, this.pnp, this.route := decoder, pnp, route;
      busy, isLock, lockMaster := false, false, 0;
      state := Init();
    }

    // A master calls; the call gets the next number.
    ghost method Arrives(call: Call)
      requires Valid() && call.address < WORD
      modifies this`state
      ensures Tied() && Decodes() && state == Next(Cfg(), old(state), Arrive(call))
    {
      state := Next(Cfg(), state, Arrive(call));
    }

    // The outcome of a stretch says where the call is after it.
    ghost predicate Shows(i: nat, outcome: Outcome)
      requires i < |state.places| == |state.calls|
      reads this
    {
      match outcome
      case Spins => state.places[i] == Spinning
      case Waits(status) => state.places[i] == Delayed(status)
      case Forwards(socket) => state.places[i] == InSlave && socket == route(state.calls[i].address)
      case Returns(status) => state.places[i] == Returned(status)
    }

    // Answers an access to the configuration area: only reads are allowed.
    method AnswerArea(address: nat, command: Command, length: nat, data: array<nat>) returns (outcome: Outcome)
      requires address < WORD && pnp.Contents().Valid() && length <= data.Length
      modifies this`busy, data
      ensures outcome == if command.Read? then Waits(Okay) else Returns(CommandError)
      ensures busy == (old(busy) && command.Read?)
      ensures data[..] == old(data[..]) || command.Read?
      ensures data[length..] == old(data[length..])
      ensures command.Read? ==> data[..length] == CA.AreaBytes(old(pnp.Contents()), address, length)
    {
      if command.Read? {
        pnp.ReadBytes(address, length, data);
        return Waits(Okay);
      } else {
        busy := false;
        return Returns(CommandError);
      }
    }

    // One turn of the spin loop of call i and, if it gets in, all up to the next wait.
    method TryToEnter(ghost i: nat, id: nat, address: nat, command: Command, length: nat, lock: bool, data: array<nat>)
        returns (outcome: Outcome)
      requires Valid() && Enabled(state, Try(i)) && state.calls[i] == Call(id, address, command, length, lock)
      requires InConfigArea(fpnpen, pnp, address) || decoder.CanLookUp(address)
      requires pnp.Contents().Valid() && length <= data.Length
      modifies this, decoder`cache, decoder`totalTransactions, decoder`rightTransactions, data
      ensures Tied() && Decodes()
      ensures state == Next(Cfg(), old(state), Try(i)) && Shows(i, outcome)
      ensures data[..] == old(data[..]) || (outcome == Waits(Okay) && data[length..] == old(data[length..]))
      ensures outcome == Waits(Okay) ==> data[..length] == CA.AreaBytes(old(pnp.Contents()), address, length)
    {
      if busy || (isLock && id != lockMaster) {
        return Spins;
      }
      busy := true;
      isLock := lock;
      lockMaster := id;
      var slave := Decode(fpnpen, pnp, decoder, address, route);
      state := Next(Cfg(), state, Try(i));
      if slave == PNP_ID {
        outcome := AnswerArea(address, command, length, data);
      } else if slave >= 0 {
        outcome := Forwards(slave);
      } else {
        outcome := Waits(AddressError);
      }
    }

    // The slave's blocking transport comes back.
    ghost method SlaveComesBack(i: nat)
      requires Valid() && Enabled(state, SlaveReturns(i))
      modifies this`state
      ensures Tied() && Decodes() && state == Next(Cfg(), old(state), SlaveReturns(i))
    {
      state := Next(Cfg(), state, SlaveReturns(i));
    }

    // The wait of call i is over.
    method WakeUp(ghost i: nat, id: nat, address: nat, command: Command, length: nat, ghost lock: bool, status: Status)
        returns (snoop: Snoop)
      requires Valid() && Enabled(state, Wake(i)) && state.calls[i] == Call(id, address, command, length, lock)
      requires state.places[i] == Delayed(status)
      modifies this
      ensures Tied() && Decodes() && state == Next(Cfg(), old(state), Wake(i))
      ensures snoop.Snoop? <==> status.FromSlave? && command.Write?
      ensures state.trace == old(state).trace + (if snoop.Snoop? then [Snooped(i)] else []) + [Left(i)]
      ensures snoop.Snoop? ==> snoop == Snoop(id, address, length)
    {
      snoop := NoSnoop;
      if status.FromSlave? {
        if command.Write? {
          snoop := Snoop(id, address, length);
        }
      }
      busy := false;
      state := Next(Cfg(), state, Wake(i));
    }
  }
}
