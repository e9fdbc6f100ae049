/**
 The loosely-timed bus: blocking transport calls that share one bus.

 Each call is a thread.  It runs without interruption from one wait to the next, so a call
 goes through these steps: it spins while the bus is busy or locked by another master; once it
 gets in it decodes its address, answers or forwards the access, waits for the accumulated
 delay, and leaves.  The calls interleave in any order.
 */
module LtBus {
  import opened Bus

  datatype Call = Call(master: nat, address: nat, command: Command, length: nat, lock: bool)

  datatype Status = Okay | CommandError | AddressError | FromSlave

  // Where a call is: at its spin loop, in the blocking transport of a slave, waiting for its
  // delay with the status it will return, or returned.
  datatype Place = Spinning | InSlave | Delayed(status: Status) | Returned(status: Status)

  // What happens on the bus, by the number of the call.
  datatype Event = Entered(call: nat) | Executed(call: nat) | Snooped(call: nat) | Left(call: nat)

  datatype Config = Config(route: nat -> int)

  // `order` and `trace` are history: the calls in the order in which they got in, and what
  // has happened.
  datatype State = State(
    busy: bool,
    isLock: bool,
    lockMaster: nat,
    calls: seq<Call>,
    places: seq<Place>,
    order: seq<nat>,
    trace: seq<Event>)

  datatype Action = Arrive(call: Call) | Try(i: nat) | SlaveReturns(i: nat) | Wake(i: nat)

  function Init(): State { State(false, false, 0, [], [], [], []) }

  // The spin loop goes round again.
  predicate Blocked(s: State, master: nat) {
    s.busy || (s.isLock && master != s.lockMaster)
  }

  ghost predicate Enabled(s: State, a: Action) {
    |s.places| == |s.calls|
    && match a
       case Arrive(_) => true
       case Try(i) => i < |s.calls| && s.places[i].Spinning?
       case SlaveReturns(i) => i < |s.calls| && s.places[i].InSlave?
       case Wake(i) => i < |s.calls| && s.places[i].Delayed?
  }

  ghost function AfterTry(c: Config, s: State, i: nat): State
    requires i < |s.calls| == |s.places|
  {
    var call := s.calls[i];
    if Blocked(s, call.master) then s
    else
      var route := c.route(call.address);
      var inside := s.(busy := true, isLock := call.lock, lockMaster := call.master,
                       order := s.order + [i], trace := s.trace + [Entered(i)]);
      if route == PNP_ID then
        if call.command.Read? then inside.(places := s.places[i := Delayed(Okay)])
        else
          inside.(busy := false, places := s.places[i := Returned(CommandError)],
                  trace := s.trace + [Entered(i), Left(i)])
      else if route >= 0 then inside.(places := s.places[i := InSlave])
      else inside.(places := s.places[i := Delayed(AddressError)])
  }

  ghost function AfterWake(s: State, i: nat): State
    requires i < |s.calls| == |s.places| && s.places[i].Delayed?
  {
    var status := s.places[i].status;
    var snoop := if status.FromSlave? && s.calls[i].command.Write? then [Snooped(i)] else [];
    s.(busy := false, places := s.places[i := Returned(status)], trace := s.trace + snoop + [Left(i)])
  }

  ghost function Next(c: Config, s: State, a: Action): State
    requires Enabled(s, a)
  {
    match a
    case Arrive(call) => s.(calls := s.calls + [call], places := s.places + [Spinning])
    case Try(i) => AfterTry(c, s, i)
    case SlaveReturns(i) => s.(places := s.places[i := Delayed(FromSlave)], trace := s.trace + [Executed(i)])
    case Wake(i) => AfterWake(s, i)
  }

  // ---------------------------------------------------------------------------------------
  // Mutual exclusion

  // Call i is between getting in and leaving.
  ghost predicate Inside(s: State, i: int) {
    0 <= i < |s.places| && (s.places[i].InSlave? || s.places[i].Delayed?)
  }

  // The bus is busy exactly when a call is inside, and there is never more than one.
  ghost predicate Exclusive(s: State) {
    && |s.places| == |s.calls|
    && (s.busy <==> exists i :: Inside(s, i))
    && forall i, j :: Inside(s, i) && Inside(s, j) ==> i == j
  }

  // ---------------------------------------------------------------------------------------
  // Serial execution

  // All that a call does on the bus.
  ghost function Block(c: Config, calls: seq<Call>, i: nat): seq<Event>
    requires i < |calls|
  {
    var route := c.route(calls[i].address);
    var slave := 0 <= route && route != PNP_ID;
    [Entered(i)]
    + (if slave then [Executed(i)] else [])
    + (if slave && calls[i].command.Write? then [Snooped(i)] else [])
    + [Left(i)]
  }

  // What it has done when it is inside.
  ghost function BlockSoFar(s: State, i: nat): seq<Event>
    requires i < |s.places|
  {
    [Entered(i)] + if s.places[i].Delayed? && s.places[i].status.FromSlave? then [Executed(i)] else []
  }

  ghost predicate InRange(calls: seq<Call>, order: seq<nat>) {
    forall k :: 0 <= k < |order| ==> order[k] < |calls|
  }

  // The calls of `order` one after the other, none overlapping the next.
  ghost function Serial(c: Config, calls: seq<Call>, order: seq<nat>): seq<Event>
    requires InRange(calls, order)
  {
    if order == [] then [] else Serial(c, calls, order[..|order| - 1]) + Block(c, calls, order[|order| - 1])
  }

  // A place that a call can have got to, given where its address leads.
  ghost predicate PlaceFits(c: Config, call: Call, p: Place) {
    var route := c.route(call.address);
    match p
    case Spinning => true
    case InSlave => 0 <= route && route != PNP_ID
    case Delayed(status) => Fits(route, call, status) && !status.CommandError?
    case Returned(status) => Fits(route, call, status)
  }

  ghost predicate Fits(route: int, call: Call, status: Status) {
    match status
    case Okay => route == PNP_ID && call.command.Read?
    case CommandError => route == PNP_ID && !call.command.Read?
    case AddressError => route < 0
    case FromSlave => 0 <= route && route != PNP_ID
  }

  ghost predicate AllFit(c: Config, s: State) {
    |s.places| == |s.calls| && forall i :: 0 <= i < |s.calls| ==> PlaceFits(c, s.calls[i], s.places[i])
  }

  // The trace so far: whole blocks in the order of entry, then what the call inside has done.
  ghost predicate Serialized(c: Config, s: State) {
    && InRange(s.calls, s.order)
    && |s.places| == |s.calls|
    && if s.busy then
         var n := |s.order| - 1;
         n >= 0 && Inside(s, s.order[n]) && s.trace == Serial(c, s.calls, s.order[..n]) + BlockSoFar(s, s.order[n])
       else s.trace == Serial(c, s.calls, s.order)
  }

  // The lock is that of the last call that got in, and a call that got in under a lock of
  // the one before has the same master.
  ghost predicate LockKept(s: State) {
    && InRange(s.calls, s.order)
    && (if s.order == [] then !s.isLock
        else var last := s.calls[s.order[|s.order| - 1]];
          s.isLock == last.lock && s.lockMaster == last.master)
    && forall k :: 0 <= k < |s.order| - 1 && s.calls[s.order[k]].lock ==>
                     s.calls[s.order[k + 1]].master == s.calls[s.order[k]].master
  }

  // A call has got in exactly when it no longer spins, and at most once.
  ghost predicate EnteredOnce(s: State) {
    && |s.places| == |s.calls|
    && InRange(s.calls, s.order)
    && (forall i :: 0 <= i < |s.places| ==> (i in s.order <==> !s.places[i].Spinning?))
    && (forall j, k :: 0 <= j < k < |s.order| ==> s.order[j] != s.order[k])
  }

  ghost predicate Inv(c: Config, s: State) {
    Exclusive(s) && AllFit(c, s) && Serialized(c, s) && LockKept(s) && EnteredOnce(s)
  }

  lemma ExclusiveKept(c: Config, s: State, a: Action)
    requires Exclusive(s) && Enabled(s, a)
    ensures Exclusive(Next(c, s, a))
  {
    var n := Next(c, s, a);
    match a
    case Arrive(_) =>
      assert forall j :: Inside(n, j) <==> Inside(s, j);
    case Try(i) =>
      if !Blocked(s, s.calls[i].master) {
        assert forall j :: !Inside(s, j);
        assert n.busy ==> Inside(n, i);
        forall j | Inside(n, j) ensures j == i { assert !Inside(s, j); }
      }
    case SlaveReturns(i) =>
      assert forall j :: Inside(n, j) <==> Inside(s, j);
    case Wake(i) =>
      forall j ensures !Inside(n, j) {
        assert Inside(s, i);
        if Inside(n, j) {
          assert Inside(s, j);
        }
      }
  }

  lemma FitKept(c: Config, s: State, a: Action)
    requires AllFit(c, s) && Enabled(s, a)
    ensures AllFit(c, Next(c, s, a))
  {
    var n := Next(c, s, a);
    forall i | 0 <= i < |n.calls| ensures PlaceFits(c, n.calls[i], n.places[i]) {
      if i < |s.calls| {
        assert PlaceFits(c, s.calls[i], s.places[i]);
      }
    }
  }

  lemma {:induction false} SerialIgnoresNewCalls(c: Config, calls: seq<Call>, more: seq<Call>, order: seq<nat>)
    requires InRange(calls, order)
    ensures Serial(c, calls + more, order) == Serial(c, calls, order)
  {
    if order != [] {
      SerialIgnoresNewCalls(c, calls, more, order[..|order| - 1]);
    }
  }

  lemma SerializedKept(c: Config, s: State, a: Action)
    requires Exclusive(s) && AllFit(c, s) && Serialized(c, s) && Enabled(s, a)
    ensures Serialized(c, Next(c, s, a))
  {
    match a
    case Arrive(call) => ArriveSerialized(c, s, call);
    case Try(i) => TrySerialized(c, s, i);
    case SlaveReturns(i) =>
      assert Inside(s, i) && Inside(s, s.order[|s.order| - 1]);
      assert s.trace + [Executed(i)] == Serial(c, s.calls, s.order[..|s.order| - 1]) + ([Entered(i)] + [Executed(i)]);
    case Wake(i) => WakeSerialized(c, s, i);
  }

  lemma ArriveSerialized(c: Config, s: State, call: Call)
    requires Exclusive(s) && Serialized(c, s)
    ensures Serialized(c, Next(c, s, Arrive(call)))
  {
    var n := Next(c, s, Arrive(call));
    if s.busy {
      var k := |s.order| - 1;
      SerialIgnoresNewCalls(c, s.calls, [call], s.order[..k]);
      assert Inside(s, s.order[k]) && Inside(n, n.order[k]);
      assert BlockSoFar(n, n.order[k]) == BlockSoFar(s, s.order[k]);
    } else {
      SerialIgnoresNewCalls(c, s.calls, [call], s.order);
    }
  }

  // A call gets in and goes on to its slave or to a delay.
  lemma EnterSerialized(c: Config, s: State, n: State, i: nat)
    requires Serialized(c, s) && !s.busy && i < |s.calls|
    requires n.calls == s.calls && |n.places| == |s.places| && n.busy && n.order == s.order + [i]
    requires n.trace == s.trace + [Entered(i)]
    requires n.places[i].InSlave? || (n.places[i].Delayed? && !n.places[i].status.FromSlave?)
    ensures Serialized(c, n)
  {
    assert n.order[..|n.order| - 1] == s.order;
    assert BlockSoFar(n, i) == [Entered(i)];
    assert Inside(n, i);
  }

  // A call gets in and leaves at once.
  lemma RefuseSerialized(c: Config, s: State, n: State, i: nat)
    requires Serialized(c, s) && !s.busy && i < |s.calls|
    requires n.calls == s.calls && |n.places| == |s.places| && !n.busy && n.order == s.order + [i]
    requires n.trace == s.trace + [Entered(i), Left(i)]
    requires c.route(s.calls[i].address) == PNP_ID
    ensures Serialized(c, n)
  {
    assert n.order[..|n.order| - 1] == s.order;
    assert Block(c, n.calls, i) == [Entered(i), Left(i)];
  }

  lemma TrySerialized(c: Config, s: State, i: nat)
    requires Serialized(c, s) && Enabled(s, Try(i))
    ensures Serialized(c, AfterTry(c, s, i))
  {
    var n := AfterTry(c, s, i);
    if Blocked(s, s.calls[i].master) {
      assert n == s;
    } else if n.busy {
      EnterSerialized(c, s, n, i);
    } else {
      RefuseSerialized(c, s, n, i);
    }
  }

  lemma WakeSerialized(c: Config, s: State, i: nat)
    requires Exclusive(s) && AllFit(c, s) && Serialized(c, s) && Enabled(s, Wake(i))
    ensures Serialized(c, AfterWake(s, i))
  {
    var n := AfterWake(s, i);
    var k := |s.order| - 1;
    assert Inside(s, i) && Inside(s, s.order[k]);
    assert s.order[k] == i;
    assert PlaceFits(c, s.calls[i], s.places[i]);
    var status := s.places[i].status;
    var before := Serial(c, s.calls, s.order[..k]);
    var executed := if status.FromSlave? then [Executed(i)] else [];
    var snoop := if status.FromSlave? && s.calls[i].command.Write? then [Snooped(i)] else [];
    assert Block(c, s.calls, i) == [Entered(i)] + executed + snoop + [Left(i)];
    assert n.trace == before + ([Entered(i)] + executed) + snoop + [Left(i)];
    assert n.trace == before + Block(c, s.calls, i);
  }

  // The lock after a call has got in.
  lemma EnterLock(s: State, n: State, i: nat)
    requires LockKept(s) && i < |s.calls| && n.calls == s.calls && n.order == s.order + [i]
    requires n.isLock == s.calls[i].lock && n.lockMaster == s.calls[i].master
    requires s.isLock ==> s.calls[i].master == s.lockMaster
    ensures LockKept(n)
  {
    forall k | 0 <= k < |n.order| - 1 && n.calls[n.order[k]].lock
      ensures n.calls[n.order[k + 1]].master == n.calls[n.order[k]].master
    {
      assert n.order[k] == s.order[k];
    }
  }

  lemma NewCallLock(s: State, n: State, call: Call)
    requires LockKept(s) && n.calls == s.calls + [call] && n.order == s.order
    requires n.isLock == s.isLock && n.lockMaster == s.lockMaster
    ensures LockKept(n)
  {
    assert forall k :: 0 <= k < |s.order| ==> n.calls[s.order[k]] == s.calls[s.order[k]];
  }

  lemma LockKeptKept(c: Config, s: State, a: Action)
    requires LockKept(s) && Enabled(s, a)
    ensures LockKept(Next(c, s, a))
  {
    var n := Next(c, s, a);
    match a
    case Arrive(call) => NewCallLock(s, n, call);
    case Try(i) =>
      if !Blocked(s, s.calls[i].master) {
        EnterLock(s, n, i);
      }
    case _ =>
  }

  lemma EnteredOnceKept(c: Config, s: State, a: Action)
    requires Exclusive(s) && EnteredOnce(s) && Enabled(s, a)
    ensures EnteredOnce(Next(c, s, a))
  {
    var n := Next(c, s, a);
    if a.Try? && !Blocked(s, s.calls[a.i].master) {
      assert n.order == s.order + [a.i];
      assert a.i !in s.order;
    }
  }

  lemma InitHolds(c: Config)
    ensures Inv(c, Init())
  {
  }

  lemma InvKept(c: Config, s: State, a: Action)
    requires Inv(c, s) && Enabled(s, a)
    ensures Inv(c, Next(c, s, a))
  {
    ExclusiveKept(c, s, a);
    FitKept(c, s, a);
    SerializedKept(c, s, a);
    LockKeptKept(c, s, a);
    EnteredOnceKept(c, s, a);
  }

  // ---------------------------------------------------------------------------------------
  // Runs

  ghost predicate IsStep(c: Config, s: State, a: Action, n: State) {
    Enabled(s, a) && n == Next(c, s, a)
  }

  ghost predicate IsRun(c: Config, run: seq<State>, acts: seq<Action>) {
    && |run| == |acts| + 1
    && run[0] == Init()
    && forall i :: 0 <= i < |acts| ==> IsStep(c, run[i], acts[i], run[i + 1])
  }

  // Every state of every interleaving: one call inside at a time and the bus busy exactly
  // then, calls serialized in the order of entry, the lock respected.
  lemma {:induction false} RunsSafe(c: Config, run: seq<State>, acts: seq<Action>, i: nat)
    requires IsRun(c, run, acts) && i < |run|
    ensures Inv(c, run[i])
  {
    if i == 0 {
      InitHolds(c);
    } else {
      RunsSafe(c, run, acts, i - 1);
      assert IsStep(c, run[i - 1], acts[i - 1], run[i]);
      InvKept(c, run[i - 1], acts[i - 1]);
    }
  }

  // Every way out of a call frees the bus.
  lemma ExitFrees(c: Config, s: State, a: Action, i: nat)
    requires Inv(c, s) && Enabled(s, a) && i < |s.places| && !s.places[i].Returned?
    requires Next(c, s, a).places[i].Returned?
    ensures !Next(c, s, a).busy && forall j :: !Inside(Next(c, s, a), j)
  {
    ExclusiveKept(c, s, a);
  }

  // No call is inside, and the last that got in carried no lock or was of this master.
  ghost predicate MayEnter(s: State, master: nat)
    requires InRange(s.calls, s.order)
  {
    && (forall j :: !Inside(s, j))
    && (s.order == []
        || var last := s.calls[s.order[|s.order| - 1]]; !last.lock || last.master == master)
  }

  lemma BlockedIs(s: State, master: nat)
    requires Exclusive(s) && LockKept(s)
    ensures Blocked(s, master) <==> !MayEnter(s, master)
  {
  }

  lemma TryEnters(c: Config, s: State, i: nat)
    requires Enabled(s, Try(i)) && !Blocked(s, s.calls[i].master)
    ensures AfterTry(c, s, i).order == s.order + [i] && s.trace + [Entered(i)] <= AfterTry(c, s, i).trace
  {
  }

  // A call at its spin loop gets in at its next turn if and only if it may, and changes
  // nothing otherwise.
  lemma EntersIff(c: Config, run: seq<State>, acts: seq<Action>, n: nat, i: nat)
    requires IsRun(c, run, acts) && n < |run| && Enabled(run[n], Try(i))
    ensures InRange(run[n].calls, run[n].order)
    ensures var s, after := run[n], Next(c, run[n], Try(i));
      if MayEnter(s, s.calls[i].master)
      then after.order == s.order + [i] && s.trace + [Entered(i)] <= after.trace
      else after == s
  {
    var s := run[n];
    RunsSafe(c, run, acts, n);
    BlockedIs(s, s.calls[i].master);
    if !Blocked(s, s.calls[i].master) {
      TryEnters(c, s, i);
    }
  }

  // Between a call that locks the bus and its master's next call that does not, no other
  // master gets in.
  lemma {:induction false} LockAtomic(s: State, j: nat, k: nat)
    requires LockKept(s) && j <= k < |s.order|
    requires forall l :: j <= l < k ==> s.calls[s.order[l]].lock
    ensures s.calls[s.order[k]].master == s.calls[s.order[j]].master
    decreases k
  {
    if j < k {
      LockAtomic(s, j, k - 1);
    }
  }

  // ---------------------------------------------------------------------------------------
  // Snooping

  // The calls that were snooped, in the order of the broadcasts.
  ghost function Snoops(trace: seq<Event>): seq<nat> {
    if trace == [] then []
    else
      var e := trace[|trace| - 1];
      Snoops(trace[..|trace| - 1]) + if e.Snooped? then [e.call] else []
  }

  ghost predicate IsSlaveWrite(c: Config, call: Call) {
    0 <= c.route(call.address) && c.route(call.address) != PNP_ID && call.command.Write?
  }

  // The writes forwarded to slaves, in the order of entry.
  ghost function SlaveWrites(c: Config, calls: seq<Call>, order: seq<nat>): seq<nat>
    requires InRange(calls, order)
  {
    if order == [] then []
    else
      var i := order[|order| - 1];
      SlaveWrites(c, calls, order[..|order| - 1]) + if IsSlaveWrite(c, calls[i]) then [i] else []
  }

  lemma {:induction false} SnoopsConcat(a: seq<Event>, b: seq<Event>)
    ensures Snoops(a + b) == Snoops(a) + Snoops(b)
  {
    if b == [] {
      assert a + b == a;
    } else {
      var rest := b[..|b| - 1];
      SnoopsConcat(a, rest);
      assert (a + b)[..|a + b| - 1] == a + rest;
    }
  }

  lemma SnoopsOfOne(e: Event)
    ensures Snoops([e]) == if e.Snooped? then [e.call] else []
  {
    assert [e][..0] == [];
  }

  lemma SnoopsOfBlock(c: Config, calls: seq<Call>, i: nat)
    requires i < |calls|
    ensures Snoops(Block(c, calls, i)) == if IsSlaveWrite(c, calls[i]) then [i] else []
  {
    var route := c.route(calls[i].address);
    var slave := 0 <= route && route != PNP_ID;
    var executed := if slave then [Executed(i)] else [];
    var snoop := if slave && calls[i].command.Write? then [Snooped(i)] else [];
    SnoopsConcat([Entered(i)] + executed + snoop, [Left(i)]);
    SnoopsConcat([Entered(i)] + executed, snoop);
    SnoopsConcat([Entered(i)], executed);
    SnoopsOfOne(Entered(i));
    SnoopsOfOne(Executed(i));
    SnoopsOfOne(Snooped(i));
    SnoopsOfOne(Left(i));
  }

  lemma {:induction false} SnoopsOfSerial(c: Config, calls: seq<Call>, order: seq<nat>)
    requires InRange(calls, order)
    ensures Snoops(Serial(c, calls, order)) == SlaveWrites(c, calls, order)
  {
    if order != [] {
      var k := |order| - 1;
      SnoopsOfSerial(c, calls, order[..k]);
      SnoopsOfBlock(c, calls, order[k]);
      SnoopsConcat(Serial(c, calls, order[..k]), Block(c, calls, order[k]));
    }
  }

  // In every state the snoop broadcasts are exactly the writes forwarded to slaves, in bus
  // order, but for the call that is still inside.
  lemma SnoopsAreSlaveWrites(c: Config, s: State)
    requires Inv(c, s)
    ensures s.busy ==> s.order != []
    ensures Snoops(s.trace) == SlaveWrites(c, s.calls, if s.busy then s.order[..|s.order| - 1] else s.order)
  {
    if s.busy {
      var k := |s.order| - 1;
      SnoopsOfSerial(c, s.calls, s.order[..k]);
      SnoopsConcat(Serial(c, s.calls, s.order[..k]), BlockSoFar(s, s.order[k]));
      SnoopsConcat([Entered(s.order[k])], BlockSoFar(s, s.order[k])[1..]);
      SnoopsOfOne(Entered(s.order[k]));
      SnoopsOfOne(Executed(s.order[k]));
    } else {
      SnoopsOfSerial(c, s.calls, s.order);
    }
  }

  // Each broadcast comes right after the slave has executed the write.
  ghost predicate SnoopsFollowExecution(trace: seq<Event>) {
    forall k :: 0 <= k < |trace| && trace[k].Snooped? ==> k > 0 && trace[k - 1] == Executed(trace[k].call)
  }

  lemma {:induction false} SerialSnoopsFollow(c: Config, calls: seq<Call>, order: seq<nat>)
    requires InRange(calls, order)
    ensures SnoopsFollowExecution(Serial(c, calls, order))
  {
    if order != [] {
      SerialSnoopsFollow(c, calls, order[..|order| - 1]);
      assert SnoopsFollowExecution(Block(c, calls, order[|order| - 1]));
    }
  }

  lemma SnoopAfterExecution(c: Config, s: State)
    requires Inv(c, s)
    ensures SnoopsFollowExecution(s.trace)
  {
    if s.busy {
      var k := |s.order| - 1;
      SerialSnoopsFollow(c, s.calls, s.order[..k]);
    } else {
      SerialSnoopsFollow(c, s.calls, s.order);
    }
  }
}
