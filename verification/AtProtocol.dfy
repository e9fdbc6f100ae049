/**
 The approximately-timed bus as a transition system.

 One State holds what the bus controller itself keeps (the two connection tables, the bus
 owner, the data bus state, the lock, the round-robin position and the four event queues) and
 what its environment owes it (END_REQ and BEGIN_RESP of slaves, END_RESP of masters).  Each
 Action is what happens between two scheduling points: a transport call of a master or a
 slave, or one delivery of an event queue to its thread.  The queues deliver in any order.

 The fields below `log` are history: no step reads them, they only name what has happened.
 */
module AtProtocol {
  import opened Bus

  type Address = nat

  // Number of entries of the connection tables.
  const MASTERS: nat := 16

  datatype Payload = Payload(master: nat, address: Address, command: Command, length: nat, lock: bool)

  datatype TransState = TransInit | TransPending | TransScheduled

  datatype Connection = Connection(master: nat, slave: int, state: TransState, trans: nat)

  datatype DataBus = Idle | Response | WaitStates

  // What the rest of the system sees of the controller.
  datatype Event =
    | Granted(grantee: nat, trans: nat, locked: bool)
    | BeginReq(slave: int, trans: nat)
    | Snoop(master: nat, address: Address, length: nat)
    | EndReq(master: nat, trans: nat)
    | BeginResp(master: nat, trans: nat)
    | EndResp(slave: int, trans: nat)
    | Release(trans: nat)

  // `route` decodes an address: a slave socket, PNP_ID, or -1.
  datatype Config = Config(masters: nat, roundRobin: bool, route: Address -> int)

  datatype State = State(
    txs: seq<Payload>,
    refs: seq<int>,
    acceptQ: set<nat>,
    requestQ: set<nat>,
    responseQ: set<nat>,
    endResponseQ: set<nat>,
    requestMap: seq<Connection>,
    responseMap: seq<Connection>,
    owner: int,
    dataBus: DataBus,
    isLock: bool,
    lockMaster: nat,
    robin: nat,
    owesEndReq: set<nat>,
    owesBeginResp: set<nat>,
    owesEndResp: set<nat>,
    log: seq<Event>,
    dropped: set<nat>,
    lost: set<nat>,
    granted: set<nat>,
    endReqDone: set<nat>,
    ended: set<nat>)

  datatype Action =
    | Issue(payload: Payload)
    | Accept(t: nat)
    | Arbitrate(early: bool)
    | SlaveEndReq(t: nat)
    | SlaveBeginResp(t: nat)
    | MasterEndResp(t: nat)
    | DeliverEndReq(t: nat)
    | DeliverBeginResp(t: nat, early: bool)
    | DeliverEndResp(t: nat)

  ghost predicate ValidConfig(c: Config) {
    && c.masters <= MASTERS
    && forall a: Address :: -1 <= c.route(a) <= PNP_ID
  }

  const NO_CONNECTION := Connection(0, 0, TransInit, 0)

  function Init(): State {
    var none := seq(MASTERS, _ => NO_CONNECTION);
    State([], [], {}, {}, {}, {}, none, none, -1, Idle, false, 0, 0, {}, {}, {}, [], {}, {}, {}, {}, {})
  }

  // What every step needs to be defined.
  ghost predicate Shape(c: Config, s: State) {
    && |s.requestMap| == MASTERS
    && |s.responseMap| == MASTERS
    && |s.refs| == |s.txs|
    && s.lockMaster < MASTERS
    && -1 <= s.owner < MASTERS
    && (s.robin == 0 || s.robin < c.masters)
    && (forall t :: 0 <= t < |s.txs| ==> s.txs[t].master < c.masters)
    && (forall m :: Pending(s.requestMap, m) ==> m < c.masters)
  }

  // ---------------------------------------------------------------------------------------
  // Arbitration

  predicate Pending(table: seq<Connection>, m: int)
  {
    0 <= m < |table| && table[m].state.TransPending?
  }

  // The highest pending master below `below`, or -1.
  function PriorityPick(table: seq<Connection>, below: nat): int
    requires below <= |table|
  {
    if below == 0 then -1
    else if Pending(table, below - 1) then below - 1
    else PriorityPick(table, below - 1)
  }

  // The first pending master met in `left` steps from `robin`, or -1.
  function RobinPick(table: seq<Connection>, masters: nat, robin: nat, left: nat): int
    requires masters <= |table|
    requires masters == 0 ==> left == 0
    decreases left
  {
    if left == 0 then -1
    else
      var next := (robin + 1) % masters;
      if Pending(table, next) then next else RobinPick(table, masters, next, left - 1)
  }

  ghost predicate GuardOpen(s: State) {
    s.owner == -1 && (s.dataBus.Response? || s.dataBus.Idle?)
  }

  // The master the arbiter grants next, or -1.
  function Pick(c: Config, s: State): int
    requires c.masters <= |s.requestMap| == MASTERS
  {
    if s.isLock then if Pending(s.requestMap, s.lockMaster) then s.lockMaster else -1
    else if c.roundRobin then RobinPick(s.requestMap, c.masters, s.robin, c.masters)
    else PriorityPick(s.requestMap, MASTERS)
  }

  // ---------------------------------------------------------------------------------------
  // Steps

  ghost predicate Enabled(c: Config, s: State, a: Action) {
    match a
    case Issue(p) => p.master < c.masters
    case Accept(t) => t in s.acceptQ
    case Arbitrate(_) => true
    case SlaveEndReq(t) => t in s.owesEndReq
    case SlaveBeginResp(t) => t in s.owesBeginResp
    case MasterEndResp(t) => t in s.owesEndResp
    case DeliverEndReq(t) => t in s.requestQ
    case DeliverBeginResp(t, _) => t in s.responseQ
    case DeliverEndResp(t) => t in s.endResponseQ
  }

  // The ids in the queues and sets all name issued transactions.
  ghost predicate Known(s: State) {
    && (forall t :: t in s.acceptQ ==> t < |s.txs|)
    && (forall t :: t in s.requestQ ==> t < |s.txs|)
    && (forall t :: t in s.responseQ ==> t < |s.txs|)
    && (forall t :: t in s.endResponseQ ==> t < |s.txs|)
    && (forall t :: t in s.owesEndReq ==> t < |s.txs|)
    && (forall t :: t in s.owesBeginResp ==> t < |s.txs|)
    && (forall t :: t in s.owesEndResp ==> t < |s.txs|)
    && (forall m :: Pending(s.requestMap, m) ==> s.requestMap[m].trans < |s.txs|)
  }

  ghost predicate Ready(c: Config, s: State) {
    ValidConfig(c) && Shape(c, s) && Known(s)
  }

  ghost function AfterIssue(s: State, p: Payload): State {
    s.(txs := s.txs + [p], refs := s.refs + [1], acceptQ := s.acceptQ + {|s.txs|})
  }

  ghost function AfterAccept(c: Config, s: State, t: nat): State
    requires Ready(c, s) && t < |s.txs|
  {
    var m := s.txs[t].master;
    var slave := c.route(s.txs[t].address);
    if slave >= 0 then
      var connection := Connection(m, slave, TransPending, t);
      s.(acceptQ := s.acceptQ - {t},
         requestMap := s.requestMap[m := connection],
         responseMap := s.responseMap[m := connection],
         lost := s.lost + if Pending(s.requestMap, m) then {s.requestMap[m].trans} else {})
    else
      s.(acceptQ := s.acceptQ - {t}, dropped := s.dropped + {t})
  }

  ghost function AfterGrant(c: Config, s: State, m: nat, early: bool): State
    requires Ready(c, s) && Pending(s.requestMap, m)
  {
    var record := s.requestMap[m];
    var t := record.trans;
    var pnp := record.slave == PNP_ID;
    var grant := Granted(m, t, s.txs[t].lock);
    s.(owner := m,
       requestMap := s.requestMap[m := record.(state := TransScheduled)],
       isLock := s.txs[t].lock,
       lockMaster := m,
       robin := if c.roundRobin && !s.isLock then m else s.robin,
       requestQ := if pnp || early then s.requestQ + {t} else s.requestQ,
       owesEndReq := if pnp || early then s.owesEndReq else s.owesEndReq + {t},
       responseQ := if pnp then s.responseQ + {t} else s.responseQ,
       owesBeginResp := if pnp then s.owesBeginResp else s.owesBeginResp + {t},
       log := s.log + if pnp then [grant] else [grant, BeginReq(record.slave, t)],
       granted := s.granted + {t})
  }

  lemma PickIsPending(c: Config, s: State)
    requires c.masters <= |s.requestMap| == MASTERS
    ensures Pick(c, s) >= 0 ==> Pending(s.requestMap, Pick(c, s))
    ensures -1 <= Pick(c, s) < MASTERS
  {
    PriorityPickIsHighest(s.requestMap, MASTERS);
    RobinPickIsPending(s.requestMap, c.masters, s.robin, c.masters);
  }

  ghost function AfterArbitrate(c: Config, s: State, early: bool): State
    requires Ready(c, s)
  {
    if GuardOpen(s) && Pick(c, s) >= 0 then
      PickIsPending(c, s);
      AfterGrant(c, s, Pick(c, s), early)
    else s
  }

  ghost function AfterEndReq(s: State, t: nat): State
    requires t < |s.txs| && s.txs[t].master < |s.requestMap|
  {
    var p := s.txs[t];
    var snoop := if p.command.Write? then [Snoop(p.master, p.address, p.length)] else [];
    s.(requestQ := s.requestQ - {t},
       owner := -1,
       dataBus := if s.dataBus.Response? then Response else WaitStates,
       log := s.log + snoop + [EndReq(s.requestMap[p.master].master, t)],
       endReqDone := s.endReqDone + {t})
  }

  ghost function AfterBeginResp(s: State, t: nat, early: bool): State
    requires t < |s.txs| && s.txs[t].master < |s.responseMap|
  {
    s.(responseQ := s.responseQ - {t},
       dataBus := Response,
       log := s.log + [BeginResp(s.responseMap[s.txs[t].master].master, t)],
       endResponseQ := if early then s.endResponseQ + {t} else s.endResponseQ,
       owesEndResp := if early then s.owesEndResp else s.owesEndResp + {t})
  }

  ghost function AfterEndResp(s: State, t: nat): State
    requires t < |s.txs| == |s.refs| && s.txs[t].master < |s.responseMap|
  {
    var slave := s.responseMap[s.txs[t].master].slave;
    s.(endResponseQ := s.endResponseQ - {t},
       dataBus := Idle,
       refs := s.refs[t := s.refs[t] - 1],
       log := s.log + (if slave == PNP_ID then [] else [EndResp(slave, t)]) + [Release(t)],
       ended := s.ended + {t})
  }

  ghost function Next(c: Config, s: State, a: Action): State
    requires Ready(c, s) && Enabled(c, s, a)
  {
    match a
    case Issue(p) => AfterIssue(s, p)
    case Accept(t) => AfterAccept(c, s, t)
    case Arbitrate(early) => AfterArbitrate(c, s, early)
    case SlaveEndReq(t) => s.(owesEndReq := s.owesEndReq - {t}, requestQ := s.requestQ + {t})
    case SlaveBeginResp(t) => s.(owesBeginResp := s.owesBeginResp - {t}, responseQ := s.responseQ + {t})
    case MasterEndResp(t) => s.(owesEndResp := s.owesEndResp - {t}, endResponseQ := s.endResponseQ + {t})
    case DeliverEndReq(t) => AfterEndReq(s, t)
    case DeliverBeginResp(t, early) => AfterBeginResp(s, t, early)
    case DeliverEndResp(t) => AfterEndResp(s, t)
  }

  lemma GrantReady(c: Config, s: State, m: nat, early: bool)
    requires Ready(c, s) && Pending(s.requestMap, m)
    ensures Ready(c, AfterGrant(c, s, m, early))
  {
  }

  lemma AcceptReady(c: Config, s: State, t: nat)
    requires Ready(c, s) && t < |s.txs|
    ensures Ready(c, AfterAccept(c, s, t))
  {
  }

  // Every step leads to a state in which every step is defined again.
  lemma ReadyKept(c: Config, s: State, a: Action)
    requires Ready(c, s) && Enabled(c, s, a)
    ensures Ready(c, Next(c, s, a))
  {
    match a
    case Accept(t) => AcceptReady(c, s, t);
    case Arbitrate(early) =>
      if GuardOpen(s) && Pick(c, s) >= 0 {
        PickIsPending(c, s);
        GrantReady(c, s, Pick(c, s), early);
      }
    case _ =>
  }

  // ---------------------------------------------------------------------------------------
  // Who is picked

  // Priority mode: the pick is the highest pending master, and -1 only if none is pending.
  lemma {:induction false} PriorityPickIsHighest(table: seq<Connection>, below: nat)
    requires below <= |table|
    ensures var w := PriorityPick(table, below);
      && -1 <= w < below
      && (w >= 0 ==> Pending(table, w))
      && forall m :: w < m < below ==> !Pending(table, m)
  {
    if below > 0 && !Pending(table, below - 1) {
      PriorityPickIsHighest(table, below - 1);
    }
  }

  lemma {:induction false} RobinPickIsPending(table: seq<Connection>, masters: nat, robin: nat, left: nat)
    requires masters <= |table|
    requires masters == 0 ==> left == 0
    ensures var w := RobinPick(table, masters, robin, left);
      -1 <= w < masters && (w >= 0 ==> Pending(table, w))
    decreases left
  {
    if left > 0 {
      RobinPickIsPending(table, masters, (robin + 1) % masters, left - 1);
    }
  }

  // How many masters the round-robin scan looks at before `m` when it starts at `robin`.
  function Distance(masters: nat, robin: nat, m: nat): nat
    requires m < masters && (robin == 0 || robin < masters)
  {
    if m > robin then m - robin - 1 else m + masters - robin - 1
  }

  lemma NextIsNearer(masters: nat, robin: nat, m: nat)
    requires robin < masters && m < masters
    ensures var next := (robin + 1) % masters;
      next == (if robin + 1 == masters then 0 else robin + 1)
      && Distance(masters, robin, next) == 0
      && (m != next ==> Distance(masters, robin, m) == Distance(masters, next, m) + 1)
  {
  }

  // The round-robin position after i steps.
  function Turned(masters: nat, robin: nat, i: nat): nat
    requires 0 < masters
  {
    if i == 0 then robin else (Turned(masters, robin, i - 1) + 1) % masters
  }

  lemma {:induction false} TurnedIs(masters: nat, robin: nat, i: nat)
    requires robin < masters && i <= masters
    ensures Turned(masters, robin, i) == if robin + i < masters then robin + i else robin + i - masters
  {
    if i > 0 {
      TurnedIs(masters, robin, i - 1);
      NextIsNearer(masters, Turned(masters, robin, i - 1), 0);
    }
  }

  // Round-robin mode: the pick is pending and no pending master is nearer to `robin`; the
  // scan finds nothing only if no master within reach is pending.
  lemma {:induction false} RobinPickIsNearest(table: seq<Connection>, masters: nat, robin: nat, left: nat)
    requires 0 < masters <= |table| && robin < masters && left <= masters
    ensures var w := RobinPick(table, masters, robin, left);
      && (w >= 0 ==> w < masters && Pending(table, w) && Distance(masters, robin, w) < left)
      && forall m :: 0 <= m < masters && Pending(table, m)
           ==> if w >= 0 then Distance(masters, robin, w) <= Distance(masters, robin, m)
               else left <= Distance(masters, robin, m)
    decreases left
  {
    if left > 0 {
      var next := (robin + 1) % masters;
      NextIsNearer(masters, robin, 0);
      if !Pending(table, next) {
        RobinPickIsNearest(table, masters, next, left - 1);
        var w := RobinPick(table, masters, next, left - 1);
        if w >= 0 {
          NextIsNearer(masters, robin, w);
        }
        forall m: nat | m < masters && Pending(table, m)
          ensures if w >= 0 then Distance(masters, robin, w) <= Distance(masters, robin, m)
                  else left <= Distance(masters, robin, m)
        {
          NextIsNearer(masters, robin, m);
        }
      }
    }
  }
}
