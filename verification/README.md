# SoCRocket core models: verified properties

This project models parts of the SoCRocket virtual platform and proves properties of them.

- **The AHB bus controller** (`AHBCtrl`). Its approximately-timed (AT) engine is a transition system
  (`AtProtocol`), whose steps are the transport calls of masters and slaves and the deliveries of the
  four event queues, in any order; `AtSafety` proves what every step keeps, `AtRuns`, `AtRouting`,
  `AtTheorems` and `AtArbitration` what holds over whole runs, `AtWitnesses` gives runs on which it
  ends, and the methods of `AtController` are the code of the calls and threads, each proved to make
  exactly one step. Its loosely-timed (LT) path is a system of interleaved calls (`LtBus`,
  `LtController`); `Bus` and `BusDecoding` are what the two share. `AddressDecoder` and `MemoryMap`
  are the cached decoder and the overlap check, `ConfigArea` the plug & play records.
- **Registers.** `Registers` and `RegisterFile` are fields as bit ranges of a word, and the check of
  the fields; `RegisterBank` is the byte view of a bank. Words are unsigned numbers with bitwise
  operations (`Bits`, `Words`); `HostMemory` is how a little-endian host stores them.
- **The string-list form** of `sr_param<std::vector<std::string>>` (`StringList`,
  `StringListRoundTrip`).
- **Brackets and preprocessor nesting** of the bundled `cpplint.py` (`Brackets`, `Preprocessor`).
- **Signal fan-out** from a selector to input fields (`Signals`, with `OrderedMap` for `std::map`).

## What is assumed of the surroundings

For the AT engine: a slave sends one END_REQ (on either path) and one BEGIN_RESP for each granted
transaction, a master one END_RESP (on either path) after BEGIN_RESP, and the ids of masters are those
of their sockets. The data bus is idle at the start, which the constructor of `AHBCtrl` never
establishes. Nothing is assumed about how many transactions a master has under way, when the bus
decodes them, or the order of END_REQ and END_RESP, except in the theorems that say so (`IsTurnRun`,
`IsOrderedRun`). Slaves and masters are seen only through the phases they send.

## Where the code and its documentation differ

- `gaisler/ahbctrl/ahbctrl.md:33-34` gives the lowest bus index the highest priority; the code grants
  the highest id (`gaisler/ahbctrl/ahbctrl.cpp:799-800`), and so does the model.
- `gaisler/ahbctrl/ahbctrl.md:54` names a thread for snooping that does not exist; the code snoops in
  the thread that passes on END_REQ.
- A comment speaks of one cycle for each 32-bit register of the configuration area; the code adds one
  for each byte (`gaisler/ahbctrl/ahbctrl.cpp:557-558`).
- An AT transaction whose address decodes to nothing is logged and never answered or released; in
  the model it stays undecodable and keeps its reference (`DroppedForever`).
- The records of the configuration area are entered under the bus ids of the devices
  (`gaisler/ahbctrl/ahbctrl.cpp:1201`) and shown only below the number of devices bound (line 460), so
  a device with a higher id is not seen (`MasterWordRead`, `SlaveWordRead`); the build id, unlike the
  records, is not swapped (`BuildIdRead`).
- Results about where the code stops keeping what one would expect, each with the exact condition:
  `EndRespHomeIff`, `LostIff` and `QuiescentReadyIff` (AT), `UnambiguousExact` and
  `SilentMissesIff` (decoder and check), `ReliableIffAscending` (fields), `RoundTripIff` and
  `HangsIff` (string lists), `ErasedFileSameState` (preprocessor).
- What a master can see does not keep END_RESP from going astray: the bus only queues END_RESP, and a
  master that has sent it may be decoded again before it is handled (`RacingEndRespAstray`). The
  condition of `TurnRunsSafe` is therefore on what the bus has handled when it decodes. It does keep
  transactions from being lost (`ExclusiveRunsLoseNone`).

## Model

| member | source | states |
|---|---|---|
| `AtRuns.RunsSafe` | gaisler/ahbctrl/ahbctrl.cpp:663-1156 | In every state of every run, whatever the order in which the queues deliver and however many transactions a master has under way: each issued transaction is in exactly one stage (queued, undecodable, lost, pending, granted) and, once granted, at exactly one point of its request half and of its response half; at most one is in the address phase, `address_bus_owner` is its master, and -1 exactly when there is none; the two connection tables tell the truth; the data bus state and the lock are what the event log says; BEGIN_REQ has gone once to the decoded slave, END_REQ and BEGIN_RESP once to the issuing master, each exactly when the transaction has got that far; END_RESP has gone at most once, to some slave, and not before the transaction ended (to which slave: `EndRespHomeIff`) |
| `AtSafety.InvKept` | gaisler/ahbctrl/ahbctrl.cpp:663-1156 | The invariant is kept by each of the nine kinds of steps |
| `AtSafety.InitHolds` | gaisler/ahbctrl/ahbctrl.h:208-294 | It holds at the start, with the data bus idle |
| `AtSafety.PlacedKept` | gaisler/ahbctrl/ahbctrl.cpp:765-982 | The exactly-one-stage part by itself, with the request and response records of a master equal but for their state |
| `AtSafety.OwnerKept` | gaisler/ahbctrl/ahbctrl.cpp:795-859 | One transaction at most in the address phase, and the owner is its master |
| `AtSafety.OnceKept` | gaisler/ahbctrl/ahbctrl.cpp:663-1156 | Grant, BEGIN_REQ, END_REQ, BEGIN_RESP and release of a transaction are each passed on exactly once, when it has got that far, and BEGIN_REQ never for the configuration area |
| `AtSafety.BusKept` | gaisler/ahbctrl/ahbctrl.cpp:1018-1023 | `data_bus_state` is RESPONSE exactly if a BEGIN_RESP, and WAITSTATES exactly if an END_REQ but no BEGIN_RESP, has been handled since the last release; the lock is that of the last grant |
| `AtRouting.TurnRunsSafe` | gaisler/ahbctrl/ahbctrl.cpp:967-976 | If no transaction is decoded before all earlier decoded ones of its master have ended, in every state of every run: none is lost, and END_RESP of each goes exactly once to the very slave that got its BEGIN_REQ, to no slave if it read the configuration area |
| `AtRouting.EndRespHomeIff` | gaisler/ahbctrl/ahbctrl.cpp:1109-1153 | In any run, also a pipelined one: the master of a transaction has a latest decodable one among the Accept steps of the run so far, and END_RESP goes where BEGIN_REQ went if and only if that one is for the same slave |
| `AtRouting.RecordIsLatest` | gaisler/ahbctrl/ahbctrl.cpp:967-976 | At every step of every run the response record of a master names the transaction of it that was decoded last, and is empty if none was |
| `AtRouting.LostIff` | gaisler/ahbctrl/ahbctrl.cpp:967-976 | In any run: a transaction is lost if and only if, after it was decoded and before it was granted, another decodable transaction of its master was |
| `AtRouting.LostForever` | gaisler/ahbctrl/ahbctrl.cpp:967-976 | In every continuation a lost transaction is never granted: no BEGIN_REQ, END_REQ or BEGIN_RESP of it is passed on, it is never released, and the bus keeps its reference |
| `AtRouting.DroppedForever` | gaisler/ahbctrl/ahbctrl.cpp:948-981 | Nor is a transaction whose address decodes to nothing: in every continuation it is never granted, answered or released, and the bus keeps its reference |
| `AtRouting.ExclusiveRunsLoseNone` | gaisler/ahbctrl/ahbctrl.cpp:663-716 | If each master issues only after it has been passed END_REQ of all its earlier transactions, nothing is lost in any state of any run, and while one of its transactions is queued all its others have been granted |
| `AtRouting.PoliteRunsLoseNone` | gaisler/ahbctrl/ahbctrl.cpp:663-716 | So it is for masters that wait for END_REQ and for their own END_RESP too |
| `AtWitnesses.OvertakenIsLostRun` | gaisler/ahbctrl/ahbctrl.cpp:967-976 | A run that loses a transaction |
| `AtWitnesses.RacingEndRespAstray` | gaisler/ahbctrl/ahbctrl.cpp:697-707 | A run in which the master issues its second transaction only after it has been passed END_REQ of the first and has sent its END_RESP, and still END_RESP of the first goes to the wrong slave: the bus decodes the second before it handles that END_RESP |
| `AtTheorems.ReferencesHeld` | gaisler/ahbctrl/ahbctrl.cpp:672-672 | In every state of every run acquires minus releases is the number of transactions issued and not ended |
| `AtSafety.RefsKept` | gaisler/ahbctrl/ahbctrl.cpp:1118-1152 | One reference to each transaction until it ends and none after |
| `AtSafety.EndRespsKept` | gaisler/ahbctrl/ahbctrl.cpp:1118-1152 | END_RESP of a transaction is passed on at most once, and not before it ends |
| `AtTheorems.RunsSnoop` | gaisler/ahbctrl/ahbctrl.cpp:1008-1042 | In every state of every run the snoop broadcasts are exactly those of the writes, with master, address and length of the write, each right before its END_REQ is passed on |
| `AtTheorems.QuiescentReadyIff` | gaisler/ahbctrl/ahbctrl.cpp:795-795 | When every granted transaction is finished, the arbiter's guard is true if and only if no END_REQ has been handled since the last release |
| `AtTheorems.WedgedForever` | gaisler/ahbctrl/ahbctrl.cpp:1019-1023 | If it is not true then, it never is again: no further grant and no further event in any continuation |
| `AtWitnesses.LateEndReqWedges` | gaisler/ahbctrl/ahbctrl.cpp:891-900 | A run of a single transaction that ends so: a long read of the configuration area whose END_REQ is handled after its END_RESP |
| `AtTheorems.OrderedRunsWait` | gaisler/ahbctrl/ahbctrl.cpp:1067-1129 | If END_REQ of each transaction is handled before its END_RESP, wait states always belong to a transaction still to end |
| `AtTheorems.OrderedRunsNeverWedge` | gaisler/ahbctrl/ahbctrl.cpp:795-859 | Then the arbiter never wedges: with every granted transaction finished the guard is true, and the next turn grants if and only if a request is pending that the lock lets by |
| `AtTheorems.GrantsIff` | gaisler/ahbctrl/ahbctrl.cpp:795-859 | In any state with the guard true, a turn grants if and only if a request is pending that the lock lets by |
| `AtTheorems.RunsGrantIff` | gaisler/ahbctrl/ahbctrl.cpp:795-859 | In every state of every run the next turn of the arbiter grants if and only if no transaction is in its address phase, a BEGIN_RESP or no END_REQ has been passed on since the last release, and a decoded transaction waits that the lock of the last grant lets by; otherwise the turn changes nothing |
| `AtTheorems.TurnGrantsIff` | gaisler/ahbctrl/ahbctrl.cpp:795-859 | It grants exactly one transaction, one that waits and that the lock lets by, and makes its master the owner |
| `AtTheorems.EarlyEndReq` | gaisler/ahbctrl/ahbctrl.cpp:861-919 | END_REQ that a slave returns on the forward path is queued like one it sends right after; a read of the configuration area has both its phases queued by the bus |
| `AtTheorems.EarlyEndResp` | gaisler/ahbctrl/ahbctrl.cpp:1086-1089 | END_RESP that a master returns on the backward path is queued like one it sends right after |
| `AtProtocol.PriorityPickIsHighest` | gaisler/ahbctrl/ahbctrl.cpp:797-812 | The downward scan finds the highest pending id, and nothing only if none is pending |
| `AtProtocol.RobinPickIsNearest` | gaisler/ahbctrl/ahbctrl.cpp:824-846 | The round-robin scan finds the pending master nearest after `robin`, and nothing only if none is pending |
| `AtArbitration.PriorityWinner` | gaisler/ahbctrl/ahbctrl.cpp:797-812 | In priority mode an unlocked turn makes the highest pending id the owner and takes its request off |
| `AtArbitration.RobinWinner` | gaisler/ahbctrl/ahbctrl.cpp:824-846 | In round-robin mode it makes the pending master that comes next after `robin` the owner, takes its request off and moves `robin` there |
| `AtArbitration.BypassesNear` | gaisler/ahbctrl/ahbctrl.cpp:824-846 | Every unlocked grant to another master brings `robin` nearer to a waiting master |
| `AtArbitration.BoundedBypass` | gaisler/ahbctrl/ahbctrl.cpp:824-846 | A request that stays pending sees at most n - 1 unlocked grants to other masters |
| `AtArbitration.LockAtomic` | gaisler/ahbctrl/ahbctrl.cpp:797-858 | In every run, in both arbitration modes: between a locked grant to a master and its next unlocked one no other master is granted |
| `AtController.Controller.NbTransportFw` | gaisler/ahbctrl/ahbctrl.cpp:663-716 | BEGIN_REQ and END_RESP of a master; any other phase is an error that changes nothing |
| `AtController.Controller.NbTransportBw` | gaisler/ahbctrl/ahbctrl.cpp:721-749 | END_REQ and BEGIN_RESP of a slave; a split is ignored, any other phase is an error |
| `AtController.Controller.AcceptThread` | gaisler/ahbctrl/ahbctrl.cpp:931-982 | One turn: decodes with the cached decoder and records the connection; exactly the decoding step of the transition system |
| `AtController.Controller.RequestThread` | gaisler/ahbctrl/ahbctrl.cpp:985-1044 | One turn: exactly the END_REQ step, with the events sent |
| `AtController.Controller.ResponseThread` | gaisler/ahbctrl/ahbctrl.cpp:1046-1092 | One turn: exactly the BEGIN_RESP step |
| `AtController.Controller.EndResponseThread` | gaisler/ahbctrl/ahbctrl.cpp:1095-1156 | One turn: exactly the END_RESP step |
| `AtController.Controller.PickByPriority` | gaisler/ahbctrl/ahbctrl.cpp:798-812 | The scan loop schedules the master that the specification picks, and changes nothing if there is none |
| `AtController.Controller.TurnToPending` | gaisler/ahbctrl/ahbctrl.cpp:826-846 | The modulo loop stops at the master that the specification picks; `robin` is where it was if there is none |
| `AtController.Controller.PickByRobin` | gaisler/ahbctrl/ahbctrl.cpp:826-846 | The master the loop stops at is scheduled, and nothing changes if there is none |
| `AtController.Controller.PickOwner` | gaisler/ahbctrl/ahbctrl.cpp:797-859 | Priority, round robin, and under a lock only its holder |
| `AtController.Controller.CopyArea` | gaisler/ahbctrl/ahbctrl.cpp:877-889 | The byte loop of an AT read of the configuration area: the buffer of the transaction gets the bytes of the area, the rest of it stays |
| `AtController.Controller.Forward` | gaisler/ahbctrl/ahbctrl.cpp:861-922 | A grant to the configuration area is answered by the bus, with the bytes of the area and an okay status; any other is forwarded and its buffer left alone |
| `AtController.Controller.GrantNext` | gaisler/ahbctrl/ahbctrl.cpp:795-922 | With the guard true: exactly the grant the specification picks; a read of the configuration area gets the bytes of the area, every other buffer stays |
| `AtController.Controller.ArbitrateTurn` | gaisler/ahbctrl/ahbctrl.cpp:784-926 | One turn of the arbiter is exactly the arbitration step, of which `RunsGrantIff` says when it grants; it says which transaction the bus has answered itself, whose buffer then holds the bytes of the area |
| `AtController.Controller.StaysValid` | gaisler/ahbctrl/ahbctrl.cpp:663-1156 | Such a step out of a valid controller leads to a valid one, so all runs of the object are runs of the transition system |
| `BusDecoding.Decode` | gaisler/ahbctrl/ahbctrl.cpp:945-960 | An address goes to the configuration area if and only if that is decoded and claims it; any other goes to the slave of a matching entry (entry j of slave i has the binding 4 i + j) or nowhere, whatever has been looked up before |
| `AddressDecoder.SelectsBits` | gaisler/ahbctrl/ahbctrl.cpp:412-412 | An entry matches where the upper 12 bits of the address agree with its base wherever its mask has a bit |
| `AddressDecoder.Decoder.DetectSlaves` | gaisler/ahbctrl/ahbctrl.cpp:1178-1227 | The loop over slaves and their four base address registers enters those in use in the order of their numbers; of several with one base the first is kept |
| `AddressDecoder.SlaveIsFound` | gaisler/ahbctrl/ahbctrl.cpp:409-431 | In the table so made, if it is unambiguous and the bases differ: an address goes to socket i if and only if a register of the slave there matches it, and nowhere if and only if none does |
| `AddressDecoder.SearchIsScan` | gaisler/ahbctrl/ahbctrl.cpp:418-431 | In an unambiguous table the predecessor search gives what a scan for a matching entry gives, for every address from the lowest base on |
| `AddressDecoder.UnambiguousExact` | gaisler/ahbctrl/ahbctrl.cpp:418-431 | With prefix masks: the search misses no matching entry if and only if no entry reaches the base of the next and all bases but the lowest are aligned |
| `AddressDecoder.AnySelectedIsScan` | gaisler/ahbctrl/ahbctrl.cpp:409-416 | A cached entry that matches is the answer of the scan |
| `AddressDecoder.NestedEntryHides` | gaisler/ahbctrl/ahbctrl.cpp:418-431 | An entry inside the range of another makes the search miss the outer one |
| `AddressDecoder.Decoder.GetIndex` | gaisler/ahbctrl/ahbctrl.cpp:403-432 | After any history of look-ups the cached search returns i for a matching entry with binding 4 i + j, j < 4, and -1 without one; it counts, and caches the entry found |
| `AddressDecoder.Decoder.SetAddressMap` | gaisler/ahbctrl/ahbctrl.cpp:391-400 | Adds an entry and only that; an entry with the same base stays |
| `AddressDecoder.NoBarSelectsNothing` | gaisler/ahbctrl/ahbctrl.cpp:298-303 | The initial cache entry matches no address |
| `MemoryMap.RegionIsHull` | gaisler/ahbctrl/ahbctrl.cpp:1399-1404 | First and last address of an entry in 32-bit arithmetic, also when the size wraps to 0 |
| `MemoryMap.NeighboursSuffice` | gaisler/ahbctrl/ahbctrl.cpp:1408-1426 | Comparing neighbours in the order of starts finds an overlap if and only if there is one |
| `MemoryMap.MeetIffShared` | gaisler/ahbctrl/ahbctrl.cpp:1399-1404 | With prefix masks, the regions of two entries meet if and only if both entries match some address |
| `MemoryMap.AlignedCheckExact` | gaisler/ahbctrl/ahbctrl.cpp:1390-1428 | With aligned bases the check reports if and only if the regions of some two entries meet |
| `MemoryMap.PrefixCheckExact` | gaisler/ahbctrl/ahbctrl.cpp:1390-1428 | With prefix masks as well, it reports if and only if two entries match one address |
| `MemoryMap.SilentMissesIff` | gaisler/ahbctrl/ahbctrl.cpp:1405-1405 | For any table: a silent check has missed two regions that meet if and only if two entries start at one address |
| `MemoryMap.UnalignedDuplicateMissed` | gaisler/ahbctrl/ahbctrl.cpp:1405-1405 | A silent check of a table in which two entries match one address |
| `MemoryMap.SilentMeansUnambiguous` | gaisler/ahbctrl/ahbctrl.cpp:1390-1428 | A silent check with aligned bases: each address matches at most one entry, and the decoder is right |
| `MemoryMap.CheckMemMap` | gaisler/ahbctrl/ahbctrl.cpp:1390-1428 | The loop reports exactly the neighbours of which the first reaches into the second |
| `ConfigArea.SwapEndianess` | core/common/vendian.h:39-48 | Reverses the bytes in place |
| `ConfigArea.InsideIsImage` | gaisler/ahbctrl/ahbctrl.cpp:435-500 | Any read inside the area that avoids 0xfffffff0 to 3 returns the bytes of the concatenated big-endian records, zeros for devices absent or at or beyond the binding count |
| `ConfigArea.AreaBaseAligned` | gaisler/ahbctrl/ahbctrl.cpp:443-445 | Whatever the base and mask parameters, the base is a 32-bit multiple of 256 |
| `ConfigArea.PlugAndPlay.GetPNPReg` | gaisler/ahbctrl/ahbctrl.cpp:435-500 | The whole word of an address, swapped for the host: all four bytes of the area at their places; all table accesses in bounds |
| `ConfigArea.MasterWordRead` | gaisler/ahbctrl/ahbctrl.cpp:474-498 | Four bytes read at a word of a master's record, taken as a big-endian number, are the word of the record if its number is below that of the masters bound, otherwise and for an absent record 0 |
| `ConfigArea.SlaveWordRead` | gaisler/ahbctrl/ahbctrl.cpp:449-473 | Likewise for the slaves, 0x800 above the base |
| `ConfigArea.BuildIdRead` | gaisler/ahbctrl/ahbctrl.cpp:440-440 | Four bytes at 0xfffffff0 are 00 00 10 30, the build id in host order |
| `ConfigArea.PlugAndPlay.MapSlave` | gaisler/ahbctrl/ahbctrl.cpp:1200-1202 | Enters the record of a slave under its bus id and nothing else |
| `ConfigArea.PlugAndPlay.MapMaster` | gaisler/ahbctrl/ahbctrl.cpp:1262-1264 | Likewise of a master |
| `ConfigArea.PlugAndPlay.ClaimsBits` | gaisler/ahbctrl/ahbctrl.cpp:945-950 | The area claims an address if and only if it has the bits of the area wherever the mask has one, and the base is the lowest address claimed |
| `ConfigArea.PlugAndPlay.ClaimsStretch` | gaisler/ahbctrl/ahbctrl.cpp:945-950 | With a prefix mask the addresses claimed are those from the base on that the clear bits of the mask can tell apart |
| `ConfigArea.PlugAndPlay.DefaultArea` | gaisler/ahbctrl/ahbctrl.h:113-116 | With the default parameters they are the last 4096 |
| `ConfigArea.PlugAndPlay.ReadBytes` | gaisler/ahbctrl/ahbctrl.cpp:549-559 | The byte loop fills the buffer with the bytes of the area and leaves the rest alone |
| `LtBus.RunsSafe` | gaisler/ahbctrl/ahbctrl.cpp:503-658 | Over all interleavings of calls at their waits, in every state: `busy` holds if and only if exactly one call is inside; the trace is that of the calls one after the other in the order in which they got in; each call gets in once; each returns the status its address and command call for |
| `LtBus.InvKept` | gaisler/ahbctrl/ahbctrl.cpp:503-658 | Each stretch of a call from one wait to the next keeps this |
| `LtBus.EntersIff` | gaisler/ahbctrl/ahbctrl.cpp:519-530 | In every state of every interleaving a call at its spin loop gets in at its next turn if and only if no call is inside and the last one that got in, if any, carried no lock or was of the same master; otherwise nothing changes |
| `LtBus.ExitFrees` | gaisler/ahbctrl/ahbctrl.cpp:566-655 | All four ways out free the bus |
| `LtBus.LockAtomic` | gaisler/ahbctrl/ahbctrl.cpp:521-528 | From a call that locks the bus to its master's next call that does not, no other master gets in |
| `LtBus.SnoopsAreSlaveWrites` | gaisler/ahbctrl/ahbctrl.cpp:638-647 | The snoop broadcasts are exactly the writes forwarded to slaves, in bus order |
| `LtBus.SnoopAfterExecution` | gaisler/ahbctrl/ahbctrl.cpp:626-647 | Each right after the slave has executed the write |
| `LtController.Controller.TryToEnter` | gaisler/ahbctrl/ahbctrl.cpp:519-657 | All of a call up to its first wait is exactly one step; a read of the configuration area gets the bytes of the area |
| `LtController.Controller.WakeUp` | gaisler/ahbctrl/ahbctrl.cpp:562-655 | What follows the wait is exactly one step; the snoop has master, address and length of the call |
| `LtController.Controller.StaysValid` | gaisler/ahbctrl/ahbctrl.cpp:503-658 | Such a step out of a valid controller leads to a valid one |
| `Registers.GenMask` | core/sr_register/sc_register.h:307-316 | The mask loop computes the mask of the range, also for the full word |
| `Registers.MaskBits` | core/sr_register/sr_register.h:64-73 | The mask has exactly the bits from low to high |
| `Registers.ExtractBits` | core/sr_register/sc_register.h:714-718 | Bit p of a field's value is bit low + p of the word, for p up to the width |
| `Registers.ExtractPlaced` | core/sr_register/sc_register.h:746-749 | A value written is read back truncated to the width of the field |
| `Registers.TruncateIsRemainder` | core/sr_register/sc_register.h:746-749 | Truncating is taking the remainder by 2 to the width |
| `Registers.ApartExact` | core/sr_register/sc_register.h:788-797 | Two fields share no bit of their masks if and only if their ranges are apart |
| `Registers.PackValues` | core/sr_register/sc_register.h:722-728 | Reading all fields of a word and putting the values back gives the word within the fields |
| `Registers.ValuesPacked` | core/sr_register/sc_register.h:827-837 | Putting values into fields that are apart and reading them gives the values truncated |
| `Registers.FieldWritten` | core/sr_register/sc_register.h:835-837 | A field write changes its own field and no other that is apart |
| `Registers.OpsRefine` | core/sr_register/sc_register.h:722-749 | After any sequence of field, register and bus writes the word is what the map from fields to values packs to: a field write changes one value, every other stays, and no bit outside the fields is set |
| `RegisterFile.ReliableIffAscending` | core/sr_register/sc_register.h:764-776 | For an order of creation given by the highest bits: every field list in that order that passes the assertions is disjoint if and only if the order is strictly ascending |
| `RegisterFile.DisjointPasses` | core/sr_register/sc_register.h:764-776 | Disjoint fields never trip the assertion, in any order of creation |
| `RegisterFile.AscendingExact` | core/sr_register/sc_register.h:764-776 | Created from the lowest to the highest, the assertions hold if and only if the fields are disjoint |
| `RegisterFile.NestedFieldPasses` | core/sr_register/sc_register.h:764-776 | A field created inside an earlier one is not noticed |
| `RegisterFile.InsertField` | core/sr_register/sc_register.h:762-778 | One insertion keeps the order and adds the field; its assertion holds if and only if the field starts above every earlier one that ends lower |
| `RegisterFile.SortFields` | core/sr_register/sc_register.h:758-782 | A permutation by non-increasing highest bit; passes if and only if every field starts above those created before it that end lower |
| `RegisterFile.FieldsMask` | core/sr_register/sc_register.h:784-801 | The mask has exactly the bits of some field, all 32 without fields |
| `RegisterFile.Register.CheckAndInit` | core/sr_register/sc_register.h:753-808 | Sorts, checks, computes the mask and resets the value within it |
| `RegisterFile.Register.Write` | core/sr_register/sc_register.h:722-743 | The value within the fields |
| `RegisterFile.Register.FieldWrite` | core/sr_register/sc_register.h:835-837 | The field write of the specification |
| `RegisterFile.Register.FieldRead` | core/sr_register/sc_register.h:827-829 | The field's value |
| `RegisterFile.Register.BusWrite` | core/sr_register/sr_register.h:199-203 | The bus write of the specification, by the write mask |
| `RegisterBank.ReadAfterWrite` | core/sr_register/sr_register.h:403-439 | After a byte write a byte read gives the bytes written, each within the write mask and the field mask of its register, and zero where no register is |
| `RegisterBank.LastWordKept` | core/sr_register/sr_register.h:421-439 | The writable bits of a partial last word beyond the write are kept |
| `RegisterBank.OthersUntouched` | core/sr_register/sr_register.h:310-316 | Registers at other offsets are untouched |
| `RegisterBank.WriteTwice` | core/sr_register/sr_register.h:421-439 | Writing the same bytes again changes nothing they show |
| `RegisterBank.Bank.CreateRegister` | core/sr_register/sr_register.h:281-289 | Maps a new register at the offset |
| `RegisterBank.Bank.BusRead` | core/sr_register/sr_register.h:318-326 | The register's word, zero where there is none |
| `RegisterBank.Bank.BusWrite` | core/sr_register/sr_register.h:328-334 | A bus write to that register and to no other |
| `RegisterBank.Bank.ScireegRead` | core/sr_register/sr_register.h:403-418 | The loop returns the bytes of the byte view and leaves the rest of the buffer alone |
| `RegisterBank.Bank.ScireegWrite` | core/sr_register/sr_register.h:421-439 | The loop writes every word of the stretch once, the last in part, and nothing else |
| `StringListRoundTrip.PrintedReadBack` | core/sr_param/sr_param_native.h:731-814 | What the parser makes of every printed list whose strings do not start with a quote: up to the first string with a final backslash each string without its escapes; that string is lost if it is the last; otherwise it is read with a comma, and then commas in place of the strings, or the parser does not end |
| `StringListRoundTrip.RoundTripIff` | core/sr_param/sr_param_native.h:731-814 | Reading a printed list gives it back if and only if no string has a quote right after a backslash or ends in a backslash; for all lists whose strings do not start with a quote |
| `StringListRoundTrip.RoundTripUnescapes` | core/sr_param/sr_param_native.h:731-814 | Unless a string ends in a backslash, every string is read without the backslashes before its quotes |
| `StringListRoundTrip.RoundReadsString` | core/sr_param/sr_param_native.h:789-808 | One round reads one string and nothing of what follows |
| `StringListRoundTrip.UnescapeEscape` | core/sr_param/sr_param_native.h:742-752 | Escaping and unescaping a string is unescaping it |
| `StringListRoundTrip.UnescapeShortens` | core/sr_param/sr_param_native.h:800-805 | Unescaping changes a string if and only if it has a quote right after a backslash |
| `StringListRoundTrip.LastStringLost` | core/sr_param/sr_param_native.h:794-797 | A last string that ends in a backslash is lost |
| `StringListRoundTrip.CommaSwallowed` | core/sr_param/sr_param_native.h:794-797 | Any other is read with its closing quote and the comma after it, and the text goes on inside the opening quote of the next string |
| `StringListRoundTrip.OutOfPhase` | core/sr_param/sr_param_native.h:786-808 | From inside an opening quote on, a comma is read in place of each string but the last; on a string with a quote or a final backslash the parser does not end |
| `StringListRoundTrip.HangsIff` | core/sr_param/sr_param_native.h:789-792 | The parser does not end on a printed list if and only if, after a string that ends in a backslash, there is one that has a quote or ends in a backslash |
| `StringListRoundTrip.PrintedTextHangs` | core/sr_param/sr_param_native.h:789-792 | Such a list |
| `StringList.EscapeQuotes` | core/sr_param/sr_param_native.h:742-752 | The loop, which finds each escaped quote again, ends and has escaped each quote once |
| `StringList.Serialize` | core/sr_param/sr_param_native.h:731-758 | The printer computes the text form |
| `StringList.EncodeJoins` | core/sr_param/sr_param_native.h:731-758 | The text form of a list is its quoted strings with commas between, in braces |
| `StringList.UnescapeQuotes` | core/sr_param/sr_param_native.h:800-805 | The loop takes the backslash before each quote away |
| `StringList.ClosingQuote` | core/sr_param/sr_param_native.h:794-797 | The loop finds the first quote that is not escaped |
| `StringList.NextValue` | core/sr_param/sr_param_native.h:786-808 | One round of the parser |
| `StringList.Deserialize` | core/sr_param/sr_param_native.h:768-814 | The parser computes the reading of the text: values, no values for the empty text, an error if and only if a text has no brace, or no end |
| `Brackets.CloseExpression` | core/tools/cpplint.py:1246-1289 | For the four pairs (), [], {} and <>: past the one bracket that closes the expression, over any number of lines; (line, number of lines, -1) if and only if none does or there is no opening bracket |
| `Brackets.ReverseCloseExpression` | core/tools/cpplint.py:1319-1361 | At the one bracket that opens it, by the same relation; (line, 0, -1) if and only if there is none |
| `Brackets.FindEndOfExpressionInLine` | core/tools/cpplint.py:1222-1243 | The first closing bracket of the line at which the depth comes to 0, or the depth at its end |
| `Brackets.FindStartOfExpressionInLine` | core/tools/cpplint.py:1292-1316 | The last opening bracket at which it does, or the depth at its start |
| `Brackets.MatchesFromClose` | core/tools/cpplint.py:1319-1361 | Matching seen from the closing bracket is matching seen from the opening one |
| `Brackets.ClosedUnique` | core/tools/cpplint.py:1222-1361 | A bracket has at most one partner on either side, over several lines |
| `Brackets.ThereAndBack` | core/tools/cpplint.py:1246-1361 | The backward search from where the forward search ended returns to the start |
| `Brackets.BackAndThere` | core/tools/cpplint.py:1246-1361 | And conversely |
| `Preprocessor.ErasedFileSameState` | core/tools/cpplint.py:1840-1894 | Whatever lines do to the stack, also ill-nested ones: the whole state after a file is that after the file without each stretch from a first #else or #elif to its #endif if and only if the file does not end inside an #else branch |
| `Preprocessor.WellNestedFile` | core/tools/cpplint.py:1840-1894 | For a well-nested file so, and `pp_stack` is empty again |
| `Preprocessor.ElseStartsFresh` | core/tools/cpplint.py:1864-1876 | Every #else or #elif starts from the stack as it was before its #if, whatever the branches before it have done, and then has the effect of its own line |
| `Preprocessor.StrayIgnored` | core/tools/cpplint.py:1864-1894 | Without an #if, an #else or #endif does nothing: the stack is that of the effects of the lines alone |
| `Preprocessor.OuterKept` | core/tools/cpplint.py:1860-1894 | Well-nested lines leave the outer part of `pp_stack` as it was |
| `Preprocessor.EraseConditional` | core/tools/cpplint.py:1850-1857 | Of a conditional the #if, its first branch and the #endif stay |
| `Preprocessor.OpenBranchDiffers` | core/tools/cpplint.py:1864-1876 | A file that ends inside an #else branch, with another stack |
| `Preprocessor.NestingState.UpdatePreprocessor` | core/tools/cpplint.py:1840-1894 | The step of the specification on the two stacks |
| `Preprocessor.NestingState.Update` | core/tools/cpplint.py:1896-1908 | The directive first, then the effect of the line |
| `Preprocessor.NestingState.Process` | core/tools/cpplint.py:1896-2050 | Line by line over a file |
| `Signals.Selector.Write` | core/sr_signal/sr_signal_selector.h:77-84 | Despite the early exit, exactly the bound channels whose bit is set are written; each channel of a field has the value if and only if a selected output feeds it, and otherwise what it had |
| `Signals.NoneLeft` | core/sr_signal/sr_signal_selector.h:79-79 | Where the loop ends no bound channel is left that the mask selects |
| `Signals.LastWriteCounts` | core/sr_signal/sr_signal_infield.h:96-115 | After any sequence of writes to a selector an input channel holds the value of the last write that reached it, and what it had at first if none did |
| `Signals.Selector.Bind` | core/sr_signal/sr_signal_selector.h:55-69 | The output of a channel is made once and gets the receiver after those it has, unless it has it; every other output keeps its receivers |
| `Signals.Out.Bind` | core/sr_signal/sr_signal_out.h:47-57 | A receiver is added unless it is there |
| `Signals.Out.Write` | core/sr_signal/sr_signal_out.h:64-71 | The value is stored and every receiver takes it over |
| `Signals.Infield.Update` | core/sr_signal/sr_signal_infield.h:96-120 | The channel of the sender takes its value, nothing without one |
| `Signals.Connect` | core/sr_signal/sr_signal_connect.h:44-46 | Connects a channel of a selector with a channel of a field: the output gets the field, the field the channel and its initial value unless it has them; nothing else changes |

## Left out

- Time: delays, clocks and the times at which queues deliver; a queue may deliver in any order.
- Statistics, power model, debug transport, direct memory pointers, logging and message charts.
- The split phase beyond being ignored, as the code does.
- That one object serves both abstraction levels: the AT and the LT controller are two classes, of which the code uses one by its parameter.
- AHBMaster, AHBSlave, AHBDevice and the memories behind the bus, which are seen only through their phases.
- AddressDecoder.Decoder.GetIndex: requires an entry at or below the address or a hit in the cache, because the code steps before the first entry of the map otherwise, which has no defined result.
- AtController.Controller.AcceptThread: requires an unambiguous slave table, here and in every valid AT controller, because where an address goes is a function of the address; with an ambiguous table the code's answer depends on what its cache holds (`AddressDecoder.Decoder.GetIndex` says how). A silent overlap check with aligned bases makes a table unambiguous (`MemoryMap.SilentMeansUnambiguous`).
- LtController.Controller.TryToEnter: requires an unambiguous slave table for the same reason, as does every valid LT controller.
- Address arithmetic of 32 or 64 bits in banks (offset plus index) and the address wrap of a decoder base, which is at most 12 bits, are unbounded numbers; the wrap in `checkMemMap` and in the configuration area is modelled.
- The configuration area on a big-endian host, where no swap takes place.
- Register callbacks, probe events, access modes and value mnemonics; widths other than 32 bits.
- RegisterFile.Register.CheckAndInit: a failed assertion does not stop the model; the result says that it failed, and the rest is as with assertions compiled out.
- RegisterBank.Bank.CreateRegister: the second form of `create_register`, which does not replace a register, is not modelled.
- StringList.Serialize: requires that no string starts with a quote, because the code reads the character before it.
- StringList.Deserialize: reads outside the text count as no backslash: the character before a first quote at position 0, and that before the position that stands for nothing found; the error report for a text without a brace ends the call.
- The other specialisations of `sr_param`, which depend on stream formatting.
- Elements of the nesting stack are values: the deep copies of `cpplint.py` are what makes that right, and what a line does to the stack is a parameter.
- The regular expressions that tell directives apart, and all lint checks.
- Signals.Selector.Write: requires channels below 32, because the code shifts a 32-bit one by the channel.
- `operator()` of the selector and of the input field, which bind the wrong kind of sender (a note in the source says so), callbacks, and other kinds of receivers.
