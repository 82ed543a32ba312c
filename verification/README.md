# Two-hop RT-LoRa network server

A model of the network server's scheduling and messaging logic, of the JSON library it uses, of its
cryptography and codecs, and of its packet queue, with proofs of the properties they are built for.

- **Slots and schedules.** `SlotSpec` says what one schedule group is: disjoint slot intervals in
  ascending order, filled first-fit. `SlotList` is the linked list that holds it, `Schedules` the array
  of groups.
- **Registry.** `RegistrySpec` says what the node registry is: a sequence of nodes with child tables and
  derived demands. `NodeList` is the doubly linked list that holds it.
- **Server.** `ServerSpec`, `Greedy` and `Balance` are about `schedule()`: consistency of registry and
  groups, load balance, full use of the slots. `Placement` says where `schedule()` puts a node and what
  the flags tell afterwards, `ConnectionMarks` who is connected. `Runs` is the state machine of the server, whose steps
  (registration, absorption, the phases' scheduling and messages) may come in any order; `Demands`,
  `RelayTree` and `ChildRecords` say what registrations alone decide on every run. `Server` is the heap, with a method for
  each step except the two that send a message, which are in `Phases`.
- **Messages.** `Wire` holds the bytes and the readers of the three downlink messages, `Distribution`
  and `Collection` what the two phases announce, `Announcements` what an end node reads in each message,
  `Layout` the bit fields of the messages, `Downlink` the methods that write the payload, `Phases` the two
  phases as loops on the heap, with the payloads they hand to the transmit queue.
- **JSON.** `Json` says what the parser and the printer of parson.c compute. `JsonGrammar` is the language
  of the parser as a grammar, with the proof that exactly this language is accepted; `JsonEscapes` is its
  part about escapes. `JsonRoundTrip` proves that the parser undoes the printer, `JsonParser` and
  `JsonPrinter` are the programs, `JsonUtf8` is the UTF-8 check.
- **Cryptography.** `AesBytes`, `AesField`, `Aes` and `Cbc` are AES-128 (FIPS 197) as functions,
  `AesState` the program that works in place; `Cmac` is RFC 4493, `Rfc4493` its second example with the
  key schedule of FIPS 197, `Crypto` payloads, join-accept messages and integrity codes.
- **Codec and queue.** `Base64` is section 4 of RFC 4648; `Queue` is the packet queue as a protocol of
  several threads, `PacketQueue` its linked list.

A program part that updates its data in place is a class or a method over arrays, tied by its
postcondition to a function of the old state; the properties are lemmas about those functions. Integer
widths are written out wherever they can be exceeded.

Where the code does not do what it is for, the exact condition is a lemma: an empty group takes a node
that is larger than the group (`SlotSpec.ScheduleKeepsPacked`, `Demands.OversizedNode`), a relay's demand
wraps at 256 (`Runs.DemandExactIff`, `Runs.VanishingDemand`, `Demands.ExactIff`), neither of which happens
while all classes are at least three below the exponent of the group size (`Demands.ClassBoundIff`), a child that registers elsewhere stays
listed where it was (`RelayTree.RegisterKeepsTreeIff`, `RelayTree.MovedChild`), a relay that registers again
forgets its children (`RelayTree.RegisterKeepsListedIff`, `RelayTree.OrphanedChild`), the growth of a relay
below another is not seen above (`ChildRecords.RegisterKeepsCurrentIff`, `ChildRecords.PlanIff`), a refused two-hop
registration costs a node its place but not its flag (`ServerSpec.FlagsHonestIff`,
`ServerSpec.LostPlaceExample`), join-accept messages shorter than a block are not restored
(`Crypto.BlockArrivesIff`), payloads above 256 bytes and messages above 239 bytes are not encrypted or authenticated whole (`Crypto.EncryptsIff`,
`Crypto.MicCoversIff`), control characters without an escape are printed but not read back
(`JsonRoundTrip.TextReadsBack`), and two producers or two consumers break the packet queue
(`Queue.BoundedIff`, `Queue.BreaksIff`). The comment in crypto.c calls a join-accept message encrypted;
only its first block is (`Crypto.EncryptJoinAccept`).

## Model

| member | source | states |
|---|---|---|
| SlotSpec.FirstFit | twohop_rtlora_sv/Source/schedule_mngt.c:187-225 | smAssignLsiToNode returns 0 exactly when no free run of the demanded length exists in the group; otherwise it returns the start of a free run, and no smaller start has one |
| SlotSpec.ScheduleKeepsPacked | twohop_rtlora_sv/Source/schedule_mngt.c:36-52 | scheduling a node keeps the slot intervals ascending, disjoint and inside the group if and only if the demand is positive and, when the list is empty, at most the group's size (the missing capacity test of line 193) |
| SlotSpec.ScheduleKeepsCounters | twohop_rtlora_sv/Source/schedule_mngt.c:228-285 | scheduling keeps the four counters exact if and only if the countdown is positive, or the demand is positive and the group, not empty, has no free run of that length: nboDistReq is incremented whatever the countdown is |
| SlotSpec.NoRunIff | twohop_rtlora_sv/Source/schedule_mngt.c:36-52 | a node is refused exactly when the group is not empty, the demand is positive and no free run of that length exists |
| SlotSpec.InsertSplits | twohop_rtlora_sv/Source/schedule_mngt.c:228-275 | the insertion loop puts a node behind every node that does not start after it, and in front of the first that does |
| SlotSpec.RemoveKeepsCounters | twohop_rtlora_sv/Source/schedule_mngt.c:54-84 | removing a node by address keeps the node count, the slot sum and the number of pending announcements exact |
| SlotSpec.RemoveKeepsPacked | twohop_rtlora_sv/Source/schedule_mngt.c:54-84 | removing a node leaves the remaining intervals ascending and disjoint |
| SlotSpec.SetDistKeepsCounters | twohop_rtlora_sv/Source/schedule_mngt.c:128-149 | setting a countdown keeps nboDistReq equal to the number of nodes with a positive countdown |
| SlotSpec.SlotRunKeepsGroupOk | twohop_rtlora_sv/Source/schedule_mngt.c:27-149 | over every run of schedule, remove, clear and set-countdown with admissible arguments: packed intervals, exact counters, and nboRmnSlots + nboAsgSlots = 0 modulo 2^32 |
| SlotSpec.GaplessSchedule | twohop_rtlora_sv/Source/schedule_mngt.c:36-52 | on a list filled only by insertions a node is accepted exactly when nboAsgSlots + demand fits the group; it then goes behind all others, and smGetLastAsgLsi equals nboAsgSlots |
| SlotSpec.CountersNeverWrap | twohop_rtlora_sv/Source/schedule_mngt.c:228-285 | with exact counters and distinct 16-bit addresses the unsigned counters never wrap |
| SlotList.SchList.constructor | twohop_rtlora_sv/Source/schedule_mngt.c:27-34 | smInitSchedule: an empty list with the counters of the empty group |
| SlotList.SchList.AssignLsiToNode | twohop_rtlora_sv/Source/schedule_mngt.c:187-225 | the walk along the list returns the start slot that the search on the list's value defines, for which first fit is proved |
| SlotList.SchList.AddNodeToScheduleList | twohop_rtlora_sv/Source/schedule_mngt.c:228-285 | the linked list after the in-place insertion is the sequence with the node inserted by start slot, and all counters are updated |
| SlotList.SchList.ScheduleOneNode | twohop_rtlora_sv/Source/schedule_mngt.c:36-52 | the list after the call and the result are those of scheduling on the list's value, refusal included |
| SlotList.SchList.RemoveOneNode | twohop_rtlora_sv/Source/schedule_mngt.c:54-84 | the list after unlinking is the sequence without the first node of that address; an unknown address changes nothing |
| SlotList.SchList.ClearSchedule | twohop_rtlora_sv/Source/schedule_mngt.c:86-114 | the list is empty and every counter is reset |
| SlotList.SchList.NodeSetNboSchDist | twohop_rtlora_sv/Source/schedule_mngt.c:128-149 | only the countdown of the addressed node changes, and nboDistReq follows it |
| SlotList.SchList.GetLastAsgLsi | twohop_rtlora_sv/Source/schedule_mngt.c:151-163 | the last slot of the last node of the list, 0 when it is empty |
| RegistrySpec.PushTable | twohop_rtlora_sv/Source/device_mngt.c:82-140 | pushNode changes the registry at one address only and keeps addresses unique |
| RegistrySpec.PushKeepsOrder | twohop_rtlora_sv/Source/device_mngt.c:107-132 | pushing a new address into a sorted list keeps it non-increasing in demand and puts the node behind its equals |
| RegistrySpec.RegisterKeepsOrder | twohop_rtlora_sv/Source/rtlora_mac.c:1204-1253 | the registration of a new address, accepted or refused, keeps NODES in the order of falling demand: the parent of a two-hop node moves to where its new demand belongs |
| Placement.StepKeepsOrder | twohop_rtlora_sv/Source/rtlora_mac.c:428-619 | every step of the server keeps NODES in that order, but for the absorption of an address that it already holds |
| Runs.QueueIs | twohop_rtlora_sv/Source/device_mngt.c:82-157 | RNL is a queue: a new address goes to its end, a known one is updated where it stands, and the head is absorbed first |
| RegistrySpec.PopTable | twohop_rtlora_sv/Source/device_mngt.c:174-208 | popNodeByAddress removes exactly the entry of that address |
| RegistrySpec.AddChildKeepsNodeOk | twohop_rtlora_sv/Source/device_mngt.c:417-456 | adding a child keeps the parent's demand, child count and distinct children consistent, and succeeds exactly when the child is known to the parent or a child slot is empty |
| RegistrySpec.ChildSlot | twohop_rtlora_sv/Source/device_mngt.c:417-456 | the child gets its own slot, otherwise the first empty one, and the other slot stays as it was; a refused child changes nothing |
| RegistrySpec.DroppedKids | twohop_rtlora_sv/Source/device_mngt.c:409-415 | dmRemoveChildOfNode leaves a consistent node that lists nobody, and changes nothing but table, child count and demand |
| RegistrySpec.IsRelayIff | twohop_rtlora_sv/Source/device_mngt.c:231-243 | in a consistent registry dmIsRelayNode is true exactly when the address is registered and some slot of its child table has a nonzero address |
| RegistrySpec.RelaysAre | twohop_rtlora_sv/Source/device_mngt.c:245-254 | dmGetNboRelays counts exactly the addresses whose child tables have such a slot |
| RegistrySpec.KidsAllConnected | twohop_rtlora_sv/Source/device_mngt.c:278-290 | dmSetChildConnStatus reaches every listed child, none of which is missing, and gives it the status |
| ConnectionMarks.OneHopMarks | twohop_rtlora_sv/Source/rtlora_mac.c:1214-1222 | a one-hop registration in full: the registrant is put in place, exactly the children of its former table are left unconnected, and every other node stays as it is |
| ConnectionMarks.ScheduleConnects | twohop_rtlora_sv/Source/rtlora_mac.c:656-707 | schedule() connects exactly the nodes that it places and the children in their tables, and disconnects nobody |
| RegistrySpec.RegisterTable | twohop_rtlora_sv/Source/rtlora_mac.c:1204-1253 | the effect of a registration, accepted or refused, on the table of every address |
| RegistrySpec.RefusedIff | twohop_rtlora_sv/Source/rtlora_mac.c:1224-1250 | a registration is refused exactly when it is a two-hop one whose parent is not registered, or whose parent's two child slots are taken by other nodes |
| RegistrySpec.RegisterKeepsRegistryOk | twohop_rtlora_sv/Source/rtlora_mac.c:1204-1253 | every registration keeps the registry invariant: derived demand modulo 256, child counts, distinct children, every child registered, unique addresses |
| Runs.DemandExactIff | twohop_rtlora_sv/Source/device_mngt.c:417-456 | a node's stored demand is 2^class plus twice its children's demands if and only if that sum is below 256, the width of slotDmn |
| Runs.VanishingDemand | twohop_rtlora_sv/Source/device_mngt.c:417-456 | a concrete relay whose stored demand wraps to 0 and is then scheduled without a slot of its own |
| Demands.ExactIff | twohop_rtlora_sv/Source/device_mngt.c:417-456 | whatever registers and in whatever order, all stored demands are exact on every run, if and only if no class above 5 registers |
| Demands.ClassBoundIff | twohop_rtlora_sv/Source/rtlora_mac.c:428-619 | with groups of 2^n slots every run, over registrations of classes up to c in any order and any interleaving of the steps, keeps all groups packed with exact counters, if and only if c + 3 <= n |
| Demands.OversizedNode | twohop_rtlora_sv/Source/schedule_mngt.c:187-225 | a concrete run of three steps after which a group of 64 slots holds a node of 128 |
| RelayTree.OneParent | twohop_rtlora_sv/Source/device_mngt.c:417-456 | in a tree, where every listed child is a two-hop node whose own parent is the node that lists it, no child is listed by two parents |
| RelayTree.RegisterKeepsTreeIff | twohop_rtlora_sv/Source/rtlora_mac.c:1204-1253 | a registration keeps the registry a tree if and only if it is not an accepted one that moves a listed child: to another parent, or to one hop |
| RelayTree.StepKeepsTreeIff | twohop_rtlora_sv/Source/rtlora_mac.c:428-619 | every step of the server keeps the registry a tree, except exactly the absorption of such a registration |
| RelayTree.MovedChild | twohop_rtlora_sv/Source/rtlora_mac.c:1223-1241 | four registrations after which two parents list the same child and the first still asks for its slots |
| RelayTree.RegisterKeepsListedIff | twohop_rtlora_sv/Source/rtlora_mac.c:1204-1253 | a registration keeps every two-hop node in the child table of the parent it names, if and only if it is not an accepted one of a node that has such children: its new table is empty |
| RelayTree.StepKeepsListedIff | twohop_rtlora_sv/Source/rtlora_mac.c:428-619 | every step of the server keeps it, except exactly the absorption of such a registration |
| RelayTree.OrphanedChild | twohop_rtlora_sv/Source/rtlora_mac.c:1217-1222 | three registrations after which a two-hop node names a parent that neither lists it nor asks for its slots |
| ChildRecords.RegisterKeepsCurrentIff | twohop_rtlora_sv/Source/rtlora_mac.c:1204-1253 | a registration keeps every class and demand in the child tables equal to what the registry holds, if and only if it neither leaves an old record with another node than the new parent nor changes the demand of a parent that is itself listed |
| ChildRecords.StepKeepsCurrentIff | twohop_rtlora_sv/Source/rtlora_mac.c:428-619 | every step of the server keeps the records up to date, except exactly the absorption of such a registration |
| ChildRecords.PlanIff | twohop_rtlora_sv/Source/device_mngt.c:417-456 | when every node keeps its hop and parent, all records are up to date on every run from start-up, whatever the classes and the order of the steps, if and only if no two-hop node is registered under a two-hop node under a one-hop node |
| RelayTree.AddressZero | twohop_rtlora_sv/Source/device_mngt.c:417-456 | a child of address 0 is counted in the parent's demand but not as a child, and the next child takes its slot without taking the demand back |
| NodeList.MngtNode.constructor | twohop_rtlora_sv/Source/device_mngt.c:49-79 | createNewNode: unscheduled, unconnected, without children |
| NodeList.MngtNode.AddChildToNode | twohop_rtlora_sv/Source/device_mngt.c:417-456 | the parent after the in-place update of its child table is AddChild of its value |
| NodeList.MngtNodeList.PushNode | twohop_rtlora_sv/Source/device_mngt.c:82-140 | the doubly linked list after the call holds Push of its old value, with prev and next mutually inverse and the tail last; 1 is returned exactly for a new address |
| NodeList.MngtNodeList.PopHeadNode | twohop_rtlora_sv/Source/device_mngt.c:142-157 | the head leaves the list and the rest stays in order; null exactly for the empty list |
| NodeList.MngtNodeList.PopNodeByAddress | twohop_rtlora_sv/Source/device_mngt.c:174-208 | the addressed node leaves the list and nothing else changes; null exactly when the address is unknown |
| NodeList.MngtNodeList.GetNodeReferenceByAddress | twohop_rtlora_sv/Source/device_mngt.c:214-223 | the first node with the address, null when there is none |
| NodeList.MngtNodeList.SetChildConnStatus | twohop_rtlora_sv/Source/device_mngt.c:278-290 | the connection marks of all children are set, and no child is missing |
| NodeList.MngtNodeList.RemoveChildOfNode | twohop_rtlora_sv/Source/device_mngt.c:409-415 | the node's children are forgotten and its demand is recomputed from its class |
| NodeList.MngtNodeList.SetSchFlagAll | twohop_rtlora_sv/Source/device_mngt.c:361-367 | every flag has the value, and nothing else changes |
| NodeList.MngtNodeList.GetNboRelays | twohop_rtlora_sv/Source/device_mngt.c:245-254 | the number of addresses with a child in their tables, modulo 256 |
| NodeList.MngtNodeList.IsRelayNode | twohop_rtlora_sv/Source/device_mngt.c:231-243 | in a consistent registry, whether the address is registered with a nonzero address in its child table |
| Schedules.ScheduleArray.RemoveNode | twohop_rtlora_sv/Source/rtlora_mac.c:709-714 | the address is removed from every group, whose lists stay separate |
| Schedules.ScheduleArray.Clear | twohop_rtlora_sv/Source/rtlora_mac.c:716-723 | every group is cleared |
| Schedules.ScheduleArray.GetIndexOfLowestLoadSch | twohop_rtlora_sv/Source/rtlora_mac.c:642-654 | the first of the groups with the fewest assigned slots |
| Schedules.ScheduleArray.Place | twohop_rtlora_sv/Source/rtlora_mac.c:667-689 | a node leaves its old group and is tried in the least loaded one |
| Server.Server.Schedule | twohop_rtlora_sv/Source/rtlora_mac.c:656-707 | the loop over NODES leaves the registry, the groups and the count that ScheduleFrom defines |
| Server.Server.AddNodeToNodes | twohop_rtlora_sv/Source/rtlora_mac.c:1204-1253 | the heap after a registration into NODES holds the registry and groups of AddNode, with its verdict |
| Server.Server.Receive | twohop_rtlora_sv/Source/rtlora_mac.c:1208-1211 | a registration enters RNL as the step Receive of the state machine |
| Server.Server.Absorb | twohop_rtlora_sv/Source/rtlora_mac.c:792-812 | the head of RNL moves to NODES as the step Absorb |
| Server.Server.AbsorbAll | twohop_rtlora_sv/Source/rtlora_mac.c:553-568 | the loop of the data collection phase moves all of RNL to NODES, one Absorb step for each node, and leaves RNL empty |
| Server.Server.StartPhase | twohop_rtlora_sv/Source/rtlora_mac.c:435-441 | the distribution phase starts as the step StartPhase: flags and groups cleared, everybody scheduled |
| Server.Server.ScheduleStep | twohop_rtlora_sv/Source/rtlora_mac.c:570-571 | the scheduling of a frame is the step Schedule |
| Power.IPow | twohop_rtlora_sv/Source/rtlora_mac.c:1033-1047 | repeated squaring computes the power, and powers of two are the slot demands |
| Greedy.LowestDecides | twohop_rtlora_sv/Source/rtlora_mac.c:642-654 | the least loaded group has room for a demand exactly when some group has |
| Greedy.RefusedHasNoRoom | twohop_rtlora_sv/Source/rtlora_mac.c:642-654 | trying only the least loaded group is never wrong: a refused demand fits into no group, not even at the end of the run |
| Greedy.FillSpread | twohop_rtlora_sv/Source/rtlora_mac.c:642-707 | loads never differ by more than the largest demand placed |
| Greedy.ChainFills | twohop_rtlora_sv/Source/rtlora_mac.c:642-707 | demands that divide one another fill min(total, capacity) slots, and none is refused exactly when the total fits |
| Balance.RunDeals | twohop_rtlora_sv/Source/rtlora_mac.c:656-707 | a run of schedule() over cleared groups deals out the demands as the arithmetic model does, node by node |
| Balance.GreedyDistribution | twohop_rtlora_sv/Source/rtlora_mac.c:435-441 | after the start of the phase a one-hop node without a place fits into no group, and loads differ by at most the largest demand scheduled |
| Balance.PerfectUtilisation | twohop_rtlora_sv/Source/rtlora_mac.c:435-441 | with demands that are powers of two in non-increasing order exactly min(demand, capacity) slots are used, and everybody is scheduled if and only if the demand is at most the capacity |
| Balance.OneHopNetwork | twohop_rtlora_sv/Source/rtlora_mac.c:656-707 | for every network of one-hop nodes, registered in any order, everybody is scheduled if and only if the slots suffice |
| ServerSpec.ScheduleKeeps | twohop_rtlora_sv/Source/rtlora_mac.c:656-707 | schedule() keeps the cross-structure consistency |
| Placement.PlaceOneIs | twohop_rtlora_sv/Source/rtlora_mac.c:667-689 | a node leaves its old place and is tried in the first of the groups with the fewest slots in use by others: there it gets the first free run, or it is refused and no run is free; all other places stay |
| Placement.FlagsAre | twohop_rtlora_sv/Source/rtlora_mac.c:656-707 | after schedule() the flag of every one-hop node tells whether it has a place, when no flag lied before |
| Placement.CountIs | twohop_rtlora_sv/Source/rtlora_mac.c:656-707 | schedule() returns how many one-hop nodes waited, placed or not |
| ServerSpec.AddNodeKeeps | twohop_rtlora_sv/Source/rtlora_mac.c:1204-1253 | a registration keeps it, whether accepted or refused |
| ServerSpec.AddNodeGroups | twohop_rtlora_sv/Source/rtlora_mac.c:1214-1226 | a one-hop registration leaves every group as it is; after a two-hop one, accepted or refused, each group holds exactly the entries of other addresses, in the same order |
| Runs.AbsorbSchedules | twohop_rtlora_sv/Source/rtlora_mac.c:1204-1253 | absorbing a registration takes a node out of the schedule exactly when it is the registrant of a two-hop registration, and everybody else keeps group, slots and countdown |
| ServerSpec.FlagsHonestIff | twohop_rtlora_sv/Source/rtlora_mac.c:1224-1246 | after a registration every flagged one-hop node still has a place, if and only if it was not a two-hop registration of a flagged one-hop node whose parent is unknown or has its child slots taken by others |
| ServerSpec.LostPlaceExample | twohop_rtlora_sv/Source/rtlora_mac.c:1224-1246 | a concrete refused registration after which a node keeps its flag, has no place and is never tried again |
| Runs.BootOk | twohop_rtlora_sv/Source/rtlora_mac.c:245-270 | the state after start-up is consistent: no nodes, no queue, and as many empty groups of the given size as there are channels |
| Runs.StepKeepsOk | twohop_rtlora_sv/Source/rtlora_mac.c:428-619 | every step, in any order, keeps the consistency of registry, queue and groups |
| Runs.RunKeepsOk | twohop_rtlora_sv/Source/rtlora_mac.c:245-283 | on every run from start-up: no address is in two groups, every scheduled address is a one-hop entry of NODES, and a flagged one has its registered class and demand |
| Runs.RunKeepsGroups | twohop_rtlora_sv/Source/rtlora_mac.c:428-619 | on every run whose scheduled demands lie between 1 and the group size, all groups stay packed with exact counters |
| Runs.StepHonestIff | twohop_rtlora_sv/Source/rtlora_mac.c:428-619 | every step keeps the flags honest, except exactly the absorption of a two-hop registration, with an unknown or full parent, of a flagged one-hop node |
| Distribution.SmNeverRunsOff | twohop_rtlora_sv/Source/rtlora_mac.c:830-907 | an SM carries min(31, nboDistReq) nodes of the first group that asks, starting at the first pending one, and never runs off the list |
| Distribution.AnnounceLowers | twohop_rtlora_sv/Source/rtlora_mac.c:878-905 | lowering countdowns by address lowers exactly those of the nodes listed |
| Distribution.SmStep | twohop_rtlora_sv/Source/rtlora_mac.c:816-916 | the pending nodes are a suffix of each list, and a message moves its nodes from owed to sent |
| Distribution.PhaseConserves | twohop_rtlora_sv/Source/rtlora_mac.c:428-482 | what is owed at the start of a phase is what is sent followed by what is still owed, in order |
| Distribution.PhaseCompletes | twohop_rtlora_sv/Source/rtlora_mac.c:428-482 | nothing is owed after the slots of a phase if and only if the sum over the groups of n/31, rounded up, is at most their number |
| Distribution.SmIsFaithful | twohop_rtlora_sv/Source/rtlora_mac.c:816-916 | start slot plus the running sum of the listed demands gives every listed node its startLSI, and the message has at most 105 bytes |
| Announcements.SmSays | twohop_rtlora_sv/Source/rtlora_mac.c:816-916 | what an end node reads in an SM: its number, the SCH2 start slot, how many nodes have children, and address, class and demand of min(31, pending) consecutive nodes of the first group with a pending one, from its first pending node and that node's start slot on; none is sent exactly when nothing is pending |
| Distribution.HeardIsSent | twohop_rtlora_sv/Source/rtlora_mac.c:428-482 | receivers that decode the bytes of every message hear exactly what was sent |
| Distribution.Sch2CountsRelays | twohop_rtlora_sv/Source/rtlora_mac.c:895-899 | the SCH2 start slot is the initial one plus the announced nodes that have a nonzero address in their child tables, modulo 256 |
| Distribution.DistributionPhase | twohop_rtlora_sv/Source/rtlora_mac.c:428-482 | main result of the phase: every scheduled node is heard once or still owed, in slot order; nothing stays owed if and only if 15 messages suffice; no address is in two groups |
| Collection.QuotaIs | twohop_rtlora_sv/Source/rtlora_mac.c:931-939 | the announced number of items is min(15, pending nodes) |
| Collection.CmAnnounces | twohop_rtlora_sv/Source/rtlora_mac.c:918-1025 | a CM emits exactly as many items as it announces, and lowers by one the countdown of each node it names |
| Collection.WalkAllTakes | twohop_rtlora_sv/Source/rtlora_mac.c:956-1013 | the items are the first pending nodes in the order of groups and slots |
| Collection.NamedOnce | twohop_rtlora_sv/Source/rtlora_mac.c:956-1013 | no message names a node twice, and only scheduled nodes are named |
| Collection.CmIsFaithful | twohop_rtlora_sv/Source/rtlora_mac.c:918-1025 | the bytes of a CM decode to the message meant, the child count of every item is the number of children behind it, and there are at most 137 bytes |
| Announcements.CmSays | twohop_rtlora_sv/Source/rtlora_mac.c:918-1025 | what an end node reads in a CM: its number, the last slot in use of every group, and min(15, pending) items, each with group, start slot, address and class of a pending entry of that group and with address and class of exactly the nonzero children of the table registered under its address, in the order of the slots |
| Announcements.RnlSays | twohop_rtlora_sv/Source/rtlora_mac.c:750-814 | what an end node reads in an RNL: its number, the network-ready flag, and address and class of the first min(20, waiting) nodes of RNL in the order of arrival |
| Collection.ScheduleKeepsDebt | twohop_rtlora_sv/Source/rtlora_mac.c:682-687 | schedule() neither adds to nor takes from the announcements owed to a node |
| Collection.FramesConserve | twohop_rtlora_sv/Source/rtlora_mac.c:504-619 | over any number of frames: announcements owed before are those still owed plus those made |
| Collection.CollectionDrains | twohop_rtlora_sv/Source/rtlora_mac.c:504-619 | without registrations, after enough frames nboDistReq is 0 in all groups and every node that was waiting has been announced exactly 3 times, or not at all if it was never placed |
| Runs.MessagesFit | twohop_rtlora_sv/Source/rtlora_mac.c:742-1030 | in every consistent state the RNL, SM and CM messages decode to what was meant and have at most 50, 105 and 137 bytes |
| Wire.SmRoundTrip | twohop_rtlora_sv/Source/rtlora_mac.c:816-916 | reading the bytes of a schedule message gives the message back |
| Wire.CmRoundTrip | twohop_rtlora_sv/Source/rtlora_mac.c:918-1025 | reading the bytes of a command message gives the message back |
| Wire.RnlRoundTrip | twohop_rtlora_sv/Source/rtlora_mac.c:750-814 | reading the bytes of a registration list gives the list back |
| Layout.SmLayout | twohop_rtlora_sv/Source/rtlora_mac.c:79-158 | the bits of an SM are the bit fields declared for it, one after the other from the least significant bit, addresses 0xAEBE and 0xCAFE and 15 SCH1 slots included, whatever the values are |
| Layout.CmLayout | twohop_rtlora_sv/Source/rtlora_mac.c:79-158 | the same for a CM: 13 bits of address and 3 of class for every node and child, and the child count in front of the children |
| Layout.RnlLayout | twohop_rtlora_sv/Source/rtlora_mac.c:79-158 | the same for an RNL |
| Downlink.PrepareRnl | twohop_rtlora_sv/Source/rtlora_mac.c:750-814 | the payload bytes, and the nodes moved from RNL to NODES while they are written |
| Downlink.PrepareSm | twohop_rtlora_sv/Source/rtlora_mac.c:816-916 | the payload bytes, the countdowns and the SCH2 start slot after the message |
| Downlink.PrepareCm | twohop_rtlora_sv/Source/rtlora_mac.c:918-1025 | the payload bytes and the countdowns after the message |
| Phases.SlotSm | twohop_rtlora_sv/Source/rtlora_mac.c:461 | the payload of one SCH1 slot, and the step SlotSm on the state of the server |
| Phases.ScheduleDistributionPhase | twohop_rtlora_sv/Source/rtlora_mac.c:428-495 | the phase as a loop over its 15 slots: payload i is the SM numbered i + 1 on what the first i messages have left pending, until nothing is; from the payloads the end nodes rebuild every place of the new schedule that is not still owed, nothing is owed if and only if 15 messages suffice, and the SCH2 slots waited for are as many as nodes were announced that have a nonzero address in their child tables, modulo 256 |
| Phases.FrameCm | twohop_rtlora_sv/Source/rtlora_mac.c:581-582 | the payload of one command message, and the step FrameCm on the state of the server |
| Phases.FramePeriod | twohop_rtlora_sv/Source/rtlora_mac.c:549-596 | one frame: RNL absorbed, waiting nodes scheduled, and the command message of that state, whose bytes name each address as often as it is announced |
| Phases.DataCollectionPhase | twohop_rtlora_sv/Source/rtlora_mac.c:504-619 | the phase as a loop over any number of frames: payload i is the command message of frame i + 1, with that number modulo 2^16; when they are more than the announcements outstanding, the bytes of all command messages name every node that waited exactly 3 times, or not at all if it found no place, and nothing is owed any more |
| Json.ReadValue | twohop_rtlora_sv/Source/parson.c:555-577 | a value that is read has taken at least one byte, so the recursive descent over integers, strings, words and containers ends |
| JsonRoundTrip.ProcessEscaped | twohop_rtlora_sv/Source/parson.c:495-543 | unescaping undoes escaping, and fails exactly on control characters without an escape |
| JsonRoundTrip.NumberReads | twohop_rtlora_sv/Source/parson.c:692-703 | the decimal text of every int reads back, whatever delimiter follows |
| JsonRoundTrip.ReadsBack | twohop_rtlora_sv/Source/parson.c:555-677 | reading the printed value in front of any rest gives the value and the rest, if and only if it is readable at that depth |
| JsonRoundTrip.TextReadsBack | twohop_rtlora_sv/Source/parson.c:904-911 | parsing the compact or pretty text of any array or object the library can build gives it back and consumes all of it, if and only if the nesting is at most 19 deep and all control characters have escapes |
| JsonGrammar.ParsesIff | twohop_rtlora_sv/Source/parson.c:555-677 | the language of the parser: a text is accepted with value v and rest exactly when, behind white space, it is a text of v by the rules of the grammar: words, integers without leading zeros, strings of characters and escapes, arrays and objects with white space between all tokens, at most 19 containers deep, 122880 items, 960 members and no key twice |
| JsonGrammar.ReadsIff | twohop_rtlora_sv/Source/parson.c:555-577 | the same for a value at any depth |
| JsonGrammar.QuotedIff | twohop_rtlora_sv/Source/parson.c:521-553 | a string is read exactly as the concatenation of its characters and escapes up to the first zero, and ends at the first quote that is not escaped |
| JsonGrammar.NumberIff | twohop_rtlora_sv/Source/parson.c:692-703 | an integer is read exactly from an optional minus sign and decimal digits without leading zeros, in front of what cannot continue it |
| JsonGrammar.PrinterEscapes | twohop_rtlora_sv/Source/parson.c:835-862 | the printer escapes exactly the eight characters that have a short escape, the slash among them |
| JsonGrammar.PrintExample | twohop_rtlora_sv/Source/parson.c:725-833 | the pretty text of an object that holds an array, piece by piece: four spaces to a level |
| JsonUtf8.ValidIff | twohop_rtlora_sv/Source/parson.c:146-213 | a byte string without zeros is accepted exactly when it encodes Unicode scalar values |
| JsonUtf8.EscapeIsValid | twohop_rtlora_sv/Source/parson.c:453-493 | every accepted \\u escape or surrogate pair becomes one valid UTF-8 sequence; which one is JsonEscapes.EscapeIff |
| JsonEscapes.HexIff | twohop_rtlora_sv/Source/parson.c:453-493 | the number read from four characters is u exactly when they are the hexadecimal digits of u, in either case, from the most significant |
| JsonEscapes.UnicodeEscape | twohop_rtlora_sv/Source/parson.c:453-493 | the escape of every Unicode scalar value, or its surrogate pair above 0xFFFF, becomes exactly the UTF-8 bytes of that value, and what follows it is processed behind them |
| JsonEscapes.EscapeIff | twohop_rtlora_sv/Source/parson.c:453-493 | behind the letter u the parser accepts exactly these escapes, with that value and that length |
| JsonEscapes.SurrogateIff | twohop_rtlora_sv/Source/parson.c:453-493 | a surrogate is accepted exactly when it is a high half in front of the escape of a low half |
| JsonEscapes.UnpairedRefused | twohop_rtlora_sv/Source/parson.c:453-493 | a string with an unpaired surrogate is refused, whatever follows |
| JsonUtf8.CheckUtf8 | twohop_rtlora_sv/Source/parson.c:203-213 | the loop of is_valid_utf8 decides validity |
| JsonPrinter.AppendString | twohop_rtlora_sv/Source/parson.c:873-878 | with a buffer the text and its terminator are written, without one only the length is returned |
| JsonPrinter.SerializeString | twohop_rtlora_sv/Source/parson.c:835-862 | the quoted and escaped text is written or counted, with the same result in both modes |
| JsonPrinter.SerializeArray | twohop_rtlora_sv/Source/parson.c:736-760 | the array case writes or counts exactly the printed text |
| JsonPrinter.SerializeObject | twohop_rtlora_sv/Source/parson.c:761-795 | the object case, which looks each value up by its key, writes or counts exactly the printed text |
| JsonPrinter.SerializeValue | twohop_rtlora_sv/Source/parson.c:725-833 | both modes return the length of the text, and a buffer with room for it and its terminator is never overrun |
| JsonPrinter.SerializationSize | twohop_rtlora_sv/Source/parson.c:1214-1218 | the dry run returns the exact size, terminator included |
| JsonPrinter.SerializeToBuffer | twohop_rtlora_sv/Source/parson.c:1220-1230 | it succeeds exactly when the buffer has that size, and then holds the text and a zero; otherwise the buffer is untouched |
| JsonPrinter.SerializeToString | twohop_rtlora_sv/Source/parson.c:1252-1268 | the allocated buffer has exactly the size of the text and its terminator |
| JsonParser.GrowthStops | twohop_rtlora_sv/Source/parson.c:389-400 | tables that double from 15 take exactly as many entries as their limit says, 960 for objects and 122880 for arrays |
| JsonParser.Table.Reserve | twohop_rtlora_sv/Source/parson.c:301-322 | room for one more entry: it fails exactly when the buffer is full and may not grow |
| JsonParser.ArrayAdd | twohop_rtlora_sv/Source/parson.c:389-400 | an item is appended exactly while there are fewer than 122880 |
| JsonParser.ObjectAdd | twohop_rtlora_sv/Source/parson.c:301-322 | a member is appended exactly while there is room and its key is new |
| JsonParser.Cursor.SkipQuotes | twohop_rtlora_sv/Source/parson.c:438-451 | the cursor stops behind the next unescaped quote |
| JsonParser.ProcessString | twohop_rtlora_sv/Source/parson.c:495-543 | the loop over the escapes yields the unescaped bytes up to the first zero |
| JsonParser.ParseNumber | twohop_rtlora_sv/Source/parson.c:692-703 | the cursor and the number after an integer token |
| JsonParser.ParseArray | twohop_rtlora_sv/Source/parson.c:628-664 | the loop over the items reads what ReadArray defines, and leaves the cursor behind it |
| JsonParser.ParseObject | twohop_rtlora_sv/Source/parson.c:579-626 | the loop over the members reads what ReadObject defines |
| JsonParser.ParseValue | twohop_rtlora_sv/Source/parson.c:555-577 | the recursive descent reads what ReadValue defines, and fails when it does |
| JsonParser.ParseString | twohop_rtlora_sv/Source/parson.c:904-911 | the parser returns exactly the value that the text denotes, or nothing |
| AesBytes.InvSboxUndoes | twohop_rtlora_sv/Source/aes.c:101-136 | rsbox undoes sbox at every byte |
| AesBytes.MixColumnIsProduct | twohop_rtlora_sv/Source/aes.c:324-337 | the code's trick with t, Tmp and Tm is the matrix product of section 5.1.3 of FIPS 197 |
| AesBytes.InvMixColumnRows | twohop_rtlora_sv/Source/aes.c:362-378 | the four products in the order in which the code adds them |
| AesBytes.ColumnInverse | twohop_rtlora_sv/Source/aes.c:324-378 | InvMixColumns undoes MixColumns on every column, and the other way round |
| AesField.SboxIsInverse | twohop_rtlora_sv/Source/aes.c:101-118 | sbox is the multiplicative inverse in the field followed by the affine map of section 5.1.1 of FIPS 197 |
| AesField.MultiplyIsProduct | twohop_rtlora_sv/Source/aes.c:340-357 | the five-bit Multiply is the product of the field for every factor below 32 |
| Aes.ShiftRowsMoves | twohop_rtlora_sv/Source/aes.c:290-316 | row r moves left by r columns, and right in the inverse |
| Aes.RconDoubles | twohop_rtlora_sv/Source/aes.c:138-141 | the round constants are successive doublings of 1 |
| Aes.RoundKeyFixesKey | twohop_rtlora_sv/Source/aes.c:188-257 | the key expansion loses nothing: any one round key determines the key |
| Aes.InvCipherUndoes | twohop_rtlora_sv/Source/aes.c:425-473 | InvCipher undoes Cipher for every key schedule and block |
| Aes.CipherUndoes | twohop_rtlora_sv/Source/aes.c:425-473 | Cipher undoes InvCipher, as the join-accept message needs |
| Rfc4493.RoundKeyIs | twohop_rtlora_sv/Source/aes.c:188-257 | the round keys of the key of appendix A.1 of FIPS 197 are those of the standard |
| AesState.Engine.KeyExpansion | twohop_rtlora_sv/Source/aes.c:188-257 | the loops fill RoundKey with the 44 words of section 5.2 of FIPS 197 |
| AesState.Engine.AddRoundKey | twohop_rtlora_sv/Source/aes.c:261-271 | the window of the state gets the round key added; no other byte changes |
| AesState.Engine.SubBytes | twohop_rtlora_sv/Source/aes.c:275-285 | every byte of the window goes through sbox; no other byte changes |
| AesState.Engine.ShiftRows | twohop_rtlora_sv/Source/aes.c:290-316 | the moves through one temporary are the row rotations |
| AesState.Engine.MixColumns | twohop_rtlora_sv/Source/aes.c:324-337 | each column of the window is mixed in place |
| AesState.Engine.InvMixColumns | twohop_rtlora_sv/Source/aes.c:362-378 | each column of the window is unmixed in place |
| AesState.Engine.InvSubBytes | twohop_rtlora_sv/Source/aes.c:383-393 | every byte of the window goes through rsbox |
| AesState.Engine.InvShiftRows | twohop_rtlora_sv/Source/aes.c:395-421 | the moves are the inverse row rotations |
| AesState.Engine.Cipher | twohop_rtlora_sv/Source/aes.c:425-448 | the window becomes the cipher of its old contents under the expanded key, and the bytes around it stay |
| AesState.Engine.InvCipher | twohop_rtlora_sv/Source/aes.c:450-473 | the same for the inverse cipher |
| AesState.Engine.EcbEncrypt | twohop_rtlora_sv/Source/aes.c:482-493 | length bytes are copied, and the first block of the copy is ciphered; nothing else |
| AesState.Engine.EcbDecrypt | twohop_rtlora_sv/Source/aes.c:495-506 | the same with the inverse cipher |
| AesState.Engine.AESEncryptBlock | twohop_rtlora_sv/Source/aes.c:603-620 | one block, under the given key or the round keys of the call before |
| Cbc.DecryptUndoes | twohop_rtlora_sv/Source/aes.c:527-599 | chained decryption undoes chained encryption, for every key schedule, vector and number of blocks |
| Cbc.EncryptUndoes | twohop_rtlora_sv/Source/aes.c:527-599 | and the other way round, so both are bijections |
| Cbc.EncryptInTwoCalls | twohop_rtlora_sv/Source/aes.c:532-554 | a call without a vector goes on where the call before stopped: cutting a message does not change its encryption |
| Cbc.DecryptRecovers | twohop_rtlora_sv/Source/aes.c:582-591 | a changed block spoils only its own block and the next one |
| AesState.Engine.XorWithIv | twohop_rtlora_sv/Source/aes.c:518-525 | the vector is added to one block in place |
| AesState.Engine.CbcEncrypt | twohop_rtlora_sv/Source/aes.c:527-554 | the output holds the chained encryption of the input, the input is left holding what was ciphered, and Iv points to the last block written |
| AesState.Engine.CbcDecrypt | twohop_rtlora_sv/Source/aes.c:564-591 | the output holds the chained decryption, the input is unchanged, and Iv points to its last block |
| Cmac.ShiftLeftShiftsBits | twohop_rtlora_sv/Source/aes_cmac.c:95-110 | the byte-wise carries are the 128-bit left shift of section 2.3 of RFC 4493: the first bit disappears and a zero comes in |
| Cmac.DoubleIsTimesX | twohop_rtlora_sv/Source/aes_cmac.c:95-135 | shifting and adding const_Rb is the product with x, stated on the bits of the block |
| Cmac.Shift | twohop_rtlora_sv/Source/aes_cmac.c:97-102 | the loop with its carry, from the last byte to the first |
| Cmac.DoubleInto | twohop_rtlora_sv/Source/aes_cmac.c:95-115 | one half of the subkey generation is the product with x modulo x^128 + x^7 + x^2 + x + 1: bit i of the result is bit i + 1, flipped when bit 0 was set and i is 120, 125, 126 or 127 |
| Cmac.SubkeyGeneration | twohop_rtlora_sv/Source/aes_cmac.c:84-139 | the two subkeys are x and x^2 times the ciphered zero block (section 2.3 of RFC 4493) |
| Cmac.MacIsCbc | twohop_rtlora_sv/Source/aes_cmac.c:224-251 | the code is the last block of a chained encryption from the zero block whose last message block was replaced |
| Cmac.PadInjective | twohop_rtlora_sv/Source/aes_cmac.c:204-218 | two tails pad to the same block only if they are the same |
| Cmac.LastBlockIs | twohop_rtlora_sv/Source/aes_cmac.c:167-222 | the last block is the message's own plus x times L when the message is made of whole blocks, otherwise the rest, a one and zeros plus x^2 times L |
| Rfc4493.Subkeys | twohop_rtlora_sv/Source/aes_cmac.c:84-139 | L, K1 and K2 of section 4 of RFC 4493 |
| Rfc4493.OneBlockMessage | twohop_rtlora_sv/Source/aes_cmac.c:150-258 | the code of example 2 of section 4 of RFC 4493 |
| Cmac.BuildLast | twohop_rtlora_sv/Source/aes_cmac.c:167-222 | the last block, complete or padded, with the right subkey, also for the empty message |
| Cmac.AES128_CMAC | twohop_rtlora_sv/Source/aes_cmac.c:150-258 | the first four bytes of the code of section 2.4 of RFC 4493, for every message of up to 255 bytes |
| Crypto.MaskedTwice | twohop_rtlora_sv/Source/crypto.c:119-122 | masking twice gives the payload back |
| Crypto.EncryptsIff | twohop_rtlora_sv/Source/crypto.c:35-104 | a call masks the payload, whatever the destination held, if and only if the payload has at most 256 bytes: len is a uint8_t |
| Crypto.NothingBeyond | twohop_rtlora_sv/Source/crypto.c:74-103 | beyond 256 bytes nothing is written, because the position starts again at 0 |
| Crypto.DecryptRestores | twohop_rtlora_sv/Source/crypto.c:119-122 | decryption restores every payload of up to 256 bytes |
| Crypto.PayloadByte | twohop_rtlora_sv/Source/crypto.c:35-104 | each byte of an encrypted payload is the payload's plus the byte of the ciphered block of section 4.3.3 of LoRaWAN 1.0, whose number counts from 1 |
| Crypto.KeyBlocksDiffer | twohop_rtlora_sv/Source/crypto.c:35-104 | under one key two blocks of the key stream are the same exactly when direction, address and counter agree and their numbers agree modulo 256 |
| Crypto.BlockLayout | twohop_rtlora_sv/Source/crypto.c:35-72 | where direction, address, counter and number stand in the ciphered block and in the block in front of an authenticated message |
| Crypto.EncryptPayload | twohop_rtlora_sv/Source/crypto.c:35-104 | the destination after the call for every size, with the wrap-around of position and counter, under the key of the port |
| Crypto.DecryptPayload | twohop_rtlora_sv/Source/crypto.c:119-122 | the same call |
| Crypto.JoinRoundTrip | twohop_rtlora_sv/Source/crypto.c:133-156 | decryption restores a join-accept message of at least one block, and encryption a decrypted one |
| Crypto.JoinDecryptsIff | twohop_rtlora_sv/Source/crypto.c:150-156 | a received buffer decrypts to the block that was encrypted if and only if it starts with the block that was sent |
| Crypto.BlockArrivesIff | twohop_rtlora_sv/Source/crypto.c:133-156 | of a message copied over a buffer the first block arrives if and only if at least 16 bytes are copied, or the buffer happens to hold the rest: shorter messages are not restored |
| Crypto.JoinOfWhole | twohop_rtlora_sv/Source/crypto.c:133-156 | from 16 bytes on the destination is the message with its first block enciphered or deciphered, and what stood behind it |
| Crypto.EncryptJoinAccept | twohop_rtlora_sv/Source/crypto.c:133-139 | for every size: the destination holds the message over its old contents, with the first block inverse-ciphered, and only that block |
| Crypto.DecryptJoinAccept | twohop_rtlora_sv/Source/crypto.c:150-156 | for every size: the destination holds the message over its old contents, with the first block ciphered, and only that block |
| Crypto.MicCoversIff | twohop_rtlora_sv/Source/crypto.c:169-198 | the code is computed over the whole prefixed message if and only if the message has at most 239 bytes: the size parameter is a uint8_t |
| Crypto.MicIgnoresMessage | twohop_rtlora_sv/Source/crypto.c:169-198 | from 240 to 256 bytes the code does not depend on the message |
| Crypto.GenerateMIC | twohop_rtlora_sv/Source/crypto.c:169-198 | the first four bytes of the code over what is covered |
| Base64.CharRoundTrip | twohop_rtlora_sv/Source/base64.c:61-93 | the code of a code's character is that code, and no code has the padding character |
| Base64.CodeRoundTrip | twohop_rtlora_sv/Source/base64.c:61-93 | the character of a character's code is that character; the padding character has none |
| Base64.Alphabet | twohop_rtlora_sv/Source/base64.c:61-93 | the alphabet of section 4 of RFC 4648, in its order |
| Base64.SameBits | twohop_rtlora_sv/Source/base64.c:140-167 | the codes, six bits each, are the bit string of the bytes followed by zeros (section 4 of RFC 4648) |
| Base64.DecodeEncode | twohop_rtlora_sv/Source/base64.c:98-247 | decoding undoes encoding, for every byte string |
| Base64.EncodeDecodeIff | twohop_rtlora_sv/Source/base64.c:228-246 | encoding gives a decoded string back if and only if its unused bits are zero, which the code only warns about |
| Base64.UnpaddedPadded | twohop_rtlora_sv/Source/base64.c:251-305 | the decoder takes off exactly the padding that the encoder put on |
| Base64.PaddedExamples | twohop_rtlora_sv/Source/base64.c:251-287 | examples of section 10 of RFC 4648, with no, one and two padding characters |
| Base64.BinToB64Nopad | twohop_rtlora_sv/Source/base64.c:98-170 | -1 exactly on a null argument or a buffer without room for the text and its terminator; otherwise the buffer starts with both, and the rest of it is untouched |
| Base64.BinToB64 | twohop_rtlora_sv/Source/base64.c:251-287 | the same with padding: 4 * ceil(n / 3) characters, and -1 exactly when they and the terminator do not fit |
| Base64.B64ToBinNopad | twohop_rtlora_sv/Source/base64.c:172-249 | -1 exactly on a null argument, a single left-over character or a short buffer; the program ends exactly on a bad character; otherwise the decoded bytes |
| Base64.B64ToBin | twohop_rtlora_sv/Source/base64.c:289-305 | the same after the padding was taken off |
| Queue.RunConserves | twohop_rtlora_sv/Source/packet_queue.c:54-125 | with any number of threads and any interleaving the delivered packets followed by the queued ones are the accepted ones, in order |
| Queue.BoundedIff | twohop_rtlora_sv/Source/packet_queue.c:30-88 | the queue stays within 16 packets on every run if and only if at most one thread enqueues |
| Queue.TwoProducersUnbounded | twohop_rtlora_sv/Source/packet_queue.c:30-40 | with two enqueuing threads the queue can grow past any length, because the test for a full queue knows only the value 16 |
| Queue.BreaksIff | twohop_rtlora_sv/Source/packet_queue.c:94-125 | some run removes from an empty list if and only if at least two threads dequeue and at least one enqueues |
| Queue.OneToOne | twohop_rtlora_sv/Source/packet_queue.c:54-125 | one producer and one consumer, as the server uses its queues: at most 16 packets, no removal from an empty list, first in first out |
| PacketQueue.PktQueue.Insert | twohop_rtlora_sv/Source/packet_queue.c:67-85 | the linked list after the second critical section of pktEnqueue is the step Insert on its value |
| PacketQueue.PktQueue.Remove | twohop_rtlora_sv/Source/packet_queue.c:106-118 | the second critical section of pktDequeue takes the head, and leaves the tail as it is |
| PacketQueue.PktQueue.PktEnqueue | twohop_rtlora_sv/Source/packet_queue.c:54-92 | a whole call without interference: invalid, full or appended |
| PacketQueue.PktQueue.PktDequeue | twohop_rtlora_sv/Source/packet_queue.c:94-125 | a whole call without interference: invalid, empty or the head |

## Left out

- Server.Server.AddNodeToNodes: node addresses are nonzero, because address 0 marks an empty child slot, and a two-hop node's parent is not the node itself. What address 0 breaks is RelayTree.AddressZero.
- Runs.RunKeepsGroups: asks for demands between 1 and the group size when they are scheduled; without it the intervals need not be disjoint, as SlotSpec.ScheduleKeepsPacked shows. Demands.ClassBoundIff replaces it by the exact bound on the classes that register.
- Phases.DataCollectionPhase: the number of frames is given, where the program counts down after an operator's request; registrations between two frames are the step Receive of Runs and not part of this loop.
- Phases.ScheduleDistributionPhase: what the payloads tell is stated under the conditions of Distribution.DistributionPhase; the state after the phase and what the end nodes read are stated without them.
- Distribution.DistributionPhase: one-hop demands between 1 and the group size, groups of at most 128 slots and at most seven of them, the ranges of the command line options.
- Json.ReadValue: a value that is a number with a fraction or an exponent, or above 2^53, is refused here. On a minus sign with nothing convertible behind it strtod consumes nothing and parse_number_value returns 0 without moving (parson.c:692-703), so there the code reads a value without taking a byte. The container around it then fails at the minus sign, and json_parse_string, whose root is always a container, refuses the text as it does here.
- JsonParser.ParseNumber: tokens with a fraction or an exponent, magnitudes above 2^53, a lone minus sign, and the words that strtod takes behind a minus sign are not modelled as numbers; the round trip is about integers.
- JsonParser.ParseArray: items that are such numbers are refused.
- JsonParser.ParseObject: members whose value is such a number are refused.
- JsonParser.ParseValue: such numbers are refused.
- JsonParser.ParseString: a text that contains such a number gives no value here.
- JsonGrammar.ParsesIff: the numbers of the grammar are the integers that JsonParser.ParseNumber covers.
- JsonPrinter.SerializeValue: lengths are unbounded integers, so a text of 2^31 bytes or more is not covered.
- Layout.SmLayout: a unit is filled from its least significant bit and stored with its low byte first, as on the machines the server runs on; the C standard leaves both to the implementation. The same holds for Layout.CmLayout and Layout.RnlLayout.
- AesState.Engine.EcbEncrypt: buffers do not overlap and have room for one block, which the code transforms whatever the length is.
- AesState.Engine.CbcEncrypt: lengths are multiples of 16, as the header of aes.c demands; the code's handling of a last partial block, which reads and writes behind the buffers, is not modelled. The vector is not the input buffer.
- AesState.Engine.CbcDecrypt: the same; the vector is not the output buffer.
- Crypto.EncryptPayload: source and destination are different buffers.
- Crypto.EncryptJoinAccept: buffers do not overlap, and the destination has room for one block, which is written whatever the size is.
- Crypto.DecryptJoinAccept: the same.
- Crypto.GenerateMIC: messages of at most 256 bytes, the size of the code's buffer.
- Base64.BinToB64Nopad: sizes are not negative, and the buffer is as long as max_len says; for size 0 it has at least one byte, because the terminator is written without looking at max_len.
- PacketQueue.PktQueue.Insert: allocation succeeds, and freed memory is not modelled.
- Floating-point numbers, comments and files in JSON, schema validation, custom allocators and failing allocation in parson.c.
- GenerateMICforJoinRequest and GenerateMICforJoinResponse: the same call of AES128_CMAC without the prefix block.
- AES-192 and AES-256: aes.h selects AES-128.
- The bytes of a payload buffer behind the message length.
- nboSchReq of the registry, popTailNode, the delivery statistics and dmCheckDataMissed: no invariant of the scheduler depends on them.
- Sockets, threads' timing, the wake-up flags, logging, printing and the database: input and output. Registrations are inputs of the state machine; the time stamps of downlink messages are not part of the messages here.
- The wire format of uplink messages and the frame resynchroniser of lora_mac.c.
- The gateway software.
