# Verified models of the bcmdhd driver

These Dafny files model the parts of the Broadcom `bcmdhd` driver (`BCM89335/driver`) that are
algorithms over the driver's own state, and prove what those algorithms are for. Sections that the
driver runs under one lock are one atomic step here. Where the driver changes objects, arrays and
linked lists in place, so do the classes; each class is proved against functions or predicates on
values, and the main results are lemmas about those, for every input, every reachable state or
every run.

`dafny verify dfyconfig.toml` checks everything. Where a contract says `P(..) == true`, the predicate is one
fact to the verifier; without the comparison it would be taken apart into all its conjuncts, each
proved on its own, which costs some proofs several times as much.

| file | what it models |
|---|---|
| Reorder, ReorderRuns, ReorderDelivery, ReorderDriver | the host reorder buffer for aggregated frames: one hint as a step on values with exact packet accounting; runs of any hints; ordered delivery over runs of hints that the dongle may send; the slot array and packet links in memory |
| Bits, MwbMap | the two-level bitmap id allocator, on 32-bit words |
| Id16, FlowIndex, FlowCalls, FlowRing, FlowQueue | the 16-bit id stack; the flow-ring hash index over it as one function for each section under its lock; lookups that overlap between these sections; nodes and tables in memory; the backup queues of flow rings |
| PshPool, PshPoolHeap | the table of TCP data flows with its shared pool of PSH elements |
| AckHold, AckRatio, AckReplace | TCP ACK suppression: holding ACKs back, with the timers that send them; the ratio of those passed on over runs; overwriting queued ones |
| ObjectList | the object trace on circular doubly linked lists |
| Uint64, IpCksum | 64-bit arithmetic from 32-bit words; the internet checksum |
| CrcTables, Crc | the three table-driven cyclic redundancy checks |
| Tlv, Xtlv | writing, walking, packing and unpacking type-length-value records |
| FragDrop | making room in a queue by dropping a set of fragments |
| Cmd53 | splitting a packet chain into SDIO block commands |
| SbWindow | the cached SDIO backplane window, with failing writes and retries |
| Modular, Sequences, Octets | facts and types that several of these share |

## Where the code does not do what it is for

Each of these is proved, with the exact condition.

- Flow rings: a lookup searches, takes an id and links a node under three separate locks. Linking
  keeps the hash table standing for a plain map, without losing an id, if and only if the key is
  absent at that moment (`FlowIndex.LinkKeeps`). Two lookups that both miss one key break it: on a
  station the first node is overwritten and its id is never free again, elsewhere two nodes carry the
  key (`FlowCalls.OverlapBreaks`, `TwoCallers`, `RunAccounts`). It cannot happen while no two calls
  for one key are under way together (`FlowCalls.RunAlone`).
- Flow rings: a new role for an interface leaves its flows under keys that no search asks for, if and
  only if it has flows (`FlowIndex.RoleKeeps`, `RoleHidesOne`).
- Reorder, lost packets: a new hole and the "both moved" branch store over their slot without
  looking. A hint loses a packet if and only if that slot is still taken after the flush
  (`Reorder.LosesIffOver`); `HintConserves` and `ReorderRuns.RunConserves` account for it. The "both moved"
  branch can do so at the second hint of a flow (`Reorder.BothMovedOver`). A new hole does so, and a
  deletion drops what is held, if and only if the 8-bit `pend_pkts` says 0 while packets are held
  (`Reorder.NewHoleOver`, `ReorderRuns.DeletionDrops`).
- Reorder, the counter: `pend_pkts` stays at or above the number of packets held exactly until a store
  wraps it (`Reorder.HintCounts`). Filling a taken slot raises it although nothing more is held, so that
  256 hints for one slot of two wrap it, and the next new hole loses a packet
  (`ReorderRuns.RefillsLose`). Hints that keep to what the dongle means can wrap it only with 256 slots of
  which 255 are pending: nothing goes up then, and no flush finds anything
  (`ReorderDelivery.HintDelivers`, `WrapBreaks`, `WrapReached`, `WrapLoses`).
- Reorder, indices: the flush loop ends if and only if the index it is to end at is in the circle
  (`Reorder.WalkEnds`). A new hole brings a new number of slots, but none are allocated; all accesses stay
  inside if and only if the new number is not larger (`Reorder.NewHoleInside`).
- Backup queues: a reinsertion ignores the limit, and the length has 16 bits; a queue keeps its limit
  but for what is reinserted, and refuses exactly at the limit, until the length wraps
  (`FlowQueue.RunLimited`, `LengthWraps`).
- Bitmap allocator: the limit checked on creation admits 65536 ids, but the total is kept in 16
  bits, so that every id of that allocator fails the assertion on being given back
  (`MwbMap.BcmMwbmap.constructor`).
- 64-bit division: when the divisor divides 2^32 and the high word is not 0, the result is too small
  by exactly the high word (`Uint64.Divide`).
- ACK hold mode: an ACK that comes while every slot holds another stream's ACK is neither held nor
  sent (`AckHold.LostIffFull`, `FifthLost`). The table's counter is not lowered when a held ACK is
  released by its successor (`AckHold.CounterDrifts`, `DriftReached`). A release gives up the lock before it
  cancels the slot's timer; an ACK that takes the slot in between is left without a timer
  (`AckHold.ActArmed`, `GapStrands`).
- Fragment drop: the comment above the function promises that a packet that is no fragment goes
  first; the code drops a fragment set in front of it instead (`FragDrop.CommentHolds`,
  `CommentFails`). It promises next that one whole set goes; that is so if and only if a last fragment ends
  the search (`FragDrop.SetWhole`, `SetCut`). The model follows the code.
- Window cache: window 0 is also the mark for "unknown", so after a failed write an access to
  window 0 can go to another window (`SbWindow.SetReachesAlways`, `WindowZeroBreaks`).
- xTLV: `bcm_pack_xtlv_buf_from_mem` reports 1 instead of an error code, because the comparison binds
  closer than the assignment (`Xtlv.PackFromMem`); `bcm_pack_xtlv_buf` refuses a record that ends
  exactly at the end of the buffer (`Xtlv.PackBuf`).
- Checksum: it is the complement of the one's-complement sum exactly when the 32-bit accumulator does
  not overflow (`IpCksum.Complement`).
- `IS_TCPSEQ_GT` holds both ways between numbers 2^31 apart (`AckReplace.GtIsForward` gives its exact
  meaning); "moves forward" in REPLACE mode means by at most 2^31.
- ACK replace mode: nothing compares a datagram's length with its frame's; the copy stays inside both
  frames if and only if both datagrams do (`AckReplace.CopyInside`).

## Model

| member | source | states |
|---|---|---|
| Reorder.PosNext | BCM89335/driver/dhd_cdc.c:581-597 | the do-while over slots stops after the arc from start to end and not before; a full circle when they are equal |
| Reorder.FlushConserves | BCM89335/driver/dhd_cdc.c:567-601 | flushing moves packets from the slots to the chain and loses or doubles none |
| Reorder.FlushCounts | BCM89335/driver/dhd_cdc.c:567-601 | the chain is as long as the number of slots that became empty |
| Reorder.HintConserves | BCM89335/driver/dhd_cdc.c:634-814 | for every hint in range on any flow, whatever its counter: held and incoming packets are those held afterwards, handed up, freed, or stored over |
| Reorder.LosesIffOver | BCM89335/driver/dhd_cdc.c:694-814 | nothing is lost if and only if the slot that a new hole or the "both moved" branch stores to is empty after the flush |
| Reorder.NewHoleOver | BCM89335/driver/dhd_cdc.c:694-706 | for a new hole it is taken if and only if the counter says 0 while that slot is held |
| Reorder.BothMovedOver | BCM89335/driver/dhd_cdc.c:751-789 | a flow whose second hint loses the packet of its first |
| Reorder.HintCounts | BCM89335/driver/dhd_cdc.c:694-814 | the counter stays at or above the occupied slots if and only if it does not wrap, and is exact until two packets meet in a slot; while it is, no new hole loses a packet |
| Reorder.WalkEnds | BCM89335/driver/dhd_cdc.c:581-597 | the do-while reaches its end, wherever it starts, if and only if the end is in the circle |
| Reorder.FlushAllTakes | BCM89335/driver/dhd_cdc.c:751-812 | a window move with FLUSH_ALL hands up every packet held, wherever it is, and leaves no slot taken but the one that may hold its own packet |
| Reorder.MoveTakes | BCM89335/driver/dhd_cdc.c:751-812 | without FLUSH_ALL what is held from the old expected index up to the new one goes up, and every packet outside that arc stays in its slot |
| Reorder.OthersTake | BCM89335/driver/dhd_cdc.c:694-750 | a new hole hands up everything and leaves its own packet alone in its slot; the packet expected goes up with those behind it, up to the new index |
| Reorder.StepIndices | BCM89335/driver/dhd_cdc.c:694-812 | which of the two indices and the number of slots a hint replaces |
| ReorderRuns.RunConserves | BCM89335/driver/dhd_cdc.c:604-814 | over any run of hints in range, deletions and ignored packets: packets held at first and submitted are those handed up, freed, stored over, dropped with a deleted flow, and held, as often as they came |
| ReorderRuns.DeletionDrops | BCM89335/driver/dhd_cdc.c:637-668 | a deletion drops packets if and only if the counter says 0 while some are held |
| ReorderRuns.RefillsLose | BCM89335/driver/dhd_cdc.c:694-728 | 256 hints for one of two slots, and a new hole that then loses the packet held |
| ReorderDelivery.EmptyInWindow | BCM89335/driver/dhd_cdc.c:664-690 | a new flow satisfies the window invariant |
| ReorderDelivery.FlushTo | BCM89335/driver/dhd_cdc.c:567-601 | flushing to the index of a new expected number, or flushing all, takes exactly the packets below that number, in order |
| ReorderDelivery.HintDelivers | BCM89335/driver/dhd_cdc.c:694-812 | a hint the dongle may send delivers the packets below the new expected number in order and leaves the others in the new window, if and only if the 8-bit counter does not wrap; it wraps only with 256 slots and 255 pending |
| ReorderDelivery.HintAccounts | BCM89335/driver/dhd_cdc.c:694-812 | for such hints nothing is lost or freed, and nothing below the expected number stays behind |
| ReorderDelivery.WrapBreaks | BCM89335/driver/dhd_cdc.c:713-742 | the counter's wrap breaks delivery: nothing goes up though the packet expected may be held, and no flush or deletion hands up anything held |
| ReorderDelivery.WrapReached | BCM89335/driver/dhd_cdc.c:664-742 | a run of such hints from a new flow ends with all 256 packets held and the counter at 0 |
| ReorderDelivery.WrapLoses | BCM89335/driver/dhd_cdc.c:694-706 | after that run any new hole loses the packet of its slot |
| ReorderDelivery.RunInOrder | BCM89335/driver/dhd_cdc.c:604-814 | over any run of such hints the numbers handed up strictly increase across calls and held numbers stay in the window at their own slots |
| ReorderDelivery.RunAccounts | BCM89335/driver/dhd_cdc.c:604-814 | over any such run each packet held at first or submitted has gone up or is held, as often as it came, and none below the number expected last is held |
| ReorderDelivery.DrainsInOrder | BCM89335/driver/dhd_cdc.c:637-668 | deleting a flow hands up everything held by rising number, and the packet at hand behind it |
| Reorder.AllInside | BCM89335/driver/dhd_cdc.c:581-814 | hints for a circle access only slots that exist if and only if the circle is not larger than the slots |
| Reorder.NewHoleInside | BCM89335/driver/dhd_cdc.c:694-706 | a new hole and every hint after it stay inside the slots allocated at first if and only if its number of slots is not larger |
| ReorderDriver.ReorderInfo.GetHostReorderPkts | BCM89335/driver/dhd_cdc.c:567-601 | the loop over the slot array builds exactly that chain in the packets' links, with its length and last packet |
| ReorderDriver.ReorderInfo.Process | BCM89335/driver/dhd_cdc.c:694-814 | slot array, counters and links in memory do what the step on values says, with fewer or more slots after a new hole, too; the count returned is the chain's length |
| ReorderDriver.ReorderInfo.Drain | BCM89335/driver/dhd_cdc.c:637-668 | deleting a flow hands up everything held, the packet at hand last |
| ReorderDriver.FlowEntry.Process | BCM89335/driver/dhd_cdc.c:604-814 | flags 0xFF, flow deletion and flow creation around the step |
| ReorderDriver.FlagBits | BCM89335/driver/include/wlfc_proto.h:318-322 | bits 0, 1, 2 and 4 of the flags are deletion, FLUSH_ALL, CURIDX_VALID and NEW_HOLE, and the two indices are not swapped |
| MwbMap.TakeKeeps | BCM89335/driver/bcmutils.c:2849-2928 | clearing an id's bit and adjusting count, total and first level keeps the whole invariant and removes exactly that id from the free set |
| MwbMap.GiveKeeps | BCM89335/driver/bcmutils.c:2985-3044 | the same for giving an id back |
| MwbMap.LeastFree | BCM89335/driver/bcmutils.c:2849-2909 | lowest bit of the lowest nonzero word, found through the first level, is the smallest free id and below the total |
| MwbMap.FreeCount | BCM89335/driver/bcmutils.c:3047-3058 | the redundant total is the size of the free set, all of it below the number of ids |
| MwbMap.InitValid | BCM89335/driver/bcmutils.c:2761-2832 | the trimmed bitmaps of a new allocator satisfy the invariant with every id free |
| MwbMap.BcmMwbmap.constructor | BCM89335/driver/bcmutils.c:2761-2832 | all ids are free; with up to 65535 the invariant holds, with 65536 every id fails the assertion on ids |
| MwbMap.BcmMwbmap.Alloc | BCM89335/driver/bcmutils.c:2849-2928 | the smallest free id leaves the free set; the invalid index exactly when none is free |
| MwbMap.BcmMwbmap.Force | BCM89335/driver/bcmutils.c:2931-2982 | exactly the given id leaves the free set |
| MwbMap.BcmMwbmap.FreeIdx | BCM89335/driver/bcmutils.c:2985-3044 | exactly the given id joins the free set |
| MwbMap.BcmMwbmap.IsFreeIdx | BCM89335/driver/bcmutils.c:3061-3076 | true exactly for members of the free set |
| MwbMap.BcmMwbmap.Audit | BCM89335/driver/bcmutils.c:3111-3138 | the audit's assertions hold at every reachable state and its count is the total |
| Bits.LowestBit | BCM89335/driver/bcmutils.c:2868-2909 | w & -w isolates the lowest bit set |
| Bits.CountLeadingZeros | BCM89335/driver/bcmutils.c:2868-2909 | leading zeros of an isolated bit give its position |
| Id16.StackRoom | BCM89335/driver/bcmutils.c:3339-3361 | there is always room on the stack for an id that is in use |
| Id16.Id16Map.Alloc | BCM89335/driver/bcmutils.c:3303-3336 | a free id is handed out, or the invalid id exactly when none is free |
| Id16.Id16Map.FreeId | BCM89335/driver/bcmutils.c:3339-3361 | the id joins the free ones, none twice |
| FlowIndex.LinkSound | BCM89335/driver/dhd_flowring.c:551-587 | linking an id in flight leaves every managed id free, in flight, linked in one chain of its interface, or overwritten and lost, whatever the chain held |
| FlowIndex.FreeSound | BCM89335/driver/dhd_flowring.c:731-782 | so does giving up a flow id |
| FlowIndex.PlainIds | BCM89335/driver/dhd_flowring.c:461-782 | where the table stands for the plain map, free ids, ids in flight and ids of the map share out [2, number of rings), and no two keys have the same |
| FlowIndex.MatchIsKey | BCM89335/driver/dhd_flowring.c:500-512 | the search loop's comparison, with its multicast rule, is equality of keys |
| FlowIndex.FindIsLookup | BCM89335/driver/dhd_flowring.c:461-520 | the search returns exactly what a plain map keyed by interface and priority, multicast, or destination and priority returns |
| FlowIndex.SameRing | BCM89335/driver/dhd_flowring.c:461-520 | two packets that find rings find the same one if and only if their interface is the same and, on a station, their priority, elsewhere their destination and priority, or both are multicast |
| FlowIndex.LinkKeeps | BCM89335/driver/dhd_flowring.c:551-587 | linking keeps the table standing for the map without loss if and only if the map lacks the key at that moment |
| FlowIndex.LinkClashes | BCM89335/driver/dhd_flowring.c:551-587 | otherwise a station loses exactly the older id, and elsewhere the table stands for no map |
| FlowIndex.FreeKeeps | BCM89335/driver/dhd_flowring.c:731-782 | giving up a flow id keeps table and map in agreement |
| FlowIndex.FreeDrops | BCM89335/driver/dhd_flowring.c:731-782 | the map loses the key of that id on that interface and no other, and the id is free again if there was one |
| FlowIndex.FreedIsGone | BCM89335/driver/dhd_flowring.c:731-782 | a search that found an id finds nothing once the id is given up |
| FlowIndex.RoleKeeps | BCM89335/driver/dhd_flowring.c:845-881 | a new role keeps table and map in agreement if and only if the interface has no flows |
| FlowIndex.RoleHidesOne | BCM89335/driver/dhd_flowring.c:845-881 | a station's flow that is still linked and not found any more as an access point |
| FlowIndex.LookupIsPlain | BCM89335/driver/dhd_flowring.c:595-694 | a lookup that nothing disturbs adds its key to the map with an id that was free |
| FlowCalls.RunAccounts | BCM89335/driver/dhd_flowring.c:461-881 | in every run, however calls overlap, each managed id is free, held by exactly one call, linked or lost, and what is lost stays so |
| FlowCalls.RunGood | BCM89335/driver/dhd_flowring.c:461-881 | in every run whose link steps find their keys absent the table stands for the plain map throughout |
| FlowCalls.RunShares | BCM89335/driver/dhd_flowring.c:461-881 | and free ids, ids of calls and ids of the map share out [2, number of rings): none lost, none doubled |
| FlowCalls.RunAlone | BCM89335/driver/dhd_flowring.c:595-694 | while no two calls for one key are under way together, every link step does find its key absent |
| FlowCalls.OverlapBreaks | BCM89335/driver/dhd_flowring.c:461-591 | two calls that both miss one key lose an id on a station and leave two nodes of the key elsewhere |
| FlowCalls.TwoCallers | BCM89335/driver/dhd_flowring.c:461-591 | such a run from an empty table, for either role |
| FlowRing.OneBucket | BCM89335/driver/dhd_flowring.c:525-591 | no node is in two chains, or twice in one |
| FlowRing.FlowLkup.Find | BCM89335/driver/dhd_flowring.c:461-520 | chains in memory are searched as the model says |
| FlowRing.FlowLkup.TakeId | BCM89335/driver/dhd_flowring.c:536-546 | an id that was free is in flight, or the invalid id exactly when none is |
| FlowRing.FlowLkup.LinkNode | BCM89335/driver/dhd_flowring.c:547-587 | the new node is linked as the model says, over the head of the bucket on a station, else at the chain's end |
| FlowRing.FlowLkup.FreeFlow | BCM89335/driver/dhd_flowring.c:731-782 | the node of the id leaves its chain if the interface has one, and the id is free again |
| FlowRing.FlowLkup.Alloc | BCM89335/driver/dhd_flowring.c:525-591 | both sections of an allocation, one after the other |
| FlowRing.FlowLkup.Lookup | BCM89335/driver/dhd_flowring.c:595-694 | ids found succeed exactly when their ring is open or pending; otherwise there is a pending ring if the interface is up and an id is free, and it stays even when the bus refuses |
| FlowRing.FlowLkup.UpdateInterface | BCM89335/driver/dhd_flowring.c:845-881 | role and status after an interface event |
| FlowRing.FlowLkup.UpdateLink | BCM89335/driver/dhd_flowring.c:885-908 | only a station's link status changes whether its interface is up |
| FlowQueue.RunGood | BCM89335/driver/dhd_flowring.c:150-223 | over any run on any number of queues, reinsertions of the packet taken last included, packets are neither lost, doubled nor overtaken, and the shared counter is the total length |
| FlowQueue.RunLimited | BCM89335/driver/dhd_flowring.c:150-223 | over any run with fewer reinsertions than the 16-bit length has room for, a queue exceeds its limit by reinsertions alone and refuses exactly at the limit |
| FlowQueue.LengthWraps | BCM89335/driver/dhd_flowring.c:150-179 | a queue of 65536 packets takes another |
| FlowQueue.AcceptsUpTo | BCM89335/driver/dhd_flowring.c:150-179 | of packets that come one after another a queue takes exactly those up to its limit, in order |
| FlowQueue.TakesInOrder | BCM89335/driver/dhd_flowring.c:182-208 | taking n packets takes the first n, in order, and lowers the shared counter by n |
| FlowQueue.ReinsertUndoes | BCM89335/driver/dhd_flowring.c:182-223 | reinserting the packet just taken restores the queue and the counter |
| FlowQueue.FlowRingQueue.Enqueue | BCM89335/driver/dhd_flowring.c:150-179 | appended, or refused and counted exactly when the 16-bit length has reached the limit |
| FlowQueue.FlowRingQueue.Dequeue | BCM89335/driver/dhd_flowring.c:182-208 | the first packet comes off, detached |
| FlowQueue.FlowRingQueue.Reinsert | BCM89335/driver/dhd_flowring.c:211-223 | the packet is first again, whatever the length, which wraps at 16 bits |
| PshPool.ScanFinds | BCM89335/driver/dhd_ip.c:940-1010 | the scan that ages entries out on the way ends at the flow's entry exactly when the flow is in the table |
| PshPool.ScanDrops | BCM89335/driver/dhd_ip.c:940-1010 | it drops only stale entries of other flows and changes no other entry |
| PshPool.ScanKeepsFlow | BCM89335/driver/dhd_ip.c:940-1010 | the flow's own entry keeps its segments through the ageing scan |
| PshPool.ScanExamines | BCM89335/driver/dhd_ip.c:940-1010 | a scan that reaches the end has examined every survivor and found it fresh |
| PshPool.AckedIsSuffix | BCM89335/driver/dhd_ip.c:596-614 | an ACK removes exactly the longest prefix of segments it covers |
| PshPool.ReceivedDistinct | BCM89335/driver/dhd_ip.c:848-1068 | no two entries ever name the same 4-tuple |
| PshPool.GeIsForward | BCM89335/driver/dhd_ip.c:601 | greater or equal means ahead by less than 2^31 |
| PshPool.StaleIs | BCM89335/driver/dhd_ip.c:969-990 | an entry is stale after more than 5000 ms |
| PshPool.ReceivedRecords | BCM89335/driver/dhd_ip.c:997-1066 | a segment with a place and an element is recorded with its own end number behind those that wait already; otherwise none is recorded |
| PshPool.ReceivedOthers | BCM89335/driver/dhd_ip.c:940-1066 | entries of other flows stay as they are or were found stale |
| PshPool.PlaceAndRoom | BCM89335/driver/dhd_ip.c:1001-1050 | while nothing is stale there is a place if and only if the flow has one or fewer than four flows do, and an element if and only if fewer than 32 wait |
| PshPool.RecordedIsAcked | BCM89335/driver/dhd_ip.c:596-614 | an ACK of the segment just recorded, covering those before it, finds it and leaves none waiting |
| PshPoolHeap.TcpackSup.InfoGet | BCM89335/driver/dhd_ip.c:848-1068 | table, chains and pool in memory do that; the result says that the pool is used up |
| PshPoolHeap.TcpackSup.PshAcked | BCM89335/driver/dhd_ip.c:541-620 | the covered elements go back to the pool; true exactly when there were some |
| PshPoolHeap.TcpackSup.RecordThenAck | BCM89335/driver/dhd_ip.c:543-1068 | the two calls one after the other: the ACK of the segment is recognised |
| PshPoolHeap.TcpackSup.FreeCount | BCM89335/driver/dhd_ip.c:169-210 | the free list and the chains always share out the 32 elements |
| PshPoolHeap.TcpackSup.PoolDeinit | BCM89335/driver/dhd_ip.c:247-289 | the recollection on removal finds all 32 elements, as it asserts |
| AckHold.StepConserves | BCM89335/driver/dhd_ip.c:1180-1272 | a step moves ACKs between held, passed on, sent, freed and lost, and adds the one submitted |
| AckHold.RunConserves | BCM89335/driver/dhd_ip.c:1180-1272 | in every run an ACK is in as many of these places as it was submitted, held ACKs are of different streams, and freed ones gave way to one of their own stream that is not behind them or were behind it |
| AckHold.LeavesOnce | BCM89335/driver/dhd_ip.c:292-337 | once an ACK has left its slot no later event brings it back |
| AckHold.TableRuns | BCM89335/driver/dhd_ip.c:292-337 | with arming, firing and cancelling of timers as steps of their own, what holds for every run of the table still holds |
| AckHold.ActArmed | BCM89335/driver/dhd_ip.c:1218-1266 | a step keeps every full slot's timer armed or its handler on the way, if and only if it does not cancel the timer of a slot that was filled again |
| AckHold.RunArmed | BCM89335/driver/dhd_ip.c:292-337 | so do runs in which timers are cancelled in time |
| AckHold.UndisturbedTimely | BCM89335/driver/dhd_ip.c:1242-1246 | they are if no ACK is submitted between a release and its cancelling |
| AckHold.HeldIsSent | BCM89335/driver/dhd_ip.c:292-337 | then each ACK held can leave: the timer of its slot fires and sends it |
| AckHold.GapStrands | BCM89335/driver/dhd_ip.c:1242-1246 | a run that leaves an ACK in a slot without a timer |
| AckHold.LostIffFull | BCM89335/driver/dhd_ip.c:1253-1266 | an ACK is lost exactly when every slot holds another stream's |
| AckHold.FifthLost | BCM89335/driver/dhd_ip.c:1253-1266 | a run of five streams whose last ACK is lost |
| AckHold.CounterDrifts | BCM89335/driver/dhd_ip.c:1222-1266 | the counter exceeds the occupied slots by the number of releases |
| AckHold.DriftReached | BCM89335/driver/dhd_ip.c:1222-1266 | a run that ends with the counter at 1 over an empty table |
| AckRatio.RatioPasses | BCM89335/driver/dhd_ip.c:1222-1262 | over any run that lets a stream be, with a ratio r from 2 to 255, of its ACKs exactly every r-th is passed on; one is held if and only if r does not divide their number, and it is the last |
| AckRatio.EveryAt | BCM89335/driver/dhd_ip.c:1225-1233 | every r-th: the j-th passed on is the one at place r * (j + 1) |
| AckRatio.RoundGoesOn | BCM89335/driver/dhd_ip.c:1225-1239 | an ACK not behind the one held takes its place and its interface and raises the count, or empties the slot at the ratio |
| AckHold.TcpackHold.Submit | BCM89335/driver/dhd_ip.c:1077-1272 | the code makes that step and returns FALSE exactly when the caller must send the packet |
| AckHold.TcpackHold.Expire | BCM89335/driver/dhd_ip.c:292-337 | the timer sends the held ACK of its slot, if any, once |
| AckReplace.GtIsForward | BCM89335/driver/include/proto/bcmtcp.h:88-91 | greater means ahead by 1 up to 2^31 in sequence arithmetic |
| AckReplace.CopyInside | BCM89335/driver/dhd_ip.c:780-793 | for frames that meet the code's assertions the copy stays inside both if and only if neither datagram is longer than its frame |
| AckReplace.PatchCarries | BCM89335/driver/dhd_ip.c:780-793 | copying the datagram over a queued frame of the same header lengths makes it carry exactly that datagram, number and stream |
| AckReplace.SuppressedDistinct | BCM89335/driver/dhd_ip.c:737-828 | the table keeps ACKs of different streams, at most four |
| AckReplace.SuppressedCarried | BCM89335/driver/dhd_ip.c:780-797 | a suppressed ACK's datagram is what its stream's queued packet now carries, and its number is strictly ahead of the one replaced |
| AckReplace.NotSuppressed | BCM89335/driver/dhd_ip.c:778-845 | an ACK that is not suppressed changes no queued frame and enters the table exactly when its stream is not there and there is room |
| AckReplace.SuppressedIff | BCM89335/driver/dhd_ip.c:778-797 | an ACK is suppressed if and only if one of its stream is queued with headers of the same lengths that it is ahead of, by at most 2^31 |
| AckReplace.HeaderWords | BCM89335/driver/dhd_ip.c:670-692 | the header lengths are four times the low half of the first IP byte and the high half of the TCP length byte |
| AckReplace.NumInDatagram | BCM89335/driver/dhd_ip.c:778 | the number compared is the big-endian word at bytes 8 to 11 of the TCP header |
| AckReplace.DropDistinct | BCM89335/driver/dhd_ip.c:517-532 | removal by swapping with the last keeps all other entries |
| AckReplace.RunDistinct | BCM89335/driver/dhd_ip.c:480-845 | the invariant holds through any interleaving of suppressions and transmissions |
| AckReplace.TcpackSup.Suppress | BCM89335/driver/dhd_ip.c:624-845 | packets and table in memory do that |
| AckReplace.TcpackSup.CheckXmit | BCM89335/driver/dhd_ip.c:480-539 | a packet being sent is not in the table afterwards, and only it left; the size check skips no entry |
| ObjectList.Inverse | BCM89335/driver/bcmutils.c:1118-1155 | next and prior undo each other, and the head's prior is the tail |
| ObjectList.DbgList.RmList | BCM89335/driver/bcmutils.c:1118-1132 | exactly the node leaves the circle |
| ObjectList.DbgList.AddList | BCM89335/driver/bcmutils.c:1134-1155 | the node becomes the last or the first |
| ObjectList.DbgList.MoveToEnd | BCM89335/driver/bcmutils.c:1157-1176 | the others keep their order |
| ObjectList.Moved | BCM89335/driver/bcmutils.c:1212-1260 | moving a node from one list to the other keeps the two a partition of the pool |
| ObjectList.AddRemoveOnce | BCM89335/driver/bcmutils.c:1187-1290 | an object is traced at most once, and only the one named is removed |
| ObjectList.RemoveUndoesAdd | BCM89335/driver/bcmutils.c:1187-1266 | removing an object just added restores the list |
| ObjectList.UpdateOnce | BCM89335/driver/bcmutils.c:1298-1324 | renaming keeps objects distinct if and only if the new name is not another traced object's |
| ObjectList.AddedBehind | BCM89335/driver/bcmutils.c:1187-1245 | the objects traced before keep their order, and the new one is behind them unless it was there or no node was free |
| ObjectList.RemovedLast | BCM89335/driver/bcmutils.c:1247-1290 | the last entry of the object goes, the others keep their order |
| ObjectList.UpdatedBehind | BCM89335/driver/bcmutils.c:1298-1324 | the object is under its new name behind the others, which keep their order |
| ObjectList.ObjectTrace.Add | BCM89335/driver/bcmutils.c:1187-1245 | traced at the end with a free node, unless traced already or no node is free; the counter follows |
| ObjectList.ObjectTrace.Remove | BCM89335/driver/bcmutils.c:1247-1290 | the last entry of the object leaves and its node is free again |
| ObjectList.ObjectTrace.Update | BCM89335/driver/bcmutils.c:1298-1324 | the entry goes on under the new name at the end |
| ObjectList.ObjectTrace.AllReleased | BCM89335/driver/bcmutils.c:1109-1116 | the assertion on removal holds exactly when nothing is traced and the counter is 0 |
| Uint64.MultipleAdd | BCM89335/driver/bcmutils.c:2531-2569 | a * b + c exactly, for all 32-bit inputs |
| Uint64.Round | BCM89335/driver/bcmutils.c:2580-2583 | replacing the high word by its multiple of the remainder of 2^32 keeps the quotient |
| Uint64.Divide | BCM89335/driver/bcmutils.c:2572-2587 | terminates; the quotient modulo 2^32 if and only if the high word is 0 or the divisor does not divide 2^32, otherwise short by exactly the high word; divisors below 2 change nothing |
| IpCksum.FoldedSum | BCM89335/driver/bcmutils.c:2662-2680 | folding the plain sum gives the one's-complement sum of the words |
| IpCksum.PaddedSum | BCM89335/driver/bcmutils.c:2671-2673 | an odd buffer has the sum of the same one with a zero byte behind it |
| IpCksum.Cksum | BCM89335/driver/bcmutils.c:2662-2680 | both loops, with the 32-bit wrap of the accumulator |
| IpCksum.Complement | BCM89335/driver/bcmutils.c:2662-2680 | for every 32-bit start value, the complement of the one's-complement sum if and only if the accumulator does not overflow |
| IpCksum.ShortComplement | BCM89335/driver/bcmutils.c:2662-2680 | always, for buffers up to 64 KB and 16-bit start values |
| IpCksum.StoreVerifies | BCM89335/driver/bcmutils.c:2662-2680 | stored in a zeroed field at an even place it makes a recomputation give 0, if and only if that does not overflow |
| IpCksum.Chains | BCM89335/driver/bcmutils.c:2662-2680 | going on from the complemented result of an even prefix equals one pass |
| Crc.DivideByte | BCM89335/driver/bcmutils.c:1622-1639 | eight bits of division are one step of the inner loop with eight shifts in place of the table |
| Crc.Table8IsEight | BCM89335/driver/bcmutils.c:1587-1620 | all 256 entries are eight shifts by the reflected polynomial |
| Crc.Table16IsEight | BCM89335/driver/bcmutils.c:1663-1696 | all 256 entries are eight shifts by the reflected polynomial |
| Crc.Table32IsEight | BCM89335/driver/bcmutils.c:1710-1775 | all 256 entries are eight shifts by the reflected polynomial |
| Crc.Hndcrc8 | BCM89335/driver/bcmutils.c:1625-1639 | for every byte string and start, the bit-serial division by the polynomial |
| Crc.Hndcrc16 | BCM89335/driver/bcmutils.c:1698-1708 | for every byte string and start, the bit-serial division by the polynomial |
| Crc.Hndcrc32 | BCM89335/driver/bcmutils.c:1781-1790 | for every byte string and start, the bit-serial division by the polynomial |
| Crc.Blocks | BCM89335/driver/bcmutils.c:1569-1577 | checking block by block equals checking at once |
| Crc.Good8 | BCM89335/driver/include/bcmutils.h:646-647 | message and complemented check always end in 0x9f |
| Crc.Good16 | BCM89335/driver/include/bcmutils.h:648-649 | message and complemented check, low byte first, always end in 0xf0b8 |
| Crc.Good32 | BCM89335/driver/include/bcmutils.h:650-651 | message and complemented check, low byte first, always end in 0xdebb20e3 |
| Tlv.WriteTlvSafe | BCM89335/driver/bcmutils.c:1462-1527 | the element is written in place if it is valid and fits, otherwise the buffer is untouched |
| Tlv.WriteAll | BCM89335/driver/bcmutils.c:1510-1527 | a run of writes leaves exactly the valid elements that fit, one after another |
| Tlv.KeptOne | BCM89335/driver/bcmutils.c:1462-1527 | a call writes if and only if its length is 0 to 255, it fits, and there is data or the length is 0; what it writes is the id and that many bytes |
| Tlv.KeptFits | BCM89335/driver/bcmutils.c:1510-1527 | what is written never exceeds the room |
| Tlv.KeptAll | BCM89335/driver/bcmutils.c:1510-1527 | valid elements that fit together are all written |
| Tlv.ParseTlvs | BCM89335/driver/bcmutils.c:1864-1889 | the walk over any bytes, which terminates |
| Tlv.ParseFinds | BCM89335/driver/bcmutils.c:1864-1889 | over the bytes of some elements it returns the first with the key, and nothing if and only if there is none |
| Tlv.ParsedInside | BCM89335/driver/bcmutils.c:1876-1882 | over any bytes, an element found has the key and lies wholly inside those searched |
| Tlv.MetAre | BCM89335/driver/bcmutils.c:1914-1941 | the ids seen before are those of the elements in front of the one found |
| Tlv.WrittenIsFound | BCM89335/driver/bcmutils.c:1510-1527 | what a run of writes left is found that way |
| Tlv.ParseOrderedTlvs | BCM89335/driver/bcmutils.c:1914-1941 | over any bytes it agrees with the plain walk exactly until an id above the key comes before the element |
| Tlv.OrderedAgrees | BCM89335/driver/bcmutils.c:1914-1941 | where ids do not descend, none above the key comes before an element with the key |
| Tlv.StepsVisitAll | BCM89335/driver/bcmutils.c:1836-1857 | stepping visits every element once, in order |
| Xtlv.PackEntry | BCM89335/driver/bcmxtlv.c:227-256 | the record follows what was packed, or nothing changes exactly when it does not fit |
| Xtlv.HeaderBytes | BCM89335/driver/bcmxtlv.c:245-246 | id and length are stored low byte first |
| Xtlv.PackFromMem | BCM89335/driver/bcmxtlv.c:344-362 | of the items before the first of type 0 the longest prefix that fits is packed, with and without alignment; 1 is returned if that is not all |
| Xtlv.FitIs | BCM89335/driver/bcmxtlv.c:344-362 | the records packed are the longest prefix whose total does not exceed the buffer |
| Xtlv.UnpackToMem | BCM89335/driver/bcmxtlv.c:367-401 | every record goes to the first descriptor of its type in the list, which ends at type 0, and must have its length; leftovers are reported |
| Xtlv.RecordsAre | BCM89335/driver/bcmxtlv.c:376-398 | over any bytes the records met lie one after another, and behind them no whole one follows |
| Xtlv.DeliveredOk | BCM89335/driver/bcmxtlv.c:383-392 | the result is BADLEN if and only if some record meets a descriptor of its type with another length |
| Xtlv.DeliveredAt | BCM89335/driver/bcmxtlv.c:383-392 | each memory ends with the last record of its type, if its descriptor is the first of the type and not behind type 0, and is otherwise untouched |
| Xtlv.RoundTrip | BCM89335/driver/bcmxtlv.c:344-401 | packing and unpacking records of different types leaves no byte over and restores every payload |
| Xtlv.PackThenUnpack | BCM89335/driver/bcmxtlv.c:344-401 | both calls, one after the other, on items of different types that fit: both succeed, over exactly the packed length, and every payload is restored |
| Xtlv.PackBuf | BCM89335/driver/bcmxtlv.c:297-339 | the records that fit with a byte to spare are packed; too short if and only if that is not all |
| Xtlv.FitBeforeIs | BCM89335/driver/bcmxtlv.c:297-339 | the records packed are the longest prefix whose total is less than the buffer |
| Xtlv.UnpackBuf | BCM89335/driver/bcmxtlv.c:262-295 | the callback gets the records in order up to the first it refuses |
| Xtlv.PackedIsVisited | BCM89335/driver/bcmxtlv.c:262-339 | what was packed is exactly what is visited, and lookup by id returns the first such record |
| Xtlv.GetData | BCM89335/driver/bcmxtlv.c:408-445 | the payload of the first record with the id, if there is one |
| Xtlv.LookupNone | BCM89335/driver/bcmxtlv.c:408-445 | nothing is found if and only if no record has the id |
| Xtlv.XtlvBuf.PutData | BCM89335/driver/bcmxtlv.c:113-130 | the record follows those put before, or no memory exactly when it does not fit |
| Xtlv.XtlvBuf.PutNumber | BCM89335/driver/bcmxtlv.c:131-186 | the same for numbers of one, two and four bytes |
| Xtlv.LeBytes | BCM89335/driver/bcmxtlv.c:131-186 | the bytes of a number, low byte first |
| FragDrop.SearchDooms | BCM89335/driver/dhd_common.c:1354-1388 | the search ends with the segment that the first deciding packet determines |
| FragDrop.DoomedUnique | BCM89335/driver/dhd_common.c:1354-1388 | there is exactly one such segment |
| FragDrop.CommentHolds | BCM89335/driver/dhd_common.c:1332-1337 | a packet that is no fragment is the one dropped if and only if no fragment set ends the search before it |
| FragDrop.CommentFails | BCM89335/driver/dhd_common.c:1332-1337 | a queue where it is not |
| FragDrop.SetWhole | BCM89335/driver/dhd_common.c:1332-1337 | the segment runs from a first to a last fragment if and only if a last fragment ends the search |
| FragDrop.SetCut | BCM89335/driver/dhd_common.c:1332-1337 | queues of fragments where it does not |
| FragDrop.PktqPrec.Drop | BCM89335/driver/dhd_common.c:1338-1417 | exactly that segment leaves a queue that is not empty; the rest keeps its order, with head, tail and both lengths right |
| Cmd53.Sdioh.Gather | BCM89335/driver/bcmsdh_sdmmc.c:1031-1073 | entries cover the chain from where it stood without gap or overlap, each within the segment limit, and fill the command unless the chain ends |
| Cmd53.Next | BCM89335/driver/bcmsdh_sdmmc.c:1075-1107 | one more command continues the bytes moved, at the address behind them |
| Cmd53.Sdioh.RequestPacketChain | BCM89335/driver/bcmsdh_sdmmc.c:992-1109 | terminates; the commands always move a prefix of the chain's bytes, on success all of them in order, each 1 to 511 whole blocks within the host's own limits and at the start plus the bytes already sent; unless the bus fails the outcome is the one that chain and limits determine, and a refusal names its reason |
| Cmd53.ChainFate | BCM89335/driver/bcmsdh_sdmmc.c:1016-1109 | that outcome is success if and only if no command, each as large as can be, needs more than 42 entries, the bytes are whole blocks, and they fit one command or commands are whole blocks |
| Cmd53.SmallPackets | BCM89335/driver/bcmsdh_sdmmc.c:1031-1079 | small packets that fit one command: more than 42 are too many, else the outcome depends on whole blocks |
| Cmd53.Host.Bounds | BCM89335/driver/bcmsdh_sdmmc.c:1016-1018 | a command takes at most the least of the host's blocks, 511 blocks and the host's request size, and no less than that |
| Cmd53.AllWithinHost | BCM89335/driver/bcmsdh_sdmmc.c:1016-1088 | every command is within the limits of the host itself: blocks, bytes, entries and their sizes |
| Cmd53.AllAsAsked | BCM89335/driver/bcmsdh_sdmmc.c:1089-1098 | every command has the direction, function and mode asked for and, unless it is for a register, the low 17 bits of the address behind the bytes sent before it |
| SbWindow.BytesAreBar0 | BCM89335/driver/bcmsdh.c:364-376 | the three register bytes make up the window of the address |
| SbWindow.SetKeepsSound | BCM89335/driver/bcmsdh.c:360-386 | whatever writes fail, a remembered window other than 0 is the device's |
| SbWindow.SetReaches | BCM89335/driver/bcmsdh.c:360-386 | a call that succeeds leaves the device at the address's window, except for window 0 skipped while unknown |
| SbWindow.SetReachesAlways | BCM89335/driver/bcmsdh.c:360-386 | success means the address's window, for every sound device state and all failures, if and only if this is not an unforced call for window 0 while the window is unknown |
| SbWindow.RunSound | BCM89335/driver/bcmsdh.c:360-386 | in every run, with any failures and retries |
| SbWindow.SkippingIsReprogramming | BCM89335/driver/bcmsdh.c:360-386 | skipping reaches the same window as always reprogramming, for every window but 0 |
| SbWindow.WindowZeroBreaks | BCM89335/driver/bcmsdh.c:360-386 | a run in which window 0 is not reached |
| SbWindow.WrittenTries | BCM89335/driver/bcmsdh.c:256-266 | a write succeeds if and only if one of its first three tries does, and stops at that; the byte is in the device if a try that was made brought it there |
| SbWindow.WritesIff | BCM89335/driver/bcmsdh.c:360-386 | a call makes no write if and only if it is not forced and the window remembered is the address's |
| SbWindow.SetThenSkip | BCM89335/driver/bcmsdh.c:360-386 | after a success calls for the same window need no write; after a failure those for every window but 0 do |
| SbWindow.CutBelow | BCM89335/driver/bcmsdh.c:418-424 | the word read is cut to its low one or two bytes |
| SbWindow.Bcmsdh.CfgWrite | BCM89335/driver/bcmsdh.c:244-272 | up to three tries; an error exactly when all fail |
| SbWindow.Bcmsdh.SetWindow | BCM89335/driver/bcmsdh.c:360-386 | the code makes that step |
| SbWindow.Bcmsdh.RegWrite | BCM89335/driver/bcmsdh.c:436-467 | the device sees the access at the address meant or not at all, for every window but 0 |
| SbWindow.Bcmsdh.RegRead | BCM89335/driver/bcmsdh.c:388-434 | the same for reads, with the word cut to its size and other sizes reported as failures |
| SbWindow.Bcmsdh.TransferBuf | BCM89335/driver/bcmsdh.c:475-549 | the same for buffer transfers |

## Left out

- Linux glue (probe and removal, spinlocks, work queues, power management, netlink and iovar handlers): lock regions are atomic steps and timers are steps that may come at any time.
- Hardware register access, EROM scanning and gSPI command issue: device behaviour; the bus and the device are parameters of the models.
- Memory allocation failures, logging and printing, debug-only checks, and the TDLS branch of the flow-ring lookup.
- The driver's table of 256 reorder flows: one entry is modelled, as entries do not interact.
- FlowRing.FlowLkup.Lookup: states a call that no other disturbs; calls that overlap are the steps of FlowCalls. The status of the interface is read without the lock, so there a call may give up at any time.
- FlowCalls: rings are set up and create requests sent after the link step, under the ring's own lock; that a second call may see a ring not set up yet is not modelled.
- ReorderDelivery.RunInOrder: the number of slots is fixed over a run; a new hole that changes it is part of the step and its accounting alone.
- ReorderDriver.FlowEntry.Process: hints whose indices lie outside the circle are not modelled: the code would access memory that is not the flow's, or flush without end.
- AckReplace.TcpackSup.Suppress: frames that the code's own assertions exclude, datagrams longer than their frame, and TCP or IP headers shorter than their least length, are excluded; in DELAYTX mode the switch of the bus transmit flag is not modelled.
- FragDrop.PktqPrec.Drop: the fragment class of a packet is given with the packet; parsing it out of the frame is not modelled.
- Cmd53.Sdioh.RequestPacketChain: host limits are positive and packets are not empty; with a request size of 0 the source does not terminate.
- ObjectList: caller, line, flags and serial numbers of traced objects, and the feature and check calls that only move an entry to the end.
- Xtlv.UnpackToMem: reading a header behind the buffer's end, which the source does before it compares the length, is not modelled; its result does not depend on what is read there.
- SbWindow.Bcmsdh.TransferBuf: the unimplemented asynchronous flag.
- Firmware download chunking, the CDC request-id loop, band steering, channel and power tables, rate and event name tables.
