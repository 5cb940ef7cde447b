# MassBFT in Dafny

MassBFT is a ledger replicated across groups of nodes in several regions. This
project models its four stateful cores and proves what they promise, for all
inputs and all runs.

**Global block order** (`VoteLogs`, `OrderSpec`, `OrderInvariant`,
`OrderDelivery`, `OrderRuns`, `OrderGrowth`, `OrderCompletions`, `OrderHeads`,
`OrderExample`, `OrderManager`, `LeaderSpec`, `OrderAssigner`, `OrderEndToEnd`).
The leader of every group stamps the blocks of the other groups with its clock
and appends the stamps to its log. A replica reads the logs in any interleaving,
keeps lower bounds for the stamps that it lacks, and delivers a head block once
it must be less than all other heads. `VoteLogs` defines the order that the
complete logs determine; `OrderSpec` is one replica on values; `OrderManager` is
the program's classes with cells, chains and heads updated in place, proved to
take the steps of the specification; `OrderRuns` holds the theorems over all
runs. On the sending side, `LeaderSpec` is a leader with an unbounded tally, and
`OrderAssigner` is the ring of 256 slots that refines it. `OrderEndToEnd` puts
leaders and replicas together.

**Deterministic concurrency control** (`Store`, `Aria`, `AriaWorkers`,
`AriaEngine`, `AriaCoordinator`, `AriaExample`, `Chaincode`). A batch executes
on one snapshot, reservations of the smallest id per key decide which
transactions commit, and the result is that of the serial coordinator on the
committed ones. `Aria` is the rule, `AriaWorkers` covers every worker count and
interleaving, and the other modules are the reserve table, the store, the
coordinators and the object that records reads and writes.

**Merkle tree and fragments** (`MerkleSpec`, `MerkleReference`, `MerkleTree`,
`Wire`, `Fragments`, `FragmentClaims`, `FragmentOverlap`,
`FragmentOverlapExample`, `FragmentContext`, `Reassembly`, `FragmentTransfer`).
Trees over an abstract pair hash, built level by level or in place, with
sequential or strided loops; the byte stream of fragments with compressed
proofs, also for ranges that overlap with fragments received before; cutting a
message into chunks and putting it together again.

**On top** (`SmallBank`, `SmallBankLedger`, `SmallBankRows`, `Tpcc`,
`TpccProcedures`, `TpccConsistency`, `TpccLines`, `TpccRows`, `Ports`). Ledger
invariants carried through runs of batches, and the port numbers of a deployment
on one machine. `Basics` and `Strides` hold arithmetic that several modules
share.

Assumptions are stated as conditions. Groups are at least two and no chain is
invalidated. A voter's log has foreign blocks in block order with watermarks
that do not decrease; `LeaderSpec.LeaderRuns` shows that leaders write such logs
when they vote on foreign blocks in block order. Transaction ids in a batch are
distinct. A chaincode is a function from the snapshot to its recorded reads and
writes that depends on the recorded reads only (`Aria.ReadLocal`); the SmallBank
and TPC-C procedures meet this, and `Chaincode.UnrecordedMissNotSerializable`
shows that it cannot be dropped. An erasure code gives the first bytes of a
chunk back from enough of its fragments; asked for more bytes than the chunk
has, it pads up to some capacity and refuses beyond it
(`Reassembly.Code.Decodes`).

Some promises turn out to need a condition, and each has its exact one:

- A range that overlaps with fragments received before is accepted only if the
  proofs after the claimed fragments can be completed
  (`FragmentOverlap.AcceptedIff`). `FragmentOverlapExample.OverlapRejectedFor`
  gives correct streams that are rejected under every hash that does not collide
  there; the cache is refilled for each claimed fragment from the last proof
  that was built, which undoes what the claimed fragment before it brought.
- Amalgamating in SmallBank conserves the total only if the accounts differ or
  the checking account is empty (`SmallBankLedger.AmalgamateConserves`, with
  `SmallBankLedger.AmalgamateToSelfCreatesMoney`). This is about release builds:
  with the same account twice, a debug build stops at the DCHECKs of
  include/peer/chaincode/orm.h:26 and 54.
- A message can be cut only if the last chunk does not start past its end
  (`FragmentContext.CanCutIff`, with `Reassembly.CutCanFail`).
- With a buffer longer than the message, which the header allows, the last
  instance asks for more than its chunk holds. Regenerating succeeds exactly if
  the code can pad the last chunk up to the end of the buffer, and the buffer
  then starts with the message (`FragmentContext.RegeneratesIffRoom`, with
  `FragmentContext.LongBuffer` for both outcomes).
- The length of a proof is not checked, so what a receiver keeps need not be a
  fragment. With a proof as long as the tree is deep it has the digest of a
  leaf, with a shorter one that of an inner node, and with a longer one the
  siblings in excess lead from its digest to a leaf
  (`Fragments.KeptFragmentsAreNodes`; conversely `Fragments.NodesVerify` and
  `Fragments.ExcessVerifies`, with `Fragments.ConcatenationVerifies` and
  `Fragments.BelowLeafVerifies`).
- A stream fills a slot only if nothing has claimed it before, and a fragment
  that fails to verify keeps its slot claimed: after a rejected stream that slot
  stays incomplete whatever arrives later (`Fragments.RejectedBlocks`).
- In TPC-C, two lines of one order on the same stock count as one: a transaction
  reads the store and not its own writes, so the stock sells what was ordered
  exactly if no earlier line is on it (`TpccRows.SoldIff`). Debug builds stop at
  the DCHECK of include/peer/chaincode/orm.h:26 instead.
- Where the code and the TPC-C standard differ, the model follows the code:
  order lines are keyed with the district id in place of the order id. So the
  lines of a district's orders survive exactly when their line numbers are
  disjoint (`TpccLines.LinesKeptIff`).

## Model

| member | source | states |
|---|---|---|
| OrderEndToEnd.ReplicasAgree | include/peer/consensus/block_order/global_ordering.h:166-188 | for any runs of all group leaders that vote on foreign blocks in block order, any two replicas that read any interleavings, with repeats, of any prefixes of the leaders' logs deliver sequences one of which is a prefix of the other, both initial segments of one global order |
| OrderEndToEnd.LeadersWriteWellFormedLogs | include/peer/consensus/block_order/global_ordering.h:276-334 | the logs that such leaders write satisfy everything that the order manager assumes of its input |
| OrderRuns.Agreement | include/peer/consensus/block_order/interchain_order_manager.h:222-264 | agreement for every set of well-formed vote logs: deliveries of two replicas are prefix-comparable, and each is an initial segment of all blocks sorted by (final watermark vector, block id, group id) |
| OrderGrowth.DeliveredForGood | include/peer/consensus/block_order/interchain_order_manager.h:222-264 | votes that are cast later change nothing: what was delivered stays an initial segment of the order of the longer logs and comparable with every later delivery |
| OrderGrowth.RunSame | include/peer/consensus/block_order/interchain_order_manager.h:232-264 | a run over the shorter logs is the same run over the longer ones |
| OrderRuns.RunProgresses | include/peer/consensus/block_order/interchain_order_manager.h:232-264 | along a run, deliveries are never taken back and cells that are or were heads only evolve: real entries stay fixed, estimates only rise |
| OrderRuns.DeliveredInChainOrder | include/peer/consensus/block_order/interchain_order_manager.h:222-229 | every chain is delivered as exactly 0, 1, 2, ... up to its head, without gap or repeat |
| OrderRuns.NoPhantom | include/peer/consensus/block_order/interchain_order_manager.h:122-137 | a delivered block was voted on by group 0, or is group 0's own and a received watermark of group 0 reaches it; the number of deliveries is bounded by the votes received from group 0 |
| OrderRuns.ComparisonSoundAndStable | include/peer/consensus/block_order/interchain_order_manager.h:54-74 | in every reachable state the watermarks of heads are lower bounds of the final ones; a comparison that answers true is right about the final vectors and keeps answering true while both cells are heads |
| OrderRuns.NeverStalls | include/peer/consensus/block_order/interchain_order_manager.h:222-229 | after every event some head still lacks a vote: a block whose vote vector is complete, among complete heads, is never held back |
| OrderRuns.Run | include/peer/consensus/block_order/interchain_order_manager.h:232-264 | after every run the invariant that ties cells, heads and deliveries to the received log prefixes holds, and no head is deliverable |
| OrderRuns.Receive | include/peer/consensus/block_order/interchain_order_manager.h:232-264 | one decision, new or repeated, keeps the invariant, leaves no head deliverable, and only makes progress |
| OrderRuns.Record | include/peer/consensus/block_order/interchain_order_manager.h:243-261 | marking a fresh vote and raising the estimates keeps the invariant for the longer log prefix |
| OrderRuns.ReceiveInSteps | include/peer/consensus/block_order/interchain_order_manager.h:232-264 | a decision is create, mark, raise the estimates, pop; the watermark is already real exactly for repeats; the checks of marking and raising hold |
| OrderRuns.RepeatedVote | include/peer/consensus/block_order/interchain_order_manager.h:243-246 | a vote that was received before finds its cell with a real watermark, so it changes nothing |
| OrderRuns.FreshVote | include/peer/consensus/block_order/interchain_order_manager.h:212-220 | a fresh vote is on a block at most one past the end of its chain, whose entry is not real and not above the voted watermark |
| OrderDelivery.PopAll | include/peer/consensus/block_order/interchain_order_manager.h:222-229 | popping terminates, keeps the invariant, and ends with no deliverable head |
| OrderDelivery.PopAllStep | include/peer/consensus/block_order/interchain_order_manager.h:222-229 | delivering any deliverable head leads to the same final state, since there is only one; the checks of the exchange hold, and each delivery brings the loop closer to its bound |
| OrderDelivery.PopOk | include/peer/consensus/block_order/interchain_order_manager.h:139-164 | delivering the minimum keeps the whole invariant and stays within the bound given by group 0's votes |
| OrderDelivery.ExchangeOk | include/peer/consensus/block_order/interchain_order_manager.h:139-152 | the CHECKs of exchange pass in every invariant state, and the cells stay tied to the logs |
| OrderDelivery.InheritOk | include/peer/consensus/block_order/interchain_order_manager.h:144-152 | the previous head's watermarks are sound estimates for its successor and never above its real entries |
| OrderDelivery.MinimumPrecedes | include/peer/consensus/block_order/interchain_order_manager.h:122-137 | a head that must be less than all heads comes before every undelivered block in the global order |
| OrderDelivery.MinimumReleased | include/peer/consensus/block_order/interchain_order_manager.h:122-137 | a deliverable head is within what group 0's received votes release |
| OrderDelivery.PopKeepsOrder | include/peer/consensus/block_order/interchain_order_manager.h:222-229 | appending the minimum extends the delivered initial segment of the global order |
| OrderDelivery.MustLessThanComplete | include/peer/consensus/block_order/interchain_order_manager.h:54-74 | between two cells with all votes in, the comparison answers true whenever the final order says so |
| OrderDelivery.QuiescentMissesVote | include/peer/consensus/block_order/interchain_order_manager.h:122-137 | if no head is deliverable, some head lacks a vote |
| OrderInvariant.EstimateSound | include/peer/consensus/block_order/interchain_order_manager.h:172-181 | every entry of a cell is at most its final watermark |
| OrderInvariant.MustLessThanSound | include/peer/consensus/block_order/interchain_order_manager.h:54-74 | a comparison that answers true implies strict precedence of the final keys |
| OrderInvariant.MinimumUnique | include/peer/consensus/block_order/interchain_order_manager.h:122-137 | at most one head is the global minimum, whatever the scan order |
| OrderInvariant.MustLessThanStable | include/peer/consensus/block_order/interchain_order_manager.h:54-74 | a true answer stays true when both cells evolve |
| OrderCompletions.MustLessThanIff | include/peer/consensus/block_order/interchain_order_manager.h:54-74 | the comparison of two cells of different blocks, exactly: entries that are not real may still grow, and it answers true if and only if at one fixed index, for all values that both cells can still end up with, the keys (watermarks, block id, group id) agree before and the first is smaller there |
| OrderCompletions.Cautious | include/peer/consensus/block_order/interchain_order_manager.h:54-74 | the index has to be the same for all of them: a pair of cells where the first is smaller whatever comes, at one of two indices, and the answer is no |
| OrderExample.DeliversBoth | include/peer/consensus/block_order/interchain_order_manager.h:232-264 | two groups and one vote each, in both orders of arrival, with the exact deliveries after every event; the second block is delivered only because a raised or inherited estimate counts |
| OrderHeads.HeadsRise | include/peer/consensus/block_order/interchain_order_manager.h:139-181 | along every run, no watermark of a head ever falls, neither of a head that stays nor from a head to its successor |
| OrderHeads.VoteReaches | include/peer/consensus/block_order/interchain_order_manager.h:232-264 | right after a new vote, every head that was not exchanged has the voter's entry real or equal to the voted watermark |
| OrderInvariant.MarkOk | include/peer/consensus/block_order/interchain_order_manager.h:76-86 | marking the next log entry finds an entry that is not real and not above the new watermark, and keeps all cells tied to the logs |
| OrderInvariant.RaiseOk | include/peer/consensus/block_order/interchain_order_manager.h:172-181 | the CHECKs of updateEstimate pass, and raised estimates are still lower bounds |
| OrderInvariant.TouchOk | include/peer/consensus/block_order/interchain_order_manager.h:212-220 | a new cell satisfies the cell invariant |
| OrderInvariant.InitialOk | include/peer/consensus/block_order/interchain_order_manager.h:24-36 | the initial state satisfies the invariant |
| VoteLogs.FinalMonotone | include/peer/consensus/block_order/interchain_order_manager.h:54-74 | the final watermark that a voter gives to a chain's blocks does not decrease along the chain |
| VoteLogs.ChainIncreasing | include/peer/consensus/block_order/interchain_order_manager.h:54-74 | an earlier block of a chain precedes a later one in the global order |
| VoteLogs.BeforeTotal | include/peer/consensus/block_order/interchain_order_manager.h:54-74 | the global order is total on distinct blocks |
| VoteLogs.BeforeAsymmetric | include/peer/consensus/block_order/interchain_order_manager.h:54-74 | the global order is asymmetric |
| VoteLogs.BeforeTransitive | include/peer/consensus/block_order/interchain_order_manager.h:54-74 | the global order is transitive |
| VoteLogs.SegmentsAgreeUpTo | include/peer/consensus/block_order/interchain_order_manager.h:222-229 | two initial segments of the global order agree as far as both reach |
| OrderManager.Cell.constructor | include/peer/consensus/block_order/interchain_order_manager.h:44-53 | a new cell has its own group's entry real with the block id and all others unset |
| OrderManager.Cell.MustLessThan | include/peer/consensus/block_order/interchain_order_manager.h:54-74 | the scan returns the comparison of the specification |
| OrderManager.Cell.SetIthWaterMark | include/peer/consensus/block_order/interchain_order_manager.h:76-86 | marks an entry exactly once, with no effect on other entries; the caller guarantees the CHECK |
| OrderManager.Cell.RaiseEstimate | include/peer/consensus/block_order/interchain_order_manager.h:174-179 | an entry that is not real becomes the watermark, under both CHECKs; nothing else changes |
| OrderManager.Cell.InheritFrom | include/peer/consensus/block_order/interchain_order_manager.h:144-152 | entries that are not real are copied from the previous head |
| OrderManager.InterChainOrderManager.constructor | include/peer/consensus/block_order/interchain_order_manager.h:24-36 | chains, heads and cells of at least two groups start in the initial state of the specification |
| OrderManager.InterChainOrderManager.Append | include/peer/consensus/block_order/interchain_order_manager.h:212-220 | one cell is added at the end of a chain and nothing else changes |
| OrderManager.InterChainOrderManager.CreateBlockIfNotExist | include/peer/consensus/block_order/interchain_order_manager.h:212-220 | returns the cell with the given group and block id, creating it if needed |
| OrderManager.InterChainOrderManager.GlobalMinimum | include/peer/consensus/block_order/interchain_order_manager.h:122-137 | returns the minimum head if there is one, and otherwise establishes that there is none |
| OrderManager.InterChainOrderManager.Exchange | include/peer/consensus/block_order/interchain_order_manager.h:139-164 | the head of the chain becomes its successor with inherited estimates; no other cell changes |
| OrderManager.InterChainOrderManager.UpdateEstimate | include/peer/consensus/block_order/interchain_order_manager.h:172-181 | every head's entry that is not real becomes the watermark, as the specification says, under the CHECK |
| OrderManager.InterChainOrderManager.DeliverHead | include/peer/consensus/block_order/interchain_order_manager.h:222-229 | delivers the head and exchanges it: one pop of the specification |
| OrderManager.InterChainOrderManager.PopBlocks | include/peer/consensus/block_order/interchain_order_manager.h:222-229 | the loop terminates in the state that popping all minima gives |
| OrderManager.InterChainOrderManager.Mark | include/peer/consensus/block_order/interchain_order_manager.h:76-86 | the object graph after marking represents the marked specification state; reports whether the vote was new |
| OrderManager.InterChainOrderManager.RaiseAndPop | include/peer/consensus/block_order/interchain_order_manager.h:256-264 | raising the estimates and popping, from a marked state |
| OrderManager.InterChainOrderManager.PushDecision | include/peer/consensus/block_order/interchain_order_manager.h:232-264 | the objects represent exactly the state that receiving the vote gives, with the invariant kept |
| LeaderSpec.LeaderRuns | include/peer/consensus/block_order/interchain_order_manager.h:290-345 | over every run of block receipts, remote votes and commits, in terms of the steps alone: the log is exactly the orders that have fallen due, where a block falls due when it arrives or, if foreign, when more than half of the groups have voted on it; own blocks are stamped with their number and foreign ones with the largest own block committed before; the clock is that block; a foreign block that is not due has exactly the voters that have voted; at most one order per block across both triggers, watermarks on foreign blocks never decrease, and if foreign blocks are voted on in block order the log is well formed |
| LeaderSpec.EveryStamp | include/peer/consensus/block_order/interchain_order_manager.h:290-304 | every order was emitted at the step where its block fell due, with the largest own block committed by then as its watermark if the block is foreign |
| LeaderSpec.FirstStamp | include/peer/consensus/block_order/interchain_order_manager.h:290-304 | leader 0 commits its block 0 and then receives block 0 of group 1: the stamp is 0 |
| LeaderSpec.VoteNewBlockOk | include/peer/consensus/block_order/global_ordering.h:318-334 | emitting an order once keeps the leader invariant |
| LeaderSpec.OnRemoteVoteOk | include/peer/consensus/block_order/global_ordering.h:276-310 | counting a remote vote, and voting when the threshold is reached, keeps the leader invariant |
| LeaderSpec.CountBounded | include/peer/consensus/block_order/interchain_order_manager.h:307-318 | never more votes than groups are counted for a block |
| LeaderSpec.AscendingInOrder | include/peer/consensus/block_order/global_ordering.h:318-334 | ascending watermarks with in-order voting give a well-formed log |
| OrderAssigner.Assigner.constructor | include/peer/consensus/block_order/interchain_order_manager.h:348-379 | an empty ring represents the leader that has seen nothing |
| OrderAssigner.Assigner.GetRef | include/peer/consensus/block_order/interchain_order_manager.h:362-371 | the slot returned holds the tally of the unbounded map; a slot of an older block is cleared first |
| OrderAssigner.Assigner.SetRef | include/peer/consensus/block_order/interchain_order_manager.h:362-371 | writing the slot back updates exactly one entry of the unbounded map |
| OrderAssigner.Assigner.VoteNewBlock | include/peer/consensus/block_order/interchain_order_manager.h:290-304 | the ring takes the same step as the unbounded tally, and reports whether an order was emitted |
| OrderAssigner.Assigner.AddVoteForBlock | include/peer/consensus/block_order/interchain_order_manager.h:307-318 | adds the voter to the tally unless the block is local or finished; returns the count, or -1 |
| OrderAssigner.Assigner.GetVoteForBlock | include/peer/consensus/block_order/interchain_order_manager.h:321-331 | returns the count of the unbounded tally, or -1, without changing it |
| OrderAssigner.Assigner.IncreaseLocalClock | include/peer/consensus/block_order/interchain_order_manager.h:333-345 | the clock moves by exactly one or not at all; the caller guarantees the CHECK |
| OrderAssigner.RunAssigner | include/peer/consensus/block_order/interchain_order_manager.h:290-371 | over every run in which no access goes back 256 or more blocks behind the newest of its chain, the ring computes exactly what the unbounded tally does, and its log is exactly the orders that have fallen due |
| OrderAssigner.WindowNotStale | include/peer/consensus/block_order/interchain_order_manager.h:362-371 | within that window no slot is stale |
| OrderAssigner.Assigner.OnRemoteVote | include/peer/consensus/block_order/global_ordering.h:276-310 | the vote that reaches the threshold forces the local vote, as in the specification with an unbounded tally |
| Aria.Serializable | include/peer/concurrency_control/deterministic/worker_fsm_impl.h:45-85 | for every batch of distinct ids and every order that puts readers before writers, running the committed transactions one by one gives each the reads and writes it had in the batch, and the same store |
| Aria.SerialOrderExists | include/peer/concurrency_control/deterministic/worker_fsm_impl.h:45-85 | an order with all readers before writers exists over the committed transactions |
| Aria.ReaderFirst | include/peer/concurrency_control/deterministic/worker_fsm_impl.h:58-76 | a committed reader of a key precedes its committed writer in one linear order, so the reader-before-writer graph has no cycle |
| Aria.CommittedDisjoint | include/peer/concurrency_control/deterministic/worker_fsm_impl.h:58-76 | committed write sets are pairwise disjoint |
| Aria.SmallestCommits | include/peer/concurrency_control/deterministic/reserve_table.h:66-101 | the smallest reserved transaction id always commits |
| Aria.CommitsIff | include/peer/concurrency_control/deterministic/worker_fsm_impl.h:58-76 | the rule, exactly, in terms of read and write sets: a finished transaction commits if and only if it writes nothing, or its writes are disjoint from those of every finished writer with a smaller id and, moreover, its writes are disjoint from all their reads or its reads from all their writes |
| AriaExample.ReaderCommits | include/peer/concurrency_control/deterministic/worker_fsm_impl.h:58-76 | transaction 1 writes key 7, transaction 2 reads it and writes key 8: both commit |
| AriaExample.CycleAborts | include/peer/concurrency_control/deterministic/worker_fsm_impl.h:58-76 | two transactions that each read what the other writes: the second is aborted, and committing both would leave a store that no serial order leaves |
| Aria.BatchResultUnique | include/peer/concurrency_control/deterministic/worker_fsm_impl.h:45-85 | the committed transactions determine the store |
| Aria.OrderGivesBatchResult | include/peer/concurrency_control/deterministic/worker_fsm_impl.h:45-85 | applying the committed write sets in a serial order gives the result of the batch |
| AriaWorkers.TablesHoldMinima | include/peer/concurrency_control/deterministic/reserve_table.h:36-64 | after any sequence of reservations each table maps a key to the minimum reserving id, and only reserved keys |
| AriaWorkers.ReservationOrderIrrelevant | include/peer/concurrency_control/deterministic/reserve_table.h:36-64 | any two interleavings of the same reservations give equal tables |
| AriaWorkers.TablesDecide | include/peer/concurrency_control/deterministic/reserve_table.h:66-101 | the flags computed from the tables are exactly the waw, war and raw dependencies on smaller ids |
| AriaWorkers.SmallestDecides | include/peer/concurrency_control/deterministic/reserve_table.h:66-101 | a smaller reservation in a table exists if and only if a smaller reserved transaction touches the key |
| AriaWorkers.ConcurrentCommit | include/peer/db/phmap_connection.h:33-49 | per-worker write batches, interleaved operation by operation in any way, leave the store that the committed transactions determine |
| AriaWorkers.Deterministic | include/peer/concurrency_control/deterministic/worker_fsm_impl.h:18-85 | any two worker counts, reservation interleavings and commit interleavings give equal tables, the same dependency flags for every transaction, which are those of the rule, and equal stores |
| Store.BatchAt | include/peer/db/phmap_connection.h:33-49 | a key written always the same way ends up with that value, although all puts come before all deletes |
| Store.WrittenIs | include/peer/db/phmap_connection.h:33-49 | a write list deletes a key if any of its writes does, wherever it stands, and otherwise leaves the last value put |
| Store.MergeOn | include/peer/db/phmap_connection.h:33-49 | a key that one stream touches sees exactly that stream's operations, in order, in any interleaving |
| Store.ApplyAt | include/peer/db/phmap_connection.h:33-49 | the value of a key after a list of operations depends only on the last operation on it |
| AriaEngine.ReserveTable.Reset | include/peer/concurrency_control/deterministic/reserve_table.h:31-34 | both tables are empty |
| AriaEngine.ReserveTable.ReserveRWSets | include/peer/concurrency_control/deterministic/reserve_table.h:36-64 | the loops perform exactly the reservations of the read set and the write set |
| AriaEngine.ReserveTable.AnalysisDependent | include/peer/concurrency_control/deterministic/reserve_table.h:66-101 | the loops with early exits compute the dependency flags of the specification |
| AriaEngine.Connection.SyncWriteBatch | include/peer/db/phmap_connection.h:33-49 | all puts, then all deletes, are applied to the store |
| AriaCoordinator.Coordinator.TakeStripe | include/peer/concurrency_control/coordinator.h:64-84 | worker w gets exactly the transactions at positions congruent to w, in order |
| AriaCoordinator.Coordinator.MoveBack | include/peer/concurrency_control/coordinator.h:64-84 | every transaction of a worker goes back to the position it came from, and no other position changes |
| AriaCoordinator.Coordinator.OnExecuteTransaction | include/peer/concurrency_control/deterministic/worker_fsm_impl.h:18-43 | the worker's transactions are executed on the snapshot and their reservations are in the shared tables |
| AriaCoordinator.Coordinator.OnCommitTransaction | include/peer/concurrency_control/deterministic/worker_fsm_impl.h:45-85 | the worker's transactions are decided by the dependency rule, and its committed writes are in the store |
| AriaCoordinator.Coordinator.ProcessTxnList | include/peer/concurrency_control/deterministic/coordinator_impl.h:23-42 | reset, start, execute and commit leave every transaction decided in its own position, and the store of the batch |
| AriaCoordinator.Coordinator.ProcessValidatedRequests | include/peer/concurrency_control/coordinator.h:86-123 | result i and read-write set i belong to request i: committed if and only if the read and write sets of the smaller ids allow it; the store is that of the batch |
| AriaCoordinator.OneByOne | include/peer/concurrency_control/coordinator.h:131-154 | applying the workers' batches one after the other is one of the interleavings |
| AriaCoordinator.SerialCoordinator.SaveWrites | include/peer/concurrency_control/serial/serial_coordinator.h:72-88 | one transaction's write set becomes one batch on the store |
| AriaCoordinator.SerialCoordinator.ProcessValidatedRequests | include/peer/concurrency_control/serial/serial_coordinator.h:38-106 | each request runs on the store that the previous ones left; results and sets are per request |
| AriaCoordinator.MatchesSerialCoordinator | include/peer/concurrency_control/serial/serial_coordinator.h:38-106 | for every batch, the serial coordinator given the committed requests in some serial order produces the same reads, writes and store |
| Chaincode.Orm.Get | include/peer/chaincode/orm.h:25-39 | returns what the snapshot holds, and records a hit but not a miss |
| Chaincode.Orm.Put | include/peer/chaincode/orm.h:53-59 | appends a write and leaves the reads alone |
| Chaincode.Orm.Delete | include/peer/chaincode/orm.h:65-70 | appends a delete and leaves the reads alone |
| Chaincode.Orm.Reset | include/peer/chaincode/orm.h:76-80 | moves both sets out and leaves them empty |
| Chaincode.UnrecordedMissNotSerializable | include/peer/chaincode/orm.h:25-39 | two transactions that go on after a miss both commit although no serial order of them leaves the same store: the condition that results depend on recorded reads only cannot be dropped |
| SmallBank.InvokeReadLocal | src/peer/chaincode/small_bank_chaincode.cpp:55-207 | every procedure is a function of its recorded reads, so batches of them are serializable |
| SmallBank.InvokeDepositChecking | src/peer/chaincode/small_bank_chaincode.cpp:82-106 | the get and put sequence records the reads and writes of the specification, or fails |
| SmallBank.InvokeTransactSavings | src/peer/chaincode/small_bank_chaincode.cpp:108-133 | the same for changing savings, refused when they would turn negative |
| SmallBank.InvokeAmalgamate | src/peer/chaincode/small_bank_chaincode.cpp:135-174 | the same for moving all funds of one customer into another's checking account |
| SmallBank.InvokeWriteCheck | src/peer/chaincode/small_bank_chaincode.cpp:176-207 | the same for checks, with the penalty of one when both balances do not cover the amount |
| SmallBankLedger.RunLedger | src/peer/chaincode/small_bank_chaincode.cpp:82-207 | over every run of Aria batches, total funds are the initial total plus the flows of exactly the committed requests, and savings never turn negative if they were not |
| SmallBankLedger.BatchLedger | src/peer/chaincode/small_bank_chaincode.cpp:82-207 | the same for one batch |
| SmallBankLedger.InvokeLedger | src/peer/chaincode/small_bank_chaincode.cpp:82-207 | one committed request changes the total by its flow: deposits and savings changes, minus checks with their penalty |
| SmallBankLedger.AmalgamateConserves | src/peer/chaincode/small_bank_chaincode.cpp:135-174 | amalgamating conserves the total if and only if the accounts differ or the checking account is empty |
| SmallBankLedger.AmalgamateToSelfCreatesMoney | src/peer/chaincode/small_bank_chaincode.cpp:135-174 | a customer with 1 in savings and 2 in checking who amalgamates with themself ends up with 5 |
| SmallBankRows.RowsAfter | src/peer/chaincode/small_bank_chaincode.cpp:82-207 | every row after one request, exactly: which rows it changes and by how much, and every other row is unchanged; amalgamating a into b leaves 0 in both accounts of a and adds their sum to the checking account of b |
| SmallBankRows.FinishedIff | src/peer/chaincode/small_bank_chaincode.cpp:55-207 | a request goes through if and only if its customers and the balances it needs exist, a deposit is not negative, and savings do not become negative |
| SmallBankRows.Footprint | src/peer/chaincode/small_bank_chaincode.cpp:55-207 | the rows by which a request conflicts with others: it reads the names and the balances it needs, and writes the rows it changes |
| SmallBankRows.BatchRows | src/peer/chaincode/small_bank_chaincode.cpp:82-207 | after a batch each row holds its amount plus the changes of the committed requests, no row appears or disappears, and a row that none of them names is untouched |
| SmallBankRows.RunRows | src/peer/chaincode/small_bank_chaincode.cpp:82-207 | the same over every run of batches |
| SmallBankRows.AmalgamateMoves | src/peer/chaincode/small_bank_chaincode.cpp:135-174 | customers with (1, 2) and (10, 20): amalgamating the first into the second leaves (0, 0) and (10, 23) |
| SmallBankRows.CheckBesideSavings | include/peer/concurrency_control/deterministic/worker_fsm_impl.h:58-76 | a savings change and a check of one customer in one batch both commit, although the check reads what the other one writes |
| Tpcc.InvokeReadLocal | src/peer/chaincode/tpcc_chaincode.cpp:376-720 | New-Order and Payment are functions of their recorded reads |
| TpccProcedures.ExecuteNewOrder | src/peer/chaincode/tpcc_chaincode.cpp:376-601 | the procedure records the reads and writes of the specification, or fails |
| TpccProcedures.ExecuteLines | src/peer/chaincode/tpcc_chaincode.cpp:483-599 | the loop over order lines stops at the first failing line and otherwise records all lines in order |
| TpccProcedures.ExecuteLine | src/peer/chaincode/tpcc_chaincode.cpp:483-599 | one line reads item and stock, updates the stock and adds the line |
| TpccProcedures.OnlyHomeLines | src/peer/chaincode/tpcc_chaincode.cpp:433-439 | an order is all local exactly when every line is supplied by the home warehouse |
| TpccProcedures.ExecutePayment | src/peer/chaincode/tpcc_chaincode.cpp:603-720 | the procedure records the reads and writes of the specification, or fails |
| TpccConsistency.RunConsistent | src/peer/chaincode/tpcc_chaincode.cpp:395-481 | over every run of Aria batches, in every state the next order id of each district is one more than its largest order id and its largest new-order id (clause 3.3.2.2 of the TPC-C standard), and the warehouse total minus the district totals never changes (difference form of clause 3.3.2.1) |
| TpccConsistency.BatchConsistent | src/peer/chaincode/tpcc_chaincode.cpp:395-481 | the same for one batch |
| TpccConsistency.InvokeConsistent | src/peer/chaincode/tpcc_chaincode.cpp:376-720 | one committed transaction keeps both conditions |
| TpccConsistency.OrderAddedOk | src/peer/chaincode/tpcc_chaincode.cpp:395-481 | a New-Order adds exactly the next order id to its district |
| TpccConsistency.PaymentMadeOk | src/peer/chaincode/tpcc_chaincode.cpp:603-645 | a Payment leaves the order ids alone |
| TpccConsistency.PaymentMadeGap | src/peer/chaincode/tpcc_chaincode.cpp:603-645 | a Payment adds the same amount to the warehouse and to one district |
| TpccLines.LinesKeptIff | src/peer/chaincode/tpcc_chaincode.cpp:580-598 | a New-Order adds as many order-line rows as it has line numbers if and only if none of them is in use in the district; otherwise earlier lines are overwritten |
| TpccLines.TwoOrdersShareLines | src/peer/chaincode/tpcc_chaincode.cpp:580-598 | two New-Orders of a district leave the union of their line numbers, and a common number holds a line of the second |
| TpccLines.NewOrderLines | src/peer/chaincode/tpcc_chaincode.cpp:580-598 | the rows that a New-Order names hold its lines, and every other line row stays |
| TpccRows.PaymentRows | src/peer/chaincode/tpcc_chaincode.cpp:603-720 | every row after a payment, exactly: warehouse and district gain the amount, the customer, by id or by last name, owes it less and has paid it more, the history has it, and nothing else changes |
| TpccRows.PaymentFinishedIff | src/peer/chaincode/tpcc_chaincode.cpp:603-720 | a payment goes through if and only if warehouse, district and customer exist |
| TpccRows.PaymentFootprint | src/peer/chaincode/tpcc_chaincode.cpp:603-720 | the rows that a payment reads and writes |
| TpccRows.NewOrderRows | src/peer/chaincode/tpcc_chaincode.cpp:395-481 | after a New-Order, apart from the rows of its lines: the district moves on by one, the order is entered with customer, number of lines and whether all are local, and nothing else changes |
| TpccRows.NewOrderFinishedIff | src/peer/chaincode/tpcc_chaincode.cpp:395-545 | a New-Order goes through if and only if warehouse, district and customer exist and, for every line, the item, the supplying stock and the home stock |
| TpccRows.NewOrderReads | src/peer/chaincode/tpcc_chaincode.cpp:395-545 | exactly the rows that a New-Order reads |
| TpccRows.NewOrderWriteKeys | src/peer/chaincode/tpcc_chaincode.cpp:395-598 | exactly the rows that a New-Order writes |
| TpccRows.StockAfterOrder | src/peer/chaincode/tpcc_chaincode.cpp:508-533 | a stock row after an order: less by the quantity of the last line on it, refilled by 91 when fewer than 10 would remain, with the counts of pieces, orders and remote orders |
| TpccRows.LineAfterOrder | src/peer/chaincode/tpcc_chaincode.cpp:577-598 | an order line holds item, supplier, quantity and the price of all pieces with both taxes less the customer's discount |
| TpccRows.SoldIff | src/peer/chaincode/tpcc_chaincode.cpp:508-533 | a stock counts all the pieces ordered from it if and only if no earlier line of the same order is on it |
| TpccRows.RunKeeps | src/peer/chaincode/tpcc_chaincode.cpp:376-720 | over every run of Aria batches, each customer's balance and payments add up to what they did at the start, and with quantities of at most 91 no stock falls below 10 if none was |
| MerkleSpec.Completeness | src/common/parallel_merkle_tree.cpp:279-295 | for at least two leaves, every leaf gets exactly Depth siblings, and climbing from it gives the root |
| MerkleSpec.Soundness | src/common/parallel_merkle_tree.cpp:279-295 | a digest that verifies with a proof of length Depth is one of the leaves, if the hash has no collision on the inputs that the two computations use, also through duplicated odd nodes |
| MerkleSpec.PositionBinding | src/common/parallel_merkle_tree.cpp:279-295 | with the path of leaf i, only the digest of leaf i verifies, and only with its own siblings, under the same condition on the hash |
| MerkleSpec.InjectiveIsCollisionFree | src/common/parallel_merkle_tree.cpp:279-295 | an injective pair hash meets the condition of soundness everywhere |
| MerkleSpec.TopWidth | src/common/parallel_merkle_tree.cpp:91-98 | padding and halving leave exactly two nodes after Depth - 1 rounds and one after Depth |
| MerkleSpec.DepthIsCeilLog2 | src/common/parallel_merkle_tree.cpp:91-98 | Depth is the rounded-up base-two logarithm of the number of leaves |
| MerkleSpec.PathBound | src/common/parallel_merkle_tree.cpp:135-147 | the path has one bit per level |
| MerkleReference.NodeIsSubtree | src/common/parallel_merkle_tree.cpp:122-133 | every node of every level, from the top: it hashes the node over its left half with the node over its right half, or with itself where there are no leaves to the right |
| MerkleReference.RootIsSubtree | src/common/parallel_merkle_tree.cpp:122-133 | the root is that node over all leaves |
| MerkleReference.ProofIs | src/common/parallel_merkle_tree.cpp:135-147 | sibling l of a leaf is the node beside its ancestor on level l, and bit l of its path is set exactly if that ancestor is a left node |
| MerkleReference.OddLevel | src/common/parallel_merkle_tree.cpp:122-133 | the last node of a level of odd width is hashed with itself |
| MerkleReference.OddRoot | src/common/parallel_merkle_tree.cpp:122-133 | an odd number of leaves gives the root of the same leaves with the last one twice |
| MerkleReference.RootOfThree | src/common/parallel_merkle_tree.cpp:122-133 | the root of a, b, c is h(h(a, b), h(c, c)) |
| MerkleTree.ProofComplete | src/common/parallel_merkle_tree.cpp:135-147 | adding one sibling and one path bit per level ends in the proof that the tree determines |
| MerkleTree.CalculateNumRoutine | include/common/parallel_merkle_tree.h:153-161 | at least one routine; more than one only as asked for and with sixteen pieces of work for each; fewer than asked for only if the work does not suffice |
| MerkleTree.MerkleTree.InitProofs | include/common/parallel_merkle_tree.h:124-130 | one empty proof per leaf |
| MerkleTree.MerkleTree.FixOdd | src/common/parallel_merkle_tree.cpp:122-133 | an odd level is extended by a copy of its last node; an even one is unchanged |
| MerkleTree.MerkleTree.AddToProofs | src/common/parallel_merkle_tree.cpp:138-147 | one of the two loops: exactly the proofs of a span of leaves get a node and its path bit |
| MerkleTree.MerkleTree.UpdatePairProof | src/common/parallel_merkle_tree.cpp:135-147 | exactly the leaves below the two nodes of a pair get the other node and the path bit |
| MerkleTree.MerkleTree.UpdateStride | src/common/parallel_merkle_tree.cpp:221-235 | one routine handles exactly the pairs of its stride |
| MerkleTree.MerkleTree.UpdateProofsParallel | src/common/parallel_merkle_tree.cpp:221-235 | for any number of routines every leaf's proof grows by exactly one node |
| MerkleTree.MerkleTree.UpdateProofs | include/common/parallel_merkle_tree.h:140-145 | the sequential loop has the same effect |
| MerkleTree.MerkleTree.HashLevel | src/common/parallel_merkle_tree.cpp:237-277 | the strided loops write every parent node, for any number of routines |
| MerkleTree.MerkleTree.MapLeaves | src/common/parallel_merkle_tree.cpp:237-277 | the leaf map holds exactly the leaves, each at its last position |
| MerkleTree.MerkleTree.TreeBuild | src/common/parallel_merkle_tree.cpp:237-277 | all levels, padded, the root and the leaf map |
| MerkleTree.MerkleTree.ProofsFromTree | src/common/parallel_merkle_tree.cpp:33-89 | the proofs added level by level are those that the tree determines |
| MerkleTree.MerkleTree.HashInPlace | src/common/parallel_merkle_tree.cpp:100-120 | hashing pairs into the front of the same buffer gives the next level |
| MerkleTree.MerkleTree.ProofGen | src/common/parallel_merkle_tree.cpp:100-120 | the in-place algorithm produces the same root and proofs as building the tree |
| MerkleTree.MerkleTree.GenerateProof | src/common/parallel_merkle_tree.cpp:297-327 | for every built tree: found exactly for leaves; equals the stored proof at the last position of the digest |
| MerkleTree.MerkleTree.Verify | src/common/parallel_merkle_tree.cpp:279-295 | accepts exactly when climbing along the proof gives the root |
| MerkleTree.MerkleTree.New | src/common/parallel_merkle_tree.cpp:33-89 | no tree for fewer than two leaves; otherwise root, proofs, tree and leaf map of the leaves, by mode |
| FragmentTransfer.SendAndRebuild | tests/peer/replicator/block_fragment_generator_tests.cpp:49-71 | cutting a message, sending any legal ranges in which claimed fragments come first or one at a time, and regenerating: every stream is accepted; it succeeds exactly if the buffer is not longer than the last instance can fill, the buffer then starts with the message, and is exactly the message if it was not longer to begin with |
| FragmentTransfer.EndToEnd | src/peer/replicator/block_fragment_generator.cpp:11-161 | the same on values: such ranges that cover enough fragments let the receiver rebuild the message, for every buffer size |
| FragmentTransfer.AnyRangesRebuild | src/peer/replicator/block_fragment_generator.cpp:11-161 | for any ranges, overlapping or not, accepted or not: as soon as enough slots are complete, the message comes out into every buffer for which there is room |
| FragmentTransfer.RebuildsMessage | src/peer/replicator/block_fragment_generator.cpp:117-161 | enough complete slots give the message back, also beside incomplete ones and for every buffer size |
| FragmentTransfer.SmoothAccepted | src/peer/replicator/block_fragment_generator.cpp:28-113 | each such range is accepted, and afterwards exactly the covered slots are claimed and hold what was sent |
| FragmentTransfer.DisjointSmooth | src/peer/replicator/block_fragment_generator.cpp:28-113 | ranges that do not overlap meet the condition in every order |
| FragmentTransfer.OverlappingButSmooth | tests/peer/replicator/block_fragment_generator_tests.cpp:63-66 | four ranges of which two start inside earlier ones meet the condition and cover eleven fragments |
| FragmentOverlap.AcceptedIff | src/peer/replicator/block_fragment_generator.cpp:28-113 | the exact condition: unless the hash collides, a stream of the sender is accepted if and only if, for every unclaimed fragment of the range, nothing unclaimed comes before it, or the fragment just before it is unclaimed, or the last proof before the claimed fragments agrees with its own above everything sent with it or with the claimed fragment just before it; otherwise it is rejected |
| FragmentOverlap.AcceptedIfRefills | src/peer/replicator/block_fragment_generator.cpp:28-113 | under the condition, exactly the unclaimed slots are filled, with every full proof and every fragment as sent; needs nothing of the hash |
| FragmentOverlap.VerifiesOnlyIfRefills | src/peer/replicator/block_fragment_generator.cpp:99-112 | a proof that is completed wrongly does not verify, unless the hash collides |
| FragmentOverlap.ShortRunsAccepted | src/peer/replicator/block_fragment_generator.cpp:28-113 | a range in which at most one claimed fragment follows an unclaimed one is accepted |
| FragmentOverlap.ReceivedHonest | src/peer/replicator/block_fragment_generator.cpp:28-113 | whatever is claimed, a stream of the sender never ends early, only unclaimed slots of the range change, and only the sender's fragments come in |
| FragmentOverlap.TransferRoundTrip | src/peer/replicator/block_fragment_generator.cpp:230-287 | for every range with no fragment claimed earlier, decoding the compressed stream rebuilds every full proof and every fragment, and validation succeeds against the root |
| FragmentOverlapExample.OverlapRejectedFor | src/peer/replicator/block_fragment_generator.cpp:32-55 | for every hash and any eight fragments of which 4 and 5 arrived before: the correct stream of all eight is rejected, whenever the two children of the root differ and the proof of fragment 6 as completed does not pass by a collision |
| FragmentOverlapExample.OverlapRejected | src/peer/replicator/block_fragment_generator.cpp:32-55 | a concrete input for this: 4 and 5 arrive first and are accepted; the stream of all eight is then rejected |
| FragmentOverlapExample.WrongSibling | src/peer/replicator/block_fragment_generator.cpp:33-38 | on that input, fragment 6 is completed with the top sibling of fragment 3 |
| FragmentClaims.SlotRoundTrip | src/peer/replicator/block_fragment_generator.cpp:62-112 | with the right siblings to start from, all entries of a fragment are read back |
| FragmentClaims.SkipHonest | src/peer/replicator/block_fragment_generator.cpp:39-52 | reading over a claimed fragment leaves the cache with its last proof as far as anything was sent, and above that with what was there before |
| FragmentClaims.RefillsIff | src/peer/replicator/block_fragment_generator.cpp:70-97 | the condition on claims holds exactly when what a proof is completed from agrees with it above what is sent |
| Fragments.EntryRoundTrip | src/peer/replicator/block_fragment_generator.cpp:62-101 | one entry is decoded back if the omitted siblings are those that the receiver has |
| Fragments.EntryRead | src/peer/replicator/block_fragment_generator.cpp:62-101 | otherwise it is read with whatever siblings the receiver has above those that were sent |
| Fragments.DecodedVerifies | src/peer/replicator/block_fragment_generator.cpp:99-112 | every entry that is read as accepted verifies against the root, for any stream |
| Fragments.ValidateGuards | src/peer/replicator/block_fragment_generator.cpp:11-115 | for any stream and verdict, only unclaimed slots of the range change, and only verified fragments come in |
| Fragments.ValidateRefuses | src/peer/replicator/block_fragment_generator.cpp:11-27 | an empty range or one outside the storage is rejected, a stream too short for its depth ends early, and neither changes the storage |
| Fragments.RejectedBlocks | src/peer/replicator/block_fragment_generator.cpp:28-112 | a rejected stream leaves the slot of the failing fragment claimed and incomplete, and no later stream changes that slot |
| Fragments.KeptFragmentsAreNodes | src/peer/replicator/block_fragment_generator.cpp:99-112 | for any stream and proofs of any length, a kept fragment has the digest of a node of the level that the length of its proof leads up from, or, if the proof is longer than the tree is deep, the siblings in excess lead from the digest to a leaf; unless the hash collides |
| Fragments.NodesVerify | src/peer/replicator/block_fragment_generator.cpp:99-112 | the converse: a fragment with the digest of a node of level k verifies with the siblings above it |
| Fragments.ConcatenationVerifies | src/peer/replicator/block_fragment_generator.cpp:99-112 | so with one hash for leaves and nodes, the concatenated digests of the first two fragments verify with one sibling less |
| Fragments.ExcessVerifies | src/peer/replicator/block_fragment_generator.cpp:99-112 | the converse for long proofs: a fragment from whose digest the siblings in excess lead to a leaf verifies |
| Fragments.BelowLeafVerifies | src/peer/replicator/block_fragment_generator.cpp:99-112 | so if a fragment hashes like a pair whose left half is the digest of x, then x verifies with one sibling too many |
| Fragments.Fresh | src/peer/replicator/block_fragment_generator.cpp:262-273 | the shortest prefix of siblings that has to be sent: everything above it is shared with the previous proof, and its last sibling is not |
| Fragments.EntryLayout | src/peer/replicator/block_fragment_generator.cpp:274-282 | the bytes of an entry: four of path, eight of sibling count, 32 for each sibling, four of length, and the fragment |
| Wire.IntRoundTrip | src/peer/replicator/block_fragment_generator.cpp:258-275 | a fixed-width integer is read back, with the rest of the stream untouched |
| Wire.IntBytes | src/peer/replicator/block_fragment_generator.cpp:274-282 | byte i of a number is its digit i to base 256 |
| Wire.StringRoundTrip | src/peer/replicator/block_fragment_generator.cpp:281-282 | a byte string with its length is read back |
| Wire.DigestsRoundTrip | src/peer/replicator/block_fragment_generator.cpp:276-280 | a list of digests is read back |
| FragmentContext.CountFresh | src/peer/replicator/block_fragment_generator.cpp:262-273 | the loop from the top finds the number of siblings to send |
| FragmentContext.WriteEntry | src/peer/replicator/block_fragment_generator.cpp:274-282 | writes one entry of the stream |
| FragmentContext.ReadEntry | src/peer/replicator/block_fragment_generator.cpp:62-101 | the loops that read and complete a proof decode one entry; more siblings than the cache has room for, after a claimed fragment, end the stream |
| FragmentContext.Context.InitWithMessage | src/peer/replicator/block_fragment_generator.cpp:163-228 | throws exactly when the last chunk would start past the end; succeeds exactly when every chunk can be encoded and there are two fragments; then fragment j of instance i is at j * instances + i and the tree is over these fragments |
| FragmentContext.Context.SerializeFragments | src/peer/replicator/block_fragment_generator.cpp:230-287 | succeeds exactly for a range inside the fragments, and writes the compressed stream after the offset |
| FragmentContext.Context.ReadFragment | src/peer/replicator/block_fragment_generator.cpp:62-112 | the loop reads and checks the entries of one fragment as decoding says |
| FragmentContext.Context.SkipFragment | src/peer/replicator/block_fragment_generator.cpp:33-53 | the loops refill the cache and read over a claimed fragment |
| FragmentContext.Context.ValidateAndDeserializeFragments | src/peer/replicator/block_fragment_generator.cpp:11-115 | throws, rejects or accepts exactly as the specification says, with exactly the storage it gives, for any stream and any claims |
| FragmentContext.Context.RegenerateMessage | src/peer/replicator/block_fragment_generator.cpp:117-161 | writes outside the buffer exactly when the last part would start past its end; otherwise succeeds exactly when every instance decodes, and the buffer is then the decoded parts one after the other |
| FragmentContext.RegeneratesIffRoom | src/peer/replicator/block_fragment_generator.cpp:129-143 | with enough fragments, for every buffer that is not shorter than the message: decoding succeeds if and only if the buffer is at most as long as the chunks before the last and the capacity of the code for the last chunk; what comes out then fills the buffer and starts with the message |
| FragmentContext.LongBuffer | src/peer/replicator/block_fragment_generator.cpp:129-143 | a message of two bytes and a buffer of three: a code that pads gives the message and a zero, a code that does not gives nothing |
| FragmentContext.CanCutIff | src/peer/replicator/block_fragment_generator.cpp:163-201 | a message can be cut if and only if its last chunk starts before its end, or at its end and the coder takes empty chunks |
| Reassembly.CutIffLastFits | src/peer/replicator/block_fragment_generator.cpp:171-176 | no chunk starts past the end iff the last one does not; no chunk is empty iff the last one is not |
| Reassembly.CopiesMeetContract | include/common/erasure_code.h:51-70 | the contract asked of an erasure code can be met for every padding, so the statements under it are not empty |
| Reassembly.CutCanFail | src/peer/replicator/block_fragment_generator.cpp:171-176 | five bytes on four instances: the last chunk starts past the end |
| Reassembly.ChunkLenLeast | src/peer/replicator/block_fragment_generator.cpp:163-171 | the chunk length is the least with which the chunks cover the message |
| Reassembly.ChunkSpan | src/peer/replicator/block_fragment_generator.cpp:171-176 | chunk i starts at i times the chunk length and has i + 1 times as many bytes, as far as the message goes |
| Reassembly.ChunksOverlap | src/peer/replicator/block_fragment_generator.cpp:171-176 | six bytes on three instances: bytes 0-1, 2-5 and 4-5 |
| Reassembly.ChunkHoldsItsPart | src/peer/replicator/block_fragment_generator.cpp:133-143 | what an instance decodes is inside its chunk and is the part of the message at its offset |
| Reassembly.LastFitsIffExactBuffer | src/peer/replicator/block_fragment_generator.cpp:129-143 | the last instance asks for no more than its chunk holds if and only if the buffer is as long as the message |
| Reassembly.ReassemblesMessage | src/peer/replicator/block_fragment_generator.cpp:117-161 | the decoded parts of possibly overlapping chunks, one after the other, start with the message for every buffer size for which there is room, and are exactly the message for its own size; for larger sizes nothing is decoded |
| Ports.PortsDistinctAndLegal | src/common/zmq_port_util.cpp:23-74 | in a deployment that fits, every (service, group, node) and (remote service, group, node, region) has a legal port, and two of them share a port only if they are the same |
| Ports.PlacesDistinct | src/common/zmq_port_util.cpp:23-74 | the closed form is injective for any group sizes |
| Ports.PlaceAt | src/common/zmq_port_util.cpp:23-74 | every port from the lowest one up to the total belongs to some endpoint: there are no gaps |
| Ports.PortsOfFifteen | tests/common/zmq_port_util_tests.cpp:21-34 | groups of four, five and six nodes: the exact places of one node's ports, and 195 ports in all |
| Ports.PeersAgree | src/common/zmq_port_util.cpp:23-44 | two nodes of a group compute the same ports for the nodes of the group |
| Ports.PortCalculator.NewLocalServicePorts | src/common/zmq_port_util.cpp:23-44 | the loops give the own group consecutive ports after the groups before it, and advance past all groups; -1 exactly when the offset leaves the legal range |
| Ports.PortCalculator.NewRemoteServicePorts | src/common/zmq_port_util.cpp:48-74 | one port per region at the own node's place in the block of all nodes; -1 exactly when the block leaves the legal range |
| Ports.ZMQPortUtil.PushLocal | src/common/zmq_port_util.cpp:185-192 | one more local service has the ports of the closed form, or the deployment does not fit |
| Ports.ZMQPortUtil.SetRemote | src/common/zmq_port_util.cpp:193-195 | one more remote service has the ports of the closed form, or the deployment does not fit |
| Ports.ZMQPortUtil.InitWithLocalDeployment | src/common/zmq_port_util.cpp:185-195 | every service has the ports of the closed form if and only if the deployment fits; otherwise some service is refused |
| Ports.ZMQPortUtil.GetLocalServicePorts | src/common/zmq_port_util.cpp:162-170 | the ports of a local service are those of the closed form |
| Ports.ZMQPortUtil.GetRemoteServicePort | src/common/zmq_port_util.cpp:138-146 | the port of a remote service and region is that of the closed form |

## Left out

- `invalidateChain` and the shortcut for a single group: after an invalidation cells hold made-up votes, and the statements about deliveries are for runs without it.
- That all replicas deliver equally many blocks: a new head inherits watermarks that depend on arrival order, so only prefix-comparability is claimed.
- That leaders vote on foreign blocks in block order: it follows from the order in which blocks are received and committed, which is raft's and is a condition here.
- The waiting of the raft log validator, signatures, and the contents of blocks.
- braft, brpc, ZeroMQ, LevelDB and RocksDB, SSH and YAML code: input and output, and foreign libraries.
- SHA-256, ED25519 and Reed-Solomon: abstract functions with stated contracts.
- Real threads: the workers of a coordinator run one after the other, and other interleavings of reservations and commits are covered by AriaWorkers.ReservationOrderIrrelevant, AriaWorkers.ConcurrentCommit and AriaWorkers.Deterministic; the encoding and decoding tasks of the fragment context touch disjoint parts and run in order.
- MerkleTree.MerkleTree.New: not in parallel in the mode without a tree, because the tasks of proofGenParallel capture variables that the caller reassigns.
- MerkleTree.MerkleTree.Verify: siblings are values, not pointers into the tree.
- MerkleSpec.DepthIsCeilLog2: the floating-point logarithm of calTreeDepth is the integer one here.
- FragmentContext.Context.ValidateAndDeserializeFragments: calls for one context run one after the other; an index past a too short proof or cache counts as a stream that ends early; of a fragment that fails, the proofs read so far are kept but not the failing one; the memory for the cache is always there.
- FragmentContext.Context.RegenerateMessage: what is written outside the buffer is not modelled, only when that happens.
- FragmentOverlap.TransferRoundTrip: sizes below the range of their fields; the signed sizes of the stream are read as unsigned.
- FragmentTransfer.EndToEnd: the same limits on sizes; all streams come from one sender of one message; acceptance of each range needs its condition on overlaps.
- OrderManager.InterChainOrderManager.CreateBlockIfNotExist: only for a block at most one past the end of its chain; OrderRuns.FreshVote shows that a run asks for no other.
- OrderAssigner.Assigner.GetRef: not for a slot that a newer block has taken over, which the program asserts.
- AriaCoordinator.Coordinator.ProcessTxnList: transaction ids are unbounded integers.
- AriaCoordinator.Coordinator.ProcessValidatedRequests: the partial read and write sets of a transaction that fails are not modelled; they play no part in the rule.
- AriaCoordinator.SerialCoordinator.ProcessValidatedRequests: the same sets are left out.
- Chaincode.Orm.Reset: the result string of the chaincode is not modelled.
- AriaEngine.Connection.SyncWriteBatch: the empty string stands for an absent value; iteration over the store is not modelled.
- Chaincode.UnrecordedMissNotSerializable: the YCSB procedures, which go on after a miss, are not modelled themselves.
- SmallBankLedger.RunLedger: amounts are real numbers, without rounding.
- SmallBank initialisation and the balance query's printed result.
- TpccConsistency.RunConsistent: order ids do not wrap; the tables are taken as consistent at the start.
- TpccProcedures.ExecutePayment: the customer's data field, the history row's time stamp and the secondary index on names are not modelled beyond the row they select.
- TpccProcedures.ExecuteNewOrder: the s_dist and data strings, the entry date and the secondary index of orders are left out.
- TpccProcedures.ExecuteLine: the s_dist string of the line is left out.
- The other TPC-C procedures, MixCoordinator and the other coordinators and worker tables.
- OrderAssigner.Assigner.IncreaseLocalClock: clocks and block ids do not wrap at 32 bits.
- The deployment on several machines, where ports may repeat across machines by design.
- Clients, workload generators, measurements, certificates, configuration and scripts: easy, random or user-interface code.
