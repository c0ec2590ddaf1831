# Verified model of the linkeye node core

linkeye is a fork of go-ethereum. This project models the parts of it whose correctness is hardest to
see from the code, and proves what they are for:

- the concurrent binary Merkle tree hasher (`bmt`), against its recursive reference;
- the transaction pool (`core/tx_pool.go`, `core/tx_list.go`): sorted lists, price heap, promotion,
  demotion, fair sharing of slots, resets;
- the chain heads: header chain, block chain with reorganisations and transaction lookup, common
  ancestors (`core/headerchain.go`, `core/blockchain.go`, `core/database_util.go`);
- the chain indexer, which works without its lock (`core/chain_indexer.go`);
- weighted random selection (`les/randselect.go`) and the event feed (`event/feed.go`);
- gas and candidate deposits (`core/state_transition.go`, `core/gaspool.go`, `core/state_processor.go`);
- wallet derivation paths (`accounts/hd.go`).

`dafny verify dfyconfig.toml` checks everything.

## How the model is built

Objects that the source updates in place are classes with a `Valid` invariant; loops are loops with
invariants. Beside them stand functions and predicates on plain values, about which the lemmas speak.
Hashes are taken to be injective: a transaction is its own hash, and a hash names one block. What the
outside decides is either arbitrary (which goroutine moves next) or a parameter (how a coin falls, which
chain the database shows, which random values are drawn, which channels are ready and which
cancellations come when), so that what is proved holds for every schedule.

**Merkle tree.** A goroutine is a leaf or a climber (`Hashing`, `Climbing`); one iteration of its loop
is one step. The invariant `Job.Inv` says what every node holds, in terms of the values that have
arrived. Any interleaving keeps it (`AdvanceKeeps`), none gets stuck (`Progress`), and its end is the
reference hash with the tree at rest (`Done`, `RestAgain`). While the path of the last segment is
marked, field by field, goroutines go on climbing; the machine being marked is shown to make the same
steps as one without marks (`BmtMarking`).

**Transaction pool.** `PoolState` holds the invariant: the known transactions are exactly the pending
and the queued ones, disjointly, with no empty list left. `Gapless` is the second one: the pending
nonces of an account run from its nonce in the chain to its next nonce, and the queued ones come
later. Three more hold over every run of operations, whatever is taken back: what is not local pays at
least the price of the pool (`AllPay`), what is pending can be mined (`Mineable`), and nothing waits in
the queue that could be pending (`Prompt`). `PoolFairness` shows that the loops which cut offenders compute one thing: the highest common
level at which the pending transactions fit. `PoolEntry` says what a batch of arrivals makes of the
pool, `PoolGaps` when a reset leaves no gap, and `PoolTaking` when it leaves one in a pool with room,
in terms of the lists before the reset and the transactions it takes back.

**Chain heads.** The head of a block chain is the lowest of the heaviest blocks. `BlockTree` defines ancestors and total difficulty over a store in which every block
but the genesis has its parent. The canonical numbers are shown to be the ancestors of the head, and
the lookup table to find exactly the transactions on its path.

**Blocks.** A block is a run over the states before its transactions (`WorldAt`). It is accepted exactly
if no transaction is refused in the state it finds; then nobody gets into debt, wealth is conserved but
for the finding below, and the nonces of every sender follow on each other, so that no transaction is
executed twice.

**Findings.** Four properties one might expect do not hold of the code; each has a concrete case and
the exact condition under which the code meets it:

- A write to the tree hasher that starts inside a leaf and overshoots an odd number of segments keeps
  too much (`OvershootExample`); no other write does (`AcceptedTruncates`).
- A reset that takes back transactions of undone blocks can leave a gap in the nonces. In a pool with
  room it does so exactly if, in some account, the transaction with the chain's new nonce is taken
  back, one between it and the pending ones is not, and the first pending one can still be paid
  (`Gap`, in the contract of `Reset`). `TakesBackTooLittle` is such a run: 5 and 6 are pending, and of
  3 and 4 only 3 is taken back. In a full pool there is a second way: to make room for what another
  account takes back, a transaction that was mined meanwhile is given up, and the next nonce of its
  account is lowered below that of the chain (`GivesUpMined`). For any reset whatsoever the result has
  no gap before the limits are enforced exactly if every account of the pool after taking back is
  `Healthy` (`ResetIff`), and enforcing the limits makes none. A reset that takes nothing back leaves
  none, whatever it does to nonces.
- The indexer may store a section of blocks that are no longer canonical (`StaleSection`). A section
  is canonical when it is stored exactly if its last block is (`Commit`). If every reorganisation is
  announced, the stored sections stay canonical unless one goes back to a block inside a section that
  is read to its end and not yet stored (`RunAnnounced`); one that does makes it store a stale section
  (`SpoilAndStore`).
- The zero account reads as a logged-in candidate without having paid; its logout makes up a deposit
  (`UnfoundedExample`). Nothing else does (`WorthKept`, `RunWealth`, `Process`).

The comment on the queue limit says that the oldest are dropped; the code drops the accounts heard of
last first, and so does the model (`TruncateQueue`).

## Model

| member | source | states |
|---|---|---|
| `BmtSpec.RefSpan` | bmt/bmt_r.go:22-38 | the span is a power-of-two multiple of the segment size whose double covers the chunk, and beyond one pair it is shorter than the chunk |
| `BmtSpec.HashSections` | bmt/bmt_r.go:50-68 | the halving loop and recursion compute the reference hash |
| `BmtSpec.HalvedBrackets` | bmt/bmt_r.go:55-56 | halving stops at the largest span below the length |
| `BmtSpec.RefHashIsValue` | bmt/bmt_r.go:42-68 | the reference hash is the Merkle value, whatever sufficient span it starts from |
| `BmtMachine.ToggleWorks` | bmt/bmt.go:491-493 | the first of two arrivals leaves and the second passes exactly while the 32-bit counter has not wrapped |
| `BmtSteps.StepHash` | bmt/bmt.go:424-443 | hashing a leaf keeps the invariant of the job |
| `BmtSteps.StepWait` | bmt/bmt.go:445-476 | the first to reach a node ends there, and the invariant is kept |
| `BmtSteps.StepPass` | bmt/bmt.go:445-476 | the last to reach a node passes its value on, or delivers the result, and the invariant is kept |
| `BmtSteps.AdvanceKeeps` | bmt/bmt.go:445-476 | whichever goroutine moves next, the invariant is kept |
| `BmtPhases.InitKeeps` | bmt/bmt.go:390-403 | a tree at rest satisfies the invariant of a new job |
| `BmtPhases.LaunchKeeps` | bmt/bmt.go:317-356 | handing over a full leaf while writing goes on keeps the invariant |
| `BmtPhases.DataGrows` | bmt/bmt.go:317-356 | appending to the open segment disturbs nothing under way |
| `BmtPhases.Finalised` | bmt/bmt.go:512-529 | finalising marks exactly the nodes of the path of the last segment that wait for one value |
| `BmtPhases.FinalKeeps` | bmt/bmt.go:276-302 | a job whose path is marked and whose last segment is handed over satisfies the invariant of a closed job |
| `BmtMarking.FirstOnPath` | bmt/bmt.go:445-476 | while the last segment is still held back, a goroutine at a node of its path comes from the left, is the first there, and waits |
| `BmtMarking.StepBeside` | bmt/bmt.go:512-529 | with any part of the path marked, down to single fields, a goroutine makes the step it would make without marks |
| `BmtMarking.MarkedWhole` | bmt/bmt.go:512-529 | marking field by field ends in the finalised tree |
| `BmtResult.Progress` | bmt/bmt.go:445-476 | no interleaving gets stuck: when no goroutine is left there is a result |
| `BmtResult.Done` | bmt/bmt.go:276-302 | a result is the reference hash of the data, nobody is running, and every counter was bumped twice or never |
| `BmtResult.Released` | bmt/bmt.go:407-422 | releasing clears the marks of the nodes above a leaf and nothing else |
| `BmtResult.RestAgain` | bmt/bmt.go:407-422 | after a result and the release no node is marked |
| `BmtResult.SmallChunk` | bmt/bmt.go:424-443 | a chunk within one leaf is hashed in one step and leaves the tree at rest |
| `BmtHasher.Depth` | bmt/bmt.go:503-508 | the least number of levels whose pairs hold the segments |
| `BmtHasher.NewTree` | bmt/bmt.go:237-259 | a complete tree without marks and with zero counters |
| `BmtHasher.AcceptedTruncates` | bmt/bmt.go:317-356 | a write keeps exactly what fits, if and only if it does not overshoot from inside an earlier leaf with an odd segment count |
| `BmtHasher.OvershootExample` | bmt/bmt.go:317-356 | three segments of 32 bytes, ten bytes and then two hundred: ten too many are kept |
| `BmtHasher.Hasher.Reset` | bmt/bmt.go:390-393 | a tree is reserved; what was written stays |
| `BmtHasher.Hasher.ResetWithLength` | bmt/bmt.go:400-403 | the same, with a length prefix to hash |
| `BmtHasher.Hasher.Run` | bmt/bmt.go:445-476 | one loop iteration is one transition of the machine |
| `BmtHasher.Hasher.Step` | bmt/bmt.go:445-476 | each step keeps the invariant and is closer to the end, so every schedule ends |
| `BmtHasher.Hasher.WriteSegment` | bmt/bmt.go:424-443 | a leaf gets a goroutine that starts at the right place |
| `BmtHasher.Hasher.Write` | bmt/bmt.go:317-356 | what is kept of a write, after any schedule in between, with the open segment held back |
| `BmtHasher.Hasher.MarkNode` | bmt/bmt.go:512-529 | the three writes to a node, with any steps of any goroutines between them |
| `BmtHasher.Hasher.MarkPath` | bmt/bmt.go:512-529 | under every interleaving the loop ends with the marks added to a machine of the job still being written, and returns the number of levels climbed |
| `BmtHasher.Hasher.Close` | bmt/bmt.go:276-302 | the last segment is handed over to a machine with its path marked |
| `BmtHasher.Hasher.ReleaseTree` | bmt/bmt.go:407-422 | the loop computes the released tree |
| `BmtHasher.Hasher.Sum` | bmt/bmt.go:276-302 | the hash is the reference hash of what was written, prefixed by the length if there is one, and the hasher can be used again |
| `BmtAgreement.Reference` | bmt/bmt_r.go:42-48 | data beyond the capacity is cut off before hashing |
| `BmtAgreement.HashInParts` | bmt/bmt.go:276-356 | for every split into writes and every interleaving the result is the reference hash, with what exceeds the capacity cut off, and the tree is reusable |
| `BmtAgreement.HashAtOnce` | bmt/bmt.go:276-356 | the same for one write of any length, with what is too much cut off |
| `TxSpec.ReadyIsMaximalRun` | core/tx_list.go:162-177 | the ready nonces are the maximal run from the least one, and none if that is too high |
| `TxSpec.LowestIs` | core/tx_list.go:111-132 | the cap keeps the lowest nonces, as many as allowed |
| `TxSpec.FlattenSplit` | core/tx_list.go:68-82 | cutting a list at a nonce cuts its sorted form in two |
| `TxSpec.FlattenSorted` | core/tx_list.go:187-200 | the sorted form lists every transaction by increasing nonce |
| `TxSpec.ListingUnique` | core/tx_list.go:187-200 | there is only one such form |
| `TxSortedMap.SortedMap.Put` | core/tx_list.go:57-63 | the map gets the transaction; heap and cache follow |
| `TxSortedMap.SortedMap.Forward` | core/tx_list.go:68-82 | everything below the threshold is returned in order, the rest stays, and the cache stays sorted |
| `TxSortedMap.SortedMap.Filter` | core/tx_list.go:86-107 | what matches is returned, what does not stays |
| `TxSortedMap.SortedMap.Cap` | core/tx_list.go:111-132 | the lowest nonces stay, the rest is returned from the top down |
| `TxSortedMap.SortedMap.Remove` | core/tx_list.go:136-153 | one nonce leaves the map, the heap and the cache |
| `TxSortedMap.SortedMap.Ready` | core/tx_list.go:162-177 | the ready run is returned in order and leaves |
| `TxSortedMap.SortedMap.FlattenSorted` | core/tx_list.go:187-200 | the cached or computed list is the sorted form |
| `TxList.AddedGood` | core/tx_list.go:235-256 | the caps bound every transaction after an addition |
| `TxList.AcceptsIff` | core/tx_list.go:235-247 | a replacement is accepted exactly if it pays more, and at least the bump in percent more |
| `TxList.ShortCircuitExact` | core/tx_list.go:274-279 | when the short circuit fires, a full scan would drop nothing |
| `TxList.FilteredInterval` | core/tx_list.go:274-298 | a strict list without gaps has none after filtering |
| `TxList.RemovedInterval` | core/tx_list.go:309-320 | nor after a removal |
| `TxList.ListObject.Add` | core/tx_list.go:235-256 | a replacement is accepted exactly if it pays the bump, and the caps grow |
| `TxList.ListObject.Filter` | core/tx_list.go:274-298 | the too costly are returned, in strict mode also what lies above, and nothing is lost |
| `TxList.ListObject.Remove` | core/tx_list.go:309-320 | in strict mode everything above the removed nonce is returned |
| `TxPriced.CheapestExists` | core/tx_list.go:357-367 | the price order has a least element in every non-empty heap |
| `TxPriced.PricedList.Removed` | core/tx_list.go:405-419 | the heap is rebuilt from the pool exactly when more than a quarter may be stale |
| `TxPriced.PricedList.Underpriced` | core/tx_list.go:454-476 | despite stale entries: true exactly if not local and no pooled transaction is cheaper |
| `TxPriced.PricedList.Discard` | core/tx_list.go:480-503 | only remote ones are dropped, no cheaper remote one is left, and fewer than asked only if none is left |
| `TxPriced.PricedList.Cap` | core/tx_list.go:423-450 | exactly the remote ones below the price are popped |
| `PoolEntry.ValidateIs` | core/tx_pool.go:549-592 | a transaction passes exactly if nothing is wrong with it, and each error is reported exactly if its check is the first that fails |
| `PoolEntry.UnderpricedIff` | core/tx_pool.go:600-622 | a transaction is refused as underpriced exactly if it is remote and under the price of the pool, or the pool is full and holds nothing cheaper |
| `PoolEntry.RoomIs` | core/tx_pool.go:613-629 | a pool with room keeps everything; a full one gives something up unless all is local, and nothing cheaper that is remote stays |
| `PoolEntry.PromotedMineable` | core/tx_pool.go:913-954 | a promotion makes nothing pending that is too old or cannot be paid |
| `PoolEntry.DemotedMineable` | core/tx_pool.go:1071-1111 | a demotion leaves only pending what is due and can be paid, whatever the new state |
| `PoolPrompt.LeavesPrompt` | core/tx_pool.go:860-899 | when a transaction leaves, nothing that waits becomes executable: the next nonce falls to its own, which nobody else has |
| `PoolPrompt.NonceFalls` | core/tx_pool.go:885-888 | a transaction that leaves never raises a next nonce, and if it was pending that of its account falls to its own at least |
| `PoolPrompt.LastNonceFalls` | core/tx_pool.go:993-996 | nor does one that is cut off to share the slots |
| `PoolPrompt.PlacedPrompt` | core/tx_pool.go:630-668 | a transaction that enters may leave something waiting in its own account alone, and only if it replaces nothing |
| `PoolPrompt.PromotedPrompt` | core/tx_pool.go:904-954 | a promotion leaves nothing waiting in the accounts it visits |
| `PoolState.EnqueueNew` | core/tx_pool.go:673-696 | a new queued transaction, or one that replaces another, keeps the lists consistent |
| `PoolState.ReplacePending` | core/tx_pool.go:630-653 | so does one that takes the place of a pending one |
| `PoolState.PromoteLimbo` | core/tx_pool.go:713-746 | so does the move of a transaction from the queue to the pending list |
| `PoolState.EnqueueLimbo` | core/tx_pool.go:881-884 | so does the move back |
| `PoolSteps.RemovePendingGapless` | core/tx_pool.go:873-891 | removing a pending transaction leaves no gap: its successors are queued and the next nonce lowered |
| `PoolSteps.PayableIs` | core/tx_pool.go:913-930 | exactly the queued transactions that are not too old and can be paid stay |
| `PoolSteps.NothingLost` | core/tx_pool.go:913-954 | a promotion loses nothing that can be paid but what exceeds the cap, and of that the highest nonces |
| `PoolSteps.ExecutableIs` | core/tx_pool.go:1073-1109 | a pending transaction stays exactly if it is due and all from the chain's nonce up to it can be paid |
| `PoolGaps.PromotedIff` | core/tx_pool.go:913-954 | a promotion leaves an account without gaps exactly if its pending nonces are in order, or none is pending and what starts a run is there |
| `PoolGaps.AllSettled` | core/tx_pool.go:904-954 | promoting any accounts of a pool without gaps leaves none |
| `PoolGaps.KeepsRun` | core/tx_pool.go:1073-1109 | a demotion leaves of a run a run from the chain's nonce, or nothing |
| `PoolGaps.HealthyIff` | core/tx_pool.go:396-414 | after the demotion and the refreshed nonces an account can be promoted without a gap exactly if it was healthy |
| `PoolGaps.ResetIff` | core/tx_pool.go:396-417 | a reset leaves no gap, before the limits are enforced, exactly if every account is healthy once transactions are taken back |
| `PoolGaps.NothingTakenBack` | core/tx_pool.go:396-400 | with nothing taken back every account of a pool without gaps is healthy, whatever the new state |
| `PoolTaking.BatchGrows` | core/tx_pool.go:804-827 | in a pool with room a batch queues exactly the valid arrivals with new nonces, replaces exactly what is outbid, and makes dirty exactly the accounts with something new |
| `PoolTaking.HoleStays` | core/tx_pool.go:1073-1109 | a hole between pending nonces survives a demotion exactly if the transaction after it can be paid |
| `PoolTaking.GapIff` | core/tx_pool.go:396-417 | in a pool with room an account is healthy after taking back exactly if no gap is left between what is taken back and what was pending |
| `PoolRuns.TakesBackTooLittle` | core/tx_pool.go:339-418 | a run of a new pool that ends with a gap: one transaction is taken back and its successor is not |
| `PoolRuns.GivesUpMined` | core/tx_pool.go:339-418 | a run of a full pool that ends with a gap in an account that takes nothing back |
| `PoolFairness.FairIsGreatest` | core/tx_pool.go:955-1025 | no common level that fits would leave any account more |
| `PoolFairness.LastGoneGapless` | core/tx_pool.go:985-997 | dropping the last pending transaction of an account leaves no gap |
| `PoolQueue.TailRemoved` | core/tx_pool.go:1057-1063 | removing from the end leaves the lowest nonces |
| `TxPool.TxPool.EnqueueTx` | core/tx_pool.go:673-696 | the whole new state: accepted exactly if nothing better has the nonce |
| `TxPool.TxPool.PromoteTx` | core/tx_pool.go:713-746 | the transaction becomes the newest pending one and sets the next nonce; it is always accepted |
| `TxPool.TxPool.RemoveTx` | core/tx_pool.go:860-899 | the transaction leaves, the pending list is cut before it and the rest queued, with no gap |
| `TxPool.TxPool.PromoteAccount` | core/tx_pool.go:913-954 | exactly the payable and ready ones become pending, the rest stays queued, up to the cap unless the account is local |
| `TxPool.TxPool.DropLast` | core/tx_pool.go:985-997 | one transaction leaves and the next nonce is lowered to it |
| `TxPool.TxPool.CutDown` | core/tx_pool.go:983-1000 | rounds stop at the first level that fits, or at the threshold |
| `TxPool.TxPool.Equalise` | core/tx_pool.go:955-1025 | all accounts but local ones end at one level: the highest that fits, or the account slots |
| `TxPool.TxPool.TruncateQueue` | core/tx_pool.go:1026-1065 | the queue is cut to its limit or to local accounts; local accounts lose nothing, an account heard of earlier loses nothing while a later one has something left, and each keeps its lowest nonces |
| `TxPool.TxPool.PromoteExecutables` | core/tx_pool.go:904-1066 | the accounts are promoted, then shared fairly, then the queue limited; within the limits nothing is cut, no gap is made, and nothing waits that could be pending |
| `TxPool.TxPool.DemoteAccount` | core/tx_pool.go:1073-1109 | exactly the payable run from the chain's nonce stays pending, exactly the too old and too costly are dropped, the rest is queued |
| `TxPool.TxPool.DemoteUnexecutables` | core/tx_pool.go:1071-1111 | the same for all accounts, in any order |
| `TxPool.TxPool.MakeRoom` | core/tx_pool.go:613-629 | refused exactly if the pool is full, the transaction remote and none cheaper; else a full pool gives up remote ones, the cheapest and of these the highest nonces, unless all are local |
| `TxPool.TxPool.ReplacePendingTx` | core/tx_pool.go:630-653 | the whole new state: accepted exactly if it pays the bump |
| `TxPool.TxPool.Insert` | core/tx_pool.go:630-668 | the whole new state: pending if it replaces a pending one, else queued, or refused exactly if outbid; an account becomes local exactly by a local transaction that is queued |
| `TxPool.TxPool.Add` | core/tx_pool.go:600-668 | the exact error, in the order of the checks, and the whole new state: what gives way, and where the transaction goes; what is accepted meets every check, a local one leaves only for its own replacement, and remote ones go on paying the price of the pool |
| `TxPool.TxPool.AddTx` | core/tx_pool.go:777-792 | one transaction, then the promotion of its account unless it replaced another one or failed; no gap is made, what is pending can be mined and nothing waits that could be pending |
| `TxPool.TxPool.AddTxs` | core/tx_pool.go:804-827 | the pool and every error after each arrival in turn, the dirty accounts, and their promotion; nothing but accepted ones is new, and nothing waits that could be pending |
| `TxPool.TxPool.SetGasPrice` | core/tx_pool.go:451-460 | exactly the remote ones under the price leave, so that all that remain pay it or are local |
| `TxPool.TxPool.Evict` | core/tx_pool.go:299-313 | exactly the expired accounts that are not local lose their queue; the others keep theirs |
| `TxPool.TxPool.RefreshNonces` | core/tx_pool.go:410-414 | the next nonce of every pending account follows on its last one |
| `TxPool.TxPool.Resettle` | core/tx_pool.go:404-417 | whatever the pool was like, afterwards only what can be mined is pending and nothing waits that could be; no gap is left exactly if all accounts were healthy |
| `TxPool.TxPool.Reset` | core/tx_pool.go:339-418 | what each stage does; without gaps before the limits exactly if all accounts are healthy after taking back, and then at the end; in a pool with room without gaps exactly if no account has one between what is taken back and what was pending; always only what can be mined is pending, and nothing waits that could be |
| `TxPool.TxPool.Act` | core/tx_pool.go:249-326 | what any one operation does to the lists, the local accounts and the price |
| `TxPool.TxPool.Perform` | core/tx_pool.go:249-326 | any run is the sequence of what its operations do; it keeps the lists consistent, remote ones paying the price, what is pending mineable and nothing waiting that could be pending, and leaves no gap if every reset that takes something back leaves all accounts healthy |
| `BlockTree.FindCommonAncestor` | core/database_util.go:628-652 | for any database: the highest block both reach, and none exactly if they reach none in common |
| `BlockTree.ReachesIff` | core/database_util.go:628-652 | a block is reached exactly if a path of parents that are all in the database leads to it |
| `BlockTree.JoinedWeighed` | core/headerchain.go:123-140 | a header weighed by its parent's total keeps the records exact and the head heaviest |
| `HeaderChain.CheckContiguous` | core/headerchain.go:190-200 | true exactly if every header follows on the one before |
| `HeaderChain.HeaderChain.WriteHeader` | core/headerchain.go:116-181 | canonical numbers are exactly the ancestors of the head, totals are sums over the path, the head is heaviest; a header takes over exactly if it is heavier, or as heavy and the coin says so |
| `HeaderChain.HeaderChain.DeleteAbove` | core/headerchain.go:142-148 | the loop removes all numbers above the new head |
| `HeaderChain.HeaderChain.MoveHead` | core/headerchain.go:141-171 | the numbers are re-routed to the new head, down to where they already agree |
| `HeaderChain.RouteEnds` | core/headerchain.go:149-161 | where the numbers agree once, they agree all the way down |
| `HeaderChain.HeaderChain.InsertHeaderChain` | core/headerchain.go:245-271 | a linked chain is added whole, or not at all exactly if nothing is there to build on; the head moves to each new header that is heavier, or as heavy and favoured by its coin, and to no other |
| `BlockChain.WriteExtends` | core/database_util.go:484-501 | writing the entries of a block extends the index from its parent to it |
| `BlockChain.IndexDown` | core/blockchain.go:1314-1354 | on the way down the old side, exactly its transactions are found too much |
| `BlockChain.DeleteLeaves` | core/blockchain.go:1377-1383 | deleting what was only on the old side leaves exactly the new path |
| `BlockChain.BlockChain.Insert` | core/blockchain.go:462-484 | the block is named by its number and is the head |
| `BlockChain.BlockChain.WriteTxLookupEntries` | core/database_util.go:484-501 | the entries of the block are written over the others |
| `BlockChain.BlockChain.WalkDown` | core/blockchain.go:1314-1354 | the two sides are collected down to where they meet |
| `BlockChain.BlockChain.Reorg` | core/blockchain.go:1291-1396 | from one head to another on any fork: numbers and lookup follow |
| `BlockChain.BlockChain.DeleteEntries` | core/blockchain.go:1377-1383 | what was deleted and not added is forgotten |
| `BlockChain.BlockChain.WriteBlock` | core/blockchain.go:861-1007 | the head is the lowest of the heaviest blocks: a heavier block takes over, a lighter one does not, and of equally heavy ones the lower number wins, at equal numbers the coin; totals are sums, numbers are the ancestors of the head, and the lookup finds exactly the transactions on its path |
| `ChainIndexer.OneChain` | core/chain_indexer.go:325-354 | between any two stored heads lie exactly the blocks of the sections between |
| `ChainIndexer.Chain.Lookup` | core/chain_indexer.go:335-343 | a number is found exactly if it names a hash whose header is there with that number |
| `ChainIndexer.StillThere` | core/chain_indexer.go:288-288 | the check at the end passes exactly if nothing was rolled back, with the key of section minus one wrapping around |
| `ChainIndexer.Indexer.SetValidSections` | core/chain_indexer.go:389-401 | the heads above are removed, the count persisted, and the chain kept |
| `ChainIndexer.Indexer.NewHead` | core/chain_indexer.go:205-244 | the exact new bounds; the invariant is kept at any moment |
| `ChainIndexer.Indexer.Begin` | core/chain_indexer.go:263-281 | the section after the stored ones is begun from its predecessor |
| `ChainIndexer.Indexer.BackendFails` | core/chain_indexer.go:330-333 | everything is rolled back without the lock, and the section is failed but still under way |
| `ChainIndexer.Indexer.ReadHeader` | core/chain_indexer.go:335-348 | a header is taken exactly if it is known and follows on the last; then all that was read is on the canonical chain as it is now, if that chain is linked |
| `ChainIndexer.Indexer.ReadSection` | core/chain_indexer.go:325-354 | a section is read to its end exactly if all its blocks are known and each follows on the one before |
| `ChainIndexer.Indexer.ProcessSection` | core/chain_indexer.go:263-305 | undisturbed, a section is stored with its last block exactly if the backend commits and its blocks are known and linked; else nothing is stored and it waits for the next head |
| `ChainIndexer.ShownIff` | core/chain_indexer.go:335-348 | linked blocks are all canonical exactly if the last of them is |
| `ChainIndexer.Indexer.Commit` | core/chain_indexer.go:285-305 | the section is stored exactly if nothing was rolled back meanwhile; it is canonical exactly if its last block is |
| `ChainIndexer.Indexer.Reorganise` | core/chain_indexer.go:205-230 | an announced reorganisation leaves the stored sections canonical unless it goes back inside a section read to its end; of a section under way it spoils what was read exactly if it goes back below the last header read |
| `ChainIndexer.Indexer.SpoilAndStore` | core/chain_indexer.go:205-305 | whenever one does go back inside such a section, the section is stored off the canonical chain |
| `ChainIndexer.Indexer.Proceed` | core/chain_indexer.go:248-319 | one step of the update loop: the exact new state, and canonical sections stay so |
| `ChainIndexer.Indexer.Run` | core/chain_indexer.go:248-319 | after any run over any changes of the chain the state is that of the state machine, and the stored heads are one chain with none above the count |
| `ChainIndexer.Indexer.RunAnnounced` | core/chain_indexer.go:205-319 | after any run whose reorganisations are announced, every stored section is canonical unless one of them spoiled it; the state is that of the same machine |
| `ChainIndexer.StaleSection` | core/chain_indexer.go:205-305 | a run from a new indexer that stores a section of blocks no longer canonical |
| `SelectTree.PickedBy` | les/randselect.go:144-157 | every leaf is picked by exactly as many values as its weight |
| `SelectTree.DrawnBy` | les/randselect.go:144-157 | of the values below the sum, exactly as many draw an item as its weight, wherever it is stored |
| `SelectTree.PickJoined` | les/randselect.go:144-157 | a scan over two rows is a scan over one and then the other |
| `SelectTree.BranchFollows` | les/randselect.go:120-141 | changing one leaf of a branch, with the numbers of the node, is changing one leaf of the tree |
| `SelectTree.RaisedIs` | les/randselect.go:47-53 | a new level keeps all leaves in their places |
| `RandSelect.WrsNode.Choose` | les/randselect.go:144-157 | the tree picks what the linear scan of its leaves picks, and never fails below the sum |
| `RandSelect.WrsNode.FindBranch` | les/randselect.go:91-98 | a tree that is not full has a branch with room, and the first one is found |
| `RandSelect.WrsNode.Insert` | les/randselect.go:91-116 | in place: one free leaf is taken, at the index returned, and no other changes |
| `RandSelect.WrsNode.SetWeight` | les/randselect.go:120-141 | in place: one leaf changes, sums and counts follow |
| `RandSelect.NewLevel` | les/randselect.go:47-53 | the new root stands over the old tree |
| `RandSelect.Selector.SetWeight` | les/randselect.go:38-57 | the weights on record change for one item only |
| `RandSelect.Selector.DrawnFairly` | les/randselect.go:63-78 | the same for the weights on record |
| `RandSelect.Selector.Draw` | les/randselect.go:63-78 | the leaf that the value picks is drawn, its weight corrected to what it turns out to be, and no other leaf changes |
| `RandSelect.Selector.Choose` | les/randselect.go:63-78 | by the values drawn: a choice is final at the first draw whose weight has not fallen or whose second number is below the new weight, and at no other; the retries end as the sum falls, and weights change only to what they turned out to be |
| `Feed.Find` | event/feed.go:194-201 | the first index of the channel, or none |
| `Feed.Serves` | event/feed.go:209-213 | the swap takes a served channel out of those to serve |
| `Feed.Cancels` | event/feed.go:204-206 | the shift takes a cancelled channel out, whether it was served or not |
| `Feed.Feed.Subscribe` | event/feed.go:57-77 | one subscriber more |
| `Feed.Feed.Remove` | event/feed.go:88-109 | one subscriber less, from inbox or list |
| `Feed.Feed.TryAll` | event/feed.go:141-147 | exactly the channels that are ready are served, each once |
| `Feed.Feed.Select` | event/feed.go:152-169 | a cancellation is received, or one more channel that can take the value is served |
| `Feed.DeliveredIs` | event/feed.go:141-169 | exactly the channels whose cancellation was received lose their subscription, and all others that wait are served |
| `Feed.CancelledFirst` | event/feed.go:152-158 | a channel that is not ready gets nothing if its cancellation comes first |
| `Feed.Feed.Send` | event/feed.go:113-171 | for every schedule of ready channels and cancellations: exactly the subscribers whose cancellation is received in time are removed, all others are served exactly once, none after its cancellation; without cancellations all subscribers are served, counted and kept |
| `GasAccounting.IntrinsicGas` | core/state_transition.go:63-93 | 53000 or 21000 and 68 for each byte, 64 less for each zero byte, or an error exactly if that exceeds 64 bits |
| `GasAccounting.ExactGasIs` | core/state_transition.go:63-93 | the two ways of counting the bytes agree |
| `GasAccounting.GasPool.AddGas` | core/gaspool.go:13-19 | the amount is added; going above 64 bits is excluded for callers |
| `GasAccounting.GasPool.SubGas` | core/gaspool.go:23-29 | taken exactly if there is enough |
| `GasAccounting.Processor.BuyGas` | core/state_transition.go:136-162 | the first check that fails is the error and changes nothing; else gas is paid and taken |
| `GasAccounting.Processor.RefundGas` | core/state_transition.go:219-234 | the refund is the greatest that is covered by the counter and by half of what was consumed, and the pool cannot overflow |
| `GasAccounting.RefusedIff` | core/state_processor.go:77-104 | a transaction is refused exactly for its type, its nonce, gas that is not paid, not to be had or too little, or a first transfer that is not covered; one that fails otherwise is kept |
| `GasAccounting.CoinbasePaid` | core/state_transition.go:212-214 | the gas bought is paid to the coinbase, all of it |
| `GasAccounting.AfterSolvent` | core/state_processor.go:77-128 | no transaction leaves anybody in debt, candidate messages included |
| `GasAccounting.BlockSolvent` | core/state_processor.go:45-71 | nor does a block |
| `GasAccounting.NonceRises` | core/state_transition.go:185-197 | a transaction that is not refused raises the nonce of its sender by one, and no other |
| `GasAccounting.BlockNonces` | core/state_processor.go:45-71 | in an accepted block the transactions of a sender have the nonces that follow on its own, without a gap |
| `GasAccounting.NoReplay` | core/state_processor.go:45-71 | no transaction is executed twice in a block |
| `GasAccounting.Processor.TransitionDb` | core/state_transition.go:167-217 | pool plus used gas and the sum of balances are conserved; outcome, balances and nonces are exact, and a barred message changes nothing |
| `GasAccounting.Processor.ApplyTransaction` | core/state_processor.go:77-128 | the exact outcome and the whole new state; pool plus used gas is conserved; balances with deposits grow by one deposit exactly for an unfounded logout; a withdrawal late enough ends the candidature |
| `GasAccounting.Processor.Process` | core/state_processor.go:45-71 | a block is accepted exactly if no transaction is refused in the state before it; then the state is that after all of them, pool plus used gas is the gas limit, receipts tell what each used and whether it failed and are cumulative, and wealth grows by one deposit for each unfounded logout and by nothing else |
| `GasAccounting.SetReceiptsData` | core/blockchain.go:713-748 | the single amounts are recovered from cumulative ones, whatever they were |
| `Deposits.WorthKept` | core/state_processor.go:140-252 | every message keeps what every account has with its deposit, exactly unless the zero account logs out unregistered |
| `Deposits.WealthKept` | core/state_processor.go:140-252 | the same for the sum over all accounts |
| `Deposits.RunWealth` | core/state_processor.go:140-252 | over any run the sum grows by one deposit for each such logout and by nothing else |
| `Deposits.ReturnedLate` | core/state_processor.go:216-243 | a deposit is returned only on request, more than the interval after the latest logout |
| `Deposits.ChargedOnce` | core/state_processor.go:142-186 | a balance falls exactly when a registration begins |
| `Deposits.FirstLogin` | core/state_processor.go:164-183 | a first login succeeds exactly if the balance covers the deposit, and takes it |
| `Deposits.LaterLogin` | core/state_processor.go:151-163 | a candidate who logs in again pays nothing and keeps the score |
| `Deposits.Logs` | core/state_processor.go:188-214 | a logout records its block for a candidate who is logged in, and changes nothing else but for the zero account |
| `Deposits.WithdrawIff` | core/state_processor.go:216-243 | a deposit is returned exactly more than ten blocks after a logout |
| `Deposits.RunSolvent` | core/state_processor.go:140-252 | over any run no balance falls below zero |
| `Deposits.UnfoundedExample` | core/state_processor.go:188-243 | the zero account gets a deposit it never paid |
| `Deposits.DposContext.ApplyDposMessage` | core/state_processor.go:140-252 | the branches compute the new deposits; only an unknown type is an error |
| `HdPath.ToString` | accounts/hd.go:105-119 | the loop writes the path |
| `HdPath.ParseComponent` | accounts/hd.go:73-98 | one component with its spaces, quote, base and range; what is read fits 32 bits |
| `HdPath.ParseDerivationPath` | accounts/hd.go:51-101 | the loop reads the path; the first bad component decides |
| `HdPath.NumberRead` | accounts/hd.go:84-87 | decimals are never mistaken for another base |
| `HdPath.PrefixRead` | accounts/hd.go:84-87 | numbers are read in hexadecimal, binary and octal by their prefix |
| `HdPath.NumberIff` | accounts/hd.go:84-87 | a component is a number exactly if, after at most one sign, it is made of digits of the base its prefix tells, at least one |
| `HdPath.UpperCase` | accounts/hd.go:84-87 | letters of either case stand for the same digits |
| `HdPath.DecimalRange` | accounts/hd.go:79-94 | a number is read exactly if it fits 32 bits, a hardened one if it leaves the highest bit free, a negative one only if it is zero |
| `HdPath.SpaceIgnored` | accounts/hd.go:74-75 | space around a component does not matter |
| `HdPath.RelativeRead` | accounts/hd.go:65-67 | a path without a root stands under the default one |
| `HdPath.NoPath` | accounts/hd.go:54-72 | no text, a root alone and a leading slash are errors |
| `HdPath.RoundTrip` | accounts/hd.go:51-119 | every path is read back from its text, exactly if it is not empty |

## Left out

- Merkle tree: `ReadFrom`, `Draw`, the blocking tree pool and the aliasing of caller buffers. The counters of a tree stay below 2^31 (`LIFETIME` uses).
- BmtHasher.Hasher.Reset: asks for fewer than 2^30 earlier uses of the tree; after them a counter has wrapped and the first of two arrivals no longer waits (`ToggleWorks`).
- BmtHasher.Hasher.ResetWithLength: the same.
- Tree hasher: `Write` on a chunk that has already outgrown its capacity, where the source would panic.
- Transaction pool: the journal, metrics, the clock and the event feed; how a reset computes the transactions to take back (they are a parameter); heartbeats are given to the operations that use them. The pool's maps hold lists as values, from which the list objects are made that each operation works on. `AccountSlots` is at least one: with zero the source would keep empty lists and fail in the next reset. Lengths of lists are compared exactly, where the source rounds them to 32-bit floats.
- Price heap: `stales` is not claimed to be exact, since adding a removed transaction again revives its old entry; the standard library's heap is used through its contract.
- Header and block chain: caches, fast-sync heads, receipts, state and its garbage collection, `SetHead`; blocks are validated before they are written, so that numbers follow on parents and no transaction repeats on a path. For blocks nothing is claimed of canonical numbers above the head, which the source leaves as they are.
- Chain indexer: known section heads set from outside, children, throttling and closing. Block numbers stay below 2^60. In `RunAnnounced` a reorganisation and its announcement are one event.
- Random selection: 64-bit overflow of the sum of weights.
- Feed: type checks, a channel that subscribes twice, and subscriptions that arrive during a send (they only touch the inbox).
- Gas: the virtual machine is any function that returns no more gas than given and conserves balances; for the nonces of a block it leaves those of the senders alone, but raises that of an account that creates a contract. Hard-fork specials, logs and the block rewards of the consensus engine.
- Candidates: votes and delegations, which touch no deposit, and failures of the underlying trie.
- Consensus engines, state trie, networking, key storage and the command line tools: unrelated to the algorithms above.
