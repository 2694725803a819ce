# Transaction pool, chain and block execution of a Truechain node, in Dafny

The project models the parts of a Truechain full node that keep several indexes of the same data in
step while everything around them moves, and proves what they promise over every run.

* **Transaction pool.** `TxSortedMap` (a map, a heap and a cache that refine one finite map), `TxList`
  (cost caps that allow a scan to be skipped), `TxPriced` (a price heap cleaned lazily) and `TxPool`
  (pending lists, queues, the lookup of all transactions, tracked nonces). `NonceItems`, `PoolStates`
  and `Equalizing` hold the values and predicates these classes are specified by.
* **Canonical chain.** `BlockChain` keeps the number index, the transaction lookup and the heads
  through extension, reorganisation, rewind and rollback. `HeaderChain` holds the ancestor search, the
  header query served to peers, and the block hash cache of the virtual machine. `Ancestry` is the
  plain parent walk both are measured against.
* **Chain indexer.** `ChainIndexer` is a tree of indexers as a state machine: notifications, section
  starts, header reads, failures and commits interleave in any order.
* **Block execution.** `StateTransition`, `StateProcessor` and `BlockBuilder` run transactions on a gas
  pool, once by the leader who packs a block and once by the committee that replays it. `Receipts`
  fills in stored receipts, `GasLimit` is the walk of the block gas limit, and `Admission` says what the
  pool's checks are worth to the executor.

`Heaps` is the binary heap and the sort the Go standard library provides to the source. `Transactions`,
`IntrinsicGas` and `WorldState` hold what the others share. A transaction stands for its own hash and a
block for its own hash, because hashes are taken to be injective; signatures are taken to be valid, so
sender and payer are fields. The byte-code interpreter is a parameter: any deterministic function.

## Findings

These are places where the code does something other than its comments, tests or callers suggest. The
model follows the code, and the named lemma gives the exact condition.

* The tests of the pool count `items - stales` of the price heap as the number of pooled transactions.
  A transaction that leaves the pool and comes back has two entries in the heap, and a `Cap` returns it
  twice. With a sound heap the count drifts exactly if a pooled remote transaction below the threshold
  has several entries (`PricedLists.PricedList.Cap`); `PricedLists.DriftRun` is such a run. `Discard` can
  drift only with such an entry and only when it has to drop more than one.
* The short circuit of `txList.Filter` compares cached caps with the sender's balance only, so it can
  skip a transaction whose third-party payer has run out of money (`TxLists.ShortCircuitExact`).
* Demotion looks for a gap in front of a pending list only (`PoolStates.GapLeftByDemotion`). A reset that
  adds a transaction again can therefore leave a gap right behind it, whenever the chain fell at least two
  nonces below the account's pending run (`ResetGaps.ResetLeavesGap`); `ResetGaps.GapRun` gets there from an
  empty pool.
* The comment in `validateTx` says that only transactions of remote accounts are held to the minimum
  price; the code holds local ones to it too (`TxPools.TxPool.ValidateTx`).
* A reorganisation that arrives while a section is in flight can be followed by the commit of a section
  that ends above the new head (`ChainIndexers.ReorgDuringFlight`).
* After a backend refused to start, later rollbacks may no longer reach the children
  (`ChainIndexers.RefusedResetStopsCascade`). A refused start is harmless exactly if the index held no
  section (`ChainIndexers.ResetNested`).
* A child attached to an indexer that knows its checkpoint but has announced nothing is told of the
  checkpoint's sections, and a rollback below them does not reach it (`ChainIndexers.LateChildMissesReorg`).
  Attaching is harmless exactly if the child is told of no more than was announced
  (`ChainIndexers.AdoptNested`).
* The fee of a transaction is always added to the collected fees, but only a call that runs and does
  not fail takes it from the sender; a creation never does (`StateProcessors.ConservedIffCharged`).
* A creation whose sender cannot pay value and fee is executed as failed without raising the nonce, so
  the same transaction stays executable (`StateTransitions.NonceAdvances`).
* A call that moves no value is not asked whether its sender can pay the fee, which is then taken all the
  same: the sender can end below its locked balance, or below zero, exactly in such calls
  (`StateTransitions.FeeOverdraft`, `StateTransitions.FeeOverdraws`). The pool does ask
  (`Admissions.AdmittedExecutes`).
* The comment in `FastCalcGasLimit` says the limit stays at a use of two thirds and falls below it. It falls
  only if one and a half times the gas used is more than a hundred below the limit's hundreds, and at two
  thirds it rises (`GasLimits.LimitFollowsUse`, `GasLimits.TwoThirds`).
* The comments of `FastCalcGasLimit` divide by 1024; the divisor is 100. With a ceiling of at least 199 the
  limit settles in its range unless it starts at 100 to 199 under a floor above 5000; with a lower ceiling
  it settles exactly if it does not start above the ceiling and the ceiling is at least 100
  (`GasLimits.SettlesUnlessStuck`).
* A header query by number adds skip and number in 64 bits. A step is skip+1 exactly if the sum does not
  wrap; if it wraps, the query goes back by 2^64 - 1 - skip, so a forward query with skip 2^64 - 2 walks
  backwards and one with skip 2^64 - 1 repeats its first header (`HeaderChains.NextNumberExact`,
  `HeaderChains.WrappingQueries`).

## Model

| member | source | states |
|---|---|---|
| `NonceItems.FlatUnique` | core/tx_list.go:204-217 | a nonce-sorted listing of a set of transactions is unique, so a cache that is sorted and complete is the only possible one |
| `SortedMaps.TxSortedMap.Put` | core/tx_list.go:75-81 | the map gains or overwrites the nonce, the index heap still holds exactly the keys, and the cache is dropped |
| `SortedMaps.TxSortedMap.Forward` | core/tx_list.go:86-100 | removes exactly the nonces below the threshold, returns them in nonce order, and shifts the cache so that it still is the sorted contents |
| `SortedMaps.TxSortedMap.Filter` | core/tx_list.go:104-124 | removes and returns exactly the transactions that pass the test, and the rebuilt index is again a heap of the keys |
| `SortedMaps.TxSortedMap.Cap` | core/tx_list.go:128-149 | keeps exactly the nonces with fewer than the threshold below them, returns the others, and shortens the cache accordingly |
| `SortedMaps.TxSortedMap.Remove` | core/tx_list.go:153-170 | reports whether the nonce was there and removes it from map and heap |
| `SortedMaps.TxSortedMap.Ready` | core/tx_list.go:179-194 | removes and returns in order exactly the gapless run from the lowest nonce, or nothing if the lowest nonce is above the start |
| `SortedMaps.TxSortedMap.Flatten` | core/tx_list.go:204-217 | the result is the nonce-sorted complete contents, whether the cache was used or built |
| `SortedMaps.FlatRank` | core/tx_list.go:136-149 | in a sorted complete listing a transaction stands at the number of smaller nonces, which is why shortening the cache caps the contents |
| `SortedMaps.FlatForward` | core/tx_list.go:95-99 | dropping as many cache entries as were removed leaves the sorted contents |
| `SortedMaps.FlatCapped` | core/tx_list.go:142-147 | the first entries of the cache are the sorted contents after a cap |
| `SortedMaps.CapTakesHighest` | core/tx_list.go:134-141 | a cap below the size takes the highest nonce first |
| `SortedMaps.CappedSize` | core/tx_list.go:128-149 | a cap leaves exactly the threshold or everything |
| `SortedMaps.CapCap` | core/tx_list.go:128-149 | capping twice is capping once at the lower threshold |
| `TxLists.TxList.Add` | core/tx_list.go:252-273 | accepts exactly a new nonce or a replacement that meets the price bump, and raises the caps so that they bound every transaction |
| `TxLists.BumpsExact` | core/tx_list.go:256-262 | a replacement is accepted if and only if its price is higher and the old price with the bump is less than one unit above it |
| `TxLists.TxList.FilterCosts` | core/tx_list.go:291-329 | the list, the removed and the invalidated transactions are those of the specification `Filter`, including the short circuit |
| `TxLists.TxList.Scan` | core/tx_list.go:298-329 | the scan behind the short circuit: exactly the unpayable go, and in a strict list everything above the lowest of them is invalidated |
| `TxLists.TxList.Forward` | core/tx_list.go:278-280 | drops and returns the nonces below the threshold; the caps stay bounds |
| `TxLists.TxList.Cap` | core/tx_list.go:333-335 | keeps the lowest nonces up to the threshold and returns the rest |
| `TxLists.TxList.Remove` | core/tx_list.go:340-351 | removes the nonce and, in a strict list, returns everything above it as invalidated |
| `TxLists.TxList.Ready` | core/tx_list.go:360-362 | removes and returns the gapless run from the lowest nonce |
| `TxLists.AddKeepsCaps` | core/tx_list.go:262-271 | after an addition the cached caps still bound every cost and gas limit |
| `TxLists.FilterKeepsCaps` | core/tx_list.go:291-329 | after a filter the cached caps still bound every cost and gas limit |
| `TxLists.ShortCircuitExact` | core/tx_list.go:291-295 | when the caps allow the scan to be skipped, skipping equals scanning if and only if every third-party payer in the list can pay its gas |
| `TxLists.ShortCircuitWithoutPayers` | core/tx_list.go:291-295 | on lists without third-party payers skipping always equals scanning |
| `TxLists.FilterPartitions` | core/tx_list.go:291-329 | a filter splits the list into kept, removed and invalidated transactions, each in exactly one part |
| `TxLists.FilterSorts` | core/tx_list.go:291-329 | a filter removes exactly the unpayable transactions, if it scans at all, and a strict list invalidates exactly the others above a removed one |
| `TxLists.StrictFilterLeavesPrefix` | core/tx_list.go:316-327 | strict filtering of a gapless run leaves a prefix of it, and all that is invalidated lies above the cut |
| `PricedLists.PricedList.Put` | core/tx_list.go:429-431 | one more entry, heap order kept |
| `PricedLists.PricedList.Removed` | core/tx_list.go:436-451 | counts a stale entry or rebuilds the heap from the pool once a quarter is stale; soundness is kept for the pool without the transaction |
| `PricedLists.PricedList.Cap` | core/tx_list.go:455-482 | with a sound heap, drops exactly the pooled remote transactions below the threshold; each is returned once for every heap entry it has, and the live count drifts if and only if one of them has several |
| `PricedLists.PricedList.Underpriced` | core/tx_list.go:486-508 | with a sound heap, true exactly for a remote transaction that is no dearer than every pooled one |
| `PricedLists.PricedList.Discard` | core/tx_list.go:512-535 | at most count remote entries, none dearer than one that stays, strictly cheaper ones with all their entries, and all remote ones if it returns fewer than count; nothing repeats if count is one or no remote transaction has two entries, and if all are dropped, then only so |
| `PricedLists.StalesBoundAbsent` | core/tx_list.go:436-451 | in a sound heap the stale counter is at least the number of entries whose transaction left the pool, and never negative |
| `PricedLists.PassEnds` | core/tx_list.go:455-535 | a pass over the heap keeps soundness, and shifts the live count by exactly the number of repeated drops |
| `PricedLists.DriftRun` | core/tx_list.go:429-482 | a run of additions, a removal, an addition and a cap after which the live count is off by one |
| `TxPools.TxPool.constructor` | core/tx_pool.go:263-281 | an empty pool is valid and gapless |
| `TxPools.TxPool.ValidateTx` | core/tx_pool.go:620-694 | an error names a shortcoming the transaction has, and there is an error whenever it has one |
| `TxPools.TxPool.Add` | core/tx_pool.go:704-781 | the pool stays valid and gapless; a full pool makes room for a remote transaction it does not turn away, and only then; an accepted transaction takes its sender's slot for the nonce in what is left and nothing else changes; replacement is reported exactly when that slot was taken; every refusal has its reason |
| `TxPools.TxPool.MakeRoom` | core/tx_pool.go:717-741 | refuses exactly a remote transaction no dearer than the whole pool; else only remote ones leave, none dearer than a remote one that stays and at equal price none with a lower nonce, at least one if there is one and no more than must; exactly as many as must, or all, if one must leave or no remote transaction has two heap entries |
| `TxPools.TxPool.ReplacePending` | core/tx_pool.go:744-767 | replaces the pending transaction exactly if the price is higher and, in exact fractions, less than one unit short of the old price with the bump |
| `TxPools.TxPool.QueueNew` | core/tx_pool.go:768-781 | a free slot is always taken; a queued transaction is replaced exactly if the price is higher and, in exact fractions, less than one unit short of the old price with the bump |
| `TxPools.TxPool.EnqueueTx` | core/tx_pool.go:786-809 | queue, lookup and heap change together, or not at all |
| `TxPools.TxPool.Requeue` | core/tx_pool.go:1014-1017 | queueing demoted transactions again is never refused and leaves the lookup and the heap alone |
| `TxPools.TxPool.PromoteTx` | core/tx_pool.go:827-860 | inserts exactly if the pending list accepts, tracks the next nonce, and the lookup forgets exactly the loser |
| `TxPools.TxPool.AddTx` | core/tx_pool.go:909-923 | the answer and what is left of the pool as in `Add`; a new slot is followed by promotion, after which all limits hold and the sender has nothing executable left in its queue; below the limits the sender's lists are those of its promotion plan and whatever is lost has its reason |
| `TxPools.TxPool.AddEach` | core/tx_pool.go:942-954 | whatever is pooled was pooled or accepted, and what is reported as known was; while there is room no slot is vacated, every accepted slot is taken, every refusal has a shortcoming or a taken slot as its reason, every account with a new slot is listed, and the queues hold exactly the accepted transactions too |
| `TxPools.TxPool.AddTxs` | core/tx_pool.go:942-963 | the answers and the sources of `AddEach`; if any account got a new slot all limits hold afterwards and none of these accounts has anything executable left in its queue; below the limits exactly the listed accounts go through their promotion plans |
| `TxPools.TxPool.RemoveTx` | core/tx_pool.go:993-1032 | removal by nonce removes exactly the transaction asked for; from a pending list everything above it goes back to the queue, from a queue nothing else moves |
| `PoolStates.RemoveByNoncePending` | core/tx_pool.go:1007-1023 | in an exact pool the transaction found under the pending nonce is the one that was asked for |
| `PoolStates.RemoveByNonceQueued` | core/tx_pool.go:1026-1031 | the same for the queue |
| `PoolStates.ExactAfterMove` | core/tx_pool.go:993-1254 | moving transactions of one account between its lists, or out of them, keeps the lookup the exact disjoint union if it forgets exactly those that leave |
| `PoolStates.ExactAfterPut` | core/tx_pool.go:744-809 | storing a transaction in its slot keeps the lookup exact if the previous occupant is forgotten |
| `PoolStates.LookupCount` | core/tx_pool.go:1346-1351 | the size of the lookup is the number of pending plus the number of queued transactions |
| `PoolStates.GaplessCut` | core/tx_pool.go:1007-1023 | cutting a gapless account at a nonce leaves it gapless up to that nonce |
| `TxPools.TxPool.PromoteAccount` | core/tx_pool.go:1049-1092 | the account's lists and tracked nonce become those of the plan `Promote`, no other account changes; afterwards nothing queued is at or below the tracked nonce, so nothing executable is left behind; whatever is lost was used up, unpayable or, for a remote account only, above a full queue of lower nonces; a remote queue fits its limit; a nearly gapless account becomes gapless |
| `PoolStates.PromotionParts` | core/tx_pool.go:1054-1091 | promotion splits a queue into used up, unpayable, promoted, excess and remaining transactions, each in exactly one part |
| `PoolStates.PromotionGapless` | core/tx_pool.go:1054-1077 | promoting the ready run extends the pending interval exactly to the end of the run, and what stays queued lies strictly above it: the next nonce is not queued |
| `PoolStates.PromotionExact` | core/tx_pool.go:1070-1077 | of any queue the promoted part is one interval that starts no later than the tracked nonce, and everything left is beyond a gap behind it; if nothing is promoted, everything left is above the tracked nonce |
| `PoolStates.PromotionDrops` | core/tx_pool.go:1054-1091 | a queued transaction counts as used up exactly if its nonce is below the chain's, as unpayable exactly if a scan takes place and it is unpayable, and as excess only if the rest fills the limit with lower nonces |
| `PoolStates.PromotionLoses` | core/tx_pool.go:1049-1092 | a transaction that promotion of an account removes from the pool was in its queue and was used up, unpayable or above a queue filled to its limit with lower nonces |
| `PoolStates.LocalLoss` | core/tx_pool.go:1079-1087 | an account without a queue limit loses only used up and unpayable transactions |
| `TxPools.TxPool.Equalize` | core/tx_pool.go:1098-1168 | the cuts take highest nonces only and are fair: one common length for all penalised accounts, at least the guaranteed slots and no shorter than any other remote account; the total meets the limit or no remote account exceeds its slots, and undershoots the limit by less than the number of penalised accounts |
| `TxPools.TxPool.LevelDown` | core/tx_pool.go:1117-1143 | earlier offenders are cut to the newest one's length or until the total is low enough, keeping the level bookkeeping |
| `TxPools.TxPool.LevelOff` | core/tx_pool.go:1147-1166 | with no offender left to take, all are cut alike until the total meets the limit or they are at their guaranteed slots |
| `Equalizing.CutRound` | core/tx_pool.go:1122-1142 | one round of cuts keeps all cut accounts at one level that is an upper bound for every remote account |
| `Equalizing.LevelledIsFair` | core/tx_pool.go:1098-1168 | when cutting stops, the level bookkeeping implies the fairness rule |
| `TxPools.TxPool.TruncateQueue` | core/tx_pool.go:1169-1208 | only highest queued nonces of remote accounts go; the total meets the limit unless only local accounts have queues; pending lists are untouched |
| `TxPools.TxPool.RemoveQueued` | core/tx_pool.go:1193-1206 | each removal in that phase shrinks the queue by exactly that transaction and queues nothing again |
| `TxPools.TxPool.PromoteExecutables` | core/tx_pool.go:1037-1209 | both global limits and the queue limit of every processed remote account hold afterwards, no queue grows, no processed account has anything executable left in its queue, accounts that lagged behind the chain are gapless, and below the limits exactly the processed accounts went through their plans and whatever was lost was used up, unpayable or above a full queue |
| `TxPools.TxPool.DemoteAccount` | core/tx_pool.go:1214-1254 | the account's lists become those of the plan `Demote`, and only its own pending transactions that are used up or unpayable leave the pool |
| `PoolStates.DemotionParts` | core/tx_pool.go:1219-1247 | demotion splits a pending list into used up, unpayable, postponed and remaining transactions, each in exactly one part |
| `PoolStates.DemotionDrops` | core/tx_pool.go:1219-1247 | a pending transaction counts as used up exactly if its nonce is below the chain's, as unpayable exactly if a scan takes place and it is unpayable, and is otherwise postponed or stays: nothing payable is forgotten |
| `PoolStates.DemotionLoses` | core/tx_pool.go:1214-1254 | a transaction that demotion removes from the pool was pending and is used up or unpayable |
| `PoolStates.DemotionSettles` | core/tx_pool.go:1214-1254 | demotion of a gapless run leaves a run that starts at the chain's nonce, in whichever direction the chain moved, with the queue above it |
| `PoolStates.OnlyFrontChecked` | core/tx_pool.go:1240-1247 | of any strict list, what stands before the first unpayable transaction all stays if the chain's nonce is among it and all leaves if it is not |
| `PoolStates.GapLeftByDemotion` | core/tx_pool.go:1240-1247 | a strict list is a run from the chain's nonce after demotion if and only if what stands of it is one or lacks its front |
| `PoolStates.ScanLeavesPrefix` | core/tx_list.go:298-327 | the scan of a strict list leaves exactly the transactions before the first unpayable one |
| `TxPools.TxPool.DemoteUnexecutables` | core/tx_pool.go:1214-1254 | every account went through its plan `Demote`, every transaction that left the pool was pending and is used up or unpayable, and every account that held a run is settled against the chain |
| `TxPools.TxPool.SetGasPrice` | core/tx_pool.go:529-538 | exactly the transactions at or above the new price and those of local senders remain |
| `TxPools.TxPool.Evict` | core/tx_pool.go:374-388 | exactly the queues of expired remote accounts are emptied; pending lists are untouched |
| `TxPools.TxPool.Reset` | core/tx_pool.go:414-496 | the pool is valid against the new chain state and within its limits, no account has anything executable left in its queue, and the pool is gapless if it was and nothing was added again; below the limits every account went through exactly the plans of adding, promoting, demoting and promoting again, and with nothing to add again only used up and unpayable transactions, or those above a full remote queue, are lost |
| `ResetGaps.ResetLeavesGap` | core/tx_pool.go:471-496 | if the chain falls at least two nonces below an account's pending run and the transaction for its nonce is added again, the pool is gapless before and has a gap right behind that transaction after |
| `ResetGaps.GapRun` | core/tx_pool.go:471-496 | such a run from an empty pool |
| `BlockChains.WriteTxLookupEntries` | core/rawdb/accessors_indexes.go:43-60 | exactly the block's transactions get entries, each pointing at an occurrence in the block |
| `BlockChains.FindFork` | core/blockchain.go:1500-1570 | fails exactly if the two branches share no block, and else stops at the latest shared block with the blocks above it on either side |
| `BlockChains.BlockChain.Insert` | core/blockchain.go:636-654 | the block becomes the head of everything and its number canonical; the last block is the highest ever inserted, and reaching it ends a fallback |
| `BlockChains.BlockChain.Reorg` | core/blockchain.go:1500-1610 | succeeds exactly if the branches meet; then the index is the new branch down to genesis and the lookup is exact again; on failure nothing has changed |
| `BlockChains.LookupReorged` | core/blockchain.go:1527-1596 | with no transaction repeated on the old chain, deleting the dropped and adding the new entries leaves exactly the transactions of the new chain, each where it is |
| `BlockChains.LookupExtended` | core/blockchain.go:1151-1153 | writing a child's entries keeps the lookup exact |
| `BlockChains.BlockChain.WriteBlock` | core/blockchain.go:1142-1170 | up to the head the index is the head's ancestry, whether the block extends the head, reorganises or is refused; a refusal changes neither index nor lookup nor head |
| `BlockChains.BlockChain.SetHead` | core/blockchain.go:351-410 | the head becomes its own ancestor at the number, and exactly the canonical blocks and index entries above it up to the old head are deleted |
| `BlockChains.Rewound` | core/headerchain.go:395-430 | deleting the index and the blocks above a number leaves a complete index for the rewound head |
| `BlockChains.BlockChain.Rollback` | core/blockchain.go:875-897 | the head steps back over the listed hashes only, and the index stays its ancestry |
| `BlockChains.BackBeforeRun` | core/blockchain.go:875-897 | rolling back the hashes that lead up to the head lands on the block before them |
| `HeaderChains.CanonicalIsLinked` | core/headerchain.go:299-329 | an index that is the head's ancestry with nothing above the head is parent-linked, as the ancestor search needs it |
| `HeaderChains.WalkIsAncestor` | core/headerchain.go:299-329 | walking parents by hash arrives at the ancestor with that number |
| `HeaderChains.CanonicalWalk` | core/headerchain.go:314-319 | on a parent-linked index, walking k parents is counting down k numbers |
| `HeaderChains.GetAncestor` | core/headerchain.go:299-329 | an answer is exactly the hash that many parents back; there is none if and only if no such header exists or both it and the canonical chain are farther off than the budget; each block walked costs exactly one unit, up to the goal, the canonical chain, the end of the budget or a missing header; from a canonical header it always answers and spends nothing |
| `HeaderChains.NextByHash` | etrue/handler.go:653-686 | the next header is exactly skip+1 generations away in the asked direction; none means there is no such header or the canonical chain is out of the budget's reach; away from genesis nothing is spent, towards it exactly the blocks walked; from a canonical header it is found exactly if the index has it |
| `HeaderChains.ServeHeaders` | etrue/handler.go:620-699 | within both limits; by hash, every header is known and exactly skip+1 generations from the one before; by number, headers are canonical, and exactly skip+1 apart if and only if no step wraps in 64 bits; every step towards genesis by hash takes exactly what its walk costs from a budget of 100; the reply is full unless there is nothing to go on with or, past a header that is not canonical, what is left of the budget does not reach the canonical chain |
| `HeaderChains.NextNumberExact` | etrue/handler.go:687-697 | a step by number is skip+1 if and only if the 64-bit sum fits, and otherwise goes back by 2^64 - 1 - skip |
| `HeaderChains.NumberReplySpaced` | etrue/handler.go:687-697 | a reply by number is spaced as asked if and only if none of its steps wraps |
| `HeaderChains.WrappingQueries` | etrue/handler.go:687-697 | with skip 2^64 - 1 a query stays at its number, with skip 2^64 - 2 a forward query walks back one by one |
| `HeaderChains.HashCache.GetHash` | core/evm.go:72-103 | whatever was asked before, an answer below the reference equals an uncached parent walk, with the zero hash exactly where a header is missing; the cache only grows |
| `HeaderChains.HashCache.WalkStops` | core/evm.go:85-101 | where the cache cannot grow, no longer walk exists |
| `ChainIndexers.AlwaysConsistent` | core/chain_indexer.go:239-412 | in every interleaving the stored count is the database count, section heads exist exactly below it (or from the checkpoint on), and each stored section is a parent-linked run from the head before it to its own |
| `ChainIndexers.AlwaysConfirmed` | core/chain_indexer.go:239-376 | in every interleaving no indexer of the tree knows, takes up or, past its checkpoint, stores a section before a head was announced that gives its last block the confirmations required by it and by all indexers above it |
| `ChainIndexers.StepConfirmed` | core/chain_indexer.go:239-376 | every single step keeps that, for any bound on the announced heads |
| `ChainIndexers.KnownExact` | core/chain_indexer.go:273-295 | a new head makes s sections known if and only if the s-th section and the checkpoint have their confirmations under it and the chain contains the checkpoint, and changes nothing else |
| `ChainIndexers.ReorgExact` | core/chain_indexer.go:244-270 | falling back keeps a stored section if and only if it is the checkpoint's or ends below the block, and a known one if and only if it and the checkpoint do; children keep what ends below the last section left |
| `ChainIndexers.CommitTells` | core/chain_indexer.go:343-358 | after a commit a child knows s sections if and only if the blocks now covered confirm them and its checkpoint is in the chain |
| `ChainIndexers.AdoptTells` | core/chain_indexer.go:425-441 | a new child is added last and knows s sections if and only if the sections its parent has stored and knows of confirm them and its checkpoint is in the chain |
| `ChainIndexers.GivesUp` | core/chain_indexer.go:359-363 | over every run, an indexer that failed on a section or lost it to a rollback takes up none until it is told of a new head |
| `ChainIndexers.StepKeeps` | core/chain_indexer.go:300-376 | every single step keeps every indexer of the tree consistent |
| `ChainIndexers.CommitCheck` | core/chain_indexer.go:343-348 | comparing section heads at commit succeeds if and only if no earlier section was rolled back meanwhile |
| `ChainIndexers.CommitUndisturbed` | core/chain_indexer.go:313-363 | if a commit succeeds, the stored count was the same at every step since the section began |
| `ChainIndexers.SetValidKeeps` | core/chain_indexer.go:453-465 | falling back to fewer sections keeps the index consistent |
| `ChainIndexers.ReorgReachesAll` | core/chain_indexer.go:239-271 | on a nested tree at rest, a rollback leaves no section above the head in any indexer, also where the cascade is skipped |
| `ChainIndexers.ReorgAlwaysReachesAll` | core/chain_indexer.go:239-296 | over every run of safe steps from a fresh tree, after a reorganisation to a height every stored section of every indexer past its checkpoint ends at or below it |
| `ChainIndexers.SafeStep` | core/chain_indexer.go:239-441 | every safe step keeps each child within what its parent announced |
| `ChainIndexers.AdoptNested` | core/chain_indexer.go:425-441 | attaching a child keeps every child within what its parent announced if and only if the child is told of no more than was announced |
| `ChainIndexers.LateChildMissesReorg` | core/chain_indexer.go:425-441 | a run from a fresh root with a checkpoint in which a rollback does not reach a child attached before anything was announced |
| `ChainIndexers.ResetNested` | core/chain_indexer.go:387-390 | a refused start keeps every child within what its parent announced if and only if the index held no section |
| `ChainIndexers.ReorgDuringFlight` | core/chain_indexer.go:313-363 | a commit after a rollback in flight: which sections are stored, and that they end at the new head exactly if the section in flight does |
| `ChainIndexers.RefusedResetStopsCascade` | core/chain_indexer.go:382-390 | a run from a fresh tree in which, after one refused start, a rollback no longer reaches a child |
| `IntrinsicCosts.IntrinsicGas` | core/state_transition.go:116-146 | the 64-bit computation gives the true cost, or fails exactly when it does not fit in 64 bits |
| `IntrinsicCosts.CostPerByte` | core/state_transition.go:116-146 | every byte costs 4 or 68 by itself, wherever it stands, on top of 21000 or 53000 |
| `StateTransitions.GasPool.AddGas` | core/gaspool.go:29-35 | adds; overflow, where the source panics, is the caller's to exclude |
| `StateTransitions.GasPool.SubGas` | core/gaspool.go:39-45 | succeeds exactly if there is enough |
| `StateTransitions.StateTransition.BuyGas` | core/state_transition.go:189-217 | which error comes first, and that a refusal changes nothing |
| `StateTransitions.StateTransition.PreCheck` | core/state_transition.go:219-234 | a refusal is the one of the specification and changes nothing; otherwise exactly the gas is bought from the payer |
| `StateTransitions.StateTransition.RefundGas` | core/state_transition.go:277-295 | at most half of the used gas is refunded, the gas held never exceeds what was bought, and the pool cannot overflow |
| `StateTransitions.StateTransition.TransitionDb` | core/state_transition.go:239-275 | the state and outcome are those of the specification; the pool falls by exactly the used gas, or by the bought gas on a refusal past the purchase |
| `StateTransitions.StateTransition.Execute` | core/state_transition.go:260-275 | with gas bought and the intrinsic gas paid, runs the code and settles; the pool regains exactly what was not used |
| `StateTransitions.UsedBounds` | core/state_transition.go:252-300 | used gas is at most the limit and at least half the intrinsic gas |
| `StateTransitions.UsedExact` | core/vm/evm.go:187-270 | what a transaction uses, whether it failed and which logs it leaves, by case: the intrinsic gas if the sender cannot pay or nothing is called, all gas on an address collision or failing code, what the code used without refund on a revert, and otherwise what it used less a refund of at most half |
| `StateTransitions.FeeOverdraft` | core/vm/evm.go:197-232 | before the code starts the sender keeps its locked balance if and only if the transaction is not a call without value whose fee exceeds what is unlocked |
| `StateTransitions.FeeOverdraws` | core/vm/evm.go:197-232 | a call without value from an empty account that succeeds and leaves the account below zero |
| `StateTransitions.EnteredNonce` | core/vm/evm.go:419-438 | the code starts with the sender's nonce one up, a created account's at one, and all others unchanged |
| `StateTransitions.ExecutedSupply` | core/state_transition.go:189-295 | with a conserving interpreter the sum of balances falls by exactly used gas times price and, where it is charged, the fee |
| `StateTransitions.AccountChange` | core/state_transition.go:189-295 | for every account: the payer named in the transaction, or else the sender, loses exactly used gas times price, sender and recipient exchange value and fee if the effects were kept, and the rest is the code's doing |
| `Admissions.PayableExecutes` | core/state_transition.go:219-275 | a transaction that the pool's filter finds payable against a state, with its intrinsic gas covered, is refused in that state only for its nonce or a full block, and its sender can pay value and fee |
| `Admissions.AdmittedExecutes` | core/tx_pool.go:618-694 | a transaction the pool finds valid against a state is refused in it only because its nonce is ahead or the block is full, and its sender can pay value and fee |
| `StateTransitions.NonceAdvances` | core/vm/evm.go:414-433 | an executed transaction raises its sender's nonce and is refused from then on, except a creation whose sender cannot pay value and fee |
| `StateTransitions.RunBalance` | core/vm/evm.go:256-268 | effects that are not kept leave every balance as it was before the code |
| `WorldStates.SupplyTransfer` | core/evm.go:112-115 | a transfer keeps the sum of balances, also from an account to itself |
| `StateProcessors.ApplyTransaction` | core/state_processor.go:111-155 | state, pool, running totals and receipt after one transaction, or the refusal with the totals untouched |
| `StateProcessors.Process` | core/state_processor.go:68-105 | the result is the meaning `Replay` of the block, and fails exactly when the block has none |
| `StateProcessors.Replay` | core/state_processor.go:68-105 | a block never uses more gas than its limit and has one receipt for every transaction |
| `StateProcessors.MorePool` | core/gaspool.go:39-45 | more gas in the pool never turns an acceptable transaction into a refused one |
| `StateProcessors.BlockConserves` | core/state_processor.go:126-131 | over a whole block, balances and collected fees grow by exactly the fees counted without being charged |
| `StateProcessors.ConservedIffCharged` | core/state_processor.go:126-131 | with fees that are not negative, value is conserved if and only if every fee was charged or zero |
| `StateProcessors.ReplayReceipts` | core/state_processor.go:126-152 | every running total is the one before plus the receipt's own gas, the last is the block's, and receipts stand in the order of the transactions |
| `StateProcessors.ReplayReceiptAt` | core/state_processor.go:126-152 | each receipt reports gas, status and logs of its own transaction executed in the state its predecessors left, and for a creation the address the code ran at |
| `BlockBuilders.TxQueue.constructor` | core/types/transaction.go:571-591 | the heap holds the first transaction of every account once |
| `BlockBuilders.TxQueue.Peek` | core/types/transaction.go:594-599 | the dearest of the transactions that are next in line, or none exactly when all lines are done |
| `BlockBuilders.TxQueue.Shift` | core/types/transaction.go:602-610 | the dearest account moves on by one transaction, all others stay |
| `BlockBuilders.TxQueue.Pop` | core/types/transaction.go:615-617 | the dearest account is given up, all others stay |
| `BlockBuilders.AgentWork.CommitTransaction` | etrue/pbft_agent.go:1324-1334 | whatever happens to the transaction, what is packed so far replays from the parent on a fresh pool; a refusal leaves state, gas used, fees and receipts alone |
| `BlockBuilders.AgentWork.CommitTransactions` | etrue/pbft_agent.go:1248-1302 | packs until the pool is too low or the queue is done; each attempt is the dearest next transaction and its outcome is the refusal that holds in the state and pool it met; an account with untried transactions had one that found no room or was ahead of its nonce, or the pool is too low in the end; the packed block replays |
| `BlockBuilders.TriedInOrder` | etrue/pbft_agent.go:1248-1302 | each account's transactions are tried in the order of its line, none skipped and none twice; what is untried is still in line, unless an attempt of the account found no room or was ahead of its nonce, after which nothing is |
| `BlockBuilders.GivenUpForGood` | etrue/pbft_agent.go:1280-1296 | an attempt that found no room or was ahead of its nonce is its account's last |
| `BlockBuilders.BuildAndVerify` | etrue/pbft_agent.go:1248-1334 | the committee's processing of the leader's block never fails and yields the same state, gas, fees and receipts |
| `Receipts.SetReceiptsData` | core/blockchain.go:900-940 | fails exactly on a length mismatch, changing nothing, and else fills in every receipt in place |
| `Receipts.FilledRecovers` | core/blockchain.go:923-928 | from the stored running totals of a processed block it gives back each receipt's gas, status, transaction, position, contract address and logs, each log with its block, transaction and index |
| `Receipts.IndicesConsecutive` | core/blockchain.go:929-937 | over the whole block the log indices count up from zero without gap or repetition |
| `GasLimits.StaysInRange` | core/block_validator.go:137-171 | a limit inside the range stays inside it, whatever the block used, if and only if neither a ceiling below 100 is met nor the raise overflows below the floor |
| `GasLimits.Approaches` | core/block_validator.go:151-169 | from a limit of at least 200 every block strictly shortens the distance to the range |
| `GasLimits.LimitFollowsUse` | core/block_validator.go:137-171 | inside the range the limit rises if and only if it is below the ceiling and one and a half times the gas used reaches it rounded down to hundreds, or it is below the minimum; it falls if and only if it is above floor and minimum and that product is more than a hundred below its hundreds |
| `GasLimits.MoreUseRaises` | core/block_validator.go:139-151 | inside the range more gas used never lowers the next limit |
| `GasLimits.TwoThirds` | core/block_validator.go:144-150 | a block that uses more than two thirds of its limit raises it, and one that uses exactly two thirds may too |
| `GasLimits.ProposalVerifies` | consensus/minerva/consensus.go:394-412 | the limit proposed on top of a verified block passes header verification if and only if the ceiling is not below the minimum where that matters and not so high that the proposal exceeds 2^63 - 1 |
| `GasLimits.WalkVerifies` | consensus/minerva/consensus.go:394-412 | over every run of valid blocks under a ceiling from 5000 to 2^63 - 1 each limit passes verification against the one before |
| `GasLimits.SettlesUnlessStuck` | core/block_validator.go:137-171 | over every run of valid blocks without overflow the limit reaches the range and never leaves it again if and only if it does not start stuck, or under a ceiling below 199 if and only if it does not start above it and the ceiling is at least 100 |
| `GasLimits.NeverMoves` | core/block_validator.go:142-163 | a limit of 100 to 199 under a floor above 5000 never changes |
| `GasLimits.LowCeilingNeverReached` | core/block_validator.go:164-168 | once above a ceiling below 199 the limit never comes down to it |

## Left out

- Aliasing of transaction lists: the pool stores lists as values, and the classes `TxSortedMap` and `TxList` are proved to compute those values; two holders of one list object are not modelled.
- Heartbeats, journal files, event feeds, metrics and timers of the pool: which accounts have expired is a parameter of `Evict`, and the order in which queues are shed is any order.
- Reset: the walk over the two branches to find what to add again is not modelled; the transactions to add again are a parameter, and the bail-out branches of the walk add nothing.
- Priorities of penalised accounts as 32-bit floats: exact list lengths are used instead.
- Nonces, gas and counts near 2^64 in the pool: they are unbounded there; the gas limit, the header query, the intrinsic gas and the receipts model 64-bit arithmetic.
- Signature recovery and its errors: sender and payer are given; `AsMessage` never fails.
- Side-chain insertion, chain repair, state availability, trie garbage collection, fast-sync heads that differ from the block head, and body or receipt deletion of the chain.
- WriteBlock: takes the block's state as available; batch write errors are not modelled.
- SetHead: does not model the reload of state and caches; the transaction lookup is not touched by the source either, so its exactness is claimed for extensions and reorganisations only.
- AlwaysConsistent: checkpoints are set before the run, as the indexer documents.
- ServeHeaders: amounts are not converted to a signed integer, so amounts of 2^63 and more are not modelled.
- Insert: the restoring of the last block and of the fallback flag when the chain is loaded or rewound is not modelled.
- GetHash: a query for 2^64 - 1 wraps in the source's index computation and is not modelled.
- The interpreter, precompiled contracts, account deletion and self-destruction: they are the parameters `run` and `finalise`, of which bounded gas, conserved value and kept nonces are assumed where a lemma says so.
- Conservation of the block reward: the engine's distribution of the collected fees is not part of this model.
- Blooms, post-state roots and block hashes in receipts and logs of the executor; they carry no gas or value.
- The duplicate detection and the cached block of the agent, the election and the consensus messages.
- BuildAndVerify: block headers, signatures and rewards around the transactions are not modelled.
- Execution: the models are proved, nothing in the repository was executed.
