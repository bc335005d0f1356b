# Verified models of the node's core data structures and protocols

A Dafny model of the parts of the node whose correctness is decided by code and not by the network: the layered coin
cache, InstantSend vote locking, the parallel check queue, the address manager, the rolling Bloom filter, 256-bit
arithmetic with compact targets and block proof, the block index and active chain, the cuckoo cache, Base58, compact
blocks, database transactions and governance votes. `dafny verify dfyconfig.toml` checks everything.

Most components come in two layers. A value layer gives the state as a datatype, the operations as functions, and holds
the theorems about all inputs and all runs. An object layer has classes and arrays that are updated in place, with the
loops of the source; each method is proved to have exactly the effect of the operation on values. Hashes, signatures,
clocks, random numbers and the rest of the node are parameters.

| component | files | main results |
|---|---|---|
| coin cache | Coins, CoinsRuns, CoinsCache | every run on a stack of any depth refines a stack of flat maps; the flag exception is unreachable |
| InstantSend | InstantSend, InstantSendThreshold, InstantSendNode | conflicting candidates never both become ready, locks are permanent and never conflict, and the branch that drops conflicting locks is dead: each in all runs if and only if two sets of required voters always overlap |
| check queue | CheckQueue, CheckQueueObject | `Wait` is exact in every interleaving; no lost wake-up; a bound on the work left |
| address manager | AddrMan, AddrManRuns, AddrManCheck, AddrManObject | every run keeps all structures consistent; all asserts hold; what `Check_` decides, and that it passes after every run under normalised keys |
| rolling filter | RollingBloom, RollingBloomFilter | the exact law of membership; no false negatives in the window |
| arithmetic | Limbs, Arith256, Shifts256, Division256, Compact, BlockProof | limb loops compute modulo 2^256; exact division; the rounding law of the compact format; exact block proof |
| chain | SkipHeight, SkipWalk, Chain | skip links refine the parent walk, in at most k(k+1)/2 turns below height 2^k; sound early stop of `SetTip`; highest fork; locator length |
| cuckoo cache | Cuckoo | an insert loses exactly one entry; what is found is exactly what was inserted and not dropped since |
| Base58 | Radix, Base58 | both round trips; both buffers suffice for every length |
| compact blocks | CompactBlocks, PartialBlock | a whole exchange rebuilds the block without collisions; exactly when stopping early matters; index round trip; the exact reach of 16-bit positions |
| database transactions | DbOverlay, DbRuns, DbTransaction, DbIterator | every run on a stack of any depth, with operations at all levels, refines one map of pending changes per level; commits are invisible to readers; the merging iterator is a plain iterator over the visible keys; exact memory counter |
| governance votes | Governance, GovernanceObject, GovernanceRuns | tallies do not depend on the order of arrival; exactly when the vote files do not; in every run records and vote file tell the same |

## What the code does where one might expect otherwise

- `SpendCoin` returns true for a coin that is cached but already spent (src/coins.cpp:99-113).
- `AddCoin` changes the usage counter before it throws, so the counter is off afterwards (src/coins.cpp:68-87).
- Flushing a cache that never looked up the best block erases the parent's (src/coins.cpp:198-207).
- A flush that throws keeps the usage counter of the whole cache, although the entries merged before are gone from it
  (src/coins.cpp:162-207).
- `Check_` looks entries up under the key that is not normalised, and so rejects consistent managers that do not
  discriminate ports. Its look-up also inserts a key that is missing, with the id 0 (src/addrman.cpp:424-425).
- Dropping two conflicting InstantSend candidates also erases what other candidates have recorded for their outpoints
  (src/instantx.cpp:681-684).
- `Clear` of the address manager resets the tables, the order and the counters, but neither `mapInfo` nor `mapAddr`
  (src/addrman.h:458-477).
- `x *= x` on 256-bit numbers clears x before reading it (src/arith_uint256.cpp:68-81).
- The comment on the first displacement in the cuckoo cache says it goes to the first location; the code takes the second
  one, since the search for the invalid location ends at 8 and (1 + 8) & 7 is 1 (src/cuckoocache.h:395-406).
- Reading a block transactions request, the 16-bit offset wraps to 0 after the index 65535 (src/blockencodings.h:59-60).
- Positions of short ids are kept in 16 bits although the limit on transactions per message does not keep them there
  (src/blockencodings.cpp:52-54, src/blockencodings.cpp:82-87).
- With exactly 65536 prefilled transactions and a short id the free-slot scan never ends (src/blockencodings.cpp:85-86).
- Once all short ids are matched the loops stop, so that of two transactions with the same short id the second does not
  empty the slot as it would have earlier; the source says so (src/blockencodings.cpp:128-132).
- A vote file may keep several votes of a masternode with the same timestamp, and which ones depends on the order in which
  they arrived (src/governance-object.cpp:163-178, src/governance-votedb.cpp:95-111).

## Model

| member | source | states |
|---|---|---|
| `Coins.FetchKeepsView` | src/coins.cpp:42-66 | Reading a coin through a stack of caches of any depth keeps the flag and usage invariant at every level and changes no level's view at any outpoint |
| `Coins.AddCoinMeaning` | src/coins.cpp:68-87 | When the caller announces an overwrite or the view shows no unspent coin, `AddCoin` does not throw, the coin is shown, every other outpoint is unchanged, the invariant holds |
| `Coins.AddCoinExact` | src/coins.cpp:68-87 | `AddCoin` throws exactly when the overwrite is unannounced and this level caches an unspent coin; it keeps the invariant exactly when the overwrite is announced, or nothing unspent is shown, or the coin shown is cached and owns no heap memory |
| `Coins.SpendCachedMeaning` | src/coins.cpp:99-113 | Spending a cached entry, by erasing a FRESH one and clearing any other, hides exactly that coin and keeps the invariant |
| `Coins.SpendCoinMeaning` | src/coins.cpp:99-113 | A spend removes exactly one coin from the view; it returns true exactly if a coin was shown or the spent entry is still cached, and hands out what was shown |
| `Coins.UncacheKeepsView` | src/coins.cpp:209-216 | Dropping a clean entry changes no view and keeps the usage sum exact |
| `Coins.FlushNeverThrows` | src/coins.cpp:168-174 | With a sound child the "FRESH flag misapplied" exception is unreachable, wherever the parent sits |
| `Coins.BatchWriteMeaning` | src/coins.cpp:146-200 | After the write the parent's view equals the child's view before it, and the parent's flags are sound against the grandparent |
| `Coins.FlushMeaning` | src/coins.cpp:202-207 | A flush leaves the child's own view unchanged and moves it down one level |
| `Coins.FlushBestBlock` | src/coins.cpp:198-207 | The best block survives a flush if and only if the child knows one, or the level below has none to lose: a null hash overwrites the parent's |
| `Coins.RememberMeaning` | src/coins.cpp:136-140 | Asking for the best block remembers it at every level that did not know it and changes no cache, counter or view; after that a flush does not lose it |
| `CoinsRuns.FlushAgrees` | src/coins.cpp:202-207 | A flush of the top cache is the assignment of one flat map to the next |
| `CoinsRuns.StepRefines` | src/coins.cpp:42-113 | Each operation allowed by the callers' promise is followed by the stack of flat maps, without an exception |
| `CoinsRuns.RunRefines` | src/coins.cpp:42-216 | Every run of fetch, add, spend, uncache and flush on a stack of any depth refines a stack of flat outpoint maps, raises no exception and keeps the flag and usage invariant at every level |
| `CoinsCache.CoinsViewCache.FetchCoin` | src/coins.cpp:42-57 | The in-place fetch of a cache object over a chain of caches has exactly the effect of the operation on values, results and exceptions included |
| `CoinsCache.CoinsViewCache.GetCoin` | src/coins.cpp:59-66 | The in-place read of a cache object over a chain of caches has exactly the effect of the operation on values, results and exceptions included |
| `CoinsCache.CoinsViewCache.AddCoin` | src/coins.cpp:68-87 | The in-place add of a cache object over a chain of caches has exactly the effect of the operation on values, results and exceptions included |
| `CoinsCache.CoinsViewCache.SpendCoin` | src/coins.cpp:99-113 | The in-place spend of a cache object over a chain of caches has exactly the effect of the operation on values, results and exceptions included |
| `CoinsCache.CoinsViewCache.Uncache` | src/coins.cpp:209-216 | The in-place uncache of a cache object over a chain of caches has exactly the effect of the operation on values, results and exceptions included |
| `CoinsCache.CoinsViewCache.GetBestBlock` | src/coins.cpp:136-140 | The in-place read of the best block, through a chain of caches, has exactly the effect of the operation on values at every level |
| `CoinsCache.CoinsViewCache.BatchWrite` | src/coins.cpp:146-200 | The in-place merge loop with its flag cases has exactly the effect of the operation on values; if it throws, what is merged, what is left and that the usage counter keeps in step |
| `CoinsCache.CoinsViewCache.Flush` | src/coins.cpp:202-207 | The in-place flush has exactly the effect of the operation on values, and throws exactly if a FRESH flag is misapplied; then the entries merged so far are one level down, the others still here, the counters and best blocks as they were |
| `CoinsCache.CoinsViewDb.BatchWrite` | src/txdb.cpp:77-100 | The database write keeps exactly the dirty entries of the batch and ignores a null best block |
| `InstantSend.RecordExclusive` | src/instantx.cpp:449-485 | Recording a vote keeps the key fact: a masternode counted at one outpoint in two candidates means both are marked attacked there |
| `InstantSend.RecordInv` | src/instantx.cpp:326-406 | Recording a valid vote keeps the whole protocol invariant |
| `InstantSend.ReplayInv` | src/instantx.cpp:487-500 | Replaying any orphan votes in any order keeps the invariant |
| `InstantSend.CreateInv` | src/instantx.cpp:159-195 | Creating or completing a lock candidate keeps the invariant and all locks |
| `InstantSend.ReadyMeansUnlocked` | src/instantx.cpp:576-621 | A candidate ready to lock shares no outpoint with another transaction's completed lock |
| `InstantSend.ResolveExact` | src/instantx.cpp:576-650 | Going through the inputs in order, the branch for a conflicting completed lock is taken exactly if the first input that is locked by another transaction or spent in the memory pool is a locked one; the lock is granted exactly if there is no such input and the transaction is mined or its inputs unspent |
| `InstantSend.FinalizeInv` | src/instantx.cpp:502-565 | Finalizing keeps the invariant, locks all outpoints of the transaction or none, gives up no lock and never meets a conflicting completed lock |
| `InstantSend.StepInv` | src/instantx.cpp:101-157 | Every message keeps the invariant; the branch for conflicting completed locks is dead |
| `InstantSend.RunInv` | src/instantx.cpp:101-518 | The invariant holds in every state of every run that starts empty |
| `InstantSend.LocksPermanent` | src/instantx.cpp:551-565 | If two sets of required voters always overlap, a recorded lock stays for the rest of the run, which has clean-ups but no expiry by confirmation, although the code has a branch that drops locks |
| `InstantSend.NoConflictingLocks` | src/instantx.cpp:819-840 | If two sets of required voters always overlap, transactions locked at any two moments of a run share no outpoint |
| `InstantSend.VotesKept` | src/instantx.cpp:449-518 | Under the same condition no message of a run takes a recorded vote back |
| `InstantSend.QuorumSafety` | src/instantx.cpp:1213-1244 | The quorum argument over whole runs: candidates that are ready to lock at any two moments and share an outpoint are the same, if two sets of required voters always overlap |
| `InstantSend.MajorityOverlaps` | src/instantx.cpp:1092-1097 | A required majority of the ranked masternodes makes voter sets overlap |
| `InstantSendThreshold.ConflictReachableIff` | src/instantx.cpp:576-621 | The exact threshold: some run takes the branch for conflicting completed locks if and only if two sets of required voters can be disjoint |
| `InstantSendThreshold.EveReached` | src/instantx.cpp:576-621 | For every quorum that allows disjoint voter sets, a run to a state with a locked transaction in which one more message makes a conflicting one ready and drops both |
| `InstantSendThreshold.QuorumSafetyIff` | src/instantx.cpp:1213-1244 | Two different candidates that share an outpoint are ready at two moments of some run if and only if two sets of required voters can be disjoint |
| `InstantSendThreshold.LocksPermanentIff` | src/instantx.cpp:588-621 | Some run gives up a recorded lock if and only if two sets of required voters can be disjoint |
| `InstantSendThreshold.LockSafetyIff` | src/instantx.cpp:551-621 | Two different transactions that share an outpoint are locked at two moments of some run if and only if two sets of required voters can be disjoint: after the drop a third transaction can lock the outpoint |
| `InstantSendNode.Node.CreateTxLockCandidate` | src/instantx.cpp:159-195 | In place: the creation of a candidate changes the node's maps exactly as the protocol step on values does |
| `InstantSendNode.Node.UpdateVotedOutpoints` | src/instantx.cpp:449-485 | In place: the bookkeeping of voted outpoints, including the marking of both candidates as attacked changes the node's maps exactly as the protocol step on values does |
| `InstantSendNode.Node.RecordVoteFor` | src/instantx.cpp:391-396 | In place: the recording of one vote changes the node's maps exactly as the protocol step on values does |
| `InstantSendNode.Node.ProcessOrphanTxLockVotes` | src/instantx.cpp:487-500 | In place: the orphan loop changes the node's maps exactly as the protocol step on values does |
| `InstantSendNode.Node.ResolveConflicts` | src/instantx.cpp:576-650 | In place: the conflict search, input by input, and the dropping of both candidates when a conflicting completed lock is met, have exactly the effect of the operation on values |
| `InstantSendNode.Node.CleanUp` | src/instantx.cpp:666-718 | In place: the loop that erases expired candidates while it goes through them removes exactly those, with whatever is recorded for their outpoints; and timed out orphan votes |
| `InstantSendNode.Node.LockTransactionInputs` | src/instantx.cpp:551-565 | In place: the locking loop changes the node's maps exactly as the protocol step on values does |
| `InstantSendNode.Node.TryToFinalizeLockCandidate` | src/instantx.cpp:502-518 | In place: the finalization changes the node's maps exactly as the protocol step on values does |
| `InstantSendNode.Node.ProcessTxLockRequest` | src/instantx.cpp:101-157 | In place: the handling of a request changes the node's maps exactly as the protocol step on values does |
| `InstantSendNode.Node.ProcessNewTxLockVote` | src/instantx.cpp:326-406 | In place: the handling of a vote changes the node's maps exactly as the protocol step on values does |
| `InstantSendNode.AllOutPointsReady` | src/instantx.cpp:1236-1244 | The loop over a candidate's outpoints answers whether there are any and all have enough votes |
| `CheckQueue.BatchSize` | src/checkqueue.h:105-110 | The batch size is between 1 and the queue length whenever the queue is not empty |
| `CheckQueue.QuickStepInv` | src/checkqueue.h:69-127 | Entering, adding, running one check and finishing a batch keep the invariant: `nTodo` is queued plus in-flight checks, `nTotal` and `nIdle` count the threads inside and waiting |
| `CheckQueue.TakeInv` | src/checkqueue.h:105-119 | Taking a batch removes exactly it from the queue and keeps the invariant |
| `CheckQueue.BlockInv` | src/checkqueue.h:101-103 | A thread that starts to wait keeps the invariant |
| `CheckQueue.ReturnInv` | src/checkqueue.h:92-100 | The master's return value is true exactly if all checks added since the last return are true, and the reset state is consistent |
| `CheckQueue.SectionInv` | src/checkqueue.h:77-120 | A whole critical section, from clean-up to decision, keeps the invariant; only the master returns, with the exact result |
| `CheckQueue.StepInv` | src/checkqueue.h:69-127 | Every step of every thread, spurious wake-ups included, keeps the invariant |
| `CheckQueue.RunInv` | src/checkqueue.h:69-161 | The invariant holds in every state of every interleaving |
| `CheckQueue.WaitIsExact` | src/checkqueue.h:143-146 | In every interleaving, `Wait` returns true exactly if all checks added since the last `Wait` are true |
| `CheckQueue.NoLostWakeUp` | src/checkqueue.h:80-104 | A master blocked without a notification has `nTodo` > 0 and some runnable worker holds an unfinished batch; the worker that brings `nTodo` to zero notifies the master |
| `CheckQueue.StepProgress` | src/checkqueue.h:69-127 | Every step other than entering or adding lowers a measure of remaining work, unless it is a spurious wake-up that goes back to waiting |
| `CheckQueue.WorkBound` | src/checkqueue.h:69-127 | In every stretch of every run without entering and adding, the number of steps that are not spurious wake-ups is bounded by the work left at its start |
| `CheckQueue.StutterChangesNothing` | src/checkqueue.h:101-103 | A spurious wake-up that goes back to waiting leaves the whole state as it was |
| `CheckQueue.WaitCanProgress` | src/checkqueue.h:69-127 | While the master is inside `Wait`, some step lowers the remaining work: no deadlock |
| `CheckQueueObject.Queue.Add` | src/checkqueue.h:149-161 | The checks are appended in order and counted |
| `CheckQueueObject.Queue.CleanUpBatch` | src/checkqueue.h:80-89 | The clean-up after a batch, and when it notifies the master |
| `CheckQueueObject.Queue.Look` | src/checkqueue.h:91-119 | The inner loop with its pops from the back of the queue takes exactly the decision on values |
| `CheckQueueObject.RunBatch` | src/checkqueue.h:121-124 | Skipping checks after a failure does not change the result |
| `AddrMan.FindExact` | src/addrman.cpp:68-84 | Look-up succeeds exactly if an entry has the port-normalised key |
| `AddrMan.CreateInv` | src/addrman.cpp:86-101 | A created entry fits all structures, except that it has no bucket yet |
| `AddrMan.SwapInv` | src/addrman.cpp:103-121 | Swapping keeps the random order and the positions inverse to each other |
| `AddrMan.DeleteInv` | src/addrman.cpp:123-140 | Deleting an unreferenced new entry keeps all structures consistent; its asserts hold |
| `AddrMan.ClearNewInv` | src/addrman.cpp:142-155 | Clearing a slot frees it, deletes at most the entry that loses its last slot and touches nobody else |
| `AddrMan.EvictInv` | src/addrman.cpp:175-197 | Evicting from the tried table leaves the slot free and the evicted entry with exactly one slot of the new table |
| `AddrMan.MakeTriedInv` | src/addrman.cpp:157-203 | No assert of `MakeTried` fires and the entry ends up tried, in its own slot |
| `AddrMan.NewEntryIsFound` | src/addrman.cpp:234-249 | The exit of `Good_` for an entry in no bucket is dead |
| `AddrMan.GoodInv` | src/addrman.cpp:205-255 | `Good_` keeps the full invariant; the entry becomes tried with the new times unless it is unknown or known under another port |
| `AddrMan.PlaceInv` | src/addrman.cpp:306-326 | Placing an entry keeps the invariant; no assert fires |
| `AddrMan.AddInv` | src/addrman.cpp:257-328 | `Add_` keeps the full invariant and returns true exactly for a routable address that was unknown |
| `AddrManRuns.GoodFrame` | src/addrman.cpp:157-203 | A successful connection changes nothing but the entry itself, the tried entry it evicts and the one displaced from its home slot |
| `AddrManRuns.MakeTriedFrame` | src/addrman.cpp:157-203 | The same for the move to the tried table |
| `AddrManRuns.GoodTimes` | src/addrman.cpp:205-255 | A reported success keeps the times `Check_` looks at plausible if and only if its time is positive or the address is not known |
| `AddrManRuns.AddTimes` | src/addrman.cpp:257-328 | Announcements keep the times plausible |
| `AddrManRuns.ApplyTimes` | src/addrman.cpp:205-534 | Each operation keeps the times plausible if and only if it records no impossible time |
| `AddrManRuns.RunInv` | src/addrman.cpp:205-350 | After every run of operations the invariant holds under normalised keys: reference counts equal occurrences and lie in 1..8, tried entries sit in exactly their own slot, the random order and the positions are inverse, the counters are exact; and the times are plausible if every operation was timely |
| `AddrManRuns.ClearedExact` | src/addrman.h:458-477 | `Clear` leaves a consistent manager, under any key, if and only if there was no entry to clear |
| `AddrManCheck.ConsistentPasses` | src/addrman.cpp:400-474 | A consistent manager with plausible times passes every clause of `Check_` apart from the index look-up |
| `AddrManCheck.PassingIsConsistent` | src/addrman.cpp:400-474 | Conversely, what passes, is indexed exactly and has ids below the counter is consistent: `Check_` overlooks nothing else |
| `AddrManCheck.RunPasses` | src/addrman.cpp:400-474 | Every timely run that starts empty ends in a state that passes `Check_` under normalised keys |
| `AddrManCheck.IndexExact` | src/addrman.cpp:424-425 | `Check_` accepts the index of a consistent manager if and only if ports are discriminated, or every entry has port 0 or the id 0: it looks up the key without normalising it |
| `AddrManCheck.KnownExact` | src/addrman.cpp:424-425 | The stored addresses of a consistent manager are all keys of its index if and only if ports are discriminated or all 0 |
| `AddrManCheck.SoundVerdict` | src/addrman.cpp:400-474 | On a consistent manager with plausible times and a key, the result of `Check_` and whether it leaves the index alone, both decided by the ports alone |
| `AddrManObject.Manager.FindEntry` | src/addrman.cpp:68-84 | In place, on the bucket arrays and maps: the look-up has exactly the effect of the operation on values |
| `AddrManObject.Manager.CreateEntry` | src/addrman.cpp:86-101 | In place, on the bucket arrays and maps: the creation has exactly the effect of the operation on values |
| `AddrManObject.Manager.Swap` | src/addrman.cpp:103-121 | In place, on the bucket arrays and maps: the swap has exactly the effect of the operation on values |
| `AddrManObject.Manager.DeleteEntry` | src/addrman.cpp:123-140 | In place, on the bucket arrays and maps: the deletion has exactly the effect of the operation on values |
| `AddrManObject.Manager.ClearNewSlot` | src/addrman.cpp:142-155 | In place, on the bucket arrays and maps: the clearing of a slot of the array has exactly the effect of the operation on values |
| `AddrManObject.Manager.LeaveAllNew` | src/addrman.cpp:159-166 | In place, on the bucket arrays and maps: the loop over all buckets has exactly the effect of the operation on values |
| `AddrManObject.Manager.EvictTried` | src/addrman.cpp:175-197 | In place, on the bucket arrays and maps: the eviction has exactly the effect of the operation on values |
| `AddrManObject.Manager.MakeEntryTried` | src/addrman.cpp:157-203 | In place, on the bucket arrays and maps: the move to the tried table has exactly the effect of the operation on values |
| `AddrManObject.Manager.MarkGood` | src/addrman.cpp:205-226 | In place, on the bucket arrays and maps: the recording of the times has exactly the effect of the operation on values |
| `AddrManObject.Manager.FindBucket` | src/addrman.cpp:234-244 | In place, on the bucket arrays and maps: the bucket search from a random start has exactly the effect of the operation on values |
| `AddrManObject.Manager.Good_` | src/addrman.cpp:205-255 | In place, on the bucket arrays and maps: the whole operation has exactly the effect of the operation on values |
| `AddrManObject.Manager.Prepare` | src/addrman.cpp:262-304 | In place, on the bucket arrays and maps: the finding or creating of the entry has exactly the effect of the operation on values |
| `AddrManObject.Manager.PlaceEntry` | src/addrman.cpp:306-326 | In place, on the bucket arrays and maps: the placing has exactly the effect of the operation on values |
| `AddrManObject.Manager.Add_` | src/addrman.cpp:257-328 | In place, on the bucket arrays and maps: the whole operation has exactly the effect of the operation on values |
| `AddrManObject.Manager.Attempt_` | src/addrman.cpp:330-350 | In place, on the bucket arrays and maps: the recording of an attempt has exactly the effect of the operation on values |
| `AddrManObject.Manager.Connected_` | src/addrman.cpp:498-516 | In place, on the bucket arrays and maps: the renewing of the time has exactly the effect of the operation on values |
| `AddrManObject.Manager.SetServices_` | src/addrman.cpp:518-534 | In place, on the bucket arrays and maps: the setting of the services has exactly the effect of the operation on values |
| `AddrManObject.Manager.GetAddr_` | src/addrman.cpp:477-496 | As many addresses are handed out as there are entries that are not terrible, up to 23% of all and 2500, each of a different such entry; only the random order changes |
| `AddrManObject.Manager.CheckEntry` | src/addrman.cpp:408-432 | The clauses about one entry, with their codes in order; the index gets the stored address with the id 0 exactly if the look-up is reached and the address is missing |
| `AddrManObject.Manager.CheckTried` | src/addrman.cpp:439-451 | The scan of the tried table finds every slot in order exactly if each holds a tried entry that belongs there, and what it leaves over |
| `AddrManObject.Manager.CheckNew` | src/addrman.cpp:453-464 | The scan of the new table counts the references of every entry down to zero exactly if all counts are right |
| `AddrManObject.Manager.Check_` | src/addrman.cpp:400-474 | The check with its loops returns zero exactly for a state that passes all clauses. On a consistent manager with plausible times and a key it returns -5 if ports are not discriminated and some entry other than 0 has a port, and 0 otherwise; and it changes the index, by keys it inserts, if and only if ports are not discriminated and some entry has a port |
| `RollingBloom.WipeExact` | src/bloom.cpp:350-358 | The masked wipe clears exactly the positions that hold the reused generation number |
| `RollingBloom.MarkStored` | src/bloom.cpp:364-369 | Marking writes the two-bit generation number at one position and nowhere else |
| `RollingBloom.WipeForgets` | src/bloom.cpp:344-359 | Wiping the reused number is forgetting exactly the oldest generation |
| `RollingBloom.ReportedIff` | src/bloom.cpp:379-391 | The exact law of the filter: a key is reported if and only if each of its positions was written by a key of the last three generations |
| `RollingBloom.RecentIsReported` | src/bloom.cpp:342-391 | No key of the last three generations is missed, whatever was inserted since |
| `RollingBloom.LastKeysAreReported` | src/bloom.h:112-122 | Each of the last `nElements` inserted keys is reported |
| `RollingBloomFilter.Filter.Reset` | src/bloom.cpp:399-407 | The words of the filter follow the history of keys: an empty history and new hash functions |
| `RollingBloomFilter.Filter.Wipe` | src/bloom.cpp:350-358 | The words of the filter follow the history of keys: the wipe of one generation in all words |
| `RollingBloomFilter.Filter.Insert` | src/bloom.cpp:342-371 | The words of the filter follow the history of keys: the history with one more key |
| `RollingBloomFilter.Filter.Contains` | src/bloom.cpp:379-391 | The words of the filter follow the history of keys: the exact law for this key |
| `Arith256.AddAssign` | src/arith_uint256.h:135-145 | Addition modulo 2^256 |
| `Arith256.SubAssign` | src/arith_uint256.h:147-151 | Subtraction modulo 2^256 |
| `Arith256.Increment` | src/arith_uint256.h:173-180 | Increment modulo 2^256, with the early stop of the carry |
| `Arith256.Decrement` | src/arith_uint256.h:190-197 | Decrement modulo 2^256, with the early stop of the borrow |
| `Arith256.Complement` | src/arith_uint256.h:69-75 | 2^256 - 1 - x |
| `Arith256.Negate` | src/arith_uint256.h:77-84 | -x modulo 2^256 |
| `Arith256.MulWordAssign` | src/arith_uint256.cpp:56-65 | Product with a 32-bit word modulo 2^256 |
| `Arith256.MulAssign` | src/arith_uint256.cpp:68-81 | Product modulo 2^256 for distinct objects; zero if both operands are the same object |
| `Arith256.SelfProductExact` | src/arith_uint256.cpp:68-81 | `x *= x`, which yields zero, is right if and only if the low 128 bits of x are zero |
| `Shifts256.ShiftLeft` | src/arith_uint256.cpp:22-36 | x * 2^shift modulo 2^256 for every shift |
| `Shifts256.ShiftRight` | src/arith_uint256.cpp:39-53 | floor(x / 2^shift) for every shift |
| `Division256.CompareTo` | src/arith_uint256.cpp:110-119 | The sign is that of the difference |
| `Division256.Bits` | src/arith_uint256.cpp:172-184 | The number of the highest set bit, counted from one; zero for zero |
| `Division256.DivAssign` | src/arith_uint256.cpp:84-107 | Shift-subtract division yields exactly floor(a/b), and an exception if and only if b is zero |
| `Compact.DecodeEncode` | src/arith_uint256.cpp:204-245 | Decoding an encoded number never overflows, keeps the sign and rounds the value down |
| `Compact.RoundedBounds` | src/arith_uint256.cpp:224-245 | The rounding never increases x and loses less than x/2^15 when it is inexact |
| `Compact.RoundedMonotone` | src/arith_uint256.cpp:224-245 | The rounding is monotone |
| `Compact.OverflowExact` | src/arith_uint256.cpp:204-222 | For every compact number, the overflow flag is raised if and only if the number it stands for does not fit into 256 bits |
| `Compact.CompactRoundTrip` | src/arith_uint256.cpp:204-245 | Every target decoded from a non-negative, non-overflowing number re-encodes and decodes to itself |
| `BlockProof.SetCompact` | src/arith_uint256.cpp:204-222 | The limb code decodes as specified, flags included |
| `BlockProof.GetCompact` | src/arith_uint256.cpp:224-245 | The limb code encodes as specified; both of its asserts hold |
| `BlockProof.GetBlockProof` | src/chain.cpp:120-133 | floor(2^256 / (target + 1)) for every usable non-zero target, and zero otherwise |
| `BlockProof.ProofIdentity` | src/chain.cpp:128-132 | The quotient by t + 1 of a number that does not fit, from its complement |
| `BlockProof.TargetBelowMax` | src/chain.cpp:120-127 | target + 1 does not wrap |
| `SkipHeight.InvertDecreases` | src/chain.cpp:70-70 | Clearing the lowest set bit makes a positive number smaller |
| `SkipHeight.SkipHeightBounds` | src/chain.cpp:73-81 | 0 <= skip height < height for every height of at least one |
| `SkipWalk.FromOdd` | src/chain.cpp:90-104 | From an odd height in the upper half of an aligned block to a target in the lower half: at most one turn for each set bit more than from the middle, plus one |
| `SkipWalk.FromEven` | src/chain.cpp:90-104 | The same from an even height, although the walk may take the detour by the skip link of the block before |
| `SkipWalk.TurnsBound` | src/chain.cpp:73-107 | The walk from any height below 2^k to any lower one takes at most k(k+1)/2 turns, so at most 171 below 2^18 |
| `Chain.BlockIndex.GetAncestor` | src/chain.cpp:83-107 | Following skip links yields the same block as walking the parents, for every height and tree; with all skip links built, in exactly the turns counted by `SkipWalk.Turns`, at most k(k+1)/2 from a height below 2^k |
| `Chain.BlockIndex.BuildSkip` | src/chain.cpp:114-118 | The skip link is the ancestor at the skip height, and the block satisfies what `GetAncestor` relies on, for the result and for the number of turns |
| `Chain.AncestorOfAncestor` | src/chain.cpp:83-107 | An ancestor of an ancestor is the ancestor |
| `Chain.ActiveChain.SetTip` | src/chain.cpp:11-21 | The early stop is sound: afterwards entry i is the new tip's ancestor at height i, for all i |
| `Chain.SharedPrefix` | src/chain.cpp:11-21 | Two chains that share a block share everything below it |
| `Chain.ActiveChain.FindFork` | src/chain.cpp:51-60 | The highest block of the chain that is the given block or an ancestor of it |
| `Chain.GetLocator` | src/chain.cpp:23-49 | Strictly descending ancestors of the start; the k-th is k blocks below it up to the tenth, then 9 + 2^(k-10) blocks, and the last is genesis; at most twelve plus log2 of the height |
| `Chain.LocatorLength` | src/chain.cpp:23-49 | The bound on the length |
| `Chain.TimeMaxMonotone` | src/chain.cpp:62-67 | Time maxima do not decrease along a chain |
| `Chain.FindEarliestAtLeast` | src/chain.cpp:62-67 | Binary search finds the first block of the chain whose time maximum reaches the given time |
| `Cuckoo.Cache.Contains` | src/cuckoocache.h:443-452 | A non-default element is found exactly if it is in the table, that is, if it was inserted and not dropped since; with `erase` exactly its slot becomes garbage |
| `Cuckoo.Cache.EpochCheck` | src/cuckoocache.h:264-296 | Exactly the old entries become garbage and the recent ones old, when the countdown is over and enough recent entries are live; the new countdown otherwise |
| `Cuckoo.Cache.Refresh` | src/cuckoocache.h:374-381 | An element already there is only marked live and recent |
| `Cuckoo.Cache.TryPlace` | src/cuckoocache.h:383-391 | The first garbage location of the element in hand is taken, or all eight hold live entries |
| `Cuckoo.Cache.NextLoc` | src/cuckoocache.h:406-406 | The location after the last one, cyclically; at first the second one |
| `Cuckoo.Cache.Displace` | src/cuckoocache.h:406-411 | One swap exchanges the element in hand with one live entry and keeps every entry at a location of its own |
| `Cuckoo.LiveReplace` | src/cuckoocache.h:368-416 | How replacing an entry changes in how many slots each element is live |
| `Cuckoo.AccountsNext` | src/cuckoocache.h:355-416 | An insert that exchanges one entry keeps the account of what was inserted and what was dropped |
| `Cuckoo.Cache.InsertNew` | src/cuckoocache.h:382-416 | For every displacement sequence: the table gains the new element and loses one entry, which was garbage if a slot was found and otherwise is the one left in hand |
| `Cuckoo.Cache.Insert` | src/cuckoocache.h:368-416 | The old entries become garbage exactly when the aging is due; then a new element changes the table by dropping one entry of old contents plus new element; entries keep sitting at their own locations, once each; over any sequence of calls the table holds exactly what was inserted and not dropped since |
| `Radix.MulAdd` | src/base58.cpp:43-51 | Multiplying a digit buffer in place and adding a digit is exact whenever the result fits; then the carry at the end is zero |
| `Radix.DigitsSuffice` | src/base58.cpp:33-34 | From one pair of powers to the number of digits that suffices for all lengths |
| `Radix.ValueDigits` | src/base58.cpp:59-62 | A digit string without leading zero is the shortest digit string of its value |
| `Base58.Alphabet` | src/base58.cpp:18-19 | The alphabet is the digits and letters except 0, I, O and l, each once, and holds no space |
| `Base58.EncodeFits` | src/base58.cpp:80-81 | The 138/100 buffer is big enough for every length |
| `Base58.DecodeFits` | src/base58.cpp:33-34 | The 733/1000 buffer is big enough for every length |
| `Base58.RebaseBack` | src/base58.cpp:21-109 | Rewriting digits in another radix and back is the identity, leading zeroes included |
| `Base58.DecodeEncode` | src/base58.cpp:21-109 | Decoding an encoded byte string yields it, for every byte string |
| `Base58.EncodeDecode` | src/base58.cpp:21-109 | Encoding a decoded text yields it, for every text of alphabet characters |
| `Base58.ReadDigits` | src/base58.cpp:36-53 | Characters up to a space are accumulated; the carry assertion holds at every character |
| `Base58.DecodeBase58` | src/base58.cpp:21-69 | The loops compute the decoding: nothing exactly if something but alphabet characters is left after trimming |
| `Base58.ToDigits` | src/base58.cpp:80-97 | The digit loop; the carry assertion holds at every byte |
| `Base58.EncodeBase58` | src/base58.cpp:71-109 | The loops compute the encoding |
| `CompactBlocks.RequestRoundTrip` | src/blockencodings.h:38-68 | A request of 16-bit indexes survives the wire if and only if the indexes strictly increase |
| `CompactBlocks.UnwireIncreases` | src/blockencodings.h:55-61 | The indexes read strictly increase if and only if none but the last is 65535, after which the 16-bit offset wraps |
| `CompactBlocks.WriteIndexes` | src/blockencodings.h:63-66 | The write loop |
| `CompactBlocks.ReadIndexes` | src/blockencodings.h:43-61 | Reading and the in-place accumulation, with both overflow exceptions |
| `CompactBlocks.Place` | src/blockencodings.cpp:60-76 | The prefilled transactions land at strictly increasing places inside the block, or the message is invalid, exactly by the stated conditions |
| `CompactBlocks.OpenCount` | src/blockencodings.cpp:58-87 | As many positions stay open as there are short ids |
| `CompactBlocks.EndsExact` | src/blockencodings.cpp:83-87 | For an accepted message with short ids there is an open position that 16 bits can name if and only if not exactly 65536 transactions are prefilled |
| `CompactBlocks.EndlessExact` | src/blockencodings.cpp:85-86 | The scan for the first short id finds a taken slot at every test of its 16-bit offset, and so never ends, if and only if exactly 65536 transactions are prefilled |
| `PartialBlock.EndlessMessage` | src/blockencodings.cpp:50-87 | Such a message exists that passes all tests before the scan |
| `CompactBlocks.PositionsExact` | src/blockencodings.cpp:82-87 | The 16-bit positions kept are right if and only if the block has at most 65536 transactions |
| `CompactBlocks.NextOpen` | src/blockencodings.cpp:85-86 | The scan stays in range, its offset does not wrap, and it stops at the next open position |
| `CompactBlocks.Scan` | src/blockencodings.cpp:82-104 | The i-th short id gets the i-th open position modulo 2^16; it fails exactly on a repeated short id or a crowded bucket |
| `PartialBlock.OfferInv` | src/blockencodings.cpp:110-158 | Each transaction offered from pool or extra list leaves exactly the slots, flags and count the offers so far make: the first offer, nothing if offers clash, the prefilled transaction if there is no offer |
| `PartialBlock.EarlyStopExact` | src/blockencodings.cpp:128-132 | Stopping early leaves the slots that offering everything would leave if and only if no later entry clashes at a slot that holds a transaction |
| `PartialBlock.EarlyStopDiffers` | src/blockencodings.cpp:114-132 | The failing input: two transactions of the pool with the only short id |
| `PartialBlock.MatchPool` | src/blockencodings.cpp:106-134 | The loop over the pool stops after the first entry with which all short ids are matched, and leaves exactly what the offers up to there make |
| `PartialBlock.MatchExtra` | src/blockencodings.cpp:136-165 | The same for the loop over the extra transactions |
| `PartialBlock.SlotsRight` | src/blockencodings.cpp:50-170 | Without short id collisions every filled slot holds the block's transaction |
| `PartialBlock.OfferedIsHeld` | src/blockencodings.cpp:106-165 | And every transaction of the block that is on offer is held, although the loops may stop early |
| `PartialBlock.Reconstruct` | src/blockencodings.cpp:50-200 | Without short id collisions, filling the open slots in order with the block's own transactions rebuilds the block |
| `PartialBlock.Exchange` | src/blockencodings.cpp:20-200 | A whole exchange: a block is announced, the receiver fills what it can and asks over the wire for the rest; without short id collisions, in a block of at most 65536 transactions, every announcement that passes the stated tests ends with exactly the announced transactions |
| `PartialBlock.MissingIndexes` | src/net_processing.cpp:2484-2488 | The indexes of the open positions, in order, cut to 16 bits |
| `PartialBlock.SendBlockTransactions` | src/net_processing.cpp:1409-1422 | The transactions at the indexes, or no answer exactly if one is out of range |
| `PartialBlock.AskFor` | src/blockencodings.h:38-68 | In a block of at most 65536 transactions the request survives the wire, and the answer is the block's transactions at the open positions |
| `PartialBlock.AnnounceDescribes` | src/blockencodings.cpp:20-30 | The message the constructor builds describes its block and is accepted |
| `PartialBlock.Announce` | src/blockencodings.cpp:20-30 | The coinbase whole, the others by short id, in order |
| `PartialBlock.PartiallyDownloadedBlock.InitData` | src/blockencodings.cpp:50-170 | Which status for which message, and on success the exact slots and count: those the prefilled transactions and the offers made before the loops stopped make |
| `PartialBlock.PartiallyDownloadedBlock.IsTxAvailable` | src/blockencodings.cpp:172-176 | Whether the position is not among the open ones |
| `PartialBlock.PartiallyDownloadedBlock.FillBlock` | src/blockencodings.cpp:178-219 | Accepted exactly with as many transactions as there are open slots; the result holds them in order; what the object is left with in each case |
| `DbOverlay.WriteMeaning` | src/dbwrapper.h:614-628 | A write keeps `memoryUsage` exact and changes the view at its key only |
| `DbOverlay.EraseMeaning` | src/dbwrapper.h:676-685 | The same for an erase |
| `DbOverlay.ReadMeaning` | src/dbwrapper.h:635-652 | Reading through transactions of any depth is looking at the view |
| `DbOverlay.ApplyMeaning` | src/dbwrapper.h:693-701 | A batch of deletes and writes, applied to a store or to another transaction, has the view and exact usage it should |
| `DbOverlay.CommitMeaning` | src/dbwrapper.h:693-701 | Reads before a commit equal reads after it, in the transaction and in its parent |
| `DbOverlay.UsageNonNegative` | src/dbwrapper.h:707-718 | `memoryUsage` is never negative: the guard is dead |
| `DbOverlay.CleanExact` | src/dbwrapper.h:703-705 | There are no pending changes if and only if every store below would be shown as it is: an erased key counts, although it may be missing below anyway |
| `DbOverlay.RunRefines` | src/dbwrapper.h:614-701 | Every run of writes, erases, commits and clears of one transaction refines a pair of plain maps, committed and current |
| `DbRuns.StepRefines` | src/dbwrapper.h:614-701 | An operation at any level of a stack is followed by one map of pending changes per level; all memory counters stay exact |
| `DbRuns.StepShown` | src/dbwrapper.h:614-701 | What an operation at one level does to what every other level shows: nothing below, except that a commit makes the next level show the same; above, a commit nothing, a write or erase its key where nothing is pending in between |
| `DbRuns.RunRefines` | src/dbwrapper.h:614-701 | In every run with operations at all levels, and transactions that begin and end, every level at every moment reads as the maps of pending changes say |
| `DbTransaction.Transaction.Write` | src/dbwrapper.h:614-628 | In place: the write |
| `DbTransaction.Transaction.Erase` | src/dbwrapper.h:676-685 | In place: the erase |
| `DbTransaction.Transaction.Clear` | src/dbwrapper.h:687-691 | In place: the clear |
| `DbTransaction.Transaction.Commit` | src/dbwrapper.h:693-701 | In place: the commit into the store below, whatever the order of the keys |
| `DbTransaction.Transaction.ReadValue` | src/dbwrapper.h:635-652 | The value the view shows |
| `DbTransaction.Transaction.Exists` | src/dbwrapper.h:659-669 | Whether the view shows the key |
| `DbTransaction.Transaction.IsClean` | src/dbwrapper.h:703-705 | True exactly if the transaction would show every store below it as it is; then a commit changes nothing and the memory counter is zero |
| `DbTransaction.Transaction.GetMemoryUsage` | src/dbwrapper.h:707-718 | The exact sum of the sizes of pending changes |
| `DbIterator.LessTotal` | src/dbwrapper.h:561-570 | Byte-wise comparison of keys is a strict total order |
| `DbIterator.CurrentLeast` | src/dbwrapper.h:537-549 | The current key is the least of those still to come |
| `DbIterator.TraceExact` | src/dbwrapper.h:427-463 | Stepping from any position shows each key still to come once, in byte order, and no other |
| `DbIterator.ShownIsView` | src/dbwrapper.h:427-463 | The keys of the merging iterator are those the transaction shows |
| `DbIterator.Walk` | src/dbwrapper.h:427-524 | Seeking a key and stepping to the end yields exactly the keys the transaction shows from there on, once each in byte order, each with the value it shows |
| `DbIterator.TransactionIterator.SeekToFirst` | src/dbwrapper.h:427-432 | The merging iterator moves exactly as a plain iterator over all shown keys: to the first key |
| `DbIterator.TransactionIterator.Seek` | src/dbwrapper.h:439-444 | The merging iterator moves exactly as a plain iterator over all shown keys: to the first key not below the given one |
| `DbIterator.TransactionIterator.Next` | src/dbwrapper.h:450-463 | The merging iterator moves exactly as a plain iterator over all shown keys: to the next key |
| `DbIterator.TransactionIterator.SkipDeletedAndOverwritten` | src/dbwrapper.h:527-535 | The skip loop passes over exactly the hidden keys below |
| `DbIterator.TransactionIterator.DecideCur` | src/dbwrapper.h:537-549 | The smaller of the two positions becomes the current one |
| `DbIterator.TransactionIterator.GetKey` | src/dbwrapper.h:492-501 | The least key still to come, or an empty key past the end |
| `DbIterator.TransactionIterator.GetValue` | src/dbwrapper.h:514-524 | The value at the current key is the one the transaction shows |
| `Governance.BestIsMax` | src/governance-object.cpp:156-178 | The recorded rank is the lexicographic maximum by timestamp and outcome of the accepted votes and the start |
| `Governance.ProcessRecord` | src/governance-object.cpp:104-226 | One vote changes the record to the maximum, and is accepted exactly if it is new, counted, valid and not outranked |
| `Governance.RunRight` | src/governance-object.cpp:104-226 | After every run of votes the record of every masternode and signal is that maximum, the vote file holds only accepted votes with the recorded timestamp, once each, and every vote with the recorded rank |
| `Governance.VotesConverge` | src/governance-object.cpp:618-655 | Any two arrivals of the same votes, in any order and with repetitions, give equal records and equal tallies for every outcome |
| `Governance.FilesConverge` | src/governance-votedb.cpp:23-33 | The vote file, unlike the tallies, is the same for every order of arrival if and only if no masternode has two accepted votes with its last timestamp and different outcomes on a signal |
| `Governance.OrderMatters` | src/governance-votedb.cpp:23-33 | For every such pair two orders of the same votes after which the files differ |
| `Governance.ProcessFits` | src/governance-votedb.cpp:95-111 | With or without rate checks, all votes kept for a masternode and signal carry the recorded timestamp |
| `Governance.ClearFits` | src/governance-object.cpp:228-243 | Clearing departed masternodes keeps this |
| `GovernanceRuns.NextMatches` | src/governance-object.cpp:104-243 | Votes, clearing and index rebuilding keep: each record beyond the start is the highest ranking vote in the file of its masternode and signal, whose votes there all carry its timestamp, once each |
| `GovernanceRuns.RunMatches` | src/governance-object.cpp:104-243 | That holds in every state of every run, under changing masternodes, validity and rate checks; and rebuilding the index loses no vote |
| `GovernanceObject.VoteFile.AddVote` | src/governance-votedb.cpp:23-33 | In place: the new vote in front, obsolete ones gone; list, index and count stay in step |
| `GovernanceObject.VoteFile.HasVote` | src/governance-votedb.cpp:35-38 | The index answers for the list |
| `GovernanceObject.VoteFile.RemoveVotes` | src/governance-votedb.cpp:95-111 | The loop that erases while iterating removes exactly the votes it is meant to, in order; list, index and count stay in step |
| `GovernanceObject.VoteFile.RebuildIndex` | src/governance-votedb.cpp:113-129 | The first vote with each hash stays; list, index and count agree afterwards |
| `GovernanceObject.DistinctHas` | src/governance-votedb.cpp:113-129 | No hash is lost by that |
| `GovernanceObject.Object.ProcessVote` | src/governance-object.cpp:104-226 | In place: records, vote file and outcome, for every branch |
| `GovernanceObject.Object.ClearMasternodeVotes` | src/governance-object.cpp:228-243 | Exactly the records and votes of unknown masternodes go |
| `GovernanceObject.Object.CountMatchingVotes` | src/governance-object.cpp:618-631 | The number of masternodes whose record on the signal has the outcome |
| `GovernanceObject.Object.GetAbsoluteYesCount` | src/governance-object.cpp:637-640 | Yes votes less no votes |

## Left out

- Network relay, RPC, files, logging, user interface, wallet and start-up: input and output only.
- Cryptography, hash functions and signatures: taken as functions or as validity of a vote, block or transaction.
- Machine integers: counters and sizes are unbounded, except where their width matters (256-bit limbs, 64-bit filter words,
  16-bit indexes and offsets, 64-bit wire numbers). `int` sizes in Base58 are exact for texts below 2^31 characters only.
- Locks: methods of the object layers model the code between taking and releasing the mutex; the interleavings of the check
  queue are modelled, those of other components are not.
- Coins: scripts and amounts, except the heap memory that the usage counter adds up; the batching of database writes.
- InstantSend: expiry after confirmation, until which locks are permanent; local voting, the orphan spam times, the map of all seen votes; a vote's
  identity is its contents; one reading of the clock per message; the list of rejected requests. Candidates marked
  expired by a conflict are removed; whether a clean-up removes them yet is a parameter.
- Check queue: the destructor and `fQuit`, which nothing sets; notifications to workers are covered by spurious wake-ups.
- Address manager: `Select_`, which ends only with probability one and changes nothing; serialization, which uses other keys.
- Rolling filter: the sizing in floating point; sizes are parameters.
- Chain: the block index map, the validity flags and `GetBlockProofEquivalentTime`.
- Cuckoo cache: concurrent erasure and the bit packing of flags; the sizing of the table.
- Base58: checksums and address formats; texts are C strings, without zero characters.
- Compact blocks: the byte encoding of numbers and transactions; the count of transactions from the extra list, which is
  only logged; `CheckBlock` is a parameter; the contents of the slots after a message was refused.
- PartialBlock.PartiallyDownloadedBlock.InitData: assumes the free-slot scan ends, which `CompactBlocks.EndlessExact` shows
  to exclude exactly messages with 65536 prefilled transactions and some short id.
- Database transactions: typed values and the exception for reading another type; a commit target other than the parent;
  changes to the transaction while an iterator is in use. An iterator below is a plain iterator over its keys, which by the
  theorems covers iterators of other transactions.
- Governance: orphan votes, revalidation, the vote count in the metadata manager, superblocks and triggers; all votes are on
  one object.
