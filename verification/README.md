# Vexta Core in Dafny

A model of the parts of Vexta Core, a node derived from Bitcoin and DigiByte, whose correctness does not show in any
single branch: caches and tables that keep redundant state, a locking protocol, greedy selection over a graph, codecs,
and fixed-width arithmetic that decides chain work. Each part is a specification on values, the source's in-place code
proved against it, and theorems about every input or every run.

`dafny verify dfyconfig.toml` checks the whole project.

## Parts

- **Coins cache** (`Coins`). A stack of write-back caches of any depth over a database. `RunRefines`: after any legal
  run every level shows what a plain map with the same updates shows, and the DIRTY/FRESH rules hold at every level.
- **Check queue** (`CheckQueue`). One master and any number of workers as interleaved atomic steps under one mutex and
  two condition variables, with spurious wake-ups. `WaitIsExact`: each return of `Wait` is the conjunction of the checks
  passed to `Add` since the one before; `NoLostWakeup`, `Progress`, `WaitIsBounded`.
- **Address manager** (`AddrMan`, `AddrManager`, `AddrManCheck`, `AddrManClear`, `AddrManEffects`, `AddrManResolve`).
  Five redundant structures, reference counts and pending collisions. `RunKeeps`: every run keeps everything the
  self-check tests; `Check`: the self-check decides exactly that; `CollisionHasVictim`: no lookup of a missing id;
  `ResolveIs`: who is replaced in the tried table, and who has to wait.
- **Block assembly** (`BlockAssembler`, `Miner`, `FeeFloor`, `FloorRun`). `AddPackageTxs`: greedy selection with stale
  totals still yields an ordered, ancestor-closed block within its limits; every candidate taken was the best one left
  and pays the floor, and every transaction not taken has a reason.
- **Partial Merkle tree** (`PartialMerkleTree`, `MerkleBlock`, `MerkleSize`, `ReceivedTree`; section "Partial Merkle
  branch format" of BIP 37). `ExtractionSound` against arbitrary data, with an explicit hash collision as the only way
  out; `InjectiveComplete` for the way from building over bytes to extraction; `AcceptedExactly`: which data are
  accepted; `RepeatedRefused`: none with a match among repeated transactions.
- **Cuckoo cache** (`CuckooCache`, `CuckooLive`, `CuckooTable`). Conservation of elements, occupancy bound over every
  run (`AlwaysCollectable`), membership.
- **256-bit arithmetic and chain work** (`Limbs`, `LimbOps`, `LimbShifts`, `ArithUint256`, `CompactTarget`, `Powers`,
  `NthRoot`, `ChainWork`, `GeometricMean`). The eight-limb operators refine arithmetic modulo 2^256, including
  shift-and-subtract division; the compact target format; the n-th root; the geometric-mean work and its overflow-free
  scaling.
- **Block index** (`SkipList`, `BlockChain`). Skip pointers and the length of the walk along them (`LogSquared`,
  `StepsFromPower`), the active chain, fork finding.
- **Rolling Bloom filter** (`RollingBloom`). Two bit planes refine a map from positions to last-touch generations;
  `Contains` is exact in terms of the keys inserted.
- **Bech32 and Bech32m** (`PolyMod`, `Gf32`, `Bech32`, `Bech32Codec`, `Bech32Burst`, `Bech32Exact`; section "Bech32" of
  BIP 173, section "Bech32m" of BIP 350) and **Base58** (`Radix`, `Base58`, `Base58Codec`). Exactly which strings decode
  to what (`DecodesExactly`), round trips, burst detection, buffer sizes.

In-place code is a class with the source's fields or a method with the source's loops. A class method states its new
state as a function of the old one; the theorems are about that function. Products are hidden behind `Limbs.Mul` and
words behind sequences of bits where the solver needs it.

Hashes, random numbers, the clock, which addresses are routable and the next required difficulty are parameters, so the
theorems hold for all of them. The mempool is given with exact ancestor sets, counts and totals, and at most four weight
units a byte.

## Where code and documentation disagree

The model follows the code.

- The cuckoo cache starts displacing at the second location (`FirstDisplaced`); the comment in src/cuckoocache.h:419-420
  says the first.
- The collection flags of the cuckoo cache have room for every slot only while size + 7 < 2^32 (`FlagsSuffice`), and the
  epoch is 45% of the slots only below 95443718 of them (`EpochSizeIs`), where 45 * size starts to wrap; the occupancy
  bound holds all the same (`BoundFits`).
- The bound of 2N-1 flag bits in src/merkleblock.h:52 fails; `FlagBits` gives the exact condition, `FiveLeaves` a case.
  So does the bound on the serialized size in src/merkleblock.h:38, by one byte in `SizeExceeded`; `SizeBound` gives
  the exact condition.
- A flush writes a null hash over the parent's best block; `FlushBestBlock` says exactly when that is harmless, and
  `FlushForgetsBestBlock` is a case where it is not.
- `AddCoin` on its throwing path leaves the memory count short by the heap bytes of the coin it would have replaced,
  which are none for scripts of up to 28 bytes; `AddUsage` is the exact condition, `AddLosesUsage` a case.
- A true result of `Add_` does not mean the address stayed: its entry is deleted at once unless the slot had room
  (`AddedStays`, exactly); `AddedIsGone` is a case.
- `Clear` keeps the pending collisions of the old tables, under ids that are given out again. `ReusedIdHasNoVictim`:
  every pending id comes back without a tried entry to collide with; `VictimsAfterClear`: runs that give the ids out
  again stay sound if and only if none was pending.
- The candidate below the fee floor has the best score, but not always the best package feerate, so the comment in
  src/miner.cpp:380 that everything else has a lower fee rate fails; `LowerRateLeft` says exactly for which candidates
  it holds, `AddPackageTxs` ends with it for those, and `EndsWithEmptyBlock` is a case where it does not hold.
- A modified fee total is not always that of what is left: the first ancestor included is subtracted with its modified
  fee and every later one with its base fee. `ModifiedFees` gives the total of every run and when it is exact: if and
  only if the priority changes of the later ones cancel. `StaleFees` is a case where they do not.
- The skip list is called O(log n) in src/chain.cpp:78. The walk takes at most the square of the number of bits
  (`LogSquared`) and needs about a quarter of that from a power of two (`StepsFromPower`), so no multiple of the number
  of bits bounds it (`NotLogarithmic`).
- The zero test on the average target in src/chain.cpp:282-284 (`MeanWithinLimit`) and the scan for zeros in
  src/base58.cpp:117-118 (asserted in `ToBase58`) never find anything.

## Model

| member | source | states |
|---|---|---|
| `Coins.FetchCorrect` | src/coins.cpp:41-56 | fetching changes no level's view, keeps the flag invariant at every level, and leaves an entry at the top exactly if one was there or the view has the coin |
| `Coins.GetUnspent` | src/coins.cpp:58-65 | a view of any depth never hands out a spent coin |
| `Coins.FetchedIsClean` | src/coins.cpp:41-56 | a coin read from below is entered as it is, neither DIRTY nor FRESH |
| `Coins.FetchRepresents` | src/coins.cpp:41-56 | after a fetch every level still shows its own plain outpoint-to-coin map |
| `Coins.AddCorrect` | src/coins.cpp:67-99 | a legal add (unspent coin, and no unspent coin in the view unless overwriting is allowed) never throws, changes the view at that outpoint only, not at all for an unspendable coin, and keeps the invariant, although FRESH is decided from this level alone |
| `Coins.AddUsage` | src/coins.cpp:67-99 | after any add the memory count is exact if and only if the add did not throw over an entry whose script is on the heap; a throwing add leaves the entries alone |
| `Coins.AddLosesUsage` | src/coins.cpp:76-89 | a coin added twice: the count drops to 0 while 48 bytes are in use |
| `Coins.SpendCorrect` | src/coins.cpp:120-134 | spending removes exactly that coin from the view and keeps the invariant, whether the entry is erased (FRESH) or kept as a dirty tombstone |
| `Coins.UncacheCorrect` | src/coins.cpp:230-237 | uncaching never changes the view; afterwards the entry is there exactly if it was and is DIRTY or FRESH, and every other one stays |
| `Coins.SpendAdded` | src/coins.cpp:67-134 | a coin spent right after it was added leaves no entry, hence nothing to flush, exactly if the entry was FRESH before, or was not DIRTY and no overwrite was possible |
| `Coins.FlushCorrect` | src/coins.cpp:167-228 | with the invariant no entry is misapplied; flushing makes the parent show exactly what the child showed, the child's own view stays, and the invariant holds at every level |
| `Coins.FlushEntries` | src/coins.cpp:167-216 | entry by entry, what the parent holds after a flush: written entries are DIRTY and FRESH only if the parent had the entry FRESH or had none and the child had, one spent where the parent had it FRESH is gone, the others stay |
| `Coins.MisappliedIs` | src/coins.cpp:190-197 | the error is raised exactly where an entry claims FRESH and the cache below shows a coin |
| `Coins.FlushBestBlock` | src/coins.cpp:157-228 | after a flush the parent reports the child's best block if and only if the child knows a hash, or the parent has none, or the parent agrees with its own parent: a null hash overwrites the parent's |
| `Coins.FlushForgetsBestBlock` | src/coins.cpp:167-228 | a concrete stack whose best block is lost by a flush |
| `Coins.GetBestCorrect` | src/coins.cpp:157-161 | reading the best block stores it at the top and on the way, and changes no view and no answer |
| `Coins.StepRefines` | src/coins.h:89-133 | one legal operation on a stack is the same operation on one plain map per level, and keeps at every level: only valid flag combinations, not DIRTY implies equal to the parent view, FRESH implies no unspent coin in the parent view, exact memory count |
| `Coins.RunRefines` | src/coins.cpp:41-237 | any legal run of fetch, add, spend, uncache, best-block, push and flush on a stack of any depth refines the plain maps and keeps that invariant |
| `Coins.CoinsDb.BatchWrite` | src/txdb.cpp:84-142 | the database applies exactly the DIRTY entries, erasing the spent ones, and takes the hash |
| `Coins.CoinsViewCache.constructor` | src/coins.cpp:35-35 | a new level is empty, with a null hash, over the given base |
| `Coins.CoinsViewCache.BaseGetCoin` | src/coins.cpp:26-26 | asking the base returns its view of the coin, and fetches there as well |
| `Coins.CoinsViewCache.FetchCoin` | src/coins.cpp:41-56 | the linked caches change as the fetch of the stack they represent |
| `Coins.CoinsViewCache.GetCoin` | src/coins.cpp:58-65 | the returned coin is that of the view, found exactly if it is unspent there |
| `Coins.CoinsViewCache.HaveCoin` | src/coins.cpp:147-150 | true exactly if the view has the coin unspent |
| `Coins.CoinsViewCache.AddCoin` | src/coins.cpp:67-99 | the new state; for a spendable coin it throws exactly if overwriting is not allowed and an unspent entry is present; from a state with the invariant the memory count is exact afterwards if and only if it did not throw or the replaced coin uses no heap |
| `Coins.CoinsViewCache.SpendCoin` | src/coins.cpp:120-134 | the new state, the return value and the moved-out coin, which is that of the view if it has one; also for an entry already spent |
| `Coins.CoinsViewCache.Uncache` | src/coins.cpp:230-237 | removes the entry only if it carries no flag |
| `Coins.CoinsViewCache.GetBestBlock` | src/coins.cpp:157-161 | the nearest known hash down the stack |
| `Coins.CoinsViewCache.SetBestBlock` | src/coins.cpp:163-165 | sets this level's hash and nothing else |
| `Coins.CoinsViewCache.WriteEntry` | src/coins.cpp:168-216 | one entry of the child merged into this cache: fails exactly on a misapplied FRESH flag, touches no other outpoint, and keeps the memory count exact |
| `Coins.CoinsViewCache.WriteEntries` | src/coins.cpp:168-216 | the loop over all entries, in any order, is the merge of the two maps, and fails exactly if some entry is misapplied |
| `Coins.CoinsViewCache.BatchWrite` | src/coins.cpp:167-221 | merge plus hash |
| `Coins.CoinsViewCache.Flush` | src/coins.cpp:223-228 | never throws from a state with the invariant, and is the flush of the represented stack |
| `Coins.AddCoins` | src/coins.cpp:109-118 | every output that its script lets be spent is then in the view with its amount and script, the given height and whether the transaction is a coinbase; nothing else in the view changes |
| `CheckQueue.BatchLength` | src/checkqueue.h:108-113 | a batch is never empty, never longer than the queue and never over the batch size |
| `CheckQueue.BatchIsShare` | src/checkqueue.h:108-113 | a batch of more than one times the threads counted is at most the queue, and one more would not be, unless the batch size is reached |
| `CheckQueue.PoppedConserves` | src/checkqueue.h:114-120 | popping a batch neither loses nor duplicates a check |
| `CheckQueue.InitInv` | src/checkqueue.h:136-158 | the initial state satisfies the protocol invariant |
| `CheckQueue.HeadKeepsInv` | src/checkqueue.h:90-123 | the part of the critical section after clean-up (sleep, return or take a batch) keeps the invariant |
| `CheckQueue.EnteredAtHead` | src/checkqueue.h:86-90 | so does a thread's first pass |
| `CheckQueue.WokenAtHead` | src/checkqueue.h:100-102 | so does a thread that wakes up, notified or spuriously |
| `CheckQueue.CleanedUpAtHead` | src/checkqueue.h:80-86 | so does the clean-up after a batch |
| `CheckQueue.EvaluatedKeepsInv` | src/checkqueue.h:124-128 | so does evaluating or skipping one check outside the lock |
| `CheckQueue.AddedKeepsInv` | src/checkqueue.h:167-179 | so does adding checks, with either kind of notification |
| `CheckQueue.AddedNotifies` | src/checkqueue.h:175-178 | adding one check notifies one blocked worker if there is any, adding more all of them, and never the master |
| `CheckQueue.StepRecords` | src/checkqueue.h:69-179 | one step records exactly what a caller sees of it: checks passed to Add, or a return of Wait with the checks passed since the one before |
| `CheckQueue.RunRecords` | src/checkqueue.h:69-179 | so does every run |
| `CheckQueue.GroupsAreAll` | src/checkqueue.h:161-179 | splitting the checks passed to Add at the returns of Wait loses and adds none |
| `CheckQueue.NextKeepsInv` | src/checkqueue.h:69-179 | every atomic step of any thread keeps the invariant |
| `CheckQueue.RunKeepsInv` | src/checkqueue.h:69-179 | so does every interleaving of one master and any number of workers |
| `CheckQueue.WaitIsExact` | src/checkqueue.h:161-179 | in every run the k-th return of Wait is true if and only if every check passed to Add since the return before evaluates to true, although checks are skipped after a failure; these groups and the checks since the last return are all the checks of the run; nTodo equals the queue plus all in-flight batches |
| `CheckQueue.NoLostWakeup` | src/checkqueue.h:80-103 | whenever the master sleeps un-notified the queue is empty and some worker holds an unfinished batch |
| `CheckQueue.LastWorkerNotifies` | src/checkqueue.h:80-86 | a worker's clean-up notifies the sleeping master if and only if it brings nTodo to zero |
| `CheckQueue.StepMeasure` | src/checkqueue.h:69-130 | while the master waits, every productive step decreases a measure and no step increases it |
| `CheckQueue.Progress` | src/checkqueue.h:69-130 | while the master waits, some productive step is enabled: no deadlock |
| `CheckQueue.WaitIsBounded` | src/checkqueue.h:161-164 | the number of productive steps before Wait returns is bounded in every schedule |
| `CheckQueue.TakeBatch` | src/checkqueue.h:114-120 | the swap-and-pop loop moves exactly the last n checks |
| `CheckQueue.RunBatch` | src/checkqueue.h:125-128 | the verdict is the conjunction over the batch, and no check is called after the first failure |
| `AddrMan.SwapRandomKeeps` | src/addrman.cpp:142-162 | swapping two positions keeps every condition of the self-check |
| `AddrMan.DeleteKeeps` | src/addrman.cpp:164-178 | deleting an unreferenced new entry removes it from all indexes, keeps the rest consistent and every other entry |
| `AddrMan.ClearNewKeeps` | src/addrman.cpp:180-195 | clearing a slot drops one reference, and with its last one the entry; the other slots and entries stay |
| `AddrMan.AddRefKeeps` | src/addrman.cpp:377-380 | entering a slot adds one reference and keeps slots, counts and hash positions consistent |
| `AddrMan.StripKeeps` | src/addrman.cpp:201-211 | removing an entry from all its new buckets leaves it, and only it, without references |
| `AddrMan.AnnounceKeeps` | src/addrman.cpp:359-364 | a newly created entry is consistent but for its missing reference |
| `AddrMan.DemoteKeeps` | src/addrman.cpp:218-239 | moving a tried entry back to an empty new slot keeps consistency |
| `AddrMan.PlaceKeeps` | src/addrman.cpp:240-244 | placing an entry in its empty tried slot keeps consistency |
| `AddrMan.MakeSpaceKeeps` | src/addrman.cpp:217-239 | evicting the occupant of the tried slot empties that slot only |
| `AddrMan.MakeTriedKeeps` | src/addrman.cpp:197-245 | the entry ends up tried in its own slot, the evicted one is new again, no other tried slot changes, and every condition holds again |
| `AddrMan.BucketIsFound` | src/addrman.cpp:278-293 | an entry that is not tried is found in some new bucket, so the search in Good_ always succeeds |
| `AddrMan.GoodKeeps` | src/addrman.cpp:247-313 | Good_ keeps consistency and empties no tried slot, with and without test-before-evict |
| `AddrMan.InsertKeeps` | src/addrman.cpp:366-386 | filling, replacing or refusing the hash-chosen slot keeps consistency, including deletion of an entry left without references |
| `AddrMan.RefreshedKeeps` | src/addrman.cpp:331-339 | updating time and services of a known entry |
| `AddrMan.AddKeeps` | src/addrman.cpp:315-388 | Add_ keeps consistency and empties no tried slot |
| `AddrMan.AddKeepsTables` | src/addrman.cpp:315-388 | it keeps the tables consistent whatever is pending, and touches neither the pending collisions nor the tried table |
| `AddrMan.AddedStays` | src/addrman.cpp:359-387 | a routable address that was not known is there after Add_ if and only if its new slot was free, or held a terrible entry or one with more than one reference |
| `AddrMan.KnownStays` | src/addrman.cpp:331-387 | an address that was known is still there after Add_ |
| `AddrMan.AddedIsGone` | src/addrman.cpp:377-387 | after a run from the empty manager, an address with the same new slot as the one before it is reported as new and is gone |
| `AddrMan.AttemptKeeps` | src/addrman.cpp:390-412 | Attempt_ keeps consistency |
| `AddrMan.ConnectedKeeps` | src/addrman.cpp:577-597 | Connected_ keeps consistency |
| `AddrMan.SetServicesKeeps` | src/addrman.cpp:599-617 | SetServices_ keeps consistency |
| `AddrManEffects.AttemptIs` | src/addrman.cpp:390-412 | an attempt changes the last try of the entry with exactly this port, and its failure count and last counted attempt if a failure is to be counted and some address was good since the last one counted; nothing else |
| `AddrManEffects.SecondAttempt` | src/addrman.cpp:390-412 | of two attempts with no success of any address in between at most one counts |
| `AddrManEffects.ConnectedIs` | src/addrman.cpp:577-597 | a connection sets the time of that entry if it is more than twenty minutes old; nothing else |
| `AddrManEffects.SetServicesIs` | src/addrman.cpp:599-617 | sets the services of that entry; nothing else |
| `AddrManEffects.TerribleIs` | src/addrman.cpp:45-66 | when an entry is terrible, in seconds and numbers |
| `AddrManEffects.GoodIs` | src/addrman.cpp:247-313 | a success resets the statistics of that entry and of no other; it moves to its tried slot unless it is tried, or the slot is taken and a test was asked for, when it becomes pending if fewer than ten are; an evicted entry is back in the new slot of its own source with one reference |
| `AddrManEffects.AddKnownIs` | src/addrman.cpp:331-339 | announcing a known address sets its time under the documented intervals and adds its services; no other statistics and no tried slot change |
| `AddrManEffects.AddReferences` | src/addrman.cpp:341-387 | it gains a reference, in the slot of the announcing source, if and only if the announced time is newer than the one it has, it is not tried, has fewer than eight, is lucky, and the slot is free or holds another entry that is terrible |
| `AddrManEffects.ChancesAre` | src/addrman.cpp:353-358 | the chance is one in two for one reference, down to one in 128 for seven |
| `AddrManEffects.AddNewIs` | src/addrman.cpp:359-364 | a new entry has what was announced, its time less the penalty, its source and no history; entries left keep their statistics |
| `AddrManEffects.ShuffleOrders` | src/addrman.cpp:557-565 | the shuffle is that of the order of ids alone |
| `AddrManEffects.ShuffleReaches` | src/addrman.cpp:557-565 | any selection of entries, in any order, can be looked at first |
| `AddrMan.Shuffle` | src/addrman.cpp:543-575 | the partial Fisher-Yates shuffle keeps consistency and the number of entries |
| `AddrMan.ResolveOneKeeps` | src/addrman.cpp:624-676 | resolving one pending collision keeps consistency |
| `AddrMan.AfterResolve` | src/addrman.cpp:619-678 | resolving all pending collisions keeps consistency and empties no tried slot |
| `AddrManResolve.ResolveOneIs` | src/addrman.cpp:624-676 | one pending id at its turn: its entry takes its tried slot if the holder had no success for four hours and was tried without success more than a minute and less than four hours ago, or not tried for four hours while the new entry has waited for more than forty minutes; it stays pending, with nothing changed, exactly if the holder had no success for four hours and was tried within a minute, or the forty minutes are not over; otherwise, as when its entry is gone or not valid, it is forgotten and no table changes |
| `AddrManResolve.RenewedStays` | src/addrman.cpp:645-647 | an entry that has just won is not replaced in the same call |
| `AddrManResolve.ResolveIs` | src/addrman.cpp:619-678 | a whole call, in terms of the state before it: a tried slot changes only to a pending entry that may replace its holder under those rules, no slot is filled or emptied, only ids that have to wait stay pending, and they do unless their entry was dropped or the entry in their slot won during the call |
| `AddrMan.CollisionHasVictim` | src/addrman.cpp:680-707 | a pending collision whose entry still exists has an occupied tried slot with an existing tried entry: id -1 is never looked up |
| `AddrMan.EmptyIsConsistent` | src/addrman.h:465-493 | the empty manager is consistent |
| `AddrMan.RunKeeps` | src/addrman.cpp:142-388 | every legal run keeps all conditions (counts, reference counts equal to slots and at most 8, the three indexes mutually inverse, each entry in its hash-determined slot) and never empties a tried slot |
| `AddrManager.Manager.constructor` | src/addrman.h:465-493 | the initial state |
| `AddrManager.Manager.SwapRandom` | src/addrman.cpp:142-162 | exchanges two positions and both back-references |
| `AddrManager.Manager.Delete` | src/addrman.cpp:164-178 | removes an entry from all indexes by swapping it to the end |
| `AddrManager.Manager.ClearNew` | src/addrman.cpp:180-195 | clears one slot, with the entry if it was its last |
| `AddrManager.Manager.Create` | src/addrman.cpp:128-140 | a fresh id, indexed by address and at the end of vRandom |
| `AddrManager.Manager.LeaveNewBuckets` | src/addrman.cpp:201-208 | the loop over all buckets removes every slot of the entry |
| `AddrManager.Manager.LeaveTried` | src/addrman.cpp:224-227 | takes the occupant out of the tried slot |
| `AddrManager.Manager.EnterNew` | src/addrman.cpp:235-238 | puts the evicted entry into its new slot with one reference |
| `AddrManager.Manager.EvictTried` | src/addrman.cpp:217-239 | the source's order (evict, clear the new slot, enter) gives the same state as clearing first |
| `AddrManager.Manager.MakeTried` | src/addrman.cpp:197-245 | the whole move, with no assert failing |
| `AddrManager.Manager.FindBucket` | src/addrman.cpp:278-288 | the wrapping scan from any start finds a bucket exactly if there is one |
| `AddrManager.Manager.Find` | src/addrman.cpp:113-126 | the lookup by address |
| `AddrManager.Manager.Good` | src/addrman.cpp:247-313 | the new state of Good_ |
| `AddrManager.Manager.Attempt` | src/addrman.cpp:390-412 | the new state of Attempt_ |
| `AddrManager.Manager.Connected` | src/addrman.cpp:577-597 | the new state of Connected_ |
| `AddrManager.Manager.SetServices` | src/addrman.cpp:599-617 | the new state of SetServices_ |
| `AddrManager.Manager.InsertNew` | src/addrman.cpp:366-386 | slot choice and replacement |
| `AddrManager.Manager.EnterCleared` | src/addrman.cpp:377-380 | clears the slot and enters it |
| `AddrManager.Manager.StochasticFactor` | src/addrman.cpp:353-356 | doubling once per reference is a power of two |
| `AddrManager.Manager.Add` | src/addrman.cpp:315-388 | the new state of Add_; its result is true exactly for a routable address not known before, and that address is there afterwards exactly if its slot had room |
| `AddrManager.Manager.CreateNew` | src/addrman.cpp:359-364 | the entry for an unknown address, with the time reduced by the penalty |
| `AddrManager.Manager.Refresh` | src/addrman.cpp:331-358 | update of a known entry, and whether it may get another reference |
| `AddrManager.Manager.GetAddr` | src/addrman.cpp:543-575 | distinct known entries of good quality, at most the limit, and all of them unless the limit was reached; only positions are shuffled |
| `AddrManager.Manager.Collect` | src/addrman.cpp:557-574 | the loop: what was collected is what is wanted among the entries seen, and it stops only when enough are collected or all were seen |
| `AddrManager.Manager.Visit` | src/addrman.cpp:561-573 | one round of that loop: one unseen entry is swapped to the front and looked at |
| `AddrManager.Manager.ResolveCollisions` | src/addrman.cpp:619-678 | the loop over pending collisions |
| `AddrManager.Manager.ResolveCollision` | src/addrman.cpp:624-676 | one pending collision |
| `AddrManager.Manager.SelectTriedCollision` | src/addrman.cpp:680-707 | for a chosen pending id: forgotten if its entry is gone, otherwise the tried entry it collides with, which exists |
| `AddrManager.MakeSpaceCommutes` | src/addrman.cpp:224-238 | evicting first and clearing the new slot afterwards equals the other order, so the state between the two calls, which violates the self-check, does no harm |
| `AddrManCheck.ConsistentIsChecked` | src/addrman.cpp:464-540 | a consistent state satisfies every condition the self-check tests |
| `AddrManCheck.CheckEntries` | src/addrman.cpp:474-498 | the loop over entries reports no error exactly if all its conditions hold |
| `AddrManCheck.CheckTried` | src/addrman.cpp:505-533 | the loop over tried slots with its shrinking set accepts exactly a bijection between tried slots and tried entries at their hash positions |
| `AddrManCheck.CheckNew` | src/addrman.cpp:519-535 | the loop over new slots with its countdown accepts exactly if each entry has as many slots as references |
| `AddrManCheck.Check` | src/addrman.cpp:464-540 | the self-check returns 0 if and only if all conditions hold and the key is not null |
| `AddrManCheck.RunPassesCheck` | src/addrman.cpp:464-540 | no run from an empty manager makes the self-check fail |
| `AddrManClear.ClearedIsConsistent` | src/addrman.h:465-488 | clearing keeps the pending collisions: under any new key the cleared state satisfies the self-check, and the condition on collisions if and only if none was pending |
| `AddrManClear.AddAmongIdle` | src/addrman.cpp:359-387 | among entries without a time an unknown routable address always finds room and gets the next id |
| `AddrManClear.AddedAfterClear` | src/addrman.h:465-488 | after a clear the ids start again at 0: each of any number of distinct routable addresses without a time gets the next one and is there |
| `AddrManClear.ReusedIdHasNoVictim` | src/addrman.h:465-488 | for every id n that was pending, adding n + 1 such addresses, the last with any time, gives a state where n is pending, belongs to the last one, and has no tried entry to collide with |
| `AddrManClear.VictimsAfterClear` | src/addrman.h:465-488 | a run after a clear that adds at least as many such addresses as ids were given out before keeps a tried entry for every pending collision in all its states if and only if none was pending at the clear |
| `AddrManClear.RunAfterClear` | src/addrman.h:465-488 | if none was pending, every run of all operations after the clear keeps one |
| `AddrManClear.PendingIsReachable` | src/addrman.cpp:300-306 | a run from the empty manager that leaves 0 pending |
| `AddrManClear.GoodPends` | src/addrman.cpp:299-306 | a known new entry whose tried slot is taken becomes pending |
| `AddrManClear.GoodMoves` | src/addrman.cpp:307-312 | one whose tried slot is free moves there and every other entry stays |
| `BlockAssembler.AncestorCount` | src/miner.h:83-90 | an ancestor has strictly fewer ancestors than its descendant |
| `BlockAssembler.PackageTopological` | src/miner.cpp:290-299 | in a package sorted by ancestor count every transaction comes after all its ancestors that are not in the block yet |
| `BlockAssembler.AppendPackage` | src/miner.cpp:423-431 | appending such a package keeps the block in topological order, closed under ancestors and free of repetitions |
| `BlockAssembler.CachedCovers` | src/miner.h:39-58 | the cached ancestor total of an entry covers what is left of its package in size and sigops, and is exact, fees included, while no ancestor is in the block |
| `BlockAssembler.IncludeKeeps` | src/miner.cpp:248-273 | subtracting one included transaction from all its descendants keeps every modified total at least the true total of what is left in size and sigops, and exact in both for transactions that did not fail before; their fees stay off by the priority changes of all included ancestors but the first |
| `BlockAssembler.FirstFee` | src/miner.cpp:262-266 | the first ancestor included is subtracted with its modified fee, so its priority change does not stay |
| `BlockAssembler.LaterFee` | src/miner.h:117-119 | a later one is subtracted with its base fee, so its priority change stays, and the first stays the one that does not count |
| `BlockAssembler.FeesExactWhen` | src/miner.cpp:261-268 | a fee total is that of what is left if and only if the priority changes of the included ancestors but the first sum to 0 |
| `BlockAssembler.ModifiedFees` | src/miner.cpp:248-273 | at any point of a run, the fee total of every modified transaction that did not fail before is the modified fees of what is left of its package plus the priority changes of its ancestors in the block but the first included; it is exact if and only if those cancel, in particular if there are none |
| `FeeFloor.StaleFees` | src/miner.cpp:261-268 | a pool of three where the fee total of a transaction keeps the raised priority of an ancestor that is in the block |
| `BlockAssembler.UpdateKeeps` | src/miner.cpp:248-273 | so does doing it for a whole package, in any order, fees included |
| `BlockAssembler.NoDescendantInBlock` | src/miner.cpp:255-262 | a descendant of a newly included transaction cannot already be in the closed block |
| `BlockAssembler.EraseKeeps` | src/miner.cpp:384-391 | erasing a failed entry and remembering it keeps the totals covering |
| `BlockAssembler.TakeKeeps` | src/miner.cpp:427-436 | including a package and patching its descendants keeps every total covering |
| `BlockAssembler.BetterTransitive` | src/txmempool.h:325-362 | the order by ancestor score is transitive over all candidates of positive size |
| `BlockAssembler.BetterTotal` | src/txmempool.h:325-362 | and total and asymmetric on different transactions |
| `BlockAssembler.PackageFits` | src/miner.cpp:204-212 | a package that passes the size test by any covering total keeps block weight and sigops strictly below the limits |
| `BlockAssembler.RejectedStays` | src/miner.cpp:384-418 | a package rejected for size or for an ineligible member stays rejected however many eligible transactions follow |
| `BlockAssembler.ReasonsStay` | src/miner.cpp:384-418 | so do all recorded reasons |
| `Miner.TallyIsSum` | src/miner.cpp:229-246 | running weight, sigops and fees equal the sums over the block |
| `Miner.AppendedOk` | src/miner.cpp:423-431 | a fitting sorted package keeps order, closure, distinctness and both limits |
| `Miner.ClosedTake` | src/miner.cpp:427-436 | and its patched totals cover, for every block that is in topological order |
| `Miner.Assembler.constructor` | src/miner.cpp:61-69 | the weight limit is the option if that is between 4000 and 4000 below the maximum, and otherwise the nearer end |
| `Miner.Assembler.ResetBlock` | src/miner.cpp:89-101 | an empty block with room reserved for the coinbase |
| `Miner.Assembler.OnlyUnconfirmed` | src/miner.cpp:191-202 | exactly the members not in the block |
| `Miner.Assembler.TestPackage` | src/miner.cpp:204-212 | true exactly if weight at four units a byte and sigops stay below the limits |
| `Miner.Assembler.TestPackageTransactions` | src/miner.cpp:218-227 | true exactly if every member may be mined |
| `Miner.Assembler.AddToBlock` | src/miner.cpp:229-246 | appends one transaction and keeps all tallies exact |
| `Miner.Assembler.SortForBlock` | src/miner.cpp:290-299 | a sequence of exactly the package, without repetition, by ancestor count and then by hash |
| `Miner.Assembler.Insert` | src/miner.cpp:290-299 | one step of the sort |
| `Miner.Assembler.UpdatePackagesForAdded` | src/miner.cpp:248-273 | the loops over included transactions and their descendants |
| `Miner.Assembler.Patch` | src/miner.cpp:256-269 | the inner loop, with the total taken from the entry the first time and patched afterwards |
| `Miner.Assembler.BestModified` | src/miner.cpp:344-344 | the first entry of the modified set by ancestor score |
| `Miner.Assembler.Choose` | src/miner.cpp:340-364 | the chosen candidate: no modified entry is better, and it beats the next index entry if it is not that one |
| `Miner.Assembler.AddSorted` | src/miner.cpp:427-431 | the loop that appends the package and erases it from the modified set |
| `Miner.Assembler.AddPackage` | src/miner.cpp:423-436 | a fitting package is taken as a whole: block valid, extended by exactly the package, totals covering |
| `Miner.Assembler.TryPackage` | src/miner.cpp:384-418 | the verdict: too big, not all eligible, or taken |
| `Miner.Assembler.Reject` | src/miner.cpp:384-417 | a rejected candidate leaves the modified set and is remembered, or is passed in the index, with its reason recorded |
| `Miner.Assembler.Take` | src/miner.cpp:420-436 | taking strictly shrinks the unselected transactions and keeps the loop invariant |
| `Miner.Assembler.Evaluate` | src/miner.cpp:384-436 | one candidate, either way, with the count of those that did not fit in a row |
| `Miner.Assembler.ChosenIsBest` | src/miner.cpp:340-382 | with the index in score order, no modified entry and no index entry that is not stale has a better score than the chosen candidate |
| `Miner.Assembler.StreakGrows` | src/miner.cpp:393-399 | the counter is the number of different candidates, since the last package taken, whose totals do not fit the block |
| `Miner.Assembler.Lead` | src/miner.cpp:340-377 | the candidate to look at is one of those left, and with the index in score order no other one left has a better score |
| `Miner.Assembler.Decide` | src/miner.cpp:384-436 | what is decided on it, and giving up exactly if it did not fit, more than 1000 did not in a row, and the block is within 4000 of its limit |
| `Miner.Assembler.Consider` | src/miner.cpp:340-422 | one candidate: it ends the loop if and only if it is below the floor; otherwise it is taken or rejected |
| `Miner.Assembler.Round` | src/miner.cpp:332-437 | one round decreases (unselected transactions, index entries left, modified entries) lexicographically |
| `Miner.Assembler.Start` | src/miner.cpp:319-321 | the loop invariant holds at the start |
| `Miner.Assembler.AddPackageTxs` | src/miner.cpp:311-438 | it terminates; the block is in topological order, ancestor-closed, free of repetitions, within both limits, its tallies exact, all members eligible, the old block a prefix; the block is the old one followed by the packages of the candidates taken, and every candidate decided on was one of those left, with the best score among them, paid the floor, and was taken if and only if its total fits and its package may be mined; nPackagesSelected counts those taken; every transaction not taken has a recorded reason that still holds or is left to consider; nothing is left unless the best candidate left, by score, pays less than the floor, or the loop gave up, which it does exactly when more than 1000 different candidates in a row did not fit and the block is nearly full; below the floor everything left that pays itself the feerate of its package has no higher package feerate; a first entry below the floor ends it with the block unchanged |
| `Miner.Assembler.ChoiceBeatsAll` | src/miner.cpp:340-377 | every candidate decided on has a better score than everything that is neither in the block nor rejected before |
| `Miner.Assembler.ChosenEligible` | src/miner.cpp:407-431 | a run only appends, and only what may be mined |
| `Miner.Assembler.BestPaysMost` | src/miner.cpp:379-382 | the candidate with the best score among those left pays at least the package feerate of every one left that pays itself the feerate of its own package |
| `FeeFloor.LowerRateLeft` | src/miner.cpp:379-382 | everything else has a lower package feerate than the candidate that ends the loop, for a candidate left over, whatever beat it, if and only if it pays itself at least the feerate of its package |
| `FeeFloor.FloorSkipsPackage` | src/miner.cpp:379-382 | a pool of four where the first candidate is below the floor and a package left over is not |
| `FloorRun.EndsWithEmptyBlock` | src/miner.cpp:379-382 | on that pool addPackageTxs stops there with an empty block, though the package left over fits, may be mined and pays the floor |
| `FloorRun.OrderIsScored` | src/txmempool.h:325-362 | the index of that pool is in score order |
| `PartialMerkleTree.Children` | src/merkleblock.cpp:118-128 | a node has a left child, and no right child exactly if it is the last of its row above an odd row |
| `PartialMerkleTree.ExtractSound` | src/merkleblock.cpp:96-132 | whatever bits and hashes are read: if the traversal is not bad and a subtree hash comes out right, all pairs found in it are right, or a pair-hash collision is exhibited |
| `PartialMerkleTree.StaysBad` | src/merkleblock.cpp:96-132 | the failure flag is never cleared |
| `PartialMerkleTree.TwinsClash` | src/merkleblock.cpp:121-125 | two equal nodes of one row of distinct txids exhibit a collision |
| `PartialMerkleTree.InjectiveDistinguishes` | src/merkleblock.cpp:121-125 | with an injective pair hash siblings never look identical |
| `PartialMerkleTree.MatchesAre` | src/merkleblock.cpp:78-94 | the expected matches are exactly the matched positions of the node's range |
| `PartialMerkleTree.MatchesIncrease` | src/merkleblock.cpp:78-94 | in increasing order |
| `PartialMerkleTree.ExtractBuilt` | src/merkleblock.cpp:78-132 | reading what was built gives the node's hash and its matched transactions in order and consumes exactly that part |
| `PartialMerkleTree.BuildSizes` | src/merkleblock.h:36-54 | at most one hash per transaction, and exactly 2 * hashes - 1 bits plus one for each matched node with a single child |
| `PartialMerkleTree.LastSingles` | src/merkleblock.h:52-52 | only the last node of a row can have a single child, so a condition on the last nodes decides |
| `PartialMerkleTree.FlagBits` | src/merkleblock.h:52-52 | the documented bound of 2N-1 bits holds if and only if no matched last node has a single child |
| `PartialMerkleTree.FiveLeaves` | src/merkleblock.h:52-52 | the bound fails for five transactions with only the last matched: 5 bits, 2 hashes |
| `ReceivedTree.ReadsTree` | src/merkleblock.cpp:96-132 | reading any tree of the right shape, spelled as flags and hashes, gives its hash and its matched leaves with their positions, and fails if and only if some node has two children with the same hash |
| `ReceivedTree.TreeRead` | src/merkleblock.cpp:96-132 | whatever is read without failure spells a tree of the right shape |
| `ReceivedTree.AcceptedExactly` | src/merkleblock.cpp:150-181 | from whatever data, a hash other than zero comes out if and only if the tree was not bad, there are 1 to 16666 transactions and no more hashes than those or than flags, and the data spell a tree without twins: all hashes used, and flags left over only in the last byte |
| `ReceivedTree.OnlyAccepted` | src/merkleblock.cpp:150-181 | then the hash, matches and positions are those of that tree |
| `ReceivedTree.MatchBelowTwins` | src/merkleblock.cpp:121-125 | a tree without twins that has the hash of a node of a list has no match below two siblings of the list with the same hash, or a collision is exhibited |
| `ReceivedTree.NoMatchBelowTwins` | src/merkleblock.cpp:121-125 | so no data that give the root of a list have one |
| `ReceivedTree.RepeatedRoot` | src/merkleblock.cpp:121-125 | a list whose row ends with a full node without sibling, and that list with the transactions below the node repeated, have the same height and root |
| `ReceivedTree.RepeatedRefused` | src/merkleblock.cpp:121-125 | but no data are accepted as the longer list with a match among the repeated transactions, in either copy, unless a collision is exhibited |
| `MerkleSize.HashBounds` | src/merkleblock.h:40-44 | N is at most the number of transactions and at most 1 + matched * height |
| `MerkleSize.StopsByMatches` | src/merkleblock.h:44-44 | the same for the part below any node |
| `MerkleSize.SizeBound` | src/merkleblock.h:35-53 | the documented size 10 + ceil(32.25 N) holds if and only if there are at most 2016 flag bits, or the matched nodes with a single child are no more than the spare bits of the last byte |
| `MerkleSize.SizeExceeded` | src/merkleblock.h:35-38 | 1025 transactions, all matched, take one byte more than documented |
| `MerkleBlock.BitsToBytes` | src/merkleblock.cpp:13-20 | every bit at its place, least significant first, and zeros after the last |
| `MerkleBlock.BytesToBits` | src/merkleblock.cpp:22-29 | all bits of all bytes in that order |
| `MerkleBlock.PackRoundTrip` | src/merkleblock.cpp:13-29 | unpacking a packing gives the bits back, followed by fewer than eight zeros |
| `MerkleBlock.ExtractionSound` | src/merkleblock.cpp:150-181 | for any received tree, if a root comes out that is the Merkle root of a list of that many txids, every extracted (index, hash) pair is the list's, or a genuine pair-hash collision is at hand |
| `MerkleBlock.ReadsBuilt` | src/merkleblock.cpp:78-146 | the traversal of a built tree leaves exactly the padding |
| `MerkleBlock.ExtractionComplete` | src/merkleblock.cpp:134-181 | build, pack, unpack, extract: the root and exactly the matched txids with their positions in order, every check passing, for every non-empty list within the size limit whose siblings differ |
| `MerkleBlock.InjectiveComplete` | src/merkleblock.cpp:134-181 | the same for every list of distinct txids and an injective pair hash |
| `MerkleBlock.FirstIsShift` | src/merkleblock.cpp:78-94 | the first transaction below a node is its position shifted by the height |
| `MerkleBlock.WidthIsShift` | src/merkleblock.h:71-74 | the shift formula equals halving row by row |
| `MerkleBlock.PartialTree.CalcTreeWidth` | src/merkleblock.h:71-74 | the width of a row |
| `MerkleBlock.PartialTree.CalcHeight` | src/merkleblock.cpp:164-167 | the height loop stops at the first row of one node |
| `MerkleBlock.PartialTree.constructor` | src/merkleblock.cpp:134-146 | bits and hashes of the built tree |
| `MerkleBlock.PartialTree.ParentOfMatch` | src/merkleblock.cpp:79-82 | the loop finds a match exactly if the subtree has one |
| `MerkleBlock.PartialTree.TraverseAndBuild` | src/merkleblock.cpp:78-94 | appends exactly the node's part |
| `MerkleBlock.PartialTree.BuildChildren` | src/merkleblock.cpp:88-93 | the descending branch |
| `MerkleBlock.PartialTree.TraverseAndExtract` | src/merkleblock.cpp:96-132 | cursors, outputs and failure flag move as the specification's walk, for arbitrary data and nodes |
| `MerkleBlock.PartialTree.ExtractChildren` | src/merkleblock.cpp:116-131 | the descending branch |
| `MerkleBlock.PartialTree.ExtractRight` | src/merkleblock.cpp:118-125 | the right child, and the failure if it is identical to the left one |
| `MerkleBlock.PartialTree.ExtractMatches` | src/merkleblock.cpp:150-181 | root, matches and positions of the extraction with all its checks; the caller's positions are appended to, its matches replaced |
| `MerkleBlock.PartialTree.Serialize` | src/merkleblock.h:90-97 | the written parts |
| `MerkleBlock.PartialTree.Unserialize` | src/merkleblock.h:90-97 | the state read back, with a clear failure flag |
| `CuckooCache.FoundIsMember` | src/cuckoocache.h:469-479 | with every element at home, the scan of eight locations decides membership |
| `CuckooCache.DisplaceConserves` | src/cuckoocache.h:406-439 | the displacement chain leaves table plus element minus exactly one element, live only if the depth ran out |
| `CuckooCache.DisplaceAtHome` | src/cuckoocache.h:406-439 | every non-default element stays at one of its own eight locations |
| `CuckooCache.DisplaceLive` | src/cuckoocache.h:406-439 | the chain adds at most one live slot, in the inserted element's generation |
| `CuckooCache.RotatedLive` | src/cuckoocache.h:304-310 | aging empties the newest generation and turns it into the old one |
| `CuckooCache.EpochCheckBounded` | src/cuckoocache.h:288-320 | after the check there is room for one more entry under the bound |
| `CuckooCache.FirstDisplaced` | src/cuckoocache.h:419-430 | the first displaced slot is the second location, not the first |
| `CuckooCache.NextLocIs` | src/cuckoocache.h:419-430 | after that it is the location after the last one, around the end |
| `CuckooCache.EpochCheckIs` | src/cuckoocache.h:288-320 | aging happens exactly if the counter is spent and the newest generation has at least the epoch size; then exactly the live slots of the old one may be collected as well; otherwise a spent counter is set to the insertions that could fill the generation, at least one and a sixteenth of it |
| `CuckooCache.InsertBounded` | src/cuckoocache.h:392-440 | newest live entries plus counter, and old live entries, stay at most epoch size + max(1, epoch size / 16) |
| `CuckooCache.InsertConserves` | src/cuckoocache.h:392-440 | an insert keeps the table if the element is there, and otherwise adds it and drops exactly one element |
| `CuckooCache.OnceStays` | src/cuckoocache.h:392-440 | every non-default element occurs at most once |
| `CuckooCache.InsertKeeps` | src/cuckoocache.h:392-440 | insert keeps the whole invariant |
| `CuckooCache.ContainsKeeps` | src/cuckoocache.h:469-479 | so does contains, with or without erase |
| `CuckooCache.ContainsMarks` | src/cuckoocache.h:469-479 | afterwards a slot may be collected if and only if it could before, or erase was asked for and it holds the element; table, epochs and counter stay |
| `CuckooCache.InsertedIsFound` | src/cuckoocache.h:392-440 | after an insert the element is found if and only if it was before, or the depth limit was not reached, or another element was dropped |
| `CuckooCache.ErasedIsFound` | src/cuckoocache.h:446-460 | the law of the header comment: an element that is found after its insert is still found after it was marked for erasure, and it is found unless the depth limit was reached |
| `CuckooCache.InitialKeeps` | src/cuckoocache.h:339-352 | setup establishes it |
| `CuckooCache.RunKeeps` | src/cuckoocache.h:392-479 | so does every run of insert, contains and erase |
| `CuckooLive.DisplaceKeepsLive` | src/cuckoocache.h:406-439 | the chain keeps every live element live and in its own generation and adds the new one; one of them is lost only if the depth limit was reached |
| `CuckooLive.KeepRefreshes` | src/cuckoocache.h:398-405 | an element already there becomes live and newest, every other slot is untouched |
| `CuckooLive.RotatedCounts` | src/cuckoocache.h:304-310 | aging keeps exactly the newest live elements, as old ones |
| `CuckooLive.InsertKeepsLive` | src/cuckoocache.h:392-440 | both together for insert |
| `CuckooCache.BoundFits` | src/cuckoocache.h:348-348 | twice the bound is below the size from 21 slots on, also where 45 * size wraps in 32 bits |
| `CuckooCache.AlwaysCollectable` | src/cuckoocache.h:288-352 | in every run of a cache of at least 21 slots some slot may be collected |
| `CuckooCache.EpochSizeIs` | src/cuckoocache.h:348-348 | the epoch is 45% of the slots if and only if there are fewer than 95443718 |
| `CuckooTable.FlagsSuffice` | src/cuckoocache.h:60-67 | the rounded-up byte count holds one flag per slot if and only if size + 7 is below 2^32 |
| `CuckooTable.BitPackedFlags.constructor` | src/cuckoocache.h:60-67 | all flags set, with room for every slot exactly if size + 7 is below 2^32 |
| `CuckooTable.BitPackedFlags.BitSet` | src/cuckoocache.h:90-93 | sets one flag and no other |
| `CuckooTable.BitPackedFlags.BitUnset` | src/cuckoocache.h:101-104 | clears one flag and no other |
| `CuckooTable.BitPackedFlags.BitIsSet` | src/cuckoocache.h:111-114 | reads one flag |
| `CuckooTable.ComputeHashes` | src/cuckoocache.h:242-252 | each location is the floor of hash * size / 2^32, hence in range |
| `CuckooTable.Cache.constructor` | src/cuckoocache.h:339-352 | an empty table of at least two slots, all collectable, with the invariant, exactly if the flags fit |
| `CuckooTable.Cache.ComputeLocs` | src/cuckoocache.h:242-252 | the element's eight locations |
| `CuckooTable.Cache.CountUnused` | src/cuckoocache.h:296-299 | the number of live entries of the newest generation |
| `CuckooTable.Cache.Age` | src/cuckoocache.h:305-309 | the loop that ages every slot |
| `CuckooTable.Cache.EpochCheck` | src/cuckoocache.h:288-320 | counter, scan and aging |
| `CuckooTable.Cache.FindLoc` | src/cuckoocache.h:400-405 | the first location that holds the element |
| `CuckooTable.Cache.FreeLoc` | src/cuckoocache.h:407-410 | the first location that may be collected |
| `CuckooTable.Cache.IndexLoc` | src/cuckoocache.h:430-430 | where the last location is among the eight |
| `CuckooTable.Cache.PlaceAt` | src/cuckoocache.h:411-413 | placing in a free slot |
| `CuckooTable.Cache.SwapAt` | src/cuckoocache.h:431-435 | the swap with its generations |
| `CuckooTable.Cache.DisplaceOnce` | src/cuckoocache.h:407-438 | one round of the chain is one unfolding of the specification |
| `CuckooTable.Cache.DisplaceInto` | src/cuckoocache.h:406-439 | the whole chain |
| `CuckooTable.Cache.Insert` | src/cuckoocache.h:392-440 | the new state, keeping the invariant |
| `CuckooTable.Cache.Contains` | src/cuckoocache.h:469-479 | membership, and the flag set when erasing |
| `LimbOps.AddValue` | src/arith_uint256.h:133-143 | limb-wise addition with carry is addition modulo 2^(32 n), at any width |
| `LimbOps.MulValue` | src/arith_uint256.cpp:68-81 | row-wise multiplication is multiplication modulo 2^(32 n), and no step overflows 64 bits |
| `LimbOps.MulSmallValue` | src/arith_uint256.cpp:56-65 | multiplication by one limb |
| `LimbOps.DivSmallValue` | src/arith_uint256.cpp:84-97 | division by one limb is floor division |
| `LimbShifts.ShlValue` | src/arith_uint256.cpp:22-36 | the shift by whole limbs and bits multiplies by 2^shift modulo the width, for every shift |
| `LimbShifts.ShrIsDivision` | src/arith_uint256.cpp:39-53 | the right shift is floor division by 2^shift |
| `ArithUint256.Uint256.constructor` | src/arith_uint256.h:40-46 | the given limbs |
| `ArithUint256.Uint256.Assign` | src/arith_uint256.h:48-53 | the given limbs |
| `ArithUint256.Uint256.AssignWord` | src/arith_uint256.h:86-93 | the value of a 64-bit word |
| `ArithUint256.Uint256.GetLow64` | src/arith_uint256.h:247-251 | the value modulo 2^64 |
| `ArithUint256.Uint256.Complement` | src/arith_uint256.h:67-73 | 2^256 - 1 - x |
| `ArithUint256.Uint256.Negate` | src/arith_uint256.h:75-82 | -x modulo 2^256 |
| `ArithUint256.Uint256.Increment` | src/arith_uint256.h:172-179 | x + 1 modulo 2^256 |
| `ArithUint256.Uint256.AddAssign` | src/arith_uint256.h:133-143 | sum modulo 2^256 |
| `ArithUint256.Uint256.SubAssign` | src/arith_uint256.h:145-149 | difference modulo 2^256 |
| `ArithUint256.Uint256.MulSmallAssign` | src/arith_uint256.cpp:56-65 | product modulo 2^256 |
| `ArithUint256.Uint256.MulAssign` | src/arith_uint256.cpp:68-81 | product modulo 2^256 |
| `ArithUint256.Uint256.AddRow` | src/arith_uint256.cpp:72-79 | one row of the product |
| `ArithUint256.Uint256.DivSmallAssign` | src/arith_uint256.cpp:84-97 | floor quotient; zero divisor is the error |
| `ArithUint256.Uint256.ShiftLeft` | src/arith_uint256.cpp:22-36 | x * 2^shift modulo 2^256 |
| `ArithUint256.Uint256.ShiftRight` | src/arith_uint256.cpp:39-53 | floor(x / 2^shift) |
| `ArithUint256.Uint256.CountBits` | src/arith_uint256.cpp:188-200 | the position of the highest bit plus one |
| `ArithUint256.Uint256.DivAssign` | src/arith_uint256.cpp:100-123 | shift-and-subtract long division gives floor(x / b); a zero divisor is the error, with the object already zero |
| `ArithUint256.Uint256.AlignWith` | src/arith_uint256.cpp:111-112 | the shifted divisor has the dividend's highest bit and does not wrap |
| `ArithUint256.Uint256.DivideOnce` | src/arith_uint256.cpp:114-119 | one round keeps dividend = quotient * divisor + rest and rest below twice the shifted divisor |
| `ArithUint256.Uint256.LongDivision` | src/arith_uint256.cpp:113-121 | the loop ends with the floor quotient |
| `ArithUint256.Uint256.EqualTo` | src/arith_uint256.cpp:138-149 | equality with a 64-bit word |
| `ArithUint256.Uint256.CompareTo` | src/arith_uint256.cpp:126-135 | -1, 0 or 1 as the values compare |
| `CompactTarget.SetCompact` | src/arith_uint256.cpp:248-266 | value, sign and overflow flags of a compact word |
| `CompactTarget.GetCompact` | src/arith_uint256.cpp:268-289 | the compact word of a value; both asserts hold |
| `CompactTarget.Fields` | src/arith_uint256.cpp:268-289 | size, mantissa and sign can be read back from the word |
| `CompactTarget.MantissaStands` | src/arith_uint256.cpp:248-289 | the mantissa stands for the value without its dropped low bytes |
| `CompactTarget.RoundTrip` | src/arith_uint256.cpp:248-289 | encoding and decoding truncates low bytes, keeps the sign of everything but zero and never overflows, for every 256-bit value and sign |
| `CompactTarget.OverflowIs` | src/arith_uint256.cpp:262-265 | the overflow flag is raised if and only if the number does not fit in 256 bits |
| `CompactTarget.TruncatedBelow` | src/arith_uint256.cpp:268-289 | the truncation is at most the value, by less than one unit of the last kept byte |
| `CompactTarget.TruncatedAbove` | src/arith_uint256.cpp:268-289 | and keeps the highest bit |
| `CompactTarget.TruncatedIdempotent` | src/arith_uint256.cpp:248-289 | and is idempotent |
| `CompactTarget.TruncatedMonotone` | src/arith_uint256.cpp:248-289 | and monotone |
| `CompactTarget.ExactUnlessOverflow` | src/arith_uint256.cpp:248-266 | without the overflow flag the shifted word is not reduced |
| `CompactTarget.NeverAllOnes` | src/arith_uint256.cpp:248-266 | no compact word decodes to 2^256 - 1 |
| `NthRoot.PowerFits` | src/arith_uint256.cpp:217-219 | a candidate's powers never exceed 64 bits |
| `NthRoot.PowerOf` | src/arith_uint256.cpp:217-219 | the inner loop computes the exact power |
| `NthRoot.SearchStep` | src/arith_uint256.cpp:214-222 | setting one more bit keeps the root between the bounds |
| `NthRoot.Search` | src/arith_uint256.cpp:212-222 | the binary search finds the floor root of the head |
| `NthRoot.HeadFits` | src/arith_uint256.cpp:207-211 | the head fits its 64 / n bits per factor, also for zero and for lengths below n |
| `NthRoot.RootOfHead` | src/arith_uint256.cpp:203-226 | the head's root shifted back brackets the value: (r 2^s)^n <= x < ((r+1) 2^s)^n |
| `NthRoot.RootFits` | src/arith_uint256.cpp:223-225 | the result never exceeds the value, so the final shift does not wrap |
| `NthRoot.ApproxNthRoot` | src/arith_uint256.cpp:203-226 | for all 1 < n < 64 the result is r 2^s with (r 2^s)^n <= x < ((r+1) 2^s)^n |
| `ChainWork.WorkIs` | src/chain.cpp:171-172 | ~t / (t + 1) + 1 = floor(2^256 / (t + 1)) |
| `ChainWork.WorkOf` | src/chain.cpp:171-172 | computed without division by zero for any target below 2^256 - 1 |
| `ChainWork.GetBlockProofBase` | src/chain.cpp:162-173 | zero for negative, overflowing or zero targets and floor(2^256 / (target + 1)) otherwise; no word makes the division fail |
| `ChainWork.FloorSplits` | src/chain.cpp:194-209 | quotient * num + floor(remainder * num / den) = floor(work * num / den) |
| `ChainWork.TooLarge` | src/chain.cpp:211-217 | the guard max / num refuses exactly the products that wrap |
| `ChainWork.ScaledIs` | src/chain.cpp:181-227 | the specification in plain arithmetic: floor(work * num / den) if that is below 2^256, else 0 |
| `ChainWork.ScaleMultiAlgoChainwork` | src/chain.cpp:181-227 | exactly floor(work * num / den) if that is below 2^256, else 0; 0 for a zero denominator |
| `ChainWork.ScaleBySplit` | src/chain.cpp:194-226 | the same for the path with the split |
| `ChainWork.Split` | src/chain.cpp:208-209 | work = quotient * den + remainder, remainder < den |
| `ChainWork.WithoutMultiple` | src/chain.cpp:209-209 | work - quotient * den, without wrapping |
| `ChainWork.ExceedsMaxOver` | src/chain.cpp:211-215 | the overflow guard |
| `ChainWork.SumOrZero` | src/chain.cpp:222-226 | the sum if it fits, else 0 |
| `ChainWork.ProductOfRoots` | src/chain.cpp:256-280 | at most n numbers whose n-th powers are at most L have a product of at most L |
| `ChainWork.ApproxRootBelow` | src/chain.cpp:274-274 | the approximate root's power is at most the target |
| `ChainWork.MeanWithinLimit` | src/chain.cpp:256-284 | for any root index k, the product of up to k k-th roots of targets within powLimit is positive and within powLimit, so it never wraps and the zero test never fires |
| `ChainWork.MeanNeverAllOnes` | src/chain.cpp:286-287 | nor is it ever all ones, so the work division is defined |
| `ChainWork.SameWorkForBoth` | src/chain.cpp:251-255 | after activation competing children of one parent get the same work whichever algorithm and bits they carry |
| `ChainWork.BlockProofIs` | src/chain.cpp:229-295 | by cases, in plain arithmetic: the block's own bits before activation and without a parent, nothing for an unknown algorithm, a scale denominator of zero or any unusable bits, and otherwise the scaled work of the product of the roots |
| `GeometricMean.MeanBrackets` | src/chain.cpp:251-280 | for any number of algorithms and any root index k, the k-th power of the average is at most the product of the targets, which is below the k-th power of the product of the roots one unit up |
| `GeometricMean.MeanOfEqual` | src/chain.cpp:251-280 | with k equal targets the average is at most that target |
| `ChainWork.UsableRoot` | src/chain.cpp:262-277 | one algorithm's root, or the reason for zero work |
| `ChainWork.MultiplyIn` | src/chain.cpp:258-280 | one round of the product is exact |
| `ChainWork.AverageTarget` | src/chain.cpp:256-280 | the exact product of the roots, or none if some target is unusable |
| `ChainWork.GetBlockProof` | src/chain.cpp:229-295 | the work of a block before and after activation, at genesis and for an unknown algorithm |
| `SkipList.InvertIs` | src/chain.cpp:112-112 | n & (n - 1) subtracts the lowest set bit |
| `SkipList.SkipIsBelow` | src/chain.cpp:115-122 | the skip height is below the height |
| `SkipList.InvertLow` | src/chain.cpp:112-112 | clearing the lowest one takes it from the low k bits and leaves the rest, if they hold one, and otherwise lowers the rest |
| `SkipList.OddSkip` | src/chain.cpp:119-120 | the skip of an odd height that stays among the same low bits clears two of them |
| `SkipList.StepClears` | src/chain.cpp:132-146 | while the target is below a block of heights with equal high bits, each step inside it clears a low bit, or the step after it does or leaves the block |
| `SkipList.SameBlock` | src/chain.cpp:124-149 | between heights that differ in the low k bits only, the walk takes at most k squared steps |
| `SkipList.LogSquared` | src/chain.cpp:124-149 | from any height below 2^k to any ancestor the walk takes at most k squared steps |
| `SkipList.OddWalkSteps` | src/chain.cpp:132-146 | the exact number of steps to height 2 from 2^k - 2^j + 1 |
| `SkipList.StepsFromPower` | src/chain.cpp:124-149 | from 2^k to height 2 the walk takes exactly (k - 1)(k + 7) / 4 steps, rounded down |
| `SkipList.NotLogarithmic` | src/chain.cpp:78-79 | for every c there is a walk of more than c steps for each bit of the height: the documented O(log n) does not hold |
| `BlockChain.BlockIndex.constructor` | src/chain.h:145-152 | one above the parent, no skip pointer yet |
| `BlockChain.BlockIndex.GetAncestor` | src/chain.cpp:124-149 | for every block whose skip pointers are null or built, the walk terminates and returns what following pprev returns, null out of range; with all of them built it takes exactly the steps of `SkipList.Steps`, at most k squared from a height below 2^k |
| `BlockChain.BlockIndex.BuildSkip` | src/chain.cpp:156-160 | the pointer built is the ancestor at the skip height, and a path with all pointers built stays one |
| `BlockChain.Chain.SetTip` | src/chain.cpp:48-58 | on any consistent chain the result is exactly the path from genesis to the new tip, although writing stops at the fork |
| `BlockChain.Chain.FindFork` | src/chain.cpp:88-97 | the highest block of the path to the given block that the chain contains, null if there is none |
| `BlockChain.LastCommonAncestor` | src/chain.cpp:315-331 | the highest block on both paths, null if none |
| `BlockChain.CommonGenesis` | src/chain.cpp:315-331 | it is not null for blocks of one tree |
| `BlockChain.ChainIsPath` | src/chain.h:409-448 | below any of its blocks the chain is that block's path |
| `RollingBloom.WipeIs` | src/bloom.cpp:222-229 | the mask clears exactly the positions that hold the reused generation number |
| `RollingBloom.PutCell` | src/bloom.cpp:239-241 | the two writes store the generation number at one position and change no other |
| `RollingBloom.HeldNext` | src/bloom.cpp:216-231 | a position is wiped only when the number of its last touch is reused, that is after three generations |
| `RollingBloom.GenStep` | src/bloom.cpp:216-232 | the generation of each insertion: the same as before unless that is full |
| `RollingBloom.WipeStep` | src/bloom.cpp:225-230 | one round of the wiping loop |
| `RollingBloom.TouchStep` | src/bloom.cpp:234-242 | one touch: the planes stay the encoding of last-touch generations |
| `RollingBloom.FastMod` | src/bloom.cpp:210-212 | the floor of x * n / 2^32, hence in range |
| `RollingBloom.Filter.constructor` | src/bloom.cpp:174-199 | an empty filter where nEntriesPerGeneration is half of nElements, rounded up |
| `RollingBloom.Filter.Reset` | src/bloom.cpp:271-277 | forgets every key |
| `RollingBloom.Filter.Insert` | src/bloom.cpp:214-243 | keeps the planes exact: every position holds the number of the generation of the last key that hits it, if that is one of the last three, and the n-th key is in generation (n - 1) / nEntriesPerGeneration + 1 |
| `RollingBloom.Filter.NextGeneration` | src/bloom.cpp:216-231 | rotates the generation and wipes |
| `RollingBloom.Filter.Wipe` | src/bloom.cpp:224-230 | the wiping loop over all words |
| `RollingBloom.Filter.TouchAll` | src/bloom.cpp:232-242 | touches every position of the key, and no other |
| `RollingBloom.Filter.TouchOne` | src/bloom.cpp:234-242 | writes the generation number to one position |
| `RollingBloom.Filter.Contains` | src/bloom.cpp:251-263 | true if and only if every position of the key is one of a key inserted in the current or one of the two generations before, hence for every kept key |
| `RollingBloom.Filter.LastTouchIs` | src/bloom.cpp:232-242 | the last touch of a position is at least g exactly if some key of generation g or later hits it |
| `RollingBloom.Filter.LastAreKept` | src/bloom.h:94-95 | each of the last 2 * nEntriesPerGeneration keys inserted since the reset is kept |
| `PolyMod.StepAt` | src/bech32.cpp:85-96 | each bit of a step is the shifted bit, the symbol's bit and the generator's share |
| `PolyMod.StepLinear` | src/bech32.cpp:85-96 | the step is linear over GF(2) |
| `PolyMod.StepKernel` | src/bech32.cpp:85-96 | and injective |
| `PolyMod.PolyLinear` | src/bech32.cpp:42-99 | so is the residue of whole strings of any length |
| `PolyMod.PolyKernel` | src/bech32.cpp:42-99 | zeros never bring a non-zero residue to zero |
| `PolyMod.PolyPacks` | src/bech32.cpp:42-99 | up to six symbols are packed without loss |
| `PolyMod.BurstDetected` | src/bech32.cpp:42-99 | two strings of any equal length that differ only within six consecutive symbols have different residues |
| `Gf32.ConstantsAre` | src/bech32.cpp:91-95 | the five constants are the generator x^6 + {29}x^5 + {22}x^4 + {20}x^3 + {21}x^2 + {29}x + {18} below x^6, times 1, a, a^2, a^3 and a^4 in the field of 32 elements |
| `Gf32.StepIs` | src/bech32.cpp:78-95 | a step is c(x) * x + v modulo that generator over the field |
| `Bech32.RevIs` | src/bech32.cpp:19-31 | the reverse table and the character set agree, in both cases |
| `Bech32.CharIs` | src/bech32.cpp:19-31 | every character of the set is printable, not upper case, not the separator, and reads back |
| `Bech32.ChecksumReaches` | src/bech32.cpp:136-147 | the six created symbols bring the residue to the encoding's constant |
| `Bech32.ChecksumUnique` | src/bech32.cpp:123-147 | and no other six symbols do |
| `Bech32Codec.Feed` | src/bech32.cpp:85-96 | one round of the loop |
| `Bech32Codec.ComputePolyMod` | src/bech32.cpp:42-99 | the residue of the symbols |
| `Bech32Codec.ExpandHRP` | src/bech32.cpp:108-120 | high bits, zero, low bits |
| `Bech32Codec.VerifyChecksum` | src/bech32.cpp:123-133 | which of the two constants the residue is, if any |
| `Bech32Codec.CreateChecksum` | src/bech32.cpp:136-147 | the checksum |
| `Bech32Codec.Encode` | src/bech32.cpp:152-165 | the encoded string |
| `Bech32Codec.Decode` | src/bech32.cpp:168-198 | the decoded string, with every rejection: characters, mixed case, length over 90, separator place, unknown characters, checksum |
| `Bech32Codec.CheckCharacters` | src/bech32.cpp:169-176 | accepts exactly printable strings without mixed case |
| `Bech32Codec.ReadValues` | src/bech32.cpp:181-190 | the values, or failure at the first unknown character |
| `Bech32Codec.AppendedCheck` | src/bech32.cpp:123-147 | a created checksum verifies as its own encoding |
| `Bech32Codec.VerifiedTail` | src/bech32.cpp:123-147 | verified values end in exactly the checksum that would be created |
| `Bech32Codec.BurstRejected` | src/bech32.cpp:123-133 | a verified string with any change confined to six consecutive symbols no longer verifies as that encoding |
| `Bech32Burst.BurstInString` | src/bech32.cpp:168-198 | an accepted string with up to six consecutive characters of its data part replaced, by more than case and without a new separator, is not accepted as the same encoding |
| `Bech32Exact.DecodesExactly` | src/bech32.cpp:152-198 | a string decodes to a prefix and values if and only if those are legal and the string is their encoding, all in lower case or all in upper case |
| `Bech32Exact.DecodeUpper` | src/bech32.cpp:168-198 | an encoding in upper case decodes like the encoding |
| `Bech32Codec.DecodeEncoded` | src/bech32.cpp:152-198 | decoding inverts encoding for every legal prefix and data of total length at most 90 |
| `Bech32Codec.EncodeDecoded` | src/bech32.cpp:152-198 | every accepted string encodes again to its own lower-case form |
| `Radix.CanonicalUnique` | src/base58.cpp:39-126 | a number has one form without leading zeros in any base |
| `Radix.Accumulate` | src/base58.cpp:62-68 | the carry loop in the buffer computes value * mul + ch exactly, stops with carry 0, and returns the length of the new number |
| `Radix.AccumulateDigit` | src/base58.cpp:62-66 | one digit of it |
| `Base58.AlphabetIs` | src/base58.cpp:18-19 | the alphabet as the source spells it |
| `Base58.MapIsTable` | src/base58.cpp:20-37 | the reverse table as the source lists it |
| `Base58.MapIs` | src/base58.cpp:18-37 | a character with a digit stands for it and is neither space nor terminator |
| `Base58.CharIs` | src/base58.cpp:18-37 | every digit reads back |
| `Base58.EncodedFits` | src/base58.cpp:97-98 | 256^n <= 58^(n * 138 / 100 + 1) for every n: the encoding buffer suffices |
| `Base58.DecodedFits` | src/base58.cpp:53-54 | 58^n <= 256^(n * 733 / 1000 + 1) for every n: the decoding buffer suffices |
| `Base58.DecodeEncoded` | src/base58.cpp:39-126 | decoding the encoding of any bytes gives them back if there are none or the limit is at least their number, and fails otherwise |
| `Base58.EncodeDecoded` | src/base58.cpp:39-126 | every accepted string is, without the spaces around it, the encoding of what it decodes to, which is within the limit |
| `Base58.DecodesExactly` | src/base58.cpp:39-134 | a string decodes to bytes if and only if it has no NUL, is their encoding between spaces, and they are none or within the limit |
| `Base58.TrimIs` | src/base58.cpp:41-46 | trimming takes off the spaces at both ends and nothing else |
| `Base58Codec.EncodeBase58` | src/base58.cpp:88-126 | the encoded string |
| `Base58Codec.ToBase58` | src/base58.cpp:97-118 | the digits of the number the bytes spell |
| `Base58Codec.SkipZeroes` | src/base58.cpp:115-118 | the scan for zeros, which does not move if the first digit is not zero |
| `Base58Codec.SpellDigits` | src/base58.cpp:119-125 | ones and digits |
| `Base58Codec.DecodeBase58` | src/base58.cpp:128-134 | the decoded bytes, with every rejection: embedded NUL, too many ones, invalid character, too long, text after spaces |
| `Base58Codec.DecodeRest` | src/base58.cpp:44-85 | the part after the leading spaces |
| `Base58Codec.ReadNumber` | src/base58.cpp:52-72 | the bytes of the number, or why reading stopped early |
| `Base58Codec.LongerNumber` | src/base58.cpp:69-70 | a longer prefix never has fewer bytes, so the early length check decides as one at the end would |
| `Base58Codec.EncodeBase58Check` | src/base58.cpp:136-142 | bytes and four hash bytes, encoded |
| `Base58Codec.DecodeBase58Check` | src/base58.cpp:144-168 | returns v exactly if the string decodes to v followed by its four hash bytes |
| `Base58Codec.CheckRoundTrip` | src/base58.cpp:136-168 | checked decoding inverts checked encoding exactly when the limit, or INT_MAX - 4, leaves room |

## Left out

- `CAddrMan::Select_`, `GetChance` and `DecodeAsmap`: probabilistic termination, floating point and file input.
- `CAddrMan::Unserialize`, and operations other than `Add_` after a `Clear` with collisions pending.
- The insertion that `mapAddr[info]` makes in `Check_` for a missing key: the lookup counts as 0, as it does there.
- `EmplaceCoinInternalDANGER`, `AccessCoin`, `HaveInputs` and the batches, crash simulation and head markers of the
  coin database: thin wrappers and storage.
- `StopWorkerThreads` during a round: it changes what `Wait` means.
- The mempool, transaction finality and block creation around `addPackageTxs`, and the statistic of updated descendants.
- `CMerkleBlock` and the byte layout of the hashes and counts beside the flag bits.
- `setup_bytes`, concurrent erasure and memory orders of the cuckoo cache: operations are taken one at a time.
- Hexadecimal conversion, conversion to double and the bitwise operators of `base_uint`: easy members.
- `GetLocator`, `FindEarliestAtLeast`, `GetBlockProofEquivalentTime` and the other fields of `CBlockIndex`.
- The plain Bloom filter and statistical claims: false-positive rates, four-error detection.
- 64-bit overflow of fee, size and sigops sums and of `int` counters in strings of 2^31 characters and more.
- Golomb filters, compact blocks, Dandelion, ban list, flat files, amount compression, keys, networking, RPC and start-up.
- BlockAssembler.ModifiedFees: does not state the fees of a transaction that failed before; it comes back with its
  cached total, of which only size and sigops are known to cover what is left.
- BlockAssembler.BetterTotal: feerates are compared as exact products, where the source rounds to double.
- BlockAssembler.BetterTransitive: feerates are compared as exact products, where the source rounds to double.
- CuckooTable.Cache.constructor: the depth limit is any number of at least one, where the source takes a rounded
  logarithm in floating point.
- RollingBloom.Filter.constructor: the number of hash functions and of words are parameters, where the source computes
  them in floating point, and nElements + 1 does not wrap.
- Coins.CoinsViewCache.Flush: over a database it requires a known best block, as the database asserts.
- AddrManager.Manager.constructor: the two tables are maps from occupied slots to ids, where the source fills arrays
  with -1 in loops.
