# Verified models of a PPCoin-family node

A Dafny model of the stateful cores of the node, with proofs. Verify everything with
`dafny verify dfyconfig.toml`.

| files | what they model |
|---|---|
| `AddrTables`, `AddrBuckets`, `Eviction`, `AddrMan`, `AddrCheck` | the stochastic address manager: its buckets, five mutually dependent indexes and two counters changed in place by add, promote, evict, shrink and sample, and its self-check |
| `AddrDisk`, `AddrLoad`, `AddrRoundTrip` | its save and load, which renumber ids and rebuild every index |
| `CheckQueue`, `CheckQueueLoops`, `CheckQueueWaking`, `CheckQueueSteps`, `CheckQueueRuns`, `CheckQueueProgress` | the verification queue: a master, workers and a quitting thread, as interleaved critical sections with spurious wakeups |
| `StakeScan` | the proof-of-stake kernel scan behind its largest-target filter, and the miner's search windows |
| `StakeModifier` | stake-modifier selection and its flags along a chain |
| `Checkpoints` | the synchronized-checkpoint protocol on a growing block tree |
| `BlockAssembly` | choosing the transactions of a block by priority and dependency |
| `Uint`, `UintHex`, `BigNum` | fixed-width and compact big integers against plain integers |
| `Serialize`, `BufferedFile` | variable-length integers, and the ring buffer over a file |
| `Scrypt`, `Pbkdf2` | in-place scrypt and streaming key derivation against their RFCs |
| `LevelDb` | reads through a pending write batch |
| `Words`, `Bits`, `Bytes`, `Collections` | what the others share |

## How the model reads the source

- Classes with the source's fields stand for its mutable objects; an array is an array where the
  source works in place. Every method is proved against functions of the old state, and lemmas prove
  what those functions mean.
- A random number is any value in its range. Hashes, and the range an address lies in, are
  function parameters with no assumed properties. The clock is read once per call and passed in. Outcomes of databases, signatures, disk
  reads, fetching and connecting inputs are parameters.
- `mapInfo`, `mapAddr` and the other containers are Dafny maps, sets and sequences; an ordered
  container is walked in ascending order. The service flags of an address are the set of their bit
  numbers. Times stored in 32 bits are cut to 32 bits. The counters `nIdCount` and `nAttempts`, and
  the totals of the queue and of block assembly, are unbounded.
- Masks of low bits and shifts of unsigned words are written as remainders, products and quotients by
  powers of two; `|` and `^` are the bitwise functions of `Bits`.
- `AddrMan.Good_` needs a time above zero and `Attempt_` one that is not negative, as every caller
  passes. `Check_` reads a missing address as id 0, as the source does; the entry that reading adds to
  the address map is not modelled.
- `CheckQueue` has one master, thread 0; `Quit` comes when nothing is left to do; shutting down is not
  in progress. The multisets of the round and of retired checks record history for the statements.
- In `StakeModifier` the blocks of a chain have different hashes and are indexed under them. The
  failure to select a block in a round is proved unreachable.
- `Checkpoints` writes the zero hash for no pending checkpoint, as the source does. Resetting to a
  hardened checkpoint and the test network's exemption are outside the runs.
- `StakeScan` is told at which times the node is seen shutting down. `BufferedFile` reads any part of
  what it asks the system for.
- `BlockAssembly` needs a pool in which every input is on disk or in the pool, as the source's own
  assertion does. Priorities and fee rates are arbitrary reals; the heap is a queue from which any
  element that none comes before is taken.

## Where the code and its comments differ

- `SelectTried` is documented to return the oldest inspected entry. It records the slot the entry was
  drawn from, after moving the entry away. `Eviction.ReportsOldestIff` says exactly when the slot is
  sure to hold an oldest one, and `Eviction.ReportsNewer` gives a case where it does not.
- The buffered file is documented to guarantee rewinding a given number of bytes. The distance counts
  back from what was read from the source, not from the reading position: `BufferedFile.PositionMoves`
  gives a request for the current position that moves it. `BufferedFile.PositionCorrupted` gives a
  request whose 64-bit sum wraps; `BufferedFile.PositionInside` says exactly which do harm.
- The buffered file accepts any rewind distance. When the room left, in 64 bits cut to 32, comes to
  zero, filling does nothing and does not fail: `BufferedFile.Read` says exactly when it then never
  ends, and `BufferedFile.FindByte` when it runs on over stale bytes. No rewind distance below the size
  of the buffer does this.
- `ExistsNormal` finds a key that the open batch has erased. `LevelDb.ExistsRight` says exactly when it
  is right, and `LevelDb.RefusedRewrite` shows what follows for a write that must not overwrite.
- The kernel filter is cut to 256 bits. `StakeScan.LosslessIff` says exactly when it loses nothing, and
  `StakeScan.OverflowLoses` gives a case where it does.
- The compact form keeps one byte of length; `BigNum.CompactKeepsIff` says exactly when that is enough.

## Model

| member | source | states |
|---|---|---|
| `AddrMan.AddrMan.constructor` | src/addrman.h:203-210 | A new manager is consistent and knows no address. |
| `AddrMan.AddrMan.SwapRandom` | src/addrman.cpp:122-141 | Two entries change places in the random order; positions stay the inverse of the order and nothing else of any entry changes. |
| `AddrMan.AddrMan.Unref` | src/addrman.cpp:167-217 | Giving up one reference in one bucket keeps every index consistent; the last reference takes the entry out of all of them. |
| `AddrMan.AddrMan.SelectTried` | src/addrman.cpp:143-165 | The bucket comes out permuted by the random draws; the slot reported is the draw made in the round that met the least recently successful of the inspected entries. |
| `Eviction.ShuffledKeeps` | src/addrman.cpp:151-160 | Any draws leave exactly the members of the bucket, each once. |
| `Eviction.ReportsOldestIff` | src/addrman.cpp:143-165 | Whatever is drawn, the reported slot holds an oldest inspected entry: exactly when all entries of the bucket succeeded last at the same time. |
| `Eviction.ReportsNewer` | src/addrman.cpp:153-160 | A bucket and draws for which the reported slot holds a newer entry. |
| `AddrMan.AddrMan.ShrinkNew` | src/addrman.cpp:167-217 | A full bucket gives up its first deletable entry, or else the one seen longest ago among at most four, also while one entry is counted but not yet stored. |
| `AddrMan.AddrMan.MakeTried` | src/addrman.cpp:219-273 | An entry leaves every "new" bucket and joins the "tried" bucket of its hash; a full one sends exactly one entry back to one "new" bucket, which has room. |
| `AddrTables.RoomToReturn` | src/addrman.cpp:255-266 | An evicted entry always has room: its own bucket, or the one the promoted entry just left. |
| `AddrTables.EvictedConsistent` | src/addrman.cpp:241-273 | The exchange of a promoted entry for an evicted one keeps every index and counter consistent. |
| `AddrMan.AddrMan.Good_` | src/addrman.cpp:275-327 | Statistics are reset and the entry ends up "tried"; the known addresses stay the same and the exit for an entry in no bucket is never taken. |
| `AddrMan.AddrMan.Refresh` | src/addrman.cpp:336-371 | What a repeated report changes, and that it earns a reference exactly when it is newer, the entry may have more, and a draw out of two to the number of references is zero. |
| `AddrMan.RefreshedKeeps` | src/addrman.cpp:339-347 | A repeated report loses no service flag, never moves the time back or past the one reported, and moves it only when that is ahead by an hour, or by a day for an address not seen within one. |
| `AddrMan.RefreshedTakes` | src/addrman.cpp:339-344 | News more than an hour ahead gets through to an address seen within a day. |
| `AddrMan.AddrMan.Add_` | src/addrman.cpp:329-391 | The whole effect of a report: a fresh or refreshed entry, at most one address gained, at most one lost and only from a full bucket to the entry that deserves it, every other entry as before; consistency kept. |
| `AddrMan.AddrMan.Attempt_` | src/addrman.cpp:393-412 | Only the try time and the attempt count of the exact address change. |
| `AddrMan.AddrMan.AttemptThrice` | src/addrman.cpp:36-59 | Three attempts on an entry that never succeeded make it one to be dropped, from a minute after the last. |
| `AddrTables.TriedIsKept` | src/addrman.cpp:38-40 | What was tried within the last minute is kept. |
| `AddrTables.DroppedFor` | src/addrman.cpp:42-58 | Each of the five reasons to drop an entry, and that without any it is kept. |
| `AddrMan.AddrMan.Connected_` | src/addrman.cpp:585-606 | Only the time of the exact address changes, and only after twenty minutes. |
| `AddrMan.AddrMan.GetAddr_` | src/addrman.cpp:556-571 | Exactly the smaller of 2500 and 23 percent of the entries, distinct and known, are appended; entries change only in the random order. |
| `AddrMan.AddrMan.Run` | src/addrman.cpp:275-606 | Every run of the operations keeps the full consistency predicate; only reported addresses become known. |
| `AddrBuckets.TriedSpread` | src/addrman.cpp:8-21 | Whatever addresses of one range are tried, they go to at most 4 of the 64 "tried" buckets. |
| `AddrBuckets.NewSpread` | src/addrman.cpp:23-37 | Whatever the sources of one range report, it goes to at most 32 of the 256 "new" buckets. |
| `AddrBuckets.BucketsReached` | src/addrman.cpp:8-37 | Both bounds are met, and every bucket can be picked. |
| `AddrBuckets.TriedPerGroup` | src/addrman.h:93-100 | In every consistent manager at most 256 "tried" entries lie in one range, however many were reported and reached. |
| `AddrCheck.CheckTried` | src/addrman.cpp:507-519 | Striking ids off succeeds exactly when every "tried" id occurs once in all buckets and no other id does. |
| `AddrCheck.CheckNew` | src/addrman.cpp:521-535 | Counting references down succeeds exactly when every "new" id is in as many buckets as its count says and no other id is in any. |
| `AddrCheck.Check_` | src/addrman.cpp:467-553 | The self-check returns zero exactly when everything it looks for holds. |
| `AddrCheck.ConsistentIff` | src/addrman.cpp:467-553 | The invariant kept is exactly what the self-check looks for together with the listed facts it does not look at. |
| `AddrMan.AddrMan.Check` | src/addrman.cpp:467-553 | The self-check of a manager in a reachable state returns zero. |
| `AddrDisk.Save` | src/addrman.h:347-397 | The stream holds the "new" and the "tried" entries in the order of their ids and each bucket by rank. |
| `AddrLoad.Load` | src/addrman.h:398-459 | A stream with sound "new" buckets loads as the tables of the same stream without the "tried" entries that found their bucket full; whatever the buckets list, no entry counts more than four references. |
| `AddrLoad.KeptHashing` | src/addrman.h:424-437 | A bucket receives its entries up to its size, and loses exactly the others. |
| `AddrRoundTrip.SavedLossless` | src/addrman.h:420-441 | No "tried" entry of a saved manager is ever lost on loading. |
| `AddrRoundTrip.OverfullSound` | src/addrman.h:420-459 | However many "tried" entries hash to one bucket, a well-formed stream loads as consistent tables, with as many "tried" entries as fit bucket by bucket. |
| `AddrRoundTrip.SavedWellFormed` | src/addrman.h:355-397 | What a consistent manager writes is well formed. |
| `AddrRoundTrip.LoadedConsistent` | src/addrman.h:333-462 | What is loaded from a saved manager is consistent. |
| `AddrRoundTrip.LoadedRestored` | src/addrman.h:333-462 | What is loaded is what was saved, entry by entry and field by field, bucket by bucket, with ids replaced by their ranks; the times that are not written start over. |
| `AddrMan.AddrMan.Serialize` | src/addrman.h:347-397 | Writing a consistent manager yields such a stream. |
| `AddrMan.AddrMan.Unserialize` | src/addrman.h:398-459 | Reading replaces every field by what the stream describes; from a well-formed stream the manager is valid, also when "tried" buckets overflow, and counts the entries that fit. |
| `AddrMan.AddrMan.CopyTo` | src/addrman.h:333-462 | Save and load into another manager gives a valid manager with the same addresses, restored up to renumbering. |
| `CheckQueue.NowCount` | src/checkqueue.h:129-130 | A batch is never empty, never more than is queued, and no larger than the batch size unless it is one. |
| `CheckQueue.NowShare` | src/checkqueue.h:124-130 | It is the share of the queue that falls to one of all the threads, cut to the batch size: one more would be too many. |
| `CheckQueue.NewestFirst` | src/checkqueue.h:181-186 | What was added last is taken first. |
| `CheckQueue.NoWorkAfterFailure` | src/checkqueue.h:142-155 | Once a failure is on record, no check of a batch taken is called. |
| `CheckQueueSteps.DivisorPositive` | src/checkqueue.h:130 | The share of the queue is never divided by zero. |
| `CheckQueueLoops.TakeBatch` | src/checkqueue.h:131-140 | Moving checks off the back one by one takes the last of them, in reverse, and leaves the rest. |
| `CheckQueueLoops.Execute` | src/checkqueue.h:150-155 | Stopping at the first failure gives the same answer as evaluating every check. |
| `CheckQueueSteps.StepKeeps` | src/checkqueue.h:74-161 | Every step of every thread keeps the accounting: each check of the round is queued, held or retired, and the counters agree with the threads. |
| `CheckQueueRuns.RunKeeps` | src/checkqueue.h:74-226 | So it does along every interleaving from a fresh queue. |
| `CheckQueueRuns.RoundExact` | src/checkqueue.h:88-123 | Whenever the wait returns, its value is whether every check added that round is good. |
| `CheckQueueRuns.NoLostWakeup` | src/checkqueue.h:96-122 | A master waiting without a notification has a worker that holds unfinished checks. |
| `CheckQueueRuns.IdleIff` | src/checkqueue.h:216-220 | The queue reports itself idle exactly when everything added in the round has been retired and all of it is good. |
| `CheckQueueRuns.IdleBetweenRounds` | src/checkqueue.h:216-242 | Between rounds the queue reports itself idle, so a controller can always be made. |
| `CheckQueueSteps.AddNotifies` | src/checkqueue.h:187-192 | Adding several checks notifies every waiting worker, adding one notifies one. |
| `CheckQueueSteps.StepSees` | src/checkqueue.h:74-210 | Every step keeps it that while work is queued and a worker waits, some thread is awake. |
| `CheckQueueProgress.NeverStuck` | src/checkqueue.h:74-210 | When no thread can usefully step, the wait has returned; with work still queued every thread is outside; after a quit every thread has left. |
| `CheckQueueProgress.RestingRun` | src/checkqueue.h:74-210 | Where a run has come to rest with any thread inside, everything added was taken and finished. |
| `CheckQueueProgress.StepShrinks` | src/checkqueue.h:74-161 | Every useful step of a thread leaves strictly less to do, and waking for no reason leaves no more. |
| `CheckQueueProgress.QuietInTime` | src/checkqueue.h:74-210 | Without new work, a run has no more useful steps than there was work at its start. |
| `StakeScan.TargetBetween` | src/kernel_worker.cpp:100-102 | As the weight grows the target moves one way only. |
| `StakeScan.NestedFloors` | src/kernel_worker.cpp:77-102 | Rounding to coin-days before multiplying by the target never exceeds rounding afterwards. |
| `StakeScan.FilterKeeps` | src/kernel_worker.cpp:76-99 | Where the extreme weights are covered, a hash that meets its target passes the filter. |
| `StakeScan.LosslessIff` | src/kernel_worker.cpp:76-99 | The filter loses no solution, whatever the times and hashes, exactly when it covers the targets at the two extreme weights. |
| `StakeScan.FittingCovered` | src/kernel_worker.cpp:77 | A target and an amount that are not negative and a largest target below 2^256 are always covered. |
| `StakeScan.OverflowLoses` | src/kernel_worker.cpp:77-99 | Three million coins at full age under a target within the limit of the node: the filter wraps and rejects a hash that meets its target. |
| `StakeScan.WeightRange` | src/kernel.h:76-85 | Weights lie between minus the whole time range less the minimum age and ninety days. |
| `StakeScan.WeightByAge` | src/kernel.h:76-85 | A coin weighs nothing at the minimum age, one second more for every second from there, and no more after ninety days of it. |
| `StakeScan.WholeCoinDays` | src/kernel_worker.cpp:100 | Whole coins for whole days weigh their product. |
| `StakeScan.FilterTight` | src/kernel_worker.cpp:76-77 | The largest target exceeds the target at full age by at most one target per coin-day. |
| `StakeScan.LowBits` | src/kernel_worker.cpp:77 | The filter keeps the low 256 bits of the magnitude. |
| `StakeScan.ScanKernelBackward` | src/kernel_worker.cpp:71-110 | The scan returns the latest time of the interval whose hash passes, and under the covering condition the latest that meets the unfiltered target; finding none, it missed none among the times it came to before the node was seen shutting down. |
| `StakeScan.StakeMiner.ScanMap` | src/miner.cpp:678-710 | A search stops at the first input with a solution in its window, at the latest such time, and only a fruitless one moves the window on. |
| `StakeScan.WindowLength` | src/miner.cpp:683-686 | A window goes back to the previous search, or a minute where that is longer ago. |
| `StakeScan.SearchedOnce` | src/miner.cpp:683-706 | No time is searched twice; none is skipped when searches are at most a minute apart. |
| `StakeModifier.GetLastStakeModifier` | src/kernel.cpp:52-70 | The walk finds the nearest generating block, and fails only when there is none. |
| `StakeModifier.GetStakeModifierSelectionInterval` | src/kernel.cpp:80-90 | The loop adds up all 64 sections. |
| `StakeModifier.SectionsGrow` | src/kernel.cpp:72-78 | Sections grow from a third of the interval to the whole of it. |
| `StakeModifier.LastStop` | src/kernel.cpp:207-240 | After 64 rounds the stop time is the start of the previous block's own interval. |
| `StakeModifier.RecentIsSuffix` | src/kernel.cpp:213-220 | The candidates are the unbroken run of recent enough blocks ending at the tip. |
| `StakeModifier.SortKeeps` | src/kernel.cpp:222-223 | Sorting by time and hash keeps exactly the candidates, each once. |
| `StakeModifier.CollectCandidates` | src/kernel.cpp:206-223 | The walk, the reversal and the sort yield the sorted recent blocks. |
| `StakeModifier.SelectBlockFromCandidates` | src/kernel.cpp:98-143 | A pick has the least selection hash among the free candidates up to the stop time, or is the first free one when none is that early; no pick only when none is free. |
| `StakeModifier.StakeFavoured` | src/kernel.cpp:116-135 | A stake block is compared by the hash of its proof less 32 bits, any other by that of its block hash: which of two blocks is picked, for each pairing of kinds. |
| `StakeModifier.SomeFree` | src/kernel.cpp:231-243 | With fewer blocks picked than there are candidates, one is free. |
| `StakeModifier.PicksDistinct` | src/kernel.cpp:225-256 | No block is picked twice. |
| `StakeModifier.PickNext` | src/kernel.cpp:231-256 | A round never fails to select, and its pick follows the rule given the earlier picks. |
| `StakeModifier.SelectRounds` | src/kernel.cpp:225-261 | The rounds assemble the entropy bits of as many picks as there are candidates, up to 64. |
| `StakeModifier.AssembledBit` | src/kernel.cpp:248-251 | Bit k of the result is the entropy bit of pick k, and the bits past the last pick are zero. |
| `StakeModifier.ComputeNextStakeModifier` | src/kernel.cpp:161-297 | A block gets a new modifier exactly when both it and its parent are in later intervals than the last one; the only failure is a chain that never generated one. |
| `StakeModifier.DueByTime` | src/kernel.cpp:182-202 | In times: the tip, and from the switch time on the block itself, must be in a later interval than the last modifier. |
| `StakeModifier.NextUnique` | src/kernel.cpp:161-297 | Modifier and flag are determined by the chain and the time. |
| `StakeModifier.WindowsIncrease` | src/kernel.cpp:161-202 | Along a chain, generating blocks are in strictly increasing interval numbers. |
| `StakeModifier.NearestModifier` | src/kernel.cpp:182-202 | A block that generated none reports the modifier of its nearest ancestor that did. |
| `StakeModifier.NeverWithout` | src/kernel.cpp:161-178 | A chain built by the rules always has a modifier to go on from. |
| `StakeModifier.GetKernelStakeModifier` | src/kernel.cpp:302-340 | The modifier hashed with is that of the first block after the coin's that generated one a selection interval later, and is missing exactly when there is no such block. |
| `Checkpoints.TraceBack` | src/checkpoints.cpp:143-154 | Walking back by parents finds the ancestor at a height; the null-parent error is unreachable. |
| `Checkpoints.AncestorIff` | src/checkpoints.cpp:135-162 | Comparing the ancestor at a height decides descent. |
| `Checkpoints.Manager.ValidateSyncCheckpoint` | src/checkpoints.cpp:122-163 | True exactly for known strict descendants; the invalid mark is set exactly on a conflict. |
| `Checkpoints.Manager.WriteSyncCheckpoint` | src/checkpoints.cpp:165-178 | The checkpoint moves only when written and committed. |
| `Checkpoints.Manager.ProcessSyncCheckpoint` | src/checkpoints.cpp:415-464 | The new state and answer for every message, in terms of descent. |
| `Checkpoints.Manager.AcceptPendingSyncCheckpoint` | src/checkpoints.cpp:180-220 | The new state and answer when the pending checkpoint is looked at again. |
| `Checkpoints.LineGrows` | src/checkpoints.cpp:165-220 | A strict descendant of the last checkpoint strictly descends from all of them. |
| `Checkpoints.Manager.Run` | src/checkpoints.cpp:180-464 | Over every run on a growing tree all checkpoints lie on one line of descent. |
| `Checkpoints.Manager.CheckSync` | src/checkpoints.cpp:234-268 | Above the checkpoint only its descendants pass, at its height only itself, below it only known blocks. |
| `Checkpoints.NewBlocksDescend` | src/checkpoints.cpp:243-268 | A new block passes exactly when, once in the tree, it strictly descends from the checkpoint. |
| `Checkpoints.PassesEarlier` | src/checkpoints.cpp:234-268 | A block admitted under a later checkpoint is admitted under every earlier one. |
| `Checkpoints.AutoSelectSyncCheckpoint` | src/checkpoints.cpp:222-231 | The nearest ancestor an hour and eight blocks behind the best block, or else the root. |
| `Serialize.VarIntBijective` | src/serialize.h:1048-1083 | Bytes are accepted exactly when they start with the one encoding of a value of the type, and the rest is untouched. |
| `Serialize.VarIntRoundTrip` | src/serialize.h:1048-1083 | A written value is read back; no overflow check rejects it. |
| `Serialize.EncodeLength` | src/serialize.h:1050 | An encoding is no longer than one byte for every seven bits of the type. |
| `Serialize.VarIntSum` | src/serialize.h:988-996 | All bytes but the last have the continuation bit, and they stand for the documented sum. |
| `Serialize.GetSizeOfVarInt` | src/serialize.h:1032-1042 | The size is the length of the encoding. |
| `Serialize.FillGroups` | src/serialize.h:1050-1058 | The temporary buffer is never overrun and holds the encoding backwards. |
| `Serialize.WriteVarInt` | src/serialize.h:1048-1062 | The encoding is appended to the stream. |
| `Serialize.ReadVarInt` | src/serialize.h:1065-1083 | The value, the remaining stream and the error are those of the decoding. |
| `Serialize.CompactRoundTrip` | src/serialize.h:424-475 | A written size is read back within the limit and refused as too large beyond it. |
| `Serialize.CompactBytes` | src/serialize.h:400-444 | The bytes of a size, tag and all, in each of the documented ranges. |
| `Serialize.CompactBijective` | src/serialize.h:447-475 | Only the shortest encoding of a size within the limit is accepted. |
| `Serialize.GetSizeOfCompactSize` | src/serialize.h:411-421 | The size is the length of the encoding. |
| `Serialize.WriteCompactSize` | src/serialize.h:424-444 | The encoding is appended to the stream. |
| `Serialize.ReadCompactSize` | src/serialize.h:447-475 | The size, the remaining stream and the error are those of the decoding. |
| `BufferedFile.PositionInside` | src/serialize.h:1622-1633 | A move keeps the position in what may be read again, except for exactly the requests whose sum wraps below what was read while less than the rewind distance was. |
| `BufferedFile.PositionMet` | src/serialize.h:1622-1633 | A move is met exactly within the rewind distance behind the source position, and else ends at the nearer end. |
| `BufferedFile.PositionCorrupted` | src/serialize.h:1624-1627 | A request that leaves the position past everything read. |
| `BufferedFile.PositionMoves` | src/serialize.h:1624-1627 | Asking for the current position can move it, when the source is far ahead. |
| `BufferedFile.ReadAndCorrupt` | src/serialize.h:1586-1627 | A file of five bytes, read to its end and asked for a position near 2^64, is left past everything read. |
| `BufferedFile.ReadAndAsk` | src/serialize.h:1586-1627 | A file of a hundred bytes, asked for its current position after a read, moves exactly when the system delivered more than the rewind distance beyond it. |
| `BufferedFile.BufferedFile.Fill` | src/serialize.h:1539-1558 | Filling keeps the last buffer-full of file bytes where their positions say; it reads something, or fails, or has no room, the last exactly when the room computed is zero. |
| `BufferedFile.BufferedFile.CopyOut` | src/serialize.h:1601-1613 | A stretch copied out of the ring is the file at the reading position. |
| `BufferedFile.BufferedFile.Read` | src/serialize.h:1586-1616 | Bytes read are the file from the reading position, never past the limit; which refusal comes when, and that it is stuck exactly when it has to fill without room. |
| `BufferedFile.BufferedFile.SetPos` | src/serialize.h:1622-1633 | The position asked for, or the nearer end; the ring stays valid exactly outside the wrapping requests and within the size of the buffer. |
| `BufferedFile.BufferedFile.SetLimit` | src/serialize.h:1653-1659 | The limit is set unless the position is already past it. |
| `BufferedFile.BufferedFile.FindByte` | src/serialize.h:1669-1682 | The position stops at the next occurrence of the byte, none before it skipped; it leaves the file for stale bytes, or never ends, exactly when there is no room to fill and the byte is not among those buffered. |
| `BufferedFile.BufferedFile.Run` | src/serialize.h:1539-1682 | Over any sequence of operations up to one that ends the use of the file, every block handed out is the file at the position it was read from and below the limit then set; with a rewind distance below the buffer size only a failed source or a wrapping request ends it. |
| `Uint.BaseUint.Add` | src/uint256.h:108-116 | Addition modulo two to the width. |
| `Uint.BaseUint.Negate` | src/uint256.h:43-48 | Negation modulo two to the width. |
| `Uint.BaseUint.Subtract` | src/uint256.h:117-120 | Subtraction modulo two to the width. |
| `Uint.BaseUint.Increment` | src/uint256.h:133-137 | One more, modulo two to the width. |
| `Uint.BaseUint.Decrement` | src/uint256.h:143-147 | One less, modulo two to the width. |
| `Uint.BaseUint.ShiftLeft` | src/uint256.h:86-96 | Multiplication by a power of two modulo two to the width, by any amount. |
| `Uint.UpIsMultiply` | src/uint256.h:86-96 | Words placed over carried ends are the product by the shift. |
| `Uint.BaseUint.ShiftRight` | src/uint256.h:97-107 | Division by a power of two, by any amount. |
| `Uint.DownIsDivide` | src/uint256.h:97-107 | Words placed under dropped ends are the quotient by the shift. |
| `Uint.BaseUint.Equal` | src/uint256.h:181-186 | Equality of the numbers. |
| `Uint.BaseUint.Less` | src/uint256.h:153-159 | The order of the numbers. |
| `Uint.BaseUint.AtMost` | src/uint256.h:160-166 | The order of the numbers. |
| `Uint.BaseUint.Greater` | src/uint256.h:167-173 | The order of the numbers. |
| `Uint.BaseUint.AtLeast` | src/uint256.h:174-180 | The order of the numbers. |
| `Uint.Decides` | src/uint256.h:153-180 | The highest word in which two numbers differ decides. |
| `Uint.ValInjective` | src/uint256.h:181-186 | Equal numbers have equal words. |
| `UintHex.MemoryValue` | src/uint256.h:211-217 | The bytes in memory stand for the same number as the words. |
| `UintHex.GetHex` | src/uint256.h:211-217 | Two lower-case digits for every byte, together the number. |
| `UintHex.ScanDigits` | src/uint256.h:221-229 | Spaces and a 0x are passed over and the digits taken up to the first other character. |
| `UintHex.ParsedText` | src/uint256.h:221-229 | A text of any of the six spaces, a 0x or none, digits and anything else stands for the number of the digits. |
| `UintHex.DigitIs` | src/uint256.h:230-241 | The value of each of the sixteen digits, in either case. |
| `UintHex.DigitsAre` | src/uint256.h:226-229 | No other character is a digit. |
| `UintHex.ParseDigits` | src/uint256.h:231-241 | The bytes filled from the end stand for the digits modulo the width. |
| `UintHex.SetHex` | src/uint256.h:218-242 | The number of the digits, modulo two to the width. |
| `UintHex.RoundTrip` | src/uint256.h:211-242 | Reading back what was written restores every word. |
| `BigNum.BodyRoundTrip` | src/bignum.h:151-197 | The sign-and-magnitude bytes of a number decode to it. |
| `BigNum.CanonicalUnique` | src/bignum.h:422-445 | Bytes with none to spare are the bytes of the number they decode to. |
| `BigNum.SignificantBytes` | src/bignum.h:168-190 | The loop produces the signed bytes of the magnitude without leading zeros, in at most nine bytes. |
| `BigNum.BigNum.SetInt64` | src/bignum.h:151-197 | The value set is the integer, for every 64-bit integer including the least. |
| `BigNum.BigNum.GetUint64` | src/bignum.h:198-216 | The magnitude modulo 2^64. |
| `BigNum.SetAndGet` | src/bignum.h:151-216 | Setting an integer and reading it back gives its magnitude. |
| `BigNum.BigNum.SetCompact` | src/bignum.h:422-432 | The value is that of the three bytes and zeros the word describes. |
| `BigNum.BigNum.GetCompact` | src/bignum.h:434-445 | The word holds the length and the first three bytes. |
| `BigNum.CompactKeeps` | src/bignum.h:422-445 | For lengths below 256 a number comes back with its sign, never larger, short by less than the dropped bytes are worth, exact up to three bytes, and with the same compact word. |
| `BigNum.CompactKeepsIff` | src/bignum.h:422-445 | That bound on the loss holds exactly for lengths below 256. |
| `BlockAssembly.LimitsFrom` | src/miner.cpp:159-176 | The limits used are sane whatever the settings. |
| `BlockAssembly.Assembly.CollectInputs` | src/miner.cpp:209-249 | A transaction waits for exactly the pool transactions it spends, and is listed under each. |
| `BlockAssembly.Assembly.Collect` | src/miner.cpp:198-278 | Every candidate starts out ready or waiting, as its inputs say. |
| `BlockAssembly.Assembly.TakeFront` | src/miner.cpp:296-305 | The transaction taken is ready, none ready comes before it in the order in force, and it was never taken before. |
| `BlockAssembly.Assembly.Passes` | src/miner.cpp:307-345 | A transaction passes exactly when it fits on top of those added, and the order switches to fees exactly when the priority part is over. |
| `BlockAssembly.Assembly.Decide` | src/miner.cpp:296-369 | A transaction goes in exactly when it is accepted on top of those already in the block, in the order in force. |
| `BlockAssembly.Assembly.Consider` | src/miner.cpp:296-402 | The block grows by the transaction exactly if it is accepted in the order in force, and the order switches exactly when the rule says. |
| `BlockAssembly.Assembly.Append` | src/miner.cpp:371-381 | The totals stay exact sums and strictly inside the limits. |
| `BlockAssembly.Assembly.Release` | src/miner.cpp:388-401 | Exactly those whose last missing parent this was become ready, once each, even when listed several times. |
| `BlockAssembly.Assembly.Fill` | src/miner.cpp:293-402 | It ends with no transaction ready; the block, the order and what was taken are what the turns come to, and each turn was that of a ready transaction none comes before. |
| `BlockAssembly.TurnDecides` | src/miner.cpp:293-402 | A transaction is in the finished block exactly if at its turn it was accepted on top of the block as it was, in the order then in force; an order by fee stays one. |
| `BlockAssembly.TurnOf` | src/miner.cpp:296-384 | Every transaction of the block went in at a turn of its own, accepted on top of exactly those before it. |
| `BlockAssembly.TurnOrder` | src/miner.cpp:95-118 | At every turn, by fee no ready transaction pays a higher rate, nor the same at a higher priority; by priority the other way round. |
| `BlockAssembly.FreeOnlyEarly` | src/miner.cpp:329-336 | Without a priority part, a transaction below the least fee is in the block only where it leaves the block below the least size. |
| `BlockAssembly.ParentsFirst` | src/miner.cpp:229-249 | Every pool transaction that a block transaction spends is in the block before it. |
| `BlockAssembly.CreateNewBlock` | src/miner.cpp:198-402 | From a closed pool the block is that of a run of such turns, starting empty in the configured order and ending with none ready; distinct transactions, parents first, exact totals within limits. |
| `Pbkdf2.HmacContext.Init` | src/pbkdf2.h:43-72 | The running hashes are those of the empty text under the key, hashed first when long, with the inner and outer pads. |
| `Pbkdf2.XorBytesBit` | src/pbkdf2.h:60-67 | Bytes are combined bit by bit, set where the two differ. |
| `Bits.XorBit` | src/pbkdf2.h:60-67 | A bit of an exclusive or is set exactly where the bits differ. |
| `Bits.OrBit` | src/scrypt.cpp:72 | A bit of a bitwise or is set exactly where one of the bits is. |
| `Pbkdf2.HmacContext.Final` | src/pbkdf2.h:79-94 | After a key and the parts of a text, the digest is the keyed hash of that text, as section 2 of RFC 2104 has it. |
| `Pbkdf2.DeriveBlock` | src/pbkdf2.h:112-134 | A block is the exclusive or of the iterates, as section 5.2 of RFC 2898 has it. |
| `Pbkdf2.Derive` | src/pbkdf2.h:101-144 | Exactly the derived key is written, for every count and length allowed. |
| `Scrypt.RotateIs` | src/scrypt.cpp:72 | The bits that leave a word at the top come back at the bottom. |
| `Scrypt.MixBit` | src/scrypt.cpp:72-83 | The one operation of the rounds, bit by bit: the sum modulo 2^32, rotated left, combined by exclusive or. |
| `Scrypt.WordsCombined` | src/scrypt.cpp:56-119 | Words are combined bit by bit, and added modulo 2^32. |
| `Scrypt.DoubleRound` | src/scrypt.cpp:73-101 | The interleaved statements are a column round and a row round of section 3 of RFC 7914. |
| `Scrypt.XorSalsa8` | src/scrypt.cpp:53-119 | In place, one half becomes the core of its combination with the other. |
| `Scrypt.MixBlock` | src/scrypt.cpp:125-126 | Two calls are one block mix of section 4 of RFC 7914. |
| `Scrypt.PicksEntry` | src/scrypt.cpp:129 | The low bits of one word pick the entry the whole half-block would, as a number. |
| `Scrypt.FillTable` | src/scrypt.cpp:123-127 | The table holds the block and its successive mixes, inside its bounds. |
| `Scrypt.FoldTable` | src/scrypt.cpp:128-134 | Each round mixes with the entry picked, always inside the table. |
| `Scrypt.ScryptCore` | src/scrypt.cpp:121-135 | The in-place computation is the mix of section 5 of RFC 7914. |
| `Scrypt.ScryptHash` | src/scrypt.cpp:171-183 | The result is the function of section 6 of RFC 7914 with N = 1024, r = 1, p = 1 and 32 bytes. |
| `Scrypt.ScryptNoSalt` | src/scrypt.cpp:143-155 | The same, with the input as its own salt. |
| `LevelDb.LastDecides` | src/db.cpp:913-942 | The last operation of a batch on a key decides what the key reads as after the commit. |
| `LevelDb.LevelDb.ScanBatch` | src/db.cpp:944-963 | The scan finds the last operation on the key. |
| `LevelDb.LevelDb.ReadNormal` | src/db.h:956-992 | Inside a batch or not, a read returns what it would return after the commit. |
| `LevelDb.LevelDb.ExistsNormal` | src/db.h:1124-1142 | Existence is that of the committed store, except for a key erased in the batch and still on disk. |
| `LevelDb.ExistsRight` | src/db.h:1132-1141 | The existence check is right exactly when the key is not erased in the batch while still on disk. |
| `LevelDb.RefusedRewrite` | src/db.h:1030-1060 | A write that must not overwrite is refused after an erase of the key in the same batch. |
| `LevelDb.LevelDb.WriteNormal` | src/db.h:1030-1060 | When it is refused and what the store to be holds afterwards. |
| `LevelDb.LevelDb.EraseNormal` | src/db.h:1085-1104 | The store to be loses the key; the disk is untouched while a batch is open. |
| `LevelDb.LevelDb.TxnCommit` | src/db.cpp:1004-1018 | The store becomes what reads were already showing. |
| `LevelDb.LevelDb.TxnAbort` | src/db.cpp:1020-1026 | Reads show again what was there before the batch. |
| `LevelDb.LevelDb.Transaction` | src/db.cpp:992-1026 | Over any writes and erases, reads before and after the commit agree, and an abort restores the store. |

## Left out

- AddrMan.AddrMan.Good_: locks, logging and the exit for an entry found in no bucket, which cannot be taken.
- AddrLoad.Load: the stream is a record whose lengths agree with their counts, without parsing bytes; the bucket lists of a stream with another number of "new" buckets, which the source reads past, and unsound lists, beyond the cap on references, are not described.
- AddrCheck.Check_: which of the error codes a failure gives.
- AddrRoundTrip.LoadedRestored: what `nTime` and `nLastTry` were, the order of `vRandom` and the order inside "tried" buckets, which the stream does not keep.
- BufferedFile.BufferedFile.Read: a destination of 2^63 bytes or more, which cannot exist.
- BlockAssembly.Assembly.Passes: wrap-around of the 32-bit count of signature operations.
- Pbkdf2.Derive: digests other than 32 bytes, for which the fixed 64-byte inner pad does not follow the RFC; clearing of buffers.
- Scrypt.ScryptHash: aligning the scratchpad; the hand-written assembly variant.
- CheckQueueSteps.StepKeeps: the forced exit on shutdown; more than one master.
- `Select_` and `GetChance` of the address manager: floating point and probabilistic termination.
- `Seek` of the buffered file: it moves without invalidating stale bytes, so rewinding below a seek target is outside the claim.
- Scanning kernels forward with threads, and the generic worker, which holds an assertion that is always false.
- Fetching and connecting inputs, minimum fees, switching the best chain: arbitrary outcomes here.
- Sockets, name resolution, address discovery, start-up, wallets, key stores, alerts, logging, RPC and the user interface.
- The other database back ends, secure reads and writes, and database failures.
