# Qogecoin Core: verified models

A Dafny model of the parts of Qogecoin Core whose correctness is hardest to see
from the code: structures that are updated in place and must stay consistent,
caches and fast forms that must agree with a simple specification, a concurrent
protocol, and codecs with real size bounds. Each part is modelled with the
branches, constants and error conditions of the program, and what it is for is
proved for all inputs, all runs or all reachable states.

| files | component |
|---|---|
| AddrTables, AddrOps, AddrManager, AddrRuns, AddrPromises, AddrEviction, AddrCheck, AddrFile, AddrLoading, AddrRebucket, AddrPersistence, AddrMan | the address manager: its five cross-linked structures, every operation on them, the run-time consistency checker, saving and loading |
| Coins, CoinsView | stacks of UTXO caches over a database |
| CheckQueue | the script check queue: one master and any number of workers |
| PartialMerkle, MerkleSizes, MerkleBlock, MerkleClaims | partial Merkle trees, how large they get and what they can claim (BIP 37, section "Partial Merkle branch format") |
| Cuckoo, CuckooCache | the signature cache's cuckoo table |
| Limbs, Arith256, Compact | 256-bit arithmetic, compact targets, block proof |
| SkipSteps, Chain | the block tree with skip pointers and the cost of searching it, the active chain, locators |
| Bech32, Bech32Codec, Gf1024, Bech32Bch | Bech32 and Bech32m, and their checksum as a BCH code (BIP 173 section "Bech32", BIP 350 section "Bech32m") |
| Radix, Base58 | Base58 |
| BlockOffers, BlockEncodings | compact blocks (BIP 152, section "HeaderAndShortIDs") |
| Arithmetic, Common | facts about division and powers, and small notions, that several components share |

How it is built. State that the program updates in place is a class whose
methods follow the program step by step, each proved to end in the state that a
function on values describes; what the program promises is then proved of those
functions and of the invariants they keep. Hashes, net groups and keyed
randomness are arbitrary functions, random draws and the clock are parameters,
and the pair hash of Merkle trees is a free constructor.

Some results that go beyond any single function:

- From the empty address manager, every sequence of operations with positive
  times keeps the whole consistency invariant (`AddrRuns.Run`); an occupied
  tried slot is never emptied again (`AddrRuns.RunEvolves`); the run-time
  checker accepts exactly the tables that satisfy the invariant
  (`AddrCheck.AcceptedIffSound`); any file that loads at all, whoever wrote
  it, gives consistent tables (`AddrLoading.LoadedConsistent`); and at any
  point of any run, saving and loading restores every entry and both tables
  under new ids (`AddrPersistence.RunRestored`,
  `AddrPersistence.SessionRestored`). A pending collision ends in an exchange
  of the two entries if and only if the one in the way should be evicted
  (`AddrEviction.CollisionSettled`), and a file whose buckets cannot be trusted
  gives each slot to the first entry that hashes there
  (`AddrRebucket.RebucketedExact`).
- A stack of coin caches of any depth is a plain map of unspent coins, whatever
  is cached where, and flushing never reaches the misapplied-FRESH error
  (`Coins.FlushKeepsView`, `CoinsView.CoinsViewCache.Flush`).
- In every interleaving of the check queue, Wait returns the conjunction of the
  checks of its round, no wakeup is lost, and Wait returns after a bounded
  number of steps (`CheckQueue.WaitIsConjunction`, `CheckQueue.NoLostWakeup`,
  `CheckQueue.WaitIsBounded`).
- A partial Merkle tree that extracts to the root of a list can claim a
  transaction the list does not have only if its stored count gives a lower
  tree (`MerkleClaims.SoundCountsIff`).
- An insert into the signature cache loses no element of the current epoch but
  one that was pushed on as often as allowed (`Cuckoo.InsertNewSpares`,
  `Cuckoo.DropsLate`).
- Where the scans for a compact block stop is of no consequence for an offer
  that no later one disagrees with (`BlockOffers.UndisputedFills`).
- The Bech32 checksum is a BCH code: any change of up to three symbols within a
  window of 1023 changes the remainder (`Bech32Bch.ThreeDetected`), so a string
  with up to three data characters changed anywhere, or any number of them
  among six consecutive ones, is never valid under the same encoding
  (`Bech32Bch.ScatteredErrorsDetected`, `Bech32Codec.ErrorsDetected`); and the
  accepted strings are exactly the encodings, up to case
  (`Bech32Codec.EncodeDecoded`).
- Searching an ancestor by skip pointers finds what walking along parents
  finds, in a number of steps quadratic in the number of binary digits of the
  height (`Chain.BlockIndex.GetAncestor`, `SkipSteps.FewSteps`).
- The block proof is 2^256 / (target + 1) exactly (`Compact.GetBlockProof`),
  computed by limb loops each proved against natural-number arithmetic.

Where the code and its comments differ, the model follows the code. The remark
that a partial Merkle tree stores at most 2*N-1 bits for N hashes is false;
`MerkleSizes.EncodedSizes` says exactly when it holds and
`MerkleSizes.BitBoundFails` gives a block of three transactions. So is the size
guarantee of 10 + ceil(32.25*N) bytes, by one byte for a block of 1012 matched
transactions (`MerkleSizes.SizeBoundIff`, `MerkleSizes.SizeBoundFails`). The
cuckoo cache's comment says that the first displaced slot is the first hash location;
the code takes the second. A partial tree whose root is the null hash cannot be
told from a failure: extraction is sound exactly for the lists whose root is not
null, which are all but the single null id (`MerkleBlock.SoundIff`,
`MerkleBlock.ZeroRootIff`, `MerkleBlock.ZeroRootUnsound`). AddCoin without
permission to overwrite breaks the FRESH invariant exactly when an unspent coin
is hidden below the cache (`Coins.AddSetsCoin`, `Coins.SpendAdded`, `Coins.HiddenCoinComesBack`).

## Model

| member | source | states |
|---|---|---|
| `AddrOps.Create` | src/addrman.cpp:414-426 | A new entry is listed once in every index, counted as new and still without a slot; all other entries are untouched and every other clause of the invariant still holds. |
| `AddrOps.SwapRandom` | src/addrman.cpp:428-450 | Swapping two places keeps the random list and the recorded positions inverse to each other and changes nothing else of any entry. |
| `AddrOps.Delete` | src/addrman.cpp:452-466 | Removing an entry without a slot keeps every clause of the invariant and every other entry, up to its place in the random list. |
| `AddrOps.ClearNew` | src/addrman.cpp:468-484 | The slot ends up free; only its owner is affected, which loses one reference or, with its last one, disappears; the invariant holds again and no other entry becomes slotless. |
| `AddrOps.MakeRoom` | src/addrman.cpp:509-534 | Evicting the tried entry in the way moves it back to the new table and empties exactly that tried slot; entries keep address and source, none appears, none is left without a slot. Which slot it takes and what that costs the entry there is in `AddrEviction.MakeRoomExact`. |
| `AddrOps.MakeTried` | src/addrman.cpp:486-539 | The entry ends in the tried table at its hashed slot without any new reference, the slot assertions hold, no occupied tried slot is freed, and no other entry becomes slotless. |
| `AddrOps.OrphanOwnsNoSlot` | src/addrman.cpp:524-525 | The slot an evicted entry goes back to is never owned by an entry without references, so clearing it cannot delete the entry being moved. |
| `AddrOps.UntriedLinked` | src/addrman.cpp:516-519 | Taking an entry out of the tried table keeps the invariant and its reference count was zero. |
| `AddrOps.EnteredLinked` | src/addrman.cpp:534-538 | Entering the freed tried slot keeps the invariant. |
| `AddrOps.DroppedLinked` | src/addrman.cpp:490-503 | Dropping every new reference of an entry keeps the invariant with the count at zero. |
| `AddrOps.PlacedLinked` | src/addrman.cpp:601-604 | Giving an entry one more slot at its hashed position keeps the invariant while it has fewer than eight. |
| `AddrManager.Insert` | src/addrman.cpp:590-613 | The entry newly owns the slot its source hashes to exactly when the call says so, the invariant holds again, and no entry is left without a slot. |
| `AddrManager.AddSingle` | src/addrman.cpp:541-614 | Announcing an address from consistent tables leaves consistent tables, keeps the tried table and the pending collisions, and if it reports success the address owns the slot its source hashes to. |
| `AddrManager.AddKnown` | src/addrman.cpp:556-583 | The same for an address already known. |
| `AddrManager.AddUnknown` | src/addrman.cpp:584-613 | The same for an address not known before. |
| `AddrManager.Add` | src/addrman.cpp:670-680 | A whole announcement keeps consistency, ids keep their addresses, the tried table and pending collisions stay as they are. |
| `AddrManager.Good` | src/addrman.cpp:616-668 | Consistency is kept, every new pending collision is the reported address and hashes to an occupied tried slot, and a reported move puts the address in the tried table. |
| `AddrManager.Update` | src/addrman.cpp:682-700 | Attempt, Connected and SetServices keep consistency and touch no entry but that of the address. |
| `AddrManager.GetAddrFrom` | src/addrman.cpp:785-805 | From any place of the random list on, the draw only shuffles the list, and what is chosen are wanted entries, each at most once, within the limit, and all of them if the limit is not reached. |
| `AddrManager.GetAddr` | src/addrman.cpp:771-807 | At most the allowed number of addresses is handed out, each a wanted, known address as announced and none twice; fewer only if every wanted entry is among them; the tables stay consistent. |
| `AddrManager.CollisionRecorded` | src/addrman.cpp:649-660 | Recording a collision keeps every pending id hashed to an occupied tried slot. |
| `AddrRuns.ResolveOne` | src/addrman.cpp:847-900 | Settling one collision keeps consistency, adds no collision and settles no other; how it is settled is in `AddrEviction.CollisionSettled`. |
| `AddrRuns.ResolveAll` | src/addrman.cpp:843-902 | Settling all pending collisions in increasing order of id keeps consistency and adds none. |
| `AddrRuns.SelectTriedCollision` | src/addrman.cpp:904-930 | An answer is given exactly for an id that still exists, and it is the address and last try of the tried entry in the slot the id hashes to, so no lookup of a free slot happens; an id that is gone is dropped from the pending ones and nothing else changes. |
| `AddrRuns.Apply` | src/addrman.cpp:1064-1139 | Every public operation keeps the invariant between operations and evolves the tables. |
| `AddrRuns.After` | src/addrman.cpp:1064-1139 | Every sequence of operations with positive times on consistent tables ends in consistent tables. |
| `AddrRuns.Run` | src/addrman.cpp:1064-1139 | From the empty manager, every sequence of operations with positive times ends in tables that satisfy the whole invariant. |
| `AddrRuns.RunEvolves` | src/addrman.cpp:510-538 | Along a run, a tried slot once occupied stays occupied and an id never changes its address or source. |
| `AddrRuns.EmptyConsistent` | src/addrman.cpp:102-118 | The empty manager satisfies the invariant. |
| `AddrPromises.RefreshedForward` | src/addrman.cpp:557-562 | Hearing of a known address again never moves its time back nor past the announced time, and starts an unset time at the announced one less the penalty. |
| `AddrPromises.RefreshedServices` | src/addrman.cpp:564-565 | No service bit is ever forgotten and every announced one is recorded. |
| `AddrPromises.UnknownStored` | src/addrman.cpp:584-613 | An unknown address is stored, with one reference and its announced data, exactly when its slot is free, its owner is not worth keeping or can spare the slot; otherwise no entry and no slot changes. |
| `AddrPromises.KnownRefreshed` | src/addrman.cpp:556-613 | A known address gains a slot exactly when the news is fresher than what is recorded, it is untried with room for a reference, the draw allows it and the slot is free or its owner is not worth keeping; otherwise only its own time and services change. |
| `AddrPromises.InsertExact` | src/addrman.cpp:590-613 | When an entry gets its slot, and that all entries but it and the slot owner stay as they are. |
| `AddrPromises.GoodExact` | src/addrman.cpp:616-668 | The address moves exactly when it is known, untried and the slot is free or eviction is allowed; success is recorded in every case it is known; if it does not move no other entry changes and the collision is recorded while there is room. |
| `AddrPromises.MakeTriedKeeps` | src/addrman.cpp:486-539 | The moved entry keeps its statistics. |
| `AddrPromises.MakeTriedKeepsTried` | src/addrman.cpp:509-538 | A tried entry at another slot is left alone. |
| `AddrPromises.ResolveOneSpares` | src/addrman.cpp:866-869 | Settling a collision does not evict an entry that connected within the last four hours. |
| `AddrPromises.RefreshedWhen` | src/addrman.cpp:558-562 | News moves the time of an address exactly if it is newer by more than the penalty and an interval, of an hour for an address seen within a day, else of a day. |
| `AddrPromises.WorthKeepingIff` | src/addrman.cpp:67-85 | An entry is worth keeping if and only if it was tried within a minute, or was seen in the last 30 days, is not from the future, and has not failed too often. |
| `AddrPromises.SingleExact` | src/addrman.cpp:541-614 | Every outcome of announcing one address: unroutable, known and refreshed, refused by luck, reference count or an entry worth keeping, or placed, with the entry in the way losing one reference. |
| `AddrPromises.EveryAddressAdded` | src/addrman.cpp:670-680 | An announcement has the effect of each of its addresses, in order, and answers whether any was added. |
| `AddrPromises.UpdateExact` | src/addrman.cpp:682-699 | The exact new statistics of an entry after an attempt, a connection or new services, and that nothing else changes. |
| `AddrPromises.CountedOnce` | src/addrman.cpp:682-699 | Of two attempts in a row the second is counted only if the first is earlier than the last good connection: failures count at most once per good connection. |
| `AddrManager.LimitIsLargest` | src/addrman.cpp:775-781 | A number of addresses is within the limit if and only if it is within the maximum and the percentage, where zero stands for no restriction. |
| `AddrEviction.ClearExact` | src/addrman.cpp:468-484 | Emptying a new slot costs the entry there exactly one reference, deletes it if that was the last, and keeps everything else. |
| `AddrEviction.MakeRoomExact` | src/addrman.cpp:509-534 | The evicted tried entry is new again, with one reference, in the slot its source hashes to; the entry there before loses exactly one reference; all others are kept. |
| `AddrEviction.MakeTriedExact` | src/addrman.cpp:486-539 | The entry gives up all its new slots and takes its tried slot with its statistics unchanged; who was there is back in the new table. |
| `AddrEviction.GoodMoves` | src/addrman.cpp:616-668 | A good connection that moves an address: success recorded, attempts cleared, tried slot taken, the entry in the way moved back. |
| `AddrEviction.CollisionSettled` | src/addrman.cpp:843-902 | A pending entry takes the tried slot if and only if the one there has not connected for four hours and was tried in vain or could not be tested; else the collision is dropped or waits, and nothing changes. |
| `AddrEviction.CollisionDropped` | src/addrman.cpp:852-862 | A collision of an entry that is gone or not valid is dropped and changes nothing else. |
| `AddrEviction.CollisionWithItself` | src/addrman.cpp:863-895 | A collision of an entry that is tried by now changes at most its own statistics. |
| `AddrRebucket.GoodFileLoads` | src/addrman.cpp:225-397 | A file without repeated addresses loads into consistent tables, whatever the hashes, the checksum and the order of pruning. |
| `AddrRebucket.RebucketedExact` | src/addrman.cpp:314-374 | If the buckets of a file cannot be trusted, each new slot goes to the first listed entry whose source hashes there, and an entry survives if and only if it got its slot. |
| `AddrRebucket.FreeHomeSurvives` | src/addrman.cpp:314-374 | A listed entry whose slot no other valid entry hashes to survives with one reference. |
| `AddrRebucket.PrunedExact` | src/addrman.cpp:376-386 | Pruning removes exactly the entries without a slot, in any order, and keeps the others. |
| `AddrRebucket.TriedSurvive` | src/addrman.cpp:293-312 | After loading any file a tried slot holds the first record with a valid address that hashes there. |
| `AddrRebucket.WrittenGood` | src/addrman.cpp:129-223 | What a sound manager writes has no repeated address, sane times and counts within the limits. |
| `AddrRebucket.LoadsAnywhere` | src/addrman.cpp:225-397 | What a sound manager wrote, any manager loads into consistent tables, with whatever key and address groups. |
| `AddrPromises.PendingBriefly` | src/addrman.cpp:866-889 | A collision stays pending only while the entry in its way was tried within a minute or the candidate connected within the 40-minute test window. |
| `AddrPromises.ResolveSpares` | src/addrman.cpp:843-902 | Nor does settling any number of them in a row. |
| `AddrPromises.RunAdmits` | src/addrman.cpp:545-546 | Any property of addresses that routable ones have and that all entries had, all entries have after every run. |
| `AddrPromises.RunRoutable` | src/addrman.cpp:545-546 | In every reachable state every entry is a routable address. |
| `AddrCheck.CheckAddrman` | src/addrman.cpp:970-1056 | The run-time checker returns zero exactly for the tables that meet its declarative reading, entry by entry and slot by slot. |
| `AddrCheck.CheckEntries` | src/addrman.cpp:983-1014 | The pass over the entries succeeds iff every entry passes its own checks, and yields the tried ids and the claimed reference counts. |
| `AddrCheck.CheckTried` | src/addrman.cpp:1016-1031 | The scan of the tried table succeeds iff each tried entry sits at its hashed slot and nothing else is there. |
| `AddrCheck.CheckNew` | src/addrman.cpp:1033-1051 | The scan of the new table succeeds iff every slot is at its hashed position and owners have as many slots as they claim. |
| `AddrCheck.AcceptedIffSound` | src/addrman.cpp:970-1056 | Without stale names in the address map and with ids below the id counter, neither of which the checker looks at, it accepts exactly the tables that satisfy the invariant the operations keep. |
| `AddrCheck.SoundAccepted` | src/addrman.cpp:970-1056 | The invariant implies that the checker returns zero. |
| `AddrFile.RoundTrip` | src/addrman.cpp:126-222 | Tables that satisfy the invariant and hold only valid addresses, written and loaded under the same checksum, come back entry for entry and slot for slot under new ids, pass the check and satisfy the invariant between operations. |
| `AddrFile.FilledShaped` | src/addrman.cpp:282-374 | Whatever the file says, loading stays within the fixed-size tables. |
| `AddrFile.IdOrderComplete` | src/addrman.cpp:185-204 | The new entries and then the tried entries, in iteration order, are all entries once, as many as the counters say, so the two count assertions hold. |
| `AddrFile.EntriesLoaded` | src/addrman.cpp:282-312 | After both lists of entries are read, every entry is back with its stored data, the address map, the random list and the tried table are rebuilt, and none is lost. |
| `AddrFile.BucketsLoaded` | src/addrman.cpp:314-374 | Reading the bucket lists of a written file fills every new slot again with its old owner and counts the references exactly. |
| `AddrFile.EntriesWritten` | src/addrman.cpp:205-218 | The bucket lists of a written file name, in order, each occupied slot once with the index of its owner. |
| `AddrFile.RenamedSound` | src/addrman.cpp:391-396 | Tables that are sound stay sound under renaming of ids. |
| `AddrFile.SizesFit` | src/addrman.cpp:268-280 | The number of new and tried entries never exceeds what the loader accepts. |
| `AddrFile.NothingPruned` | src/addrman.cpp:376-386 | Nothing is pruned from sound tables, whatever the order of the pass. |
| `AddrLoading.FilledLoading` | src/addrman.cpp:225-374 | Whatever the file says, the tables built from it have no stale names, bounded ids and only valid addresses in their slots. |
| `AddrLoading.PrunedLoading` | src/addrman.cpp:376-386 | Pruning in any order keeps that and leaves no entry without a slot. |
| `AddrLoading.LoadedConsistent` | src/addrman.cpp:225-397 | Any file that is accepted, whoever wrote it and in whatever order pruning visits the entries, gives tables that satisfy the whole invariant and hold only valid addresses. |
| `AddrPersistence.RunRestored` | src/addrman.cpp:126-397 | At any point of any run of the manager, saving and loading restores all entries and both tables under new ids in a consistent state. |
| `AddrPersistence.SessionRestored` | src/addrman.cpp:126-397 | The same for runs that start from any accepted file. |
| `AddrMan.AddrManImpl.constructor` | src/addrman.cpp:102-118 | A new manager has empty, consistent tables. |
| `AddrMan.AddrManImpl.Create` | src/addrman.cpp:414-426 | The fields updated step by step end as the operation on tables of the same name says, for which the invariant is proved. |
| `AddrMan.AddrManImpl.SwapRandom` | src/addrman.cpp:428-450 | The fields updated step by step end as the operation on tables of the same name says, for which the invariant is proved. |
| `AddrMan.AddrManImpl.Delete` | src/addrman.cpp:452-466 | The fields updated step by step end as the operation on tables of the same name says, for which the invariant is proved. |
| `AddrMan.AddrManImpl.ClearNew` | src/addrman.cpp:468-484 | The fields updated step by step end as the operation on tables of the same name says, for which the invariant is proved. |
| `AddrMan.AddrManImpl.MakeTried` | src/addrman.cpp:486-539 | The fields updated step by step end as the operation on tables of the same name says, for which the invariant is proved. |
| `AddrMan.AddrManImpl.MakeRoom` | src/addrman.cpp:509-534 | The fields updated step by step end as the operation on tables of the same name says, for which the invariant is proved. |
| `AddrMan.AddrManImpl.AddSingle` | src/addrman.cpp:541-614 | The fields updated step by step end as the operation on tables of the same name says, for which the invariant is proved. |
| `AddrMan.AddrManImpl.Insert` | src/addrman.cpp:590-613 | The fields updated step by step end as the operation on tables of the same name says, for which the invariant is proved. |
| `AddrMan.AddrManImpl.Add` | src/addrman.cpp:670-680 | The fields updated step by step end as the operation on tables of the same name says, for which the invariant is proved. |
| `AddrMan.AddrManImpl.Good` | src/addrman.cpp:616-668 | The fields updated step by step end as the operation on tables of the same name says, for which the invariant is proved. |
| `AddrMan.AddrManImpl.Update` | src/addrman.cpp:682-700 | The fields updated step by step end as the operation on tables of the same name says, for which the invariant is proved. |
| `AddrMan.AddrManImpl.GetAddr` | src/addrman.cpp:771-807 | The fields updated step by step end as the operation on tables of the same name says, for which the invariant is proved. |
| `AddrMan.AddrManImpl.ResolveCollisions` | src/addrman.cpp:843-902 | The fields updated step by step end as the operation on tables of the same name says, for which the invariant is proved. |
| `AddrMan.AddrManImpl.ResolveOne` | src/addrman.cpp:847-900 | The fields updated step by step end as the operation on tables of the same name says, for which the invariant is proved. |
| `AddrMan.AddrManImpl.SelectTriedCollision` | src/addrman.cpp:904-930 | The fields updated step by step end as the operation on tables of the same name says, for which the invariant is proved. |
| `AddrMan.AddrManImpl.DropNewRefs` | src/addrman.cpp:490-503 | Probing one slot per bucket, starting at the own bucket and stopping early, removes every new reference of the entry and no other. |
| `AddrMan.AddrManImpl.Serialize` | src/addrman.cpp:126-222 | The loops write the new entries, the tried entries and the bucket lists of the file that loading is proved to undo, and the count assertions hold. |
| `AddrMan.AddrManImpl.WriteNew` | src/addrman.cpp:185-195 | The new entries in iteration order, numbered as the bucket lists need them. |
| `AddrMan.AddrManImpl.WriteTried` | src/addrman.cpp:196-204 | The tried entries in iteration order. |
| `AddrMan.AddrManImpl.WriteBucket` | src/addrman.cpp:205-218 | For each occupied slot of a bucket in order, the number of its owner. |
| `AddrMan.AddrManImpl.Unserialize` | src/addrman.cpp:225-397 | Loading into an empty manager ends in the tables the file describes if they pass the check, which are then consistent, and fails otherwise. |
| `AddrMan.AddrManImpl.ReadNew` | src/addrman.cpp:282-290 | Ids, positions and names of the new entries. |
| `AddrMan.AddrManImpl.ReadTried` | src/addrman.cpp:292-312 | Tried entries enter their hashed slots; invalid ones and those whose slot is taken are lost and counted off. |
| `AddrMan.AddrManImpl.ReadEntries` | src/addrman.cpp:317-329 | The usable bucket entries in order. |
| `AddrMan.AddrManImpl.PlaceEntries` | src/addrman.cpp:346-374 | Every bucket entry tried in turn, in its old slot or else by its source. |
| `AddrMan.AddrManImpl.Prune` | src/addrman.cpp:376-386 | Entries that found no slot are deleted, in whatever order the pass visits them. |
| `Coins.EmptyCache` | src/coins.h:96-127 | An empty cache is legal and shows its base. |
| `Coins.ViewUnspent` | src/coins.h:160-163 | A view never shows a spent coin. |
| `Coins.FetchKeepsView` | src/coins.cpp:41-56 | Fetching changes nothing observable, keeps the flag invariant, and finds a coin iff the view has one. |
| `Coins.UncacheKeepsView` | src/coins.cpp:242-255 | Dropping an unmodified entry changes nothing observable. |
| `Coins.AddSetsCoin` | src/coins.cpp:67-105 | Adding sets exactly that coin in the view; the flag invariant survives if and only if no unspent coin is hidden below the cache when overwriting was ruled out. |
| `Coins.SpendRemovesCoin` | src/coins.cpp:126-146 | Spending removes exactly that coin from the view and keeps the flag invariant. |
| `Coins.SpendAdded` | src/coins.cpp:67-146 | Adding and then spending a coin removes it from the view if and only if no unspent coin is hidden below the cache; otherwise the hidden coin is back. |
| `Coins.HiddenCoinComesBack` | src/coins.cpp:67-146 | An empty cache over one coin is such a case. |
| `Coins.MergeOneEntry` | src/coins.cpp:179-230 | Merging one child entry into its parent shows the same coin as before, leaves a legal parent entry against the grandparent, and cannot be a misapplied FRESH. |
| `Coins.FlushKeepsView` | src/coins.cpp:179-240 | Flushing a whole cache into its parent leaves the observable map as it was, makes it the map of the parent, re-establishes the parent invariant against its base, and never throws. |
| `Coins.CreatedAndSpentVanishes` | src/coins.cpp:126-148 | A coin that a stack creates and spends before it reaches the view below leaves no entry, in whichever cache it is spent. |
| `Coins.SpentMarkKept` | src/coins.cpp:126-148 | A coin that the view below has is kept as a dirty spent mark, through a flush as well. |
| `Coins.FlushToDatabase` | src/coins.cpp:235-240 | A database that applies the modified entries holds exactly the view of the cache. |
| `Coins.UsageAfterUpdate` | src/coins.cpp:54-54 | The usage total is the sum over the entries after a replacement. |
| `CoinsView.CoinsViewCache.OnDatabase` | src/coins.cpp:35-35 | A cache on a database shows the database. |
| `CoinsView.CoinsViewCache.OnCache` | src/coins.cpp:35-35 | A cache on a cache shows the same map. |
| `CoinsView.CoinsViewCache.FetchCoin` | src/coins.cpp:41-56 | At any depth of the stack, fetching keeps every invariant and the observable maps of this cache and its base. |
| `CoinsView.CoinsViewCache.GetCoin` | src/coins.cpp:58-65 | A coin is returned iff the observable map has it, and it is that coin; nothing observable changes. |
| `CoinsView.CoinsViewCache.HaveCoin` | src/coins.cpp:159-162 | Answers membership in the observable map and changes nothing observable. |
| `CoinsView.CoinsViewCache.AddCoin` | src/coins.cpp:67-105 | Sets the coin in the observable map, ignores unspendable outputs, and throws exactly on overwriting a cached unspent coin without permission; on return the usage total is exact. |
| `CoinsView.CoinsViewCache.SpendCoin` | src/coins.cpp:126-146 | Removes the coin from the observable map and moves it out; the usage total stays exact. |
| `CoinsView.CoinsViewCache.Uncache` | src/coins.cpp:242-255 | Changes nothing observable and keeps the usage total exact. |
| `CoinsView.CoinsViewCache.BatchWrite` | src/coins.cpp:179-233 | Merges every child entry, whatever the order, or throws, exactly if the FRESH flag of some entry is misapplied; the usage total stays exact. |
| `CoinsView.CoinsViewCache.Flush` | src/coins.cpp:235-240 | Never throws; the observable map is unchanged, becomes that of the base, and the cache is empty; the block the cache stands for is kept, and written to the database if that is the base. |
| `CoinsView.CoinsDatabase.BatchWrite` | src/txdb.cpp:114-147 | The database applies the modified entries, whatever their order. |
| `CoinsView.NeverMisapplied` | src/coins.cpp:205-211 | In a stack with valid flags the misapplied-FRESH error cannot be reached. |
| `CheckQueue.Apply` | src/checkqueue.h:69-130 | Every step of every thread keeps the protocol invariant: outstanding checks are those queued plus those in unfinished batches, and failures are never forgotten within a round. |
| `CheckQueue.After` | src/checkqueue.h:69-130 | Hence every run of steps from a state that satisfies the invariant does. |
| `CheckQueue.FromStart` | src/checkqueue.h:137-160 | Every reachable state satisfies the invariant, for any number of workers and any batch size. |
| `CheckQueue.WaitIsConjunction` | src/checkqueue.h:162-166 | In every interleaving, what Wait returned in each round is the conjunction of exactly the checks added in that round, and the rounds together are all checks added. |
| `CheckQueue.NoLostWakeup` | src/checkqueue.h:80-104 | Whenever the master sleeps without a pending notification, the queue is empty and some worker holds an unfinished batch. |
| `CheckQueue.TakenByOneThread` | src/checkqueue.h:113-120 | A check held by one thread is held by no other, nor still queued, nor done. |
| `CheckQueue.BatchFits` | src/checkqueue.h:109-114 | Every batch has at least one check and no more than the queue. |
| `CheckQueue.TakeBatch` | src/checkqueue.h:115-120 | Popping from the back gives the last checks in reverse order and leaves the rest. |
| `CheckQueue.TakeConserves` | src/checkqueue.h:115-120 | No check is lost or doubled by taking a batch. |
| `CheckQueue.ExecuteBatch` | src/checkqueue.h:125-127 | Short-circuiting, the batch passes iff it was worth running and all its checks pass. |
| `CheckQueue.AddKeepsInv` | src/checkqueue.h:168-188 | Adding checks keeps the invariant. |
| `CheckQueue.FinishKeepsInv` | src/checkqueue.h:80-86 | Handing in a batch, and waking the master when it was the last, keeps the invariant. |
| `CheckQueue.WakeKeepsInv` | src/checkqueue.h:91-103 | Waking up, spuriously or not, keeps the invariant. |
| `CheckQueue.NotifyKeepsInv` | src/checkqueue.h:183-187 | Notifying one or all workers keeps the invariant. |
| `CheckQueue.NeverStuck` | src/checkqueue.h:91-103 | While the master is inside Wait some thread can always take a step that is not a spurious wakeup. |
| `CheckQueue.StepsReduceWork` | src/checkqueue.h:69-130 | Every such step strictly reduces the work left. |
| `CheckQueue.WaitIsBounded` | src/checkqueue.h:162-166 | Hence the number of steps other than spurious wakeups while the master is inside Wait is bounded by the work there was: Wait returns. |
| `CheckQueue.BatchShared` | src/checkqueue.h:108-113 | A thread takes one check, or the largest batch within the limit that leaves as much for every thread inside or idle. |
| `PartialMerkle.NodeIffFirstLeaf` | src/merkleblock.h:70-72 | A node exists at a height exactly when its first leaf is a transaction. |
| `PartialMerkle.Children` | src/merkleblock.h:70-72 | The leaves under a node are those under its left child followed by those under its right child, if there is one. |
| `PartialMerkle.HashesDistinct` | src/merkleblock.cpp:57-75 | With distinct txids no two nodes of a height have the same hash, so identical siblings never occur honestly. |
| `PartialMerkle.ExtractSound` | src/merkleblock.cpp:95-131 | If a subtree extracts without error to the hash of that subtree, every match reported in it is a true (txid, index) pair. |
| `PartialMerkle.ExtractBuilt` | src/merkleblock.cpp:77-131 | Extracting what was built, from wherever it lies in the streams, consumes exactly its bits and hashes, gives the hash of the subtree and its matches in order. |
| `PartialMerkle.TopCoversAll` | src/merkleblock.cpp:138-144 | The root at the computed height covers all transactions. |
| `PartialMerkle.StoredSizes` | src/merkleblock.h:36-44 | Stored hashes of a subtree are at most its transactions and at most one plus matches times height; bits are twice the hashes less one plus the descents into lone children. |
| `MerkleSizes.LoneAtEdge` | src/merkleblock.h:35-52 | Descents without a right child happen exactly at the only children along the right edge of the tree that have a match under them. |
| `MerkleSizes.HashesCounted` | src/merkleblock.h:35-52 | The number of stored hashes is one more than the number of nodes, over all heights, that have two children and a match under them. |
| `MerkleSizes.EncodedSizes` | src/merkleblock.h:35-52 | The bounds on hashes hold; the bound on bits holds exactly when no match lies under the last node of a height of odd width, that is, under an only child. |
| `MerkleSizes.BitBoundFails` | src/merkleblock.h:51-51 | Three transactions with only the last matched store four bits and two hashes. |
| `MerkleSizes.SizeBoundIff` | src/merkleblock.h:35-52 | The exact numbers of hashes and bits in terms of the mask, and exactly when the serialized size is within 10 + ceil(32.25*N) bytes, for every block within the size limit. |
| `MerkleSizes.SizeBoundFails` | src/merkleblock.h:35-38 | A block of 1012 matched transactions takes one byte more. |
| `MerkleBlock.BitsToBytes` | src/merkleblock.cpp:12-19 | Bit p is bit p mod 8 of byte p div 8; the padding bits are zero. |
| `MerkleBlock.BytesToBits` | src/merkleblock.cpp:21-28 | The inverse reading of the bytes. |
| `MerkleBlock.SendBits` | src/merkleblock.cpp:12-28 | Packing and unpacking gives the bits back with less than a byte of zero padding. |
| `MerkleBlock.RoundTrip` | src/merkleblock.cpp:133-180 | For any non-empty list of distinct txids within the size limit and any mask, building, packing, unpacking and extracting succeeds with the true root and exactly the matched txids and indices in order. |
| `MerkleBlock.Soundness` | src/merkleblock.cpp:149-180 | For an arbitrary partial tree of the same size, if extraction returns the root of a list, and that root is not null, every extracted pair is in the list at its index. |
| `MerkleBlock.ZeroRootUnsound` | src/merkleblock.cpp:149-180 | A null root cannot be told from failure: the list of the single null id lets any txid through. |
| `MerkleBlock.ZeroRootIff` | src/merkleblock.cpp:57-75 | The root is null only for the list of the single null id. |
| `MerkleBlock.SoundIff` | src/merkleblock.cpp:149-180 | No tree stored under the true count can make a false claim about a list if and only if the root of the list is not null. |
| `MerkleClaims.ExtractSoundAnyCount` | src/merkleblock.cpp:95-131 | A subtree that extracts without an error to the true hash claims only transactions of the list, even if the stored count is wrong and the tree too high. |
| `MerkleClaims.SoundAtCount` | src/merkleblock.cpp:149-180 | A stored tree of any count that is high enough and yields the root of the list claims only its transactions. |
| `MerkleClaims.LowerCountUnsound` | src/merkleblock.cpp:149-180 | With a count that gives a lower tree, an inner hash passes for a transaction. |
| `MerkleClaims.SoundCountsIff` | src/merkleblock.cpp:149-180 | No tree stored under a count makes a false claim about a list of distinct ids, none of them a combined hash, if and only if the count is refused or its tree is at least as high. |
| `MerkleClaims.TrailingRejected` | src/merkleblock.cpp:149-180 | An accepted tree with a hash or a byte of bits more is not accepted. |
| `MerkleBlock.PartialMerkleTree.constructor` | src/merkleblock.cpp:133-145 | The constructed object holds the encoding of the list and mask. |
| `MerkleBlock.PartialMerkleTree.TraverseAndBuild` | src/merkleblock.cpp:77-93 | Appends exactly the encoding of the subtree. |
| `MerkleBlock.PartialMerkleTree.TraverseAndExtract` | src/merkleblock.cpp:95-131 | Reads, counts and flags errors as the recursive specification says, from any position and any streams; equal branches are an error, without which `MerkleClaims.ExtractSoundAnyCount` fails. |
| `MerkleBlock.PartialMerkleTree.ExtractMatches` | src/merkleblock.cpp:149-180 | All sanity checks and the traversal together give the result the theorems are about. |
| `MerkleBlock.PartialMerkleTree.Received` | src/merkleblock.h:88-96 | A received tree holds the unpacked bits. |
| `MerkleBlock.TreeHeight` | src/merkleblock.cpp:138-141 | The loop finds the smallest height of width one. |
| `MerkleBlock.ParentOfMatch` | src/merkleblock.cpp:79-81 | The loop decides whether any leaf below is matched. |
| `Cuckoo.FastRange` | src/cuckoocache.h:239-249 | The range reduction lands inside the table. |
| `Cuckoo.EpochCheckMakesRoom` | src/cuckoocache.h:285-317 | After the epoch check there is room for one more live element; the next scan comes no earlier than the epoch can be full, and no earlier than a sixteenth of it later. |
| `Cuckoo.EpochCheckSpares` | src/cuckoocache.h:285-317 | When the epoch ends, what remains to keep is exactly the current epoch, which becomes old; otherwise everything stays. |
| `Cuckoo.CurrentSpared` | src/cuckoocache.h:285-317 | Elements of the current epoch are always spared, and nothing is lost to age unless the epoch is full. |
| `Cuckoo.InsertStoredSpares` | src/cuckoocache.h:389-437 | Inserting a stored element makes it current and loses nothing that was spared. |
| `Cuckoo.InsertNewSpares` | src/cuckoocache.h:389-437 | A new element joins what is spared and what is current; the only loss is the element that the chain of displacements drops. |
| `Cuckoo.DropsLate` | src/cuckoocache.h:389-437 | An element is dropped only after as many forced displacements as the depth limit allows; before that the last one takes a discardable slot. |
| `Cuckoo.NeverSwapsBack` | src/cuckoocache.h:414-429 | With different candidate slots no element goes straight back to the slot the one before came from. |
| `Cuckoo.Insert` | src/cuckoocache.h:389-437 | Inserting keeps the whole invariant: every kept element sits at one of its hash locations and the epoch bound holds. |
| `Cuckoo.CarryKeeps` | src/cuckoocache.h:403-436 | A displacement chain keeps every kept element at one of its locations; the contents of the table, discardable or not, trade exactly the dropped element for the carried one, and what is kept loses at most the last carried element. |
| `Cuckoo.InsertConserves` | src/cuckoocache.h:389-437 | An element already stored is kept and nothing moves; otherwise the contents of the whole table plus the new element are conserved except for exactly one dropped item, the one that the displacement chain ends with. |
| `Cuckoo.Contains` | src/cuckoocache.h:466-476 | The answer is whether one of the eight locations holds the element; erasing marks one such slot and changes nothing else. |
| `Cuckoo.KeptIsFound` | src/cuckoocache.h:466-476 | Every element in a slot not marked discardable is found. |
| `Cuckoo.FoundAfterErase` | src/cuckoocache.h:444-455 | An element found and marked for erasure is still found afterwards. |
| `Cuckoo.EraseKeeps` | src/cuckoocache.h:262-265 | Marking a slot discardable keeps the invariant. |
| `Cuckoo.Setup` | src/cuckoocache.h:336-349 | A set-up cache satisfies the invariant, also where 45 times the size wraps around in 32 bits. |
| `Cuckoo.Run` | src/cuckoocache.h:389-476 | Every sequence of insertions and lookups keeps the invariant. |
| `Cuckoo.RunsStayBounded` | src/cuckoocache.h:285-317 | Over any run after setup, live elements of the current epoch plus the counter never exceed the epoch size plus the larger of one and a sixteenth of it, and whatever is kept is found. |
| `CuckooCache.ElementCache.constructor` | src/cuckoocache.h:336-349 | The fields are those of a set-up cache. |
| `CuckooCache.ElementCache.EpochCheck` | src/cuckoocache.h:285-317 | Counting and ageing the flags in place gives the specified flags and counter, so what `Cuckoo.EpochCheckSpares` says is spared. |
| `CuckooCache.ElementCache.Insert` | src/cuckoocache.h:389-437 | The table and flags updated in place are those of the specified insertion. |
| `CuckooCache.ElementCache.Displace` | src/cuckoocache.h:403-436 | The displacement loop, first slot taken being the second location, is the specified chain. |
| `CuckooCache.ElementCache.Contains` | src/cuckoocache.h:466-476 | Finds iff one of the eight locations holds the element, and marks exactly that slot if asked. |
| `Arith256.Uint256.Set` | src/arith_uint256.h:80-87 | The value is the given 64-bit number. |
| `Arith256.Uint256.GetLow64` | src/arith_uint256.h:237-241 | The value modulo 2^64. |
| `Arith256.Uint256.AddAssign` | src/arith_uint256.h:127-137 | The sum modulo 2^256, also when both operands are the same object. |
| `Arith256.Uint256.Complement` | src/arith_uint256.h:61-67 | 2^256 - 1 minus the value. |
| `Arith256.Uint256.Negate` | src/arith_uint256.h:69-76 | The negation modulo 2^256. |
| `Arith256.Uint256.SubAssign` | src/arith_uint256.h:139-143 | The difference modulo 2^256. |
| `Arith256.Uint256.Increment` | src/arith_uint256.h:165-172 | One more, modulo 2^256, though the loop stops at the first limb that does not wrap. |
| `Arith256.Uint256.Decrement` | src/arith_uint256.h:182-189 | One less, modulo 2^256, likewise. |
| `Arith256.Uint256.MulSmall` | src/arith_uint256.cpp:55-64 | The product with a 32-bit number modulo 2^256; no intermediate exceeds 64 bits. |
| `Arith256.Uint256.MulAssign` | src/arith_uint256.cpp:67-80 | The product modulo 2^256. |
| `Arith256.Uint256.AddRow` | src/arith_uint256.cpp:69-77 | One row of the multiplication adds one limb times the other factor at its weight, but for what lies above the top limb. |
| `Arith256.Uint256.ShiftLeft` | src/arith_uint256.cpp:21-35 | Multiplication by a power of two modulo 2^256, for every shift. |
| `Arith256.Uint256.ShiftRight` | src/arith_uint256.cpp:38-52 | Floor division by a power of two, for every shift. |
| `Arith256.Uint256.CompareTo` | src/arith_uint256.cpp:109-118 | The sign of the difference of the values. |
| `Arith256.Uint256.Bits` | src/arith_uint256.cpp:179-191 | The position of the highest one bit plus one, or zero. |
| `Arith256.Uint256.DivAssign` | src/arith_uint256.cpp:83-106 | Fails exactly on a zero divisor, else the floor quotient. |
| `Arith256.Uint256.DivideAligned` | src/arith_uint256.cpp:95-103 | The shift-and-subtract loop on aligned operands leaves the floor quotient. |
| `Arith256.Uint256.DivideBit` | src/arith_uint256.cpp:96-100 | One bit of the quotient is set exactly when the shifted divisor still fits, and no limb overflows. |
| `Limbs.StoreDigit` | src/arith_uint256.h:132-134 | Storing the low part of a sum in a limb and carrying the rest adds exactly that sum in place of the old limb. |
| `Limbs.SpreadAdds` | src/arith_uint256.cpp:29-33 | Or-ing the two parts of a shifted limb into place adds the shifted limb at that weight, no bits colliding. |
| `Limbs.FirstDifference` | src/arith_uint256.cpp:111-116 | The most significant limb that differs decides a comparison. |
| `Arith256.ShiftedRightStep` | src/arith_uint256.cpp:45-50 | Each step of the right shift keeps the limbs at the quotient of what was processed. |
| `Compact.SetCompact` | src/arith_uint256.cpp:198-216 | The value is mantissa * 256^(exponent-3) rounded down, modulo 2^256; overflow is flagged exactly when it does not fit and the sign exactly for a nonzero number with the sign bit. |
| `Compact.OverflowExact` | src/arith_uint256.cpp:211-214 | The three tests of the overflow flag together say exactly mantissa * 256^(exponent-3) >= 2^256. |
| `Compact.GetCompact` | src/arith_uint256.cpp:218-239 | The mantissa holds the leading bytes of the number with the shortest exponent that keeps the sign bit clear; both assertions hold. |
| `Compact.EncodingUnique` | src/arith_uint256.cpp:218-239 | A number and a sign have only one such encoding. |
| `Compact.DecodedTruncates` | src/arith_uint256.cpp:198-239 | Decoding what was encoded gives the number back but for less than its last place, exactly if it has at most three bytes. |
| `Compact.Reencoded` | src/arith_uint256.cpp:198-239 | The decoded number encodes to the same word again. |
| `Compact.GetBlockProof` | src/chain.cpp:125-138 | The proof is 2^256 / (target + 1) for every valid target, with no wrap-around, and zero for a negative, zero or overflowing one. |
| `Compact.TargetFits` | src/chain.cpp:133-137 | A target that fits is never 2^256 - 1, so adding one does not wrap to a zero divisor. |
| `Compact.WorkIdentity` | src/chain.cpp:133-137 | Complement divided by successor, plus one, is 2^256 divided by the successor. |
| `SkipSteps.InvertClearsLowestOne` | src/chain.cpp:74-74 | Clears exactly the lowest one bit. |
| `SkipSteps.SkipHeight` | src/chain.cpp:77-85 | The skip height is always lower than the height, except for the first block. |
| `SkipSteps.Progress` | src/chain.cpp:87-112 | After one or two steps of the search, including the detour over the parent when its skip pointer leads further, the height has lost one of its ones or the highest bit in which it differs from the target. |
| `SkipSteps.SearchSteps` | src/chain.cpp:77-112 | From any height below 2^j to any ancestor the search takes at most j(j+1) steps; the comment reports simulations only. |
| `SkipSteps.FewSteps` | src/chain.cpp:77-112 | At most (L+1)(L+2) steps from height n, where L is the binary logarithm of n rounded down. |
| `Chain.BlockIndex.GetAncestor` | src/chain.cpp:87-112 | Following skip pointers where they do not overshoot ends at exactly the block that the walk along parents reaches, or null out of range; with all skip pointers built, the loop runs at most (L+1)(L+2) times for L the logarithm of the height. |
| `Chain.BlockIndex.BuildSkip` | src/chain.cpp:119-123 | The skip pointer is the ancestor at the skip height. |
| `Chain.AddBlock` | src/chain.cpp:119-123 | Growing the tree by a block keeps parents, heights and skip pointers right, and all of them built. |
| `Chain.AncestorInLargerTree` | src/chain.cpp:87-112 | New blocks do not change the ancestors of old ones. |
| `Chain.LastCommonAncestor` | src/chain.cpp:159-174 | The highest block both descend from. |
| `Chain.ActiveChain.SetTip` | src/chain.cpp:14-24 | Though the loop stops at the first block already in place, the vector ends as the full path from the first block to the new tip. |
| `Chain.ActiveChain.FindFork` | src/chain.cpp:54-63 | The highest block of the active chain that the given block descends from, or null. |
| `Chain.ActiveChain.GetLocator` | src/chain.cpp:26-52 | Ancestors of the block in strictly decreasing height, from itself to the first block, at most 12 + floor(log2(height)) of them. |
| `Chain.LocatorShort` | src/chain.cpp:26-52 | The doubling gaps bound the number of entries. |
| `Bech32.StepLinear` | src/bech32.cpp:188-213 | The checksum step is linear over exclusive or in state and symbol together. |
| `Bech32.StepInjective` | src/bech32.cpp:188-213 | Only the zero state steps to zero with a zero symbol. |
| `Bech32.PolyMod` | src/bech32.cpp:130-216 | The loop computes the remainder of the message, constant by constant. |
| `Bech32.RunLinear` | src/bech32.cpp:130-216 | Remainders of messages add up. |
| `Bech32.RunKeepsApart` | src/bech32.cpp:130-216 | Different remainders stay different whatever follows. |
| `Bech32.SixDetermined` | src/bech32.cpp:127-129 | Six consecutive symbols are determined by the remainder they lead to. |
| `Bech32.BurstDetected` | src/bech32.cpp:145-155 | Any change confined to six consecutive symbols changes the remainder. |
| `Gf1024.MultiplyIs` | src/bech32.cpp:88-112 | The matrix of the primitive element multiplies as the generation of the GF(1024) table does. |
| `Gf1024.OrderFull` | src/bech32.cpp:38-41 | The element is primitive: no power below 1023 fixes a nonzero vector. |
| `Gf1024.OnlyZeroSolves` | src/bech32.cpp:172-181 | Three equations over consecutive powers have only the zero solution. |
| `Bech32Bch.AllRoots` | src/bech32.cpp:172-181 | The powers 997, 998 and 999 of the primitive element are roots of the generator. |
| `Bech32Bch.ValueOfRemainder` | src/bech32.cpp:130-216 | The value of any message at a root of the generator is the value of the remainder the checksum loop computes. |
| `Bech32Bch.ThreeVanish` | src/bech32.cpp:145-155 | A message of up to 1023 symbols with remainder zero and at most three symbols that are not zero is zero. |
| `Bech32Bch.ThreeDetected` | src/bech32.cpp:145-155 | Any change confined to three symbols of a window of 1023 changes the remainder. |
| `Bech32Bch.ScatteredErrorsDetected` | src/bech32.cpp:145-155 | Changing up to three data characters of a valid string, wherever they are, never gives a string valid under the same encoding. |
| `Bech32Codec.CharThenSymbol` | src/bech32.cpp:22-35 | The decoding table inverts the character set. |
| `Bech32Codec.SymbolThenChar` | src/bech32.cpp:22-35 | Whatever the decoding table accepts is, in lower case, the character of its symbol. |
| `Bech32Codec.CheckCharacters` | src/bech32.cpp:287-309 | The reported indices are exactly the unprintable characters and the letters whose case differs from the first letter; there are none iff the string is printable and does not mix cases. |
| `Bech32Codec.ExpandHrp` | src/bech32.cpp:312-324 | High bits, a zero, low bits. |
| `Bech32Codec.CreateChecksum` | src/bech32.cpp:341-352 | The six symbols that complete the message. |
| `Bech32Codec.ChecksumVerifies` | src/bech32.cpp:327-352 | A message with its checksum verifies under its own encoding. |
| `Bech32Codec.ChecksumUnique` | src/bech32.cpp:327-352 | No other six symbols do. |
| `Bech32Codec.VerifyChecksum` | src/bech32.cpp:327-338 | Names the encoding whose constant the remainder is, if any. |
| `Bech32Codec.Encode` | src/bech32.cpp:357-370 | Human-readable part, separator, and the characters of data and checksum. |
| `Bech32Codec.Decode` | src/bech32.cpp:373-397 | Accepts exactly the well-shaped strings whose checksum verifies, and returns encoding, lower-case human-readable part and data. |
| `Bech32Codec.DecodeEncoded` | src/bech32.cpp:357-397 | Decoding inverts encoding for every printable, non-empty human-readable part without upper case and total length at most 90. |
| `Bech32Codec.EncodeDecoded` | src/bech32.cpp:357-397 | Every accepted string is, in lower case, the encoding of what it decodes to. |
| `Bech32Codec.ErrorsDetected` | src/bech32.cpp:145-155 | Changing some of up to six consecutive data characters of a valid string never gives a string valid under the same encoding. |
| `Radix.MulAdd` | src/base58.cpp:60-65 | The in-place loop multiplies the number in the buffer and adds to it; it never drops a carry when the result fits, and its length is exactly the number of digits. |
| `Radix.HeldDigits` | src/base58.cpp:77-82 | The digits in use, read from the top, are the digits of the number, without leading zeros. |
| `Base58.EncodeFits` | src/base58.cpp:97-97 | 138/100 of the bytes, and one, are always enough base-58 digits. |
| `Base58.DecodeFits` | src/base58.cpp:52-52 | 733/1000 of the characters, and one, are always enough bytes. |
| `Base58.EncodeBase58` | src/base58.cpp:87-125 | A one for each leading zero byte, then the base-58 digits of the bytes as a number; the carry assertion holds. |
| `Base58.ConvertBytes` | src/base58.cpp:97-113 | The whole number is in the buffer after the last byte. |
| `Base58.DecodeBase58` | src/base58.cpp:38-85 | Succeeds exactly for one word of base-58 digits, with spaces around it, whose bytes fit the limit, and returns those bytes. |
| `Base58.DecodeWord` | src/base58.cpp:43-71 | The word is converted exactly, though failure is noticed early. |
| `Base58.ConvertRest` | src/base58.cpp:52-71 | The carry assertion holds, and the length test rejects exactly the words whose result is too long. |
| `Base58.PrefixTooLong` | src/base58.cpp:68-69 | A word whose prefix is already too long is too long itself, so the early exit is right. |
| `Base58.DecodeEncoded` | src/base58.cpp:38-125 | Decoding inverts encoding for every byte string that fits, and fails for every one that does not. |
| `Base58.EncodeDecoded` | src/base58.cpp:38-125 | Encoding inverts decoding for every word of base-58 digits. |
| `Base58.AcceptedIsEncoding` | src/base58.cpp:38-125 | Any accepted string, less the spaces around it, is the encoding of what it decodes to. |
| `Base58.CharOfValue` | src/base58.cpp:17-36 | The decoding table inverts the character set. |
| `BlockEncodings.PartiallyDownloadedBlock.Prefill` | src/blockencodings.cpp:59-75 | Succeeds iff no prefilled transaction is null and every differential position is in range; then each is at its position and nothing elsewhere. |
| `BlockEncodings.PartiallyDownloadedBlock.MapShortIds` | src/blockencodings.cpp:82-103 | Each short id, in order, gets the next empty slot, unless some bucket of the hash map gets more than twelve different short ids, and exactly then it gives up; the map has as many entries as there are short ids iff none repeats. |
| `BlockOffers.SlotExact` | src/blockencodings.cpp:105-163 | A slot holds the first transaction met for its short id if and only if none met later disagrees with it. |
| `BlockOffers.ScanStops` | src/blockencodings.cpp:107-131 | A scan meets a first part of its list: all of it, or up to where every slot is filled for the first time. |
| `BlockOffers.NothingOffered` | src/blockencodings.cpp:105-163 | Without an offer for it a slot stays empty. |
| `BlockOffers.UndisputedFills` | src/blockencodings.cpp:105-163 | An offer that no later one disagrees with fills its slot, wherever the scans stop. |
| `BlockOffers.OnlyOfferFills` | src/blockencodings.cpp:105-163 | The only offer for a short id fills its slot. |
| `BlockOffers.TwoInPoolEmpty` | src/blockencodings.cpp:107-125 | Two transactions of the memory pool with the same short id empty the slot, unless every slot was filled before the second. |
| `BlockOffers.DifferentExtraEmpty` | src/blockencodings.cpp:134-163 | An extra transaction with another witness hash empties the slot, unless every slot was filled before it. |
| `BlockEncodings.PartiallyDownloadedBlock.ScanOffers` | src/blockencodings.cpp:105-163 | Every slot holds what the offers met up to where the scan stops leave there, by `BlockOffers.SlotOf`; only slots of short ids change, and the count is always the number of them filled. |
| `BlockEncodings.PartiallyDownloadedBlock.InitData` | src/blockencodings.cpp:49-168 | Invalid exactly for unacceptable messages and failed exactly for acceptable ones whose short ids collide or crowd a bucket; otherwise prefilled transactions are at distinct positions in range, the short ids are one-to-one and in order on the remaining ones, each of these holds what the memory pool and then the extra transactions leave there, and the count is the number filled. |
| `BlockEncodings.PartiallyDownloadedBlock.FillBlock` | src/blockencodings.cpp:176-218 | Too few or too many transactions are invalid; exactly enough give the slots with the gaps filled in order, and the status follows the block check. |
| `BlockEncodings.PositionsIncrease` | src/blockencodings.cpp:63-73 | Prefilled positions are distinct and increase. |
| `BlockEncodings.RankedInOrder` | src/blockencodings.cpp:82-87 | The places given to short ids are, in order, all the empty slots. |
| `BlockEncodings.TakeOffer` | src/blockencodings.cpp:109-125 | The first match fills a slot and the second empties it, keeping the count exact. |
| `BlockEncodings.MergeMissing` | src/blockencodings.cpp:183-190 | Slots that agree with a block, filled with the rest of it in order, are the block. |
| `BlockEncodings.BlockRebuilt` | src/blockencodings.cpp:49-190 | Without short-id collisions, filling any accepted compact block of a block with what is missing gives that block. |
| `BlockEncodings.MakeCompact` | src/blockencodings.cpp:19-29 | The first transaction in full, short ids for the rest. |
| `BlockEncodings.MadeDescribes` | src/blockencodings.cpp:19-29 | A compact block made from a block is accepted and describes it. |
| `BlockEncodings.Relay` | src/blockencodings.cpp:19-218 | A block sent as a compact block and reconstructed from any offers without collisions and the missing transactions is the block itself, unless its short ids crowd a bucket of the hash map, which is reported as failure. |

## Left out

- AddrMan Select_ and GetChance: a floating-point chance and a loop that ends only with probability one.
- AddrCheck.CheckAddrman: which nonzero code is returned is not stated, and the key of the hashes is never null, so the code for a null key does not occur.
- AddrMan locking, logging, FindAddressEntry_ and the consistency check ratio: no bearing on the tables.
- The bucket tables of the address manager are maps from occupied slots instead of arrays of -1; their fixed dimensions are part of the invariant.
- The address manager's clock is read once per call, and the random draws of an operation are parameters of it.
- AddrMan.AddrManImpl.Serialize: version bytes, the key, the bucket count's masking bit and element counts are implicit in the file record; records are encoded losslessly.
- CoinsView.CoinsViewCache: GetBestBlock, HaveCoinInCache, AccessCoin and ReallocateCache would only add easy members; EmplaceCoinInternalDANGER is unchecked by design.
- CoinsView.CoinsDatabase.BatchWrite: one atomic write, where the program may split it into batches with a marker of the blocks in between.
- CoinsView.CoinsViewCache.AddCoin: after a throw only the entries are described, since the program has already lowered the usage total.
- Memory usage of a coin is that of its script only, with small scripts stored inline.
- CheckQueue: thread creation and stop requests; checks are deterministic and only the master adds them.
- CMerkleBlock's bloom filter matching: it only computes the mask.
- Partial Merkle trees with so many transactions that 32-bit widths overflow are rejected before by the size limit, so widths are unbounded numbers here.
- Cuckoo: the depth limit is a parameter, as the program takes it from a floating-point logarithm; flag bits are a list of booleans; concurrent erasure is one step.
- 256-bit numbers as hexadecimal strings, bytes or floating point, and GetBlockProofEquivalentTime.
- Chain: block times and FindEarliestAtLeast.
- Bech32 LocateErrors, Syndrome and the GF(1024) tables: the location guarantee of trying both encodings is unclear.
- Bech32Bch.ThreeDetected: detection of a fourth error within 89 characters, which the program bases on a search over generators and not on the roots, is not stated.
- Base58Check: it adds a hash and a comparison to Base58.
- Base58.DecodeBase58: lengths are unbounded, where the program computes buffer sizes in machine integers.
- BlockEncodings: the statistic extra_count; CheckBlock and the bucket function of the hash map are parameters.
- Script verification, networking, wallets, storage engines, configuration and user interfaces.
