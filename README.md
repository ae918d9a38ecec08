# Bitcoin address clustering, modelled in Dafny

This project models the core of a Bitcoin address-clustering engine and proves properties
of it. The engine reads blocks one transaction at a time. It groups wallet addresses into
*entities*: sets of addresses believed to share an owner. It keeps three structures:

- `entities`: entity id to set of wallets;
- `walletToEntity`: wallet to entity id;
- `reuseFrequency`: wallet to the number of outputs that paid it.

Entity ids come from a process-wide allocator. It holds a counter that starts at 1 and a
FIFO queue of freed ids, and the queue is drained before the counter advances.

The model covers four parts of the source:

- **The id allocator and entity record** (`entity.dfy`, module `Entities`). `IdAllocator`
  is a class holding the counter and the queue. `Entity` is a class holding a constant id
  and a wallet set. `IdPool` is the value view of the allocator, and the reissue-order
  lemmas are proved on it.
- **The heuristics** (`registry.dfy`, `sorting.dfy`, `heuristics_spec.dfy`, `heuristics.dfy`,
  `heuristics_props.dfy`):
  - `HeuristicsSpec` gives each heuristic as a function on a value `State`.
  - The class `Heuristics.Clustering` runs the same steps in place, with the loops of the
    source. Each of its methods is proved to leave exactly the state the matching function
    computes.
  - `HeuristicsProps` proves what the heuristics do and which invariant they keep.
  - C++ `unordered_map::operator[]` default-constructs a missing `Entity`, and that
    constructor draws an id from the allocator. This side effect is modelled (`Slot`,
    `EntityOf`) wherever the source indexes a map.
- **Start-up restore** (`restore.dfy`, module `Restore`). This is `iterate_documents`, with
  the two database cursors given as sequences of documents.
- **Address derivation** (`positional.dfy`, `base58.dfy`, `address.dfy`). This covers
  `encodeBase58` over a byte array, including its in-place carry loop. It also covers the
  hex formatting of a digest, the hex-to-bytes loop of `decodeaddress`, and the assembly of
  the version byte, key hash and checksum. `Base58.Decode` is a reference inverse written
  for the proofs; the source has no decoder. `Encode` and `Decode` are proved to be mutual
  inverses.

Behaviour of the code that the model keeps as written:

- **Restore consumes allocator ids.** `entities[entityID] = entity` (main.cpp:37)
  default-constructs the missing slot first, which draws an id. `setEntitiesCount` is called
  only when the largest id is nonzero, and it sets the counter rather than raising it.
- **The script-chain rule adds narrowly.** `sum` grows only when a value lowers the running
  minimum, because the comma operator at heuristics.cpp:133 puts the addition inside the
  `if`. The comment above it describes a total. `NarrowSumAdmitsMore` gives a transaction
  that the code accepts and the total would reject.
- **The coinbase test reads `vin[0]` only**, and the coinbase entity is always fresh.
  `CoinbaseIsolation` shows this on a consistent state.
- **The change-address condition is the one the code writes**
  (heuristics.cpp:99, 105), not a reading of its comments.
- **A repeated merge id can break the registry.** The merge list holds one id per mapped
  input, so it repeats an id whenever two inputs' addresses belong to one entity. The merge
  loop then meets an id it has already erased, and `entities[id]` default-constructs it
  again, which pops the free queue's front. This breaks the invariant whenever that front is
  not the repeated id itself: when the queue was not empty before the transaction, or when
  the loop has already queued another id.
  - A repeated smallest id is left both live and queued (`RepeatedIdLiveAndQueued`). A later
    coinbase may then receive that live id and map a wallet to an entity that does not
    contain it (`RepeatedIdLeavesLiveIdQueued`, whose premises `RepeatWitness` meets).
  - A repeated larger id is queued twice (`RepeatedLargerIdQueuedTwice`, whose premises
    `RepeatLargerWitness` meets with entities 3 and 5 and inputs "a", "c", "c").
  - From an empty queue, sorted ids `[x, y, z, z]` re-create `z` from the `y` queued a
    round earlier and queue `z` twice (`EmptyQueueBreaks`, whose premises
    `EmptyQueueWitness` meets with entities 3, 4 and 5 and inputs "a", "b", "c", "c").

  The invariant lemmas therefore assume merges without repeated ids (`CleanMerge`,
  `CleanRun`). That every input address ends up in the entity it maps to holds without this
  assumption (`CommonInputMapsInputs`).

## Model

| member | source | states |
|---|---|---|
| Entities.IdAllocator.constructor | entity.cpp:43-44 | the counter starts at 1 and the free queue is empty |
| Entities.IdAllocator.Issue | entity.cpp:3-11 | with an empty queue the id is the counter and the counter advances; otherwise the id is the queue's front, which is popped, and the counter is unchanged |
| Entities.IdAllocator.SetEntitiesCount | entity.cpp:34-37 | the counter becomes id + 1; the queue is untouched |
| Entities.IdAllocator.PushToFreeId | entity.cpp:39-41 | the id joins the back of the queue; the counter is unchanged |
| Entities.Entity.constructor | entity.cpp:3-11 | a default entity takes the oldest freed id, else the counter value (advancing it), and has no wallets |
| Entities.Entity.WithId | entity.cpp:13-15 | takes the given id, leaves the allocator alone, has no wallets |
| Entities.Entity.AddWallet | entity.cpp:17-19 | set insertion: adds exactly the wallet, removes none, and is idempotent |
| Entities.Entity.GetId | entity.cpp:28-31 | returns the id fixed at construction |
| Entities.ReleaseAllAppends | entity.cpp:39-41 | freeing ids one by one appends them in order and leaves the counter alone |
| Entities.QueueDrainsInOrder | entity.cpp:5-10 | allocations drain the queue front first without touching the counter |
| Entities.FreedIdsReissuedInOrder | entity.cpp:3-41 | ids freed in any number are reissued in exactly the order freed, after those already queued, before any counter value |
| Entities.CountedIdsIncrease | entity.cpp:5 | with an empty queue, n allocations issue counter, counter+1, ..., strictly increasing, and advance the counter by n |
| Registry.Slot | heuristics.cpp:58 | after `entities[id]` the id is live and the wallet index is unchanged |
| Registry.Assign | heuristics.cpp:88-89 | afterwards the entity contains the wallet and the wallet maps to the entity |
| Registry.AssignIsAttach | heuristics.cpp:66-69 | one association equals attaching a one-wallet set to the slot |
| Registry.AttachThenAssign | heuristics.cpp:66-69 | associating wallets one at a time equals attaching them all at once |
| Registry.FreshIdIsFree | entity.cpp:3-11 | on a consistent state the next id is not live, and issuing it keeps the pool part of the invariant |
| Registry.CreateEntityFresh | heuristics.cpp:72-78 | on a consistent state a new entity holds exactly the wallets, they all map to it, nothing else changes but the allocator, and the invariant holds again |
| Registry.CreateEntityOnLiveId | heuristics.cpp:148-154 | if the allocator hands out a live id, `insert` is ignored and the state is no longer consistent |
| Registry.AssignKeepsConsistent | heuristics.cpp:106-109 | associating a wallet with the mapped entity of an input keeps the invariant, the pool and the live ids |
| Sorting.Insert | heuristics.cpp:53 | the result is ascending and a permutation of the input plus the new element |
| Sorting.SortAscending | heuristics.cpp:53 | the result is ascending and a permutation of the input |
| Sorting.SortAscendingFixes | heuristics.cpp:53 | ids already in ascending order are left unchanged |
| Sorting.SortedHeadIsMinimum | heuristics.cpp:53-54 | the first sorted id belongs to the input and is its minimum |
| HeuristicsSpec.MappedIds | heuristics.cpp:41-48 | an id is collected iff some input address maps to it; at most one id per input |
| HeuristicsSpec.MinValue | heuristics.cpp:130-133 | the running minimum belongs to the values and bounds them all from below |
| HeuristicsSpec.MaxValue | heuristics.cpp:130-134 | the running maximum belongs to the values and bounds them all from above |
| Heuristics.ScanStep | heuristics.cpp:133 | one more value updates the running minimum and the narrow sum as the loop body does |
| Heuristics.ScanInputs | heuristics.cpp:130-133 | the loop's `inMin` and `sum` are the minimum and the narrow sum of the input values |
| Heuristics.MaxStep | heuristics.cpp:134 | one more value updates the running maximum as the loop body does |
| Heuristics.ScanOutputs | heuristics.cpp:130-134 | the loop's `outMax` is the maximum of the output values |
| Heuristics.AppendWallets | heuristics.cpp:58-60 | the result keeps the addresses as a prefix and adds exactly the wallets of the set |
| Heuristics.Clustering.constructor | main.cpp:61-71 | the three maps start empty over the given allocator |
| Heuristics.Clustering.EntitySlot | heuristics.cpp:58 | the state becomes `Slot` of the old state |
| Heuristics.Clustering.EntityIdOf | heuristics.cpp:86 | reading `walletToEntity[w]` inserts 0 for a missing wallet and returns the mapped id |
| Heuristics.Clustering.AddToEntity | heuristics.cpp:88-89 | the state becomes `Assign` of the old state |
| Heuristics.Clustering.NewEntity | heuristics.cpp:72-78 | the state becomes `CreateEntity` of the addresses' set |
| Heuristics.Clustering.RecordOutputs | heuristics.cpp:14-17 | the counts become `CountOutputs` of the output addresses; the registry is unchanged |
| Heuristics.Clustering.CollectInputs | heuristics.cpp:41-48 | returns the mapped ids in input order and all input addresses |
| Heuristics.Clustering.AbsorbEntity | heuristics.cpp:58-63 | one merge round: state `MergeOne`, its wallets appended behind the addresses |
| Heuristics.Clustering.MergeEntities | heuristics.cpp:57-64 | the merge loop: state `MergeAll`, every absorbed wallet appended |
| Heuristics.Clustering.AttachAll | heuristics.cpp:66-69 | every wallet is added to the survivor and mapped to it |
| Heuristics.Clustering.CommonInputOwnershipHeuristics | heuristics.cpp:37-80 | the state becomes `CommonInput` of the old state |
| Heuristics.Clustering.ChangeAddressHeuristics | heuristics.cpp:82-112 | the state becomes `ChangeAddress` of the old state |
| Heuristics.Clustering.ScriptChainMergeHeuristics | heuristics.cpp:114-143 | the state becomes `ScriptChain` of the old state |
| Heuristics.Clustering.CoinbaseOutput | heuristics.cpp:145-155 | the state becomes `Coinbase` of the old state |
| Heuristics.Clustering.RunHeuristics | heuristics.cpp:11-35 | state and counts become `Run` over the block |
| HeuristicsProps.CountOutputsAdds | heuristics.cpp:14-17 | every count grows by the wallet's number of occurrences among the outputs; the keys gained are the output addresses |
| HeuristicsProps.RunCountsOutputs | heuristics.cpp:12-17 | over a block, every count grows by the number of outputs paying it, so no count decreases |
| HeuristicsProps.MergeOneLive | heuristics.cpp:58-63 | merging a live id erases it, queues it and collects its wallets, changing nothing else |
| HeuristicsProps.MergeEntitiesSnoc | heuristics.cpp:57-64 | one more round on a live id erases it too and leaves the wallet index alone |
| HeuristicsProps.MergeAllEntities | heuristics.cpp:57-64 | the loop over distinct live ids erases exactly those ids and leaves the wallet index alone |
| HeuristicsProps.MergeReleasesSnoc | heuristics.cpp:57-64 | one more round on a live id queues it and collects its wallets |
| HeuristicsProps.MergeAllReleases | heuristics.cpp:57-64 | the loop over distinct live ids queues them in order, consumes no id, and collects exactly their wallets |
| HeuristicsProps.MergeAllDistinct | heuristics.cpp:57-64 | the merge loop's entities, wallet index, pool and collected wallets, in closed form |
| HeuristicsProps.SortedDistinct | heuristics.cpp:53-57 | sorted distinct ids: the head is the minimum; the rest are ascending, distinct, and are exactly the other ids |
| HeuristicsProps.MappedLive | heuristics.cpp:41-46 | on a consistent state every collected id is live |
| HeuristicsProps.AbsorbIsMerge | heuristics.cpp:57-69 | merge loop then attachment equals the closed form `Absorb` |
| HeuristicsProps.MergeBranchState | heuristics.cpp:51-70 | with distinct ids the merge branch yields `Absorb` with the minimum as survivor |
| HeuristicsProps.AbsorbFields | heuristics.cpp:51-70 | field by field: absorbed ids gone, survivor holds its wallets plus the moved ones, others unchanged, moved wallets map to the survivor, absorbed ids queued |
| HeuristicsProps.CommonInputMerges | heuristics.cpp:37-70 | smallest id survives; others erased and queued in ascending order; survivor gains every input and absorbed wallet, all mapped to it; untouched entities unchanged; no id consumed |
| HeuristicsProps.CommonInputCreates | heuristics.cpp:71-79 | with no mapped input, one fresh entity holds exactly the input addresses, each mapped to it; only the allocator otherwise changes |
| HeuristicsProps.AbsorbKeepsConsistent | heuristics.cpp:51-70 | absorbing distinct live ids into a live survivor keeps the invariant and maps every input |
| HeuristicsProps.MergeBranchKeepsConsistent | heuristics.cpp:51-70 | the merge branch on distinct ids keeps the invariant and maps every input address |
| HeuristicsProps.CommonInputMapsInputs | heuristics.cpp:37-80 | on any consistent state, repeated ids or not, every input address afterwards maps to a live entity that contains it |
| HeuristicsProps.CommonInputKeepsConsistent | heuristics.cpp:37-80 | common-input ownership without repeated ids keeps the invariant, and every input maps to an entity containing it |
| HeuristicsProps.RepeatIds | heuristics.cpp:41-54 | two inputs from one wallet of entity 3 collect and sort to [3, 3] |
| HeuristicsProps.RepeatedSmallestSurvivor | heuristics.cpp:57-69 | over a repeated smallest id with a non-empty queue, the loop erases and queues it, and the survivor is re-created by popping the queue's front, keeping its old wallets plus the attached ones |
| HeuristicsProps.LiveAndQueuedInconsistent | entity.cpp:3-11 | an id both live and queued violates the invariant, since the constructor would hand out a live id |
| HeuristicsProps.RepeatedIdLiveAndQueued | heuristics.cpp:51-69 | from a consistent state with a queued id, sorted ids [x, x] give x every input, and leave x live and queued behind the rest of the old queue, so the invariant fails |
| HeuristicsProps.RepeatedIdLeavesLiveIdQueued | heuristics.cpp:51-78 | with exactly one id queued beforehand, the next id handed out is the live x, and a following coinbase paying a wallet outside x maps it to an entity that does not contain it |
| HeuristicsProps.RepeatWitness | heuristics.cpp:41-54 | a consistent state with one queued id, a transaction whose sorted ids are [3, 3] and a coinbase meeting the premises above exist |
| HeuristicsProps.RepeatLargerIds | heuristics.cpp:41-48 | inputs "a", "c", "c" on entities 3 and 5 collect to [3, 5, 5], and the input set is {"a", "c"} |
| HeuristicsProps.RepeatLargerSort | heuristics.cpp:53 | [3, 5, 5] sorts to itself, so 3 survives and 5 is merged twice |
| HeuristicsProps.MergeRepeatedId | heuristics.cpp:57-64 | over a repeated live id with a non-empty queue, the merge loop erases the entity once and queues the id twice, the second time after re-creating it from the queue's front |
| HeuristicsProps.MergeRepeatedSurvivor | heuristics.cpp:57-69 | a survivor distinct from the repeated id stays live, so fetching it draws no id and the pool is the one the loop left |
| HeuristicsProps.QueuedTwiceInconsistent | entity.cpp:3-11 | a free queue holding an id twice violates the invariant, since the constructor would hand that id out twice |
| HeuristicsProps.RepeatedLargerIdQueuedTwice | heuristics.cpp:51-69 | from a consistent state with a queued id, sorted ids [x, y, y] leave x live and y erased but queued twice, so the invariant fails |
| HeuristicsProps.RepeatLargerWitness | heuristics.cpp:41-54 | a consistent state with a queued id and a transaction whose sorted ids are [3, 5, 5] exist, so the premises above can be met |
| HeuristicsProps.EmptyQueueMerge | heuristics.cpp:57-64 | from an empty queue, the merge loop over [y, z, z] erases y and z and leaves z queued twice, the third round having re-created z from the y queued earlier |
| HeuristicsProps.EmptyQueueSurvivor | heuristics.cpp:57-69 | a survivor distinct from y and z stays live, so fetching it draws no id and the pool is the one the loop left |
| HeuristicsProps.QueuedPairInconsistent | entity.cpp:3-11 | a free queue holding only one id twice violates the invariant |
| HeuristicsProps.EmptyQueueBreaks | heuristics.cpp:51-69 | from a consistent state with an empty queue, sorted ids [x, y, z, z] leave x live, y and z erased, z queued twice, so the invariant fails |
| HeuristicsProps.EmptyQueueIds | heuristics.cpp:41-48 | inputs "a", "b", "c", "c" on entities 3, 4 and 5 collect to [3, 4, 5, 5] |
| HeuristicsProps.EmptyQueueWitness | heuristics.cpp:41-54 | a consistent state with an empty queue and a transaction whose sorted ids are [3, 4, 5, 5] exist, so the premises above can be met |
| HeuristicsProps.ChangeRuleAfterCounting | heuristics.cpp:94-105 | once outputs are counted, both counts are at least 1: the rule skips only on a self-payment, else picks `vout[0]` if seen once, else `vout[1]` |
| HeuristicsProps.ChangeRuleOtherCounts | heuristics.cpp:85-94 | with one output, that output is attached to the first input's entity whatever the counts, and on a mapped input only that entity and that wallet's mapping change; with no output or more than two, nothing changes |
| HeuristicsProps.ApplyTargetAttaches | heuristics.cpp:106-111 | the first input's entity gains the wallet, which maps to it; nothing else changes; the invariant is kept |
| HeuristicsProps.ScriptChainDecision | heuristics.cpp:115-135 | fires only with at least 2 inputs and exactly 2 outputs, then iff narrow sum minus minimum is at most the maximum output; attaches the smaller output, `vout[0]` on a tie |
| HeuristicsProps.NarrowSumBounds | heuristics.cpp:132-133 | the narrow sum is at least the first value and the minimum and at most the total, so the unsigned subtraction cannot wrap |
| HeuristicsProps.NarrowSumAdmitsMore | heuristics.cpp:129-135 | inputs 5, 3, 4 with outputs 5, 1: the code's sum 8 passes the test, while the total 12 would fail it |
| HeuristicsProps.CoinbaseIsolation | heuristics.cpp:20-23 | a coinbase yields one fresh entity of exactly its outputs, each mapped to it whatever its prior mapping; no entity changes; the invariant holds |
| HeuristicsProps.ApplyTargetKeepsConsistent | heuristics.cpp:137-142 | heuristics 2 and 3 keep the invariant once the first input is mapped |
| HeuristicsProps.StepKeepsConsistent | heuristics.cpp:12-33 | one transaction without a repeated merge id keeps the invariant |
| HeuristicsProps.RunKeepsConsistent | heuristics.cpp:11-35 | a block whose merges meet no repeated id keeps the invariant |
| Restore.LoadedKeys | main.cpp:27-39 | the ids met are the documents' ids, and each is live afterwards |
| Restore.LoadedEntities | main.cpp:31-39 | every restored entity holds exactly its documents' wallets; entities not named keep theirs |
| Restore.LoadedLast | main.cpp:40 | `lastEntityID` is the maximum of its start value and every document's id |
| Restore.LoadedWallets | main.cpp:30 | each stored wallet maps to the id of its last document; other wallets keep their mapping |
| Restore.LoadedWalletKeys | main.cpp:30 | the mapped wallets gained are exactly the documents' wallets |
| Restore.LoadOnePool | main.cpp:35-37 | one document draws an allocator id exactly when its entity is not yet live |
| Restore.LoadedPool | main.cpp:27-41 | reading the documents draws one id for each distinct id that was not live before |
| Restore.LoadedReuse | main.cpp:45-49 | each wallet's count is the frequency of its last reuse document; other counts are kept |
| Restore.StartupLoad | main.cpp:27-41 | from start-up the entities are exactly the documents' ids, holding their wallets; the counter advanced once per distinct id |
| Restore.RestoreFromStartup | main.cpp:19-50 | the entities are exactly the stored ids holding their documents' wallets; each wallet maps to the id of its last document; `lastEntityID` bounds every id; the queue is empty and the counter is `lastEntityID + 1`, or 1 plus the number of distinct ids when every id is 0 |
| Restore.RestoreFromStartupConsistent | main.cpp:19-50 | the restored start-up state satisfies the invariant the heuristics keep |
| Restore.IterateDocuments | main.cpp:19-50 | in place, the clustering, the counts and the returned `lastEntityID` are those of `Restored` |
| Positional.ToDigits | api.cpp:21-31 | digits below the base, empty exactly for 0, no leading zero |
| Positional.ValueBound | api.cpp:21-31 | n digits below the base have a value below base^n |
| Positional.ValuePrepend | api.cpp:21-31 | a leading digit adds its weight at the highest position |
| Positional.ValueLeadingZeros | api.cpp:32-34 | leading zero digits do not change the value |
| Positional.ValuePositive | api.cpp:21-31 | a nonzero leading digit gives a nonzero value |
| Positional.ValueSnoc | api.cpp:21-31 | appending a digit shifts the value by one position |
| Positional.ValueOfToDigits | api.cpp:21-31 | `ToDigits` is a right inverse of `Value` |
| Positional.ToDigitsUnique | api.cpp:21-31 | digits without a leading zero are the `ToDigits` of their value |
| Positional.EightBytesFitElevenDigits | api.cpp:19 | 256^8 <= 58^11 |
| Positional.ShortInputFits | api.cpp:19 | below 8 bytes the buffer formula suffices |
| Positional.EightMoreBytes | api.cpp:19 | eight more bytes need at most eleven more digits |
| Positional.BlocksFit | api.cpp:19 | the buffer formula suffices for 8q + r bytes |
| Positional.BufferSuffices | api.cpp:19 | 256^n <= 58^(n*138/100+1): the buffer holds every n-byte value |
| Positional.CarryStep | api.cpp:25-27 | one carry step keeps the written digits plus carry equal to 256 times the old digits plus the byte |
| Base58.RunsIndexed | api.cpp:9 | each run of the alphabet maps to consecutive digits |
| Base58.AlphabetIndexed | api.cpp:9 | the alphabet has 58 characters and `DigitOf` inverts indexing into it |
| Base58.LeadingZeros | api.cpp:15-18 | `zeroes` is the length of the zero-byte prefix |
| Base58.LeadingOnes | api.cpp:37 | the length of the '1' prefix |
| Base58.EncodeInAlphabet | api.cpp:38-39 | every character of an encoding is in the alphabet |
| Base58.EncodeLeadingOnes | api.cpp:13-39 | the leading '1's of the encoding are exactly the leading zero bytes |
| Base58.EncodeZeros | api.cpp:15-37 | k zero bytes encode as k '1's, the empty input as the empty string |
| Base58.EncodeZeroFirst | api.cpp:15-18 | an input starting with a zero byte encodes to a string starting with '1' |
| Base58.EncodeDigitsValue | api.cpp:21-31 | after the '1's, the digits' base-58 value equals the rest's base-256 value |
| Base58.DigitsOfChars | api.cpp:38-39 | reading back the characters of digits gives the digits |
| Base58.CharsDigitsOf | api.cpp:38-39 | writing the digits of a base-58 string gives the string |
| Base58.EncodedDigitsBack | api.cpp:21-39 | the encoding's digits, converted to base 256, give the bytes after the leading zeros |
| Base58.EncodeSuffix | api.cpp:32-39 | after the '1's the encoding is the characters of the shortest base-58 digits |
| Base58.BytesRoundTrip | api.cpp:21-31 | bytes without a leading zero survive base 58 and back |
| Base58.ZerosThenRest | api.cpp:15-18 | the zero prefix followed by the rest is the input |
| Base58.DecodeEncode | api.cpp:11-41 | decoding an encoding gives the bytes back |
| Base58.DecodedZeros | api.cpp:13-18 | a decoding has as many leading zero bytes as the string has '1's |
| Base58.DigitsRoundTrip | api.cpp:21-39 | base-58 text without a leading '1' survives base 256 and back |
| Base58.EncodeDecode | api.cpp:11-41 | every string over the alphabet is the encoding of its decoding |
| Base58.ShiftedIsProduct | api.cpp:27 | a carry shifted i digits is the carry times 58^i |
| Base58.CarryDigit | api.cpp:24-28 | one round of the carry loop keeps its invariant |
| Base58.ZeroPaddedSuffix | api.cpp:32-34 | widening a suffix over zero digits keeps its value |
| Base58.ShiftedSpent | api.cpp:24 | a carry that runs off a full buffer is zero, since the value fits |
| Base58.CarrySpentAtTop | api.cpp:19-28 | the loop cannot end at the top of the buffer with a carry left |
| Base58.CarryIsSpent | api.cpp:24 | when the loop stops, every digit in use was visited and the carry is spent |
| Base58.CarryFinished | api.cpp:24-29 | the stopped buffer holds 256 times the old value plus the byte |
| Base58.KeptZeros | api.cpp:24-29 | digits the loop did not reach are the old leading zeros |
| Base58.CarryAdvance | api.cpp:24-28 | a round keeps the invariant and leaves the rest of the loop to run |
| Base58.CarryEnds | api.cpp:24-29 | the buffer as it stands when the loop stops holds the new value |
| Base58.CarryStops | api.cpp:24-29 | the loop's result, when it stops at once, holds the new value |
| Base58.CarryLoopFrom | api.cpp:24-29 | from any round satisfying the invariant, the loop ends holding the new value |
| Base58.CarryLoopMultiplies | api.cpp:22-29 | with room, the carry loop multiplies the buffer's value by 256 and adds the byte, keeping size, digits below 58 and at least the digits in use |
| Base58.MultiplyAdd | api.cpp:22-29 | the in-place loop on the array leaves exactly the buffer and length of `CarryLoop` |
| Base58.ConvertHoldsValue | api.cpp:19-31 | when the value fits, the converted buffer has `size` digits and holds the bytes' value |
| Base58.ConvertBytes | api.cpp:19-31 | allocates `n*138/100+1` digits and leaves the buffer and length of `Convert` |
| Base58.SkipZeros | api.cpp:32-34 | skipping zero digits leaves exactly the shortest base-58 digits of the value |
| Base58.EmitDigits | api.cpp:32-40 | writes `zeroes` '1's and then the characters of the value's shortest digits |
| Base58.EncodeRange | api.cpp:11-41 | `encodeBase58(pbegin, pend)` returns `Encode` of the range |
| Base58.EncodeBase58 | api.cpp:43-46 | `encodeBase58(vch)` returns `Encode` of the vector |
| Address.HighNibble | api.cpp:59 | `(c >> 4) & 0xF` is below 16 |
| Address.LowNibble | api.cpp:60 | `c & 0xF` is below 16 |
| Address.NibblesOfSignedChar | api.cpp:58-60 | reading a byte as a signed `char` leaves both nibbles as byte / 16 and byte % 16 |
| Address.Hex | api.cpp:57-61 | two characters per byte, all lower-case hex digits |
| Address.HexAt | api.cpp:58-61 | byte k is written at 2k (high nibble) and 2k+1 (low nibble) |
| Address.HexAppend | api.cpp:58-61 | the hex of a concatenation is the concatenation of the hexes |
| Address.HexPrefix | api.cpp:58-61 | the first 2k characters are the hex of the first k bytes |
| Address.DigestHex | api.cpp:56-62 | the digest loop returns `Hex` of the digest |
| Address.HexValue | api.cpp:93 | a hex digit's value is below 16 |
| Address.Strtol16 | api.cpp:93 | `strtol(_, _, 16)` on a 1-2 character window lies in -15..255 |
| Address.HexBytes | api.cpp:91-95 | one byte per two characters, rounding up |
| Address.ParseHexPair | api.cpp:92-93 | two hex digits of a byte parse back to that byte |
| Address.HexDigitValue | api.cpp:57 | each character of `hex` is a hex digit worth its position |
| Address.HexBytesOfHex | api.cpp:91-95 | reading the hex text of bytes gives the bytes back |
| Address.HexBytesAppend | api.cpp:89-95 | an even-length prefix is read on its own |
| Address.HexBytesFrom | api.cpp:91-94 | reading from i takes the window at i and reads on after it |
| Address.HexToBytes | api.cpp:90-95 | the loop returns `HexBytes` of the string |
| Address.DecodeAddress | api.cpp:82-98 | returns `AddressOf` the key under the given digests |
| Address.AddressStartsWithOne | api.cpp:85-96 | whatever the digests, the address starts with '1' |
| Address.AddressPayload | api.cpp:82-98 | with 32- and 20-byte digests the address decodes to the 25 bytes 0, RIPEMD-160(SHA-256(key)), first 4 bytes of double SHA-256 |

## Left out

- Threads and the `key` mutex (heuristics.cpp:28-33, 87-111, 138-142). Heuristics 2 and 3 run one after the other, and `try_lock` is modelled as always succeeding. A failed `try_lock`, which skips the write, is not modelled.
- Integer widths are not modelled. Values, ids and counts are unbounded naturals or integers, so `uint64_t` and `int` overflow is out of scope. This includes the `int entityId` narrowing at heuristics.cpp:137 and the `long long` sum at heuristics.cpp:132. `NarrowSumBounds` shows the subtraction at heuristics.cpp:135 never goes below zero.
- `HeuristicsSpec.ChangeAddressTarget`: the source reads `reuseFrequency[address]` through `operator[]`, which inserts 0 for a missing key. It is modelled as a lookup without insertion. From `runHeuristics` the keys were always inserted first by the output count.
- SHA-256, RIPEMD-160 and `OPENSSL_hexstr2buf` are function parameters (`sha256`, `ripemd160`), including the hex parsing and its failure paths. `Address.AddressPayload` assumes the standard digest lengths.
- `Address.Strtol16`: `errno`, and windows longer than two characters, are not modelled. A "0x" window reads as 0, as `strtol` does on the two characters alone.
- `Address.NibblesOfSignedChar`: the model reads digest bytes as a signed `char`. It proves the nibbles are the same as for an unsigned `char`, so the signedness of `char` does not matter.
- `Base58.EncodeBase58` on an empty vector: `&vch[0]` is undefined behaviour in C++. The model encodes the empty range as the empty string.
- The database and the cursors (main.cpp:21-22) are not modelled; they become sequences of documents. `std::stoull` parsing of the stored id is also left out, since ids are given as naturals.
- `Entity::listWallets` (entity.cpp:21-26) is console output and is not modelled.
- The RPC client, block fetching, JSON parsing, persisting of snapshots and the timing and console output of `main` are not modelled.
- `HeuristicsProps.StepKeepsConsistent`, `HeuristicsProps.RunKeepsConsistent` and `HeuristicsProps.CommonInputKeepsConsistent` assume no merge meets a repeated id. Without that the invariant can fail (`RepeatedIdLiveAndQueued`, `RepeatedIdLeavesLiveIdQueued`, `RepeatedLargerIdQueuedTwice`, `EmptyQueueBreaks`).
- Transactions with no input, and outputs without an address, are not modelled. The heuristics read `vin[0]` and `addresses[0]` unconditionally, which is undefined behaviour in C++ on an empty vector. So `WellFormed` demands at least one input, and `TxOutput` carries exactly one address.
