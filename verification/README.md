# Local triangle counting: a verified model

The repository lets two parties count the triangles at one vertex of a graph whose edges neither of them knows in full.
Neighbours of the queried vertex publish key-value encodings of random values. The querying side decodes them at its own
neighbours, and a private-set-intersection-cardinality protocol counts how many of the decoded values belong to the
generated ones. Half of that number is printed.

The project models the whole stack, one module per component, and proves that the layers compose into that claim.

| Component | Modules |
|---|---|
| digits, packed bytes, AND tree, equality tests of words and of blocks | `Digits`, `PackedBits`, `AndTree`, `BatchEquality`, `Equality`, `BlockEquality` |
| hash tables of the two parties and their agreement | `HashTableEntry`, `CuckooTable`, `SimpleTable`, `TableAgreement` |
| 128-bit lane arithmetic, blocks, masked sum | `Bitwise`, `Blocks`, `LaneArithmetic`, `MaskedSum` |
| oblivious PRF, PSI cardinality, graph argument, complete run | `VoleOprf`, `CircuitPsi`, `Flattening`, `Triangles`, `LocalTriangleCount`, `Duplicates` |
| reader/writer spin lock | `Locks`, `LockProgress` |
| byte-stream reassembly | `Channel` |
| shared arithmetic and counting | `Arithmetic`, `Counting` |
| one concrete run that meets every assumption | `SampleRun` |

`dafny verify dfyconfig.toml` checks everything.

The rows of the table below that start with "Main result" come first; the others are the steps and operations they rest
on.

## How the code is read

* A byte is its eight bits, a `uint64_t` is a natural number below 2^64, a 128-bit block is its two 64-bit lanes. All
  wrap-around is written out.
* Both parties run in lockstep. What they send each other is one joint step.
* The traversal of `equality.h` is that of `batch_equality.h` for a batch of one, so the AND tree and the leaf phase are
  modelled once, on the batch code, and `Equality` runs them with batch size 1 and one-bit transfers.
* Leaf transfer: Bob receives the low n bits of the table entry at his digit, n being the third argument of the
  transfer's send and receive. `equality.h` passes 1. `batch_equality.h` passes 3 whatever the batch size is, so the
  protocol is right exactly for batches of at most 3 with a supported last digit (`BatchEquality.CorrectIffBatchFits`).
* A last digit of more than four bits ends in the code's exception, modelled as `ok == false`. The build without
  `WAN_EXEC` and without `__XOP__` is modelled.
* Parameters with a contract: triples satisfy c = a AND b across the shares; VOLE satisfies C = B + Delta * A; field
  multiplication is commutative, associative and distributes over XOR; a key-value store decodes by an inner product with a
  row depending on the key, and its solver either fails or returns an encoding that decodes as asked; the hash positions
  are one function of the element, shared by both tables. Random values are arbitrary.
* A run fails exactly when one of the systems it solves itself has no solution, and every other outcome is determined by
  the inputs. The absence of accidental collisions (`NoStray`, `NoFalseMatch`) is an antecedent on these inputs in the final
  statements, not a restriction on what can be run. Nothing is assumed about the stash: `StashedHits` counts what it costs.
* `SampleRun.TriangleRun` is a run for a vertex of a triangle in which all contracts and antecedents hold, the stash is empty
  and every system has a solution. `SampleRun.ContractsConsistent` does the same for the contracts with any hashing.
* A lock object is idle, holding, or at one of the atomic steps of the lock code. Atomics are sequentially consistent.
* The column count that `SimpleTable::AsRaw2DVectorNoID` returns with the bins is set to 0 and never updated. The model
  returns that 0, and `SimpleTable.ZeroColumnsIff` says when it is the size of the largest bin: only for no elements at all.

## Model

| member | source | states |
|---|---|---|
| `BatchEquality.PerformBatchEquality` | triangle_counting/batch_equality.h:333-344 | **Main result.** for all words, masks, triples and batch sizes up to 8 the shares of comparison j XOR to the parity of its hits; the run throws iff the last digit is wider than four bits |
| `BatchEquality.CorrectIffBatchFits` | triangle_counting/batch_equality.h:132-194 | **Main result.** with transfers of n message bits (the code passes 3) every run returns shares that XOR to the parity of the batch entries equal to Bob's word, on every input, iff the last digit is supported and the batch size is at most n |
| `AndTree.Traverse` | triangle_counting/batch_equality.h:228-312 | **Main result.** after the traversal row 0 of every comparison and batch entry shares the AND of all its digits, and exactly the allocated triples have been used |
| `AndTree.TreeStep` | triangle_counting/equality.h:253-313 | **Main result.** the tree invariant: after the round with stride i, row j (a multiple of 2i) shares the AND of digits j up to min(j + 2i, digits) |
| `Equality.PerformEquality` | triangle_counting/equality.h:406-457 | **Main result.** the assembled flags of comparison j differ exactly when the words j agree on their low l bits, as in one pass |
| `BlockEquality.PerformBlockEquality` | triangle_counting/functionalities.cpp:71-169 | **Main result.** for a bin count divisible by 8 the two parties' answers for bin i differ exactly when their 128-bit blocks i are equal |
| `CuckooTable.CuckooTable.MapElementsToTable` | triangle_counting/cuckoo_hashing.cpp:160-193 | **Main result.** table, stash and move count are exactly those of inserting the elements one after the other by bounded eviction; together table and stash hold every element other than the dummy once, each stored entry sits at its own current address, every insertion stays within limit + 1 moves and every stashed entry has cost all of them |
| `TableAgreement.SlotAgrees` | triangle_counting/simple_hashing.cpp:152-157 | **Main result.** the key of an occupied cuckoo slot is in the simple bin of the same number iff its element is in the sender's set |
| `TableAgreement.MatchingSlots` | triangle_counting/cuckoo_hashing.cpp:160-193 | **Main result.** the occupied slots and stashed entries satisfying any predicate are together as many as the inserted elements that do, repetitions included |
| `LaneArithmetic.AddCorrect` | triangle_counting/circuit_psi.cpp:70-82 | **Main result.** add_with_carry is addition modulo 2^128 |
| `LaneArithmetic.SubCorrect` | triangle_counting/circuit_psi.cpp:91-95 | **Main result.** sub_with_borrow is subtraction modulo 2^128 |
| `MaskedSum.MaskedDifference` | triangle_counting/circuit_psi.cpp:346-355 | **Main result.** for all masks and payloads the difference of the two sums is the sum of payloads over bins whose equality shares XOR to 1, modulo 2^128 |
| `VoleOprf.KeyRelation` | debug_files/vole_oprf.hpp:335-365 | **Main result.** at every input y the server's evaluation is the client's decode of C plus Delta times the decode of P |
| `VoleOprf.RunOprf` | debug_files/vole_oprf.hpp:240-366 | **Main result.** the run succeeds iff the solver has an encoding of zeros at the inputs of the client; the key is then the one of that encoding, and the client's outputs are, for all of its inputs, the values of the function under this key |
| `CircuitPsi.PsiCa` | triangle_counting/circuit_psi.cpp:163-355 | **Main result.** for all sets, paddings and randomness the run succeeds iff its own two systems can be solved, and its table, stash, tested blocks and answer are then determined by the inputs: the answer is the number of occupied bins whose block equals the random value of the sender, every bin holding an element of the sender among them |
| `CircuitPsi.SucceedsIffHint` | triangle_counting/circuit_psi.cpp:196-357 | **Main result.** with one, the run succeeds iff the solver has an encoding for the flattened bins of the sender and, at each key, the random value of the bin XOR the OPRF value; no other condition, whatever the number of bins |
| `CircuitPsi.PsiCardinality` | triangle_counting/circuit_psi.cpp:442-584 | **Main result.** without an accidental match the answer is the number of receiver elements that the sender has, repetitions included, less the stashed ones; no assumption on the stash |
| `Triangles.DoubleCounting` | triangle_counting/circuit_psi.cpp:357 | **Main result.** the ordered pairs of adjacent neighbours of x number exactly twice the triangles at x, so the halving loses nothing |
| `LocalTriangleCount.NeighborRequest` | triangle_counting/triangle.h:365-401 | **Main result.** it fails iff the system of some neighbour has no solution; otherwise column j of the row of neighbour w is the decode of w's encoding at x's neighbour j, which is value k of w itself wherever w's own neighbour k is that vertex, and the remaining columns are random |
| `LocalTriangleCount.CountTriangles` | triangle_counting/circuit_psi.cpp:163-357 | **Main result.** end to end: the run ends silently iff x has no neighbours and fails iff one of its own systems has no solution; otherwise it prints half the low word of the answer of this very run, which without accidental collisions is the number of triangles at x iff no stashed element is one of the sender's (so whenever the stash is empty) |
| `Locks.MutualExclusion` | debug_files/locks.h:219-298 | **Main result.** in every reachable state, a writer inside excludes every other writer and every reader inside |
| `Locks.Accounting` | debug_files/locks.h:219-298 | **Main result.** in every reachable state the counter is the number of objects between add and subtract, the flag is set iff some object owns it, and objects at rest (a failed try_acquire among them) leave nothing behind |
| `Locks.NoDeadlock` | debug_files/locks.h:229-269 | **Main result.** whenever an object spins in vain another one holds the lock or has a step that moves it on |
| `LockProgress.CanAlwaysAcquire` | debug_files/locks.h:219-298 | **Main result.** from every reachable state a blocking acquire can still end with the lock, after finitely many steps in which no acquire is called |
| `LockProgress.CallSucceeds` | debug_files/locks.h:229-288 | **Main result.** with no other object counted or owning the flag, a call of acquire or try_acquire gets the lock within four steps of the object |
| `Channel.Channel.Receive` | debug_files/channel.cpp:102-135 | **Main result.** the buffer gets the first n bytes of the stream, nothing else of it changes, the queue keeps the rest; the recursion ends, zero-length blocks included |
| `Channel.CompletesIff` | debug_files/channel.cpp:104-132 | **Main result.** a receive gets past all of its waits iff some block arrives at all and the blocks hold enough bytes; even zero bytes wait for a block |
| `Digits.Radix.CoveredNext` | triangle_counting/equality.h:70-81 | the digits tile the word: each starts where the previous ones end, and the last one ends at bit l, for every width and radix |
| `Digits.Radix.PrefixDecided` | triangle_counting/equality.h:94-99 | two words agree on the bits covered by their first n digits exactly when those digits agree |
| `Digits.Radix.DigitExtends` | triangle_counting/equality.h:94-99 | digit i is the value of the bits of the word from i * beta up, as many as the digit is wide |
| `Digits.Radix.DigitsDecide` | triangle_counting/equality.h:87-99 | all digits of two words agree exactly when the words agree on their low l bits |
| `PackedBits.BeaverCorrect` | triangle_counting/equality.h:284-308 | with a valid triple the two parties' product bytes XOR to the AND of the two shared bytes |
| `PackedBits.BeaverShareBit` | triangle_counting/equality.h:289-307 | the share of each party bit by bit; only Alice adds the product of the opened bits |
| `PackedBits.OpenedProduct` | triangle_counting/batch_equality.h:276-306 | the same although each party XORs the exchanged bytes in its own order |
| `AndTree.Shape.PairsExact` | triangle_counting/equality.h:256 | the inner loop runs exactly once per pair of live rows: pair c exists iff its second row is a digit, power of two or not |
| `AndTree.Shape.LiveHalves` | triangle_counting/equality.h:253-270 | a round with stride i leaves ceil(n / 2i) live rows: the live count minus its pairs |
| `AndTree.Shape.UsedNext` | triangle_counting/equality.h:270-311 | the triple bits used before the next round are those used before plus those of this round, so rounds use disjoint ranges |
| `AndTree.Shape.UsedFits` | triangle_counting/equality.h:246-313 | the triples of every round lie inside the allocation, from a byte boundary on |
| `AndTree.Shape.UsedEnd` | triangle_counting/equality.h:73-82 | after the last round exactly the allocated digits - 1 triples per comparison are used, for every digit count |
| `AndTree.Party.MaskOperands` | triangle_counting/batch_equality.h:242-259 | every byte of the round holds the next triple byte XOR eight packed flags, for both operands of every pair, and the pair count is returned |
| `AndTree.Exchange` | triangle_counting/batch_equality.h:263-279 | both sides obtain the XOR of what the two parties masked |
| `AndTree.Party.CombineShares` | triangle_counting/batch_equality.h:281-310 | first rows of pairs become the unpacked product shares and every other flag is untouched |
| `AndTree.ByteCovers` | triangle_counting/batch_equality.h:282-306 | writing eight flags at a pair's first row hits exactly the cells whose product byte it is |
| `AndTree.ProductReconstructs` | triangle_counting/batch_equality.h:241-311 | the product shares of every byte of a round reconstruct to the AND of its two packed rows |
| `AndTree.RoundCorrect` | triangle_counting/equality.h:253-312 | a round turns the secret of every paired row into the AND of the pair and keeps all other secrets |
| `AndTree.Round` | triangle_counting/batch_equality.h:241-312 | one round of both parties in lockstep does that and advances the triple counter by the round's size |
| `BatchEquality.LeafParty.SetDigits` | triangle_counting/batch_equality.h:98-106 | every digit of every word is stored in its cell |
| `BatchEquality.LeafParty.OtMessage` | triangle_counting/batch_equality.h:212-218 | bit m of the message for choice k is (digit of batch entry m equals k) XOR its mask; other bits are 0 |
| `BatchEquality.LeafParty.SetLeafOtMessages` | triangle_counting/batch_equality.h:209-220 | one such message for every choice 0 .. 2^width - 1 |
| `BatchEquality.LeafParty.SetLeafMessages` | triangle_counting/batch_equality.h:91-130 | Alice's leaf flags are her masks and all digit-by-comparison tables are offered, the short last digit with its own size |
| `BatchEquality.LeafParty.ReceiveLeaves` | triangle_counting/batch_equality.h:160-185 | for each cell Bob ends up with the low transferred bits of the table entry at his digit |
| `BatchEquality.LeafParty.UnpackLeaves` | triangle_counting/batch_equality.h:188-193 | unpacking in place puts bit b of every packed byte into plane b: running the batch index downwards keeps each packed byte until it is used up |
| `BatchEquality.LeafShared` | triangle_counting/batch_equality.h:132-194 | after the leaf phase the two parties' flags differ exactly where the digits agree (or, past the transferred bits, where Alice's mask is set) |
| `BatchEquality.LeafPhase` | triangle_counting/batch_equality.h:91-194 | the whole leaf phase of both parties establishes that for all cells |
| `BatchEquality.ResultShares` | triangle_counting/batch_equality.h:314-319 | each result share is the XOR of row 0 over the batch entries |
| `BatchEquality.TreeDecidesHit` | triangle_counting/batch_equality.h:228-312 | the AND of the leaf truths of a batch entry is the equality of the low l bits of its word with Bob's |
| `BatchEquality.ParityShared` | triangle_counting/batch_equality.h:314-319 | the two result shares XOR to the parity of the number of hits |
| `BatchEquality.ShortMessagesMiss` | triangle_counting/batch_equality.h:136-185 | the failing inputs: with all-zero masks the entries past the transferred bits are missed, which flips the parity |
| `Equality.SingleHit` | triangle_counting/equality.h:314-318 | for a batch of one the parity of the hits is equality of the two words |
| `Equality.EqualityThread` | triangle_counting/equality.h:360-382 | whichever party plays Alice, the flags of the two sides differ exactly for equal words |
| `Equality.ChunksTile` | triangle_counting/equality.h:435-449 | the two chunks tile the comparisons without overlap and both are multiples of 8 when the total is |
| `Equality.ChunkFits` | triangle_counting/equality.h:435-449 | the chunk size is the largest multiple of 8 that fits twice into the number of comparisons, and offset and length in the loop are those of the chunks |
| `BlockEquality.Deinterleave` | triangle_counting/functionalities.cpp:105-112 | low-word flags and high-word flags are separated in order |
| `BlockEquality.MaskFlags` | triangle_counting/functionalities.cpp:129-136 | every packed byte of flags is masked with its triple byte |
| `BlockEquality.CombineFlags` | triangle_counting/functionalities.cpp:158-169 | each result flag is its bit of the product byte |
| `BlockEquality.AndFlags` | triangle_counting/functionalities.cpp:129-169 | one packed multiplication of both parties: secret flag i of the result is the AND of secret flags i of the operands |
| `HashTableEntry.EvictionsCycle` | debug_files/hash_table_entry.h:68-70 | n evictions advance the function number by n modulo the number of functions and change nothing else |
| `HashTableEntry.EveryFunctionTried` | debug_files/hash_table_entry.h:68-70 | within one cycle of evictions every hash function is tried, and the cycle ends where it began |
| `HashTableEntry.Hashing.Address` | debug_files/hash_table_entry.h:50-58 | the bin is below the bin count and congruent to the hash position modulo it |
| `HashTableEntry.Entry.GetAddressAt` | debug_files/hash_table_entry.h:50-52 | the same for the address of any function stored in an entry |
| `HashTableEntry.Entry.GetCurrentAddress` | debug_files/hash_table_entry.h:56-58 | the same for the address of the current function |
| `HashTableEntry.OwnAddress` | debug_files/hash_table_entry.h:50-58 | a position below the bin count is its own address |
| `HashTableEntry.SameAddress` | debug_files/hash_table_entry.h:50-58 | positions that differ by a multiple of the bin count have the same address |
| `CuckooTable.SwapConserves` | triangle_counting/cuckoo_hashing.cpp:185 | a swap keeps every inserted element held exactly once by table, stash and hand |
| `CuckooTable.StashConserves` | triangle_counting/cuckoo_hashing.cpp:179 | so does moving the entry in hand to the stash |
| `CuckooTable.CuckooTable.AllocateTable` | triangle_counting/cuckoo_hashing.cpp:142-158 | without bins it fails; otherwise all slots are empty |
| `CuckooTable.CuckooTable.SwapIn` | triangle_counting/cuckoo_hashing.cpp:175 | the entry lands at the address of its current function, the old occupant is in hand, placement and conservation are kept |
| `CuckooTable.CuckooTable.MoveOn` | triangle_counting/cuckoo_hashing.cpp:181-186 | one turn of the eviction loop is one link of the eviction chain |
| `CuckooTable.ChainUnfolds` | triangle_counting/cuckoo_hashing.cpp:177-187 | one link of the eviction chain in raw terms: the function number plus one modulo the functions, and the hash position of that function modulo the bins |
| `CuckooTable.InsertingUnfolds` | triangle_counting/cuckoo_hashing.cpp:167-175 | a new element goes to the position of function 0 modulo the bins |
| `CuckooTable.MappedNext` | triangle_counting/cuckoo_hashing.cpp:166-188 | mapping one more element is one insertion with a budget of limit + 1 moves, whose leftover is stashed |
| `CuckooTable.PlacedCongruent` | triangle_counting/cuckoo_hashing.cpp:175-185 | the slot of a stored entry is congruent, modulo the bins, to the hash position of its element under its current function |
| `CuckooTable.CuckooTable.InsertElement` | triangle_counting/cuckoo_hashing.cpp:166-187 | one insertion gives exactly the table, leftover and number of moves of the eviction chain; the leftover is stashed, which happens only after limit + 1 moves; conservation and placement are kept |
| `CuckooTable.AllStoredIff` | triangle_counting/cuckoo_hashing.cpp:115 | every element is held exactly once iff none equals the dummy value, since emptiness is decided by value |
| `CuckooTable.OccupiedExact` | triangle_counting/cuckoo_hashing.cpp:113-120 | the listed slots are exactly the non-empty ones, strictly increasing |
| `CuckooTable.CuckooTable.AsRawVectorNoID` | triangle_counting/cuckoo_hashing.cpp:108-123 | the exported indices are the occupied slots in order and each exported key is its slot's (function, element) |
| `CuckooTable.ExportedAt` | triangle_counting/cuckoo_hashing.cpp:113-120 | the k-th exported key is (function number, element) of the k-th occupied slot |
| `CuckooTable.CuckooTable.GetNumOfElementsInBins` | triangle_counting/cuckoo_hashing.cpp:125-133 | 1 for each occupied slot, 0 for each empty one |
| `SimpleTable.KeyInBin` | triangle_counting/simple_hashing.cpp:144-158 | (f, e) is in bin b iff e was inserted, f is one of the functions and f sends e to b |
| `SimpleTable.BinAppend` | triangle_counting/simple_hashing.cpp:144-158 | elements contribute to a bin one after the other |
| `SimpleTable.OneElementBin` | triangle_counting/simple_hashing.cpp:152-157 | each element contributes its keys in increasing order of the functions, none twice |
| `SimpleTable.SimpleTable.AsRaw2DVectorNoID` | triangle_counting/simple_hashing.cpp:138-160 | every bin lists its keys in insertion order; the reported column count is always 0 |
| `SimpleTable.ZeroColumnsIff` | triangle_counting/simple_hashing.cpp:138-160 | the column count 0 that is returned is the size of the largest bin iff no element was inserted |
| `SimpleTable.OneElementHasColumns` | triangle_counting/simple_hashing.cpp:138-160 | it is wrong for every one-element table, whose first bin holds a key |
| `SimpleTable.SimpleTable.MapElementsToTable` | triangle_counting/simple_hashing.cpp:186-214 | every bin holds the entries of inserted elements whose keys are those of the bin, in the same order, and the statistic is the size of the largest bin |
| `SimpleTable.SimpleTable.GetNumOfElementsInBins` | triangle_counting/simple_hashing.cpp:117-123 | the size of every bin |
| `TableAgreement.OneBin` | triangle_counting/simple_hashing.cpp:152-157 | no key lies in two bins of the simple table |
| `TableAgreement.KeysDistinct` | triangle_counting/cuckoo_hashing.cpp:113-120 | no two cuckoo slots export the same key, even when elements repeat |
| `LaneArithmetic.UnsignedLessthanCorrect` | triangle_counting/circuit_psi.cpp:53-69 | signed 32-bit comparisons and shuffles compute unsigned less-than on each 64-bit lane, as an all-ones mask |
| `LaneArithmetic.InvertCorrect` | triangle_counting/circuit_psi.cpp:83-90 | invert_block is 2^128 - 1 - x |
| `LaneArithmetic.SubUndoesAdd` | triangle_counting/circuit_psi.cpp:70-95 | subtracting what was added gives the block back |
| `Duplicates.CountDuplicates` | triangle_counting/circuit_psi.cpp:144-162 | the count is the number of elements minus the number of distinct values, in whatever order the map is walked |
| `MaskedSum.BuildTransfers` | triangle_counting/circuit_psi.cpp:315-335 | the merge loop offers, in every bin, the mask at the receiver's own share and the mask plus the bin's payload at the other; only active bins have a payload |
| `MaskedSum.AddUp` | triangle_counting/circuit_psi.cpp:346-350 | the running block sum is the sum modulo 2^128 |
| `MaskedSum.PickedSum` | triangle_counting/circuit_psi.cpp:579-583 | what the sender picked exceeds the masks by exactly the payloads of bins whose shares differ, modulo 2^128 |
| `Blocks.BlockRoundTrip` | debug_files/vole_oprf.hpp:25-41 | a block written to sixteen bytes is read back unchanged |
| `Blocks.BlockByteAt` | debug_files/vole_oprf.hpp:25-32 | byte k of a block in memory is byte k of its 128-bit number, low half first |
| `Blocks.SixteenBytes` | debug_files/vole_oprf.hpp:34-41 | the number of the block read from sixteen bytes is their sum weighted by powers of 256 |
| `Blocks.BytesBlockByteAt` | debug_files/vole_oprf.hpp:34-41 | byte k of that number is byte k of what was read |
| `Blocks.XorBlockBit` | debug_files/vole_oprf.hpp:273-284 | each bit of the XOR of two blocks is set iff the bits of the operands differ |
| `VoleOprf.BlockToByte` | debug_files/vole_oprf.hpp:25-32 | byte t of the result is byte t mod 16 of the 128-bit number of block t / 16, low half first |
| `VoleOprf.ByteToBlock` | debug_files/vole_oprf.hpp:34-41 | one block per complete group of sixteen bytes, each byte in its place of the 128-bit number; an incomplete group is dropped |
| `VoleOprf.XorInto` | debug_files/vole_oprf.hpp:270-285 | the eight-way unrolled loop with its tail equals the pointwise XOR, for every length |
| `VoleOprf.AddScaled` | debug_files/vole_oprf.hpp:328-352 | the unrolled loop over advancing pointers adds Delta times the received vector pointwise, for every length |
| `VoleOprf.ClientAgrees` | debug_files/vole_oprf.hpp:254-293 | so where P decodes to zero the two agree |
| `VoleOprf.Client1` | debug_files/vole_oprf.hpp:240-300 | the client fails iff the solver has no encoding of zeros at its inputs; otherwise it sends that encoding under its VOLE share, and its outputs are decodes of C |
| `VoleOprf.Server1` | debug_files/vole_oprf.hpp:302-355 | byte t of the key is byte t mod 16 of block t / 16 of B + Delta * A |
| `VoleOprf.Evaluate1` | debug_files/vole_oprf.hpp:358-366 | evaluation from the key bytes is the decode under the key's blocks |
| `VoleOprf.OprfKeyIs` | debug_files/vole_oprf.hpp:335-354 | with the solution P for zeros at the inputs, block i of the key is B[i] + Delta * (P[i] + A[i]) |
| `Flattening.FlattenAt` | triangle_counting/triangle.h:306-323 | cell j of row i is found at the row's offset plus j in the flat vector |
| `Flattening.FlattenRows` | triangle_counting/triangle.h:306-323 | the rows are laid end to end in order |
| `CircuitPsi.CompressionCollides` | triangle_counting/circuit_psi.cpp:208-210 | two blocks fold to the same word iff their low halves differ in the same bits as their high halves |
| `CircuitPsi.CompressBit` | triangle_counting/circuit_psi.cpp:208-210 | bit k of a folded block is set iff bits k of its two halves differ |
| `CircuitPsi.ReceiverElements` | triangle_counting/circuit_psi.cpp:203-223 | entry i is low XOR high of block i, the padding follows, and every element has payload 1 |
| `CircuitPsi.NumBins` | triangle_counting/circuit_psi.cpp:196-197 | the least multiple of 8 that is at least the bin number |
| `CircuitPsi.MaskRows` | triangle_counting/circuit_psi.cpp:494-514 | the running index stays aligned with the rows: cell j of row i is masked with the random value of bin i |
| `CircuitPsi.SenderHint` | triangle_counting/circuit_psi.cpp:459-522 | the hint is what the solver gives for all keys of all bins and the random value of each bin XOR the OPRF value of the key; it is missing iff that system has no solution |
| `CircuitPsi.HintDecodes` | triangle_counting/circuit_psi.cpp:499-522 | such a hint decodes, at every key of every bin, to the random value of the bin XOR the OPRF value of the key |
| `CircuitPsi.ReceiverTable` | triangle_counting/circuit_psi.cpp:225-236 | table, stash and exported keys are those of the bounded eviction process; the table is well placed and nothing is lost |
| `CircuitPsi.Unmask` | triangle_counting/circuit_psi.cpp:266-275 | the decoded hint with the OPRF value taken off, for every key |
| `CircuitPsi.Scatter` | triangle_counting/circuit_psi.cpp:277-279 | each value is in its slot's bin and all other bins are zero |
| `CircuitPsi.BinMatches` | triangle_counting/circuit_psi.cpp:266-279 | for a slot whose element the sender has, hint decode XOR OPRF output is the sender's random value of that bin |
| `CircuitPsi.ReceiverBlocks` | triangle_counting/circuit_psi.cpp:266-279 | every occupied slot enters the equality test with hint decode XOR OPRF output at its key, whether or not the sender has the element, and every empty one with zero |
| `CircuitPsi.EqualityShares` | triangle_counting/circuit_psi.cpp:289 | the parties' shares of bin i differ iff their blocks of bin i are equal |
| `CircuitPsi.SumMatches` | triangle_counting/circuit_psi.cpp:315-357 | transfers and sums from there on give the number of matched occupied bins modulo 2^128 |
| `CircuitPsi.FailsWithoutKey` | triangle_counting/circuit_psi.cpp:239 | without a solution for zeros at the exported keys the run fails |
| `CircuitPsi.RunPartsExist` | triangle_counting/circuit_psi.cpp:459-522 | these systems are determined by the inputs whenever the first has a solution |
| `CircuitPsi.TestedBlock` | triangle_counting/circuit_psi.cpp:266-279 | in a run every slot is tested on hint decode XOR OPRF value at its (function, element), every empty one on zero |
| `CircuitPsi.AnswerCounts` | triangle_counting/circuit_psi.cpp:346-355 | the answer as a number is the size of the set of occupied slots tested equal, modulo 2^128 |
| `CircuitPsi.StashedHitsIsSet` | triangle_counting/circuit_psi.cpp:230-233 | what the stash costs is the number of stashed elements that the sender has |
| `CircuitPsi.IntersectionSize` | triangle_counting/circuit_psi.cpp:203-357 | for distinct receiver elements that is the size of the intersection, less the stashed part |
| `Triangles.PairsAreTwiceEdges` | triangle_counting/triangle.h:391-400 | in any list of distinct vertices with symmetric, irreflexive adjacency the ordered adjacent pairs are twice the edges |
| `Triangles.TriangleMembers` | triangle_counting/triangle.h:391-400 | a triangle at x is a pair u < w of its neighbours that are neighbours of each other |
| `LocalTriangleCount.SenderSet` | triangle_counting/triangle.h:420-431 | the set has vertices * maxDegree entries, and entry v * maxDegree + k is value k of vertex v |
| `LocalTriangleCount.DistinctEntries` | triangle_counting/triangle.h:344-349 | distinct values of w give distinct entries at distinct common neighbours |
| `LocalTriangleCount.ElementAt` | triangle_counting/circuit_psi.cpp:206-223 | element i * maxDegree + j of the receiver is cell j of row i, folded, and the padding follows |
| `LocalTriangleCount.SentElementAt` | triangle_counting/circuit_psi.cpp:442-447 | element v * maxDegree + k of the sender is value k of vertex v, folded |
| `LocalTriangleCount.SolvableIff` | triangle_counting/triangle.h:349 | the systems of a complete run are those of the neighbours of x and the two of the PSI |
| `LocalTriangleCount.SharedNeighborDecodes` | triangle_counting/triangle.h:324-401 | a neighbour common to x and w decodes to one of the values the sender generates for w |
| `LocalTriangleCount.RowCount` | triangle_counting/triangle.h:391-397 | without collisions the row of w hits the sender's set once per common neighbour |
| `LocalTriangleCount.HitsAreTwiceTriangles` | triangle_counting/triangle.h:391-400 | without collisions the receiver's padded set hits the sender's twice per triangle at x |
| `LocalTriangleCount.LowWordHalved` | triangle_counting/circuit_psi.cpp:357 | halving a double that lacks some hits gives the number of triangles iff none is lacking |
| `LocalTriangleCount.RunCounts` | triangle_counting/circuit_psi.cpp:355-357 | from the outcome of a run on: the number of triangles, exactly when no stashed element is one of the sender |
| `Locks.StepKeepsInv` | debug_files/locks.h:219-298 | every atomic step of every lock object keeps the accounting of counter and flag, and exclusion |
| `Locks.RunKeepsInv` | debug_files/locks.h:219-298 | so they hold in every state of every interleaving of any number of lock objects |
| `Locks.RunsExtend` | debug_files/locks.h:219-298 | a run may start in the initial state and go on with any enabled step |
| `Locks.CallsEnabled` | debug_files/locks.h:184-207 | new objects can always be made, and objects at rest or holding can always be called |
| `Locks.AcquireStarts` | debug_files/locks.h:229-288 | a call of acquire or try_acquire sets the object on its way and touches nothing else |
| `Locks.AcquireReleasesFirst` | debug_files/locks.h:229-274 | called on a holder it gives up what the object holds in its first step |
| `Locks.UnlockReleases` | debug_files/locks.h:219-298 | an unlock of a holder leaves it at rest after one step, with its contribution gone; at rest it does nothing |
| `Locks.LooksDecide` | debug_files/locks.h:236-287 | waiting changes nothing, and every check is decided by what it reads of the other side |
| `LockProgress.NewObjectCanAcquire` | debug_files/locks.h:184-298 | from every reachable state a new object of either kind can be made, call acquire and end up with the lock |
| `LockProgress.RunGoesOn` | debug_files/locks.h:219-298 | these continuations make longer runs |
| `Locks.AcquireReturnsHolding` | debug_files/locks.h:229-269 | a blocking acquire does not return without the lock, whatever the others do |
| `Locks.TryIsWaitFree` | debug_files/locks.h:244-298 | an unlock or a try_acquire ends within four steps of its own, whatever the others do |
| `Locks.UncontendedSucceeds` | debug_files/locks.h:229-288 | when no other object is counted or owns the flag, an acquire or try_acquire on its way has the lock after at most four steps |
| `Channel.RemainingStream` | debug_files/channel.cpp:111-132 | after receiving n bytes the queue concatenates to the stream without its first n bytes |
| `Channel.RemainingIs` | debug_files/channel.cpp:111-132 | which blocks are left: those after the one in which the bytes end, and the rest of that one if there is any |
| `Channel.ReceiveTwice` | debug_files/channel.cpp:102-135 | a second receive continues where the first stopped |
| `Channel.Channel.ReceiveBlock` | debug_files/channel.cpp:85-100 | the first block is returned and removed |

## Left out

- AndTree.Traverse: comparison counts that are not multiples of 8, where the code's packed bytes and triple ranges no longer line up.
- BatchEquality.PerformBatchEquality: batch sizes above 8, whose messages no longer fit the byte they are packed in; the `WAN_EXEC` variant, which pads the last digit's table.
- Equality.PerformEquality: the two threads run one after the other, and the two of the batch protocol likewise. They write disjoint data, so their true interleaving is not captured.
- BlockEquality.PerformBlockEquality: the run-time radix is the constant 2^5 and the width the constant 64 that the code passes; the third element of the two-element array of transfer objects is taken as an object of its own.
- CuckooTable.CuckooTable.MapElementsToTable: entries are values, because the tables copy and swap them by value; the aliasing of entry objects is not captured.
- CuckooTable.CuckooTable.AllocateTable: table sizes computed from a real-valued epsilon; the bin count is given.
- CircuitPsi.NumBins: the real-valued product 1.27 * D * D that the bin number is truncated from is a parameter.
- MaskedSum.BuildTransfers: after the last active bin the code reads one past the end of the index list; the model has the guard.
- VoleOprf.Client1: the padded item count; the model has one zero and one output per input.
- LocalTriangleCount.CountTriangles: vertices of degree above the maximum, where the number of padding blocks wraps around, and graphs whose neighbour lists are not symmetric or repeat a vertex. The map of received encodings is a direct lookup.
- LockProgress.CanAlwaysAcquire: the continuation exists but nothing forces it, so starvation is possible; weak memory orders, the `std::shared_mutex` build, moving and swapping lock objects, and objects used with more than one locker.
- Channel.Channel.Receive: the mutex, the event and the receiving thread are one step that delivers further blocks. A stream that ends early leaves the code waiting for ever; the model requires that the receive completes, and `Channel.CompletesIff` says when it does.
- Secrecy of the protocol and the probabilities of collisions, of a non-empty stash and of solver failure.
- Oblivious transfer extension, triple generation, VOLE, the key-value store, the PRG, field multiplication and hash positions beyond their contracts; the files that implement them are not part of this model.
- `AND_step_1`, `AND_step_2`, `triple_thread`, `run_circuit_psi`, `run_eq`, `GetElementAddresses`, `AsRawVector`, `AsRawVectorPadded`, `AsRaw2DVector` and the non-`1` variants of client, server and evaluation, which the program's main path does not use.
- Sockets, files, printing, timing, command lines, OpenMP, scripts and data files.
