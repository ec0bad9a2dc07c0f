# AFL++ core behaviour, modelled and proved in Dafny

The repository is a fork of AFL++ with a Ghidra script that weights coverage offsets. This project models the parts whose
correctness is hard to see by reading: the compiler passes that decide where probes go, the runtime inside the fuzzed
target, the hashing library, the coverage map, the random numbers and the fork's own weight propagation.

| module | what it models |
|---|---|
| `CoveragePruning` | which basic blocks get no probe, and why the probes that are left still determine the blocks executed |
| `EdgeCoverage` | critical-edge splitting followed by pruning: probes determine the edges taken in the original function |
| `SwitchTree`, `SplitSwitches` | the rewriting of `switch` into a tree of byte comparisons, with PHI repair |
| `Xxh3`, `Xxh3Stream` | XXH3 one shot and streaming, 64 and 128 bit, with all resets |
| `LaneHash` | XXH32 and XXH64 one shot and streaming |
| `AddLength`, `ShortHash`, `WideProduct` | XXH3-64 of one to eight bytes, and the portable 64 by 64 to 128 bit product |
| `ForkServer`, `PersistentMode` | the fork server's protocol with the fuzzer, and the persistent loop inside it |
| `GuardIds` | numbering of coverage guards while shared memory is set up and re-sized |
| `CmplogRing` | the compare log filled by the instruction hooks |
| `EdgeTrace`, `Ngram` | one block visit in assembly, C and n-gram form |
| `ListPool` | the circular list over its preallocated pool |
| `CoverageMap`, `Coverage64`, `Coverage32`, `CoverageAgreement` | classification and novelty on words, and what they mean on bytes over a campaign |
| `Prng` | the generator's state and unbiased draws below a limit |
| `WeightPropagation` | weights pushed up a call graph that may have cycles |

`dafny verify dfyconfig.toml` checks everything.

## How it is modelled

- Code that changes state in place is modelled by classes and by methods over arrays, each proved against a specification
  function; expression-level code is modelled by functions.
- Operating system, clock, randomness and LLVM are parameters. The fork server and the fuzzer are a step relation in which the
  fuzzer is an adversary; dominator trees are relations that agree with the path definitions; system calls succeed or fail
  as a parameter says.
- Machine arithmetic is explicit: 24-bit hit counters, 5-bit shapes, 16-bit remembered locations, 32-bit guard numbers,
  64-bit lengths and 8-bit counters wrap or are cut as in the source.
- XXH3 keeps `accumulate_512`, `scrambleAcc` and the merge as arbitrary functions, and so do XXH32 and XXH64 with their
  rounds: nothing proved about streaming depends on what they compute. The short hashes are concrete.
- Post-dominance is taken with respect to any set of roots that contains every exit, because LLVM adds roots for code that
  never leaves a loop.
- The script's `max_depth` may be absent: the driver hands it over as a string, and in Python 2 an integer is never `>=` a
  string. Without a limit the recursion ends because weights are halved, which needs weights that are not negative.
- A persistent loop count of zero wraps and stands for 2^32 iterations.

## Where the promise does not hold as it stands

- Pruning allows dead code, but not dead code that leads to a live block. `CoveragePruning.DeadPredecessorsHideRuns` gives a
  graph in which two different runs hit the same probes because of dead predecessors.
- A run hits no probe at all exactly when the entry is unprobed and has no successor. With an insertion point in the entry
  this happens only in the LTO pass, when the entry is the only live block and dead code stands beside it
  (`CoveragePruning.DeadCodeHidesEntry`).
- Pruning also needs that a block without an insertion point (a catchswitch block) wanted no probe in the first place.
  `CoveragePruning.UnprobedHidesRuns` gives a graph, sound in every other respect, in which such blocks hide which side of
  a branch was taken.
- The C tracer and the n-gram mode keep locations in 16 bits, the assembly in full registers. The C form counts the same
  indices as the assembly exactly when every location but the last is below 2^17 (`EdgeTrace.CAgreesExactly`,
  `EdgeTrace.CDisagrees`), which is always so on a map of the configured size (`EdgeTrace.ConfiguredMapIsSmall`). 2-grams
  are edges exactly when all locations have 16 bits (`Ngram.TwoGramsAreEdges`).
- `XXH3_rrmxmx` is not injective for every length. `ShortHash.RrmxmxInjective` and `ShortHash.RrmxmxCollides` give the exact
  lengths; all that the library uses are among the good ones.
- The fast path of `has_new_bits_unclassified` keeps the trace as it was exactly when nothing in the whole map is new. When
  only bytes beyond the real size are new it returns 0 and has classified the trace all the same.
- The two word sizes round the real map size up differently, so the 64-bit form may look at four bytes more
  (`CoverageAgreement.BothWordSizes`).
- In 32-bit builds `rand_below` is unbiased exactly when the limit divides 2^32 (`Prng.Unbiased32`).
- Guard numbers are 32-bit words. `GuardIds.Runtime.Assign` proves that the promise about guards is kept exactly when there
  is room for them, `GuardIds.NoRoomAtAll` shows that `AFL_MAP_SIZE=-1` outside a fuzzer leaves none, and
  `GuardIds.Runtime.Run` that whole runs keep the promise while the numbers involved stay below 2^32.
- The compare log's shape is the greatest width exactly when that fits into five bits (`CmplogRing.ShapeExact`); a compare
  of 33 bytes leaves the shape of one byte (`CmplogRing.ShapeCut`).
- `rand_below` returns only if the generator does not stay among its top 2^32 values for ever; this is the one assumption
  (`Live`) of the drawing methods.

## Model

| member | source | states |
|---|---|---|
| `CoveragePruning.BlocksToInstrument` | AFLplusplus/instrumentation/SanitizerCoveragePCGUARD.so.cc:538-641 | the blocks chosen, each once: the entry always, except by the LTO pass with pruning when there are other blocks; without pruning every block that can hold a probe; with pruning exactly those others whose execution is not told by their successors or several predecessors, stated by paths; and every complete run hits one, exactly unless the entry is unprobed and has no successor |
| `CoveragePruning.Unprunable` | AFLplusplus/instrumentation/SanitizerCoveragePCGUARD.so.cc:557-561 | on every complete run of two blocks or more some block after the entry needs its probe |
| `CoveragePruning.DeadCodeHidesEntry` | AFLplusplus/instrumentation/SanitizerCoverageLTO.so.cc:1219-1225 | a function whose entry is its only live block, with dead code beside it: the LTO pass leaves its only run without a probe |
| `CoveragePruning.RunHitsDominators` | AFLplusplus/instrumentation/SanitizerCoveragePCGUARD.so.cc:512-522 | a run that executes a block executes all its dominators |
| `CoveragePruning.RunHitsPostDominators` | AFLplusplus/instrumentation/SanitizerCoveragePCGUARD.so.cc:525-536 | a complete run that executes a block executes all its post-dominators |
| `CoveragePruning.FirstMissIsFullDominator` | AFLplusplus/instrumentation/SanitizerCoveragePCGUARD.so.cc:538-561 | if two runs hit the same probes, the first block only one of them executes is a full dominator |
| `CoveragePruning.MergeIsHeader` | AFLplusplus/instrumentation/SanitizerCoveragePCGUARD.so.cc:557-561 | a successor of a full dominator that is not one itself is a loop header: it dominates one of its reachable predecessors |
| `CoveragePruning.HeaderExit` | AFLplusplus/instrumentation/SanitizerCoveragePCGUARD.so.cc:557-561 | what follows such a header on a run |
| `CoveragePruning.NextFullDominator` | AFLplusplus/instrumentation/SanitizerCoveragePCGUARD.so.cc:557-561 | after a full dominator the other run misses, a run reaches another one within two steps |
| `CoveragePruning.NoMissedFullDominator` | AFLplusplus/instrumentation/SanitizerCoveragePCGUARD.so.cc:557-561 | so no full dominator is missed |
| `CoveragePruning.HitsBoundBlocks` | AFLplusplus/instrumentation/SanitizerCoverageLTO.so.cc:1173-1236 | if one run's probes are among another's, so are its blocks; for both passes, including the LTO rule that drops the entry |
| `CoveragePruning.PruningLosesNoCoverage` | AFLplusplus/instrumentation/SanitizerCoveragePCGUARD.so.cc:512-561 | two complete runs that hit the same probes execute exactly the same blocks, in every graph without critical edges in which dead code leads to no live block and blocks without an insertion point wanted no probe |
| `CoveragePruning.DeadPredecessorsHideRuns` | AFLplusplus/instrumentation/SanitizerCoveragePCGUARD.so.cc:512-561 | with dead predecessors of live blocks this fails: a well-formed graph, without critical edges, and two runs over different blocks that hit the same probes |
| `CoveragePruning.UnprobedHidesRuns` | AFLplusplus/instrumentation/SanitizerCoveragePCGUARD.so.cc:550-552 | with blocks that lack an insertion point but wanted a probe it fails too, in a graph that is sound in every other respect |
| `EdgeCoverage.SplitWellFormed` | AFLplusplus/instrumentation/SanitizerCoveragePCGUARD.so.cc:627-629 | splitting gives a well-formed graph |
| `EdgeCoverage.SplitLeavesNoCriticalEdge` | AFLplusplus/instrumentation/SanitizerCoveragePCGUARD.so.cc:627-629 | only edges to blocks that hold nothing but unreachable may stay critical |
| `EdgeCoverage.SplitsExactlyCritical` | AFLplusplus/instrumentation/SanitizerCoveragePCGUARD.so.cc:627-629 | exactly the critical edges that do not lead to an unreachable block are split, parallel edges included |
| `EdgeCoverage.SplitKeepsReachability` | AFLplusplus/instrumentation/SanitizerCoveragePCGUARD.so.cc:627-629 | if dead code of the function leads to no live block, this is still so after splitting |
| `EdgeCoverage.LiftIsRun` | AFLplusplus/instrumentation/SanitizerCoveragePCGUARD.so.cc:627-629 | a run of the function becomes a run of the split graph |
| `EdgeCoverage.UnsplitEdgeTaken` | AFLplusplus/instrumentation/SanitizerCoveragePCGUARD.so.cc:627-629 | an edge that was not split is taken whenever both its blocks are executed |
| `EdgeCoverage.ProbesDetermineEdges` | AFLplusplus/instrumentation/SanitizerCoveragePCGUARD.so.cc:512-641 | after splitting and pruning, the probes hit determine which successor slots of the original function were taken, parallel edges included; dead code is allowed as above |
| `SwitchTree.BytesDetermine` | AFLplusplus/instrumentation/split-switches-pass.so.cc:191-201 | values of n bytes with the same bytes are equal |
| `SwitchTree.BytesRebuild` | AFLplusplus/instrumentation/split-switches-pass.so.cc:196 | the bytes of a value put together again, lowest first, are the value |
| `SwitchTree.ByteIsShifted` | AFLplusplus/instrumentation/split-switches-pass.so.cc:196 | byte i is the value after i shifts by eight bits, modulo 256 |
| `SwitchTree.PickIsUnchecked` | AFLplusplus/instrumentation/split-switches-pass.so.cc:203-219 | the chosen byte position is one not compared yet: the first assertion holds in every recursive call |
| `SwitchTree.PickIsSmallest` | AFLplusplus/instrumentation/split-switches-pass.so.cc:203-217 | no unchecked position has fewer byte values than the one picked, and none before it as few |
| `SwitchTree.CheckStep` | AFLplusplus/instrumentation/split-switches-pass.so.cc:255-324 | when one byte value is left, comparing it leaves fewer positions, and after the last position exactly one case is left: the second assertion holds |
| `SwitchTree.SplitStep` | AFLplusplus/instrumentation/split-switches-pass.so.cc:327-363 | dividing at the median leaves both sides non-empty, smaller and fit for the recursion |
| `SwitchTree.PivotIsMedian` | AFLplusplus/instrumentation/split-switches-pass.so.cc:329-333 | half of the byte values, rounded down, are below the pivot |
| `SwitchTree.SidesPartition` | AFLplusplus/instrumentation/split-switches-pass.so.cc:345-359 | the two sides hold every case exactly once |
| `SwitchTree.ConvertPreservesMeaning` | AFLplusplus/instrumentation/split-switches-pass.so.cc:178-381 | for distinct case values and every switched value the tree ends at the matching case's block, or nowhere exactly when no case matches |
| `SwitchTree.LeavesOwnCases` | AFLplusplus/instrumentation/split-switches-pass.so.cc:290-291 | the leaves own the cases, each exactly one |
| `SwitchTree.ConvertNumbers` | AFLplusplus/instrumentation/split-switches-pass.so.cc:223-224 | every node of the tree is a new block, and no block is used twice |
| `SplitSwitches.CollectBytes` | AFLplusplus/instrumentation/split-switches-pass.so.cc:191-201 | per position, the set of byte values that occur in the cases |
| `SplitSwitches.Smallest` | AFLplusplus/instrumentation/split-switches-pass.so.cc:203-219 | the first unchecked position with the fewest byte values |
| `SplitSwitches.MiddleByte` | AFLplusplus/instrumentation/split-switches-pass.so.cc:329-333 | the median of the sorted byte values |
| `SplitSwitches.Divide` | AFLplusplus/instrumentation/split-switches-pass.so.cc:341-359 | the cases below the pivot and the others, in order |
| `SplitSwitches.UpdateFirst` | AFLplusplus/instrumentation/split-switches-pass.so.cc:300-312 | exactly the first entry naming the old block is renamed |
| `SplitSwitches.RenameFirstCounts` | AFLplusplus/instrumentation/split-switches-pass.so.cc:300-312 | one occurrence of the old block becomes one of the new, all other counts stay |
| `SplitSwitches.Body.UpdatePhis` | AFLplusplus/instrumentation/split-switches-pass.so.cc:294-314 | every PHI of the target block is repaired, no other |
| `SplitSwitches.Body.SwitchConvert` | AFLplusplus/instrumentation/split-switches-pass.so.cc:178-381 | the in-place recursion builds the blocks and PHI entries of the specified tree |
| `SplitSwitches.TreeLeadsTo` | AFLplusplus/instrumentation/split-switches-pass.so.cc:291-322 | following the emitted branches from the tree's root ends where the tree says, through blocks of the tree only |
| `SplitSwitches.LeavesPerTarget` | AFLplusplus/instrumentation/split-switches-pass.so.cc:294-314 | a target has as many leaves as cases, also when cases share it |
| `SplitSwitches.TreeEdges` | AFLplusplus/instrumentation/split-switches-pass.so.cc:291-375 | the edges from the tree into a target are exactly its leaves' |
| `SplitSwitches.RewriteMeaning` | AFLplusplus/instrumentation/split-switches-pass.so.cc:447-470 | from the old block the rewritten function reaches the block the switch would have chosen, and executes no other old block on the way |
| `SplitSwitches.SameTargetsOnly` | AFLplusplus/instrumentation/split-switches-pass.so.cc:447-470 | the next old block after the rewritten one is the block the switch chooses, and no other, for every value |
| `SplitSwitches.RewriteStaysClosed` | AFLplusplus/instrumentation/split-switches-pass.so.cc:291-375 | every branch of the rewritten function leads to a block |
| `SplitSwitches.RewriteKeepsPhis` | AFLplusplus/instrumentation/split-switches-pass.so.cc:294-314 | PHI conservation: for every target the incoming blocks of each PHI are, with multiplicity, its predecessor edges, even when cases and default share it |
| `SplitSwitches.RewriteCorrect` | AFLplusplus/instrumentation/split-switches-pass.so.cc:418-496 | meaning, PHI blocks, PHI values and all other blocks together |
| `SplitSwitches.Body.SplitSwitch` | AFLplusplus/instrumentation/split-switches-pass.so.cc:418-496 | one switch is rewritten exactly if it has two cases or more and a width of whole bytes up to 64 bits; otherwise nothing changes |
| `SplitSwitches.Body.SplitAll` | AFLplusplus/instrumentation/split-switches-pass.so.cc:391-496 | all switches of a function: control goes from each to the target it would have chosen, through blocks made for that switch alone; PHI blocks and values stay consistent, every other block is as it was, and no switch that qualifies is left |
| `Xxh3.Accumulate` | AFLplusplus/include/xxhash.h:4908-4923 | the loop over stripes |
| `Xxh3.FoldSplit` | AFLplusplus/include/xxhash.h:4925-4978 | consuming n+m stripes is consuming n and then m |
| `Xxh3.AccRangeIsFold` | AFLplusplus/include/xxhash.h:5352-5383 | accumulating within a block is stripe-by-stripe consumption, scrambling exactly at the block's end |
| `Xxh3.FoldAcrossBlock` | AFLplusplus/include/xxhash.h:5361-5372 | crossing a block boundary in the middle of a call |
| `Xxh3.ConsumeStripes` | AFLplusplus/include/xxhash.h:5352-5383 | both branches give the stripe-by-stripe result and the right position in the block |
| `Xxh3.Geometry` | AFLplusplus/include/xxhash.h:4930-4954 | blocks and remaining stripes add up to all stripes that leave at least one byte |
| `Xxh3.HashLong` | AFLplusplus/include/xxhash.h:4925-5041 | the one-shot loop is the stripe-by-stripe hash |
| `Xxh3.LastStripeSecret` | AFLplusplus/include/xxhash.h:4957-4968 | the last stripe meets the 64 bytes of the secret that end 7 before its end |
| `Xxh3.LongHashInBlock` | AFLplusplus/include/xxhash.h:4925-4968 | inputs within one block written out on the kernels, with offsets in numbers |
| `Xxh3.LongHashOneBlock` | AFLplusplus/include/xxhash.h:4925-4968 | inputs of one block and a part written out, scrambling once with the last 64 bytes of the secret |
| `Xxh3Stream.HashWithSecret` | AFLplusplus/include/xxhash.h:5128-5172 | one shot with a secret: short or long |
| `Xxh3Stream.HashWithSeed` | AFLplusplus/include/xxhash.h:5087-5181 | one shot with a seed, seed zero being the default secret |
| `Xxh3Stream.WhichHash` | AFLplusplus/include/xxhash.h:5128-5181 | 240 bytes is the last short length; which secret and seed each kind of call uses |
| `Xxh3Stream.AppendSmall` | AFLplusplus/include/xxhash.h:5410-5416 | input that fits is only buffered |
| `Xxh3Stream.FillAndDrain` | AFLplusplus/include/xxhash.h:5429-5440 | completing the buffer and consuming it is consuming the same bytes of the whole input |
| `Xxh3Stream.ConsumeWhole` | AFLplusplus/include/xxhash.h:5445-5462 | whole buffers straight from the input, leaving at least one byte |
| `Xxh3Stream.StoreRest` | AFLplusplus/include/xxhash.h:5464-5468 | what is left goes to the buffer, behind it the last stripe consumed |
| `Xxh3Stream.DigestFromBuffer` | AFLplusplus/include/xxhash.h:5485-5520 | both branches see the last 64 bytes of everything fed, also when they straddle older buffer bytes |
| `Xxh3Stream.DigestLong` | AFLplusplus/include/xxhash.h:5485-5520 | the accumulators of the one-shot hash, the state unchanged |
| `Xxh3Stream.State.ResetInternal` | AFLplusplus/include/xxhash.h:5287-5310 | counters cleared, cached secret kept, the limits as 64-bit subtraction gives them |
| `Xxh3Stream.State.ResetWithSecret` | AFLplusplus/include/xxhash.h:5323-5332 | refused exactly for a missing secret or one shorter than 136 bytes |
| `Xxh3Stream.State.ResetWithSeed` | AFLplusplus/include/xxhash.h:5335-5345 | the cached secret always belongs to the stored seed, whatever resets came before |
| `Xxh3Stream.State.Update` | AFLplusplus/include/xxhash.h:5388-5476 | the state stands for everything fed; a null input is an error and changes nothing |
| `Xxh3Stream.State.Digest` | AFLplusplus/include/xxhash.h:5523-5543 | the one-shot hash of everything fed since the last reset |
| `Xxh3Stream.StreamAll` | AFLplusplus/include/xxhash.h:5287-5543 | any earlier resets, any way of cutting the input: the digest is the one-shot hash |
| `LaneHash.FoldConcat` | AFLplusplus/include/xxhash.h:2345-2432 | cutting the input anywhere changes nothing if left-over bytes go in front of the next part |
| `LaneHash.OneShot` | AFLplusplus/include/xxhash.h:2222-2273 | the one-shot loop computes the reference hash, for both widths |
| `LaneHash.HashOfFew` | AFLplusplus/include/xxhash.h:2222-2273 | inputs of less than two stripes written out |
| `LaneHash.State32.Update` | AFLplusplus/include/xxhash.h:2345-2432 | lanes, buffer, 32-bit total and the large-length flag stand for everything fed |
| `LaneHash.LargeLen` | AFLplusplus/include/xxhash.h:2361-2363 | the flag is right past totals of 2^32 |
| `LaneHash.State32.Digest` | AFLplusplus/include/xxhash.h:2435-2455 | the same reference hash, for every chunking and totals past 2^32 |
| `LaneHash.State64.Update` | AFLplusplus/include/xxhash.h:2880-2956 | lanes, buffer and total stand for everything fed |
| `LaneHash.State64.Digest` | AFLplusplus/include/xxhash.h:2959-2988 | the same reference hash, for every chunking |
| `LaneHash.FinalizeRerolled` | AFLplusplus/include/xxhash.h:2120-2137 | the loop form handles words first, then bytes |
| `LaneHash.FinalizeSwitch` | AFLplusplus/include/xxhash.h:2139-2204 | the unrolled switch computes the same for every length |
| `LaneHash.TailOfSeven` | AFLplusplus/include/xxhash.h:2122-2137 | seven bytes left are one word and three bytes, in order |
| `ShortHash.AvalancheBijective` | AFLplusplus/include/xxhash.h:2695-2704 | the avalanche has a two-sided inverse |
| `ShortHash.TwistUndone` | AFLplusplus/include/xxhash.h:3787 | the two-rotation exclusive or has a two-sided inverse: its eighth power is a rotation |
| `AddLength.AddLenUndone` | AFLplusplus/include/xxhash.h:3789 | the step that adds the length has an inverse when the low 35 bits of the length are at most 2^35 - 2^29 |
| `AddLength.AddLenInjective` | AFLplusplus/include/xxhash.h:3789 | no two words collide if nothing carries, or the carry starts at a multiple of the block it flips |
| `AddLength.AddLenCollides` | AFLplusplus/include/xxhash.h:3789 | for every other length some two words collide |
| `ShortHash.RrmxmxBijective` | AFLplusplus/include/xxhash.h:3784-3793 | the mix has a two-sided inverse for every length whose low 35 bits are at most 2^35 - 2^29 |
| `ShortHash.RrmxmxInjective` | AFLplusplus/include/xxhash.h:3784-3793 | two words never collide if the length is fine |
| `ShortHash.RrmxmxCollides` | AFLplusplus/include/xxhash.h:3784-3793 | some two words collide if it is not |
| `ShortHash.CollidingLength` | AFLplusplus/include/xxhash.h:3784-3793 | 0x7FFFFFFFF is such a length |
| `ShortHash.NoCollision1to3` | AFLplusplus/include/xxhash.h:3829-3855 | for a fixed secret and seed no two inputs of one to three bytes collide, whatever their lengths |
| `ShortHash.NoCollision4to8` | AFLplusplus/include/xxhash.h:3857-3877 | for a fixed secret and seed no two inputs of one length from four to eight bytes collide |
| `ShortHash.SeedMatters` | AFLplusplus/include/xxhash.h:3829-3877 | two seeds never give one input of one to eight bytes the same hash |
| `ShortHash.SecretMatters1to3` | AFLplusplus/include/xxhash.h:3847-3851 | two secrets give an input of one to three bytes the same hash exactly when the exclusive or of their first two words is the same |
| `ShortHash.SecretMatters4to8` | AFLplusplus/include/xxhash.h:3869-3873 | for four to eight bytes: exactly when the exclusive or of the 64-bit words at 8 and 16 is the same |
| `ShortHash.HashOfAbc` | AFLplusplus/include/xxhash.h:3829-3855 | the hash of "abc" with the default secret, for two seeds, as a number |
| `ShortHash.HashOfAbcde` | AFLplusplus/include/xxhash.h:3857-3877 | the hash of "abcde", likewise |
| `WideProduct.Sum` | AFLplusplus/include/xxhash.h:3727-3730 | neither sum of partial products overflows |
| `WideProduct.Multiply` | AFLplusplus/include/xxhash.h:3721-3735 | high and low word are the exact 128-bit product |
| `ForkServer.StepKeepsChildren` | AFLplusplus/instrumentation/afl-compiler-rt.o.c:1205-1332 | every step keeps: at most one child, known to the server, in the state the program counter says |
| `ForkServer.StepKeepsAnswered` | AFLplusplus/instrumentation/afl-compiler-rt.o.c:1303-1332 | every step keeps: all commands but the current one are answered by a pid word and a status word |
| `ForkServer.ForkServerSafety` | AFLplusplus/instrumentation/afl-compiler-rt.o.c:1141-1332 | over every run and against any fuzzer: at most one unreaped child, a fork only after the previous child was reaped, a wait only for an existing child |
| `ForkServer.OneAnswerPerCommand` | AFLplusplus/instrumentation/afl-compiler-rt.o.c:1141-1332 | when a command is taken, every earlier one got exactly one pid word and then one status word of that process, which says stopped exactly when the process was still there; the reused handshake word included |
| `ForkServer.StatusIsTrue` | AFLplusplus/instrumentation/afl-compiler-rt.o.c:1318-1325 | every status word written says stopped exactly when the child is still unreaped |
| `ForkServer.LastWait` | AFLplusplus/instrumentation/afl-compiler-rt.o.c:1310-1325 | what is reported is what the last wait for this child found, with no step of the server in between |
| `ForkServer.PidIsTrue` | AFLplusplus/instrumentation/afl-compiler-rt.o.c:1303 | every pid word names the only child |
| `ForkServer.ContinueOnlyUnkilled` | AFLplusplus/instrumentation/afl-compiler-rt.o.c:1252-1299 | a stopped child is continued only by a zero word, and written off exactly by another |
| `ForkServer.HandshakeIsCommand` | AFLplusplus/instrumentation/afl-compiler-rt.o.c:1151-1198 | the handshake word is kept as first command exactly when it asks for no shared memory and for no dictionary that there is |
| `ForkServer.HandshakeTaken` | AFLplusplus/instrumentation/afl-compiler-rt.o.c:1205-1213 | then the first command taken is that word |
| `ForkServer.HandshakeRead` | AFLplusplus/instrumentation/afl-compiler-rt.o.c:1141-1143 | one handshake word is read before the first command if there is shared-memory input or a dictionary, none otherwise |
| `ForkServer.NeverStopped` | AFLplusplus/instrumentation/afl-compiler-rt.o.c:1310-1321 | outside persistent mode no child is reported stopped, continued or written off |
| `ForkServer.KilledMeans` | AFLplusplus/instrumentation/afl-compiler-rt.o.c:1249-1252 | what an honest fuzzer reports: whether it has killed the announced process since the last command |
| `ForkServer.WriteOffNeverBlocks` | AFLplusplus/instrumentation/afl-compiler-rt.o.c:1252-1261 | if the fuzzer reports kills truthfully, waiting for a killed child never blocks |
| `PersistentMode.PersistentLoop.Next` | AFLplusplus/instrumentation/afl-compiler-rt.o.c:1339-1383 | one call of the loop: first pass, following passes and the last, with map and history cleared as the source does |
| `PersistentMode.CallCounts` | AFLplusplus/instrumentation/afl-compiler-rt.o.c:1339-1383 | the loop leaves after exactly n iterations |
| `PersistentMode.RunsInNumbers` | AFLplusplus/instrumentation/afl-compiler-rt.o.c:1339-1370 | a count of n stands for n runs, zero for 2^32 |
| `PersistentMode.RunServes` | AFLplusplus/instrumentation/afl-compiler-rt.o.c:1264-1321 | over every run without crashes and kills, each finished child served exactly n commands |
| `PersistentMode.ForksPerRuns` | AFLplusplus/instrumentation/afl-compiler-rt.o.c:1264-1321 | after r commands there have been ceil(r/n) forks |
| `GuardIds.Runtime.MapShm` | AFLplusplus/instrumentation/afl-compiler-rt.o.c:330-622 | the two sizes after a set-up, and when the process exits instead |
| `GuardIds.SetupInNumbers` | AFLplusplus/instrumentation/afl-compiler-rt.o.c:340-448 | the two sizes after a set-up, and the give-up beyond 8388608, in numbers |
| `GuardIds.LtoStart` | AFLplusplus/instrumentation/afl-compiler-rt.o.c:1471-1488 | more than 2097152 locations fixed at link time, outside a fuzzer: the map covers them and one more |
| `GuardIds.Runtime.Number` | AFLplusplus/instrumentation/afl-compiler-rt.o.c:1843-1859 | guard i gets the next number if the dice keep it and zero otherwise, the first always one |
| `GuardIds.RollsKeepRatio` | AFLplusplus/instrumentation/afl-compiler-rt.o.c:1849 | of a hundred rolls, as many as the ratio keep a guard |
| `GuardIds.FirstGuard` | AFLplusplus/instrumentation/afl-compiler-rt.o.c:1843-1845 | the first guard of the first module is 6 |
| `GuardIds.IdsDistinct` | AFLplusplus/instrumentation/afl-compiler-rt.o.c:1843-1859 | without wrap-around the numbers of a module are new and pairwise distinct |
| `GuardIds.NoRoom` | AFLplusplus/instrumentation/afl-compiler-rt.o.c:1843-1903 | without room some guard is zero where it must not be, below 6, or outside the map |
| `GuardIds.Runtime.Assign` | AFLplusplus/instrumentation/afl-compiler-rt.o.c:1843-1903 | all guards of all modules are pairwise distinct, at least 6 and inside the map after the call if, and with shared memory only if, there was room |
| `GuardIds.NoRoomAtAll` | AFLplusplus/instrumentation/afl-compiler-rt.o.c:418-448 | outside a fuzzer AFL_MAP_SIZE=-1 leaves no room for a first guard |
| `GuardIds.Runtime.NumberLate` | AFLplusplus/instrumentation/afl-compiler-rt.o.c:1814-1831 | guard i of a module loaded after the fork server started has the i-th number of the round from 5 up to final_loc, from where the last such module ended and on over skipped guards, or zero if skipped; no other guard changes |
| `GuardIds.CycleRepeats` | AFLplusplus/instrumentation/afl-compiler-rt.o.c:1829 | numbers come back after a whole round and not before |
| `GuardIds.Runtime.Init` | AFLplusplus/instrumentation/afl-compiler-rt.o.c:1691-1903 | the whole callback: repeated calls and numbered ranges change nothing, invalid ratios and late modules exit, everything else as above |
| `GuardIds.Runtime.Run` | AFLplusplus/instrumentation/afl-compiler-rt.o.c:1456-1903 | any sequence of module initialisations, constructors and the start of the fork server keeps the promise while the numbers fit |
| `CmplogRing.CmpMap.Record` | AFLplusplus/instrumentation/afl-compiler-rt.o.c:2066-2100 | one more compare: the log since the type switch grows by it, other keys are untouched |
| `CmplogRing.CmpMap.Hook1` | AFLplusplus/instrumentation/afl-compiler-rt.o.c:1909-1940 | one byte; equal operands are skipped |
| `CmplogRing.CmpMap.Hook2` | AFLplusplus/instrumentation/afl-compiler-rt.o.c:1942-1976 | two bytes; equal operands are skipped |
| `CmplogRing.CmpMap.Hook4` | AFLplusplus/instrumentation/afl-compiler-rt.o.c:1978-2014 | four bytes; equal operands are skipped |
| `CmplogRing.CmpMap.Hook8` | AFLplusplus/instrumentation/afl-compiler-rt.o.c:2016-2052 | eight bytes; equal operands are skipped |
| `CmplogRing.CmpMap.HookN` | AFLplusplus/instrumentation/afl-compiler-rt.o.c:2056-2102 | a given width; equal operands are skipped |
| `CmplogRing.CmpMap.Hook16` | AFLplusplus/instrumentation/afl-compiler-rt.o.c:2104-2138 | sixteen bytes; equal operands are logged too |
| `CmplogRing.HeaderNext` | AFLplusplus/include/cmplog.h:44-54 | hits modulo 2^24, shape and attribute stay those of the log |
| `CmplogRing.HeaderInNumbers` | AFLplusplus/include/cmplog.h:44-54 | hits modulo 2^24, attribute modulo 16, shape below 32 |
| `CmplogRing.SlotNext` | AFLplusplus/instrumentation/afl-compiler-rt.o.c:2090-2100 | slot j holds the latest compare numbered j modulo 32, its high words those of the latest wide one |
| `CmplogRing.HitsNext` | AFLplusplus/include/cmplog.h:46 | the 24-bit counter wraps at a multiple of 32, so the slots go on in order |
| `CmplogRing.ShapeExact` | AFLplusplus/include/cmplog.h:48 | the shape is the greatest width minus one exactly when that is below 32 |
| `CmplogRing.ShapeCut` | AFLplusplus/include/cmplog.h:48 | a compare of 33 bytes leaves shape 0 |
| `CmplogRing.CmpMap.RingHoldsLast32` | AFLplusplus/include/cmplog.h:35-63 | each of the last 32 compares since the type switch is in the slot its sequence number names |
| `EdgeTrace.CountsNext` | AFLplusplus/include/afl-as.h:195-196 | a counter that was hit n times holds ((n-1) mod 255)+1, for one more hit |
| `EdgeTrace.Asm32.Store` | AFLplusplus/include/afl-as.h:183-197 | the 32-bit assembly counts the edge |
| `EdgeTrace.Asm64.Store` | AFLplusplus/include/afl-as.h:441-452 | the 64-bit assembly, with its double exclusive or, counts the same edge |
| `EdgeTrace.Trace.Visit` | AFLplusplus/instrumentation/afl-compiler-rt.o.c:227-247 | the C function counts the edge from the remembered location cut to 16 bits |
| `EdgeTrace.CAgreesExactly` | AFLplusplus/instrumentation/afl-compiler-rt.o.c:227-232 | the C form counts the same indices as the assembly exactly when every location but the last is below 2^17 |
| `EdgeTrace.CDisagrees` | AFLplusplus/instrumentation/afl-compiler-rt.o.c:227-232 | locations 2^17 and 0 in turn: the assembly counts index 2^16, the C form index 0 |
| `EdgeTrace.ConfiguredMapIsSmall` | AFLplusplus/instrumentation/llvm-alternative-coverage.h:6-12 | on a map of 2^16 bytes every index inside the map means 16-bit locations, so nothing is cut |
| `EdgeTrace.AllAgree` | AFLplusplus/include/afl-as.h:183-452 | for every sequence of locations whose indices are inside the map the two assembly forms leave the same map, and it counts edges; the C form too when no location but the last is cut, and always on a map of the configured size |
| `Ngram.ShuffleMask` | AFLplusplus/instrumentation/afl-llvm-pass.so.cc:479-487 | every position but the first moves back by one, padding reads padding |
| `Ngram.HistoryNext` | AFLplusplus/instrumentation/afl-llvm-pass.so.cc:844-847 | after a visit the vector holds exactly the last N-1 shifted locations, then zeros |
| `Ngram.ReduceHistory` | AFLplusplus/instrumentation/afl-llvm-pass.so.cc:742-744 | the reduction is the exclusive or of exactly these locations |
| `Ngram.TwoGramsAreEdges` | AFLplusplus/instrumentation/afl-llvm-pass.so.cc:326-330 | 2-grams are edges exactly when all locations have 16 bits |
| `Ngram.ThreeGram` | AFLplusplus/instrumentation/afl-llvm-pass.so.cc:742-771 | the index of a 3-gram is the exclusive or of the location and the two before it, each shifted |
| `Ngram.Tracer.Visit` | AFLplusplus/instrumentation/afl-llvm-pass.so.cc:706-849 | the map counts n-grams of the locations, each cut to 16 bits |
| `ListPool.List.PreAlloc` | AFLplusplus/include/afl-prealloc.h:58-88 | a box nobody uses; from the pool whenever the counter is below 64 |
| `ListPool.List.FreeSlotExists` | AFLplusplus/include/afl-prealloc.h:67-84 | a free slot exists whenever the counter is below 64 |
| `ListPool.List.PreFree` | AFLplusplus/include/afl-prealloc.h:107-140 | the counter stays the number of used slots |
| `ListPool.List.Append` | AFLplusplus/include/list.h:70-94 | the sequence grows by one at its end; ring, pool and counter stay consistent |
| `ListPool.List.Remove` | AFLplusplus/include/list.h:148-166 | the first occurrence goes, failing exactly if there is none |
| `ListPool.RemoveFirstAt` | AFLplusplus/include/list.h:150-162 | which one is the first |
| `ListPool.List.Contains` | AFLplusplus/include/list.h:170-180 | membership, both ways; fatal exactly on a list never used |
| `ListPool.List.ForEach` | AFLplusplus/include/list.h:102-144 | every original element is visited once and in order, also when the body removes the current one, decided visit by visit; what is left is what was not removed; fatal exactly on a list never used |
| `ListPool.KeepNothing` | AFLplusplus/include/list.h:134-144 | clearing leaves the empty list |
| `CoverageMap.NoveltyConcat` | AFLplusplus/include/coverage-64.h:80-105 | novelty and clearing may be computed piece by piece |
| `CoverageMap.ClassBuckets` | AFLplusplus/src/afl-fuzz-bitmap.c:175-187 | which counts fall into each class |
| `CoverageMap.ClassesApart` | AFLplusplus/src/afl-fuzz-bitmap.c:175-187 | classes are ordered as counts are, and two counts share a bit exactly when they share a class |
| `CoverageMap.VirginIsComplement` | AFLplusplus/include/coverage-64.h:103 | after any traces the virgin map is the complement of their union |
| `CoverageMap.CampaignVerdict` | AFLplusplus/src/afl-fuzz-bitmap.c:216-257 | after any campaign: 2 iff some hit byte was hit by no earlier trace, else 1 iff some bit is new, else 0 |
| `CoverageMap.SameTraceIsOld` | AFLplusplus/src/afl-fuzz-bitmap.c:216-222 | a trace seen before is never new again |
| `Coverage64.ClassifyBytes` | AFLplusplus/include/coverage-64.h:11-24 | classifying a word through the 16-bit table is classifying its bytes |
| `Coverage64.ClassifyCounts` | AFLplusplus/include/coverage-64.h:58-73 | the whole map is classified byte by byte, zero words included |
| `Coverage64.DiscoverWord` | AFLplusplus/include/coverage-64.h:77-107 | verdict and clearing of one word as on bytes |
| `Coverage64.HasNewBits` | AFLplusplus/src/afl-fuzz-bitmap.c:224-257 | the loop's verdict is the byte-level novelty, and exactly the trace's bits are cleared |
| `Coverage64.Skim` | AFLplusplus/include/coverage-64.h:178-191 | 0 exactly when classifying and discovering would find nothing |
| `Coverage64.HasNewBitsUnclassified` | AFLplusplus/src/afl-fuzz-bitmap.c:259-288 | the fast path gives the verdict and the virgin map of the slow one; the trace is kept as it was exactly when nothing in the whole map is new, and classified otherwise |
| `Coverage64.Campaign` | AFLplusplus/src/afl-fuzz-bitmap.c:216-257 | the loop over any sequence of traces: every verdict is as the earlier traces say, and in the end the virgin map is the complement of their union |
| `Coverage32.ClassifyBytes` | AFLplusplus/include/coverage-32.h:7-18 | as for 64 bits |
| `Coverage32.ClassifyCounts` | AFLplusplus/include/coverage-32.h:48-63 | as for 64 bits |
| `Coverage32.DiscoverWord` | AFLplusplus/include/coverage-32.h:67-95 | as for 64 bits |
| `Coverage32.HasNewBits` | AFLplusplus/src/afl-fuzz-bitmap.c:224-257 | as for 64 bits |
| `Coverage32.Skim` | AFLplusplus/include/coverage-32.h:98-111 | as for 64 bits |
| `Coverage32.HasNewBitsUnclassified` | AFLplusplus/src/afl-fuzz-bitmap.c:259-288 | as for 64 bits |
| `Coverage32.Campaign` | AFLplusplus/src/afl-fuzz-bitmap.c:216-257 | as for 64 bits |
| `CoverageAgreement.BothWordSizes` | AFLplusplus/src/afl-fuzz-bitmap.c:224-257 | on the same bytes and any real size: the 64-bit verdict is the 32-bit one, raised at most by the up to four bytes it looks at in addition, and these alone it clears in addition; without news there nothing differs |
| `Prng.StepBijective` | AFLplusplus/src/afl-performance.c:45-53 | a step of romuDuoJr has a two-sided inverse |
| `Prng.StepTBijective` | AFLplusplus/src/afl-performance.c:57-68 | a step of RomuTrio32 has a two-sided inverse |
| `Prng.StepsWorkedOut` | AFLplusplus/src/afl-performance.c:45-68 | one step of each generator as numbers |
| `Prng.RunsApart` | AFLplusplus/src/afl-performance.c:45-53 | no run merges two states, and only zero leads to zero |
| `Prng.RunsApartT` | AFLplusplus/src/afl-performance.c:57-68 | the same in 32-bit builds |
| `Prng.Rng.Next` | AFLplusplus/src/afl-performance.c:45-53 | the field updates are the step, the old first word is returned |
| `Prng.Rng32.Next` | AFLplusplus/src/afl-performance.c:57-68 | the same in 32-bit builds |
| `Prng.Unbiased` | AFLplusplus/include/afl-fuzz.h:1260-1271 | every residue below the limit has the same number of accepted draws, and at most limit draws are rejected |
| `Prng.PreimageCount` | AFLplusplus/include/afl-fuzz.h:1271 | in any range of n draws the first n mod limit residues occur once more than the others |
| `Prng.Unbiased32` | AFLplusplus/include/afl-fuzz.h:1260-1271 | in 32-bit builds the result is unbiased exactly when the limit divides 2^32 |
| `Prng.Rng.Below` | AFLplusplus/include/afl-fuzz.h:1245-1273 | the residue of the first accepted draw from the state, or from fresh seeds when the counter has run out |
| `Prng.ReseedLasts` | AFLplusplus/include/afl-fuzz.h:1251-1258 | a reseed lasts from 1250000 to 3749999 draws |
| `Prng.Rng.BelowDataLen` | AFLplusplus/include/afl-fuzz.h:1278-1299 | below its limit, by one of three ways drawn first |
| `Prng.WayDraws` | AFLplusplus/include/afl-fuzz.h:1282-1293 | the three ways draw no, one or two numbers more |
| `Prng.Rng32.Below` | AFLplusplus/include/afl-fuzz.h:1245-1273 | in 32-bit builds no draw is rejected: the residue of the very next draw |
| `WeightPropagation.PathsAreAll` | ghidra_scripts/get_bitmap_offsets.py:72-81 | the enumerated caller paths are exactly the caller paths |
| `WeightPropagation.ViaSize` | ghidra_scripts/get_bitmap_offsets.py:78-81 | paths through different callers are different and counted once |
| `WeightPropagation.PathSumStep` | ghidra_scripts/get_bitmap_offsets.py:72-90 | the path sum splits into the function's own share and its callers' with half the weight |
| `WeightPropagation.PathSumTail` | ghidra_scripts/get_bitmap_offsets.py:73-74 | paths longer than the weight contribute nothing |
| `WeightPropagation.ShareIsFloor` | ghidra_scripts/get_bitmap_offsets.py:86-87 | the offsets of a function are handed no more than its weight, and less than one per offset is lost |
| `WeightPropagation.HalveIsFloor` | ghidra_scripts/get_bitmap_offsets.py:79 | after d calls the weight is divided by 2^d, rounded down |
| `WeightPropagation.LevelsFromStart` | ghidra_scripts/get_bitmap_offsets.py:73-74 | caller paths of fewer than max_depth calls count |
| `WeightPropagation.WalkIsPathSum` | ghidra_scripts/get_bitmap_offsets.py:72-112 | walking and unrolling gives each function the sum over caller paths of its share, cycles included |
| `WeightPropagation.MergeDuplicates` | ghidra_scripts/get_bitmap_offsets.py:114-136 | fails exactly on different offsets for one function; otherwise each function once, with its total |
| `WeightPropagation.Propagate` | ghidra_scripts/get_bitmap_offsets.py:72-202 | each function with offsets gets the sum over seeds and caller paths of length d below the depth of floor(floor(w/2^d)/offsets), all others nothing |

## Left out

- LLVM and GCC API calls, pass registration, environment parsing, banners: only the graph, tree or vector computed is modelled.
- Edges that LLVM cannot split (indirect branches, exception pads), and the function filters at the head of `instrumentFunction`.
- Guard-array slots and vector selects of the coverage passes, and the LTO pass beyond its choice of blocks.
- SIMD variants of XXH3 and of `skim`; the scalar forms are modelled.
- XXH3 of 9 to 240 bytes and the 128-bit short hashes: an arbitrary function in the streaming model.
- Null inputs of XXH32 and XXH64, whose result depends on a compile-time switch.
- The mmap, shmat and malloc side of shared memory, the cmplog and pcmap segments, and `__afl_auto_first`: only the two sizes and the exits are kept.
- The routine hooks of cmplog: they appear as something that takes a key over.
- Snapshot and DMA variants of the fork server, dictionary transfer, and signal handling.
- The atomic-counter, context-sensitive, coverage-only and no-count variants of edge tracing.
- `simplify_trace`, `minimize_bits` and the other byte loops of the coverage map: they would only add easy members.
- `func_bitmap_weight_tuples_to_bitmap_weight_map`: it drops an offset that conflicts twice two times, which fails.
- Prng.Rng.Below: termination is assumed through `Live`, because nothing bounds the run of rejected draws.
- Prng.Rng.BelowDataLen: C leaves the order of the draws in one expression open; the model draws from left to right.
- GuardIds.Runtime.Run: one way only; the exact condition is stated per call by GuardIds.Runtime.Assign.
- ListPool.List.ForEach: the body may remove the current element only, as the macros provide.
- CoveragePruning.PruningLosesNoCoverage: its condition on blocks without an insertion point is sufficient, not necessary, because other probes may tell such a block's run apart; where it fails the promise can fail, as CoveragePruning.UnprobedHidesRuns shows.
- CoveragePruning.HitsBoundBlocks: the same condition on blocks without an insertion point.
- EdgeCoverage.ProbesDetermineEdges: the same condition on blocks without an insertion point.
- Prng.Rng32.Below: `rand_below_datalen` of 32-bit builds is not modelled separately; it differs only in the generator.
