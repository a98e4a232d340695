# Verified models of the xdec analyses

xdec lifts AArch64 machine code to an SSA intermediate language, recovers its control flow, and prints
C. This project models the parts of it whose correctness is an argument rather than a reading, and
proves those arguments. Each analysis is modelled with the branches, edge cases and constants of the
code it stands for; where the code works in place, so does the model.

* **Control flow** — reverse post-order (`Rpo`), immediate dominators, depths and frontiers
  (`DomTree`, `DomSweep`, `Dominators`, `Frontier`, `DominatorQueries`), post-dominators
  (`PostDomTree`, `PostDominators`), strongly connected components (`SccInv`, `Scc`), natural loops and
  reducibility (`Loops`), all over the graphs of `Graph`.
* **Index values** — fixed-width expressions and what they denote (`Bits`, `Expr`), the upper bound an
  expression's own structure gives (`LocalBound`) and how tight it is (`BoundLimits`), the bounds branch
  guards give on every run (`GuardBound`), joint resolution of complementary bits (`BitFactor`) and its
  limits (`PairLimits`), exact finite value sets (`ExactValues`), how exact they are (`ExactLimits`), and
  the search that fills them (`ExactSearch`).
* **Load folding** — address classes and the alias oracle (`StackFrame`), the two scans for foldable
  loads (`LoadFold`), and the proof that the fold leaves a block's run as it was (`FoldMeaning`).
* **Discovery** — the round and settle loop over a lifter and a pipeline that may answer anything
  (`Driver`).
* **The image** — the region map (`MemoryMap`), relocated reads and lookups (`Image`), and the compact
  relocation table (`Relr`).
* **Printing** — shared expressions as temporaries and trees (`Sharing`), and the width a value is read
  at (`ReadWidth`).

## How things are represented

Blocks, values, ops and expression nodes are natural numbers. A graph carries successor and predecessor
lists required to be each other's converse. Machine integers are naturals below a power of two, with
every wrap written out; the scalar fragment has widths of 1 to 64 bits. A run of a function
(`GuardBounds`) is a path from the entry with an environment per block, in which a value changes only
where it is defined; a phi holds what one of its arms evaluated to in some environment of the run. In
load folding, calls, phis and every op without a memory effect of its own take their results from an
arbitrary `World`, and so does the driver from its lifter, pipeline and wind-down requests. An explicit
depth-first stack of pairs is kept as two sequences. Standard-library sorts are insertion sorts; where
their order on ties is unspecified, contracts leave it open. Stores into 64-bit `int64_t` displacements
wrap in two's complement.

## Where the code falls short of its documentation

Each of these is proved: a concrete input that fails, and the condition under which the code is right.

* A dominance frontier never lists the function entry for the entry itself, nor for any block while the
  entry has fewer than two predecessors: `RecordedAtEntry`, `EntryFrontierIsMissed`.
* `postDominates(a, b)` needs, beyond "every path from `b` to an exit passes `a`", that no loop can be run
  around from `b` without meeting `a`: `PostDominates`, `LoopHidesPostDominator`.
* `edgeDominates` is right for every reachable block exactly when the edge does not lead to the entry, and
  `boundOnIndex` can answer too little when it does: `EdgeDominatesExactly`, `EntryGuardFails`.
* `localBound` bounds `x - k` only when that does not borrow, and decides a signed comparison only with both
  sides in the non-negative half: `SubBoundExactly`, `ShiftedSubExactly`, `SubBoundFails`,
  `SignedDecisionExactly`, `SignedDecisionFails`.
* A shift is read as one bit whatever its amount, a sign-extended bit is read as 1, and a bit shifted out of
  a one-bit value is doubled: `PairExactly`, `ShiftPairExactly`, `WideShiftFails`, `SignedPairExactly`, `ShiftedOutExactly`.
  An entry-register arm is dropped from a phi: `DroppedArmFails`.
* `mayAlias` answers `No` for every pair of accesses one of which ends at 2^64 or crosses it; for a stack slot
  that is any access reaching the entry stack pointer, the slot `[sp-8, sp)` included. The answer is wrong
  exactly for the pairs that also overlap, and a load can then be folded past a store to its own slot:
  `NoAliasExactly`, `LastByteGoesWrong`.
* A reference count counts the operands of a root again when the root was already reached, so a node
  referenced once can be named: `KnownRootOvercounts`.

## Model

| member | source | states |
|---|---|---|
| `ReversePostOrder.Search` | src/il/function.cpp:615-637 | One start of the explicit-stack search keeps the depth-first invariant, marks at least its start, and finishes every block it opened. |
| `ReversePostOrder.Compute` | src/il/function.cpp:609-641 | The order starts at the entry, lists exactly the reachable blocks once each, gives every later block an earlier predecessor, and is empty exactly when the entry is missing. |
| `DominatorAnalysis.Intersect` | src/analysis/dominators.cpp:14-26 | The two fingers meet at a block whose chain is exactly the blocks on both chains. |
| `DominatorAnalysis.NewParent` | src/analysis/dominators.cpp:74-84 | The candidate parent is assigned exactly when some predecessor is, and its chain is the intersection of the assigned predecessors' chains. |
| `DominatorSweep.VisitKeepsInv` | src/analysis/dominators.cpp:69-90 | One visit of the sweep keeps the whole invariant (parents earlier in the order, chains only shrinking, no dominator ever lost), and a changed parent moves strictly towards the entry. |
| `DominatorSweep.WeightFalls` | src/analysis/dominators.cpp:69-90 | The sum of the parents' order numbers strictly falls with every change of an assigned parent, which is why the sweep terminates on every graph. |
| `DominatorSweep.ChainIsSound` | src/analysis/dominators.cpp:69-90 | Once no visit changes anything, every block on a chain lies on every path from the entry. |
| `DominatorSweep.ChainIsComplete` | src/analysis/dominators.cpp:69-90 | Every dominator of a block is on its chain, at any moment of the sweep. |
| `DominatorSweep.StableIsDominance` | src/analysis/dominators.cpp:69-90 | A stable sweep is the dominator tree: chain membership is dominance, for every graph, irreducible ones and unreachable predecessors included. |
| `DominatorAnalysis.ImmediateDominators` | src/analysis/dominators.cpp:64-90 | The in-place fixpoint over the parent array ends, and ends at the dominator tree. |
| `DominatorQueries.Levels` | src/analysis/dominators.cpp:94-99 | Depths are chain lengths, and each block's children are exactly the blocks it is the parent of. |
| `DominatorQueries.Climb` | src/analysis/dominators.cpp:112-116 | The climb from a predecessor adds the join to exactly the blocks on the predecessor's chain that are not on the chain of the join's parent. |
| `DominatorQueries.Frontiers` | src/analysis/dominators.cpp:103-118 | The recorded frontiers are exactly those the climbs from all joins with two or more predecessors add. |
| `DominatorQueries.Dominators.Compute` | src/analysis/dominators.cpp:48-120 | The finished object: order, parents, depths, children and frontiers are all those of the dominator tree. |
| `DominatorQueries.Dominators.IsReachable` | src/analysis/dominators.cpp:122-124 | True exactly for blocks some path from the entry reaches. |
| `DominatorQueries.Dominators.Idom` | src/analysis/dominators.cpp:126-131 | The closest strict dominator: it dominates the block, and every other strict dominator dominates it; none for the entry and unreachable blocks. |
| `DominatorQueries.Dominators.Depth` | src/analysis/dominators.cpp:133-135 | The number of strict dominators, and -1 for unreachable blocks. |
| `DominatorQueries.Dominators.IsDominator` | src/analysis/dominators.cpp:137-147 | Between reachable blocks, true exactly when every path from the entry to `b` passes through `a`; otherwise equality. |
| `DominatorQueries.Dominators.Children` | src/analysis/dominators.cpp:149-151 | Exactly the blocks whose closest strict dominator this is. |
| `DominatorQueries.Dominators.Frontier` | src/analysis/dominators.cpp:101-118 | For a join other than the entry, membership holds exactly when the block dominates a reachable predecessor of the join and does not strictly dominate the join; for the entry, exactly under the stated extra conditions. |
| `DominanceFrontier.RecordedIsFrontier` | src/analysis/dominators.cpp:101-118 | What the climbs record for a join other than the entry is the frontier, in both directions, though joins with one predecessor are skipped. |
| `DominanceFrontier.RecordedAtEntry` | src/analysis/dominators.cpp:103-118 | At the entry the record is the frontier without the entry itself, and only with two or more predecessors. |
| `DominanceFrontier.EntryFrontierIsMissed` | src/analysis/dominators.cpp:105-113 | Blocks 0 -> 1 -> 0: the entry is in its own frontier and is recorded in none. |
| `PostDominatorAnalysis.BackwardOrder` | src/analysis/dominators.cpp:164-200 | The exits are the reachable blocks without successors, and the order is a reverse post-order of the reversed graph from all of them. |
| `PostDominatorAnalysis.IntersectForest` | src/analysis/dominators.cpp:31-44 | The fingers meet at the closest block on both chains, or run out together when no block is shared. |
| `PostDominatorAnalysis.NewParent` | src/analysis/dominators.cpp:222-237 | The candidate parent's chain is the intersection of the chains of the successors that reach an exit, empty when that is only the virtual root. |
| `PostDominatorForest.VisitKeepsInv` | src/analysis/dominators.cpp:215-243 | A visit keeps the forest invariant, and a parent moves only from the root to a block or to one further from the root. |
| `PostDominatorForest.ChainGrows` | src/analysis/dominators.cpp:215-243 | Chains only grow from visit to visit. |
| `PostDominatorAnalysis.SlackFalls` | src/analysis/dominators.cpp:214-243 | The room left for growth strictly falls with every change, which is why the sweep terminates. |
| `PostDominatorForest.ChainForced` | src/analysis/dominators.cpp:215-243 | Every block on a chain is met by every long enough walk towards the exits. |
| `PostDominatorForest.ChainIsForced` | src/analysis/dominators.cpp:215-243 | Once settled, a chain is exactly the blocks every exit path and every long walk meets. |
| `PostDominatorForest.ForcedAvoidsNoLoop` | src/analysis/dominators.cpp:267-280 | Such a block is on every path to an exit, and no loop avoids it. |
| `PostDominatorForest.NoLoopIsForced` | src/analysis/dominators.cpp:267-280 | A block on every path to an exit that no loop avoids is forced: a long enough walk must repeat a block. |
| `PostDominatorForest.LoopHidesPostDominator` | src/analysis/dominators.cpp:267-280 | Blocks 0 -> 1, 1 -> 1, 1 -> 2: every path from 1 to the exit passes 2, and the loop at 1 avoids it. |
| `PostDominatorAnalysis.Sweeps` | src/analysis/dominators.cpp:213-243 | The sweep ends with the invariant holding and every block settled. |
| `PostDominatorAnalysis.PostDominators.Compute` | src/analysis/dominators.cpp:157-254 | The finished object holds the settled forest and the depths of its chains. |
| `PostDominatorAnalysis.PostDominators.InForest` | src/analysis/dominators.cpp:256-258 | True exactly for blocks from which some reachable exit is reached. |
| `PostDominatorAnalysis.PostDominators.PostDominates` | src/analysis/dominators.cpp:267-280 | Between blocks that reach an exit: exactly when every path from `b` to an exit meets `a` and no loop of such blocks can be run around from `b` without meeting `a`; otherwise equality. |
| `TarjanInvariant.PushKeeps` | src/analysis/scc.cpp:28-36 | Opening a new block keeps the search invariant: stacks aligned and rising, lowlinks reached and complete, emitted part closed. |
| `TarjanInvariant.BackKeeps` | src/analysis/scc.cpp:45-47 | An edge to a block on the Tarjan stack lowers the lowlink and keeps the invariant. |
| `TarjanInvariant.SkipKeeps` | src/analysis/scc.cpp:41-50 | An edge to an emitted block keeps the invariant. |
| `TarjanInvariant.MergeKeeps` | src/analysis/scc.cpp:77-81 | Passing a finished block's lowlink to its parent keeps the invariant. |
| `TarjanInvariant.EmissionStrong` | src/analysis/scc.cpp:54-63 | The popped blocks all reach each other. |
| `TarjanInvariant.EmissionClosed` | src/analysis/scc.cpp:54-63 | Edges leave the popped blocks only to blocks emitted before. |
| `TarjanInvariant.EmitKeeps` | src/analysis/scc.cpp:54-75 | Emitting a component keeps the whole invariant. |
| `StronglyConnected.FinishedClasses` | src/analysis/scc.cpp:38-82 | Emitted blocks share a component exactly when each reaches the other. |
| `StronglyConnected.FinishedIsComponents` | src/analysis/scc.cpp:38-82 | When the search ends: every reachable block is in one listed component, membership and lists agree, edges leave a component only to earlier ones, and `cyclic` holds exactly when the component has a cycle. |
| `StronglyConnected.Search.Look` | src/analysis/scc.cpp:41-51 | Looking at one successor keeps the run's invariant and makes progress. |
| `StronglyConnected.Search.Enter` | src/analysis/scc.cpp:28-45 | Entering an unvisited successor keeps the run's invariant and leaves fewer blocks unvisited. |
| `StronglyConnected.Search.Emit` | src/analysis/scc.cpp:54-76 | Popping a component off both stacks keeps the run's invariant. |
| `StronglyConnected.Search.Leave` | src/analysis/scc.cpp:53-82 | Finishing a block, emitting its component when it heads one, keeps the run's invariant and shortens the path. |
| `StronglyConnected.Search.Explore` | src/analysis/scc.cpp:38-82 | The search ends, with the components of the reachable blocks. |
| `StronglyConnected.Sccs.Compute` | src/analysis/scc.cpp:8-84 | The finished object holds exactly the components; a missing entry has none. |
| `StronglyConnected.Sccs.ComponentOf` | src/analysis/scc.cpp:86-90 | The number of a component that lists the block, and none exactly for unreachable blocks. |
| `LoopAnalysis.BackEdges` | src/analysis/loops.cpp:8-19 | Exactly the edges between reachable blocks whose target dominates their source. |
| `LoopAnalysis.Natural` | src/analysis/loops.cpp:21-46 | The header and exactly the blocks that reach a latch without passing through the header. |
| `LoopAnalysis.HeaderDominatesLoop` | src/analysis/loops.cpp:21-46 | With latches the header dominates, the header dominates every member. |
| `LoopAnalysis.NaturalLoops` | src/analysis/loops.cpp:48-59 | One loop per header of a back edge, in header order, each with all its latches and members. |
| `LoopAnalysis.IsReducible` | src/analysis/loops.cpp:61-87 | True exactly when every cyclic component has at most one block entered from outside it. |
| `LoopAnalysis.SingleEntryDominates` | src/analysis/loops.cpp:61-87 | In a component without the function entry, the single entry block exists and dominates every block of the component. |
| `LoopAnalysis.EntryComponentIsClosed` | src/analysis/loops.cpp:61-87 | The function entry's own component is never entered from outside, so it never decides the answer. |
| `LocalBounds.GuardBoundSound` | src/analysis/index_bound.cpp:62-119 | On the edge a comparison guards, the value is at most the bound read from it, through any widenings. |
| `LocalBounds.UpperBoundExactly` | src/analysis/index_bound.cpp:90-119 | Of an unsigned comparison with a constant, in any of its four shapes: on the edge where the value is the smaller side the answer is the greatest value that gets past, if any does; on the other edge there is none. |
| `LocalBounds.GuardBoundExactly` | src/analysis/index_bound.cpp:62-119 | A guard gives a bound exactly when it compares the value, unsigned, with a constant and this edge limits it from above; the bound is the greatest value that gets past. |
| `LocalBounds.SameValueExactly` | src/analysis/index_bound.cpp:22-48 | Two expressions count as one value exactly when one thing stands under the zero-extensions of both. |
| `LocalBounds.DecideSound` | src/analysis/index_bound.cpp:204-270 | A condition decided against a bounded variable has the decided truth value, given signed sides in the non-negative half. |
| `LocalBounds.ArmBoundSound` | src/analysis/index_bound.cpp:280-331 | The arm of a select is at most its bound whenever the condition picks it; only the rule that gave the bound is taken on trust. |
| `LocalBounds.LocalBoundSound` | src/analysis/index_bound.cpp:336-473 | The concrete value never exceeds the bound, by induction through arms and decided conditions on the depth left; trust is asked only of subtractions whose bound no narrower mask or width replaces, and of decided signed comparisons. |
| `LocalBounds.SubBoundExactly` | src/analysis/index_bound.cpp:336-473 | The answer for `x - k` is a bound exactly when the subtraction does not borrow, or the bound used for `x` exceeds the width by enough to cover the wrap. |
| `LocalBounds.ShiftedSubExactly` | src/analysis/index_bound.cpp:280-331 | The bound of an arm `x - k` read through a comparison of `x` holds exactly under the same condition. |
| `LocalBounds.SubBoundFails` | src/analysis/index_bound.cpp:336-473 | A masked byte minus 3: bounded by 4, and 253. |
| `LocalBounds.SignedDecisionExactly` | src/analysis/index_bound.cpp:204-270 | A signed decision is right for every value up to the bound exactly when constant and bound are in the non-negative half. |
| `LocalBounds.SignedDecisionFails` | src/analysis/index_bound.cpp:204-331 | `-1 < x` on bytes is decided false although it holds, and a select worth 200 is bounded by 1. |
| `BoundLimits.CastAttained` | src/analysis/index_bound.cpp:348-365 | A register zero-extended or truncated can be as much as its bound. |
| `BoundLimits.MaskAttained` | src/analysis/index_bound.cpp:366-381 | A register under a mask, on either side, is bounded by the mask and can be it. |
| `BoundLimits.ShiftAttained` | src/analysis/index_bound.cpp:382-392 | A register shifted right by a literal can be as much as its bound. |
| `BoundLimits.OrAttained` | src/analysis/index_bound.cpp:393-418 | A register ORed with a literal can be as much as its bound. |
| `BoundLimits.OffsetAttained` | src/analysis/index_bound.cpp:419-456 | Adding or subtracting a literal moves a bound that is attained along, and it stays attained, short of a wrap or a borrow. |
| `BoundLimits.LessAttained` | src/analysis/index_bound.cpp:419-456 | A literal less an operand of no greater bound is bounded by the literal, attained when the operand can be 0. |
| `BoundLimits.ClampAttained` | src/analysis/index_bound.cpp:457-473 | `x < limit ? x : other` is bounded by the greater of `limit - 1` and `other`, and can be that much. |
| `BoundLimits.DecidedExactly` | src/analysis/index_bound.cpp:204-270 | A comparison is decided exactly when it comes out the same over the whole range. |
| `BoundLimits.ShiftedBoundMoves` | src/analysis/index_bound.cpp:280-331 | A guard's bound read through an arm's literal offset is the arm's value where the guarded value is at its bound, or 0 below. |
| `GuardBounds.TestEdge` | src/analysis/index_bound.cpp:121-140 | The test on dominators and predecessors that stands for edge dominance, unreachable blocks included. |
| `GuardBounds.EdgeDominatesExactly` | src/analysis/index_bound.cpp:121-140 | When the test succeeds, every path takes the edge, exactly when the edge does not lead to the entry. |
| `GuardBounds.NoDefinitionAfter` | src/analysis/index_bound.cpp:121-165 | After the last passage of the guarding edge a run meets no block that dominates the guard, so nothing the guard reads is redefined. |
| `GuardBounds.GuardedEdge` | src/analysis/index_bound.cpp:142-166 | The edge answered is the one that dominates the block reached, and none is answered otherwise. |
| `GuardBounds.GuardBoundsRun` | src/analysis/index_bound.cpp:996-1028 | At the end of any run to the dispatch the index is at most the guard's bound, even when the guard sits in a loop, unless the guard's own edge leads to the function entry. |
| `GuardBounds.GuardBounds` | src/analysis/index_bound.cpp:996-1028 | The same for every run and every time the dispatch is reached. |
| `GuardBounds.EntryGuardFails` | src/analysis/index_bound.cpp:996-1028 | Blocks 0 -> 1, 1 -> 0 when the register is below 4 and else to 2, which loops on itself: the answer for block 2 is at most 3, and a run gets there with 4. |
| `GuardBounds.BoundOnIndex` | src/analysis/index_bound.cpp:996-1028 | The answer is the least of the index's own bound and of the greatest values the guards on the climb let past. An answer that a guard proves bounds the index on every run unless only edges to the function entry prove it; the index's own bound does where its structure's trust holds. An unreachable dispatch is asked about its own branch. |
| `BitFactors.FactorValue` | src/analysis/index_bound.cpp:546-618 | A matched side is its multiplier times the one bit it reads, under the stated shapes. |
| `BitFactors.CombineNarrow` | src/analysis/index_bound.cpp:620-649 | Combining 64-bit words and narrowing is the operation on the narrowed words, but for a left shift whose amount does not survive the narrowing. |
| `BitFactors.CombineOneSided` | src/analysis/index_bound.cpp:620-649 | With nothing on one side, as always in a pair, every operation narrows freely, a left shift included. |
| `BitFactors.PairSound` | src/analysis/index_bound.cpp:879-897 | Joint resolution is sound for every operation: the operation's value is the listed result for the bit as it is, given sides that really are multiples of that bit. |
| `BitFactors.PairPrecise` | src/analysis/index_bound.cpp:879-897 | Joint resolution is precise: the listed results are exactly those for one bit value and the other, never both bits agreeing. |
| `PairLimits.ShiftPairExactly` | src/analysis/index_bound.cpp:571-583 | For an expression that takes every value, and its complement, shifted by `k` in `w` bits: the answer lists the value in every environment exactly when `k` is `w - 1`, or the operation forgives the shift (any `and`; a product or left shift of two parts that are nothing; a difference of whole two-bit values). |
| `PairLimits.WideShiftFails` | src/analysis/index_bound.cpp:571-583 | In bytes, `(x >> 3) + (~x >> 3)` is listed as exactly 1, and is 31 for every `x`. |
| `PairLimits.SignedPairExactly` | src/analysis/index_bound.cpp:584-589 | For a comparison that can hold and its opposite, sign-extended: the answer is right in every environment exactly for one bit, a difference, an `and` or a product. |
| `PairLimits.ShiftedOutExactly` | src/analysis/index_bound.cpp:548-569 | For a comparison that can hold, shifted left out of its one bit, against its opposite: the answer is right in every environment exactly for one bit, an `and`, a product or a left shift. |
| `PairLimits.ScaledPairAnswer` | src/analysis/index_bound.cpp:546-618 | A comparison and its opposite, by its own operator or by a `not`, widened and scaled by literals on either side: the answer is the operation on one literal or on the other. |
| `PairLimits.PairExactly` | src/analysis/index_bound.cpp:879-897 | For every pair, scaled, widened and shifted as it may be: the answer is right in every environment exactly when, at every reading of the shared bit that occurs, the numbers the two sides come to combine to a listed result. |
| `ExactValueSets.OrLeavesValue` | src/analysis/index_bound.cpp:661-670 | An OR nest denotes the OR of its flattened leaves. |
| `ExactValueSets.ChainSound` | src/analysis/index_bound.cpp:683-757 | Folding the groups of a chain, complementary pairs jointly, lists the OR of all its leaves. |
| `ExactValueSets.ExactSmall` | src/analysis/index_bound.cpp:759-982 | No answer has more than 64 values. |
| `ExactValueSets.ValueSound` | src/analysis/index_bound.cpp:792-840 | A phi's value is among the union of its kept arms' values, wherever control came from. |
| `ExactValueSets.SelectSound` | src/analysis/index_bound.cpp:925-970 | A select's value is listed, also when one arm is only known as the other plus or minus a literal. |
| `ExactValueSets.ExactSound` | src/analysis/index_bound.cpp:759-982 | In every environment the expression's value is among its exact values, given that the sides of each pair resolved jointly are multiples of their bit and that no arm is dropped. |
| `ExactValueSets.DroppedArmFails` | src/analysis/index_bound.cpp:814-824 | A phi that drops an entry-register arm can hold, through that arm, what the answer leaves out exactly when the answer leaves some value of the width out; always, in 7 or more bits. |
| `ExactLimits.PlainExactly` | src/analysis/index_bound.cpp:759-982 | An expression over distinct registers of up to six bits in all, up to the depth limit of 12, is answered with exactly the values it takes. |
| `ExactLimits.OpaqueListed` | src/analysis/index_bound.cpp:759-982 | What is not looked into is answered with every value of its width, or with nothing beyond 64 values. |
| `ExactLimits.RemainderListed` | src/analysis/index_bound.cpp:772-791 | So is what a truncation or a shift right leaves of an operand without an answer. |
| `ExactLimits.RemainderTaken` | src/analysis/index_bound.cpp:841-862 | Of a register every such value occurs. |
| `ExactLimits.UnionExactly` | src/analysis/index_bound.cpp:814-839 | A phi's arms together list what each lists, with an answer exactly when each has one and they are at most 64 values in all. |
| `ExactLimits.ChainExactly` | src/analysis/index_bound.cpp:683-757 | Three ORed terms whose outer two are a complementary pair: exactly the results of the pair with each value of the term between. |
| `ExactLimits.ShiftedArmExactly` | src/analysis/index_bound.cpp:925-970 | An arm that is the other one plus or minus a literal adds that to each value of the other, and nothing else. |
| `ExactSearch.InsertUnique` | src/analysis/index_bound.cpp:490-494 | The list gains the value if it is new, and repeats none. |
| `ExactSearch.ValuesOfWidthList` | src/analysis/index_bound.cpp:502-512 | Every value of a narrow type, each once, and no answer for wider ones. |
| `ExactSearch.FindPartner` | src/analysis/index_bound.cpp:701-722 | The first unclaimed later leaf that reads the same bit the other way, or none. |
| `ExactSearch.ChainGroupLists` | src/analysis/index_bound.cpp:694-736 | The loop with claimed flags gathers exactly the groups of the chain. |
| `ExactSearch.ExactOrChainValues` | src/analysis/index_bound.cpp:683-757 | The chain walk answers exactly when the value sets do, with the same values. |
| `ExactSearch.UnionOfArms` | src/analysis/index_bound.cpp:814-839 | The loop over a phi's arms answers exactly when the union does, entry-register arms skipped next to computed ones. |
| `ExactSearch.ExactValues` | src/analysis/index_bound.cpp:759-982 | The recursive search that fills lists answers exactly when the value sets do, each value once. |
| `ExactSearch.PreciseIndexSet` | src/analysis/index_bound.cpp:986-994 | An answer has 1 to 64 values in strictly increasing order, is the exact set, and contains the index in every environment; there is none exactly when there is no set or an empty one. |
| `StackFrames.FrameDeltaMeans` | src/analysis/stack_frame.cpp:49-90 | A recognised chain evaluates to the entry stack pointer plus its displacement, wrapping, and reads no value. |
| `StackFrames.SteppedSlot` | src/analysis/stack_frame.cpp:49-105 | Up to 64 literals added or subtracted over the stack pointer make a slot at their sum; over another register nothing is classified. |
| `StackFrames.ClassifiedMeans` | src/analysis/stack_frame.cpp:92-105 | A classified address is where its class says, in every environment with the same entry registers. |
| `StackFrames.NoAliasExactly` | src/analysis/stack_frame.cpp:107-131 | Within one kind of storage `No` is answered exactly when the accesses share no byte or one of them wraps; it is right exactly unless they do both overlap and wrap. |
| `StackFrames.NoAliasSound` | src/analysis/stack_frame.cpp:107-131 | `No` is right for accesses that do not both overlap and wrap, given frame and image apart. |
| `StackFrames.AliasExactly` | src/analysis/stack_frame.cpp:107-131 | Different kinds of storage give `No`, an unclassified address `May`, and `Must` is given exactly for the same bytes that do not wrap. |
| `LoadFolding.CollectValueUses` | src/analysis/value_uses.cpp:10-26 | For every value exactly the ops whose operands read it. |
| `LoadFolding.ClobberedBetween` | src/analysis/stack_load_fold.cpp:12-39 | True exactly when some op strictly between may overwrite the load's bytes. |
| `LoadFolding.OverwritesExactly` | src/analysis/stack_load_fold.cpp:12-39 | Loads and plain ops overwrite nothing, barriers may overwrite anything, and a store to the same kind of storage may exactly when the two share a byte, short of a wrap. |
| `LoadFolding.LiveUseIndices` | src/analysis/stack_load_fold.cpp:86-113 | The positions of the live uses, unless one is in another block or not after the load. |
| `LoadFolding.CheckUses` | src/analysis/stack_load_fold.cpp:80-128 | True exactly for loads with a live use all of whose live uses are safe. |
| `LoadFolding.AddressUses` | src/analysis/load_inline.cpp:46-62 | Whether any, and whether every, live use is exactly the address of a load or store. |
| `LoadFolding.FindFoldableStackLoads` | src/analysis/stack_load_fold.cpp:62-145 | Finds exactly the foldable loads from stack slots, each with its displacement, width and address-only flag. |
| `LoadFolding.StackFoldMeans` | src/analysis/stack_load_fold.cpp:130-142 | What is recorded: the address is that far from the entry stack pointer in every environment, the width is that of the load, and the flag holds exactly when every live use is the whole address of a load or store. |
| `LoadFolding.FindFoldableMemoryLoads` | src/analysis/load_inline.cpp:66-145 | Finds exactly the foldable loads from elsewhere that no live use takes as an address, each with its address and width. |
| `LoadFolding.MemoryFoldMeans` | src/analysis/load_inline.cpp:128-142 | What is recorded: the address and width of the load. |
| `FoldMeaning.EvalAgrees` | src/il/expr_roots.cpp:31-48 | An expression's value depends only on the values among its leaves. |
| `FoldMeaning.WrittenIsRead` | src/analysis/load_inline.cpp:14-32 | In the memory the theorem is about, reading what was written gives it back, at any address. |
| `FoldMeaning.UnclobberedRead` | src/analysis/stack_load_fold.cpp:12-39 | Between a folded load and a use of its value, with nothing between that may overwrite it, memory reads the same at its address. |
| `FoldMeaning.UseIsSafe` | src/analysis/load_inline.cpp:86-111 | A printed op, or a folded load's address, that reads a folded value is in the load's block, after it, unclobbered. |
| `FoldMeaning.NestedIsQuiet` | src/analysis/load_inline.cpp:21-32 | A folded load whose address reads a value has no store at all before its uses, which is what makes nested folds safe. |
| `FoldMeaning.Fresh` | src/analysis/load_inline.cpp:66-145 | Reading a folded load again at a use, through folded loads in its own address, gives what the load gave. |
| `FoldMeaning.FoldKeepsRun` | src/analysis/load_inline.cpp:66-145 | Folding all candidate loads at once leaves memory, unfolded values and every printed op's operands unchanged, before every op and at the end, unless a store between a folded load and a use of its value both overlaps the load and wraps with it. |
| `FoldMeaning.LastByteGoesWrong` | src/analysis/stack_frame.cpp:121-126 | A one-byte slot below the entry stack pointer: loaded, overwritten, used; the fold makes the use read the overwriting value. |
| `DiscoveryDriver.AbsorbBranch` | src/decompile/driver.cpp:111-117 | New targets are appended in order, none twice, nothing known moved; the count is how many. |
| `DiscoveryDriver.Absorb` | src/decompile/driver.cpp:108-120 | The known edges become the union, only grow, and the count is exactly the number of new edges. |
| `DiscoveryDriver.MergedListed` | src/decompile/driver.cpp:108-120 | Merging is the union of the edges, moves nothing known, and repeats nothing. |
| `DiscoveryDriver.LiftedFunction.ApplyResolutions` | src/decompile/driver.cpp:129-161 | A block with an unresolved branch all of whose known targets, one at least, are blocks gets exactly those targets; every block keeps its address and branch, and every other block is unchanged. |
| `DiscoveryDriver.RestoredExactly` | src/decompile/driver.cpp:129-161 | There is one such list of blocks. |
| `DiscoveryDriver.PassSeesEdges` | src/decompile/driver.cpp:511-525 | A pass builds SSA, and probes, over a graph with every known edge back where it can be. |
| `DiscoveryDriver.LastRunSeesEdges` | src/decompile/driver.cpp:389-412 | The last run is made over a graph lifted from every entry with every known edge back where it can be. |
| `DiscoveryDriver.Harvest` | src/decompile/driver.cpp:75-94 | The targets of every resolved branch, of two at one address the first. |
| `DiscoveryDriver.TakeDiscoveries` | src/decompile/driver.cpp:194-210 | Addresses and edges of exactly the branches within the per-branch cap, a later report of a branch replacing an earlier, and the rest counted. |
| `DiscoveryDriver.Driver.constructor` | src/decompile/driver.cpp:233-239 | One entry, itself known, nothing proved. |
| `DiscoveryDriver.Driver.AdmitOne` | src/decompile/driver.cpp:251-284 | An address is admitted exactly when the fence lets it, it is new, and the cap has room. |
| `DiscoveryDriver.Driver.AdmitDiscoveries` | src/decompile/driver.cpp:247-332 | The admitted addresses are the least new ones the fence passes, ascending, as many as the cap leaves room for; entries stay distinct, equal to the known set and within the cap. |
| `DiscoveryDriver.Driver.HasStuckResolution` | src/decompile/driver.cpp:338-347 | True exactly when a proved edge leads to a known entry at which no block stands. |
| `DiscoveryDriver.Driver.TakePass` | src/decompile/driver.cpp:526-549 | After a pass every edge it reported is known, the counts are exact, a pass that admits nothing reported nothing admissible, and entries and edges are what the reports determine. |
| `DiscoveryDriver.Driver.Settle` | src/decompile/driver.cpp:493-578 | A round makes 1 to 16 passes, each but the last admitting an address; how it ends, its passes, what is known, and the last pass's blocks and reports are those the world's answers determine; a settled round that found nothing has a last pass all of whose reports were known. |
| `DiscoveryDriver.RunKeeps` | src/decompile/driver.cpp:457-606 | From any round of a run to any later one, entries and edges only grow, whatever the world answers. |
| `DiscoveryDriver.QuietRound` | src/decompile/driver.cpp:493-556 | A settled round that admitted nothing made one pass, over a lift of the entries it started from with the edges it started from in place. |
| `DiscoveryDriver.SameCountSameFacts` | src/decompile/driver.cpp:108-120 | When neither count has moved, the entries and the edges are the same ones in the same order. |
| `DiscoveryDriver.Driver.FinishQuietRound` | src/decompile/driver.cpp:580-594 | A round that proved nothing ends the run: as converged exactly when no known target lacks a block in what its own pass lifted, else as stuck. |
| `DiscoveryDriver.Driver.Finish` | src/decompile/driver.cpp:389-429 | The last run lifts every entry and sees every proved edge back in place; `converged` is reported exactly for convergence or trace coverage. |
| `DiscoveryDriver.Driver.Run` | src/decompile/driver.cpp:431-615 | The loop ends for every lifter and pipeline. What is known at the end is where the rounds, as a function of the world's answers, lead; every round but the last adds a fact, so rounds are at most one more than facts; the budget and both ceilings hold; the returned function is lifted from all of it. `Converged` means that the last round's one pass went over a lift of every known entry with every known edge, left entries and edges as they were, and left no known target without a block; each other stop reason means what it says, no wind-down request between rounds is missed, and a run fails only where the world gave no answer. |
| `MemoryMaps.StackedExactly` | src/binary/memory_map.cpp:65-76 | In address order, non-empty regions are pairwise apart exactly when neighbours are. |
| `MemoryMaps.ApartPermutes` | src/binary/memory_map.cpp:33-34 | Being pairwise apart does not depend on the order of the list. |
| `MemoryMaps.MemoryMap.AddRegion` | src/binary/memory_map.cpp:22-28 | Appends the region unless it is empty. |
| `MemoryMaps.MemoryMap.Finalize` | src/binary/memory_map.cpp:30-81 | Sorts by address keeping the same regions, and succeeds exactly when each is acceptable and no two overlap. |
| `MemoryMaps.MemoryMap.RegionAt` | src/binary/memory_map.cpp:83-94 | The binary search finds the one region holding the address, or none when none does. |
| `MemoryMaps.MemoryMap.Read` | src/binary/memory_map.cpp:104-144 | Succeeds exactly when every byte is mapped, and fills in its region's file bytes and the zeros past them, across adjacent regions. |
| `BinaryImages.BinaryImage.IndexSymbols` | src/binary/image.cpp:115-138 | The symbol index lists exactly the defined non-file symbols, by address, at one address the widest first, of one width the exported first, with the widest size recorded. |
| `BinaryImages.BinaryImage.IndexRelocations` | src/binary/image.cpp:140-161 | The relocation index lists every relocation once, by address; the recorded extremes bound them all. |
| `BinaryImages.BinaryImage.Splice` | src/binary/image.cpp:372-387 | One relocation's bytes replace exactly those of the buffer it reaches; a slot wholly in the buffer then spells its value in the image's byte order. |
| `BinaryImages.EncodedSpells` | src/binary/image.cpp:372-378 | Bytes encoded little- or big-endian spell, in that order, as much of the value as they hold. |
| `BinaryImages.BinaryImage.Overlay` | src/binary/image.cpp:345-388 | The windowed, early-rejecting walk overlays exactly what overlaying every relocation in index order would. |
| `BinaryImages.BinaryImage.Read` | src/binary/image.cpp:340-390 | Succeeds exactly when every byte is mapped; each byte is that of the last valued relocation in index order covering it, otherwise the file byte or zero. A slot read whole that no later relocation reaches spells its relocation's value in the image's byte order. |
| `BinaryImages.BinaryImage.ReadSplits` | src/binary/image.cpp:340-390 | The bytes a long read fills in are those of its pieces one after the other, and it succeeds exactly when they do. |
| `BinaryImages.BinaryImage.RelocationOverlapping` | src/binary/image.cpp:256-281 | Some relocation that meets the range, and none exactly when no relocation does. |
| `BinaryImages.BinaryImage.SymbolContaining` | src/binary/image.cpp:209-233 | A narrowest named symbol covering the address, and none exactly when no named symbol covers it. |
| `RelrTables.Loader.AppendBitmap` | src/binary/elf.cpp:956-970 | One relocation for each set bit above the lowest, the word as many words on as there are bits below it, in address order. |
| `RelrTables.Loader.ParseRelrTable` | src/binary/elf.cpp:931-972 | Appends exactly what the readable words name: an even word itself, an odd one an address for each of its set bits from the cursor, which moves on by all the words a bitmap can name; it stops where the file ends. |
| `RelrTables.DecodeIsTable` | src/binary/elf.cpp:936-971 | What decoding gives is what the words name, bit by bit. |
| `RelrTables.TableIsUnique` | src/binary/elf.cpp:936-971 | The words name one list. |
| `RelrTables.DecodeEncode` | src/binary/elf.cpp:936-971 | Decoding inverts encoding whatever the cursor held before. |
| `RelrTables.RoundTrip` | src/binary/elf.cpp:928-972 | For 4- and 8-byte words, every strictly increasing list of word-aligned addresses comes back exactly, in order, and every encoded word fits its width (SHT_RELR, System V gABI chapter 4, Relocation). |
| `ExpressionSharing.CountReferences` | src/emit/c_expr.cpp:196-228 | Each node gains one for every operand slot of the nodes walked, each walked once, and the root one more. |
| `ExpressionSharing.FreshRootStaysExact` | src/emit/c_expr.cpp:110-123 | Counting a root not reached before keeps the counts exact: times listed plus operand slots of counted nodes. |
| `ExpressionSharing.KnownRootOvercounts` | src/emit/c_expr.cpp:199-201 | Counting a root reached before counts its operands once too often, and leaves the counts exact only for a leaf. |
| `ExpressionSharing.FirstCountIsOne` | src/emit/c_expr.cpp:199-228 | A node counted for the first time as a root has been met once, and no count goes down. |
| `ExpressionSharing.ValueExtends` | src/emit/c_expr.cpp:247-282 | A tree keeps its value as more temporaries are assigned. |
| `ExpressionSharing.ExprPrinter.BeginScope` | src/emit/c_expr.cpp:110-117 | Names and queue are forgotten, the counter is not; a scope of one root has exact counts. |
| `ExpressionSharing.ExprPrinter.ExtendScope` | src/emit/c_expr.cpp:119-123 | Counts the further roots on top, leaving names and queue alone. |
| `ExpressionSharing.ExprPrinter.TakePendingDecls` | src/emit/c_expr.cpp:125-129 | Hands over the queue in order and empties it. |
| `ExpressionSharing.ExprPrinter.Materialize` | src/emit/c_expr.cpp:247-282 | Replaying the queued assignments in order and evaluating the tree gives the node's value; each temporary is assigned once, after everything its initializer reads, and no two nodes share one. An operation counted at least twice is named, its assignment queued, and its name printed; any other node, once counted, is not. |
| `ExpressionSharing.ExprPrinter.Inner` | src/emit/c_expr.cpp:307-420 | The printed operation has the node's value and is that operation on its operands; casts to the same width are dropped. |
| `ExpressionSharing.ExprPrinter.CompareTree` | src/emit/c_expr.cpp:574-601 | The printed comparison has the node's value, or its negation when inverted. |
| `ExpressionSharing.ExprPrinter.EqualityOperand` | src/emit/c_expr.cpp:560-572 | A widening opposite a constant that fits is dropped, and no other; the operand's value is kept. |
| `ExpressionSharing.ExprPrinter.Value` | src/emit/c_expr.cpp:131-194 | What is printed for a node has its value: by name exactly when it is shared, or in full. |
| `ExpressionSharing.ExprPrinter.RootText` | src/emit/c_expr.cpp:49-67 | The same for a whole value: a widening that is not shared is dropped, one counted at least twice is named. |
| `ExpressionSharing.ExprPrinter.Condition` | src/emit/c_expr.cpp:81-108 | The printed condition is true exactly when the node is, or exactly when it is not if inverted. |
| `ReadWidths.Walk.ReadWidth` | src/analysis/variables.cpp:187-215 | One visit of each merge: the walk visits exactly the merges open to it, that is not behind a full-width reader or one already walked, and answers the widest demand of the use and those. |
| `ReadWidths.WalkIsDetermined` | src/analysis/variables.cpp:187-215 | Walks from the same start visit the same merges and give the same answer. |
| `ReadWidths.WidestExactly` | src/analysis/variables.cpp:187-215 | The answer is the widest demand over every merge the value reaches exactly when no truncation wider than the value hides behind a full-width reader with none as wide before one. |
| `ReadWidths.TypedIsWidest` | src/analysis/variables.cpp:187-215 | Where a merge is as wide as what it merges and no truncation widens, the answer is the widest demand over every merge the value reaches. |
| `ReadWidths.ReadWidth` | src/analysis/variables.cpp:217-223 | A fresh walk answers the widest demand short of full-width readers, which is the widest over everything the value reaches whenever nothing it reaches is truncated to more than its width. |

## Left out

- Printed pointers, typed fields, snapshots, inlined loads and `materializeAs`: the printing model covers pure scalar expressions, whose text is a tree.
- C's integer promotions: a printed tree is given the intermediate language's own operators, so casts that only serve C are not modelled.
- At most one expansion per node in a scope: `equalityOperand` and an inverted comparison print the operands of a node that is also printed elsewhere, so text can repeat.
- Shift amounts of 2^32 and more, which the constant evaluator narrows to 32 bits, and widths over 64 bits.
- `StackFrame::compute` and the frame extent, which no modelled decision reads.
- `findDeadStackStores`, the exclusive-access folds and the filter on stack loads; the fold theorem holds for any accepted subset and any dead set that nothing printed reads.
- Load folding across an address space other than 2^64 bytes, and loads whose result is a vector.
- The structure of the resolve pass, trace coverage beyond its short cut, logging, spans, counters and warnings of the driver; signed-overflow behaviour of `int64_t` displacements is taken as wrapping.
- `unreachableBlocks` in the driver report, which only counts.
- Relocations whose end passes 2^64 and known values wider than eight bytes: the read would leave the encoding buffer.
- Symbol lookups by exact address and by name, sections, `isImmutable`, integer and string reads: single searches or folds over `read`.
- File parsing up to the RELR words: the table is a list of words, each readable or not.
- Variable recovery other than `readWidth`; merge widths and return types.
- Image evaluation, path state and the pattern recognisers, which make no over-approximation claim.
- DiscoveryDriver.Driver.Run: says nothing about which function the lifter and pipeline produce, because both are arbitrary.
- GuardBounds.BoundOnIndex: promises nothing for an answer that only an edge to the function's entry proves, which `EntryGuardFails` shows can be exceeded.
- ExactSearch.PreciseIndexSet: membership of the index asks that pairs resolved jointly be of trusted shapes and that no arm be dropped; `PairExactly` and `DroppedArmFails` say exactly when what is left out fails.
- FoldMeaning.FoldKeepsRun: asks that no store between a folded load and a use of its value both overlaps the load and wraps with it, that frame and image are apart, and that a load's address reads only values defined before it.
