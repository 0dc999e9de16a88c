# Verified models of the comb optimizer and the native-graph frontend

This project models the algorithmic core of the comb optimizer (`Combs.cpp`), of
the native-graph frontend (`CppGraph.h`, `CppGraphEnvironment.h`,
`CppGraphReachability.h`) and of expression simplification (`Expr.cpp`), and
proves what each part promises. `dafny verify dfyconfig.toml` checks everything.

**Comb scheduling** (`DependencyGraph`, `Tarjan`, `CombSchedule`, `CombDynamic`,
`CombGraph`, `CombPipeline`, `CombLeads`, `CombTyping`, `CombCpp`,
`CombOptimize`, `CombOptimized`, `CombReclassify`, `UnionFind`, `CombPartition`,
`LanePacking`, `CombStages`, `CombStageCosts`, `CombPlan`, `CombRuntime`,
`CombRuntimeTheorems`, `CombEmission`, `CombExamples`). A depth-first search
orders a possibly cyclic graph, strongly connected components and closures
decide what stays on demand, the graph is simplified and classified again, the
eager rest is cut into stages, split into components and packed onto lanes, and
a caller with persistent workers runs the lanes behind a token barrier.
`CombEmission.Emit` runs these passes one after the other, and
`CombEmission.ParallelEqualsOriginal` says what comes out of its contract: for
every interleaving, when a call of `run` returns, the state it was called with
has, for the nodes that were eager from the start, the values of the original
sequential schedule on what the call found, and every node that is eager in the
end satisfies its original equation. The plan is the best-scoring one for the
requested threads. The only condition is on static types, where simplification
puts one expression in place of another; it speaks of the input graph alone, and
`CombTyping.TypingExact` proves it exact.

**State reachability** (`NativeGraphs`, `NativeRuns`, `NativeEquivalence`,
`DecisionDiagrams`, `Reachability`, `ReachabilityRun`). A reduced ordered decision
diagram with unique and memo tables computes closed state domains; an accepted
wire is tied to zero, and every run of the graph, with any inputs, resets, holds,
hidden memory and wire values, shows the same in every cycle as the tied graph.

**Lowering** (`Terms`, `Programs`, `SymbolicState`, `Flows`, `LoopFlows`,
`SwitchFlows`, `Lowering`). Structured code becomes cells, exit predicates and
guarded effects. A direct interpreter gives the meaning of ISO/IEC 14882:2020,
sections 8.5 to 8.7; lowering agrees with it for every evaluation.

**Environments** (`AvlTrees`, `Environments`), **dynamic slices** (`Slices`),
**memoised getters** (`GetterCache`), **expression simplification**
(`ExprSimplify`, `ExprForms`, `ExprTerms`, `ExprNormal`) and **collection files**
(`CollectionStream`, `CollectionClasses`, `Collections`) are separate models;
`Common` holds shared definitions.

## Conventions

- Methods that update state carry the source's fields in a class; a `View()` or
  `Contents()` gives the abstract value their contracts speak about. Records that
  C++ passes by value or never changes are datatypes.
- `Limit`, `fail`, an exception and an exhausted budget are a rejected result.
  Contracts speak about accepted results.
- `Graph::calculate` and other primitives are functions of their operands. What
  the lowering learns from `graph.resolved` is an oracle: any sound knowledge of
  constants and known bits (`Flows.Sound`), so the theorems do not depend on which
  simplifications the graph performs.
- Graphs are acyclic (`level` ranks the nodes), have fewer than 2^57 nodes, and
  no two state bits resolve to the same bit. Host calls and memories are a `Plant`
  that answers arbitrarily from what it has observed so far.
- A comb node is assigned its expression: the value is converted to the static type
  of its storage. An expression is a reference or a text around references, and the
  same text may mean anything else on operands of other types (`CombGraph.World`).
  Types, conversions and result types are any `CombGraph.Language` in which
  converting a value to its own type changes nothing and conversion yields values of
  the type. `CombCpp` is the language of the built-in integral types and of packed
  classes such as `logic<N>` (include/cpphdl_logic.h:209-303,
  include/cpphdl_logic.h:478-522). A node that mentions itself reads what its slot
  held before the run.
- The atomics are sequentially consistent steps. Command numbers stay below the
  stop bit 2^63 and tokens are computed modulo 2^64, as in the emitted code.
- Iteration over `std::set` or `std::map` is in some order where the order does
  not matter, and in key order where it does (collections, environment iterators).

## Where the code and its stated intent differ

- Simplification drops conversions. An eager child port, projected comb or
  forwarding port is inlined or aliased as its text, and equal combs are shared by
  the first width in the text of their types, all without a test of the types
  (Combs.cpp:5411-5437, Combs.cpp:5657-5772, Combs.cpp:243-251). A storage that is
  too narrow (`CombExamples.NarrowStorage`), signed (`CombExamples.SignedStorage`) or
  wider than its text (`CombExamples.WiderStorage`, `CombExamples.WiderLogic`) then
  changes values, and so does sharing storages of different size
  (`CombExamples.SharedByText`). Every solution of the original equations is kept in
  every world if and only if (`CombTyping.TypingExact`) each operand of an operation
  is replaced by something of its own type, and the conversions that a forwarded or
  shared value still passes give the value of the ones it passed before. Types of
  the input graph decide this (`CombTyping.MatchesAll`), with sharing or without; for
  the language of `CombCpp` it comes down to a comparison of three types
  (`CombCpp.ForwardedByTypes`, `CombCpp.SharedByTypes`).
- Tokens: a plan with several stages does reuse a token once enough commands have
  run. `CombRuntimeTheorems.TokensDistinct` gives the exact number of commands
  that get by without, and a plan with one stage never reuses one. The barrier is
  safe regardless because only tokens of one command and its predecessor are ever
  compared (`CombRuntime.TokenWindow`).
- The command number would grow into the stop bit after 2^63 - 1 commands. In
  exactly that state, a caller about to publish, no thread has a step
  (`CombRuntimeTheorems.StuckExactly`).
- Up to eight stages are tried, but a barrier costs half the total weight (at least 1),
  so no plan ever has more than two (`CombStageCosts.AtMostTwoStages`).
- The second classification ignores self-references (Combs.cpp:6970-6986). A cycle
  that aliasing shrinks to one node then counts as acyclic and its node becomes
  eager although it reads itself (`CombExamples.RingReadsItself`).
  `CombReclassify.ReadsItself` says in terms of the original graph which nodes do.
- Dynamic offsets are 64-bit words. The selection guard accepts some offsets that
  wrapped around: index 2^61 of an array of 8-bit elements is element 0
  (`Slices.WrappedIndexAccepted`). `Slices.ValidIsInside` says exactly when the
  guard means that the slice fits.
- `Expr::simplify` does not collect what it builds once more. `5 - x` becomes
  `0 - x + 5` with two numbers (`ExprNormal.LeadingZero`), and `2*y + y + y` becomes
  `2*y + 2*y` (`ExprNormal.ProductTwice`). `ExprNormal.OneNumberExactly` and
  `ExprNormal.DifferentExactly` say for which expressions this happens.
- `Expr::simplify` treats an empty expression as 0: the bare `EXPR_NONE` becomes
  the number 0. Values are kept for all expressions without empty nodes, and for
  all expressions in worlds where an empty node is 0.

## Model

| member | source | states |
|---|---|---|
| CombSchedule.DependencySearch.VisitNode | Combs.cpp:4928-4946 | a successful visit schedules the node after its kept dependencies and only nodes it reaches; it fails only for an open node or when a rejected node is reachable |
| CombSchedule.DependencySearch.ScheduleNode | Combs.cpp:4947-4969 | opening, visiting and scheduling one node keeps the search invariant and leaves the stack as it was |
| CombSchedule.DependencySearch.VisitDependency | Combs.cpp:4951-4963 | a dependency is either a back edge into the stack or scheduled earlier |
| CombSchedule.ScheduleNodes | Combs.cpp:6941-6957 | scheduling succeeds exactly when no node the roots reach is rejected; the schedule then holds exactly the reachable nodes, once each, kept dependencies come earlier and every dropped one leads back to its node |
| Tarjan.ComponentSearch.StrongConnect | Combs.cpp:5055-5071 | one call keeps the whole stack, low-link and component invariant and reports a reached low value |
| Tarjan.ComponentSearch.Dependency | Combs.cpp:5059-5068 | examining one dependency keeps the low value a reached stack index that covers every older target |
| Tarjan.ComponentSearch.PopComponent | Combs.cpp:5073-5082 | pops exactly the stack from the node's position up |
| Tarjan.ComponentSearch.Close | Combs.cpp:5069-5102 | a finished node is left on the stack below an older one or its whole component is completed |
| Tarjan.ComponentMutual | Combs.cpp:5073-5082 | every popped node and the component root reach each other |
| Tarjan.ComponentCycle | Combs.cpp:5083-5097 | a popped node lies on a directed cycle if and only if its component has two nodes or a self-loop |
| Tarjan.FindCyclic | Combs.cpp:5037-5106 | cyclicNodes is exactly the set of scheduled nodes on a directed cycle or self-loop of the scheduled dependencies |
| CombDynamic.Consumers | Combs.cpp:5160-5167 | the consumer lists are exactly the reversed edges between scheduled nodes |
| CombDynamic.ConditionalCone | Combs.cpp:5142-5158 | the scanned list is exactly what the conditional nodes reach, scheduled or not |
| CombDynamic.Revoke | Combs.cpp:5172-5187 | a node stays memoizable exactly when it reaches no unstable seed |
| CombDynamic.CloseConsumers | Combs.cpp:5194-5220 | the worklist yields exactly the nodes that reach a seed |
| CombDynamic.ClosureLeast | Combs.cpp:5189-5220 | that set is the least one that holds the seeds and is closed under consumers |
| CombDynamic.IdentifyDynamicNodes | Combs.cpp:5037-5220 | dynamicNodes is exactly the set of nodes that reach a cyclic, unresolved, work-mutated, replayed or conditional-cone seed; memo rights are kept exactly where no unstable node is reached |
| CombDynamic.DroppedIsCyclic | Combs.cpp:4952-4957 | a dependency the depth-first search dropped puts its node on a cycle |
| CombDynamic.EagerDependencies | Combs.cpp:5189-5220 | an eager node has only eager dependencies, none of them dropped, all of them earlier in the schedule |
| CombDynamic.EagerTopological | Combs.cpp:7080-7094 | the schedule without the dynamic nodes is topological for their complete dependencies |
| CombDynamic.DiscardedBranchesStayLazy | Combs.cpp:5139-5158 | nothing below a conditional node is scheduled eagerly |
| CombOptimize.CanonicalNode | Combs.cpp:5378-5383 | following aliases terminates and yields the canonical node |
| CombOptimize.Canonical | Combs.cpp:5378-5383 | the canonical node is no alias, and not later in the schedule |
| CombOptimize.ReplaceIsSubst | Combs.cpp:5411-5437 | replacing aliases and inlined nodes in a renamed expression gives the expression with each reference replaced by its target |
| CombLeads.SubstMentions | Combs.cpp:5411-5437 | a replaced expression mentions exactly the nodes that the targets of its references mention |
| CombOptimize.AliasPorts | Combs.cpp:5657-5680 | exactly the scheduled forwarding ports become aliases, each of the end of its chain of ports; `CombLeads.GoneExactly` says which ports these are |
| CombOptimize.RewriteAll | Combs.cpp:5682-5694 | exactly the scheduled nodes that are no alias are rewritten, each from its own expression and dependencies |
| CombOptimize.ShareCombs | Combs.cpp:5695-5720 | exactly the direct eager combs with an earlier comb of the same instance, width in the type text and expression become aliases, each of the earliest |
| CombOptimize.InlineNodes | Combs.cpp:5749-5772 | exactly the eager inlinable nodes that are no alias are inlined, each as its expression with all references replaced by their targets |
| CombOptimize.ConcreteLed | Combs.cpp:5646-5655 | the recursion over inlined nodes yields exactly what the kept dependencies of a node lead to |
| CombOptimize.Optimize | Combs.cpp:5657-5796 | the outcome of the whole pass on the input graph: a node is left exactly if it leads to itself and is not inlined, and has its original expression with every reference replaced by its target and the nodes its dependencies lead to; schedule order stays, and work is rewritten alike |
| CombTyping.TypingExact | Combs.cpp:5657-5772 | every solution in every world satisfies all replaced equations if and only if static types match: operands keep their types, and what is forwarded or shared is converted as before |
| CombTyping.WorkExact | Combs.cpp:5721-5789 | where they match, the value of work is kept exactly if what it mentions is replaced by something of its type |
| CombTyping.AllFollow | Combs.cpp:5411-5437 | where types match, every node holds in every solution what assigning its target to it gives |
| CombLeads.AlikeSubst | Combs.cpp:5695-5720 | combs with the same key become the same text |
| CombLeads.TargetMentions | Combs.cpp:5378-5437 | a target mentions only nodes that are left, none later in the schedule, and only eager ones for an eager node |
| CombLeads.GoneExactly | Combs.cpp:5657-5772 | a scheduled node is gone from the result if and only if it is a port with the text of its only dependency, none of the two on demand or both of them cached, or sharing is on and it is a direct eager comb with an earlier one of the same key, or it is eager and inlinable |
| CombLeads.RepeatablePortStays | Combs.cpp:5663-5675 | a port that is on demand or whose only dependency is stays, and keeps its references, when one of the two is not cached |
| CombLeads.OtherCombStays | Combs.cpp:5695-5720 | a comb that is not direct, on demand or without a key is never shared |
| CombCpp.PassingExact | Combs.cpp:3801-3818 | for all built-in integral types, leaving out a storage between two others changes no value if and only if the storage holds every value that comes or the bits of it that count afterwards |
| CombCpp.ForwardedByTypes | Combs.cpp:5423-5429 | a forwarded value keeps its conversions exactly if the type it comes from, the storage that is gone and the storage it is assigned to are such |
| CombCpp.SharedByTypes | Combs.cpp:5695-5720 | a comb that reads the storage of an equal one keeps its value exactly if its result type, that storage and its own are such |
| CombCpp.CppIsLanguage | include/cpphdl_logic.h:209-303 | the integral types and packed classes are a language to which the exact condition applies |
| CombExamples.NarrowStorage | Combs.cpp:5749-5772 | an 8-bit comb of 255 + 1 or a 4-bit port of 15 + 1 holds 0, and inlined reads 256 or 16 |
| CombExamples.ForwardInlined | Combs.cpp:5749-5772 | inlining a node that another one forwards keeps all solutions exactly if the three types let the value pass |
| CombExamples.AliasKept | Combs.cpp:5657-5680 | aliasing a forwarding port keeps all solutions exactly if the three types let the value pass |
| CombExamples.OperandInlined | Combs.cpp:5749-5772 | inlining the operand of an operation keeps all solutions exactly if its storage had the type of its text |
| CombExamples.SignedStorage | Combs.cpp:5749-5772 | a signed 8-bit port bound to 200 holds -56, and inlined reads 200 |
| CombExamples.WiderStorage | Combs.cpp:5423-5429 | the complement of a 32-bit port that is bound to an 8-bit 0 is 2^32 - 1, and inlined 2^64 - 1 |
| CombExamples.WiderLogic | include/cpphdl_logic.h:465-476 | the complement of a `logic<16>` port that is bound to a `logic<8>` 0 is 65535, and inlined 255 |
| CombExamples.EqualKept | Combs.cpp:5695-5720 | sharing two equal combs keeps all solutions exactly if the result may pass the first storage by |
| CombExamples.SharedByText | Combs.cpp:243-251 | a `logic<8>` comb and an array of two `logic<8>` share a key; 511 in the second becomes 255 |
| CombLeads.FinalNode | Combs.cpp:5774-5788 | a retained eager node depends exactly on what it mentions, all of it retained, eager and earlier |
| CombLeads.NoGoneReference | Combs.cpp:5774-5796 | no retained node, on demand or eager, mentions an aliased or inlined node |
| CombOptimized.AfterTopological | Combs.cpp:5736-5795 | the shortened eager schedule is topological for the concrete dependencies |
| CombOptimized.OriginalSolves | Combs.cpp:7841-7844 | whatever on-demand slots hold, the values of the sequential run extend to a solution of all equations |
| CombOptimized.RunSolves | Combs.cpp:7841-7844 | if on-demand forwarding ports hold what they forward, the sequential run itself solves all equations |
| CombOptimized.LeftValue | Combs.cpp:5657-5796 | where types match, a retained eager node has the same value after the shortened run, whatever on-demand slots hold |
| CombOptimized.OptimizedRun | Combs.cpp:5657-5796 | where types match, simplification preserves all retained values, and the value of the work expression where on-demand forwarding ports hold what they forward |
| CombReclassify.CyclePath | Combs.cpp:6970-6986 | a dependency path around an original cycle survives simplification between the nodes that stand for its ends |
| CombReclassify.SecondEager | Combs.cpp:6970-6986 | after the second classification an eager node mentions, apart from itself, only eager and earlier nodes |
| CombReclassify.FinalDepsExact | Combs.cpp:5646-5655 | the concrete dependencies of a second-eager node, also of one that was on demand at first, are what it mentions once rewritten, apart from itself |
| CombReclassify.SecondTopological | Combs.cpp:6970-6986 | the second eager schedule is topological for the concrete dependencies |
| CombReclassify.ReadsItself | Combs.cpp:6974-6984 | a retained node reads its own slot if and only if it was on demand and mentions itself in the original graph, directly or through forwarding ports |
| CombReclassify.EagerTwice | Combs.cpp:6986-6986 | where types match, a node that is eager both times holds its value of the original schedule after the second one, whatever other slots hold |
| CombReclassify.SecondRun | Combs.cpp:6974-6986 | where types match, every node of the second eager schedule satisfies its original equation on the values of the original nodes, where a node that reads itself sees its previous value |
| CombExamples.RingReadsItself | Combs.cpp:6970-6986 | in whatever the passes make of a two-node ring whose port is kept as forwarding, the comb was on demand, reads itself and is eager the second time |
| UnionFind.Find | Combs.cpp:7371-7376 | returns the representative and compresses the path without changing any component |
| UnionFind.Merge | Combs.cpp:7377-7383 | unites exactly the two components |
| CombPartition.MergeStage | Combs.cpp:7384-7391 | the components of a stage are the finest partition that keeps every dependency inside one component |
| CombPartition.Gather | Combs.cpp:7393-7407 | every position of the stage is gathered once into its component, in schedule order |
| CombPartition.LongestFirstSorts | Combs.cpp:7411-7416 | the component order is a stable longest-first permutation |
| LanePacking.LoadsConserveTotal | Combs.cpp:7417-7427 | lane weights always sum to the total component weight |
| LanePacking.GreedyLastLane | Combs.cpp:7417-7427 | a lane is at most the average plus its last component |
| LanePacking.GrahamBound | Combs.cpp:7413-7427 | with m lanes, 3m times the heaviest lane is at most 4m-1 times the heaviest lane of any assignment |
| CombStages.Pack | Combs.cpp:7409-7427 | each component goes whole onto a currently lightest lane |
| CombStages.BuildStage | Combs.cpp:7360-7429 | exactly the connected components of the stage are packed longest first; no dependency crosses lanes, each lane follows schedule order per component, and every position is on one lane |
| CombStages.StageWithinGraham | Combs.cpp:7393-7428 | every lane of a built stage meets the longest-first bound |
| CombStages.LowerBound | Combs.cpp:7437-7442 | the binary search returns the first position at or above the target |
| CombStages.NextStage | Combs.cpp:7434-7449 | a stage ends at the first position whose prefix weight reaches its share of the total, as far as later stages keep a position |
| CombStages.BuildPartition | Combs.cpp:7431-7452 | every stage is cut at its share and packed longest first, and the cost is the sum of the heaviest lanes |
| CombStages.PartitionStages | Combs.cpp:7431-7452 | a built partition is contiguous from 0 to the end, each stage is laid out correctly and packs its connected components longest first |
| CombStages.StagesMakePlan | Combs.cpp:7431-7452 | such stages form a plan in which every dependency runs earlier in the same lane or before a barrier |
| CombStages.PrefixWeights | Combs.cpp:7350-7356 | weights are at least one and the prefix sums are monotone |
| CombStages.BestPartition | Combs.cpp:7454-7473 | every allowed stage count is tried and the one with the least cost plus barrier penalty is kept, the smallest on a tie |
| CombStages.ChoosePlan | Combs.cpp:7349-7473 | the plan has as many lanes as threads are requested and nodes are scheduled, at least one; its stages are those of the best-scoring partition over the prefix weights of the given sizes; every dependency runs earlier in its lane or before a barrier |
| CombStages.TryCount | Combs.cpp:7464-7472 | trying one more stage count keeps the best score and its stages, replaced only by a strictly better score |
| CombStages.PenaltiesMultiply | Combs.cpp:7466-7467 | one penalty per barrier is the product of penalty and barriers |
| CombStageCosts.PartitionCost | Combs.cpp:7431-7452 | the cost of a partition is at most the total weight, and at least its share of one lane |
| CombStageCosts.AtMostTwoStages | Combs.cpp:7459-7472 | a chosen plan has one or two stages, and two only if that saves more than half of the total weight |
| CombStageCosts.ChosenWithinGraham | Combs.cpp:7349-7473 | in a chosen plan, any other assignment of the components of a stage leaves a lane within the longest-first bound of its heaviest lane |
| Common.ShareIsQuotient | Combs.cpp:7437-7438 | the share computed by counting is the integer quotient |
| CombPlan.ScheduleFixpoint | Combs.cpp:7841-7844 | after a topological run every node equals its formula on its previous contents and the final values of the others |
| CombPlan.UnscheduledKept | Combs.cpp:7841-7844 | a run leaves unscheduled slots alone |
| CombRuntime.TokenWindow | Combs.cpp:8137-8138 | tokens of one command and the tokens of the previous one never coincide |
| CombRuntime.CallerKeepsControl | Combs.cpp:8099-8149 | every caller step, also of the destructor that joins one worker after the other, keeps the control invariant of the barrier |
| CombRuntime.LaneKeepsControl | Combs.cpp:8172-8206 | every worker step keeps the control invariant of the barrier |
| CombRuntimeTheorems.StepIsSafe | Combs.cpp:8104-8206 | whatever thread moves, the object and state pointers stay fixed while any worker may use them, and each (command, stage, lane) is logged at most once |
| CombRuntimeTheorems.BarrierHolds | Combs.cpp:8134-8149 | a lane is in a later stage only when all lanes have finished the earlier one |
| CombRuntimeTheorems.NoRace | Combs.cpp:8104-8206 | lanes that evaluate at the same time are in the same stage, and neither writes a slot the other reads or writes |
| CombRuntimeTheorems.OthersDoNotDisturb | Combs.cpp:8104-8206 | while a lane evaluates a node, no step of another thread changes its slot or a slot it reads, so evaluation need not be atomic |
| CombRuntimeTheorems.StepKeepsInvariant | Combs.cpp:8104-8206 | every enabled step keeps control and data invariants together |
| CombRuntimeTheorems.ReachableInvariant | Combs.cpp:8104-8206 | the invariant holds in every state of every execution |
| CombRuntimeTheorems.ParallelEqualsSequential | Combs.cpp:8104-8206 | in every interleaving, when run returns, its state holds the sequential result, every other state is untouched and each (command, stage, lane) has run exactly once |
| CombRuntimeTheorems.NoDeadlock | Combs.cpp:8104-8206 | in every state before the destructor has finished some thread has an enabled step, also while the last legal command runs; only a caller about to publish the stop bit is excluded |
| CombRuntimeTheorems.StuckExactly | Combs.cpp:8104-8109 | nothing can happen any more exactly when the caller would have to publish the stop bit as a command |
| CombRuntimeTheorems.CommandTerminates | Combs.cpp:8104-8206 | every step of a running command lowers a bound on the steps that are left |
| CombRuntimeTheorems.RunReturns | Combs.cpp:8104-8149 | when `run` returns, the last call that began found some memory, and of this the state it was given now holds the sequential result for the inputs of its object; nothing else has changed and no other call began |
| CombRuntimeTheorems.JoinedAll | Combs.cpp:8099-8103 | in every execution, once the destructor is done every worker has left and no event follows |
| CombRuntimeTheorems.ShutdownStarts | Combs.cpp:8099-8100 | publishing the stop bit leaves one step for each worker, one for each join and one to return |
| CombRuntimeTheorems.ShutdownTerminates | Combs.cpp:8099-8103 | every step of a running destructor is one step less, whichever thread takes it, and none is left exactly when it is done |
| CombRuntimeTheorems.TokensDistinct | Combs.cpp:8137-8138 | the tokens of the first n commands are pairwise distinct if and only if the plan has one stage or the span (n - 1)(S + 1) + S - 1 is below 2^64 |
| CombRuntimeTheorems.TokensOfRun | Combs.cpp:8134-8149 | in every run, what the lanes have worked off when `run` returns was told apart by tokens if and only if that span fits |
| CombPipeline.ScheduledGraphOk | Combs.cpp:6941-6968 | scheduling and classification establish what simplification relies on |
| CombEmission.Classify | Combs.cpp:6941-6968 | scheduling and the first classification give a graph whose kept dependencies are earlier and whose eager nodes depend exactly on what they mention; ports are cached, and combs that are declared so or reach no unstable node |
| CombEmission.ClassifyAgain | Combs.cpp:6970-6986 | the graph rebuilt from simplified expressions without self-edges is classified exactly, and a comb stays memoizable exactly if it was and still reaches no unstable node |
| CombEmission.Emit | Combs.cpp:6941-7473 | all passes in order; they fail exactly when a root reaches a node that cannot be prepared, and otherwise their contracts hold together, the plan being chosen for the requested threads and the given sizes |
| CombEmission.EmittedPlan | Combs.cpp:7349-7473 | the emitted plan has the smaller of the threads and the eager nodes as lanes, at least one, at most two stages, and in each the longest-first bound |
| CombEmission.ParallelEqualsOriginal | Combs.cpp:6941-8206 | where types match, for every interleaving, when a call of `run` returns, first-eager nodes of the state it was given hold the values of the original sequential schedule on what the call found, every emitted node satisfies its original equation, other slots are unchanged, and the original values solve all equations |
| NativeGraphs.BitNumbering | include/cpphdl_graph.h:214-215 | owner and lane invert the bit numbering |
| NativeGraphs.ResolveTied | include/cpphdl_graph.h:225-236 | tying an unaliased bit sends exactly the bits that resolved to it to zero |
| DecisionDiagrams.Canonical | CppGraphReachability.h:27-34 | equal functions have equal ids, and an id is nonzero if and only if it is satisfiable |
| DecisionDiagrams.TablesHaveNoDuplicates | CppGraphReachability.h:27-34 | no two ids of a valid table are the same decision |
| DecisionDiagrams.TestsIsDependence | CppGraphReachability.h:58-69 | a diagram tests a variable if and only if its function depends on it |
| DecisionDiagrams.Bdd.Make | CppGraphReachability.h:27-34 | the tables stay ordered, reduced and duplicate-free, old ids keep their meaning, and the new id tests the variable |
| DecisionDiagrams.Bdd.Apply | CppGraphReachability.h:36-52 | the pointwise operation, with shortcuts and shared memo entries sound |
| DecisionDiagrams.Bdd.Choose | CppGraphReachability.h:53-57 | the pointwise conditional |
| DecisionDiagrams.Bdd.Depends | CppGraphReachability.h:58-69 | true exactly when the function depends on some bit of the wire |
| Reachability.NativeStateReachability.Bits | CppGraphReachability.h:79-88 | diagrams of a value represent its bits in every evaluation the setting admits |
| Reachability.NativeStateReachability.NodeRefs | CppGraphReachability.h:102-142 | a node's diagrams represent its outputs; opaque outputs are symbols only when no operand depends on the wire |
| Reachability.NativeStateReachability.Match | CppGraphReachability.h:172-177 | in every admitted evaluation the match diagram is true exactly if the next state has the value |
| Reachability.NativeStateReachability.PossibleValues | CppGraphReachability.h:170-178 | the loop over all values of a state finds every one that some admitted evaluation produces |
| Reachability.NativeStateReachability.Successors | CppGraphReachability.h:166-179 | every next-state value some admitted evaluation produces is found |
| Reachability.NativeStateReachability.Prove | CppGraphReachability.h:152-188 | acceptance gives a closed state domain in which every affected root is blind to the wire |
| ReachabilityRun.RootsAreComplete | CppGraphReachability.h:193-204 | the roots are exactly the non-empty outputs, state operands with their state, memory operands and host effects |
| ReachabilityRun.RootsServe | CppGraphReachability.h:193-204 | so next values, reset values and host effects are observed, which the comparison of runs relies on |
| ReachabilityRun.Explore | CppGraphReachability.h:205-226 | users, parents and the visited set describe everything the roots can reach |
| ReachabilityRun.TieWire | CppGraphReachability.h:246-249 | every lane of the wire that is still its own target becomes zero |
| ReachabilityRun.Run | CppGraphReachability.h:191-255 | the removed wires form a sequence of justified tyings from the first graph to the last |
| NativeEquivalence.CycleAgrees | CppGraphReachability.h:180-185 | under a justification one cycle shows the same for any two values of the wire |
| NativeEquivalence.WireUnobservable | CppGraphReachability.h:152-188 | in every run from zero state no cycle shows which values the wire had |
| NativeEquivalence.TyingKeepsRuns | CppGraphReachability.h:246-249 | the tied graph shows the same as the original in every cycle of every run |
| NativeEquivalence.RemovalKeepsRuns | CppGraphReachability.h:227-254 | all removals together keep every run |
| Programs.ExecLimit | CppGraph.h:2543-2545 | a direct run that ends within an iteration limit has the same outcome under every larger one |
| SymbolicState.MergeReads | CppGraph.h:965-985 | merged cells read as the branch the condition picks |
| SymbolicState.GuardExact | CppGraph.h:485-492 | the execution guard is true exactly where control reaches |
| SymbolicState.PendingExact | CppGraph.h:552-557 | a pending row is committed memory with the enabled queued writes applied in program order |
| SymbolicState.LowerExprExact | CppGraph.h:518-561 | a lowered expression evaluates as the direct one; plain reads see committed memory only |
| Flows.CollectEnabled | CppGraph.h:2210-2228 | exits of an executed statement are collected with its result |
| Flows.CollectDisabled | CppGraph.h:2210-2228 | exits of a skipped statement change nothing |
| Flows.QueueLowered | CppGraph.h:562-573 | a queued write is enabled exactly on the evaluations that execute it |
| Flows.DeclareLowered | CppGraph.h:2361-2380 | a declaration gets fresh storage that nothing in scope shares |
| Flows.AppendLowered | CppGraph.h:2252-2259 | one more statement of a block keeps its meaning, with own locals free only after a return |
| Flows.DeadSuffix | CppGraph.h:2253-2254 | a dead suffix need not be lowered |
| Flows.BlockLowered | CppGraph.h:2340-2347 | releasing a block's locals keeps the meaning of everything in scope |
| Flows.GuardLowered | CppGraph.h:2231-2251 | a guarded statement simulates where enabled and changes nothing but own locals where not |
| Flows.IfLowered | CppGraph.h:2381-2400 | both branches merged under the condition mean the if statement |
| LoopFlows.BodyStep | CppGraph.h:2547-2553 | one unrolled body keeps every run either active with the direct store or left with its outcome |
| LoopFlows.IncStep | CppGraph.h:2558-2569 | the ungated cursor increment keeps the observable induction value |
| LoopFlows.LoopEnd | CppGraph.h:2543-2574 | at the end of unrolling flow, cells, result and induction value are the direct run's |
| SwitchFlows.FittingSize | CppGraph.h:2412-2425 | a partly known selector takes exactly two to the number of variable bits values |
| SwitchFlows.CountingCovers | CppGraph.h:2445-2449 | as many covered labels as patterns means every selector value has a label |
| SwitchFlows.Exhaustive | CppGraph.h:2412-2449 | the test is positive exactly if at most 12 bits of a selector of at most 64 vary and every value it can take has a label, and then every evaluation takes a case |
| SwitchFlows.EntryExact | CppGraph.h:2460-2463 | exactly the entry a direct run takes has a true condition |
| SwitchFlows.EntryStep | CppGraph.h:2466-2480 | a lowered entry with fall through simulates the runs that take it, break absorbed |
| SwitchFlows.JoinAlternatives | CppGraph.h:2486-2490 | the merge loop reads as the last true alternative or the fallback |
| SwitchFlows.ResolveAll | CppGraph.h:2482-2485 | the fallback after the exhaustive case is still right for every evaluation |
| SwitchFlows.SwitchLowered | CppGraph.h:2401-2493 | the joined cells and flow mean the switch |
| Lowering.Lowerer.Statement | CppGraph.h:2302-2578 | every accepted statement keeps its meaning: exits, result, storage and memory writes |
| Lowering.Lowerer.GuardedStatement | CppGraph.h:2231-2251 | the contract of a guarded statement |
| Lowering.Lowerer.AppendStatement | CppGraph.h:2252-2259 | the contract of extending a block |
| Lowering.Lowerer.SwitchStatement | CppGraph.h:2401-2493 | the contract of switch lowering |
| Lowering.Lowerer.ForStatement | CppGraph.h:2494-2575 | the contract of loop lowering |
| Lowering.LoweringSound | CppGraph.h:166-171 | for every evaluation exactly one exit predicate holds and names the direct run's exit, and result, variables in scope and memory writes are that run's |
| AvlTrees.BalanceAlike | CppGraphEnvironment.h:40-56 | rotations keep order and entries |
| AvlTrees.Update | CppGraphEnvironment.h:57-77 | every update stays balanced with exact cached height and count, and moves the height by at most one |
| AvlTrees.UpdateRefines | CppGraphEnvironment.h:57-77 | set and erase refine the finite map, and trees stay ordered and balanced |
| AvlTrees.CountIsSize | CppGraphEnvironment.h:114-114 | the cached count is the number of entries |
| AvlTrees.FibonacciBound | CppGraphEnvironment.h:22-36 | a tree of height h holds at least Fib(h + 2) - 1 entries |
| AvlTrees.HeightLogarithmic | CppGraphEnvironment.h:22-36 | two to half the height is at most the number of entries plus one |
| Environments.BalanceNodes | CppGraphEnvironment.h:40-56 | the node version builds the balanced tree |
| Environments.UpdateNode | CppGraphEnvironment.h:57-77 | the very same node is returned exactly when nothing changes |
| Environments.SharedSubtree | CppGraphEnvironment.h:86-89 | a subtree found in another environment answers for all its keys as the whole does |
| Environments.Changes | CppGraphEnvironment.h:86-93 | skipping shared subtrees still adds exactly the differing keys |
| Environments.Environment.ChangedKeys | CppGraphEnvironment.h:129-133 | exactly the keys whose presence or value handle differs |
| Environments.Environment.SetShared | CppGraphEnvironment.h:124-124 | the contents change at one key |
| Environments.Environment.Erase | CppGraphEnvironment.h:128-128 | the contents lose one key |
| Environments.Iterator.Next | CppGraphEnvironment.h:104-106 | advancing drops exactly the current entry |
| Environments.Iterator.AtEnd | CppGraphEnvironment.h:107-110 | equality with the end iterator means nothing is left |
| Environments.InOrderIncreasing | CppGraphEnvironment.h:96-111 | iteration visits every entry once in strictly increasing key order |
| Environments.Cells.Merge | CppGraph.h:965-985 | a merge is accepted exactly when every key is mergeable, and then every key reads as mux(condition, yes, no) with the before or original fallback |
| Slices.WideShiftRight | CppGraph.h:812-820 | for every width and amount the log-stage shift is the mathematical shift, zero when oversized |
| Slices.WideShiftLeft | CppGraph.h:821-827 | the same to the left |
| Slices.WideSliceMask | CppGraph.h:828-835 | the mask is exactly the selected positions of a valid range |
| Slices.WideSliceRead | CppGraph.h:836-845 | a range read is the selected bits, zero-extended, or zero |
| Slices.WriteRange | CppGraph.h:874-884 | a masked range write replaces exactly the selected bits |
| Slices.RangeLaws | CppGraph.h:836-884 | get-put, put-get and frame: writing what was read changes nothing, reading what was written gives the written bits that fit, disjoint ranges are untouched and the last write wins |
| Slices.AddOffsetOnLattice | CppGraph.h:742-754 | every reachable sum of offsets, however large its dynamic part, stays on the gcd lattice of stride and residue |
| Slices.WalkSums | CppGraph.h:742-754 | over any chain of indices the tracked offset is the exact sum, and constant exactly if every index is |
| Slices.StrideGreatest | CppGraph.h:742-754 | the tracked stride is the greatest for which the residue does not depend on the indices: its divisors are exactly the moduli in which all choices agree |
| Slices.ValidExactly | CppGraph.h:731-741 | an offset is accepted exactly when its 64-bit word fits and what was wrapped away is a multiple of the stride |
| Slices.ValidIsInside | CppGraph.h:731-741 | the guard means that the whole slice fits if and only if the sum is below 2^64, its word is outside, or the wrapped part is no multiple of the stride |
| Slices.IndexedRead | CppGraph.h:717-730 | an indexed read gives the selected bits or zero |
| Slices.MaskedWrite | CppGraph.h:948-963 | the masked shifted insertion writes the selected bits or nothing |
| Slices.SparseWrite | CppGraph.h:938-947 | the per-lane write equals the masked write on the lattice |
| GetterCache.StaleGetter | CppGraph.h:1228-1243 | the worklist answers exactly whether some recorded written field has another value now |
| GetterCache.FreshRecordMatches | CppGraph.h:1228-1243 | a record is not stale if and only if everything it recorded still reads the same |
| GetterCache.Getters.Write | CppGraph.h:891-917 | a write keeps every cached result tied to its record |
| GetterCache.Getters.Invoke | CppGraph.h:1364-1452 | the result always equals a fresh evaluation in the current store, and the cached one is reused, with nothing evaluated or recorded again, whenever everything its record read is unchanged |
| GetterCache.Getters.Evaluate | CppGraph.h:1244-1252 | evaluation records enough reads and producer snapshots to determine the value |
| ExprSimplify.DistributeKeeps | Expr.cpp:1511-1525 | opening brackets keeps the value and shrinks the measure although an operand is copied |
| ExprSimplify.DistributePassKeeps | Expr.cpp:1508-1526 | one traversal keeps the value and, if anything changed, strictly shrinks the measure |
| ExprForms.DistributeLoop | Expr.cpp:1508-1526 | the distribution loop terminates with no product over a sum and no wrapper left |
| ExprForms.UnwrapLoop | Expr.cpp:1497-1507 | removing casts and parentheses terminates with none left |
| ExprSimplify.FoldPassKeeps | Expr.cpp:1527-1549 | folding keeps the value where 64-bit arithmetic does not overflow |
| ExprForms.FoldLoop | Expr.cpp:1527-1549 | the folding loop terminates with no operation on two numbers left, or fails where a number leaves 64 bits |
| ExprTerms.EqualValues | Expr.cpp:1556-1564 | terms found equal have equal values in every world |
| ExprTerms.EqualTransitive | Expr.cpp:1556-1564 | being equal is transitive, so terms fall into classes |
| ExprTerms.Collector.Collect | Expr.cpp:1567-1579 | collecting leaves one term for each class of equal addends, the first of them, in their order and with its net count, and the sum of the numbers; it fails exactly where a counter leaves its type |
| ExprTerms.Rebuild | Expr.cpp:1581-1594 | the addends of the rebuilt expression are the terms that do not cancel and the constant where it is not zero; it has the value of their sum |
| ExprTerms.Simplify | Expr.cpp:1433-1595 | simplify fails exactly where something overflows; otherwise the value is kept over opaque operations, no wrapper, product of a sum or operation on two numbers is left, and the addends are the collected terms, each with its net count |
| ExprTerms.NumberExactly | Expr.cpp:1565-1594 | the result is a number if and only if all terms cancel, and then it is the sum of the numbers |
| ExprTerms.SliceWidth | Expr.cpp:820-822 | the width of a slice of n bits at a multiple of n is the number n whatever the index is |
| ExprNormal.OneNumberExactly | Expr.cpp:1581-1594 | at most one number stands among the addends of the result unless the constant is not zero and the first term that does not cancel is subtracted |
| ExprNormal.DifferentExactly | Expr.cpp:1581-1594 | the addends of the result are pairwise not equal if and only if none that stands alone is the product that another one with a count becomes |
| ExprNormal.LeadingZero | Expr.cpp:1587-1593 | `5 - x` is left with two numbers |
| ExprNormal.ProductTwice | Expr.cpp:1585-1586 | `2*y + y + y` is left with two equal addends |
| CollectionStream.NumberRead | Combs.cpp:808-810 | the eight bytes of a number read back as the number |
| CollectionStream.Writer.Write | Combs.cpp:808-831 | writing appends exactly the encoding |
| CollectionStream.Reader.ReadText | Combs.cpp:858-867 | a text is accepted exactly if its length is within the limit and its bytes are there; what followed is left |
| CollectionStream.Reader.Read | Combs.cpp:894-1031 | reading a layout accepts exactly the streams that begin with a value of it, and returns this value and what followed |
| CollectionStream.ParsedExactly | Combs.cpp:808-1031 | a stream parses to a value exactly if the value has the layout and the stream begins with its encoding |
| CollectionClasses.ClassBack | Combs.cpp:1068-1199 | every persisted class field is read from where it was written |
| CollectionClasses.MergeAssociative | Combs.cpp:1201-1268 | however entries for one class are grouped, only their order counts |
| CollectionClasses.MergeSelf | Combs.cpp:1201-1268 | merging an entry with itself changes nothing |
| CollectionClasses.MergeKeeps | Combs.cpp:1201-1268 | no method, field or work body that was known is lost, and what the incoming entry defines wins |
| Collections.BodyTable | Combs.cpp:3032-3040 | the table holds exactly the body texts of the classes, each once |
| Collections.SaveCollection | Combs.cpp:3030-3059 | the stream encodes the version, the body table and the metadata of the collection |
| Collections.Optimizer.LoadCollection | Combs.cpp:3061-3148 | a file is accepted if and only if it has the layout; its includes, constants and body count are then added and its classes are new or merged, and otherwise the includes, constants and body tables stay as they were |
| Collections.LayoutExactly | Combs.cpp:3061-3133 | a stream has a layout exactly if it begins with its encoding, every code is at most the number of bodies and every text within the limit |
| Collections.OtherVersionRefused | Combs.cpp:3063-3068 | a file that begins with any other text has no layout, whatever follows |
| Collections.PrefixRefused | Combs.cpp:3129-3133 | no proper prefix of a complete file is accepted |
| Collections.MaterializeBodies | Combs.cpp:3150-3187 | accepted if and only if the version and body table can be read and the table has the size that was loaded; exactly the requested texts then appear, each at its own index |
| Collections.CollectionRestored | Combs.cpp:3150-3187 | after saving, loading and materializing any subset every requested body of every class is its original text although equal texts share one entry, and with all requested the classes are as they were saved |
| Collections.RoundTrip | Combs.cpp:3030-3187 | saving, loading into an empty optimizer and materializing: every collection the format can hold is accepted and comes back with nothing left over, each requested body as its own text |
| Collections.ReloadKeeps | Combs.cpp:3122-3128 | loading the same file again changes no class |

## Left out

- CombEmission.ParallelEqualsOriginal: on-demand evaluation is not modelled, so the slots of nodes that stay on demand are whatever the run starts with.
- CombOptimized.OptimizedRun: for the work expression it takes as given that two cached on-demand nodes, one of which only forwards the other, agree; this is what their shared first demand means in the emitted caches.
- CombCpp.ForwardedByTypes: is for a value that can be any value of its type; where a longer chain of conversions restricts it, the comparison of types suffices (`CombCpp.DirectForwards`) and `CombTyping.Matches` stays the exact condition. A signed value converted to a class of more than 64 bits and such a class converted to `bool` pass one 64-bit word, which the comparison does not cover either.
- CombCpp.CppIsLanguage: covers numbers; enumerations, floating-point types and classes that are no packed number are types whose conversions `CombCpp` does not describe, while `CombTyping.TypingExact` holds for any description of them.
- CombTyping.TypingExact: value categories are not modelled, nor whether the rewritten text compiles.
- CombEmission.Emit: the per-node facts that both classifications read and the expression sizes that weigh the plan are given, not computed from text.
- CombOptimize.InlineNodes: which nodes are small enough to inline is any given set; the use counts and byte limits that pick it are not computed.
- CombSchedule.ScheduleNodes: nodes that preparation discovers are all present from the start instead of being appended while the search runs.
- ReachabilityRun.Run: its budgets only reject wires, and that it removes every removable wire is not claimed.
- Lowering.Lowerer.Statement: references, closures, memory rows as locals, wide and sliced targets, structural and commit modes and calls are left out; every uninitialized local reads one arbitrary value; a statement of a switch body declares nothing for the next one. An assignment, an initializer, a result or a memory write stores its value as it is: conversion to the type of the target is an explicit operation of the expression. Only an if, switch, loop or block is ever rejected; which of them (merges of different widths, conditions of loops that are not known, the iteration limit) is not characterized.
- SymbolicState.MergeReads: uses finite maps for the cells; `Environments.Cells.Merge` proves the same of the shared-tree environments themselves.
- GetterCache.Getters.Invoke: concurrent nets, forward references, memory getters and effectful getters are left out, and getters are pure and call each other acyclically.
- CombStages.NextStage: weights, costs and shares are natural numbers, so the wrap-around of `uint64_t` once eight times the total expression text exceeds 2^64 characters is not modelled.
- Slices.WideShiftRight: the stage width is an unbounded number, so the wrap-around of a 32-bit `unsigned` beyond width 2^31 is not modelled.
- Collections.Optimizer.LoadCollection: says nothing about the classes after a failed load, which in the source may hold what was read before the failure. Compression and files are byte sequences.
- Collections.MaterializeBodies: says nothing about the requested texts after a failure.
- ExprTerms.Simplify: the text of numeric literals is parsed elsewhere; a number holds its parsed value or none.
- Clang AST collection, text rewriting, use counting and SystemVerilog printing are not part of this model.
- `clusterDynamicSchedule`, `MathCombRewriter` and lifecycle warnings are not modelled.
- Thread affinity, spinning and weak memory ordering are not modelled: a spinning read is no step.
