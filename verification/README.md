# A Fortran-to-DaCe frontend, modelled in Dafny

The frontend turns Fortran sources into dataflow programs and rewrites both on the way.  This project models its rewrites
of program graphs and of source text, the analyses that license them, its dependency orders, and its index and record
arithmetic, and proves that they keep what the program computes.  `dafny verify dfyconfig.toml` checks everything.

| module | what it models |
|---|---|
| `Digraph` | finite directed graphs, walks, the worklist that decides reachability |
| `ArraySplit`, `ArrayLayout`, `SplitRuns` | one array node of a dataflow state replaced by one node per constant index, the repair of the order between accesses, the column-major memory of the parts, and what running the split state reads |
| `SymbolMotion`, `StartBlock` | symbol assignments of an edge moved past the state the edge leads to, over an interpreter of states and guarded edges, and what that does in the start block |
| `ControlFlow`, `Renaming`, `LoopCopies` | control-flow trees, their runs and the events of a run, and what renaming one container in a run does |
| `MustDefined`, `MustDefinedMemo` | the must-be-defined analysis of a scalar and its memo table |
| `ExactScan`, `LoopRenames`, `ScalarFission` | which loop bodies write a scalar before they read it in every run, renaming loop after loop, and the pass that gives each loop its own copy of the scalar |
| `ScanOrder`, `FissionBreaks` | what the order of the blocks in their list does to the analysis, and the programs where it accepts too much |
| `LoopExclusion`, `ExclusionExact` | loops that never both run and the copies they get, and exactly which those are |
| `WrittenAfter`, `WrittenExact` | which elements are written before they are read, and that nothing is refused without a reason |
| `CppArms`, `CppTree` | stack machines that strip and select preprocessor arms, over any lines and over well-nested texts |
| `ProcedureStubs`, `AccDirectives` | emptying procedure bodies, encoding directives as marker calls |
| `UseMerge`, `TopoOrder` | the two depth-first orders over `USE` statements, and the closure of one root module |
| `UnionNest`, `OffsetCopy`, `Unformatted` | two stencil arms in one guarded nest, face copies as offset copies, record framing |
| `Options` | a value or none |

Passes that change an object in place are classes or methods with loops, each proved against a specification function or
an outright property; the laws of those functions are lemmas.  Lines of text are tokens, and the choice of a token for a
line is not part of the model.  Names, labels and file contents that the source computes or reads are parameters.

## Where the code does not do what it says

- `merge_used_modules` says that a `USE` cycle's back-edge is silently dropped.  Its stack loop has no mark for a module
  in progress: it ends exactly when no cycle is in reach (`UseMerge.EndsIffNoCycle`), and on two modules that use each
  other it runs on for ever (`UseMerge.MutualUseRunsOn`).
- `_topo_order` says that files defining no module sort last.  They come where their block comes: all files with modules
  precede all files without exactly when the sources listed up to the first listing of each file without modules reach
  every file with modules (`TopoOrder.ModulesFirstIff`, `TopoOrder.ProgramNotLast`).
- `strip_openmp_directives` says that it keeps the `#else` arm; it drops every guarded `#elif`.  An `#elif` that holds is
  lost (`CppArms.ElifDiffers`), and after an `#ifndef` arm and an `#elif` the `#else` arm is kept as well
  (`CppArms.ElseKeptTwice`).  Whatever stands between the directives, stripping first and selecting arms first leave the
  same lines exactly when each guarded `#elif` and `#else` is harmless (`CppArms.CommutesIff`).
- The fission pass accepts loops that read what their iteration has not written.  The loop case of
  `_block_exit_uncached` lets a loop that may run no iteration define the scalar (`ScalarFission.LoopExitNeverRight`,
  `FissionBreaks.NestedLoopNotCovered`); the conditional case does not look at the conditions of the branches
  (`FissionBreaks.TestNotSeen`); a start block with predecessors is entered from them only (`FissionBreaks.StartNotSeen`);
  and eight rounds do not reach along ten blocks listed backwards (`FissionBreaks.RoundsRunOut`,
  `ScanOrder.EightRounds`).  An accepted program can then compute something else (`FissionBreaks.FissionChanges`).  An
  accepted loop has every read covered in its own iteration, in every run, exactly when a scan without these faults
  accepts it (`ScalarFission.AcceptedIsLocalIff`, `ExactScan.SafeScanExact`).
- `join_stencil_states` does not ask whether the state is the start block.  There the rewrite sets symbols the program has
  not set (`SymbolMotion.StartBlockBreaks`).  Runs and symbols are kept exactly when the state is not the start block, or
  neither what it writes nor an edge that can be taken out of it depends on those symbols or leaves one as it was
  (`StartBlock.MoveSafeIff`).
- `_movable_past` refuses an edge whose values read a symbol the edge sets.  Where the assignments of an edge happen at
  once, as in this model, moving such an edge would keep every run off the start block
  (`SymbolMotion.OwnSymbolsHarmless`); the refusal of values that read containers is needed
  (`SymbolMotion.DataRefusalNeeded`).
- `_exclusive` separates branches of a conditional that a cycle of its region runs again, and then both branches run
  (`LoopExclusion.CycleRunsBoth`).  Separated loops never both run exactly when no conditional above both is on a cycle
  (`ExclusionExact.NeverBothIff`), and loops it does not separate do both run in some run (`ExclusionExact.SeparatedIff`).
- With four literal bounds, `union_range` takes both ends of the union from one arm: arms one cell apart lose a cell, and
  two arms that tile lose an arm (`UnionNest.LiteralArmsLose`); `UnionNest.LiteralExactIff` says when the result is right.
- A wrong `left_is_upper` is wrong whenever there is a cell at all (`UnionNest.FlagIff`).
- The file written by `write_record` does not say how wide its items are, and the reader takes a length that is no whole
  number of its own items for a count of items (`Unformatted.PartItemsFirst`).  Files come back exactly when each array is
  a whole number of the reader's items, so always when they are read with the type they were written with
  (`Unformatted.RoundTripIff`).
- For slope -1 the offset copy runs the swept loop backwards, which changes the array when the planes overlap
  (`OffsetCopy.OverlapDiffers`, `OffsetCopy.FinalArrayIff`).

## Model

| member | source | states |
|---|---|---|
| Digraph.Reaches | dace_fortran/loop_privatization.py:215-224 | the worklist answers yes exactly when a walk of at least one edge leads from one block to the other |
| ArraySplit.OrderExact | dace_fortran/array_split.py:99-118 | a graph that covers the old one and folds back onto it has a path between surviving nodes exactly when the old one had |
| ArraySplit.StaysAcyclic | dace_fortran/array_split.py:99-118 | such a graph of an acyclic graph is acyclic, ordering edges between parts included |
| ArraySplit.Split.WritersFirst | dace_fortran/array_split.py:99-118 | after the split, each part that is written reaches every reader of every part |
| ArraySplit.Split.WritersBeforeReadParts | dace_fortran/array_split.py:99-118 | after the split, each part that is written reaches each part that is only read |
| ArraySplit.Split.CoversAll | dace_fortran/array_split.py:155-186 | what passed through the node is still ordered by a path, also for nodes of ordering edges only |
| ArraySplit.Split.FoldsAll | dace_fortran/array_split.py:99-186 | every edge of the new graph is a path of the old one once the parts are one node again, or goes from a written part to one only read |
| ArraySplit.Split.Exact | dace_fortran/array_split.py:99-186 | paths between surviving nodes exist exactly as before, the graph stays acyclic, every read of any part follows every write into any part |
| ArraySplit.Split.StillValid | dace_fortran/array_split.py:155-186 | the data edges left are those elsewhere and those of the node at the part of their index, and no other |
| ArraySplit.SameAccesses | dace_fortran/array_split.py:155-192 | the element accesses of the state are the same set before and after |
| ArraySplit.StateGraph.HasPath | dace_fortran/array_split.py:112-116 | a path of any length, the empty one included |
| ArraySplit.StateGraph.KeepOrder | dace_fortran/array_split.py:99-118 | adds ordering edges only, each between nodes no path ordered; afterwards a part that a data edge leads into comes before each part that none leads into, and before the readers of each other part that one leads into |
| ArraySplit.StateGraph.Order | dace_fortran/array_split.py:110-118 | orders one written part before another part, or before that part's readers |
| ArraySplit.StateGraph.ConstantIndices | dace_fortran/array_split.py:54-86 | in one state: gives the indices in use exactly when every access names one literal index |
| ArraySplit.StateGraph.MakeParts | dace_fortran/array_split.py:156-165 | one new node for each index the node's edges use, and for no other |
| ArraySplit.StateGraph.MoveEdges | dace_fortran/array_split.py:158-185 | each data edge is at the part of its index, each ordering edge at every part, and the node is gone |
| ArraySplit.StateGraph.SplitNode | dace_fortran/array_split.py:155-186 | one node's split keeps every path between surviving nodes both ways, acyclicity, writes before reads, and each write before the part of every index the node's edges only read |
| ArraySplit.StateGraph.SplitArray | dace_fortran/array_split.py:121-194 | the whole state: splits exactly when all indices are literal and there is one; keeps accesses, the order between all other nodes and acyclicity; each write into the array leads to every read of its old node, and to the part read if nothing writes that; else changes nothing |
| ArraySplit.LeadsAfter | dace_fortran/array_split.py:155-186 | the split of one node puts its writes before its reads, and later splits of other nodes keep that |
| ArrayLayout.OffsetStep | dace_fortran/array_split.py:138-139 | with the strides of the split, the offset of an element is its first subscript plus the first extent times the offset of the rest |
| ArrayLayout.OffsetThenElement | dace_fortran/array_split.py:138-149 | for every rank and shape, offsets of in-bounds elements lie in 0 .. size-1 and determine the element |
| ArrayLayout.ElementThenOffset | dace_fortran/array_split.py:138-149 | every offset in 0 .. size-1 is that of an in-bounds element |
| ArrayLayout.PartOffsetInjective | dace_fortran/array_split.py:134-150 | two elements of one part share an offset only if they are one element |
| ArrayLayout.WriteKeepsHolds | dace_fortran/array_split.py:187-192 | writing an element through its part leaves every part holding the array |
| ArrayLayout.PartsSimulate | dace_fortran/array_split.py:134-194 | any sequence of accepted reads and writes reads the same values from the parts and leaves them holding the array |
| SplitRuns.SameOrders | dace_fortran/array_split.py:99-186 | what the pass ensures of a split state: it allows exactly the orders of execution the state allowed |
| SplitRuns.SplitRunsSame | dace_fortran/array_split.py:121-194 | in each order the split state allows, whatever the nodes do through their edges, they read the same values from the parts as from the array and leave the parts holding it |
| SymbolMotion.AssignTwice | dace_fortran/join_stencil_states.py:36-39 | values that read no data and none of the symbols they set give the same symbols when assigned again, against any data |
| SymbolMotion.SubstEval | dace_fortran/join_stencil_states.py:65-68 | replacing the symbols by their values evaluates as the expression does after the assignments |
| SymbolMotion.SubstRun | dace_fortran/join_stencil_states.py:65-66 | the rewritten state computes from the old symbols what the state computes from the assigned ones |
| SymbolMotion.SubstAssign | dace_fortran/join_stencil_states.py:67-69 | the rewritten edge sets at once what the two edges set one after the other |
| SymbolMotion.MoveSimulates | dace_fortran/join_stencil_states.py:27-70 | for any edge into a state entered along it only, whose values read no container the state writes: step for step, both programs can take the same edges, with the same blocks and data, and the same symbols everywhere but inside the state |
| SymbolMotion.MoveKeepsRuns | dace_fortran/join_stencil_states.py:27-70 | every run shows the same blocks and data when the state is not the start block |
| SymbolMotion.MoveKeepsSymbols | dace_fortran/join_stencil_states.py:27-70 | and the same symbols outside the state |
| SymbolMotion.JoinsKeepRuns | dace_fortran/join_stencil_states.py:42-70 | any number of such moves, one after the other, keeps every run if none is into the start block |
| SymbolMotion.RefusedIff | dace_fortran/join_stencil_states.py:27-39 | an edge that qualifies otherwise is refused exactly when a value reads a container or a symbol that the edge sets |
| SymbolMotion.OwnSymbolsHarmless | dace_fortran/join_stencil_states.py:36-39 | off the start block, moving an edge that reads symbols it sets would keep every run, symbols included |
| SymbolMotion.DataRefusalNeeded | dace_fortran/join_stencil_states.py:36-39 | an edge that reads a container which the state changes: moving it changes the symbols a run ends with |
| SymbolMotion.StartBlockBreaks | dace_fortran/join_stencil_states.py:27-39 | a movable edge into the start block for which the rewrite changes the data |
| SymbolMotion.Sdfg.MoveAssignments | dace_fortran/join_stencil_states.py:65-70 | the loop over the edges leaves the graph with the assignments moved |
| SymbolMotion.Sdfg.OnlyOut | dace_fortran/join_stencil_states.py:56-59 | finds the edge out of a block exactly when the block has one edge out |
| SymbolMotion.Sdfg.Join | dace_fortran/join_stencil_states.py:42-70 | at each state in turn moves the assignments of its only edge out, or leaves the edge because there is no stencil, because it is conditional, sets nothing or leads into a state with another way in or none out, or because a value reads a container or a symbol it sets; counts the moves; if no moved edge leads into the start block every run shows the same blocks and data |
| SymbolMotion.Sdfg.JoinState | dace_fortran/join_stencil_states.py:51-70 | the body of the loop, at one state |
| StartBlock.ResultsRun | dace_fortran/join_stencil_states.py:27-39 | running a state writes what its tasklets come to in terms of the stores before it |
| StartBlock.CanBeTakenIff | dace_fortran/join_stencil_states.py:27-39 | some program state takes an edge out of a state exactly when its condition does not come to the constant 0 |
| StartBlock.RunsAsSet | dace_fortran/join_stencil_states.py:65-70 | started in the state, the rewritten program runs as the program does with the symbols already set |
| StartBlock.ValueTells | dace_fortran/join_stencil_states.py:65-70 | in the start block, a write that depends on a moved symbol, or an edge that leaves one alone or sets something that depends on one, makes some run differ |
| StartBlock.TestTells | dace_fortran/join_stencil_states.py:65-70 | so does the condition of an edge that depends on one |
| StartBlock.MoveSafeIff | dace_fortran/join_stencil_states.py:27-70 | for every movable edge: all runs are kept, symbols included, exactly when the state is not the start block or nothing there can tell whether the symbols are set |
| MustDefined.BlockMono | dace_fortran/loop_scalar_fission.py:94-142 | the verdict on a block only grows with the entry value |
| MustDefined.ScanMono | dace_fortran/loop_scalar_fission.py:159-197 | so does the verdict on a region |
| MustDefined.TrueStays | dace_fortran/loop_scalar_fission.py:94-142 | defined on entry means defined on exit, for every block |
| MustDefined.ScanTrue | dace_fortran/loop_scalar_fission.py:159-197 | and for every region |
| MustDefined.RoundsAreSweeps | dace_fortran/loop_scalar_fission.py:170-180 | stopping at the first sweep that changes nothing gives what all the sweeps give |
| MustDefined.LoopClosedForm | dace_fortran/loop_scalar_fission.py:125-139 | two rounds of the loop case decide every loop; the cap of eight never does |
| MustDefined.SweepSolves | dace_fortran/loop_scalar_fission.py:166-178 | in topological order one sweep solves the region's equations |
| MustDefined.TopologicalSettles | dace_fortran/loop_scalar_fission.py:166-180 | and the next changes nothing, from any start and with any cap of at least one round |
| MustDefined.SolutionUnique | dace_fortran/loop_scalar_fission.py:166-178 | the equations of a region in topological order have one solution |
| ScanOrder.ShortPathsSettle | dace_fortran/loop_scalar_fission.py:166-180 | in any listing: when no path has more than k blocks, k rounds from any start end in the only solution of the equations |
| ScanOrder.EightRounds | dace_fortran/loop_scalar_fission.py:166-197 | in any listing: eight rounds judge a region without a path of ten blocks as the solution does, and its exit without one of nine |
| ScanOrder.LongPathAccepted | dace_fortran/loop_scalar_fission.py:166-197 | a path listed backwards whose last block reads the scalar is accepted exactly when it has ten blocks or more |
| MustDefinedMemo.SharedSlot | dace_fortran/loop_scalar_fission.py:118-156 | entered defined, a loop that does not name the scalar has the verdict of the scan that shares its key |
| MustDefinedMemo.FalseSlotsDiffer | dace_fortran/loop_scalar_fission.py:118-156 | entered undefined the two differ, whatever the loop's header, so the shared table needs an argument |
| MustDefinedMemo.Analysis.CachedBlockExit | dace_fortran/loop_scalar_fission.py:70-91 | with any table that holds only right entries, the memoised verdict on a block is the uncached one |
| MustDefinedMemo.Analysis.BlockExitUncached | dace_fortran/loop_scalar_fission.py:94-142 | so is the one computed through the table |
| MustDefinedMemo.Analysis.LoopExit | dace_fortran/loop_scalar_fission.py:118-139 | the loop's rounds, which store scans under the loop's own key, leave its verdict there in the end |
| MustDefinedMemo.Analysis.CachedLoopScan | dace_fortran/loop_scalar_fission.py:145-156 | the scan of a loop's body under the loop's key is the uncached scan |
| MustDefinedMemo.Analysis.CachedScan | dace_fortran/loop_scalar_fission.py:145-156 | the memoised scan of a branch is the uncached one |
| MustDefinedMemo.Analysis.ScanUncached | dace_fortran/loop_scalar_fission.py:159-197 | the scan computed through the table is the uncached one |
| MustDefinedMemo.Analysis.SweepOnce | dace_fortran/loop_scalar_fission.py:173-178 | one round of the scan, block by block through the table |
| MustDefinedMemo.Analysis.AllSafe | dace_fortran/loop_scalar_fission.py:412-421 | over all the loops of a scalar, with one table, the answer is that of uncached scans |
| Renaming.RenamedSame | dace_fortran/loop_scalar_fission.py:307-332 | events whose reads are all covered do the same under a new name, whatever the copy held before |
| Renaming.RenameBlockTrace | dace_fortran/loop_scalar_fission.py:307-332 | a run of a block is a run of the renamed block, with the renamed events |
| Renaming.RenameRegionTrace | dace_fortran/loop_scalar_fission.py:307-332 | the same for a region |
| Renaming.RenameBlockRuns | dace_fortran/loop_scalar_fission.py:307-332 | renaming adds and removes no run |
| LoopCopies.LocalLoopSame | dace_fortran/loop_scalar_fission.py:427-441 | a loop whose iterations cover their own reads does the same with a copy, for any number of iterations |
| LoopCopies.SplitBlockSame | dace_fortran/loop_scalar_fission.py:427-441 | giving each outermost loop its copy changes no other container, in any run of a block |
| LoopCopies.SplitRegionSame | dace_fortran/loop_scalar_fission.py:427-441 | the same for a region |
| ExactScan.BlockSound | dace_fortran/loop_scalar_fission.py:94-142 | what the exact scan says of a block holds in every run: reads have an earlier write or were defined on entry, and what it calls defined is written |
| ExactScan.RegionSound | dace_fortran/loop_scalar_fission.py:159-197 | the same for every run of a region, nested loops included |
| ExactScan.BadRegionRun | dace_fortran/loop_scalar_fission.py:159-197 | a region the scan refuses, with cycles or without, has a run that reads too early |
| ExactScan.SafeScanExact | dace_fortran/loop_scalar_fission.py:159-197 | for regions in any listing, with cycles or without, whose blocks each have a way out: every read of every run is covered exactly when the scan accepts, and the scalar is written in every run exactly when the scan says so |
| ExactScan.ScanSolves | dace_fortran/loop_scalar_fission.py:166-180 | the rounds of the exact scan end in a solution of its equations |
| ExactScan.TopologicalWayOut | dace_fortran/loop_scalar_fission.py:166-169 | in topological order each block has a way out |
| ScalarFission.StateSound | dace_fortran/loop_scalar_fission.py:51-67 | a state in dataflow order without uncovered reads, or entered defined, reads nothing undefined |
| ScalarFission.LoopExitNeverRight | dace_fortran/loop_scalar_fission.py:125-139 | an exit the loop case claims for a loop entered undefined is wrong in the run without iterations |
| ScalarFission.TrustedRegionIsSafe | dace_fortran/loop_scalar_fission.py:94-197 | where none of these faults can show, the analysis accepts only what the exact scan accepts, and calls defined only what that does |
| ScalarFission.RegularAgrees | dace_fortran/loop_scalar_fission.py:94-142 | where, besides, headers do not name the scalar, states read fresh nodes first and each block but the start has a predecessor, the analysis gives the exact scan's verdict on every block |
| ScalarFission.RegularRegionAgrees | dace_fortran/loop_scalar_fission.py:159-197 | and on every region, accepted or refused |
| ScalarFission.AcceptedRenamable | dace_fortran/loop_scalar_fission.py:94-142 | in an accepted block no nested loop header names the scalar, so renaming reaches every use |
| ScalarFission.AcceptedIsLocal | dace_fortran/loop_scalar_fission.py:412-421 | an accepted loop that the exact scan accepts has an earlier write in its own iteration for every read in every run, inner loops that always write the scalar included |
| ScalarFission.AcceptedIsLocalIff | dace_fortran/loop_scalar_fission.py:412-421 | of the accepted loops, those with every read covered in its own iteration are exactly those the exact scan accepts |
| ScalarFission.TrustedAcceptedIsLocal | dace_fortran/loop_scalar_fission.py:412-421 | acceptance alone is enough where branch conditions do not name the scalar, no nested loop counts as defining it, and regions are in topological order and entered at a block without predecessors |
| ScalarFission.RegularAcceptedIff | dace_fortran/loop_scalar_fission.py:412-421 | there a loop body is accepted exactly when every read in every run has an earlier write in its own iteration |
| ScalarFission.AcceptsIff | dace_fortran/loop_scalar_fission.py:374-421 | and the pass accepts a scalar exactly when nothing outside its loops mentions it, no header does, and each loop that touches it covers its own reads |
| ScalarFission.FissionSame | dace_fortran/loop_scalar_fission.py:374-441 | renaming a scalar whose loops are accepted by both scans, loop by loop, changes no other container, in any run with any iteration counts |
| ScalarFission.Sdfg.FissionScalar | dace_fortran/loop_scalar_fission.py:374-441 | the pass on one scalar leaves the program alone exactly when it does not accept, for regular loops exactly when the scalar is not local to its loops; otherwise each loop that touches the scalar goes by its own new name, nothing else is changed, the old name is no longer mentioned and is dropped, and the program does the same; a name in use stops it after the loops before |
| ScalarFission.Sdfg.RenameLoops | dace_fortran/loop_scalar_fission.py:427-441 | the loop over the groups: the names are new and distinct, each goes to its group's loop, and a clash stops it |
| FissionBreaks.NestedLoopNotCovered | dace_fortran/loop_scalar_fission.py:125-139 | an accepted loop over a nest with a run that reads what nothing has written |
| FissionBreaks.TestNotSeen | dace_fortran/loop_scalar_fission.py:104-116 | an accepted loop whose branch condition reads the scalar before the body writes it |
| FissionBreaks.StartNotSeen | dace_fortran/loop_scalar_fission.py:166-178 | an accepted loop whose start block, which an edge leads back to, reads the scalar first |
| FissionBreaks.RoundsRunOut | dace_fortran/loop_scalar_fission.py:170-180 | an accepted loop over any path of ten or more blocks listed backwards, which reads what nothing writes |
| FissionBreaks.FissionChanges | dace_fortran/loop_scalar_fission.py:374-441 | an accepted program that leaves another value in a container once each loop has its copy, from every store |
| LoopRenames.SplitAgain | dace_fortran/loop_scalar_fission.py:427-441 | renaming some loops and then others is one renaming by both |
| LoopRenames.SplitUntouched | dace_fortran/loop_scalar_fission.py:427-441 | when every loop that touches the scalar has another name for it, nothing touches the scalar any more |
| LoopRenames.SplitQuiet | dace_fortran/loop_scalar_fission.py:222-228 | and nothing mentions it, in headers, tests and edges either |
| LoopRenames.TouchedOutsideIff | dace_fortran/loop_scalar_fission.py:376-402 | where conditions outside and headers do not name the scalar, it counts as touched outside exactly when something the program does outside its loops, or an edge of a loop's own region, mentions it |
| LoopExclusion.CommonIsLongest | dace_fortran/loop_privatization.py:151-164 | the common ancestor is the longest path both objects start with |
| LoopExclusion.Ancestry | dace_fortran/loop_privatization.py:207-212 | the chain from an object to the top names every ancestor once |
| LoopExclusion.CommonAncestor | dace_fortran/loop_privatization.py:151-158 | the first object of one chain that is in the other is the lowest common ancestor |
| LoopExclusion.Exclusive | dace_fortran/loop_privatization.py:151-164 | answers yes exactly for different branches of one conditional, or blocks of one region with no path either way |
| LoopExclusion.MutuallyExclusive | dace_fortran/loop_privatization.py:146-148 | every pair of the loops is separated |
| LoopExclusion.VisitReach | dace_fortran/loop_privatization.py:215-224 | a run that reaches a block reaches it along edges |
| LoopExclusion.NeverBoth | dace_fortran/loop_privatization.py:146-169 | separated loops never both run, whatever the tests say, when no conditional above both is run again |
| LoopExclusion.CycleRunsBoth | dace_fortran/loop_privatization.py:151-164 | a cyclic region in which two separated loops both run |
| ExclusionExact.NeverBothIff | dace_fortran/loop_privatization.py:146-169 | when every block lies on a run: separated loops never both run exactly when no conditional above both is on a cycle |
| ExclusionExact.BothRun | dace_fortran/loop_privatization.py:146-169 | a run into one branch, round the cycle, into the other branch and on to the end |
| ExclusionExact.UnseparatedRun | dace_fortran/loop_privatization.py:146-169 | loops beside one another that are not separated both run in some run |
| ExclusionExact.SeparatedIff | dace_fortran/loop_privatization.py:146-169 | when every block lies on a run: no run enters both of two loops beside one another exactly when they are separated and no conditional above both is on a cycle |
| LoopExclusion.OneCopyTrace | dace_fortran/loop_privatization.py:104-134 | in a run that uses one copy only, the rewritten program's events are the program's with that one name |
| LoopExclusion.AtMostOne | dace_fortran/loop_privatization.py:146-169 | of the loops that use the array a run enters at most one |
| LoopExclusion.ExclusiveCopiesSame | dace_fortran/loop_privatization.py:104-134 | a copy for each separated loop leaves every other container as it was, in every run from stores where the copies start like the array |
| LoopExclusion.PrivatizeSame | dace_fortran/loop_privatization.py:104-134 | the same as a statement about the two programs |
| LoopExclusion.NameCopies | dace_fortran/loop_privatization.py:112-134 | every loop but the first gets a name of its own that is not in use |
| LoopExclusion.Rewrite | dace_fortran/loop_privatization.py:115-134 | the renaming loop: new and distinct names, the program split by them, and nothing else changed in any run |
| LoopExclusion.Sdfg.Privatize | dace_fortran/loop_privatization.py:104-134 | changes nothing unless all loops are separated, and then every other container keeps its contents in every run |
| WrittenAfter.StateCovered | dace_fortran/loop_privatization.py:322-343 | refuses a state exactly at a read not covered so far, else adds what is certainly written |
| WrittenAfter.Walk | dace_fortran/loop_privatization.py:265-306 | the walk of a region: refusal and result are those of the specification |
| WrittenAfter.WalkBlock | dace_fortran/loop_privatization.py:277-306 | the walk of a block: branches each start from what came before, and what any of them writes counts after |
| WrittenAfter.AccessesSound | dace_fortran/loop_privatization.py:322-343 | a straight run of accepted accesses adds exactly what it writes, and every element a read needs was written before |
| WrittenAfter.ChainSound | dace_fortran/loop_privatization.py:265-306 | for every accepted chain the result holds exactly what was written before or on some path, and each read is prepared on a path that runs each loop once at most |
| WrittenAfter.WrittenAfterSound | dace_fortran/loop_privatization.py:254-306 | in an accepted iteration every element a read needs was written before the walk, or on some path to that read that runs each loop once at most: for a read in an inner loop, before that loop or in the same iteration of it |
| WrittenAfter.ReachOnce | dace_fortran/loop_privatization.py:265-306 | every event of a run with any iteration counts is one of a run in which each loop runs once at most |
| WrittenAfter.RunWrites | dace_fortran/loop_privatization.py:265-306 | so whatever any run writes, some such run writes |
| WrittenAfter.RegionMono | dace_fortran/loop_privatization.py:265-306 | started from more, the walk accepts what it accepted and ends with no less |
| WrittenExact.AccessesRefused | dace_fortran/loop_privatization.py:322-343 | a straight run of accesses is refused at a read of an element not written before it |
| WrittenExact.ChainRefused | dace_fortran/loop_privatization.py:265-306 | a refused iteration has a run with a read of an element that no path to that read writes |
| WrittenExact.WrittenAfterIff | dace_fortran/loop_privatization.py:254-343 | an iteration of known blocks, whose regions run to their end and whose accesses are told apart, is accepted exactly when every read in every run is prepared |
| CppArms.Strip | dace_fortran/preprocess.py:311-373 | the loop over the lines with its stack of open conditionals |
| CppArms.Mask | dace_fortran/acc_residency.py:140-172 | the loop that comments out what the definitions do not take |
| CppTree.StripKeeps | dace_fortran/preprocess.py:311-373 | of well-nested text stripping keeps every line that is no sentinel, directive lines included, but of accelerator conditionals only the arms, and of those the first if the macro must be undefined and each `#else` behind an arm not kept |
| CppTree.MaskSelects | dace_fortran/acc_residency.py:140-172 | of well-nested text masking leaves the code lines of the first arm whose condition holds, or of the `#else`, at every level |
| CppArms.MaskKeepsLive | dace_fortran/acc_residency.py:140-172 | masking keeps every line in place and leaves in force exactly the code lines of taken arms |
| CppArms.TakenViews | dace_fortran/preprocess.py:311-373 | with the arms aligned, a line's arms are all taken exactly when stripping keeps it and the arms left in the stripped text are taken |
| CppArms.StripThenMask | dace_fortran/preprocess.py:311-373 | from any stacks whose arms are aligned, stripping first leaves the same live lines without the sentinels |
| CppArms.StripCommutes | dace_fortran/preprocess.py:311-373 | for every text, balanced or not, whose guarded `#elif` and `#else` lines are harmless, and any definitions without those macros |
| CppArms.AlignedSteps | dace_fortran/preprocess.py:337-354 | reading a directive keeps the dropped arms those not taken exactly when it is harmless |
| CppArms.CommutesIff | dace_fortran/preprocess.py:311-373 | over all texts with the same directives: stripping commutes with selecting for each of them exactly when every directive is harmless |
| CppArms.TellingText | dace_fortran/preprocess.py:337-354 | a line behind the first directive that is not harmless is left by one order of the two passes only |
| CppArms.ElifDiffers | dace_fortran/preprocess.py:348-354 | a guarded `#elif` that holds: selecting keeps its arm, stripping has dropped it |
| CppArms.ElseKeptTwice | dace_fortran/preprocess.py:343-354 | a first arm that is taken, an `#elif` that does not matter and an `#else`: stripping keeps the first arm and the last |
| CppArms.StripIdempotent | dace_fortran/preprocess.py:311-373 | stripping twice strips nothing more, on every input |
| ProcedureStubs.Stub | dace_fortran/preprocess.py:690-762 | the scanner's loop over all lines; without targets the text is unchanged |
| ProcedureStubs.TargetIff | dace_fortran/preprocess.py:707-709 | a name is a target exactly when it is one of the names, or one of them with a suffix behind an underscore |
| ProcedureStubs.LongerNameIsNone | dace_fortran/preprocess.py:707-709 | a name that goes on with another character is none |
| ProcedureStubs.StubOne | dace_fortran/preprocess.py:714-761 | one turn of the loop: a line passed on, or a target stubbed |
| ProcedureStubs.KeepSpec | dace_fortran/preprocess.py:725-747 | the loop over the specification part stops at the first statement that is none |
| ProcedureStubs.KeepIface | dace_fortran/preprocess.py:727-741 | the loop over an INTERFACE block ends past its matching END |
| ProcedureStubs.DropBody | dace_fortran/preprocess.py:748-761 | the loop to the END that matches the target's opener, past the ends of inner procedures |
| ProcedureStubs.StubRespectsNesting | dace_fortran/preprocess.py:690-762 | on a well-nested stream the scanner's text is that of the stream with each target reduced |
| ProcedureStubs.StubTarget | dace_fortran/preprocess.py:721-761 | a target keeps its opener, its specification part and its own END, and all that follows |
| ProcedureStubs.StubCorrect | dace_fortran/preprocess.py:690-762 | the result is well-nested, keeps every line outside the targets' bodies, and stubbing it again changes nothing |
| AccDirectives.Encode | dace_fortran/fparser_inliner.py:1260-1302 | all files with one counter and one table: output and table are those of reading one line at a time, where a sentinel line behind one that goes on belongs to its directive; in each entry every line but the last goes on and the first is not of the specification part; a sentinel line left in the output is of the specification part, or goes on from the line above |
| AccDirectives.EncodeFile | dace_fortran/fparser_inliner.py:1276-1301 | one file's lines, its directives numbered on from the counter |
| AccDirectives.EncodeOne | dace_fortran/fparser_inliner.py:1280-1300 | one line, or one directive with its continuations |
| AccDirectives.WholeBlock | dace_fortran/fparser_inliner.py:1285-1289 | a directive's lines go on up to the last, which does not, or has no sentinel line behind it |
| AccDirectives.ReadGroups | dace_fortran/fparser_inliner.py:1276-1301 | cutting into directives gives what reading line by line gives |
| AccDirectives.SoundLines | dace_fortran/fparser_inliner.py:1276-1301 | what holds of the table and the output between two lines |
| AccDirectives.GroupsWhole | dace_fortran/fparser_inliner.py:1285-1289 | no directive is cut in two |
| AccDirectives.BlockEnd | dace_fortran/fparser_inliner.py:1285-1289 | the continuation lines of a directive, as many as it has (`AccDirectives.WholeBlock`) |
| AccDirectives.Decode | dace_fortran/fparser_inliner.py:1305-1316 | the loop that expands markers the table knows |
| AccDirectives.RoundTrip | dace_fortran/fparser_inliner.py:1260-1316 | decoding an encoded file gives the file back exactly when none of its own lines is a marker the table knows |
| AccDirectives.SurvivorsDecode | dace_fortran/fparser_inliner.py:1305-1316 | whatever lines survive, each surviving marker expands to its whole directive, cut neither where it goes on nor behind a line that goes on, and the others stand |
| AccDirectives.NumberedOnce | dace_fortran/fparser_inliner.py:1297-1300 | the markers of a text are the numbers from the counter on, in order |
| AccDirectives.NumbersAcrossFiles | dace_fortran/fparser_inliner.py:1273-1301 | across all files each number is used once |
| UseMerge.UsedModules | dace_fortran/preprocess.py:629-647 | the used modules that count, each once, at the line that uses it first and in the order of those lines |
| UseMerge.StepKeeps | dace_fortran/preprocess.py:816-827 | each turn of the stack loop keeps: modules listed are wanted, once, after what they use, and nothing wanted is forgotten |
| UseMerge.StepShrinks | dace_fortran/preprocess.py:816-827 | without a cycle each turn expands a module for the only time or shortens the stack |
| UseMerge.DoneLists | dace_fortran/preprocess.py:814-827 | when the stack is empty the list holds exactly the modules in reach, once each, each after those it uses |
| UseMerge.EndsIffNoCycle | dace_fortran/preprocess.py:810-827 | the loop ends exactly when no cycle of indexed modules is in reach |
| UseMerge.MutualUseRunsOn | dace_fortran/preprocess.py:810-827 | two modules that use each other: no number of turns ends the loop |
| UseMerge.MergeOrder | dace_fortran/preprocess.py:814-827 | without a cycle the loop terminates with that list |
| UseMerge.MergeAgainAddsNothing | dace_fortran/preprocess.py:797-841 | merging the merged text again finds nothing to add |
| TopoOrder.ReadSources | dace_fortran/emit_hlfir.py:62-70 | the tables say which file owns each module (the last to define it) and what each file uses |
| TopoOrder.Sorter.Visit | dace_fortran/emit_hlfir.py:75-85 | a visit lists what it adds before its file, keeps every mark of the files in progress, and adds nothing to a file already marked |
| TopoOrder.Sorter.Descend | dace_fortran/emit_hlfir.py:80-83 | the recursive call keeps the walk's invariant from the file in progress to the file it needs |
| TopoOrder.Sort | dace_fortran/emit_hlfir.py:53-89 | for every USE graph each source is listed once, a file precedes one it needs only on a cycle, and files come in blocks by source |
| TopoOrder.AcyclicMeansNeedsFirst | dace_fortran/emit_hlfir.py:53-89 | without cycles every file follows all it needs |
| TopoOrder.UnneededLast | dace_fortran/emit_hlfir.py:53-60 | a file no other needs comes last of all exactly when the sources up to it reach every source |
| TopoOrder.BeforeUnneeded | dace_fortran/emit_hlfir.py:53-60 | a file stands before a file no other needs exactly when the sources listed up to that one reach it |
| TopoOrder.ModulesFirstIff | dace_fortran/emit_hlfir.py:53-60 | all files with modules precede all files without exactly when, for each file without, the sources up to its first listing reach every file with modules |
| TopoOrder.ProgramNotLast | dace_fortran/emit_hlfir.py:53-60 | a file without modules listed before an unrelated module file is not last |
| TopoOrder.SelectUseClosure | dace_fortran/emit_hlfir.py:151-185 | keeps exactly the entries in reach of the root module's file, in build order, or all when no file defines it |
| TopoOrder.Collect | dace_fortran/emit_hlfir.py:174-184 | the worklist collects exactly the files in reach |
| TopoOrder.SelectAgain | dace_fortran/emit_hlfir.py:151-185 | selecting from a selection changes nothing: it holds all that it uses, with the same owners |
| UnionNest.Mirror | dace_fortran/tu.py:106-124 | accepted symbolic arms are one cell apart at both ends and the union runs from the lower start to the upper end, whatever the bases are worth |
| UnionNest.UnionAcceptedIff | dace_fortran/tu.py:106-124 | a symbolic pair is accepted exactly when both ends are one cell apart in the same direction, whatever the names are worth |
| UnionNest.GapIff | dace_fortran/tu.py:96-104 | a literal pair is refused exactly when a cell lies between the arms |
| UnionNest.SameBoundsSameValue | dace_fortran/tu.py:153-200 | bounds equal up to the alias relation have equal values whenever the relation holds |
| UnionNest.NestAcceptedIff | dace_fortran/tu.py:153-200 | two nests are accepted exactly when they have the axis, have equal bounds on every other one whatever the names are worth, and their ranges on it are accepted |
| UnionNest.LinesInjective | dace_fortran/tu.py:203-241 | the lines written determine the program |
| UnionNest.UnionArms | dace_fortran/tu.py:203-230 | the two guarded blocks, or the refusal of the range check |
| UnionNest.Nest | dace_fortran/tu.py:233-241 | the loops that write the openers, the body and the closers write the nest |
| UnionNest.InnerArm | dace_fortran/tu.py:203-241 | inside the difference axis an arm's part of the nest is its own nest if its guard holds, or nothing |
| UnionNest.UnionNestExact | dace_fortran/tu.py:106-241 | for every value of the bases, empty ranges included, the union nest runs each arm's statements in exactly the cells of its own nest, in the same order |
| UnionNest.FlagIff | dace_fortran/tu.py:203-230 | on the difference axis both guards are exact exactly when the flag agrees with the sign of the offsets, or there is no cell |
| UnionNest.LiteralExactIff | dace_fortran/tu.py:96-104 | for literal bounds both guards are exact exactly when the other arm fits what its guard leaves of the one arm's range |
| UnionNest.LiteralArmsLose | dace_fortran/tu.py:96-104 | two accepted literal pairs with a cell that never runs |
| OffsetCopy.Sum | dace_fortran/reshape.py:89-102 | the loop that folds the numbers and keeps the symbols |
| OffsetCopy.SumKeepsValue | dace_fortran/reshape.py:89-102 | the printed sum has the value of the terms, no empty term and at most one number, at its end |
| OffsetCopy.DeriveOffsets | dace_fortran/reshape.py:105-146 | the offsets, or the refusal of differing or non-unit slopes |
| OffsetCopy.OffsetFormIff | dace_fortran/reshape.py:105-128 | the refusals are right: a swept loop over more than one cell can be run from two offsets exactly when its slopes are equal and 1 or -1 |
| OffsetCopy.FrameValue | dace_fortran/reshape.py:130-146 | offset plus iterate is the source's swept subscript in the ghost frame, at the iterate the slope gives |
| OffsetCopy.Subs | dace_fortran/reshape.py:205-214 | the swept subscript stands at its storage position and the transverse ones around it in order |
| OffsetCopy.Render | dace_fortran/reshape.py:149-221 | the kernel, or the refusal, in the order the checks are made |
| OffsetCopy.KernelIsFace | dace_fortran/reshape.py:149-221 | the kernel makes exactly the face loop's copies, in the same order for slope +1 and with the swept loop reversed for slope -1 |
| OffsetCopy.OrderIrrelevant | dace_fortran/reshape.py:130-133 | copies of which none reads what another writes may be made in any order |
| OffsetCopy.FaceMember | dace_fortran/reshape.py:130-133 | either direction of the swept loop makes the same copies |
| OffsetCopy.FinalArrayIff | dace_fortran/reshape.py:105-221 | every array ends as the face loop leaves it exactly when the slope is +1, the two planes are apart or one, or there is nothing to copy |
| OffsetCopy.OverlapDiffers | dace_fortran/reshape.py:130-133 | with planes that overlap without coinciding some array ends differently, whatever the extents |
| Unformatted.DecodeEncode | dace_fortran/unformatted.py:111-117 | a 32-bit marker is read as it was packed |
| Unformatted.EncodeDecode | dace_fortran/unformatted.py:73-79 | every four bytes are the packing of the marker they are read as |
| Unformatted.ReadRecord | dace_fortran/unformatted.py:62-88 | accepts exactly a marker, the payload it announces and the same four bytes again, with nothing after |
| Unformatted.ReadRecords | dace_fortran/unformatted.py:91-108 | the loop over the records, which yields each before it compares its trailing marker |
| Unformatted.WriteRecord | dace_fortran/unformatted.py:111-117 | the framed bytes of an array of items, or a refusal of a length that is no 32-bit integer |
| Unformatted.RecordsFirst | dace_fortran/unformatted.py:91-108 | records followed by anything: the records are read, then the rest as if it stood alone |
| Unformatted.PayloadsIff | dace_fortran/unformatted.py:91-117 | payloads come back in order, with the file read to its end, exactly when each is a whole number of items |
| Unformatted.RoundTripIff | dace_fortran/unformatted.py:91-117 | arrays under 2^31 bytes each, written with one item size and read with another, come back in order, with the file read to its end, exactly when each is a whole number of the reader's items; always when the sizes are the same |
| Unformatted.PartItemsFirst | dace_fortran/unformatted.py:48-59 | after a payload that is no whole number of items the reader yields nothing, or a longer record |
| Unformatted.AcceptedIff | dace_fortran/unformatted.py:91-108 | the files accepted are exactly the sequences of marker, announced payload, equal marker |
| Unformatted.CutNoticed | dace_fortran/unformatted.py:98-103 | a file cut inside a record yields the records before and fails at that record |
| Unformatted.DisagreementYieldsFirst | dace_fortran/unformatted.py:104-107 | markers that disagree are reported after the payload between them was yielded |
| Unformatted.OneRecordIff | dace_fortran/unformatted.py:62-108 | the single-record reader accepts exactly what the other reads as one record |
| Unformatted.ItemCountIff | dace_fortran/unformatted.py:48-59 | a record framed by a count of items is accepted exactly when the count is no multiple of the item size, is 0, or items are bytes |

## Left out

- DaCe itself (`StateFusion`, `LoopToMap`, simplification, the validator), flang and the MLIR bridge are not part of this model; `SymbolMotion.Sdfg.Join` stops before the fusion of a pair.
- StartBlock.MoveSafeIff: exact over all meanings of the operators; under one meaning a difference that shows in general may cancel (`k - k`).
- ArraySplit.StateGraph.ConstantIndices: one state; the source also refuses an array named on interstate edges or in block conditions, and follows accesses into nested programs.
- ArraySplit.StateGraph.SplitArray: one state; copies from the array to itself (only one subset of the memlet is reduced), accesses inside nested programs, connectors, and the clash of the new names with names in use are not modelled.
- ScalarFission.AcceptedIsLocalIff: for regions whose edges join their blocks and whose blocks each have a way out.
- ScalarFission.FissionSame: asks that conditions outside the loops, and headers of loops that do not touch the scalar, do not name it, where the source looks at states and edges only; edges set symbols, not containers.
- ScalarFission.Sdfg.FissionScalar: one scalar at a time; the loop over all scalars and the staging states that `allow_abi_staged` lets through are not modelled, the latter because the source documents that they change the output.
- LoopExclusion.Exclusive: the last arm, `_branches_contradict`, which asks a symbolic algebra library whether two conditions exclude each other, is not part of this model; it only adds pairs.
- LoopExclusion.MutuallyExclusive: pairwise over the same test.
- LoopExclusion.NeverBoth: one direction, for any region; `ExclusionExact.NeverBothIff` has both where every block lies on a run.
- LoopExclusion.Sdfg.Privatize: the arm that copies arrays local to an iteration, and keeps the original for writes outside, is modelled only through the walk that licenses it (`WrittenAfter`).
- WrittenAfter.Walk: reads element sets, not the subset expressions they come from.
- WrittenExact.WrittenAfterIff: an iteration with a block of an unknown kind, a conditional region, or an unnamed read of an array of unknown shape is refused by the source whatever it does.
- ScalarFission.RegularAcceptedIff: elsewhere the source may refuse a loop that is local, or accept one that is not (`FissionBreaks`).
- UnionNest.UnionAcceptedIff: for alias relations that name representatives, as `alias_map` makes them; two numbers at one end are compared as text.
- `Jump` blocks (break, continue, return) end a region's run like any block without successors; leaving several regions at once is not modelled.
- OffsetCopy.Render: the call's two dummies are one array; that a compiler may assume otherwise is not modelled.
- UnionNest.UnionNestExact: a bound on the difference axis names no variable of that loop or of a loop inside it, and no inner loop reuses the axis variable.
- `alias_map` is not modelled; the alias relation is a parameter that the bounds' values respect.
- Two spellings of one bound (`x` and `x + 0`) are one bound in the model of `check_nest_pair`, and its axis is not negative.
- UseMerge.MergeOrder: asks that no cycle is in reach, since the loop does not end otherwise (`UseMerge.EndsIffNoCycle`).
- Splicing the listed modules' text in front of the source, and reading the search directories, are not modelled.
- Classifying lines by regular expressions, parsing subscripts (`parse_affine`) and bounds, and printing: lines are tokens, bounds and subscripts are affine terms.
- Reading and writing files, clocks and processes.
- `read_shaped` (a record read and reshaped), `_balance_cpp` (conditionals split by cutting a module out of a file), `rewrite_integer_powers` (`x**2.0` as a product) and `route_launches` (an ordering call in front of each kernel launch) are not modelled.
- The binding generators print C and Fortran declarations for a signature, and the build scripts call compilers; they promise nothing about what a program computes.
