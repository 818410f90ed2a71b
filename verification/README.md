# Verified models of dg's graph analyses and of Cape's transaction placement

dg builds dependence graphs for slicing; Cape extends it so that code that
depends on secrets runs inside hardware transactions. This project models the
algorithms behind both and proves what they compute. Each module is a file:

* `DisjunctiveIntervalMap`, `Definitions`, `ReachingDefinitions`, `MemorySSA*`:
  definitions of memory on demand, with phi nodes placed lazily on a cyclic
  control flow graph, over an interval map that splits on insertion.
* `SCC`, `Condensation`: Tarjan's algorithm with its explicit stack.
* `CDGraph`, `NTSCD2`, `CounterSearch*`, `NTSCD`, `FirstReachable`,
  `ControlClosure`, `DOD`: control dependence in four forms, measured against
  maximal paths (`MaximalPaths`).
* `Pointer*`, `NodesWalk`: the flow-insensitive pointer analysis with its points-to
  sets, transfer functions, worklist and its schedule, and concrete runs.
* `PostDominance*`, `Loop*`: post-dominance frontiers, natural loops and the start
  and end of the transaction around a loop.
* `SummaryEdges`: interprocedural summary edges.
* `BlockSplitting`, `BlockChains`, `ReadWriteGraph`: splitting basic blocks around calls.
* `Bsearch`: the sample that sorts with a full double loop and then searches.

Objects that the source updates in place are classes whose methods are proved
against functions and predicates on values; nodes are named by numbers, hash and
tree maps are maps, and an iteration over an unordered set picks any element, so
that a result does not depend on the order. Paths are sequences of nodes; a finite
maximal path repeats its last node for ever.

What the proofs brought to light, with the statements that make it precise:

* `uncovered` may report bytes behind the end of the interval it was asked for; when
  it does is an exact condition in `Uncovered` and `UndefinedIntervals`. A phi created
  from such a report claims memory that its site does not have, and a later search
  stops there (`PhiOversteps`): on a program of four blocks, the second of two queries
  misses the definition it asks for (`DefinitionIsMissed`). Nothing else loses a definition:
  as long as no phi claimed such bytes, none is missed in any program, and for accesses
  that are pairwise equal or disjoint the answers are exact (`GetDefinitions`).
* Offset arithmetic saturates at the unknown offset: entries can be split only at the
  borders of intervals that neither start at it nor end right before it (`ValidIff`),
  and a split in front of it makes entries overlap (`SplitBeforeUnknown`).
* The counter searches may colour nodes that can avoid the target (`ColorsTooMuch`);
  `SingleTarget` and `ExactIff` say exactly when they do not. The dependences of NTSCD
  are right more often than its colours: `AgreesIff` says exactly when, and
  `MissesDependence` shows a graph on which they are not.
* The strong control closure inherits these colours. Its result is closed iff no node
  behind it is coloured early (`CloseSet`), and `LeftOpen` is an input that it leaves
  open.
* Post-dominance frontiers leave a block out of its own frontier unless it is its own
  successor (`OwnFrontierIsMissed`).
* A loop transaction can be closed when the loop is entered, namely when the end block
  leads to the header around the start block (`OpenIff`, `PlaceReopened`); and the end
  is not inserted into a block that already bears the slice number, whatever put it
  there (`PlaceWithoutEnd`).
* A loop whose pre-header already starts a transaction is skipped, so that its own end
  is not placed (`PlaceShared`).
* The note behind the main loop of the pointer analysis (lib/PointerAnalysis/PointerAnalysis.cpp:529-537)
  argues that nodes missed by requeueing cannot matter at run time. They can
  (`LoadIsMissed`). What holds for all runs needs a condition: when, in some larger
  closed state, every node that writes what another one reads reaches it along the walked
  edges, `Run` ends in a fixpoint and `ResultCoversRuns` applies.
* With a limit on its iterations the pointer analysis runs one round more before it stops, and
  reports failure even if that round reached the fixpoint (`Run`).
* In a dependence graph whose control edges lead from calls to entries of callees a path
  can join formal parameters of two procedures, and the lookup of the actual one, which
  the source asserts, fails (`LookupFails`); `LookupsSucceedIff` says when it does not.

## Model

| member | source | states |
|---|---|---|
| DisjunctiveIntervals.DisjunctiveIntervalMap.SplitInterval | include/dg/ADT/DisjunctiveIntervalMap.h:420-438 | one entry becomes two with the same values; no byte changes its set |
| DisjunctiveIntervals.DisjunctiveIntervalMap.SplitExtBorders | include/dg/ADT/DisjunctiveIntervalMap.h:440-512 | afterwards no entry crosses a border of I, every byte keeps its set, and the result tells whether anything was split |
| DisjunctiveIntervals.DisjunctiveIntervalMap.AddOrUpdate | include/dg/ADT/DisjunctiveIntervalMap.h:514-598 | the map stays sorted and disjoint and refines a byte-to-set function: bytes of I gain the value (add) or hold it alone (update), the others keep their sets, and the result is true exactly when the stored map changed |
| DisjunctiveIntervals.DisjunctiveIntervalMap.Le | include/dg/ADT/DisjunctiveIntervalMap.h:318-332 | the first entry that an overlap query has to look at |
| DisjunctiveIntervals.DisjunctiveIntervalMap.Gather | include/dg/ADT/DisjunctiveIntervalMap.h:224-238 | on a non-empty map the union of the sets of all bytes of I |
| DisjunctiveIntervals.DisjunctiveIntervalMap.Uncovered | include/dg/ADT/DisjunctiveIntervalMap.h:244-301 | ascending disjoint intervals without mapped bytes whose part inside I is exactly the unmapped bytes of I; they are as long as they can be, and end right before a mapped byte or at the end of I; the last one passes the end of I exactly when the last byte of I and its neighbour are unmapped, a byte behind them is mapped, and so is some byte of I |
| DisjunctiveIntervals.DisjunctiveIntervalMap.AddAll | include/dg/ADT/DisjunctiveIntervalMap.h:125-132 | every stored byte gains the value, no byte becomes mapped |
| DisjunctiveIntervals.ValidIff | include/dg/Offset.h:36-72 | an interval is valid iff saturating offsets can step over both of its borders and come back: entries can be split at the borders of exactly these |
| DisjunctiveIntervals.SplitBeforeUnknown | include/dg/ADT/DisjunctiveIntervalMap.h:456-459 | any entry up to the unknown offset, split in front of it, becomes two overlapping ones |
| MemoryDefinitions.Put | include/dg/MemorySSA/DefinitionsMap.h:46-66 | adds or sets the writer of exactly the bytes of a DefSite |
| MemoryDefinitions.Get | include/dg/MemorySSA/DefinitionsMap.h:108-116 | the writers of some byte of the DefSite |
| MemoryDefinitions.BytesMean | include/dg/MemorySSA/DefinitionsMap.h:32-39 | the bytes of a site: len bytes from a known offset on, all of them for an unknown length or the length zero, any byte for an unknown offset |
| MemoryDefinitions.UndefinedIntervals | include/dg/MemorySSA/DefinitionsMap.h:120-128 | DefSites that cover exactly the bytes without a writer, as far as they lie in the site; when they pass its end is an iff |
| MemoryDefinitions.SiteRoundTrip | include/dg/MemorySSA/DefinitionsMap.h:33-39 | an interval turned into a DefSite and back is the same interval |
| MemoryDefinitions.Update | lib/MemorySSA/Definitions.cpp:23-54 | what one node does to the definitions and kills of every byte: weak writes add it, strong writes replace the others |
| ReachingDefinitions.Program.CellIsUniform | lib/MemorySSA/MemorySSA.cpp:62-88 | when accesses are pairwise equal or disjoint, the bytes of one access have the same writers everywhere |
| ReachingDefinitions.DefsAfterAreLastWrites | lib/MemorySSA/MemorySSA.cpp:435-449 | numbering a block front to back keeps, for each byte, the writes that no later strong write of the block hides |
| MemorySSA.RunLvn | lib/MemorySSA/MemorySSA.cpp:435-449 | local value numbering computes those sets for every byte of the block |
| MemorySSA.CoverUncovered | lib/MemorySSA/MemorySSA.cpp:103-125 | a phi defines and kills exactly the bytes of its site that the block left uncovered, as uncovered reports them |
| MemorySSA.MemorySSATransformation.constructor | lib/MemorySSA/MemorySSA.cpp:736-760 | before the first query the invariant of the search holds |
| MemorySSA.MemorySSATransformation.GetBBlockDefinitions | lib/MemorySSA/MemorySSA.cpp:407-433 | the cached definitions of a block, computed on first use without changing what is known |
| MemorySSA.MemorySSATransformation.CreatePhi | lib/MemorySSA/MemorySSA.cpp:90-133 | a new phi is placed in front of the block, kills its bytes there at once, and is open until its operands are found; it claims bytes behind its site exactly when the report of uncovered bytes passes the end |
| MemorySSA.MemorySSATransformation.FindDefinitionsAtEnd | lib/MemorySSA/MemorySSA.cpp:236-252 | terminates on cyclic graphs, also for overlapping accesses; for equal-or-disjoint accesses the result holds all and only the definitions that reach the end of the block; in any program it misses none as long as no phi claimed bytes behind its site, and as long as no report of uncovered bytes passed the end of its site every node found, and every operand of a closed phi, is a phi for such bytes or a definition that reaches the block for some byte of the site; when the search ends in known blocks, the result is their answer and nothing but caches changes |
| MemorySSA.MemorySSATransformation.AddUncovered | lib/MemorySSA/MemorySSA.cpp:216-234 | looks up the uncovered parts in the predecessors |
| MemorySSA.MemorySSATransformation.FindDefinitionsInPredecessors | lib/MemorySSA/MemorySSA.cpp:175-204 | the same for the front of a block |
| MemorySSA.MemorySSATransformation.FindDefinitionsInMultiplePredecessors | lib/MemorySSA/MemorySSA.cpp:144-173 | at a join a phi stands for the predecessors, in a block without predecessors an input does; when the ends of the predecessors are known, exactly one phi is new and its operands are their answers |
| MemorySSA.MemorySSATransformation.FindPhiDefinitions | include/dg/MemorySSA/MemorySSA.h:147-168 | the operands of a phi are found in all predecessors and the phi is closed |
| MemorySSA.MemorySSATransformation.FindDefinitionsInBlock | lib/MemorySSA/MemorySSA.cpp:451-465 | numbering up to the first occurrence of a node |
| MemorySSA.MemorySSATransformation.FindDefinitions | lib/MemorySSA/MemorySSA.cpp:17-60 | the definitions of everything a node uses, closed under the invariant so that any later query may follow |
| MemorySSA.MemorySSATransformation.RecGatherNonPhisDefs | lib/MemorySSA/MemorySSA.cpp:774-792 | collects the ordinary nodes behind a phi, each phi once |
| MemorySSA.MemorySSATransformation.GatherNonPhisDefs | lib/MemorySSA/MemorySSA.cpp:797-815 | exactly the ordinary nodes at the ends of chains of phis |
| MemorySSA.MemorySSATransformation.GetDefinitions | lib/MemorySSA/MemorySSA.cpp:817-827 | after any sequence of queries, in every program: as long as no phi was given bytes behind its site, every node that defines used memory and reaches the use on a path without an intervening overwrite is returned; as long as no report of uncovered bytes passed the end of its site, a use with no join on the way back to it gets no other node; the answer is exact when accesses are pairwise equal or disjoint, and for all accesses in a tree of blocks without inputs that leaves no gaps (see `NeverPasses`) |
| MemorySSAPrecision.ExactBehindNoJoin | lib/MemorySSA/MemorySSA.cpp:817-827 | in a state without reports that passed the end of a site, what is found at a use behind no join is exactly what reaches it, whatever overlaps |
| MemorySSAPrecision.JustifyingAtEnd | lib/MemorySSA/MemorySSA.cpp:236-252 | definitions of the block for some byte of the site, together with justified answers for its uncovered parts, are justified at the end of the block |
| MemorySSAPrecision.PlacedPhiIsPrecise | lib/MemorySSA/MemorySSA.cpp:90-133 | placing a phi keeps every cached definition justified unless the report of its uncovered bytes passes the end of its site |
| MemorySSAPrecision.NeverPasses | lib/MemorySSA/MemorySSA.cpp:236-252 | on the program alone: in a tree of blocks without inputs in which no first part of a block overwrites bytes on both sides of two neighbouring bytes that it leaves, no report passes the end of its site |
| MemorySSACoverage.NothingIsMissed | lib/MemorySSA/MemorySSA.cpp:817-827 | whatever overlaps: as long as no phi claimed bytes behind its site, chains of phis lead from the use to every definition that reaches it |
| MemorySSACoverage.PlacedPhiCovers | lib/MemorySSA/MemorySSA.cpp:90-133 | placing a phi keeps the cached definitions of every block complete unless it claims bytes behind its site, which it never does when accesses are equal or disjoint |
| MemorySSASettled.SettledAtEnd | lib/MemorySSA/MemorySSA.cpp:236-252 | a search that goes back through single predecessors to blocks that kill all of the site or to an entry without input finds exactly what these blocks define |
| MemorySSASettled.SettledJoin | lib/MemorySSA/MemorySSA.cpp:144-173 | at a join behind such blocks exactly one phi is new, its operands are what they define, and it claims the byte behind its site iff the uncovered bytes of the join pass the end of the site |
| MemorySSAExamples.DefinitionIsMissed | lib/MemorySSA/MemorySSA.cpp:103-125 | a program with overlapping accesses and two queries: the answer to the second one is empty, although a write reaches the use |
| MemorySSAExamples.PhiOversteps | lib/MemorySSA/MemorySSA.cpp:103-125 | how that comes: after a phi for bytes 0 to 7, byte 8 is found in the phi and not searched any further |
| MemorySSAExamples.GapsAreSearched | lib/MemorySSA/MemorySSA.cpp:216-252 | three blocks and an access with two gaps: the gaps are searched one by one, and the answer leaves out the definition that was overwritten between them |
| MemorySSAExamples.WriteReaches | lib/MemorySSA/MemorySSA.cpp:236-252 | in that program a write of byte 8 reaches its use, but no byte of the phi |
| MemorySSACorrectness.PathsAreCovered | lib/MemorySSA/MemorySSA.cpp:236-252 | every definition that reaches a block along a path is found through the phis |
| MemorySSACorrectness.ChainsAreReal | lib/MemorySSA/MemorySSA.cpp:236-252 | every node found through phis reaches the block along a path |
| MemorySSACorrectness.UsesAreExact | lib/MemorySSA/MemorySSA.cpp:17-60 | both directions at a use |
| MemorySSACorrectness.ExactAnswer | lib/MemorySSA/MemorySSA.cpp:817-827 | chains of phis and reaching definitions agree |
| SCC.Tarjan.Visit | include/dg/SCC.h:58-100 | a visit keeps the invariant of the search and finishes the component of its node or leaves it on the stack |
| SCC.Tarjan.PopComponent | include/dg/SCC.h:80-98 | pops exactly the nodes above and including n as one component |
| SCC.PopComponents | include/dg/SCC.h:79-98 | what is popped is mutually reachable and its edges lead to finished components |
| SCC.FinishGrey | include/dg/SCC.h:68-79 | a node with a smaller low point reaches an earlier node of the stack |
| SCC.ReachDecreases | include/dg/SCC.h:90-92 | the number of a component never grows along a path |
| SCC.AllFound | include/dg/SCC.h:26-31 | at the end the stack is empty and the components are a partition of what the start reaches |
| SCC.Tarjan.Compute | include/dg/SCC.h:26-31 | two nodes share a component iff each reaches the other, every reachable node is in exactly one, and numbers are in reverse topological order |
| Condensations.SCCCondensation.constructor | include/dg/SCC.h:129-154 | k leads to m exactly when m differs from k and some edge crosses from component k to m |
| Condensations.EdgesDecrease | include/dg/SCC.h:90-92 | every edge of the condensation goes to a smaller index |
| Condensations.ChainDecreases | include/dg/SCC.h:129-154 | the condensation has no cycle |
| Condensations.LeadsIffReaches | include/dg/SCC.h:129-154 | one component leads to another iff its nodes reach the nodes of the other |
| Condensations.Condense | include/dg/SCC.h:129-154 | from the graph to its condensation: no cycle, and one component leads to another iff its nodes reach the nodes of the other |
| CDGraphs.CDGraph.CreateNode | lib/ControlDependence/CDGraph.h:110-116 | nodes are numbered from 1 in order of creation |
| CDGraphs.CDGraph.AddNodeSuccessor | lib/ControlDependence/CDGraph.h:120-125 | adds exactly one edge and keeps the predicates the nodes with more than one successor |
| CDGraphs.CDGraph.AddSuccessor | include/dg/BBlockBase.h:41-54 | successors and predecessors stay inverse and without duplicates |
| MaximalPaths.MustReachIsLeast | lib/ControlDependence/NTSCD.h:110-142 | the nodes whose maximal paths all contain a target are the least set closed under "some successor, and all of them" |
| MaximalPaths.StayingAvoids | lib/ControlDependence/NTSCD.h:110-142 | a set that can be stayed in forever, or until a dead end, gives a maximal path that avoids the target |
| NTSCD2s.NTSCD2.Color | lib/ControlDependence/NTSCD.h:98-142 | terminates and colours a node iff every maximal path from it contains the target |
| NTSCD2s.AllFound | lib/ControlDependence/NTSCD.h:110-142 | when no frontier node can be coloured, nothing is missing |
| NTSCD2s.NTSCD2.Compute | lib/ControlDependence/NTSCD.h:144-175 | p is in CD[n], and n in revCD[p], iff one successor of p must reach n and another can avoid it |
| ControlDependences.MixedIsDependent | lib/ControlDependence/NTSCD.h:144-158 | successors of both colours mean control dependence |
| CounterSearchRuns.CounterSearch | lib/ControlDependence/NTSCD.h:25-53 | with unsigned short counters the coloured nodes are the targets and the least set closed under the counting rule; every node is dequeued once, and a target once more exactly if its own counter drops to 0 |
| CounterSearches.MustIsColored | lib/ControlDependence/NTSCD.h:25-53 | the search colours at least every node that must reach a target |
| CounterSearches.ExactIff | lib/ControlDependence/ControlClosure.h:40-86 | the search colours exactly these nodes iff some set R of targets accounts for all early drops |
| CounterSearches.SingleTarget | lib/ControlDependence/NTSCD.h:25-53 | for one target: exact iff the target has a successor that can avoid it (or none at all), or no avoiding predecessor of it has fewer than two avoiding successors |
| CounterSearches.ColorsTooMuch | lib/ControlDependence/NTSCD.h:44-50 | a graph of three nodes on which a node that can avoid the target is coloured |
| CounterSearches.UncoloredIff | lib/ControlDependence/NTSCD.h:25-53 | a condition on the graph alone: a node stays uncoloured for a target iff it lies in a set of nodes that can stay in the set; if all successors of the target must reach it, predecessors of the target need two ways to stay |
| NTSCDs.NTSCD.Compute | lib/ControlDependence/NTSCD.h:58-85 | the dependences that the colours of the counter search say |
| NTSCDs.AgreesIff | lib/ControlDependence/NTSCD.h:58-85 | both relations hold exactly the control dependences on n, as those of NTSCD2 do, iff on the graph, wherever a successor can avoid n but not evade it in the sense of UncoloredIff, there is a successor that must reach n iff there is one that can evade it |
| NTSCDs.AgreesWhereExact | lib/ControlDependence/NTSCD.h:58-85 | that is so for every node whose search is exact |
| NTSCDs.MissesDependence | lib/ControlDependence/NTSCD.h:58-85 | a graph of four nodes on which both relations miss a control dependence |
| ControlClosures.StrongControlClosure.ComputeTheta | lib/ControlDependence/ControlClosure.h:18-36 | exactly the nodes of X that are reached first |
| ControlClosures.StrongControlClosure.ComputeGamma | lib/ControlDependence/ControlClosure.h:40-86 | the nodes that the counter search from X leaves uncoloured |
| ControlClosures.StrongControlClosure.FindNode | lib/ControlDependence/ControlClosure.h:106-146 | finds a node behind X with an edge that asks for it, iff there is one |
| ControlClosures.StrongControlClosure.CloseSet | lib/ControlDependence/ControlClosure.h:104-157 | terminates; the nodes are added one by one, each behind the set of that time with an edge that asks for it; the result is strongly control closed, measured by maximal paths, iff no node behind it is coloured early; it is the least strongly closed superset if all searches between X0 and some strongly closed superset are exact; X0 stays as it is if no edge asks for a node |
| ControlClosures.StronglyClosedIff | lib/ControlDependence/ControlClosure.h:116-138 | closed by maximal paths iff closed by colours and no colour is early |
| ControlClosures.ClosedWithoutEdges | lib/ControlDependence/ControlClosure.h:116-138 | without such edges every node behind X cannot reach X or meets it in one node and is coloured |
| ControlClosures.AddedIsNeeded | lib/ControlDependence/ControlClosure.h:116-151 | what is added to a set with an exact search belongs to every strongly closed superset, whatever its own search does |
| ControlClosures.AllExact | lib/ControlDependence/ControlClosure.h:104-157 | it suffices that all supersets of X0 are searched exactly |
| ControlClosures.LeftOpen | lib/ControlDependence/ControlClosure.h:104-157 | a graph of four nodes on which nothing is added to a set that is not strongly closed |
| PointerStates.AddAtChanges | include/dg/PointerAnalysis/PointsToSets/PointerIdPointsToSet.h:26-44 | adding a pointer either changes nothing or advances an order without infinite chains, although the unknown offset replaces others |
| PointerRules.GivesBelow | lib/PointerAnalysis/PointerAnalysis.cpp:38-363 | what a node generates is covered by every larger state that is closed under the node |
| PointerRules.StaysClosed | lib/PointerAnalysis/PointerAnalysis.cpp:292-363 | a node stays at its fixpoint while nothing it reads changes |
| PointerOffsets.CopiesShift | lib/PointerAnalysis/PointerAnalysis.cpp:225-257 | the range test and the offsets of a copy are those of the arithmetic: one place for each byte in range, and none outside of it |
| PointerOffsets.ShiftsInside | lib/PointerAnalysis/PointerAnalysis.cpp:225-257 | with known offsets and a known length no cell in front of or behind the copied bytes changes, and what comes to a cell was as far behind the start of the source |
| PointerOffsets.GepMoves | lib/PointerAnalysis/PointerAnalysis.cpp:271-287 | the arithmetic of a gep, both directions |
| PointerOffsets.OffsetIsKept | lib/PointerAnalysis/PointerAnalysis.cpp:265-290 | a pointer keeps its offset through a gep unless one to the same object loses it |
| PointerPrecision.GepIsPrecise | lib/PointerAnalysis/PointerAnalysis.cpp:271-287 | against the machine: the exact pointer becomes the exact pointer if its new offset lies in the object and below the sensitivity, and the unknown one if not |
| PointerPrecision.CopyIsPrecise | lib/PointerAnalysis/PointerAnalysis.cpp:225-257 | the same for each copied byte; a byte is copied exactly if the length allows it |
| PointerPrecision.RulesAreReal | lib/PointerAnalysis/PointerAnalysis.cpp:292-412 | nothing is generated in vain: every object pointer that a node generates arises in some step of that node from a machine that the state covers |
| PointerAnalyses.PointerAnalysisFI.ProcessLoad | lib/PointerAnalysis/PointerAnalysis.cpp:38-131 | load: all that may be read is covered and arrives, nothing else changes; null is gained exactly from pointers that hold it, or from zeroed memory without an entry |
| PointerAnalyses.PointerAnalysisFI.ProcessGep | lib/PointerAnalysis/PointerAnalysis.cpp:265-290 | gep: the exact new set, by the arithmetic of 64-bit words alone: each pointer moves by the distance if it then lies in its object and below the sensitivity, and to the unknown offset if not; there it replaces the others to its object |
| PointerAnalyses.PointerAnalysisFI.ProcessStore | lib/PointerAnalysis/PointerAnalysis.cpp:305-319 | store: exactly the cells that the pointers name gain exactly what the value holds, null pointers included |
| PointerAnalyses.PointerAnalysisFI.ProcessPhi | lib/PointerAnalysis/PointerAnalysis.cpp:357-363 | phi and return: exactly what the operands hold is gained, null pointers included |
| PointerAnalyses.PointerAnalysisFI.ProcessCallReturn | lib/PointerAnalysis/PointerAnalysis.cpp:342-363 | call return: exactly what the operands hold, and the invalidated pointer iff asked for and one of them holds memory of the called procedure that is neither on the heap nor global |
| PointerAnalyses.PointerAnalysisFI.CopyObject | lib/PointerAnalysis/PointerAnalysis.cpp:182-263 | memcpy between two objects: what lies i bytes behind the source pointer comes to i bytes behind the destination, or to the unknown offset where that is not known or kept; everything in range arrives, nothing else changes, zeroed sources zero the destination or leave a null |
| PointerAnalyses.PointerAnalysisFI.ProcessMemcpy | lib/PointerAnalysis/PointerAnalysis.cpp:133-180 | memcpy: all pairs of objects, with the null rule for each |
| PointerAnalyses.PointerAnalysisFI.ProcessFuncPtr | lib/PointerAnalysis/PointerAnalysis.cpp:364-388 | call through a function pointer: exactly the pointers to functions are gained, or all if memory may be invalidated |
| PointerAnalyses.PointerAnalysisFI.ProcessNode | lib/PointerAnalysis/PointerAnalysis.cpp:292-440 | the state only grows, changes only where the node writes, covers all that the node generates, stays below every closed larger state, and the result is true iff something changed; a set gains its first null pointer, and memory is newly zeroed, only when the node reads a null pointer or zeroed memory |
| PointerAnalyses.AccountStep | include/dg/PointerAnalysis/PointerAnalysis.h:105-119 | processing one node leaves every node at its fixpoint, or waiting, or reachable from one that changed |
| PointerAnalyses.PointerAnalysisFI.Iteration | include/dg/PointerAnalysis/PointerAnalysis.h:105-119 | one round over the queue keeps that account, and the round is recorded node by node |
| PointerAnalyses.PointerAnalysisFI.QueueChanged | include/dg/PointerAnalysis/PointerAnalysis.h:121-137 | the next queue holds exactly what the changed nodes reach, in the order of a breadth-first walk |
| PointerAnalyses.PointerAnalysisFI.PreprocessGeps | include/dg/PointerAnalysis/PointerAnalysisFI.h:20-37 | exactly the gep nodes in loops forget their offsets |
| PointerAnalyses.PointerAnalysisFI.Run | lib/PointerAnalysis/PointerAnalysis.cpp:479-544 | terminates; the rounds are those of the schedule and lead to the result, which lies below every state closed under the processed nodes; every node reachable from the root is at its fixpoint when in some such state writers reach readers; it reports success iff the rounds are within the limit, and after one round more the nodes that wait are emptied |
| PointerProgress.LessIsLeft | lib/PointerAnalysis/PointerAnalysis.cpp:505-522 | every change leaves less of a finite universe |
| NodesWalks.PointerGraph.GetNodes | include/dg/PointerAnalysis/PointerGraph.h:311-368 | exactly the nodes reachable along successors, call and return edges, in breadth-first order |
| NodesWalks.WalkedLeads | include/dg/PointerAnalysis/PointerGraph.h:311-368 | where the walk goes from a node: to the callees of a call and the return sites of a return where there are any, else to the successors |
| PointerMissed.LoadIsMissed | lib/PointerAnalysis/PointerAnalysis.cpp:529-537 | refutes the note: on a program of seven nodes, however the scheduled rounds run, the result misses what a load finds on a run along the edges |
| PointerMissed.SomeSchedule | lib/PointerAnalysis/PointerAnalysis.cpp:505-522 | there is such a schedule: two rounds, of which the first changes only node 4 |
| PointerMissed.RunOnBranch | lib/PointerAnalysis/PointerAnalysis.cpp:479-544 | the analysis itself, started on that program: it finishes and has missed the load |
| PointerSoundness.StepIsCovered | lib/PointerAnalysis/PointerAnalysis.cpp:292-363 | a concrete step of a node at its fixpoint keeps every pointer covered at its exact or the unknown offset |
| PointerSoundness.RunsAreCovered | lib/PointerAnalysis/PointerAnalysis.cpp:292-363 | so do whole runs in any order of the nodes |
| PointerSoundness.CoveredMeans | lib/PointerAnalysis/PointerAnalysis.cpp:479-544 | coverage read off the points-to sets: a variable, or a cell at its offset or the unknown one, holds a pointer to the same object at its offset or the unknown one |
| PointerSoundness.PreprocessedRuns | include/dg/PointerAnalysis/PointerAnalysisFI.h:20-37 | forgetting offsets beforehand loses no run |
| PointerResults.ResultCoversRuns | lib/PointerAnalysis/PointerAnalysis.cpp:479-544 | the result of a settled analysis covers every pointer in every variable and memory cell at every step of every run |
| PostDominance.PDomTotal | include/dg/Dominators/PostDominanceFrontiers.h:32-56 | the post-dominators of a node form a chain |
| PostDominance.LocalFrontier | include/dg/Dominators/PostDominanceFrontiers.h:34-43 | a predecessor is in the frontier iff the block is not its immediate post-dominator |
| PostDominance.UpIsFrontier | include/dg/Dominators/PostDominanceFrontiers.h:45-55 | what passes from a child to its parent is in the frontier of the parent |
| PostDominance.FrontierFromChild | include/dg/Dominators/PostDominanceFrontiers.h:45-55 | every other frontier node comes from a child |
| PostDominanceFrontiersComputation.FoundIff | include/dg/Dominators/PostDominanceFrontiers.h:32-56 | both steps together find exactly the frontier |
| PostDominanceFrontiersComputation.PostDominanceFrontiers.ComputePDFrontiers | include/dg/Dominators/PostDominanceFrontiers.h:32-56 | with exact frontiers of the children the frontier of a block becomes exact |
| PostDominanceFrontiersComputation.PostDominanceFrontiers.WalkTree | include/dg/Dominators/PostDominanceFrontiers.h:61-86 | every block of the tree once, parents before children |
| PostDominanceFrontiersComputation.PostDominanceFrontiers.Compute | include/dg/Dominators/PostDominanceFrontiers.h:59-91 | for X other than Y: Y is in the frontier of X iff X post-dominates a successor of Y and not strictly Y; X is in its own iff it is its own successor; control dependences mirror the frontiers |
| PostDominanceFrontiersComputation.OwnFrontierIsMissed | include/dg/Dominators/PostDominanceFrontiers.h:45-55 | a loop of two blocks whose head belongs to its own frontier and is not found there |
| LoopPlacement.LoopTransformation.CollectLoopBlks | include/dg/Slicing.h:601-622 | exactly the header and what reaches the latch without passing the header |
| LoopPlacement.LoopTransformation.Dominates | include/dg/Slicing.h:652-669 | climbing the tree decides strict dominance |
| LoopPlacement.LoopTransformation.GetBrLoopBlocks | include/dg/Slicing.h:637-677 | the loop of the first back edge to the closest dominator of the branch that has one, if the branch is in it |
| LoopPlacement.LoopTransformation.AddTransactionEndForLoop | include/dg/Slicing.h:287-316 | the closest post-dominator of the pre-header outside the loop; the call is inserted unless the block already bears the slice number |
| LoopPlacement.LoopTransformation.PlaceTransForLoop | include/dg/Slicing.h:421-438 | one transaction per pre-header, started behind the immediate dominator of the header and ended at its first post-dominator outside the loop; all other marks of blocks stay as they are |
| LoopMarks.StartsOnce | include/dg/Slicing.h:421-438 | over any sequence of placements no block is given two starts: the starts are the pre-headers asked for that bore no mark, each once |
| LoopMarks.EndsOnce | include/dg/Slicing.h:287-316 | with one slice number, no block is given two ends, and every block that bears the number afterwards has an end or bore it before |
| LoopTransactions.HeaderDominates | include/dg/Slicing.h:601-622 | the header dominates its loop |
| LoopTransactions.StartDominates | include/dg/Slicing.h:421-438 | the start block strictly dominates every block of the loop |
| LoopTransactions.EndPostDominates | include/dg/Slicing.h:287-316 | the end block strictly post-dominates every block of the loop |
| LoopTransactions.VisitsAreWrapped | include/dg/Slicing.h:287-316 | on a complete path every visit to the loop comes behind the start and before the end |
| LoopTransactions.OpenIff | include/dg/Slicing.h:287-316 | the transaction is open at every visit iff the end block does not lead to the header around the start block |
| LoopExamples.PlaceReopened | include/dg/Slicing.h:287-316 | five blocks: the placed end leads around the start, and the loop is entered with the transaction closed |
| LoopExamples.PlaceWithoutEnd | include/dg/Slicing.h:295-314 | the same blocks: no end is inserted into a block that bears the slice number |
| LoopExamples.PlaceShared | include/dg/Slicing.h:421-438 | two loops with one pre-header, and the first loop again: the second and third placements are skipped, and the transaction of the first ends at its header |
| SummaryEdges.SummaryEdgesComputation.HandleActualOut | lib/llvm/SummaryEdges.cpp:75-84 | continues a path at an actual out over control and summary edges |
| SummaryEdges.SummaryEdgesComputation.HandleGenericEdge | lib/llvm/SummaryEdges.cpp:86-99 | continues a path over control, data and use edges |
| SummaryEdges.SummaryEdgesComputation.HandleFormalIn | lib/llvm/SummaryEdges.cpp:101-130 | adds a summary edge at every call site, also for path edges handled before, and tells whether the formal in is listed in the graph of the formal out and has an actual in at each |
| SummaryEdges.MapsMeans | lib/llvm/SummaryEdges.cpp:101-130 | the summary edges of a path and the success of its lookups, in terms of the lists of actual parameters alone |
| SummaryEdges.SummaryEdgesComputation.ComputeSummaryEdges | lib/llvm/SummaryEdges.cpp:133-147 | on every graph: terminates with the least path and summary edges closed under the four rules, and tells whether every lookup of an actual in succeeded |
| SummaryEdges.PathEdgesArePaths | lib/llvm/SummaryEdges.cpp:20-34 | path edges are the ends of backward paths to formal outs |
| SummaryEdges.SummariesArePaths | lib/llvm/SummaryEdges.cpp:101-130 | a new summary edge is there iff a backward path joins the formal parameters of its call site |
| SummaryEdges.LookupsSucceedIff | lib/llvm/SummaryEdges.cpp:116-120 | the asserted lookups succeed iff every backward path from a formal in to a formal out joins parameters of which the first is listed in the graph of the second with an actual one at all its call sites |
| SummaryEdges.LookupsCertified | lib/llvm/SummaryEdges.cpp:116-120 | on the graph alone: they succeed iff some path and summary edges that are closed under the rules hold only edges whose parameters are found |
| SummaryEdges.IntraproceduralFinds | lib/llvm/SummaryEdges.cpp:116-120 | they do when dependences stay in their procedures and the parameters of a procedure have the same call sites |
| SummaryEdges.LookupFails | lib/llvm/SummaryEdges.cpp:116-120 | a graph with the control edge from a call to the entry of the callee, on which a lookup fails |
| DecisiveOrder.Find | lib/ControlDependence/DOD.h:303-321 | the last node of one colour up to the first of the other |
| DecisiveOrder.DodIff | lib/ControlDependence/DOD.h:342-364 | with the colours on two arcs the pairs are one node of each arc |
| DecisiveOrder.NoDod | lib/ControlDependence/DOD.h:344-348 | if the colours do not separate no pair exists |
| DecisiveOrder.DOD.ConstructTernaryRelation | lib/ControlDependence/DOD.h:368-396 | all pairs of the two arcs, and the dependences of their nodes |
| DecisiveOrder.DOD.ConstructBinaryRelation | lib/ControlDependence/DOD.h:398-424 | the same dependences without forming pairs |
| DecisiveOrder.DOD.ComputeDOD | lib/ControlDependence/DOD.h:323-366 | exactly the pairs x, y with x before y from every blue node and y before x from every red one; both relations record the same nodes |
| BlockSplitting.PiecesPath | include/dg/ReadWriteGraph/RWBBlock.h:92-116 | the pieces form a path that executes what the block did |
| BlockSplitting.Expand | include/dg/ReadWriteGraph/RWBBlock.h:38-120 | every old path is a new path with the same nodes |
| BlockSplitting.Contract | include/dg/ReadWriteGraph/RWBBlock.h:38-120 | every new path from an old block executes the beginning of an old one |
| BlockSplitting.SplitExecutes | include/dg/ReadWriteGraph/RWBBlock.h:38-120 | splitting keeps the node sequences along paths from every old block |
| BlockSplitting.SplitCompletes | include/dg/ReadWriteGraph/RWBBlock.h:38-120 | and so for paths that end in a block without successors: whole executions stay the same |
| ReadWriteGraph.SplitKeepsInverse | include/dg/ReadWriteGraph/RWBBlock.h:92-116 | predecessor and successor lists stay inverse and free of duplicates |
| ReadWriteGraph.RWSubgraph.SplitAround | include/dg/ReadWriteGraph/RWBBlock.h:38-120 | the nodes before, the node and the nodes behind it, each in its own block |
| ReadWriteGraph.RWSubgraph.SplitBlockOnFirstCall | lib/ReadWriteGraph/ReadWriteGraph.cpp:103-126 | a block without calls is left as it is, and one with calls becomes exactly the blocks in front of, of and behind its first call, unless it is that call alone |
| ReadWriteGraph.RWSubgraph.SplitBlockOnCalls | lib/ReadWriteGraph/ReadWriteGraph.cpp:128-143 | a block is cut at all its calls, and no other block changes |
| BlockChains.CutIsWhole | lib/ReadWriteGraph/ReadWriteGraph.cpp:103-143 | the pieces of a block, one behind the other, are its nodes; it is one piece iff it is a single node or has no call |
| BlockChains.CutAlternates | lib/ReadWriteGraph/ReadWriteGraph.cpp:103-143 | of two pieces in a row one is a single call, and a piece with a call is that call |
| BlockChains.CutOfPiece | lib/ReadWriteGraph/ReadWriteGraph.cpp:128-143 | cutting what lies behind the first call goes on with the cut of the whole |
| BlockChains.SplitChains | lib/ReadWriteGraph/ReadWriteGraph.cpp:103-126 | splitting the last piece of a chain at its first call makes a chain of the pieces so far |
| ReadWriteGraph.RWSubgraph.SplitBBlocksOnCalls | lib/ReadWriteGraph/ReadWriteGraph.cpp:128-155 | every block becomes the chain of its pieces: one block as before if it has no call, else single calls and stretches between them, never two stretches in a row, linked in order, the last with the successors of the block; every call is alone in its block, the same is executed, to the end and on the way, and the old blocks come first |
| BinarySearch.RoundStep | samples/bsearch.c:71-79 | one comparison of the double loop keeps the round invariant |
| BinarySearch.SortArray | samples/bsearch.c:69-80 | the double loop sorts, by swaps only |
| BinarySearch.Bsearch | samples/bsearch.c:31-48 | a position of the key iff the sorted array holds it |

## Left out

* LLVM instructions, call insertion, debug output, option parsing and everything under tools/ are input or output.
* MemorySSA: calls and interprocedural phis, writes and reads of unknown memory, and computing all definitions at once; a program is what one procedure without calls is.
* MemorySSA: `Definitions` are values held in fields, and the vectors of found definitions are sets, so their order and repetitions are not kept.
- MemorySSA.MemorySSATransformation.GetDefinitions: for accesses that are not pairwise equal or disjoint (an access at the unknown offset is one to all bytes) no definition is missed unless a phi claimed bytes behind its site, as in `DefinitionIsMissed`; that an answer holds nothing else is stated for uses behind no join, because a phi stands for all bytes of its site and chains of phis may lead to definitions of other bytes than the use has; what a phi may hold is bounded byte by byte (`JustifyingAtEnd`).
- DisjunctiveIntervals.DisjunctiveIntervalMap.SplitExtBorders: the interval does not start at the unknown offset nor end right before it (see `ValidIff`), and no entry does.
- DisjunctiveIntervals.DisjunctiveIntervalMap.AddOrUpdate: the same intervals.
- DisjunctiveIntervals.DisjunctiveIntervalMap.Uncovered: the same intervals.
- MemoryDefinitions.Put: accesses do not end right before the unknown offset; the same holds for Get, UndefinedIntervals and Update.
- DisjunctiveIntervals.DisjunctiveIntervalMap.Gather: the map is not empty, because the source dereferences the end of an empty one.
- CounterSearchRuns.CounterSearch: every node has fewer than 65536 successors, as the unsigned short counters need; wider nodes would start with a wrapped counter.
- ControlClosures.StrongControlClosure.CloseSet: that the result is the least closure is stated under a condition that is sufficient; what is added after a search that is not exact depends on the order in which nodes are found.
- NTSCD2s.NTSCD2.Compute: a fresh object is used for each graph; colours left from another graph are not modelled.
- PointerAnalyses.PointerAnalysisFI.Run: the fixpoint is stated when in some closed larger state every writer reaches its readers; graphs that grow during the run (hooks for function pointers, fork and join) and a limit on iterations that is reached make no such promise.
- PointerAnalyses.PointerAnalysisFI.ProcessNode: null pointers are not part of coverage; what becomes of them is stated node by node (load, store, cast, phi, call return, memcpy); nodes that only invalidate memory do nothing, and targets are allocations, functions or the special nodes.
- LoopTransactions.OpenIff: blocks are atomic; the instruction inside a block at which a call is inserted is not modelled, nor is the choice of branches for single accesses.
- SummaryEdges.SummaryEdgesComputation.HandleFormalIn: the class of formal parameters with its map to actual ones is not part of the repository and is a map here; where the source asserts that an actual in is found, the model goes on with the other call sites and reports the failure.
- DecisiveOrder.DOD.ComputeDOD: starts from a given coloured cycle; building it from the graph inherits the counter search.
- ReadWriteGraph.RWSubgraph.SplitAround: a node's pointer back to its block is not kept.
- BinarySearch.Bsearch: the difference of key and elements fits into an int, and the array has at most 2147483647 elements; the random filling of the array is left out.
- PointerPrecision.RulesAreReal: copies are not of length zero, as the source asserts, and the operands of stores and copies are different nodes, because a variable holds one address at a time and the analysis pairs any two of its pointers; null and unknown pointers are not part of the machine.
* Dominator and post-dominator trees are correct inputs.
* The flow-sensitive and invalidating pointer analyses, graph optimizations, the legacy walks, NTSCDRanganath, DODRanganath and AllMaxPath would repeat what is here or are documented as imprecise.
