# arch-explorer, modelled and verified in Dafny

arch-explorer analyses a traced out-of-order processor run, finds out which resource the run waited for, and
explores a space of microarchitectures by growing those resources. This project models its algorithmic core and
proves properties of every trace, every interleaving, every run and every input.

- **Dependence graph** (`Trace`, `Deg`, `Interactions`, `VirtualEdges`, `GraphModel`). Each traced instruction
  becomes a chain of stage nodes, some of them merged. Eight rules add dependences between instructions, and worker
  threads add free virtual links. Class `Graph` has the fields and methods of the original; its methods are proved
  against the value functions of `Deg`, `Interactions` and `VirtualEdges`.
- **Critical path** (`LongestPath`, `Gains`, `Splicing`, `CriticalPath`, `Greedy`, `Report`, `Text`). The dynamic
  program over a topological order, backtracking, splicing to source and sink, charging every cycle to a bottleneck,
  the greedy heuristic, and the report with its reader.
- **Exploration** (`Components`, `Design`, `Exploration`, `ExplorationEngine`). Lookup tables read from a sheet,
  in-place stepping of an embedding, sensitive components that record, terminate and fall back, and the loop.
  `Exploration` says which design a history prescribes; the classes of `ExplorationEngine` are proved to follow it.
- **Baselines** (`Growth`, `Cart`, `ArchRanker`, `Stump`). Best-first against depth-first tree growth, batch
  prediction, rank insertion, two threshold searches, and the decision stump.

`Bottlenecks` and `Sorting` hold shared definitions. `dafny verify dfyconfig.toml` checks everything.

## Main results

- `GraphModel.Analyse`: from any well-formed trace, under any schedule of the virtual links, the final graph is valid
  and is the trace's own graph with free links, the path is critical in the induced graph, every counter holds exactly
  the path's charges, they add up to last commit minus first fetch, and the text is the report of that path and reads
  back as exactly those counters. There is no report exactly when no path from a root has a positive cost; with
  non-negative waits, exactly when no dependence of the trace costs anything. A trace of one instruction never has one
  (`GraphModel.OneInstructionNoReport`).
- `GraphModel.AnalysedContributionsSumToOne`: whatever benchmarks are analysed, under whatever schedules, the average
  contributions read back from their reports add up to exactly 1.
- `LongestPath.DistanceIsMaximum`, `Splicing.SplicedOptimal`: the dynamic program is optimal, and so is the path
  spliced onto source and sink in the graph that includes the links added for it.
- `VirtualEdges.InducedGraphAgrees`, `VirtualEdges.RunKeepsValid`, `LongestPath.KeysIncrease`: the induced graph
  depends only on the set of requests, and any run of any of them keeps the graph valid, hence acyclic.
- `ExplorationEngine.Engine.Explore`, `Exploration.RoundsTrackHistory`, `Exploration.NextReachable`: a whole run
  follows its history, never leaves the tables, and each component terminates exactly in the first round whose share
  exceeds a non-zero mean of all earlier ones.
- `Growth.BestFirst`, `Cart.BuiltLeavesPartition`: the sorted worklist with its shortcut builds the tree that recursion
  builds, and its leaves hold exactly the rows routed to them and partition the training rows.
- `Exploration.RaiseIsPrefix`, `Exploration.CutIsFirst`: a round treats exactly a prefix of the ranked bottlenecks.
- `Stump.Fit`, `ArchRanker.RankDesigns`: optimality over all thresholds with samples on both sides, and exactly when it
  extends to every threshold (`Stump.BestOverallIff`); order facts for any comparison.

Properties that hold only under a condition are stated as equivalences, each with an input that fails:
`Deg.ChainDelaysExactIff` (`Deg.LateStoreInexact`), `Deg.LoadMissChargedIff` (`Deg.LateLoadUncharged`),
`Interactions.RawSearchFindsYoungestIff` (`Interactions.RawSearchMisses`), `Design.ChoiceStepSafeIff`
(`Design.ChoiceCoverage`), `Exploration.FallbackRestoresIff` (`Exploration.FallbackKeepsReturnStack`) and
`Stump.BestOverallIff` (`Stump.MarkingAllWins`).

## Model

| member | source | states |
|---|---|---|
| `Deg.ModelNodesExact` | algo/core/model.py:484-604 | the nodes built for an instruction are exactly the stages it owns, merged ones included, each at its logged cycle |
| `Deg.ModelEdgesSound` | algo/core/model.py:606-859 | every edge built for an instruction links an owned stage to the next one, with that link's delay and cause |
| `Deg.ModelEdgesComplete` | algo/core/model.py:606-859 | every link of the stage chain is built |
| `Deg.ChainDelaysExactIff` | algo/core/model.py:606-859 | all chain delays equal the time between their nodes if and only if a merged memory node's instruction completes at its memory cycle |
| `Deg.LateStoreInexact` | algo/core/model.py:606-859 | a store that completes after its memory cycle has an inexact delay |
| `Deg.LoadMissChargedIff` | algo/core/model.py:606-859 | a load has an edge charged to the data cache if and only if its access is an edge of its own, out of Memory or out of a merged dispatch and issue, and does not take a hit's time |
| `Deg.LateLoadUncharged` | algo/core/model.py:606-859 | a well-formed load of 93 cycles of which none is charged to the data cache |
| `Deg.LookupResolves` | algo/core/model.py:360-392 | looking up a stage of a traced instruction finds the node standing for it, merged or not |
| `Deg.ModelKeepsValid` | algo/core/model.py:484-859 | adding an instruction's nodes and edges keeps the graph invariant |
| `Deg.PutKeepsValid` | algo/core/model.py:422-446 | adding or overwriting a good edge keeps the graph invariant |
| `Deg.SourceAndSinkBound` | algo/core/model.py:484-604 | every node lies between source and sink in key order |
| `Deg.EndTimes` | algo/core/model.py:484-604 | source and sink carry the first fetch and the last commit time |
| `Interactions.YoungestIsLatest` | algo/core/model.py:899-920 | the first match in the front-inserted buffer has the greatest sequence number of all matches |
| `Interactions.RawSearchFindsYoungestIff` | algo/core/model.py:1081-1139 | the nested search with its shared index finds the youngest producer if and only if there is none, or the window is non-empty and that producer's result time is positive |
| `Interactions.RawSearchMisses` | algo/core/model.py:1081-1139 | an only producer without a positive result time is not found |
| `Interactions.DependenceSound` | algo/core/model.py:878-1139 | every dependence starts at a strictly earlier instruction, joins existing nodes and spans the exact time |
| `Interactions.RuleKeepsValid` | algo/core/model.py:878-1139 | each of the eight rules keeps the graph invariant |
| `Interactions.InteractedKeepsValid` | algo/core/model.py:1141-1169 | so do all rules in order, overwriting included |
| `Interactions.TraceGraphValid` | algo/core/model.py:484-1181 | reading any well-formed trace ends in a valid graph |
| `VirtualEdges.AddAllIs` | algo/core/model.py:1183-1200 | a run of requests adds exactly the requested pairs that were absent, and changes no other edge |
| `VirtualEdges.RunsAgree` | algo/core/model.py:1477-1518 | two runs with the same set of requests give the same edges |
| `VirtualEdges.InterleavingsAgree` | algo/core/model.py:1183-1200 | any interleaving of requests that agree on each pair of names gives the edges that running the threads one by one gives |
| `VirtualEdges.InducedGraphAgrees` | algo/core/model.py:1477-1518 | the induced graph is the same for every interleaving of its threads |
| `VirtualEdges.AddVirtualKeepsValid` | algo/core/model.py:1183-1200 | one admissible link keeps the invariant: keys increase, delays are exact |
| `VirtualEdges.RunKeepsValid` | algo/core/model.py:1327-1475 | every prefix of every run of admissible links keeps the invariant |
| `VirtualEdges.VirtualsAreFree` | algo/core/model.py:1183-1200 | virtual links cost nothing and replace nothing |
| `VirtualEdges.RunGrows` | algo/core/model.py:1183-1200 | after any run of requests the graph is the old one with free virtual links |
| `VirtualEdges.ThreadsAdmissible` | algo/core/model.py:1327-1518 | everything the workers and the head and tail rules ask for is admissible |
| `VirtualEdges.SeqScanNearest` | algo/core/model.py:1327-1343 | the suffix scan finds a start of least sequence number among all later edges of the whole list, and comes back empty only if there is none |
| `LongestPath.KeysIncrease` | algo/core/model.py:1522-1526 | along any path of a valid graph the key strictly increases: the graph is acyclic |
| `LongestPath.TopologicalSort` | algo/core/model.py:1525 | a topological order exists for every such graph |
| `LongestPath.ComputeDistances` | algo/core/model.py:1522-1534 | over any topological order, every node gets the best predecessor's distance plus the edge cost, and no predecessor offers a greater pair of length and name |
| `LongestPath.Backtrack` | algo/core/model.py:1535-1540 | the loop terminates, rebuilds a trail of predecessors ending at the given node, starts it at distance 0 or less, and finds nothing exactly when the distance is not positive |
| `LongestPath.Farthest` | algo/core/model.py:1535 | the chosen node is the first in order with a greatest pair of distance and predecessor name |
| `LongestPath.DistanceIsMaximum` | algo/core/model.py:1522-1534 | a node's distance is attained by a path and bounds every path ending there, from any start if costs are non-negative and from any root otherwise |
| `Gains.TrailCost` | algo/core/model.py:1535-1540 | with non-negative costs the rebuilt trail costs exactly the distance |
| `Gains.PositiveDistanceIff` | algo/core/model.py:1535-1540 | some distance is positive if and only if some edge costs something |
| `Gains.TrailIsBest` | algo/core/model.py:1535-1540 | whatever the signs of the costs, the rebuilt trail costs something and at least as much as any path from a root |
| `Gains.NoGainIff` | algo/core/model.py:1535-1540 | no distance is positive if and only if no path from a root has a positive cost |
| `Gains.FreeIffNoGain` | algo/core/model.py:1535-1540 | with non-negative costs that is exactly when no edge costs anything |
| `Splicing.FindPath` | algo/core/model.py:1548-1556 | a shortest path is found exactly when there is a path |
| `Splicing.JoinedPath` | algo/core/model.py:1548-1576 | head, trail and tail join to one source-to-sink path whose only costs are the trail's |
| `Splicing.SplicedOptimal` | algo/core/model.py:1548-1576 | the spliced path is optimal in the graph extended by its links, and its spliced-on parts are free |
| `CriticalPath.SpliceHead` | algo/core/model.py:1548-1562 | the head is a shortest path from the source, and a free link is added exactly when there was no path |
| `CriticalPath.SpliceTail` | algo/core/model.py:1564-1575 | the tail is a shortest path to the sink, and a free link is added exactly when there was no path |
| `CriticalPath.Splice` | algo/core/model.py:1543-1576 | the final graph is the old one with exactly those links, is valid, and holds the spliced path: a shortest way from the source, a section of the old graph that no root path there beats, a shortest way to the sink; with non-negative costs no path of the final graph costs more than the whole |
| `CriticalPath.DagLongestPath` | algo/core/model.py:1522-1540 | a longest trail, and none exactly when no path from a root has a positive cost |
| `CriticalPath.FindCriticalPath` | algo/core/model.py:1520-1576 | the two together, in every case |
| `CriticalPath.ChargeOneMore` | algo/core/model.py:1590-1601 | charging one more edge keeps counters equal to the path's charges and their total equal to the time spanned |
| `CriticalPath.Concludes` | algo/core/model.py:1603-1628 | the induced graph comes from the scheduled requests, the final graph is valid and adds only free links to the starting one, the path is critical, the counters are its exact charges and add up to sink minus source |
| `Greedy.SelectEdge` | algo/core/model.py:1225-1262 | an edge is kept unless it overlaps a kept one in sequence or time |
| `Greedy.SelectEdges` | algo/core/model.py:1215-1274 | kept edges are pairwise apart, and each rejected one overlaps a kept edge of at least its delay |
| `Greedy.SortedLeavesGaps` | algo/core/model.py:1283-1297 | sorted by start, one kept edge ends no later than the next begins, so the error branch is dead |
| `Greedy.PermutedCompatible` | algo/core/model.py:1275-1282 | sorting keeps the selection pairwise apart |
| `GraphModel.Graph.Model` | algo/core/model.py:484-859 | the in-place construction equals the value functions and keeps the invariant |
| `GraphModel.Graph.NodeVia` | algo/core/model.py:360-392 | returns the node standing for the stage |
| `GraphModel.Graph.FindYoungest` | algo/core/model.py:899-1079 | the buffer loop returns the first match |
| `GraphModel.Graph.ModelMissBpInteraction` | algo/core/model.py:878-897 | adds exactly the branch rule's edge |
| `GraphModel.Graph.ModelRobInteraction` | algo/core/model.py:899-920 | adds exactly the reorder buffer rule's edge |
| `GraphModel.Graph.ModelLqInteraction` | algo/core/model.py:922-942 | adds exactly the load queue rule's edge |
| `GraphModel.Graph.ModelSqInteraction` | algo/core/model.py:944-964 | adds exactly the store queue rule's edge |
| `GraphModel.Graph.ModelRfInteraction` | algo/core/model.py:983-1017 | adds exactly the register file rule's edge |
| `GraphModel.Graph.ModelIqInteraction` | algo/core/model.py:1019-1037 | adds exactly the issue queue rule's edge |
| `GraphModel.Graph.ModelFuInteraction` | algo/core/model.py:1039-1079 | adds exactly the functional unit rule's edge |
| `GraphModel.Graph.FindProducer` | algo/core/model.py:1081-1139 | the nested loops with a shared index terminate and compute the search function |
| `GraphModel.Graph.ModelRawInteraction` | algo/core/model.py:1081-1139 | adds exactly the RAW rule's edge |
| `GraphModel.Graph.ModelInteraction` | algo/core/model.py:1141-1181 | all rules in order |
| `GraphModel.Graph.ReadTrace` | algo/core/deg.py:53-69 | reading a whole trace yields the trace's nodes, edges and buffer, and a valid graph |
| `GraphModel.Graph.AddVirtualEdge` | algo/core/model.py:1183-1200 | adds the link unless both ends agree in sequence number and timestamp or an edge between them exists |
| `GraphModel.Graph.AddVirtualEdgeViaSeqImpl` | algo/core/model.py:1327-1339 | a worker performs exactly its requests |
| `GraphModel.Graph.AddVirtualEdgeViaTimestampImpl` | algo/core/model.py:1375-1413 | a worker performs exactly its requests, the equal-timestamp run included |
| `GraphModel.Graph.SkewEdges` | algo/core/model.py:1477-1490 | exactly the cross-instruction edges, each once |
| `GraphModel.Graph.ConstructInducedGraph` | algo/core/model.py:1477-1518 | the edges after any schedule of the threads' requests, and the invariant |
| `GraphModel.Graph.ChargePath` | algo/core/model.py:1590-1601 | every counter grows by exactly its charges along the path, and in total by the time the path spans |
| `GraphModel.Graph.LongestPath` | algo/core/model.py:1578-1601 | the critical path is found, kept and charged over any topological order |
| `GraphModel.Graph.ConstructCriticalPathV2` | algo/core/model.py:1603-1628 | under any schedule, all conclusions about the graph it started from, with the edges, path and counters the object ends up with |
| `GraphModel.Graph.ConstructCriticalPathV1` | algo/core/model.py:1203-1297 | the kept edges are sorted, apart and maximal in the greedy sense, and exactly the bridges between them are added |
| `GraphModel.Graph.GenerateReport` | algo/core/model.py:1630-1668 | given a path whose charges add up to the time from source to sink, the text is the report of that path and its counters; there is none exactly when there is no path |
| `GraphModel.Graph.Conclude` | algo/core/deg.py:53-69 | the report's own assertion always holds: counters add up to the time from source to sink, whatever the schedule; the text is the report of that path and those counters |
| `GraphModel.Analyse` | algo/core/deg.py:53-69 | from trace to report, end to end: the conclusions about the graph of the trace, and the text as the report of that path and those counters |
| `GraphModel.NoWaitsNoReport` | algo/core/model.py:1520-1576 | where no instruction waits for an earlier one, every edge is free and there is no report |
| `GraphModel.OneInstructionNoReport` | algo/core/model.py:1520-1576 | a trace of one instruction has only free edges and never a report |
| `GraphModel.AnalysedContributionsSumToOne` | algo/dse.py:1168-1231 | the average contributions read from the reports of any analysed traces add up to exactly 1, if none took no time |
| `Report.LabelsDistinct` | algo/core/arch_bottleneck.py:103-150 | labels name their bottlenecks uniquely |
| `Report.LabelPlain` | algo/dse.py:1218-1231 | no label holds a colon or a line break, which splitting a counter line relies on |
| `Report.RoundTrip` | algo/dse.py:1218-1231 | reading a printed report recovers the length and every counter, whatever the path lines say |
| `Report.ReportReads` | algo/core/model.py:1648-1667 | a report of all counters reads back as exactly its length and those counters by label |
| `Report.CalcContribution` | algo/dse.py:1168-1200 | the average share of every bottleneck over the benchmarks |
| `Report.ContributionsSumToOne` | algo/dse.py:1168-1200 | average contributions add up to exactly 1 when each benchmark's counters add up to its length |
| `Text.ReadIntOfShow` | algo/dse.py:1222-1227 | reading a printed integer returns it |
| `Text.ReadLinesOfUnlines` | algo/dse.py:1221 | splitting printed lines returns them |
| `Components.GroupColumns` | funcs/design/design_space.py:83-95 | the header loop cuts the columns into consecutive titled runs, and fails exactly on an empty header or an untitled first column |
| `Components.GroupingUnique` | funcs/design/design_space.py:83-95 | a header has only one such cut |
| `Components.ReadTable` | funcs/design/design_space.py:97-110 | keys 1 to n, where n is the last filled row of the title column, each with that row's candidate cells |
| `Components.ParseComponents` | funcs/design/design_space.py:74-111 | one such table for each group and none besides, and exactly when it fails |
| `Components.LookUp` | algo/dse.py:604-609 | the first row that starts with the value or -1, and when it fails; over a numeric column the look-up that stepping uses; the key count minus one is the row count |
| `Components.StepRead` | algo/dse.py:604-763 | on a parsed sheet of numbers, looking a value up and reading row idx + 1 or idx - 1 is exactly a step through the component's candidate values, missing rows included |
| `Design.ChoiceStepSafeIff` | algo/dse.py:685-763 | stepping the choice predictor through the global table neither misses nor leaves the choice table if and only if the global table covers it |
| `Design.ChoiceCoverage` | algo/dse.py:685-763 | equal tables cover each other; a global table one row short does not |
| `Design.OwnTableSafe` | algo/dse.py:611-1001 | stepping through one's own table is always safe |
| `Design.KnobsFit` | algo/dse.py:611-1001 | every coordinate of a resource belongs to it and is stepped through its own table, except the choice predictor |
| `Design.AdjustedInTable` | algo/dse.py:611-1001 | adjusting a resource keeps the design in its tables and the three fixed coordinates unchanged |
| `Design.AdjustedElsewhere` | algo/dse.py:611-1001 | adjusting a resource changes no other resource |
| `Exploration.MeanRises` | algo/dse.py:46-55 | a mean rises exactly when the new value is above it |
| `Exploration.RoundsTrackHistory` | algo/dse.py:43-62 | after any history: terminated exactly if some round exceeded a non-zero mean of all before it, with the measurements up to the first such round; until then `last` is the running mean |
| `Exploration.KeptGrows` | algo/dse.py:149-169 | later rounds change neither the stopping round nor the measurements kept |
| `Exploration.StoppedStays` | algo/dse.py:46-55 | the kept mean stays above the non-zero mean it is compared with, so re-evaluating a terminated component every round leaves it as it is |
| `Exploration.RaiseLimit` | algo/dse.py:1003-1057 | no more than top-k resources are raised in a round |
| `Exploration.RaiseIsPrefix` | algo/dse.py:1003-1057 | exactly a prefix of the ranked bottlenecks is treated, each as if it were alone, and nothing else changes |
| `Exploration.CutIsFirst` | algo/dse.py:1003-1057 | the prefix ends where the moves in it, judged on the design the round started from, first reach top-k, or at the end |
| `Exploration.RaiseAt` | algo/dse.py:1003-1057 | each coordinate stays, takes one step up, or takes its component's recorded value |
| `Exploration.LowerIs` | algo/dse.py:1102-1152 | each sampled resource takes one step down as if it were alone, and nothing else changes |
| `Exploration.LowerLimit` | algo/dse.py:1102-1152 | no more than top-k resources are lowered in a round |
| `Exploration.FallbackRestoresIff` | algo/dse.py:65-126 | falling back to a recorded design restores the whole resource if and only if it is a cache, or return stack and target buffer have not changed since |
| `Exploration.FallbackKeepsReturnStack` | algo/dse.py:65-84 | a return stack that has grown since stays grown |
| `Exploration.ContributorsNotLowered` | algo/dse.py:1102-1152 | a resource with a non-zero share is never lowered: each of its coordinates stays, takes one step up or takes a recorded value |
| `Exploration.NextReachable` | algo/dse.py:1154-1165 | the next design stays in its tables with the fixed coordinates of the start |
| `ExplorationEngine.MeasureDone` | algo/dse.py:149-169 | measuring brings configurations and measurements of a component into lockstep, entry by entry of the same design |
| `ExplorationEngine.RecordReady` | algo/dse.py:141-147 | recording the next design puts configurations one ahead until termination |
| `ExplorationEngine.FallbackIs` | algo/dse.py:74-84 | the assertion before a fallback never fails, and it restores the least measured configuration |
| `ExplorationEngine.SensitiveComponent.UpdateTerminate` | algo/dse.py:46-55 | performs the gauge's termination step |
| `ExplorationEngine.SensitiveComponent.Fallback` | algo/dse.py:74-126 | writes the first least measured configuration back, coordinate by coordinate |
| `ExplorationEngine.SensitiveComponentManager.SetConfig` | algo/dse.py:141-147 | every component is ready for the recorded design |
| `ExplorationEngine.SensitiveComponentManager.Start` | algo/dse.py:178-183 | resetting forgets everything before the first design is recorded |
| `ExplorationEngine.Engine.AdjustCoordinate` | algo/dse.py:611-1001 | one coordinate moves to the next row, which is always there |
| `ExplorationEngine.Engine.Adjust` | algo/dse.py:611-1001 | all coordinates of a resource by one row, and whether any moved |
| `ExplorationEngine.Engine.IncreaseHardwareResource` | algo/dse.py:1003-1057 | raises top-k resources, terminated components falling back instead |
| `ExplorationEngine.Engine.DecreaseHardwareResource` | algo/dse.py:1102-1152 | lowers the sampled resources |
| `ExplorationEngine.Engine.BottleneckAnalysis` | algo/dse.py:1242-1244 | the next design is the one the history prescribes |
| `ExplorationEngine.Engine.Explore` | algo/dse.py:1246-1297 | a run follows its history, stops at the first round that calls for it or when the budget is spent, and returns the best |
| `ExplorationEngine.BestIsFirstMaximum` | algo/dse.py:1281-1286 | the solution is the first design with the greatest metric, and there is none exactly when no metric is positive |
| `Growth.FinishedIsGrown` | baseline/adaboost/decision_tree.py:61-100 | a sound store with an empty worklist represents the recursively grown tree |
| `Growth.Pop` | baseline/adaboost/decision_tree.py:69-82 | one pass keeps the worklist sound and sorted and leaves less to do |
| `Growth.BestFirst` | baseline/adaboost/decision_tree.py:61-84 | best-first growth terminates; its node objects hold what recursion visits and form exactly one tree, that of depth-first growth |
| `Growth.RestIsSmall` | baseline/adaboost/decision_tree.py:72-74 | when the head gains too little, so does everything behind it |
| `Cart.BestSplitIsBest` | baseline/adaboost/decision_tree.py:151-186 | no feature and no value it takes gives a greater decrease, whatever order the values come in |
| `Cart.FindBestSplit` | baseline/adaboost/decision_tree.py:151-186 | the nested loops compute that split |
| `Cart.SplitShrinks` | baseline/adaboost/decision_tree.py:105-115 | an expanded node has two non-empty, strictly smaller children that share its rows out |
| `Cart.BuildBestFirstTree` | baseline/adaboost/decision_tree.py:61-100 | the same for regression trees, from any training rows with vectors of targets |
| `Cart.RetrieveIsRoute` | baseline/adaboost/decision_tree.py:231-259 | batch prediction by masks equals routing each row alone, for leaves of any type |
| `Cart.TrainingRowsGetLeafMean` | baseline/adaboost/decision_tree.py:33-36 | every training row is predicted the mean target, entry by entry, of exactly the training rows in its leaf |
| `Cart.LeafHoldsItsRows` | baseline/adaboost/decision_tree.py:33-36 | a leaf's node object holds exactly the training rows routed to it, and their mean |
| `Cart.BuiltLeavesPartition` | baseline/adaboost/decision_tree.py:61-115 | the leaves of a built tree together hold every training row exactly as often as it occurs |
| `ArchRanker.RankDesigns` | baseline/archranker/archranker.py:208-230 | for any predictions the list holds every design once and neighbours agree with them |
| `ArchRanker.AgreesSorts` | baseline/archranker/archranker.py:208-230 | where any two designs compare and comparisons chain, the whole list is sorted |
| `ArchRanker.Search.ForPowerAndArea` | baseline/archranker/archranker.py:119-153 | always returns, at most log2(n + 1) - 1 simulations, what was simulated, a single design never; along a rising metric the slice meets the threshold and holds at least half of what does |
| `ArchRanker.Search.ForPerf` | baseline/archranker/archranker.py:156-186 | the same towards the other end, with at most log2(n) simulations |
| `Stump.Fit` | baseline/archranker/rankboost.py:25-50 | the value is the signed weight of what the stump marks, its threshold is a boundary between samples, and no feature, direction or real threshold with samples on both sides gives more |
| `Stump.CutGain` | baseline/archranker/rankboost.py:53-59 | at a boundary, what the two directions mark weighs the running sum and the rest of the total |
| `Stump.DirectionsAddUp` | baseline/archranker/rankboost.py:41-50 | what a rule and its reverse mark adds up to the total weight |
| `Stump.BestOverallIff` | baseline/archranker/rankboost.py:25-50 | the stump is best over every threshold whatsoever if and only if there is no feature, the total weight is not positive, or some boundary rule marks samples of no positive weight |
| `Stump.MarkingAllWins` | baseline/archranker/rankboost.py:25-50 | on one positive sample no stump is found, its value is 0, and marking that sample gains 1 |

## Where code and documentation differ

The model follows the code.

- The choice predictor is looked up in its own table and stepped through the global predictor's.
- Falling back restores three of the five coordinates that are adjusted for the branch predictor
  (`Exploration.FallbackRestoresIff`).
- A load that issues in a cycle of its own and returns at once is charged to Base, whatever its latency
  (`Deg.LoadMissChargedIff`).
- The inner loop of the RAW search never reloads its instruction, so a producer without a positive result time is
  skipped together with the window behind it.
- A single design returned by a threshold search was never simulated.

## Left out

- Thread timing: inner threads are never joined in the source; a schedule may reorder and lose requests, but all requests that take effect do so before the path is sought.
- The inner loop of the timestamp head rule, which reads an unbound name; losing its requests is one of the schedules.
- GraphModel.Graph.ConstructCriticalPathV1: acyclicity is not claimed, because its bridges may go backward within one instruction.
- VirtualEdges.SeqScanNearest: no such claim for the timestamp scan, where equal timestamps earlier in the list break it.
- CriticalPath.FindCriticalPath: splicing is modelled on values and then written to the object, so update in place is not captured inside it.
- LongestPath.TopologicalSort: stands in for the library's order; the theorems hold for every topological order. Among shortest paths of equal length, Splicing.FindPath may return another one than the library.
- Critical and virtual flags, drawing, access statistics, trace parsing and rounding of ticks: plumbing.
- Text: digit separators in integers are not read.
- ExplorationEngine.Engine.Explore: power and area are taken as positive, since the metric divides by their product before failure is noticed; simulation, profile and random sampling are function parameters; indices of designs are not modelled, only their embeddings.
- ExplorationEngine.SensitiveComponent: one class with the cause as a field stands for the three subclasses, which differ only in their coordinates.
- Generated starting points and the conversion between index and embedding.
- Components.ParseComponents: column titles are taken as distinct, which data frames guarantee; reading the spreadsheet and the design sheet is not modelled.
- Growth.BestFirst: node objects are a store addressed by path, so aliasing is not captured; the cap on leaf nodes and random feature subsets are not modelled.
- Cart.TrainingRowsGetLeafMean: a target is a vector; where the source holds a plain number, it is a vector of one entry.
- Cart.FindBestSplit: a split whose total weight is zero, where the source computes NaN, counts as no decrease; the order of a set's values is a parameter.
- Stump.Fit: weights and features are real numbers; argsort is any sorting permutation.
- Rank boosting weights, AdaBoost.RT, Gaussian processes, randomised designs, hypervolume, MLPs: floating-point numerics or library calls.
- McPAT sources, simulator drivers, settings, logging and figures.
