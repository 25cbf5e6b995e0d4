# Shingan in Dafny

Shingan reads an LLM workflow as a directed graph and reports what is wrong with it. This project models the parts of it
whose correctness is not visible in any single function: the graph searches behind the rules, the orchestrator that runs
rules concurrently and still promises a stable report, the worker pool and the line protocol of the Python subprocess, the
n8n parser's entry synthesis, baselines that survive changed numbers, and the capped schema walk. For each part it states
what the search, the schedule or the transformation means, and proves that the code does that for every input, every run
and every map iteration order.

`dafny verify dfyconfig.toml` checks everything.

## How the model reads the source

- **One module per component.** `Domain` holds the graph, its findings and the typed accessors; `Paths` holds walks,
  reachability, cycles and the worklist argument shared by the breadth-first searches; `DepthFirst` holds the marks and
  the path invariant of the three-colour searches; `Ordering` holds Go's string order, both of its sorts and the reasons
  why their results are unique. `MapOrder` puts parser, rules and orchestrator together. `SearchOrder` says on which path
  a depth-first search comes to a node, for any order of branches and roots; `Selection` what a filtering loop keeps.
  Every other module is named after the rule, walker, parser or worker it models. Where a result needs more than the rule
  itself, the rule's last module (`CycleReport`, `CircularAgentsReport`, `LoopMarks`, `SchemaReport`) holds its top-level
  method, with the result stated of what the method returns. The n8n parser has a module for each pass, two on what its
  tables and edges hold (`N8nTables`, `N8nOrigins`) and one (`N8nInputs`) for the workflows it treats unexpectedly.
- **State is state.** Recursive closures over shared maps (`cycle_detection`, the loop marker, the delegation search) are
  classes whose methods update fields, proved equal to a function of the old state; the properties are then proved of that
  function. The three `findings[:0]` compactions work on one array. Goroutines and channels are step systems: a run is any
  sequence of enabled steps.
- **Map iteration** picks an arbitrary remaining key (`:|`) each time, so every result holds for every order. `sort.Slice`
  promises only a sorted arrangement, `sort.SliceStable` also keeps ties in order.
- **Graphs.** Nodes are non-nil. Edges may dangle. That nodes are stored under their own `ID` is what the parsers
  establish (`N8nEntry.Parse` proves it for n8n); the rules address nodes by key.
- **Findings.** A message is the template a rule chose together with its arguments, so two findings with different texts
  differ; suggestion and confidence reason are omitted. `Confidence` is a real number. Deduplication keys that the source
  joins with `|` or a prefix are datatypes, so the model does not show the clash two names containing `|` could cause.
  Positions in a schema are step lists in `SchemaWalk`; the source joins the steps with dots, and `SchemaPaths` says when the
  joined text still tells them apart.
- **Strings** are sequences of characters with lexicographic order. `Atoi` is written out, with its 64-bit range.
- **Supplied from outside** as functions: the glob matcher, SHA-256, the response decoder, the ignore-file loader, the
  n8n type-name tables, the keyword tests on node names, and the classification of prompt-template sinks.

## Where the code and its own comments differ

The model follows the code in each case; a concrete input shows the difference and an exact condition says when the two
agree.

- `nodesInLoops` is documented as returning the nodes that lie on a cycle. It marks its whole stack, so it also marks nodes
  that only lead into a cycle (`LoopNodes.MarkedOffCycle`), and it misses a node whose cycle closes through a completed one
  (`LoopNodes.UnmarkedOnCycle`). `LoopMarks.MarkedAlongIff` says exactly when a node is marked, and `LoopNodes.MarkAgreesIff`
  exactly when that is what the documentation says.
- `cycleHasExit` is documented as testing for an edge that leaves the strongly connected component. It tests the stack
  segment. `CycleProperties.ExitBranchMayStayInside` shows that the whole search reports the Warning on a graph that no run
  can leave (`LoopWithinIsATrap`); `CycleProperties.ExitTestIsRightIff` says when the two agree.
- The delegation search reports simple cycles. Two agents that hand over to each other through one shared router are on no
  simple cycle together and go unreported (`CircularAgentsProperties.MutualDelegationMayGoUnreported`);
  `CircularAgentsProperties.SearchSucceedsIff` and `ReportedMembersAreExact` give the condition.
- A worker `Call` tests `closed` before it queues for the lock, so a call already queued still runs on a worker that was
  killed in the meantime (`WorkerProtocol.QueuedCallOutlivesClose`). `WorkerProtocol.RefusedIff` says exactly which calls
  are refused.
- Baseline records of the first version are documented as matching unchanged findings. A finding that has since got a
  template ID, which no rule of the repository supplies but one from outside may, no longer matches its old record, nor does
  one without a message (`Baseline.UnchangedFindingsTurnNew`); `Baseline.LegacyRecordsMatchIff` is the condition.
- Normalisation is documented as forgetting numbers only. It also takes text that spells its placeholder for a number
  (`Baseline.PlaceholderTextIsTakenForANumber`). `Baseline.SameNormalFormIff` says of any two messages when they normalise
  alike, and `Baseline.ForgetsNumbersOnlyIff` for which pairs the documented claim fails; it holds whenever neither message
  spells the placeholder (`Baseline.CleanForgetNumbersOnly`). A single message is safe from that, whatever the other message
  is, only if it has neither a number nor the placeholder's spelling in it (`Baseline.NormalFormIsOwnIff`).
- Field paths are meant to tell the findings of one node apart for the baseline. A property name with a dot in it spoils that
  (`SchemaPaths.DottedNamesShareAFingerprint`); `SchemaPaths.SameTextIff` is the exact condition and
  `SchemaPaths.FindingsAreToldApart` the common case.
- Severity "off" is documented as equivalent to disabling the rule. A later override that sets a severity overrules the one
  and not the other (`Policy.OffIsOverruled`); `Policy.OffIsDisabledGloballyIff` and `Policy.OffIsDisabledInOverrideIff` say
  when they agree.
- The last key of the canonical order is there to keep Go's map order out of the report. Two LLM nodes that reach one code
  runner still tie (`MapOrder.SharedSinkIsReportedInMapOrder`); `Orchestrator.ReportsAgreeIff` is the exact condition, which
  `unreachable_node` and any Local rule that keeps no state between nodes meet.
- n8n identifiers are meant to be unique after suffixing. They may meet (`N8n.SuffixesCollide`, where a node is lost);
  `N8n.IDsAreDistinctIff` is the exact condition on the names, and `N8n.DistinctNamesKeepTheirIDs` the common case.
- `pickEntryNode` is documented as looking for a node without incoming main edges; it looks at edges of every kind
  (`N8nInputs.ModelIsTakenForEntry`, `N8nEntry.DocumentedEntryIff`). With exactly one root the entry may be another node
  (`N8nInputs.OnlyRootIsPassedOver`, `N8nEntry.SingleRootIsEntryIff`).
- The virtual root is meant to make reachability see the union of what the roots reach. A workflow node of the reserved name
  is overwritten and leaves its edges behind (`N8nInputs.ReservedNameIsVisited`, `N8nEntry.UnionIsExactIff`).

## Model

| member | source | states |
|---|---|---|
| Domain.OutgoingEdgesAre | domain/graph.go:273-281 | the outgoing edges of a node are exactly the edges whose source it is |
| Domain.IncomingEdgesAre | domain/graph.go:284-292 | the incoming edges of a node are exactly the edges whose target it is |
| Domain.AtoiIff | domain/node_config.go:72-100 | a string is read as a number exactly when it is an optional sign and digits that spell a 64-bit number, and then as that number |
| Domain.MaxIterationsIff | domain/node_config.go:11-22 | a loop bound is the node's own field or, failing that, the integer, the float without its fraction or the numeral in its configuration |
| Cycle.ParentControl | domain/rules/cycle.go:163-171 | the nearest Loop or Control node on the stack, or none if the stack has no such node |
| Cycle.FindParentControl | domain/rules/cycle.go:163-171 | the backward scan of the stack returns that node |
| Cycle.CycleHasExit | domain/rules/cycle.go:186-235 | true exactly when an edge leaves the stack segment of the cycle or a node on it has an exit branch |
| Cycle.EvaluateCycle | domain/rules/cycle.go:239-383 | the branching over entry node, governing loop, bound and exit gives the verdict that the lemmas below characterise |
| Cycle.SortedOutIsUnique | domain/rules/cycle.go:96-102 | every sorted arrangement of a node's outgoing edges is the same, so the unstable sort is deterministic here |
| Cycle.Detector.Dfs | domain/rules/cycle.go:85-136 | the recursive closure over the state, seen and findings variables computes the visit function of the old values |
| Cycle.Detector.SearchEach | domain/rules/cycle.go:151-155 | starts a search at each listed node that is still unvisited |
| CycleProperties.NoExitIffSegmentIsEverything | domain/rules/cycle.go:198-234 | no exit is seen exactly when everything the cycle's entry reaches, dangling targets included, lies on the stack segment and has no exit branch |
| CycleProperties.ExitTestIsRightIff | domain/rules/cycle.go:173-234 | the test agrees with its documentation, an exit from the strongly connected component, exactly when the component has an exit or the stack segment is all of it |
| CycleProperties.VerdictIsRight | domain/rules/cycle.go:237-383 | a verdict names a node on a simple cycle; no verdict means a bounded loop leads to the back edge |
| CycleProperties.VerdictWithoutLoop | domain/rules/cycle.go:295-332 | without one a back edge is always reported, and Critical exactly when nothing the entry reaches lies off the stack segment or has an exit branch |
| DepthFirst.LeaveKeepsStack | domain/rules/cycle.go:82-136 | leaving a node restores the path invariant: a walk without repetition that holds exactly the nodes in progress |
| CycleProperties.VisitKeeps | domain/rules/cycle.go:85-136 | a visit keeps the path equal to the nodes in progress, findings justified and unique per node, and every completed cycle reported or governed |
| DepthFirst.LeaveKeepsCovers | domain/rules/cycle.go:103-135 | completing a node keeps every cycle among completed nodes hit: the edge into it on the cycle was explored while it was open |
| CycleProperties.ReportsAreCycles | domain/rules/cycle.go:72-80 | each reported node lies on a simple directed cycle and no node is reported twice |
| CycleProperties.EveryCycleIsReportedOrGoverned | domain/rules/cycle.go:82-158 | every directed cycle holds a reported node or a node to which a loop bounded below 100 leads |
| CycleProperties.ReportsHitEveryCycle | domain/rules/cycle.go:82-158 | without a bounded loop the reported nodes are a feedback vertex set, and nothing is reported exactly when the graph is acyclic |
| CycleProperties.SeveritiesAreEarned | domain/rules/cycle.go:237-383 | each severity in the report is the one earned by a back edge into the reported node: by the bound of the loop answerable for it, else by whether anything leads off the stack segment |
| CycleProperties.LoopSeverityFollowsItsBound | domain/rules/cycle.go:337-382 | a reported loop node has no usable bound and is Critical, or a bound from 100 and is a Warning |
| CycleProperties.DefinitionErrorIsATrap | domain/rules/cycle.go:303-331 | a "graph definition error" is Critical, and all that its node reaches exists, leads back, has no exit branch and is no loop guard |
| CycleProperties.ReportIsDeterministic | domain/rules/cycle.go:90-102 | reordering the edge list or the node map changes nothing in the result |
| SearchOrder.SearchPathIsUnique | domain/rules/cycle.go:82-158 | for any order of branches and roots, a node has only one path at whose branches nothing tried earlier leads to it without crossing the path, and whose root no earlier root could have reached it before |
| SearchOrder.TracedIsSearchPath | domain/rules/cycle.go:103-135 | the stack with which the search enters a node is that path: what was tried before is completed together with all it leads to |
| CycleReport.ReportedIff | domain/rules/cycle.go:82-158 | for every graph, a node is reported exactly when the search path to some node ends with a link back to it for which no bounded loop answers; targets in string order, roots the entry node and then the nodes in string order |
| CycleReport.FindingsAreTold | domain/rules/cycle.go:237-383 | every finding belongs to such a link, and its severity, message and confidence are those of the loop answerable for it or, without one, of whether anything leads off the stack segment |
| CycleReport.RootOnCycleIsReported | domain/rules/cycle.go:143-155 | without bounded loops, a node on a cycle that no root tried earlier leads to is reported itself, the entry node among others |
| CycleReport.Analyze | domain/rules/cycle.go:65-158 | all of this of the returned findings, whatever the map order; at most one for each node |
| CycleProperties.ExitBranchMayStayInside | domain/rules/cycle.go:173-184 | for a node that loops on itself and through a second node the search reports a Warning with an exit branch and nothing else |
| CycleProperties.LoopWithinIsATrap | domain/rules/cycle.go:173-184 | in that graph nothing leads out, no node has an exit branch and no node is a loop guard |
| CircularAgents.Sources | domain/rules/circular_dep_agents.go:114-126 | all agent nodes, once each, in string order |
| CircularAgents.Searcher.CollectMembers | domain/rules/circular_dep_agents.go:279-286 | the agents on the current path, in path order |
| CircularAgents.Searcher.TryReport | domain/rules/circular_dep_agents.go:276-296 | succeeds and reports exactly when at least two agents are on the closed path, else changes nothing |
| CircularAgents.Searcher.Report | domain/rules/circular_dep_agents.go:179-247 | adds a finding only under a key not used before |
| CircularAgents.Searcher.Dfs | domain/rules/circular_dep_agents.go:273-313 | backtracking finds what the search over paths finds; on failure path, visited set and log are as before; it ends because the unvisited nodes run out |
| CircularAgents.Searcher.RunSource | domain/rules/circular_dep_agents.go:249-316 | one agent: the self edge is reported first, then the search result |
| CircularAgentsProperties.SearchIsSound | domain/rules/circular_dep_agents.go:272-313 | what the search finds extends the path to a simple cycle of existing nodes with two agents |
| CircularAgentsProperties.SearchFinds | domain/rules/circular_dep_agents.go:272-313 | if any simple cycle with two agents continues the path, the search succeeds |
| CircularAgentsProperties.SearchSucceedsIff | domain/rules/circular_dep_agents.go:267-315 | for an agent the search succeeds exactly when a simple cycle through it carries another agent |
| CircularAgentsReport.FirstCycleIsUnique | domain/rules/circular_dep_agents.go:267-315 | an agent has at most one first delegation cycle: no edge before one taken, in edge order, leads to a delegation cycle |
| CircularAgentsReport.SearchFindsFirstCycle | domain/rules/circular_dep_agents.go:267-315 | the search from an agent returns that cycle, and nothing when there is none |
| CircularAgentsReport.AgentsAre | domain/rules/circular_dep_agents.go:76-109 | an agent is an LLM node with a role, or with sub-agents that are not an empty list |
| CircularAgentsReport.ReportIsExact | domain/rules/circular_dep_agents.go:164-319 | the report holds exactly one self hand-off for each agent with a self edge, and the first cycle of each agent unless the same agents lie on that of an agent before it in string order |
| CircularAgentsReport.Analyze | domain/rules/circular_dep_agents.go:143-152 | this of the returned findings, with severity, confidence, sorted members and path stated outright, agent by agent in string order |
| CircularAgentsProperties.ReportedMembersAreExact | domain/rules/circular_dep_agents.go:164-319 | an agent is named in some delegation finding exactly when it lies on such a cycle |
| CircularAgentsProperties.ReportsAreReal | domain/rules/circular_dep_agents.go:179-313 | each reported path is a simple closed path from the agent to itself, its members are exactly the agents on it, sorted, and severity and confidence fit their number |
| CircularAgentsProperties.NoMemberSetTwice | domain/rules/circular_dep_agents.go:179-188 | no two delegation findings name the same set of agents |
| CircularAgentsProperties.SelfReportsAreExact | domain/rules/circular_dep_agents.go:249-262 | a self hand-off is reported once for each agent with an edge to itself and for no other |
| CircularAgentsProperties.MutualDelegationMayGoUnreported | domain/rules/circular_dep_agents.go:298-300 | two agents reach each other through a shared router and no delegation is reported |
| LoopNodes.Marker.Dfs | domain/rules/cost.go:193-216 | the recursive closure computes the visit function and restores the stack |
| LoopMarks.NodesInLoops | domain/rules/cost.go:187-228 | for some order of the node map, the marks are exactly those of the next row; every cycle holds one, each leads to a cycle, and the entry node is marked exactly when it leads to one |
| LoopMarks.MarkedAlongIff | domain/rules/cost.go:193-228 | a node is marked exactly when it lies on the search path to some node that links back onto that path; edges in edge order, roots the entry node and then the node map in its order |
| LoopNodes.VisitKeeps | domain/rules/cost.go:193-216 | a visit keeps every completed cycle marked and every mark able to reach a cycle; new marks come with the whole stack |
| LoopNodes.StackReachesCycle | domain/rules/cost.go:198-204 | at a back edge every node on the stack can reach a cycle, so marking all of them is sound in that sense |
| LoopNodes.VisitMarksIff | domain/rules/cost.go:193-216 | a visit marks its node exactly when a walk over nodes unvisited by then runs from it into itself or back onto the stack |
| LoopNodes.VisitMarksNoneDone | domain/rules/cost.go:202-204 | a visit changes no mark of a node visited before it that is off the stack, so a completed node keeps the mark it has |
| LoopNodes.MarkedIff | domain/rules/cost.go:187-228 | every node has one visit in the whole search, and is in the result exactly when such a closing walk exists at that visit |
| LoopNodes.RootMarkedIff | domain/rules/cost.go:218-225 | a node at which a search starts is marked exactly when a walk over nodes unvisited by then runs from it into itself |
| LoopNodes.MarkAgreesIff | domain/rules/cost.go:183-228 | for each node, exactly when its mark says what the documentation claims, that it lies on a cycle |
| LoopNodes.MarksHitEveryCycle | domain/rules/cost.go:183-228 | every cycle holds a marked node and every marked node can reach a cycle |
| LoopNodes.NoMarksIffAcyclic | domain/rules/cost.go:183-228 | nothing is marked exactly when the graph is acyclic |
| LoopNodes.EntryMarkedIffItReachesACycle | domain/rules/cost.go:201-220 | the entry node is marked exactly when it can reach a cycle |
| LoopNodes.MarkedOffCycle | domain/rules/cost.go:183-204 | a node on no cycle is marked |
| LoopNodes.UnmarkedOnCycle | domain/rules/cost.go:209-210 | a node on a cycle is not marked |
| EvalMissing.BuildForward | domain/rules/eval_missing.go:265-268 | the adjacency lists hold exactly the edges |
| EvalMissing.ProductReachability | domain/rules/eval_missing.go:241-246 | reaching a state of node and crossed-a-Condition is two plain reachability questions |
| EvalMissing.Expand | domain/rules/eval_missing.go:319-341 | every step from the current state is enqueued once |
| EvalMissing.Search | domain/rules/eval_missing.go:284-342 | the recorded sinks are those on a walk without Human nodes or interior sinks, flagged gated exactly when no such walk avoids all Condition nodes |
| EvalMissing.EmitFindings | domain/rules/eval_missing.go:344-347 | one finding for each recorded sink, in any order |
| EvalMissing.Run | domain/rules/eval_missing.go:255-371 | exactly one finding for each dangerous pair of source and sink, source by source; Critical with confidence 0.9 when an ungated walk exists, else Warning with 0.6 |
| ReverseSearch.BuildReverseAdjacency | application/path_walker.go:62-68 | the list of a node is its incoming edges in edge order |
| ReverseSearch.IndexSources | domain/rules/pii_leak.go:168-175 | the index holds the RAG and hint sources, and a RAG source is never a hint |
| ReverseSearch.PIIFromSink | domain/rules/pii_leak.go:179-236 | the sources reported for a sink are exactly those with a path to it that no Human node interrupts, once each |
| ReverseSearch.RunPII | domain/rules/pii_leak.go:157-239 | a pair is reported exactly once, and exactly when some path from the source to the sink has only existing, non-Human nodes before the sink; Warning with 0.6 for a RAG source, Info with 0.3 for a hint |
| ReverseSearch.InjectionFromSink | domain/rules/prompt_injection_sink.go:208-229 | the sources reported for a sink are exactly those that lead to it over raw edges, dangling ones included, once each |
| ReverseSearch.RunInjection | domain/rules/prompt_injection_sink.go:192-233 | a pair is reported exactly once, and exactly when a raw path joins it; severity and confidence come from the sink |
| Reachability.BuildAiReverse | domain/rules/reachability.go:104-111 | the reverse lists hold exactly the ai_* edges that leave existing nodes |
| Reachability.VisitAll | domain/rules/reachability.go:117-137 | each existing candidate ends up visited and each newly visited one is enqueued |
| Reachability.Search | domain/rules/reachability.go:113-138 | the visited nodes are exactly those reachable along edges and against ai_* edges |
| Reachability.ReportUnvisited | domain/rules/reachability.go:140-162 | one finding for each unvisited node |
| Reachability.Analyze | domain/rules/reachability.go:48-163 | the reported nodes are exactly the complement of that set, once each, Warning for LLM and Tool nodes and Info for others; unset, missing and ambiguous entries as documented |
| N8n.BuildNodes | infrastructure/parser/n8n.go:121-203 | the pass over the node array builds the four tables |
| N8n.RegisterAllKeeps | infrastructure/parser/n8n.go:121-203 | nodes are stored under their own ID, every table entry leads to a node, and every kept node is known by name and UUID |
| N8n.RegisterAllOrder | infrastructure/parser/n8n.go:135-136 | identifiers come out in array order |
| N8nTables.KeptAreEnabled | infrastructure/parser/n8n.go:135-149 | the kept nodes are the enabled ones that are no sticky notes, in array order |
| N8nTables.IDsAre | infrastructure/parser/n8n.go:151-163 | a kept node is identified by its name, or its n8n identifier if it has none; when that is taken, by it, an underscore and the number of suffixes given to it so far plus one |
| N8nTables.TablesOf | infrastructure/parser/n8n.go:191-202 | for every identifier the node table holds the last node that got it; the name and UUID tables hold the last node that bears them |
| N8nTables.ReferencesLead | infrastructure/parser/n8n.go:205-215 | repeated names included, a reference leads to the last node of that name, failing that to the last with that UUID, failing that nowhere |
| N8nTables.NodesStem | infrastructure/parser/n8n.go:135-202 | no disabled node and no sticky note becomes a graph node |
| N8n.DistinctNamesKeepTheirIDs | infrastructure/parser/n8n.go:151-163 | with distinct names every kept node has its own unaltered identifier |
| N8n.ReferencesFindTheirNode | infrastructure/parser/n8n.go:125-215 | with distinct names, a reference by name, or by a UUID that is nobody's name, leads to the node built from the n8n node it means, with its type, category and unreserved parameters |
| N8nSuppression.IgnoreListSuppresses | infrastructure/parser/n8n.go:178-189 | a node's ignore list hides exactly the findings of the rules it names, or all under a star, once the node-level filter runs |
| N8n.IDsAreDistinctIff | infrastructure/parser/n8n.go:138-163 | identifiers are unique exactly when no repeated name meets, as its next suffixed form, the name of an earlier node |
| N8n.NoNodeOverwrittenIff | infrastructure/parser/n8n.go:122-203 | every kept n8n node has a graph node of its own exactly when the identifiers are unique |
| N8n.SuffixedInjective | infrastructure/parser/n8n.go:161-162 | name and number can be read off a suffixed identifier, so two suffixed forms never meet |
| N8n.SuffixesCollide | infrastructure/parser/n8n.go:158-203 | names a, a_1, a: the third node gets the identifier of the second and replaces it in the node table |
| N8nEdges.BranchesAreNotAi | infrastructure/parser/n8n.go:367-382 | no branch label of a main edge can be mistaken for an ai_* connection |
| N8nEdges.AddMainEdges | infrastructure/parser/n8n.go:236-253 | appends the resolvable main connections of one source in order, labelled by port |
| N8nEdges.AddAiEdges | infrastructure/parser/n8n.go:271-283 | appends the connections of one ai_* type whose target name is known, in order |
| N8nEdges.ResolveEdges | infrastructure/parser/n8n.go:217-285 | the edge list has the sources in string order, each with its main edges and then its ai_* edges, these by type in any order |
| N8nEdges.EdgeListHolds | infrastructure/parser/n8n.go:225-285 | such a list holds exactly the edges of the resolvable connections |
| N8nEdges.EdgeListsAgree | infrastructure/parser/n8n.go:267-284 | any two such lists hold the same edges equally often, so map order only moves ai_* edges of a source among themselves |
| N8nEdges.EdgesJoinNodes | infrastructure/parser/n8n.go:207-215 | every resolved edge joins existing nodes |
| N8nOrigins.EdgesStemFromConnections | infrastructure/parser/n8n.go:217-285 | the edge list holds the edge of every resolvable connection, each connection once: sources in string order, main before ai_*, ports and positions ascending, branches of a Condition node labelled true and false |
| N8nEntry.CountMain | infrastructure/parser/n8n.go:341-349 | the counters are positive exactly for nodes with main edges in or out |
| N8nEntry.EntryRootIDs | infrastructure/parser/n8n.go:340-361 | the roots are the triggers and the heads of main subgraphs, in array order and each as often as listed |
| N8nEntry.PickEntryNode | infrastructure/parser/n8n.go:390-419 | the first trigger, else the first node without incoming edges, else the first node |
| N8nEntry.DocumentedEntryIff | infrastructure/parser/n8n.go:384-419 | the entry is the documented one, which looks for main edges only, exactly when a trigger decides, no node is a main head, the documented node has no incoming edge of any kind, or it is the first node and every node has one |
| N8nInputs.ModelIsTakenForEntry | infrastructure/parser/n8n.go:406-415 | every parse of a workflow with an agent listed before its model: documented is the agent and chosen the model |
| N8nEntry.Parse | infrastructure/parser/n8n.go:115-322 | the graph is assembled from tables and edges as stated above; every node but the synthetic root stems from an enabled n8n node, nodes are stored under their own ID and every edge endpoint exists |
| N8nEntry.AssembledIsWellFormed | infrastructure/parser/n8n.go:287-321 | adding the virtual root keeps every endpoint existing and every node under its own ID |
| N8nEntry.VirtualRootReachesUnion | infrastructure/parser/n8n.go:293-313 | with two or more roots the reachability search visits the virtual root, the union of what each root reaches, and what an overwritten node of the reserved name led to |
| N8nEntry.UnionIsExactIff | infrastructure/parser/n8n.go:293-313 | it visits exactly the virtual root and the union exactly when such a node led to nothing beyond them |
| N8nInputs.ReservedNameIsVisited | infrastructure/parser/n8n.go:298-308 | in every parse of a workflow with a node of the reserved name, a node that no trigger reaches is visited |
| N8nEntry.MainNodesAreVisited | infrastructure/parser/n8n.go:324-339 | if main edges are acyclic every node on a main edge is visited |
| N8nEntry.ParsedIsMultiRooted | infrastructure/parser/n8n.go:287-321 | every parsed workflow with two or more roots meets the assumptions of these results |
| N8nEntry.SingleRootIsEntryIff | infrastructure/parser/n8n.go:313-315 | with one root, exactly when the entry is that root |
| N8nInputs.OnlyRootIsPassedOver | infrastructure/parser/n8n.go:313-315 | in every parse of a workflow with a model listed before the head of the only flow, the head is the only root and the model becomes the entry |
| Orchestrator.FindingLeIsMayPrecede | application/orchestrator.go:247-261 | the canonical order is severity from Critical to Info, confidence descending, then rule, file and node alphabetically |
| Orchestrator.FindingLeIsTotalPreorder | application/orchestrator.go:247-261 | it is total and transitive, so both sorts are well-defined |
| Orchestrator.Classify | application/orchestrator.go:351-370 | each bucket is the rules of its tier in order: Global ones; Path ones that are not Global; Local ones that are neither; the rest |
| Orchestrator.TierHoldsItsOwn | application/orchestrator.go:345-370 | a bucket holds the rules of its tier as often as they were given, and no others |
| Orchestrator.TiersPartitionTheRules | application/orchestrator.go:345-370 | over the four buckets together each rule is dispatched as often as it was given |
| Orchestrator.StepConserves | application/orchestrator.go:128-190 | no send, receive or hand-over loses or duplicates a batch |
| Orchestrator.RunKeeps | application/orchestrator.go:122-190 | in every state of every run each rule's batch is somewhere in the system, exactly once per rule |
| Orchestrator.NeverStuck | application/global_walker.go:25-44 | an unfinished state always has an enabled step |
| Orchestrator.StepsRunOut | application/path_walker.go:30-56 | every step uses up work, so every schedule ends |
| Orchestrator.LastTemplateWins | application/orchestrator.go:224-245 | a rule name has a template exactly when some rule of that name supplies one, and it is the last such rule's |
| Orchestrator.Finish | application/orchestrator.go:192-215 | each finding gets confidence 1.0 for none and, if it has no template ID, its rule's; the result holds these as often as given, in the order stated outright, and ties keep theirs |
| Orchestrator.ReportsAgreeIff | application/orchestrator.go:211-222 | for distinct rule names and findings that carry their rule's name: whatever two outcomes each rule has and in whatever two orders the batches arrive, the reports are the same exactly when each rule gave its tied findings in the same order |
| Orchestrator.NoTiesAgree | application/orchestrator.go:217-222 | a rule no two of whose findings tie may give them in any order |
| Orchestrator.CompleteRunsCombineAll | application/orchestrator.go:120-190 | when all goroutines are done every rule's batch has been combined, once for each time the rule was given |
| Orchestrator.ScheduleIndependence | application/orchestrator.go:115-216 | any two complete runs, whatever their schedules, give the same report exactly when each rule gave its tied findings in the same order |
| LocalWalker.RuleContext.Report | domain/visitor.go:71-76 | appends the finding, with the rule's name if it has none |
| LocalWalker.RuleContext.Findings | domain/visitor.go:81-85 | returns what was reported and starts afresh |
| LocalWalker.DispatchNode | application/walker.go:47-59 | each rule's state and findings change as if it were alone at the node |
| LocalWalker.AloneIsOwed | application/walker.go:47-80 | alone, a rule answers the calls it is owed and no others: at each node its handler for every node and then that for the node's type, then its edge handler at every edge, then its graph handler, each on the state the one before left |
| LocalWalker.StatelessReportIff | application/walker.go:47-80 | a rule without changing state reports exactly what some handler of its raises at a node, an edge or the graph, under its name |
| LocalWalker.Walk | application/walker.go:31-84 | one interleaved pass gives, in rule order, the answers of each rule to the calls it is owed, and so what each rule reports when it walks alone in the same node order |
| LocalWalker.ShareIsIndependent | application/walker.go:29-30 | a rule's share does not depend on which other rules take part |
| Ignore.FilterIgnoredFindings | application/ignore.go:168-195 | compacting in place equals the order-preserving filter of the original findings, and the cache is transparent |
| Ignore.FilterByNodeIgnoreMeta | application/orchestrator.go:51-78 | the same for node-level ignore lists |
| Policy.MergeRuleConfig | application/policy.go:163-180 | the loop merges all overrides that match the file and name the rule |
| Policy.LastOverrideDecidesSeverity | application/policy.go:161-180 | the severity is that of the last matching override that sets one |
| Policy.LastOverrideDecidesEnabled | application/policy.go:161-180 | whether the rule is enabled is decided by the last matching override that says so, independently of severity |
| Policy.GlobalDecidesOtherwise | application/policy.go:161-180 | a field no matching override sets keeps the global value |
| Policy.DoubleStarIff | application/policy.go:204-226 | a pattern ending in a double star matches what the glob does, except the directory before it |
| Policy.JudgeIff | application/policy.go:139-180 | a finding is dropped exactly when its rule is disabled or "off" by the last matching override to say so, or else globally; otherwise only its severity changes, and to the one named there |
| Policy.ApplyPolicy | application/policy.go:139-159 | compacting in place equals judging every finding in order; the cells behind the result are untouched |
| Policy.PolicyIsIdempotent | application/policy.go:135-159 | applying a policy twice equals applying it once |
| Policy.OffIsDisabledGloballyIff | application/policy.go:71-77 | a global "off" amounts to disabling the rule exactly when no override that matches revives it: none sets another severity or enables it, or they disable it, or enable it and set a severity |
| Policy.OffIsDisabledInOverrideIff | application/policy.go:71-77 | the same for the entry of an override, in terms of what the entries before and after it say |
| Policy.OffIsOverruled | application/policy.go:71-77 | under an override that only sets a severity, a rule that is "off" is reported and a disabled one is not |
| Directory.VisibleIff | application/ignore.go:168-195 | a finding is hidden by a marker for its rule or for all, for the file or the line where its node sits, or by such an entry in the node's own list, and by nothing else |
| Directory.SuppressAndSort | application/orchestrator.go:309-342 | the three passes over one array equal the pure filters; what is visible and not dropped is shown once for each time it was found, in canonical order |
| Directory.GraphsAreLast | application/orchestrator.go:292-300 | the graph consulted for a file is that of its last input |
| Directory.AnalyzeMulti | application/orchestrator.go:286-343 | the directory report holds exactly what is shown of the findings of each file, under the file's name, in canonical order |
| Directory.DirectoryIgnoresSchedules | application/orchestrator.go:286-343 | with the concurrent analysis for each file, the report is the same whatever complete run each of them makes, provided each rule gives its tied findings for a file in the same order |
| Directory.SurvivorsAreJudged | application/orchestrator.go:309-336 | a finding survives exactly when an original one is visible and, with a policy, becomes it |
| MapOrder.ParsesAgree | infrastructure/parser/n8n.go:115-322 | two parses of one workflow, whatever the map orders, differ in nothing but the order of edges |
| MapOrder.CyclesSurviveReparsing | domain/rules/cycle.go:90-102 | so cycle_detection gives the same result for both |
| MapOrder.UnreachableHasNoTies | domain/rules/reachability.go:140-162 | two outcomes of unreachable_node on such graphs, whatever the order of the node map, hold the same ties |
| MapOrder.UnreachableReportIsStable | application/orchestrator.go:115-216 | parsing, searching and scheduling twice gives the same report |
| MapOrder.NodeOrderDoesNotMatter | application/walker.go:47-59 | a Local rule that keeps no state between nodes and reports at the node it visits gives the same ties in every node order |
| MapOrder.SharedSinkIsReportedInMapOrder | domain/rules/eval_missing.go:190-198 | for two LLM nodes that lead to one code runner, the two orders of the sources give reports that differ |
| WorkerPool.PoolSize | infrastructure/parser/langgraph.go:222-241 | between one worker and the smaller of the configured size and the number of paths |
| WorkerPool.StepKeeps | infrastructure/parser/langgraph.go:248-275 | every step keeps each path waiting, in a worker or reported as often as given, and channels close only after their last send |
| WorkerPool.NeverSendsOnClosedChannel | infrastructure/parser/langgraph.go:261-270 | no reachable state has sent on a closed channel |
| WorkerPool.NeverDeadlocks | infrastructure/parser/langgraph.go:248-275 | while the collector waits some goroutine can move |
| WorkerPool.StepsRunOut | infrastructure/parser/langgraph.go:248-275 | every step uses up work, so every interleaving ends |
| WorkerPool.OneResultPerPath | infrastructure/parser/langgraph.go:201-204 | at the end all workers have stopped and there is one result per input path, repeated paths included |
| WorkerPool.SortResults | infrastructure/parser/langgraph.go:276-277 | the unstable sort orders the same results by path |
| WorkerPool.ResultsListThePaths | infrastructure/parser/langgraph.go:201-204 | the paths of the sorted results are the sorted input paths, whatever the completion order |
| FrameReader.ReadLimitedLine | infrastructure/parser/python_worker.go:347-366 | the stream through its first newline if that fits the cap, and the reader then stands after it; the whole stream if it has no newline and fits; else a refusal. Independent of chunking, and never more than the cap accumulated |
| FrameReader.FramesAreReadBack | infrastructure/parser/python_worker.go:347-353 | a payload without newlines written with one at its end is the line that is read, whatever follows |
| WorkerProtocol.IDsAreNotReused | infrastructure/parser/python_worker.go:250-251 | in any run two calls share an id only when a multiple of 2^64 calls lies between them |
| WorkerProtocol.ResultBelongsToItsCall | infrastructure/parser/python_worker.go:242-320 | over any run of up to 2^64 calls a returned result is the payload of a frame with an id that no other call has |
| WorkerProtocol.ClosedExactlyByPoison | infrastructure/parser/python_worker.go:307-345 | in every state of every run the worker is closed exactly when it was closed by a caller or a call ended in a timeout or a corrupt frame |
| WorkerProtocol.RefusedIff | infrastructure/parser/python_worker.go:243-245 | a call is refused exactly when it starts after such an event, and that never changes |
| WorkerProtocol.QueuedCallOutlivesClose | infrastructure/parser/python_worker.go:243-248 | a run in which a queued call goes ahead on a closed worker |
| Baseline.NormalizedIsDigitFree | domain/baseline.go:137-158 | a normalised message holds no digit |
| Baseline.MatchIsLiteral | domain/baseline.go:150-158 | what the scan replaces is a literal: digits, or digits on both sides of a point |
| Baseline.MatchIsLongest | domain/baseline.go:150-158 | and the longest one at that place |
| Baseline.NormalizeIsIdempotent | domain/baseline.go:156-158 | normalising twice equals normalising once |
| Baseline.NormalizeConcat | domain/baseline.go:148-158 | normalisation splits after text that ends in neither digit nor dot, whatever follows |
| Baseline.NormalizeSplits | domain/baseline.go:148-158 | normalisation splits at a number literal not adjacent to a digit or dot, with a placeholder in its place |
| Baseline.NumbersDoNotMatter | domain/baseline.go:150-158 | messages that differ only in such literals normalise alike |
| Baseline.NewBaselineFromFindings | domain/baseline.go:162-172 | the fingerprints of the findings, in order |
| Baseline.Contains | domain/baseline.go:100-111 | true exactly when the finding's fingerprint is stored |
| Baseline.FilterNew | cli/analyze.go:770-781 | keeps every finding whose fingerprint is not stored, as often as given and in order, and no other; without a baseline all of them |
| Baseline.RenumberedKeepsFingerprint | domain/baseline.go:113-135 | other numbers in a message leave the fingerprint unchanged |
| Baseline.RenumberedFindingsAreKnown | cli/analyze.go:768-781 | against a baseline saved from earlier findings, the same findings with other numbers are all hidden |
| Baseline.SameNormalFormIff | domain/baseline.go:137-158 | any two messages normalise alike exactly when they read the same, number literals and text that spells the placeholder counting as one token |
| Baseline.ForgetsNumbersOnlyIff | domain/baseline.go:137-158 | the documented claim, that they normalise alike exactly when they differ in number literals only, fails for a pair exactly when they read the same and do not have their number literals in the same places |
| Baseline.CleanForgetNumbersOnly | domain/baseline.go:137-158 | it holds for two messages that do not spell the placeholder |
| Baseline.NormalFormIsOwnIff | domain/baseline.go:137-158 | a message shares its normal form only with messages that differ from it in number literals exactly when it has neither a number nor the placeholder's spelling in it |
| Baseline.PlaceholderTextIsTakenForANumber | domain/baseline.go:148-158 | a message that spells the placeholder normalises like one with a number |
| Baseline.DistinctMessagesStayNew | domain/baseline.go:97-147 | at one rule, node and file, fingerprints are equal exactly when the messages read the same or the hash collides on their normal forms, or the template IDs are equal; an ID against a message must be its digest |
| Baseline.SavedFingerprintsLoad | domain/baseline.go:64-81 | a record of the current version is read back as it was written |
| Baseline.StoredDigestsAreKept | domain/baseline.go:76-79 | a stored digest is kept, whatever message stands beside it |
| Baseline.LegacyRecordsMatchIff | domain/baseline.go:64-81 | a record that stores the full message loads to the fingerprint of the same finding exactly when the finding has a message and no template ID, other than the digest of the message itself |
| Baseline.UnchangedFindingsTurnNew | cli/analyze.go:768-781 | against its own old record, a finding that has since got a template ID is reported as new, and so is one without a message |
| SchemaWalk.ClassifyField | domain/rules/unbounded_tool_arg.go:186-241 | adds the field's own offence if there is one and the cap is not reached |
| SchemaWalk.WalkSchemaRoot | domain/rules/unbounded_tool_arg.go:129-143 | collects exactly the offending positions of the schema, once each, until the cap |
| SchemaWalk.WalkSchema | domain/rules/unbounded_tool_arg.go:151-181 | the same for the positions below the schema, whatever the map order |
| SchemaWalk.WalkProperty | domain/rules/unbounded_tool_arg.go:158-170 | the same for one more property |
| SchemaWalk.SubtreesAreDisjoint | domain/rules/unbounded_tool_arg.go:122-128 | positions under different properties, items or keys are different, so none is classified twice |
| SchemaWalk.OneOffencePerPosition | domain/rules/unbounded_tool_arg.go:183-185 | no position offends in two ways |
| SchemaReport.AllOffendingIff | domain/rules/unbounded_tool_arg.go:151-241 | the positions counted are those whose schema, found by following properties and items from a schema key, is a string without length limit or with one above 100000, an array without one or a number without maximum |
| SchemaReport.EvaluateUnboundedToolArg | domain/rules/unbounded_tool_arg.go:99-120 | the number of findings is the number of these positions, capped at five; each is at its own position, with severity and confidence of its offence, and earlier schema keys come first |
| SchemaPaths.SameTextIff | domain/rules/unbounded_tool_arg.go:163-179 | two positions are shown alike exactly when their names, taken apart at dots, are the same |
| SchemaPaths.PositionsAreToldApart | domain/rules/unbounded_tool_arg.go:151-181 | below a schema without dots in property names and without "items" as a property beside an item schema, offences are shown differently |
| SchemaPaths.FindingsAreToldApart | domain/baseline.go:137-147 | a node with such schemas has no two offences shown at the same place |
| SchemaPaths.DottedNamesShareAFingerprint | domain/baseline.go:137-147 | a property a.b beside a property a with a property b: two offences, and a baseline that knows one hides the other, however the message is worded |

## Left out

- The subprocess itself: spawning, pipes, process groups, signals, reaping and the timing of `Close`; `CloseWorker` only
  sets the flag, and the shutdown line that `Close` writes under the lock is not modelled.
- The Python, Node and ADK-Go parsers, format detection, and the decoding of JSON and YAML.
- Glob matching, regular-expression engines other than the number scan, SHA-256, and reading ignore markers from files:
  these are function parameters.
- Keyword tables over node names and n8n type names, including the splitting of names into words in `eval_missing`, and the
  template keys that make a node a prompt sink: each is a test on a single node.
- The single-node rules (deprecated models, temperature, secrets, model cards, tool descriptions, loop guards, fan-out
  thresholds, retries) and the per-node part of `cost_estimation`: one-branch facts.
- Message and suggestion wording, reporters, the command line apart from `filterNew`, the LSP and MCP servers, the HTTP API,
  the cache, and the plugin registry: presentation and plumbing.
- Nil graphs and nil nodes, which the source skips, and the unset configuration map, which reads as an empty one.
- `append(path, nodeID)` in `cycle_detection` may share its backing array between sibling calls; paths are values here.
- Concurrency is modelled at the level of channel operations, locks and wait groups; data races and the memory model are not.
- Domain.Truncate: a float beyond the 64-bit range is truncated like any other, where Go leaves the result to the platform.
- FrameReader.Reader.ReadSlice: a read error is modelled as the end of the stream, and when the buffer fills is left open.
- In which order the rules beyond those of `MapOrder` give tied findings; `Orchestrator.ReportsAgreeIff` says what hangs on it.
