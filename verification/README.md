# Workflow designer: graph validation and simulation

This project models the core of a workflow designer. A workflow is a
graph of typed nodes joined by directed edges. The node types are Start,
Task, Approval, Automated, Condition and End. The core has two parts:

- `validateGraph` checks the graph's structure and returns an ordered list
  of errors. It reports an empty workflow, a missing Start node or several
  of them, a missing End node, and edges into the Start node. It reports
  each node other than an End node that has no outgoing edge, and each node
  that cannot be reached from the Start node. It reports a cycle found by a
  depth-first search.
- `runSimulation` walks the graph from the first Start node and records one
  step per visited node, plus a dead-end step when the walk stops at a node
  other than a Condition node that has no outgoing edge. It always leaves a
  node by its first outgoing edge, and reports the run as completed only on
  reaching an End node.
- `labelForNode` gives the name a node is shown under in error messages.
- `simulateWorkflow` is the API wrapper. It runs the simulator only on a
  graph the validator accepts.

The Dafny modules follow that structure:

- `Graph` holds the data model, the lookup tables both operations build,
  and walks, reachability and cycles.
- `CycleSearch` is the depth-first search, a class whose `visited` and
  `inStack` sets are updated in place.
- `Validation` holds the checks as methods, each proved against a
  specification function. `ValidationFacts` reads each check back out of
  the error list.
- `Simulation` holds the simulator loop, proved against a route function
  `Walk` and its rendering.
- `Workflow` is the gated API call.
- `Scenarios` gives two small graphs that show where the guarantees end.

The simulator loop in the source has no iteration cap. The model gives it
a budget (`fuel`) and proves that a budget of one iteration per node gives
the unbounded loop's result on every graph without a reachable cycle, so
on every graph the validator accepts.

## Model

| member | source | states |
|---|---|---|
| Graph.OrElse | src/domain/simulation.js:154 | JavaScript `text \|\| fallback`: the text when it is present and non-empty, otherwise the fallback |
| Graph.LabelForNode | src/domain/simulation.js:150-155 | the label is never empty; it is the configured name when there is one, otherwise `<type> (<id>)` |
| Graph.Lookup | src/domain/simulation.js:161 | `byId.get(id)`: None exactly when no node has the id; otherwise a node with that id, the last one in node order |
| Graph.EdgesFrom | src/domain/simulation.js:162-166 | the outgoing list of a source id holds exactly the edges leaving it |
| Graph.EdgesFromPositions | src/domain/simulation.js:162-166 | the outgoing list of an id holds the edges leaving it at exactly their positions in the edge list, in increasing position order, so in insertion order and with their multiplicity |
| Graph.FirstOutgoingEdge | src/domain/simulation.js:257-258 | the first edge of an outgoing list is the earliest edge of the whole edge list that leaves the id |
| Graph.BuildOutgoing | src/domain/simulation.js:162-166 | the loop builds a map from each source id to exactly the edges leaving it, in insertion order |
| Graph.BuildById | src/domain/simulation.js:161 | the loop builds the id map, and every lookup in it agrees with `Lookup` (a later node with the same id wins) |
| Graph.LassoIffCycle | src/domain/simulation.js:114-145 | when every edge target is a root id, a walk from a root that runs into a cycle exists exactly when a closed walk through a root exists |
| CycleSearch.BackEdgeClosesCycle | src/domain/simulation.js:127-130 | an edge from the top of the search stack to a vertex still on the stack closes a cycle reachable from a root |
| CycleSearch.NoCycleFromRanked | src/domain/simulation.js:133-134 | if every finished vertex outranks all its successors and all roots are finished, no walk from a root runs into a cycle |
| CycleSearch.DepthFirstSearch.constructor | src/domain/simulation.js:115-116 | the search starts with empty visited and in-stack sets, over the given outgoing table |
| CycleSearch.DepthFirstSearch.Enter | src/domain/simulation.js:119-120 | entering u adds it to visited and in-stack and pushes it on the stack; the search invariant is kept |
| CycleSearch.DepthFirstSearch.Leave | src/domain/simulation.js:133 | leaving u removes it from in-stack, pops it and ranks it after all its successors; the invariant is kept |
| CycleSearch.DepthFirstSearch.FollowEdges | src/domain/simulation.js:122-131 | true only when a cycle is reachable from a root; false means every successor of u is finished and the stack is unchanged |
| CycleSearch.DepthFirstSearch.Dfs | src/domain/simulation.js:118-135 | `dfs(u)` is true only when a cycle is reachable from a root; false means u is visited, finished, and the stack is unchanged |
| CycleSearch.DepthFirstSearch.SearchAll | src/domain/simulation.js:137-145 | the outer loop is true only when a cycle is reachable from a node id; false means every node was visited with the search invariant kept |
| Validation.NodesOfKind | src/domain/simulation.js:56-57 | the filter keeps exactly the nodes of the kind, and never grows the list |
| ValidationFacts.NodesOfKindPositions | src/domain/simulation.js:56-57 | the filter keeps the nodes of the kind at exactly their positions, in node order, so its length is the number of such nodes |
| ValidationFacts.KindCount | src/domain/simulation.js:56-71 | the filtered list is empty exactly when no node has the kind, longer than one exactly when two positions have it, and its head (the `startNodes[0]` the checks read) is the first node of the kind |
| Validation.EdgesInto | src/domain/simulation.js:72 | the filter keeps exactly the edges that enter the id |
| Validation.EnqueueTargets | src/domain/simulation.js:97-102 | every unmarked target is marked and queued once, in the order of its first edge; the old queue is a prefix of the new one, and nothing else is queued |
| Validation.ReachableFrom | src/domain/simulation.js:88-103 | the breadth-first search marks exactly the ids the start id reaches along edges |
| Validation.CheckDeadEnds | src/domain/simulation.js:78-85 | one no-outgoing error per node other than an End node that no edge leaves, in node order |
| Validation.CheckReachability | src/domain/simulation.js:87-111 | one unreachable error per node the Start node does not reach, in node order |
| Validation.CheckCycles | src/domain/simulation.js:114-145 | the cycle error is added exactly when some walk from a node id runs into a cycle |
| Validation.ValidateGraph | src/domain/simulation.js:34-148 | the returned list equals the error list the checks define, in the order they run |
| ValidationFacts.EmptyWorkflow | src/domain/simulation.js:37-40 | the list is exactly the empty-workflow error when there are no nodes, and that error appears in no other list |
| ValidationFacts.GraphWideErrorCounts | src/domain/simulation.js:56-145 | for a non-empty graph, each graph-wide error appears at most once, and exactly when its condition holds |
| ValidationFacts.ErrorListCounts | src/domain/simulation.js:59-76 | each graph-wide error appears as often as its check reports it, and the empty-workflow error never appears |
| ValidationFacts.ErrorListReports | src/domain/simulation.js:78-111 | the per-node reports are kept in the error list in their own order |
| ValidationFacts.ErrorListEmpty | src/domain/simulation.js:59-145 | the list is empty exactly when one Start node, some End node and no incoming edge to the start are present, and no per-node report or cycle is found |
| ValidationFacts.DeadEndErrorsShape | src/domain/simulation.js:78-85 | every dead-end node's label is reported; every reported label belongs to a dead-end node; no report exactly when there is no dead end |
| ValidationFacts.UnreachableErrorsShape | src/domain/simulation.js:105-111 | every node not reached is reported, every report names such a node, and the start node itself is never reported |
| ValidationFacts.PerNodeErrors | src/domain/simulation.js:78-111 | keeping only the dead-end (or only the unreachable) errors of the full list gives exactly that check's reports |
| ValidationFacts.NoErrorsIffWellFormed | src/domain/simulation.js:34-148 | no error is reported exactly when there is one Start node with no incoming edge and some End node, every non-End node has an outgoing edge, all nodes are reachable from the start, and no walk from a node runs into a cycle |
| ValidationFacts.CycleErrorIffCycle | src/domain/simulation.js:114-145 | when every edge leads to a node, the cycle error is reported exactly when a closed walk passes through a node |
| Simulation.Describe | src/domain/simulation.js:188-245 | the step recorded at a node carries its id and its type string |
| Simulation.DeadEndStep | src/domain/simulation.js:247-254 | the extra dead-end step carries the node's id and type, and the fixed dead-end message |
| Simulation.FindStart | src/domain/simulation.js:168-170 | None exactly when no node is a Start node; otherwise the first Start node in node order |
| Simulation.Walk | src/domain/simulation.js:182-259 | a finished walk visits at least one node, and its first visit is the node it starts from |
| Simulation.RunSimulation | src/domain/simulation.js:158-262 | the run equals the simulation function: a single no-start step when there is no Start node, otherwise the rendered walk from the first Start node |
| Simulation.RunFrom | src/domain/simulation.js:180-261 | the loop records one step per visited node, plus the dead-end step when the walk stops at a non-Condition node with no outgoing edge, and stops as the walk from the start stops |
| Simulation.RouteFollowsFirstEdges | src/domain/simulation.js:223-258 | consecutive visits of a route are joined by the first outgoing edge of the earlier node |
| Simulation.RouteEnding | src/domain/simulation.js:182-261 | a route ends at an End node, at a Condition or other dead end, or at a missing target, each exactly when its last node is in that situation |
| Simulation.RouteStaysInNodes | src/domain/simulation.js:257-258 | a walk started at a node of the graph visits only nodes of the graph |
| Simulation.FuelIsMonotone | src/domain/simulation.js:182-259 | more iterations do not change a walk that finished within fewer |
| Simulation.OutOfFuelFollowsEdges | src/domain/simulation.js:182-259 | a walk that exhausts its budget passes through budget+1 nodes of the graph joined by edges |
| Simulation.WalkTerminatesWhenAcyclic | src/domain/simulation.js:182-259 | without a walk from a node into a cycle, one iteration per node is enough for the loop to stop |
| Simulation.SimulationTerminatesWhenAcyclic | src/domain/simulation.js:158-262 | on such a graph, any budget of at least one iteration per node gives the same finished simulation |
| Simulation.NoStartNode | src/domain/simulation.js:171-178 | without a Start node the run is a single no-start step and is not completed |
| Simulation.FirstStepIsStart | src/domain/simulation.js:168-180 | with a Start node, the first step is the step of the first Start node and has type "start" |
| Simulation.RouteCompletion | src/domain/simulation.js:230-238 | a route completes exactly when its last node is an End node, and no earlier visit is at an End node |
| Simulation.RenderedCompletion | src/domain/simulation.js:230-255 | rendering keeps that shape: completed exactly when the last step is an End step, and no earlier step is one |
| Simulation.CompletedIffLastStepIsEnd | src/domain/simulation.js:230-261 | a run is completed exactly when its last step has type "end", and no earlier step has type "end" |
| Workflow.SimulateWorkflow | src/api/simulate.js:8-24 | ok exactly when the validator returns no error; the texts of the errors are returned, in order; without ok there are no steps and no completion; with ok the steps and completion are those of the unbounded simulation |
| Workflow.WalkReachesEnd | src/domain/simulation.js:182-259 | when every non-End node has an outgoing edge and every edge leads to a node, a finished walk ends at an End node |
| Workflow.AcceptedWorkflowCompletes | src/api/simulate.js:8-24 | an accepted graph whose edges all lead to nodes runs to completion, from the Start step to an End step |
| Scenarios.DanglingGraphIsAccepted | src/domain/simulation.js:78-103 | a graph whose Start node's first edge leads to no node, and whose second edge leads to the End node, passes validation |
| Scenarios.DanglingGraphDoesNotComplete | src/domain/simulation.js:257-261 | on that graph the run records only the Start step and is not completed |
| Scenarios.LoopGraphErrors | src/domain/simulation.js:59-145 | a two-node loop through the Start node gets the missing-End, start-has-incoming and cycle errors, in that order |
| Scenarios.LoopGraphNeverStops | src/domain/simulation.js:182-259 | on that loop the simulator loop does not stop within any budget |

## Left out

- Simulation.RunSimulation: the source loop is unbounded, while the model runs at most `maxSteps` iterations and returns None when they run out. SimulationTerminatesWhenAcyclic shows that one iteration per node gives the unbounded result whenever the validator accepts the graph. LoopGraphNeverStops shows that on a graph with a loop the source loop never ends.
- Validation.CheckCycles: the source's `dfs` is recursive, one JavaScript call per vertex on the search path, so a long enough chain of nodes exhausts the call stack and `validateGraph` throws a RangeError. The model has no stack limit and returns an error list for every graph.
- The `incoming` map that `validateGraph` builds is never read, so it is not modelled.
- A node's type is one `Kind`, so the model assumes that a node's `data.type` and top-level `type` agree, as src/components/workflowDesigner/WorkflowCanvas.js:68-142 always sets them. The validator and the simulator loop read `data.type` and fall back to `type` (src/domain/simulation.js:54, 185). The start search instead accepts a node when either field is "start" (src/domain/simulation.js:168-169). Simulation.FindStart therefore does not capture a node whose two fields disagree, such as `data.type: "task"` with `type: "start"`; the source starts the run from that node but treats it as a Task.
- Type strings outside the six kinds are not modelled. On such a node the source records no step of its own, then acts like any other non-Condition node: it follows the first outgoing edge, or records the dead-end step and stops when there is none.
- Node positions and configuration fields that the core never reads are not modelled.
- The approval threshold is kept as the text the message shows. Rendering a JavaScript number as text is not modelled.
- The `context` argument is accepted and never read, as in the source.
- The Promise and the 400 ms timer around `simulateWorkflow` are left out. The model returns the resolved value directly.
- Missing or non-array `nodes`/`edges` inputs are not modelled. The model takes sequences, and `!nodes` is the empty sequence.
- Step messages are modelled in full, and the dead-end message keeps the characters the source file holds (a mis-encoded en dash). The proved properties state step ids and types, not message texts.
- Cycle detection follows the code: the search walks through edge targets that are not nodes, so the error means "a walk from a node id revisits a vertex". CycleErrorIffCycle shows this equals "a closed walk through a node" whenever every edge leads to a node.
- Acceptance by the validator does not ensure completion when an edge leads to no node. The validator only checks that an edge exists, while the simulator follows the first one (Scenarios.DanglingGraphDoesNotComplete).
- The UI panel that calls `runSimulation` directly, and every other file of the application (React components, store, mock API), are not part of this model.
