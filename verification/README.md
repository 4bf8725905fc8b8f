# Pretreat navigation core in Dafny

Pretreat is a pyglet and networkx demo. You edit a directed navigation graph on screen, pick
a start and a destination node, and an A* pathfinder plans a route. Agents walk the route,
an analyzer scores how replaceable each node on the route is, and a console view runs
random walks among wandering "evils" to collect statistics. A grid generator builds test
worlds.

This project models the deterministic bookkeeping underneath. Everything is immutable
datatypes and pure transition functions; a few loops are methods. networkx searches, path
costs, geometry and random draws become function-typed parameters (oracles).

| file | module | models |
|---|---|---|
| optional.dfy | `Optional` | Python's `None` as `Option` |
| path.dfy | `Paths` | the `Path` value: construction, duplicate-refusing insert, edge pairs |
| pathfinder.dfy | `Pathfinding` | graph-package `Pathfinder` roles, re-planning and `AStarPathfinder.create_path` |
| node.dfy | `Nodes` | graph-package `Node`: state, selection, position, radii |
| labels.dfy | `Labels` | the dense relabelling inside `update_node_labels` |
| navigation_graph.dfy | `NavigationGraph` | the graph-package store: node and edge editing, selection, roles, labels, `update`, path-edge flags |
| analyzer.dfy | `Analyzer` | `score_path`: leave-one-out blocking, irreplaceable nodes, expected cost |
| agent.dfy | `Agents` | `Trip` and the agent's run and travel states |
| state_machine.dfy | `StateMachines` | the LIFO state stack |
| environment.dfy | `Environment` | the integer parts of the grid generator and of `Environment.__init__` |
| walk_stats.dfy | `WalkStats` | the console view's walk keys, counters, evil moves and walks |
| legacy_node.dfy | `LegacyNodes` | the older `app/classes/node.py` |
| legacy_pathfinder.dfy | `LegacyPathfinding` | the older `app/classes/pathfinder.py` |
| legacy_navigation_graph.dfy | `LegacyNavigationGraph` | the older `app/classes/navigation_graph.py` |

Python object identity of a node is a `NodeId` (or a type parameter `N`). A store's
`objects` map gives the attributes of every node object it can be handed. Operations that
receive a node therefore require that the node is in this map. This restricts nothing
Python allows, because every Python reference points at a live object.

Behaviours of the code worth knowing:

- The graph-package `add_edge` accepts an edge that already exists. networkx replaces the
  edge's data with a fresh, unflagged Edge object.
- The graph-package `add_edge` also accepts an edge to a node that is not in the graph, and
  networkx adds the missing endpoint.
- The legacy store accepts self-loops.
- The graph-package store's pathfinder is `PretreatPathfinder`, whose source is not part of
  this model. Its waypoint re-planning is therefore an oracle (`NavigationGraph.Plan`).

## Model

One-line getters and formulas have no row of their own, because they only name a field or
a source expression: `Nodes.Position`, `Nodes.IsSelected`, `Nodes.PaddedRadius`,
`Nodes.VisualRadius`, `Paths.NodeList`, `Paths.Count`, `WalkStats.Complete`,
`WalkStats.KeyOf`, `Environment.WithinBounds`, `Environment.Key`, `LegacyNodes.Position`,
`LegacyNodes.PaddedRadius` and `LegacyNodes.VisualRadius`. The rows of the lemmas about them
(`Nodes.RadiusOrdering`, `Paths.GetEdgeList`, `WalkStats.KeyIgnoresWalkIndex`,
`Environment.KeyInjective`, `LegacyNodes.SelectionRoundTrip`, and others) state what they
mean.

| member | source | states |
|---|---|---|
| Paths.NewPath | app/classes/graph/path.py:7-15 | `None`, `[]` and `[None]` give an empty, incomplete path; any other list is kept unchanged and marks the path complete, even a single node |
| Paths.InsertPosition | app/classes/graph/path.py:23 | the slot `list.insert` uses: a negative index counts from the end, and an index out of range is clamped to either end |
| Paths.AddNode | app/classes/graph/path.py:17-24 | a node already present is refused and nothing changes; otherwise it is appended, or inserted at the index, and the multiset of nodes gains exactly that node |
| Paths.AddNodeKeepsDistinct | app/classes/graph/path.py:17-24 | `add_node` keeps the path's nodes pairwise distinct |
| Paths.EdgePairs | app/classes/graph/path.py:54-59 | `max(count-1, 0)` pairs, and pair i is `(nodes[i], nodes[i+1])` |
| Paths.EdgePairsMembership | app/classes/graph/path.py:54-59 | a pair is a path edge iff its two nodes are consecutive on the path |
| Paths.GetEdgeList | app/classes/graph/path.py:54-65 | the `range(1, count)` loop yields exactly the consecutive pairs, one fewer than `get_count` (none for an empty path) |
| Pathfinding.NewPathfinder | app/classes/graph/pathfinder.py:12-16 | start, destination and path are all unset |
| Pathfinding.CreatePath | app/classes/graph/pathfinder.py:96-106 | A* returns an empty, incomplete path when a role is unset or no route exists; otherwise the oracle's node list, marked complete. The base class returns `None` |
| Pathfinding.UpdateToNewPath | app/classes/graph/pathfinder.py:50-52 | roles are unchanged and the path is `create_path` on the current roles |
| Pathfinding.SetStartNode | app/classes/graph/pathfinder.py:27-31 | start becomes n; the destination is cleared only if it was n; the path is re-planned on the new roles; afterwards the roles are distinct |
| Pathfinding.SetDestinationNode | app/classes/graph/pathfinder.py:33-37 | the mirror image: the destination becomes n, and the start is cleared only if it was n |
| Pathfinding.ClearNode | app/classes/graph/pathfinder.py:39-48 | every role n holds is dropped, and the path is re-planned iff something changed. A node holding no role changes nothing. Distinct roles stay distinct |
| Pathfinding.GetPath | app/classes/graph/pathfinder.py:19-22 | an existing path is returned unchanged; with none, one is planned and stored |
| Pathfinding.GetPathNodes | app/classes/graph/pathfinder.py:79-82 | `[]` without a path, otherwise the path's nodes |
| Pathfinding.GetPathEdges | app/classes/graph/pathfinder.py:74-77 | `[]` without a path, otherwise the consecutive pairs of its nodes |
| Pathfinding.StartThenDestination | app/classes/graph/pathfinder.py:27-37 | setting start s and then destination d ≠ s holds both roles, and the A* path runs from s to d or is empty |
| Nodes.NewNode | app/classes/graph/node.py:23-45 | a new node has state Default, no label, the configured radius and the given selection |
| Nodes.SetAsSelected | app/classes/graph/node.py:54-56 | `is_selected` then answers the given flag; nothing else changes |
| Nodes.SelectionRoundTrip | app/classes/graph/node.py:54-116 | the selection set is the selection read back; the padded radius ignores selection; the visual radius adds the selection ring iff selected |
| Nodes.SetState | app/classes/graph/node.py:85-88 | the node takes the given state; nothing else changes |
| Nodes.SetLabel | app/classes/graph/node.py:50-52 | the node takes the given label; nothing else changes |
| Nodes.SetPosition | app/classes/graph/node.py:90-100 | `None` answers false with no change; otherwise the position becomes the pair and the answer is true |
| Nodes.RadiusOrdering | app/classes/graph/node.py:108-116 | with non-negative settings, radius ≤ visual radius ≤ padded radius; unselected, the visual radius is the radius |
| Labels.KeptValues | app/classes/graph/navigation_graph.py:239-243 | the labels kept are exactly the labels ≤ count that nodes already carry |
| Labels.FreeLabels | app/classes/graph/navigation_graph.py:236-245 | the unused labels are exactly the values 1..count not in use, in increasing order |
| Labels.EnoughFreeLabels | app/classes/graph/navigation_graph.py:245-249 | there are always at least as many free labels as nodes needing one, so the indexing never fails |
| Labels.Relabel | app/classes/graph/navigation_graph.py:234-250 | kept labels stay put; the other nodes take the free labels in order |
| Labels.RelabelInRange | app/classes/graph/navigation_graph.py:234-250 | if labels start positive and distinct, afterwards they are distinct and within 1..count |
| Labels.RelabelIsPermutation | app/classes/graph/navigation_graph.py:234-250 | if labels start positive and distinct, afterwards they are distinct, within 1..count, and their set is exactly {1..count} |
| NavigationGraph.NewNavGraph | app/classes/graph/navigation_graph.py:14-21 | an empty, valid store with no roles, no path and all dirty flags clear |
| NavigationGraph.OnPathUpdate | app/classes/graph/navigation_graph.py:23-29 | an edge is flagged iff it is in the path's pair list; with no path, none is flagged; nothing else changes |
| NavigationGraph.UpdatePath | app/classes/graph/navigation_graph.py:307-312 | re-plans on the current topology and roles, and flags exactly the new path's edges |
| NavigationGraph.UpdateNodeLabels | app/classes/graph/navigation_graph.py:234-250 | each graph node receives its `Relabel` label; nodes outside the graph and all other attributes are untouched |
| NavigationGraph.UpdateNodeLabelsDense | app/classes/graph/navigation_graph.py:234-250 | starting from positive, distinct labels, the labels afterwards are exactly 1..count, each used once |
| NavigationGraph.IsValidNodePositionFacts | app/classes/graph/navigation_graph.py:40-47 | `is_valid_node_position`: with every graph node excepted any position is valid; excepting more nodes never refuses an accepted position; the position of a padded, non-excepted graph node is refused |
| NavigationGraph.AddNode | app/classes/graph/navigation_graph.py:163-169 | succeeds iff the node is not `None` and no graph node lies closer to it than twice that node's padded radius. A refusal changes nothing. On success the node joins, the node set is dirty, and only labels change |
| NavigationGraph.MoveNode | app/classes/graph/navigation_graph.py:171-177 | the corrected `move_node`: `None` or a target too close to another node answers false with no change. Otherwise the node moves and positions are dirty, and then the call raises iff the node is not in the graph; a graph node answers true |
| NavigationGraph.MoveNodeAsWritten | app/classes/graph/navigation_graph.py:171-177 | same store and the same raise as `MoveNode`, but success answers `None` and refusal answers false |
| NavigationGraph.MoveNodeSuccessIsFalsy | app/classes/graph/navigation_graph.py:171-177 | for a valid move of a graph node the corrected answer is true, while the answer as written is the falsy `None`; a node outside the graph raises in both |
| NavigationGraph.RemoveAllNodeEdges | app/classes/graph/navigation_graph.py:223-226 | exactly the edges touching the node, in either direction, are gone |
| NavigationGraph.RemoveNode | app/classes/graph/navigation_graph.py:179-192 | `None` answers false. Otherwise the node is deselected and the selection is dirty. A node outside the graph then raises, with nothing else changed. A graph node answers true: it loses all incident edges and is removed, its roles are cleared, and the node set is dirty |
| NavigationGraph.AddEdge | app/classes/graph/navigation_graph.py:194-203 | refused, with no change, iff an endpoint is `None` or the edge is a self-loop; otherwise the edge exists, missing endpoints are added, and the node set is dirty |
| NavigationGraph.RemoveEdge | app/classes/graph/navigation_graph.py:205-213 | succeeds iff both endpoints are given and the edge exists; then exactly that edge is removed |
| NavigationGraph.AddThenRemoveEdge | app/classes/graph/navigation_graph.py:194-213 | adding a new edge between graph nodes and removing it restores the store, except that the node set is marked dirty |
| NavigationGraph.SelectNode | app/classes/graph/navigation_graph.py:126-134 | `None` answers false with no change. Otherwise the node is selected and the selection is dirty; then the call raises iff the node is not in the graph, and otherwise answers true iff the node was unselected |
| NavigationGraph.UpdateNodeEdges | app/classes/graph/navigation_graph.py:100-101 | the store is unchanged, and the call raises iff the node is not in the graph |
| NavigationGraph.DeselectNode | app/classes/graph/navigation_graph.py:136-144 | `None` answers false with no change. Otherwise the node is unselected and the selection is dirty; then the call raises iff the node is not in the graph, and otherwise answers true iff the node was selected |
| NavigationGraph.SelectThenDeselect | app/classes/graph/navigation_graph.py:126-144 | selecting an unselected graph node and deselecting it again restores the store, apart from the selection dirty flag, and both calls answer true |
| NavigationGraph.ToggleSelect | app/classes/graph/navigation_graph.py:117-124 | without a comparison value the node's selection flips; other nodes are untouched; it raises iff the node is not in the graph |
| NavigationGraph.GetSelectedNodes | app/classes/graph/navigation_graph.py:31-32 | exactly the selected graph nodes |
| NavigationGraph.DeselectAllNodes | app/classes/graph/navigation_graph.py:158-161 | no graph node stays selected and nothing else about nodes changes. The selection becomes dirty iff it already was or some graph node was selected |
| NavigationGraph.SetNodeToDefault | app/classes/graph/navigation_graph.py:67-70 | the node loses its roles (through `clear_node`) and takes the Default state |
| NavigationGraph.SetStartNode | app/classes/graph/navigation_graph.py:72-80 | for a non-null n other than the start: the old start becomes Default, n becomes start with state Start, the path is re-planned, and a destination equal to n is dropped. Otherwise nothing changes |
| NavigationGraph.SetDestinationNode | app/classes/graph/navigation_graph.py:82-90 | the mirror image of `SetStartNode` |
| NavigationGraph.SetNodeState | app/classes/graph/navigation_graph.py:58-65 | dispatches to the start, destination or default operation |
| NavigationGraph.Update | app/classes/graph/navigation_graph.py:295-305 | re-plans iff a dirty flag is set, otherwise changes nothing; all three flags are clear afterwards |
| NavigationGraph.AddNodeKeepsValid | app/classes/graph/navigation_graph.py:163-169 | `add_node` keeps the store valid: distinct nodes, edges between distinct graph nodes, flags on existing edges, distinct roles |
| NavigationGraph.AddNodeKeepsLabelsAndRoles | app/classes/graph/navigation_graph.py:163-169 | adding a fresh node keeps labels dense and node states in step with the roles |
| NavigationGraph.AddNodeKeepsLabelsDense | app/classes/graph/navigation_graph.py:163-169 | adding a fresh node to a densely labelled store keeps the labels dense |
| NavigationGraph.AddNodeKeepsRoles | app/classes/graph/navigation_graph.py:163-169 | adding a fresh node keeps node states in step with the roles |
| NavigationGraph.RemoveNodeKeepsValid | app/classes/graph/navigation_graph.py:179-192 | `remove_node` keeps the store valid |
| NavigationGraph.RemoveNodeKeepsLabelsDense | app/classes/graph/navigation_graph.py:179-192 | removing a node keeps labels dense |
| NavigationGraph.RemoveNodeKeepsRoles | app/classes/graph/navigation_graph.py:179-192 | removing a node keeps node states in step with the roles |
| NavigationGraph.SetStartNodeInvariants | app/classes/graph/navigation_graph.py:72-80 | setting the start keeps the store valid and states in step with the roles |
| NavigationGraph.SetDestinationNodeInvariants | app/classes/graph/navigation_graph.py:82-90 | setting the destination keeps the store valid and states in step with the roles |
| NavigationGraph.EdgeEditsKeepValid | app/classes/graph/navigation_graph.py:194-213 | adding or removing an edge keeps the store valid |
| Analyzer.ScorePath | app/classes/graph/analyzer.py:10-36 | fewer than 3 nodes gives `None` with no blocking. Otherwise each interior node is blocked then unblocked in path order; the irreplaceable list and the expected cost (weighted by 1/(n-2)) come out of that trace |
| Analyzer.Interior | app/classes/graph/analyzer.py:23-25 | the nodes at indices 1..n-2 |
| Analyzer.RecordedCost | app/classes/graph/analyzer.py:28-31 | a usable blocked cost is recorded; a missing, zero or infinite cost records the base cost |
| Analyzer.Irreplaceable | app/classes/graph/analyzer.py:27-30 | every listed node is an interior node whose blocked cost is missing, zero or infinite, and every such node is listed |
| Analyzer.IrreplaceableInPathOrder | app/classes/graph/analyzer.py:27-30 | the listed nodes come from strictly increasing path positions, and those positions are exactly the ones whose blocked cost is unusable, so path order and multiplicity are kept |
| Analyzer.Trace | app/classes/graph/analyzer.py:26-33 | each interior node is blocked and at once unblocked, in path order |
| Analyzer.ChancesSumToOne | app/classes/graph/analyzer.py:32 | the n-2 chances of 1/(n-2) sum to 1 |
| Analyzer.ExpectedIsMean | app/classes/graph/analyzer.py:35-36 | the expected cost is the mean of the recorded costs and lies between their minimum and maximum |
| Analyzer.AllIrreplaceable | app/classes/graph/analyzer.py:29-36 | when every interior node is irreplaceable, the expected cost equals the base cost and all interior nodes are listed |
| Analyzer.IrreplaceableAll | app/classes/graph/analyzer.py:27-30 | the list holds every interior node iff none has a usable blocked cost |
| Analyzer.EndsNeverIrreplaceable | app/classes/graph/analyzer.py:23-30 | on a path of distinct nodes, the first and last nodes are never irreplaceable |
| Analyzer.TraceRestoresBlocked | app/classes/graph/analyzer.py:26-33 | replaying the block/unblock trace leaves the blocked set as it was |
| Analyzer.ScoringRestoresBlocked | app/classes/graph/analyzer.py:23-33 | scoring a path leaves the blocked set as it was before |
| Agents.TripStart | app/classes/graph/agent.py:18-19 | the first path node; an empty path raises (`None`) |
| Agents.TripDestination | app/classes/graph/agent.py:21-22 | the last path node; an empty path raises (`None`) |
| Agents.SetState | app/classes/graph/agent.py:70-77 | the run state is set, and the animation moves iff the state is Running |
| Agents.SetTravelState | app/classes/graph/agent.py:79-80 | only the travel state changes |
| Agents.SetCurrentNode | app/classes/graph/agent.py:90-91 | only the current node changes |
| Agents.SetTargetNode | app/classes/graph/agent.py:82-88 | the target is always set. `None` stops there. Otherwise the animation is aimed at the node, and `set_to_run` leaves the agent Running |
| Agents.SetPath | app/classes/graph/agent.py:53-62 | `None` or fewer than 2 nodes changes nothing. With ≥3 nodes: current path[0], target path[1], On_Start. With 2 nodes: target is the current node, On_Target. The run state never changes |
| Agents.NewAgent | app/classes/graph/agent.py:37-51 | a new agent is Idle and Unassigned with zero expenses and coverage, unless a path of ≥2 nodes is given |
| Agents.SetPathIdempotent | app/classes/graph/agent.py:53-62 | assigning the same path twice equals assigning it once |
| Agents.SetPathStaysOnPath | app/classes/graph/agent.py:53-62 | after assigning a path, the agent stands on its first node, targets a node of the path and keeps its run state |
| Agents.RunThenStop | app/classes/graph/agent.py:70-88 | running towards a node and then stopping leaves the agent Idle, not moving, and aimed at that node |
| StateMachines.NewStateMachine | app/classes/state_machine.py:32-36 | a new machine has an empty stack and no current state |
| StateMachines.Current | app/classes/state_machine.py:38-42 | `None` iff the stack is empty, otherwise the top |
| StateMachines.Push | app/classes/state_machine.py:44-48 | `None` is refused with no change; any other state goes on top and becomes current |
| StateMachines.Pop | app/classes/state_machine.py:50-56 | returns the current state and drops the top; an empty stack returns `None` and stays empty |
| StateMachines.PushThenPop | app/classes/state_machine.py:44-56 | push then pop returns the pushed state and restores the stack |
| StateMachines.PushAllThenPopAll | app/classes/state_machine.py:44-56 | pushing k states and popping k times returns them reversed and restores the stack |
| Environment.Reset | app/environment.py:32-37 | after `reset` the altitudes count as within bounds |
| Environment.ClampAltitude | app/environment.py:63-75 | the altitude returned lies within [min, max]; the above flag is raised iff it was above the maximum, the below flag iff it was below the minimum; an in-range value passes unchanged |
| Environment.ClampFlagsExactly | app/environment.py:63-75 | from a reset generator, the flags stay clear iff the altitude needed no clamping |
| Environment.Trunc | app/environment.py:89 | `int()` of a float truncates toward zero |
| Environment.EdgeWeight | app/environment.py:89-92 | the edge weight is the truncated position weight, lifted to the minimum when below it, and never below the minimum |
| Environment.EdgeWeightInRange | app/environment.py:88-92 | a position weight within [min, max] gives an edge weight within [min, max] |
| Environment.KeyInjective | app/environment.py:119 | distinct grid cells get distinct keys |
| Environment.KeyRange | app/environment.py:116-122 | with the grid starting at column 1, keys lie in 1..sizeX·sizeY |
| Environment.Cell | app/environment.py:116-122 | every key in 1..sizeX·sizeY is the key of one grid cell |
| Environment.CreateNodes | app/environment.py:116-122 | every grid cell is stored under its key, and every stored key belongs to its cell |
| Environment.CreatedKeys | app/environment.py:116-122 | the stored keys are exactly 1..sizeX·sizeY, with the first and last corners at keys 1 and sizeX·sizeY |
| Environment.Targets | app/environment.py:138-150 | the left target (key-1) is taken iff x > start_x and its coin falls, the above target (key-size_x) likewise; at most two |
| Environment.TargetsAreOtherNodes | app/environment.py:138-155 | every target is a stored node other than the node itself |
| Environment.StartAndTargetKeys | app/environment.py:226-229 | the start and target keys are the cells `padding` steps in from the first and last corners |
| Environment.ShippedStartAndTarget | app/environment.py:226-229 | with the shipped 18×13 grid and padding 3, start key 58 is cell (4,4) and target key 177 is cell (15,10) |
| Environment.WeightIndex | app/environment.py:270-274 | the bucket index formula is undefined (division by zero) iff max weight equals min weight |
| Environment.WeightIndexInRange | app/environment.py:266-274 | a weight within [min, max] falls in a bucket 0..types-1, the maximum in the last |
| Environment.SortEdges | app/environment.py:263-274 | zero edge types raises (`None`) because of the bucket-width division, even with no edges. Otherwise it succeeds iff every weight names a bucket; then bucket i holds, in edge order, exactly the edges of weight index i |
| Environment.SortBy | app/environment.py:264-274 | for any bucket function: succeeds iff every weight names a bucket; then bucket i holds, in edge order, exactly the edges put in bucket i |
| Environment.BucketsPartition | app/environment.py:264-274 | when every weight names a bucket, the bucket sizes add up to the number of edges |
| Environment.StepEdge | app/environment.py:254-259 | a step records the stored edge `(current, node)` or else `(node, current)`, and nothing when neither exists |
| Environment.PathEdges | app/environment.py:247-260 | the path-edge loop equals the recursive walk from the start node; no path gives no edges |
| Environment.WalkIsOrientedSteps | app/environment.py:247-260 | the path edges are the stored orientations of the steps, one per node differing from the current one, in order |
| Environment.OrientedKeepsAdjacentSteps | app/environment.py:247-260 | when every step joins adjacent nodes, there is exactly one path edge per step |
| WalkStats.NewWalkKey | app/classes/views/__init__.py:43-51 | a fresh key is not complete |
| WalkStats.KeyIgnoresWalkIndex | app/classes/views/__init__.py:56-65 | two keys count as the same statistic iff they agree on everything except the walk index |
| WalkStats.NewConsole | app/classes/views/__init__.py:80-84 | a new console has consistent statistics and an incomplete key |
| WalkStats.Increment | app/classes/views/__init__.py:217-229 | an incomplete key raises with no change. A complete key's count goes up by one (from nothing to 1), its snapshot is appended, other counts stay, and death and success are reset |
| WalkStats.IncrementKeepsConsistent | app/classes/views/__init__.py:217-229 | counting keeps each key's count equal to its number of snapshots, and every snapshot counted |
| WalkStats.WalkSuccess | app/classes/views/__init__.py:207-209 | one success snapshot is appended, consistency is kept, and the key is ready again |
| WalkStats.WalkCollide | app/classes/views/__init__.py:212-214 | one death snapshot is appended, consistency is kept, and the key is ready again |
| WalkStats.SaveCheckPasses | app/classes/views/__init__.py:124-126 | with consistent statistics every counted key occurs among the snapshots, so the final check never raises |
| WalkStats.Available | app/classes/views/__init__.py:240 | exactly the neighbours not held by this or a later evil |
| WalkStats.MoveEvils | app/classes/views/__init__.py:231-241 | `move_evils` keeps the number of evils |
| WalkStats.MoveEvilsStaysOrSteps | app/classes/views/__init__.py:231-241 | each new position is the old one, or a neighbour not held by this or a later evil before the move |
| WalkStats.FirstMeetFrom | app/classes/views/__init__.py:191-201 | a meeting found from index k lies at or after k and inside the path |
| WalkStats.FirstMeetIsFirst | app/classes/views/__init__.py:191-201 | the index found is one where the walker's node holds an evil of that step's schedule, and no index from k up to it (or to the end, when none is found) does |
| WalkStats.Died | app/classes/views/__init__.py:212-214 | a death records the path index and the death flag in one snapshot |
| WalkStats.Survived | app/classes/views/__init__.py:202-209 | a success records the last path index and the success flag in one snapshot |
| WalkStats.PerformWalk | app/classes/views/__init__.py:186-205 | an empty path raises. Otherwise the walk answers false iff some node meets a pre-move evil, recording one death at the first such index; else it records one success |
| WalkStats.NeverMeetsAtStart | app/classes/views/__init__.py:189-198 | with the start node excluded from the evils, the walk never dies at index 0 |
| LegacyNodes.NewLegacyNode | app/classes/node.py:23-37 | coordinates are truncated toward zero to whole numbers within 1 of the input; the label shows the values as given; state Default; the given selection |
| LegacyNodes.NewLabelMatchesIff | app/classes/node.py:27-29 | a new node's label holds the same numbers as its position iff the given coordinates were whole; the match is numeric, not textual |
| LegacyNodes.UpdateParameters | app/classes/node.py:75-77 | the label is rewritten from the coordinates; nothing else changes |
| LegacyNodes.SetPosition | app/classes/node.py:64-73 | `None` answers false with no change; otherwise the coordinates are taken as given and the label follows |
| LegacyNodes.SetPositionIdempotent | app/classes/node.py:64-77 | moving twice to the same place is moving once |
| LegacyNodes.SetAsSelected | app/classes/node.py:39-44 | `is_selected` answers the flag set; nothing else changes |
| LegacyNodes.SetState | app/classes/node.py:59-62 | the node takes the state; nothing else changes |
| LegacyNodes.SelectionRoundTrip | app/classes/node.py:39-90 | the selection set is read back; padded radius = radius + ring + padding; visual radius = radius + ring iff selected; radius ≤ visual ≤ padded |
| LegacyPathfinding.NewLegacyPathfinder | app/classes/pathfinder.py:5-9 | start, destination and path are unset |
| LegacyPathfinding.SetStartNode | app/classes/pathfinder.py:11-12 | only the start changes |
| LegacyPathfinding.SetDestinationNode | app/classes/pathfinder.py:14-15 | only the destination changes |
| LegacyPathfinding.BothRolesOnOneNode | app/classes/pathfinder.py:11-15 | with no mutual exclusion, one node can hold both roles |
| LegacyPathfinding.ClearNodeAsWritten | app/classes/pathfinder.py:17-21 | a node equal to the start or to the destination clears the start; the destination is never cleared |
| LegacyPathfinding.ClearNodeAsWrittenKeepsDestination | app/classes/pathfinder.py:20-21 | clearing the destination node as written keeps it the destination and drops the start |
| LegacyPathfinding.ClearNode | app/classes/pathfinder.py:17-21 | corrected: each role the node holds is cleared, and other roles stay |
| LegacyPathfinding.ClearNodeClearsRoles | app/classes/pathfinder.py:17-21 | after the corrected clear the node holds no role; a node holding none changes nothing; the two versions differ iff the node is the destination |
| LegacyPathfinding.FindPath | app/classes/pathfinder.py:26-38 | the base class finds `None`; A* finds the oracle's list or raises |
| LegacyPathfinding.UpdatePath | app/classes/pathfinder.py:23-24 | the path becomes what `find_path` yields, roles unchanged; on a raise nothing is stored |
| LegacyPathfinding.UpdatePathIdempotent | app/classes/pathfinder.py:23-38 | updating the path twice equals updating it once |
| LegacyNavigationGraph.NewLegacyGraph | app/classes/navigation_graph.py:89-94 | an empty, valid store: no nodes, edges, selection or roles |
| LegacyNavigationGraph.RemoveFirst | app/classes/navigation_graph.py:135 | `list.remove` drops one occurrence; on a duplicate-free list the element is gone and nothing else |
| LegacyNavigationGraph.SelectNode | app/classes/navigation_graph.py:126-130 | true iff the node is given and not selected, and then it is appended. Otherwise no change. The selection stays duplicate-free |
| LegacyNavigationGraph.DeselectNode | app/classes/navigation_graph.py:132-136 | true iff the node is given and selected, and then it is removed. Otherwise no change |
| LegacyNavigationGraph.SelectThenDeselect | app/classes/navigation_graph.py:126-136 | selecting an unselected node and deselecting it restores the store |
| LegacyNavigationGraph.SelectNodeAtPosition | app/classes/navigation_graph.py:138-142 | a found node's membership in the selection flips, and the selection stays duplicate-free |
| LegacyNavigationGraph.DeselectNodeAtPosition | app/classes/navigation_graph.py:144-148 | a found node's membership in the selection flips, and the selection stays duplicate-free |
| LegacyNavigationGraph.SelectAtPositionTwice | app/classes/navigation_graph.py:138-142 | clicking an unselected node twice restores the selection |
| LegacyNavigationGraph.DeselectAllNodes | app/classes/navigation_graph.py:150-151 | the selection is emptied; nothing else changes |
| LegacyNavigationGraph.SetStartNode | app/classes/navigation_graph.py:108-111 | `None` is ignored; otherwise only the start is overwritten |
| LegacyNavigationGraph.SetDestinationNode | app/classes/navigation_graph.py:113-116 | `None` is ignored; otherwise only the destination is overwritten |
| LegacyNavigationGraph.RolesMayCoincide | app/classes/navigation_graph.py:108-116 | one node can become both start and destination |
| LegacyNavigationGraph.AddNode | app/classes/navigation_graph.py:156-164 | succeeds iff the node is given and no graph node lies closer than the smaller of the two radii. A refusal changes nothing. Validity is kept |
| LegacyNavigationGraph.ReAddRefused | app/classes/navigation_graph.py:156-164 | a graph node of positive radius is too close to itself, so adding it again is refused |
| LegacyNavigationGraph.RemoveNode | app/classes/navigation_graph.py:166-174 | `None` answers false. Any other node is deselected first and loses its incident edges. It succeeds iff it was in the graph. Roles are untouched |
| LegacyNavigationGraph.AddEdge | app/classes/navigation_graph.py:176-184 | refused iff an endpoint is `None`, so self-loops are accepted; otherwise the edge exists and missing endpoints join |
| LegacyNavigationGraph.SelfLoopAccepted | app/classes/navigation_graph.py:176-184 | an edge from a node to itself is accepted and stored |
| LegacyNavigationGraph.RemoveEdge | app/classes/navigation_graph.py:186-194 | `None` endpoints answer false; an existing edge is removed with true; a missing edge answers `None` with no change |
| LegacyNavigationGraph.AddThenRemoveEdge | app/classes/navigation_graph.py:176-194 | adding a missing edge between graph nodes and removing it restores the store; removing a missing edge answers `None` |

## Left out

- PretreatPathfinder is not part of this model. Its altitude and occupancy edge costs, its
  waypoint re-planning, `block_node`, `unblock_node`, `get_path_cost` and `read_edge_cost`
  are oracles or parameters.
- networkx is abstracted. `astar_path` and `has_path` are oracles. The degree-based pruning
  `remove_undesired_edges` is not modelled. A DiGraph is a node sequence plus an edge set,
  and edge data (weights, Edge objects) is reduced to the path-edge flag.
- Environment.WeightIndex: Python's float arithmetic is modelled as exact `real`
  arithmetic, so the bucket of a weight can differ at exact bucket boundaries. For example,
  with weights 0..49 and 50 edge types, Python computes `int(1.0/49*49)` as 0 while the model
  gives bucket 1. The shipped configuration does not hit such a boundary.
- Analyzer.ScorePath: the float sum of each recorded cost times its chance `1/(n-2)` is
  modelled in exact `real` arithmetic, so Analyzer.ExpectedIsMean holds exactly where Python
  may be off by rounding.
- NavigationGraph.SetStartNode, NavigationGraph.SetDestinationNode,
  NavigationGraph.SetNodeToDefault, NavigationGraph.RemoveNode and NavigationGraph.UpdatePath
  assume that PretreatPathfinder keeps the role methods of app/classes/graph/pathfinder.py
  (`set_start_node`, `set_destination_node`, `clear_node`, `update_to_new_path`), overrides
  only `create_path`, and re-plans at once. Its source is not part of this model.
- Floating-point geometry is not modelled. Distances are compared on squared values, and
  positions in the graph package are integers. The altitude and weight formulas of
  environment.py are inputs (`altitude`, `posWeight`). `get_fairest_n_evils` and the agent
  animation are not modelled.
- Randomness is a parameter. The edge coins of `create_edges` are booleans. The evils'
  `random.choice` is a `Chooser` oracle. The initial `random.sample` of evils is the
  `evils` argument.
- Rendering, pyglet event dispatch, printing, CSV writing and MongoDB are not modelled. The
  path-update event is the returned `path` field, and the pop event is the popped value.
- NavigationGraph.UpdateNodeEdges: the edge weights and shapes that `update_node_edges`
  refreshes after (de)selection and moves are not modelled, since the model keeps no edge
  weights. Only its `NetworkXError` for a node outside the graph is modelled, as `Raised`.
- NavigationGraph.SelectNode, NavigationGraph.DeselectNode, NavigationGraph.ToggleSelect,
  NavigationGraph.MoveNode, NavigationGraph.MoveNodeAsWritten and NavigationGraph.RemoveNode
  model an exception only as the `Raised` outcome with the store as the exception leaves it.
  The exception type and message are not modelled, and nothing is promised about what a
  caller does after catching it.
- NavigationGraph.Update: the clean branch calls `pathfinder.update(dt)` on
  PretreatPathfinder, which is not part of this model. The model takes that call to leave
  the store unchanged, so a clean update changes nothing. The `self.pathfinder` falsy test is
  not modelled, because the store always has a pathfinder.
- `create_edge_from_selected_to`, `create_edge_to_selected_from`, `remove_edges_from_many`
  and `remove_edges_to_many` are not modelled. They are loops of the modelled edge
  operations.
- `get_node_from_position` is geometry. The `*_at_position` operations take the found node
  as an argument.
- The `Node` class defined inside app/classes/navigation_graph.py is not modelled
  separately. It is the legacy node without state, selection or the `None` check in
  `set_position`, and the legacy store reads only its position and radius.
- Agents.SetState: `set_animation_move` calls `animation.set_state`. The model assumes an
  animation that offers it and records the command in `moving`. The `Animation` class in
  app/classes/animation.py, which `SuperAgent` uses, has no `set_state`, so with it this
  call raises `AttributeError` after the run state is set. That raise is not modelled.
- Agents.SetTargetNode: the call `animation.set_target_position(position, set_to_move=False)`
  assumes an animation that takes a `set_to_move` keyword. The shipped
  `Animation.set_target_position` (app/classes/animation.py:55) takes only the position, so
  with it the call raises `TypeError` after the target is set. That raise is not modelled,
  and `aim` records the command as the assumed interface receives it.
- Agents.SetPath: with two or more nodes it calls `set_target_node`, so with the shipped
  `Animation` it raises as described for Agents.SetTargetNode. The same holds for
  Agents.NewAgent when it is given such a path. The raise is not modelled.
- `CustomPathfinder`, agency.py, persist.py, analysis.py, the views' run loops and the
  global `agent_number` are not part of this model.
- Python `int` is unbounded, like Dafny's, so no wrap-around is modelled. Labels are held
  as the numbers they spell: decimal strings in the graph package, and the two printed
  coordinates in the legacy node. Distinct numbers print as distinct text.
- WalkStats.Consistent: states the counter invariant per key: each count equals that key's
  number of snapshots. The sum of all counts equalling the number of snapshots follows from
  this but is not stated as a lemma.
- WalkStats.PerformWalk: the exclusion of the start node from the evils is not enforced,
  because `random.sample` lies outside the model. NeverMeetsAtStart states what it buys.
- Environment.StartAndTargetKeys: states start ≤ target rather than start < target, because
  for an odd grid width 2·padding+1 the two cells coincide.
- Analyzer.ScoringRestoresBlocked: assumes the interior nodes were not blocked before
  scoring. `unblock_node` of a node blocked beforehand is PretreatPathfinder behaviour.
- Analyzer.ScorePath: the base cost is a finite real. An infinite base cost (no path at
  all) is not modelled.

## Findings

| source | as written | input that shows it | evidently intended | confidence | as-written member | corrected member |
|---|---|---|---|---|---|---|
| app/classes/pathfinder.py:20-21 | when the node is the destination, `clear_node` sets `start_node` to `None` | start a, destination b ≠ a, `clear_node(b)`: the start is dropped and b stays the destination | clear `destination_node` | high (not executed) | LegacyPathfinding.ClearNodeAsWritten | LegacyPathfinding.ClearNode |
| app/classes/graph/navigation_graph.py:171-177 | `move_node` returns `False` on refusal but falls off its end, returning `None`, on success | any graph node moved to a valid position: the result is `None`, which is as falsy as a refusal | return `True` after a successful move | high (not executed) | NavigationGraph.MoveNodeAsWritten | NavigationGraph.MoveNode |

`LegacyPathfinding.ClearNodeAsWrittenKeepsDestination` exhibits the first discrepancy, and
`LegacyPathfinding.ClearNodeClearsRoles` proves the corrected version. For the second,
`NavigationGraph.MoveNodeSuccessIsFalsy` exhibits it, and the contract of
`NavigationGraph.MoveNode` states the intended answer.
