/** Start/destination bookkeeping of the graph-package pathfinder
    (app/classes/graph/pathfinder.py). The shortest-path search itself is an oracle. */
module Pathfinding {
  import opened Optional
  import opened Paths

  /** What `create_path` does: the base `Pathfinder` yields `None`; `AStarPathfinder` asks
      networkx's A* (`search`) for a node list from start to destination, where `None`
      stands for the `NetworkXNoPath` it raises when there is no route. */
  datatype Planner<!N> =
    | BasePlanner
    | AStarPlanner(search: (N, N) -> Option<seq<N>>)
      /** A subclass's own `create_path` (the store's PretreatPathfinder is not part of this
          model), taken as given. */
    | OraclePlanner(create: (Option<N>, Option<N>) -> Option<Path<N>>)

  datatype Pathfinder<N> = Pathfinder(start: Option<N>, destination: Option<N>, path: Option<Path<N>>)

  /** At most one role per node: when both roles are held, different nodes hold them. */
  predicate RolesDistinct<N(==)>(pf: Pathfinder<N>) {
    pf.start.Some? && pf.destination.Some? ==> pf.start != pf.destination
  }

  /** A fresh pathfinder: no start, no destination, no path. */
  function NewPathfinder<N>(): (pf: Pathfinder<N>)
    ensures pf.start.None? && pf.destination.None? && pf.path.None?
  {
    Pathfinder(None, None, None)
  }

  /** `create_path`. The A* planner always produces a `Path`: an empty, incomplete one when a
      role is unset or the search finds no route, otherwise exactly the searched node list. */
  function CreatePath<N>(planner: Planner<N>, start: Option<N>, destination: Option<N>): (r: Option<Path<N>>)
    ensures planner.BasePlanner? ==> r.None?
    ensures planner.AStarPlanner? ==> r.Some?
    ensures planner.OraclePlanner? ==> r == planner.create(start, destination)
    ensures planner.AStarPlanner? && (start.None? || destination.None?) ==> r == Some(Path([], false))
    ensures planner.AStarPlanner? && start.Some? && destination.Some? ==>
      var found := planner.search(start.value, destination.value);
      && (found.None? ==> r == Some(Path([], false)))
      && (found.Some? && |found.value| > 0 ==> r == Some(Path(found.value, true)))
      && (found.Some? && |found.value| == 0 ==> r == Some(Path([], false)))
  {
    match planner
    case BasePlanner => None
    case AStarPlanner(search) =>
      var nodes := if start.Some? && destination.Some? then search(start.value, destination.value).GetOr([]) else [];
      Some(NewPath(Listed(nodes)))
    case OraclePlanner(create) => create(start, destination)
  }

  /** `update_to_new_path`: the path is re-planned from the current roles. The
      `on_path_update` event it dispatches carries the new `path` field. */
  function UpdateToNewPath<N>(pf: Pathfinder<N>, planner: Planner<N>): (r: Pathfinder<N>)
    ensures r.start == pf.start && r.destination == pf.destination
    ensures r.path == CreatePath(planner, pf.start, pf.destination)
  {
    pf.(path := CreatePath(planner, pf.start, pf.destination))
  }

  /** `set_start_node`: the node becomes the start; the destination is cleared only if it was
      that same node; then the path is re-planned. */
  function SetStartNode<N(==)>(pf: Pathfinder<N>, planner: Planner<N>, n: Option<N>): (r: Pathfinder<N>)
    ensures r.start == n
    ensures pf.destination == n ==> r.destination.None?
    ensures pf.destination != n ==> r.destination == pf.destination
    ensures r.path == CreatePath(planner, r.start, r.destination)
    ensures RolesDistinct(r)
  {
    var cleared := if pf.destination == n then pf.(destination := None) else pf;
    UpdateToNewPath(cleared.(start := n), planner)
  }

  /** `set_destination_node`: the mirror image of `SetStartNode`. */
  function SetDestinationNode<N(==)>(pf: Pathfinder<N>, planner: Planner<N>, n: Option<N>): (r: Pathfinder<N>)
    ensures r.destination == n
    ensures pf.start == n ==> r.start.None?
    ensures pf.start != n ==> r.start == pf.start
    ensures r.path == CreatePath(planner, r.start, r.destination)
    ensures RolesDistinct(r)
  {
    var cleared := if pf.start == n then pf.(start := None) else pf;
    UpdateToNewPath(cleared.(destination := n), planner)
  }

  /** `clear_node`: every role held by `n` is dropped, and only then is the path re-planned.
      The flag reports whether anything changed (and hence whether an update was dispatched). */
  function ClearNode<N(==)>(pf: Pathfinder<N>, planner: Planner<N>, n: Option<N>): (r: (Pathfinder<N>, bool))
    ensures r.1 <==> pf.start == n || pf.destination == n
    ensures !r.1 ==> r.0 == pf
    ensures n.Some? ==> r.0.start != n && r.0.destination != n
    ensures r.0.start == (if pf.start == n then None else pf.start)
    ensures r.0.destination == (if pf.destination == n then None else pf.destination)
    ensures r.1 ==> r.0.path == CreatePath(planner, r.0.start, r.0.destination)
    ensures RolesDistinct(pf) ==> RolesDistinct(r.0)
  {
    var s := if pf.start == n then None else pf.start;
    var d := if pf.destination == n then None else pf.destination;
    var changed := pf.start == n || pf.destination == n;
    if changed then (UpdateToNewPath(pf.(start := s, destination := d), planner), true)
    else (pf, false)
  }

  /** `get_path`: a path is computed on demand when none is held. */
  function GetPath<N>(pf: Pathfinder<N>, planner: Planner<N>): (r: (Pathfinder<N>, Option<Path<N>>))
    ensures pf.path.Some? ==> r == (pf, pf.path)
    ensures pf.path.None? ==> r.0 == UpdateToNewPath(pf, planner) && r.1 == r.0.path
  {
    if pf.path.None? then
      var pf' := UpdateToNewPath(pf, planner);
      (pf', pf'.path)
    else (pf, pf.path)
  }

  /** `get_path_nodes`: the held path's nodes, or none when no path is held. */
  function GetPathNodes<N>(pf: Pathfinder<N>): (nodes: seq<N>)
    ensures pf.path.None? ==> nodes == []
    ensures pf.path.Some? ==> nodes == NodeList(pf.path.value)
  {
    if pf.path.Some? then NodeList(pf.path.value) else []
  }

  /** `get_path_edges`: the held path's consecutive pairs, or none when no path is held. */
  function GetPathEdges<N>(pf: Pathfinder<N>): (edges: seq<(N, N)>)
    ensures pf.path.None? ==> edges == []
    ensures |edges| == if |GetPathNodes(pf)| < 2 then 0 else |GetPathNodes(pf)| - 1
    ensures forall i :: 0 <= i < |edges| ==> edges[i] == (GetPathNodes(pf)[i], GetPathNodes(pf)[i + 1])
  {
    if pf.path.Some? then EdgePairs(pf.path.value.nodes) else []
  }

  /** An A* oracle that, whenever it answers, answers with a route from the start to the
      destination. */
  ghost predicate SoundSearch<N(!new)>(search: (N, N) -> Option<seq<N>>) {
    forall s, d :: search(s, d).Some? ==> |search(s, d).value| == 0 || (search(s, d).value[0] == s && search(s, d).value[|search(s, d).value| - 1] == d)
  }

  /** Setting a start and then a different destination holds both roles, and the A* path then
      either runs from the start to the destination or is empty. */
  lemma StartThenDestination<N(!new)>(pf: Pathfinder<N>, search: (N, N) -> Option<seq<N>>, s: N, d: N)
    requires s != d
    requires SoundSearch(search)
    ensures var r := SetDestinationNode(SetStartNode(pf, AStarPlanner(search), Some(s)), AStarPlanner(search), Some(d));
      && r.start == Some(s) && r.destination == Some(d)
      && r.path.Some?
      && (r.path.value.complete ==> r.path.value.nodes[0] == s && r.path.value.nodes[|r.path.value.nodes| - 1] == d)
      && (!r.path.value.complete ==> r.path.value.nodes == [])
  {
    var planner := AStarPlanner(search);
    var r1 := SetStartNode(pf, planner, Some(s));
    var r := SetDestinationNode(r1, planner, Some(d));
    assert r.start == Some(s);
    var found := search(s, d);
    if found.Some? && |found.value| > 0 {
      assert r.path == Some(Path(found.value, true));
    }
  }
}
