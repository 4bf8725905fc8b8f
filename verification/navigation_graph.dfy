/** The graph store of the graph package (app/classes/graph/navigation_graph.py): node and
    directed-edge editing with its rejection rules, selection, start/destination roles, the
    dense node relabelling, the dirty-flag gate of `update` and path-edge flagging.
    networkx's DiGraph becomes a node sequence (its insertion order) and an edge set, and the
    pathfinder's `create_path` is an oracle over the topology. */
module NavigationGraph {
  import opened Optional
  import opened Paths
  import opened Pathfinding
  import opened Nodes
  import Labels

  /** Python object identity of a node. */
  type NodeId = int

  type Edge = (NodeId, NodeId)

  /** The store pathfinder's `create_path`, as a function of the graph's nodes and edges and of
      the start and destination roles. */
  type Plan = (seq<NodeId>, set<Edge>, Option<NodeId>, Option<NodeId>) -> Option<Path<NodeId>>

  datatype NavGraph = NavGraph(
    /** Attributes of every node object the store can be handed. */
    objects: map<NodeId, Node>,
    /** `graph.nodes()`, in insertion order. */
    nodes: seq<NodeId>,
    /** `graph.edges()`. */
    edges: set<Edge>,
    /** The edges whose Edge object is flagged as a path edge. */
    pathEdges: set<Edge>,
    pathfinder: Pathfinder<NodeId>,
    positionsDirty: bool,
    nodeSetDirty: bool,
    selectDirty: bool)

  /** How a store operation ends: it returns `value`, or networkx raises `NetworkXError` out of
      it. Either way `store` is the store afterwards, since the operation may already have
      changed it when the error is raised. */
  datatype Outcome<T> = Returned(store: NavGraph, value: T) | Raised(store: NavGraph)

  /** `update_node_edges`: the edge weights and shapes it refreshes are not part of the store
      modelled here, so it changes nothing; `nx.all_neighbors` raises for a node outside the
      graph. When it returns, the caller's answer `v` is passed through. */
  function UpdateNodeEdges<T>(g: NavGraph, id: NodeId, v: T): (r: Outcome<T>)
    ensures r.store == g
    ensures r.Raised? <==> id !in g.nodes
    ensures r.Returned? ==> r.value == v
  {
    if id in g.nodes then Returned(g, v) else Raised(g)
  }

  /** Every node and role refers to a node object whose attributes are known. */
  predicate WellFormed(g: NavGraph) {
    && (forall i :: 0 <= i < |g.nodes| ==> g.nodes[i] in g.objects)
    && (g.pathfinder.start.Some? ==> g.pathfinder.start.value in g.objects)
    && (g.pathfinder.destination.Some? ==> g.pathfinder.destination.value in g.objects)
  }

  /** The shape every reachable store keeps: distinct nodes, edges between distinct member
      nodes, path flags only on existing edges, and distinct roles. */
  predicate Valid(g: NavGraph) {
    && WellFormed(g)
    && Distinct(g.nodes)
    && (forall e :: e in g.edges ==> e.0 in g.nodes && e.1 in g.nodes && e.0 != e.1)
    && g.pathEdges <= g.edges
    && RolesDistinct(g.pathfinder)
  }

  /** The node states agree with the pathfinder's roles on every node of the graph. */
  predicate StatesMatchRoles(g: NavGraph)
    requires WellFormed(g)
  {
    forall m :: m in g.nodes ==>
      && (g.objects[m].state == Start <==> g.pathfinder.start == Some(m))
      && (g.objects[m].state == Destination <==> g.pathfinder.destination == Some(m))
  }

  /** `NavigationGraph.__init__`: an empty graph, no roles, no path, all flags clear. */
  function NewNavGraph(objects: map<NodeId, Node>): (g: NavGraph)
    ensures Valid(g) && StatesMatchRoles(g)
    ensures g.nodes == [] && g.edges == {} && g.pathfinder == NewPathfinder()
    ensures !g.positionsDirty && !g.nodeSetDirty && !g.selectDirty
  {
    NavGraph(objects, [], {}, {}, NewPathfinder(), false, false, false)
  }

  /** The pathfinder's planner for the store's current topology. */
  function PlannerFor(g: NavGraph, plan: Plan): Planner<NodeId> {
    OraclePlanner((s, d) => plan(g.nodes, g.edges, s, d))
  }

  /** The consecutive pairs of a path, none when there is no path. */
  function PathPairs(path: Option<Path<NodeId>>): seq<Edge> {
    if path.Some? then EdgePairs(path.value.nodes) else []
  }

  /** `on_path_update`: an edge is flagged as a path edge exactly when it joins two
      consecutive nodes of the new path; with no path, no edge is flagged. */
  function OnPathUpdate(g: NavGraph, path: Option<Path<NodeId>>): (r: NavGraph)
    ensures forall e :: e in r.pathEdges <==> e in g.edges && e in PathPairs(path)
    ensures path.None? ==> r.pathEdges == {}
    ensures r.pathEdges <= g.edges
    ensures r == g.(pathEdges := r.pathEdges)
  {
    var pairs := PathPairs(path);
    g.(pathEdges := set e | e in g.edges && e in pairs)
  }

  /** Install a re-planned pathfinder and dispatch its path update to the store. */
  function Replanned(g: NavGraph, pf: Pathfinder<NodeId>): (r: NavGraph)
    ensures r.pathfinder == pf
    ensures forall e :: e in r.pathEdges <==> e in g.edges && e in PathPairs(pf.path)
    ensures r == g.(pathfinder := pf, pathEdges := r.pathEdges)
  {
    OnPathUpdate(g.(pathfinder := pf), pf.path)
  }

  /** `update_path` (and `start_pathfinding`): re-plan on the current topology and flag the
      new path's edges. */
  function UpdatePath(g: NavGraph, plan: Plan): (r: NavGraph)
    ensures r.pathfinder.path == plan(g.nodes, g.edges, g.pathfinder.start, g.pathfinder.destination)
    ensures r.pathfinder.start == g.pathfinder.start && r.pathfinder.destination == g.pathfinder.destination
    ensures forall e :: e in r.pathEdges <==> e in g.edges && e in PathPairs(r.pathfinder.path)
    ensures r == g.(pathfinder := r.pathfinder, pathEdges := r.pathEdges)
  {
    Replanned(g, UpdateToNewPath(g.pathfinder, PlannerFor(g, plan)))
  }

  // ---------------------------------------------------------------- geometry

  /** `distance < limit` for the Euclidean distance of two points, decided on squared
      integers: a non-positive limit is never exceeded from below. */
  predicate TooClose(p: (int, int), q: (int, int), limit: int) {
    limit > 0 && (p.0 - q.0) * (p.0 - q.0) + (p.1 - q.1) * (p.1 - q.1) < limit * limit
  }

  /** `is_valid_node_position`: no graph node outside `exceptions` lies closer to `pos` than
      twice that node's padded radius. */
  predicate IsValidNodePosition(g: NavGraph, cfg: RadiusConfig, pos: (int, int), exceptions: set<NodeId>)
    requires WellFormed(g)
  {
    forall m :: m in g.nodes && m !in exceptions ==>
      !TooClose(Position(g.objects[m]), pos, 2 * NodePaddedRadius(g.objects[m], cfg))
  }

  /** What the spacing test promises: with every graph node excepted any position is valid;
      excepting more nodes never refuses a position that was accepted; and the position of a
      padded graph node `m` that is not excepted is refused. */
  lemma IsValidNodePositionFacts(g: NavGraph, cfg: RadiusConfig, pos: (int, int), ex: set<NodeId>, more: set<NodeId>, m: NodeId)
    requires WellFormed(g)
    ensures (forall k :: k in g.nodes ==> k in ex) ==> IsValidNodePosition(g, cfg, pos, ex)
    ensures ex <= more && IsValidNodePosition(g, cfg, pos, ex) ==> IsValidNodePosition(g, cfg, pos, more)
    ensures m in g.nodes && m !in ex && Position(g.objects[m]) == pos && NodePaddedRadius(g.objects[m], cfg) > 0 ==>
      !IsValidNodePosition(g, cfg, pos, ex)
  {
  }

  // ---------------------------------------------------------------- labels

  /** The labels of the graph's nodes, in node order. */
  function NodeLabels(g: NavGraph): (ls: seq<Option<int>>)
    requires WellFormed(g)
    ensures |ls| == |g.nodes|
    ensures forall i :: 0 <= i < |g.nodes| ==> ls[i] == g.objects[g.nodes[i]].labelNo
  {
    seq(|g.nodes|, i requires 0 <= i < |g.nodes| => g.objects[g.nodes[i]].labelNo)
  }

  /** Give the i-th node of `ids` the label `labels[i]`. */
  function {:induction false} WithLabels(objects: map<NodeId, Node>, ids: seq<NodeId>, labels: seq<int>): (r: map<NodeId, Node>)
    requires |ids| == |labels| && Distinct(ids)
    requires forall i :: 0 <= i < |ids| ==> ids[i] in objects
    ensures r.Keys == objects.Keys
    ensures forall i :: 0 <= i < |ids| ==> r[ids[i]] == objects[ids[i]].(labelNo := Some(labels[i]))
    ensures forall m :: m in objects && m !in ids ==> r[m] == objects[m]
  {
    if |ids| == 0 then objects
    else
      var first := ids[0];
      var tail := ids[1..];
      assert Distinct(tail) && first !in tail by {
        forall i, j | 0 <= i < j < |tail| ensures tail[i] != tail[j] {
          assert tail[i] == ids[i + 1] && tail[j] == ids[j + 1];
        }
        forall i | 0 <= i < |tail| ensures tail[i] != first {
          assert tail[i] == ids[i + 1];
        }
      }
      assert forall i :: 0 <= i < |tail| ==> tail[i] == ids[i + 1];
      var rest := WithLabels(objects, tail, labels[1..]);
      var r := rest[first := objects[first].(labelNo := Some(labels[0]))];
      forall i | 0 <= i < |ids| ensures r[ids[i]] == objects[ids[i]].(labelNo := Some(labels[i])) {
        if i > 0 {
          assert ids[i] == tail[i - 1] && ids[i] != first;
          assert labels[i] == labels[1..][i - 1];
        }
      }
      forall m | m in objects && m !in ids ensures r[m] == objects[m] {
        assert m != first && m !in tail;
      }
      r
  }

  /** `update_node_labels` applied to the store. */
  function UpdateNodeLabels(g: NavGraph): (r: NavGraph)
    requires WellFormed(g) && Distinct(g.nodes)
    ensures WellFormed(r) && r.objects.Keys == g.objects.Keys
    ensures forall i :: 0 <= i < |g.nodes| ==>
      r.objects[g.nodes[i]] == g.objects[g.nodes[i]].(labelNo := Some(Labels.Relabel(NodeLabels(g))[i]))
    ensures forall m :: m in g.objects && m !in g.nodes ==> r.objects[m] == g.objects[m]
    ensures r == g.(objects := r.objects)
  {
    g.(objects := WithLabels(g.objects, g.nodes, Labels.Relabel(NodeLabels(g))))
  }

  /** Labels of the graph's nodes are exactly 1..count, each used once. */
  predicate LabelsDense(g: NavGraph)
    requires WellFormed(g)
  {
    && (forall i :: 0 <= i < |g.nodes| ==> g.objects[g.nodes[i]].labelNo.Some?)
    && (forall i, j :: 0 <= i < j < |g.nodes| ==> g.objects[g.nodes[i]].labelNo != g.objects[g.nodes[j]].labelNo)
    && (forall i :: 0 <= i < |g.nodes| ==> 1 <= g.objects[g.nodes[i]].labelNo.value <= |g.nodes|)
  }

  /** Relabelling a store whose labels are positive and distinct makes them dense. */
  lemma UpdateNodeLabelsDense(g: NavGraph)
    requires WellFormed(g) && Distinct(g.nodes)
    requires Labels.ProperLabels(NodeLabels(g))
    ensures LabelsDense(UpdateNodeLabels(g))
  {
    Labels.RelabelInRange(NodeLabels(g));
    DenseFrom(UpdateNodeLabels(g), Labels.Relabel(NodeLabels(g)));
  }

  /** Nodes labelled, in order, with distinct labels from 1..count are densely labelled. */
  lemma DenseFrom(g: NavGraph, ls: seq<int>)
    requires WellFormed(g) && |ls| == |g.nodes|
    requires forall i :: 0 <= i < |g.nodes| ==> g.objects[g.nodes[i]].labelNo == Some(ls[i])
    requires Labels.DistinctInts(ls)
    requires forall i :: 0 <= i < |ls| ==> 1 <= ls[i] <= |ls|
    ensures LabelsDense(g)
  {
    forall i, j | 0 <= i < j < |g.nodes|
      ensures g.objects[g.nodes[i]].labelNo != g.objects[g.nodes[j]].labelNo
    {
      assert ls[i] != ls[j];
    }
  }

  // ---------------------------------------------------------------- nodes

  /** `add_node`: refused, with the store unchanged, for `None` or for a position too close to
      an existing node; otherwise the node joins the graph, the node set is marked dirty and
      the labels are made dense again. */
  function AddNode(g: NavGraph, cfg: RadiusConfig, n: Option<NodeId>): (r: (NavGraph, bool))
    requires WellFormed(g) && Distinct(g.nodes)
    requires n.Some? ==> n.value in g.objects
    ensures r.1 <==> n.Some? && IsValidNodePosition(g, cfg, Position(g.objects[n.value]), {})
    ensures !r.1 ==> r.0 == g
    ensures r.1 ==> n.value in r.0.nodes && r.0.nodeSetDirty && WellFormed(r.0) && Distinct(r.0.nodes)
    ensures r.1 ==> r.0.edges == g.edges && r.0.pathEdges == g.pathEdges && r.0.pathfinder == g.pathfinder
    ensures r.1 ==> forall m :: m in r.0.nodes <==> m in g.nodes || m == n.value
    ensures r.1 ==> r.0.objects.Keys == g.objects.Keys
    ensures r.1 ==> forall m :: m in g.objects ==> r.0.objects[m] == g.objects[m].(labelNo := r.0.objects[m].labelNo)
  {
    if n.None? || !IsValidNodePosition(g, cfg, Position(g.objects[n.value]), {}) then (g, false)
    else (Admitted(g, n.value), true)
  }

  /** The accepting half of `add_node`: the node joins the graph (networkx ignores a node it
      already has), the node set is marked dirty and the labels are recomputed. */
  function Admitted(g: NavGraph, id: NodeId): (r: NavGraph)
    requires WellFormed(g) && Distinct(g.nodes) && id in g.objects
    ensures id in r.nodes && r.nodeSetDirty && WellFormed(r) && Distinct(r.nodes)
    ensures r.edges == g.edges && r.pathEdges == g.pathEdges && r.pathfinder == g.pathfinder
    ensures forall m :: m in r.nodes <==> m in g.nodes || m == id
    ensures r.objects.Keys == g.objects.Keys
    ensures forall m :: m in g.objects ==> r.objects[m] == g.objects[m].(labelNo := r.objects[m].labelNo)
  {
    var nodes := if id in g.nodes then g.nodes else g.nodes + [id];
    AppendFreshKeepsDistinct(g.nodes, id);
    assert forall m :: m in nodes <==> m in g.nodes || m == id;
    var g1 := g.(nodes := nodes, nodeSetDirty := true);
    assert WellFormed(g1) by {
      forall i | 0 <= i < |nodes| ensures nodes[i] in g.objects {
        assert nodes[i] in nodes;
        if nodes[i] != id {
          var j :| 0 <= j < |g.nodes| && g.nodes[j] == nodes[i];
        }
      }
    }
    UpdateNodeLabelsOnlyLabels(g1);
    var r := UpdateNodeLabels(g1);
    assert r.nodes == nodes;
    r
  }

  /** Appending an element not yet present keeps a sequence duplicate-free. */
  lemma AppendFreshKeepsDistinct(s: seq<NodeId>, id: NodeId)
    requires Distinct(s)
    ensures id !in s ==> Distinct(s + [id])
  {
  }

  /** Relabelling changes nothing about a node object but its label. */
  lemma UpdateNodeLabelsOnlyLabels(g: NavGraph)
    requires WellFormed(g) && Distinct(g.nodes)
    ensures forall m :: m in g.objects ==>
      UpdateNodeLabels(g).objects[m] == g.objects[m].(labelNo := UpdateNodeLabels(g).objects[m].labelNo)
  {
    var r := UpdateNodeLabels(g);
    forall m | m in g.objects ensures r.objects[m] == g.objects[m].(labelNo := r.objects[m].labelNo) {
      if m in g.nodes {
        var i :| 0 <= i < |g.nodes| && g.nodes[i] == m;
      }
    }
  }

  /** `move_node`, as intended: refused for `None` or a position too close to another node.
      Otherwise the node moves there and node positions are marked dirty; then
      `update_node_edges` raises for a node outside the graph, and a graph node answers true. */
  function MoveNode(g: NavGraph, cfg: RadiusConfig, n: Option<NodeId>, pos: (int, int)): (r: Outcome<bool>)
    requires WellFormed(g)
    requires n.Some? ==> n.value in g.objects
    ensures r.Returned? && r.value <==> n.Some? && n.value in g.nodes && IsValidNodePosition(g, cfg, pos, {n.value})
    ensures r.Raised? <==> n.Some? && n.value !in g.nodes && IsValidNodePosition(g, cfg, pos, {n.value})
    ensures !(n.Some? && IsValidNodePosition(g, cfg, pos, {n.value})) ==> r == Returned(g, false)
    ensures n.Some? && IsValidNodePosition(g, cfg, pos, {n.value}) ==>
      r.store.objects == g.objects[n.value := SetPosition(g.objects[n.value], Some(pos)).0]
    ensures n.Some? && IsValidNodePosition(g, cfg, pos, {n.value}) ==>
      Position(r.store.objects[n.value]) == pos && r.store.positionsDirty
    ensures n.Some? && IsValidNodePosition(g, cfg, pos, {n.value}) ==>
      r.store == g.(objects := r.store.objects, positionsDirty := true)
  {
    if n.None? || !IsValidNodePosition(g, cfg, pos, {n.value}) then Returned(g, false)
    else
      var moved := SetPosition(g.objects[n.value], Some(pos)).0;
      UpdateNodeEdges(g.(objects := g.objects[n.value := moved], positionsDirty := true), n.value, true)
  }

  /** `move_node` as written: it returns `False` when it refuses, but falls off its end, and so
      returns `None`, when it succeeds. */
  function MoveNodeAsWritten(g: NavGraph, cfg: RadiusConfig, n: Option<NodeId>, pos: (int, int)): (r: Outcome<Option<bool>>)
    requires WellFormed(g)
    requires n.Some? ==> n.value in g.objects
    ensures r.store == MoveNode(g, cfg, n, pos).store
    ensures r.Raised? <==> MoveNode(g, cfg, n, pos).Raised?
    ensures r.Returned? ==> r.value == if MoveNode(g, cfg, n, pos).value then None else Some(false)
  {
    match MoveNode(g, cfg, n, pos)
    case Raised(g1) => Raised(g1)
    case Returned(g1, moved) => Returned(g1, if moved then None else Some(false))
  }

  /** A successful move reports success as written, in a value no caller can tell apart from
      failure by truthiness. */
  lemma MoveNodeSuccessIsFalsy(g: NavGraph, cfg: RadiusConfig, id: NodeId, pos: (int, int))
    requires WellFormed(g) && id in g.objects
    requires IsValidNodePosition(g, cfg, pos, {id})
    ensures id in g.nodes ==> MoveNodeAsWritten(g, cfg, Some(id), pos).Returned?
    ensures id in g.nodes ==> MoveNodeAsWritten(g, cfg, Some(id), pos).value == None
    ensures id in g.nodes ==> MoveNode(g, cfg, Some(id), pos) == Returned(MoveNode(g, cfg, Some(id), pos).store, true)
    ensures id !in g.nodes ==> MoveNodeAsWritten(g, cfg, Some(id), pos).Raised?
  {
  }

  /** `remove_all_node_edges`: every edge touching the node, in either direction, is gone. */
  function RemoveAllNodeEdges(g: NavGraph, n: NodeId): (r: NavGraph)
    ensures forall e :: e in r.edges <==> e in g.edges && e.0 != n && e.1 != n
    ensures r.pathEdges == g.pathEdges * r.edges
    ensures r == g.(edges := r.edges, pathEdges := r.pathEdges)
  {
    var kept := set e | e in g.edges && e.0 != n && e.1 != n;
    g.(edges := kept, pathEdges := g.pathEdges * kept)
  }

  /** The sequence without one element. */
  function Without(s: seq<NodeId>, n: NodeId): (r: seq<NodeId>)
    ensures forall m :: m in r <==> m in s && m != n
    ensures |r| <= |s|
  {
    if |s| == 0 then []
    else (if s[0] == n then [] else [s[0]]) + Without(s[1..], n)
  }

  lemma {:induction false} WithoutKeepsDistinct(s: seq<NodeId>, n: NodeId)
    requires Distinct(s)
    ensures Distinct(Without(s, n))
  {
    if |s| > 0 {
      var tail := s[1..];
      assert Distinct(tail) by {
        forall i, j | 0 <= i < j < |tail| ensures tail[i] != tail[j] {
          assert tail[i] == s[i + 1] && tail[j] == s[j + 1];
        }
      }
      WithoutKeepsDistinct(tail, n);
      var rest := Without(tail, n);
      if s[0] != n {
        assert s[0] !in tail;
        assert s[0] !in rest;
        var r := [s[0]] + rest;
        forall i, j | 0 <= i < j < |r| ensures r[i] != r[j] {
          if i == 0 {
            assert r[j] == rest[j - 1];
          } else {
            assert r[i] == rest[i - 1] && r[j] == rest[j - 1];
          }
        }
      }
    }
  }

  /** `remove_node`: `None` is refused. Otherwise `deselect_node` runs first, and for a node
      outside the graph its `update_node_edges` raises, leaving the node deselected and the
      selection dirty. A graph node loses every incident edge and is removed; the node set is
      marked dirty, its roles are cleared (re-planning if it held one) and the labels are made
      dense again. The `except` branch answering false is never reached: the only node
      `graph.remove_node` refuses is one `deselect_node` has already raised for. */
  function RemoveNode(g: NavGraph, plan: Plan, n: Option<NodeId>): (r: Outcome<bool>)
    requires WellFormed(g) && Distinct(g.nodes)
    requires n.Some? ==> n.value in g.objects
    ensures n.None? ==> r == Returned(g, false)
    ensures n.Some? ==> (r.Raised? <==> n.value !in g.nodes)
    ensures n.Some? && r.Returned? ==> r.value
    ensures n.Some? ==> WellFormed(r.store) && Distinct(r.store.nodes) && r.store.objects.Keys == g.objects.Keys
    ensures n.Some? ==> !IsSelected(r.store.objects[n.value]) && r.store.selectDirty
    ensures n.Some? && r.Raised? ==>
      r.store == g.(objects := g.objects[n.value := SetAsSelected(g.objects[n.value], false)], selectDirty := true)
    ensures n.Some? && r.Returned? ==> forall e :: e in r.store.edges <==> e in g.edges && e.0 != n.value && e.1 != n.value
    ensures n.Some? && r.Returned? ==> forall m :: m in r.store.nodes <==> m in g.nodes && m != n.value
    ensures n.Some? && r.Returned? ==> r.store.nodeSetDirty
    ensures n.Some? && r.Returned? ==> r.store.pathfinder.start != n && r.store.pathfinder.destination != n
    ensures n.Some? && r.Returned? ==>
      r.store.pathfinder.start == (if g.pathfinder.start == n then None else g.pathfinder.start)
    ensures n.Some? && r.Returned? ==>
      r.store.pathfinder.destination == (if g.pathfinder.destination == n then None else g.pathfinder.destination)
  {
    if n.None? then Returned(g, false)
    else
      var id := n.value;
      var d := DeselectNode(g, n);
      if d.Raised? then Raised(d.store)
      else
        var g2 := RemoveAllNodeEdges(d.store, id);
        var u := Unlinked(g2, plan, id);
        UpdateNodeLabelsOnlyLabels(u);
        Returned(UpdateNodeLabels(u), true)
  }

  /** The node leaves the node list and gives up its roles (re-planning if it held one); the
      node set is marked dirty. `remove_node` then relabels the result. */
  function Unlinked(g: NavGraph, plan: Plan, id: NodeId): (r: NavGraph)
    requires WellFormed(g) && Distinct(g.nodes) && id in g.objects
    ensures WellFormed(r) && Distinct(r.nodes)
    ensures r.nodes == Without(g.nodes, id) && r.objects == g.objects && r.edges == g.edges
    ensures r.nodeSetDirty && r.selectDirty == g.selectDirty
    ensures r.pathfinder.start == (if g.pathfinder.start == Some(id) then None else g.pathfinder.start)
    ensures r.pathfinder.destination == (if g.pathfinder.destination == Some(id) then None else g.pathfinder.destination)
    ensures RolesDistinct(g.pathfinder) ==> RolesDistinct(r.pathfinder)
    ensures g.pathEdges <= g.edges ==> r.pathEdges <= r.edges
  {
    WithoutKeepsDistinct(g.nodes, id);
    var g3 := g.(nodes := Without(g.nodes, id), nodeSetDirty := true);
    var (pf, changed) := ClearNode(g3.pathfinder, PlannerFor(g3, plan), Some(id));
    var g4 := if changed then Replanned(g3, pf) else g3;
    forall i | 0 <= i < |g4.nodes| ensures g4.nodes[i] in g4.objects {
      assert g4.nodes[i] in g4.nodes;
      var j :| 0 <= j < |g.nodes| && g.nodes[j] == g4.nodes[i];
    }
    g4
  }

  // ---------------------------------------------------------------- edges

  /** `add_edge`: refused, with the store unchanged, for a `None` endpoint or a self-loop.
      Otherwise the edge exists afterwards (networkx adds missing endpoints, and replaces an
      existing edge's data with a fresh, unflagged Edge object) and the node set is dirty. */
  function AddEdge(g: NavGraph, u: Option<NodeId>, v: Option<NodeId>): (r: (NavGraph, bool))
    requires u.Some? ==> u.value in g.objects
    requires v.Some? ==> v.value in g.objects
    ensures r.1 <==> u.Some? && v.Some? && u != v
    ensures !r.1 ==> r.0 == g
    ensures r.1 ==> r.0.edges == g.edges + {(u.value, v.value)} && r.0.nodeSetDirty
    ensures r.1 ==> r.0.pathEdges == g.pathEdges - {(u.value, v.value)}
    ensures r.1 ==> forall m :: m in r.0.nodes <==> m in g.nodes || m == u.value || m == v.value
    ensures r.1 && u.value in g.nodes && v.value in g.nodes ==> r.0.nodes == g.nodes
    ensures r.1 ==> r.0 == g.(nodes := r.0.nodes, edges := r.0.edges, pathEdges := r.0.pathEdges, nodeSetDirty := true)
  {
    if u.None? || v.None? || u == v then (g, false)
    else
      var a := u.value;
      var b := v.value;
      var withA := if a in g.nodes then g.nodes else g.nodes + [a];
      var withB := if b in withA then withA else withA + [b];
      (g.(nodes := withB, edges := g.edges + {(a, b)}, pathEdges := g.pathEdges - {(a, b)}, nodeSetDirty := true), true)
  }

  /** `remove_edge`: refused, with the store unchanged, for a `None` endpoint or a missing edge
      (networkx raises); otherwise exactly that edge is removed and the node set is dirty. */
  function RemoveEdge(g: NavGraph, u: Option<NodeId>, v: Option<NodeId>): (r: (NavGraph, bool))
    ensures r.1 <==> u.Some? && v.Some? && (u.value, v.value) in g.edges
    ensures !r.1 ==> r.0 == g
    ensures r.1 ==> r.0.edges == g.edges - {(u.value, v.value)}
    ensures r.1 ==> r.0 == g.(edges := r.0.edges, pathEdges := g.pathEdges - {(u.value, v.value)}, nodeSetDirty := true)
  {
    if u.None? || v.None? || (u.value, v.value) !in g.edges then (g, false)
    else
      var e := (u.value, v.value);
      (g.(edges := g.edges - {e}, pathEdges := g.pathEdges - {e}, nodeSetDirty := true), true)
  }

  /** Adding a new edge between two graph nodes and removing it again restores the store,
      apart from the node-set dirty flag. */
  lemma AddThenRemoveEdge(g: NavGraph, a: NodeId, b: NodeId)
    requires Valid(g)
    requires a in g.nodes && b in g.nodes && a != b && (a, b) !in g.edges
    ensures var added := AddEdge(g, Some(a), Some(b));
      && added.1
      && RemoveEdge(added.0, Some(a), Some(b)) == (g.(nodeSetDirty := true), true)
  {
    var added := AddEdge(g, Some(a), Some(b)).0;
    assert added.edges - {(a, b)} == g.edges;
    assert added.pathEdges - {(a, b)} == g.pathEdges;
  }

  // ---------------------------------------------------------------- selection

  /** `select_node`: `None` is refused. Otherwise the node is marked selected and the selection
      dirty; then `update_node_edges` raises for a node outside the graph, and a graph node
      answers true exactly when it was not selected before. */
  function SelectNode(g: NavGraph, n: Option<NodeId>): (r: Outcome<bool>)
    requires n.Some? ==> n.value in g.objects
    ensures n.None? ==> r == Returned(g, false)
    ensures n.Some? ==> (r.Raised? <==> n.value !in g.nodes)
    ensures n.Some? ==> r.store == g.(objects := g.objects[n.value := SetAsSelected(g.objects[n.value], true)], selectDirty := true)
    ensures n.Some? && r.Returned? ==> r.value == !IsSelected(g.objects[n.value])
    ensures n.Some? ==> IsSelected(r.store.objects[n.value]) && r.store.selectDirty
  {
    if n.None? then Returned(g, false)
    else
      var added := !IsSelected(g.objects[n.value]);
      var g1 := g.(objects := g.objects[n.value := SetAsSelected(g.objects[n.value], true)], selectDirty := true);
      UpdateNodeEdges(g1, n.value, added)
  }

  /** `deselect_node`: the dual of `SelectNode`, raising in the same case. */
  function DeselectNode(g: NavGraph, n: Option<NodeId>): (r: Outcome<bool>)
    requires n.Some? ==> n.value in g.objects
    ensures n.None? ==> r == Returned(g, false)
    ensures n.Some? ==> (r.Raised? <==> n.value !in g.nodes)
    ensures n.Some? ==> r.store == g.(objects := g.objects[n.value := SetAsSelected(g.objects[n.value], false)], selectDirty := true)
    ensures n.Some? && r.Returned? ==> r.value == IsSelected(g.objects[n.value])
    ensures n.Some? ==> !IsSelected(r.store.objects[n.value]) && r.store.selectDirty
  {
    if n.None? then Returned(g, false)
    else
      var removed := IsSelected(g.objects[n.value]);
      var g1 := g.(objects := g.objects[n.value := SetAsSelected(g.objects[n.value], false)], selectDirty := true);
      UpdateNodeEdges(g1, n.value, removed)
  }

  /** Selecting an unselected graph node and deselecting it again restores the store, apart
      from the selection dirty flag, and both steps answer true. */
  lemma SelectThenDeselect(g: NavGraph, id: NodeId)
    requires id in g.nodes && id in g.objects && !IsSelected(g.objects[id])
    ensures SelectNode(g, Some(id)) == Returned(SelectNode(g, Some(id)).store, true)
    ensures DeselectNode(SelectNode(g, Some(id)).store, Some(id)) == Returned(g.(selectDirty := true), true)
  {
  }

  /** `toggle_select`: without a comparison value the node's selection flips. It returns
      nothing, and raises where the select or deselect it delegates to raises. */
  function ToggleSelect(g: NavGraph, n: Option<NodeId>, compare: Option<bool>): (r: Outcome<()>)
    requires n.Some? ==> n.value in g.objects
    ensures n.None? ==> r == Returned(g, ())
    ensures n.Some? ==> (r.Raised? <==> n.value !in g.nodes)
    ensures n.Some? ==> r.store.objects.Keys == g.objects.Keys && r.store.selectDirty
    ensures n.Some? ==> IsSelected(r.store.objects[n.value]) == !compare.GetOr(IsSelected(g.objects[n.value]))
    ensures n.Some? && compare.None? ==> IsSelected(r.store.objects[n.value]) == !IsSelected(g.objects[n.value])
    ensures n.Some? ==> forall m :: m in g.objects && m != n.value ==> r.store.objects[m] == g.objects[m]
  {
    if n.None? then Returned(g, ())
    else
      var d := if compare.GetOr(IsSelected(g.objects[n.value])) then DeselectNode(g, n) else SelectNode(g, n);
      match d
      case Raised(g1) => Raised(g1)
      case Returned(g1, _) => Returned(g1, ())
  }

  /** `get_selected_nodes`: the selected graph nodes, in node order. */
  function GetSelectedNodes(g: NavGraph, ids: seq<NodeId>): (sel: seq<NodeId>)
    requires forall i :: 0 <= i < |ids| ==> ids[i] in g.objects
    ensures forall m :: m in sel <==> m in ids && IsSelected(g.objects[m])
  {
    if |ids| == 0 then []
    else (if IsSelected(g.objects[ids[0]]) then [ids[0]] else []) + GetSelectedNodes(g, ids[1..])
  }

  /** Deselect each of `ids` in turn; all of them are graph nodes, so none raises. */
  function DeselectEach(g: NavGraph, ids: seq<NodeId>): (r: NavGraph)
    requires forall i :: 0 <= i < |ids| ==> ids[i] in g.objects && ids[i] in g.nodes
    decreases |ids|
    ensures r.objects.Keys == g.objects.Keys
    ensures forall m :: m in ids ==> !IsSelected(r.objects[m])
    ensures forall m :: m in g.objects && m !in ids ==> r.objects[m] == g.objects[m]
    ensures forall m :: m in g.objects ==> r.objects[m] == g.objects[m].(selected := r.objects[m].selected)
    ensures r.selectDirty == (g.selectDirty || |ids| > 0)
    ensures r == g.(objects := r.objects, selectDirty := r.selectDirty)
  {
    if |ids| == 0 then g
    else DeselectEach(DeselectNode(g, Some(ids[0])).store, ids[1..])
  }

  /** `deselect_all_nodes`: no graph node is selected afterwards; nothing else about the nodes
      changes, and the selection is dirty when something was selected. */
  function DeselectAllNodes(g: NavGraph): (r: NavGraph)
    requires WellFormed(g)
    ensures r.objects.Keys == g.objects.Keys
    ensures forall m :: m in g.nodes ==> !IsSelected(r.objects[m])
    ensures forall m :: m in g.objects && !(m in g.nodes && IsSelected(g.objects[m])) ==> r.objects[m] == g.objects[m]
    ensures r.selectDirty <==> g.selectDirty || exists m :: m in g.nodes && IsSelected(g.objects[m])
    ensures r == g.(objects := r.objects, selectDirty := r.selectDirty)
  {
    var sel := GetSelectedNodes(g, g.nodes);
    assert forall i :: 0 <= i < |sel| ==> sel[i] in g.objects && sel[i] in g.nodes by {
      forall i | 0 <= i < |sel| ensures sel[i] in g.objects && sel[i] in g.nodes {
        assert sel[i] in sel;
        var j :| 0 <= j < |g.nodes| && g.nodes[j] == sel[i];
      }
    }
    var r := DeselectEach(g, sel);
    assert |sel| > 0 <==> exists m :: m in g.nodes && IsSelected(g.objects[m]) by {
      if |sel| > 0 {
        assert sel[0] in sel;
      }
      if exists m :: m in g.nodes && IsSelected(g.objects[m]) {
        var m :| m in g.nodes && IsSelected(g.objects[m]);
        assert m in sel;
      }
    }
    forall m | m in g.nodes ensures !IsSelected(r.objects[m]) {
      if IsSelected(g.objects[m]) {
        assert m in sel;
      } else {
        assert m !in sel;
      }
    }
    forall m | m in g.objects && !(m in g.nodes && IsSelected(g.objects[m])) ensures r.objects[m] == g.objects[m] {
      assert m !in sel;
    }
    r
  }

  // ---------------------------------------------------------------- roles

  /** `set_node_to_default`: the node loses any role (re-planning if it held one) and takes
      the Default state. */
  function SetNodeToDefault(g: NavGraph, plan: Plan, n: Option<NodeId>): (r: NavGraph)
    requires n.Some? ==> n.value in g.objects
    ensures n.None? ==> r == g
    ensures n.Some? ==> r.objects == g.objects[n.value := SetState(g.objects[n.value], Default)]
    ensures n.Some? ==> r.pathfinder == ClearNode(g.pathfinder, PlannerFor(g, plan), n).0
    ensures r.nodes == g.nodes && r.edges == g.edges
    ensures !(g.pathfinder.start == n || g.pathfinder.destination == n) ==> r.pathEdges == g.pathEdges
  {
    if n.None? then g
    else
      var (pf, changed) := ClearNode(g.pathfinder, PlannerFor(g, plan), n);
      var g1 := if changed then Replanned(g, pf) else g;
      g1.(objects := g1.objects[n.value := SetState(g1.objects[n.value], Default)])
  }

  /** `set_start_node`: for a node that is not already the start, the old start goes back to
      Default, the node becomes the pathfinder's start (the destination is dropped if it was
      this node), the path is re-planned and the node takes the Start state. Otherwise nothing
      changes. */
  function SetStartNode(g: NavGraph, plan: Plan, n: Option<NodeId>): (r: NavGraph)
    requires WellFormed(g)
    requires n.Some? ==> n.value in g.objects
    ensures n.None? || n == g.pathfinder.start ==> r == g
    ensures WellFormed(r) && r.nodes == g.nodes && r.edges == g.edges && r.objects.Keys == g.objects.Keys
    ensures n.Some? && n != g.pathfinder.start ==>
      && r.pathfinder.start == n
      && r.objects[n.value].state == Start
      && (g.pathfinder.start.Some? ==> r.objects[g.pathfinder.start.value].state == Default)
      && r.pathfinder.path == plan(g.nodes, g.edges, r.pathfinder.start, r.pathfinder.destination)
      && (RolesDistinct(g.pathfinder) ==> r.pathfinder.destination == (if g.pathfinder.destination == n then None else g.pathfinder.destination))
      && (forall m :: m in g.objects && m != n.value && Some(m) != g.pathfinder.start ==> r.objects[m] == g.objects[m])
    ensures RolesDistinct(r.pathfinder)  || r == g
  {
    if n.None? || n == g.pathfinder.start then g
    else
      var g1 := SetNodeToDefault(g, plan, g.pathfinder.start);
      var pf := Pathfinding.SetStartNode(g1.pathfinder, PlannerFor(g1, plan), n);
      var g2 := Replanned(g1, pf);
      g2.(objects := g2.objects[n.value := SetState(g2.objects[n.value], Start)])
  }

  /** `set_destination_node`: the mirror image of `SetStartNode`. */
  function SetDestinationNode(g: NavGraph, plan: Plan, n: Option<NodeId>): (r: NavGraph)
    requires WellFormed(g)
    requires n.Some? ==> n.value in g.objects
    ensures n.None? || n == g.pathfinder.destination ==> r == g
    ensures WellFormed(r) && r.nodes == g.nodes && r.edges == g.edges && r.objects.Keys == g.objects.Keys
    ensures n.Some? && n != g.pathfinder.destination ==>
      && r.pathfinder.destination == n
      && r.objects[n.value].state == Destination
      && (g.pathfinder.destination.Some? ==> r.objects[g.pathfinder.destination.value].state == Default)
      && r.pathfinder.path == plan(g.nodes, g.edges, r.pathfinder.start, r.pathfinder.destination)
      && (RolesDistinct(g.pathfinder) ==> r.pathfinder.start == (if g.pathfinder.start == n then None else g.pathfinder.start))
      && (forall m :: m in g.objects && m != n.value && Some(m) != g.pathfinder.destination ==> r.objects[m] == g.objects[m])
    ensures RolesDistinct(r.pathfinder)  || r == g
  {
    if n.None? || n == g.pathfinder.destination then g
    else
      var g1 := SetNodeToDefault(g, plan, g.pathfinder.destination);
      var pf := Pathfinding.SetDestinationNode(g1.pathfinder, PlannerFor(g1, plan), n);
      var g2 := Replanned(g1, pf);
      g2.(objects := g2.objects[n.value := SetState(g2.objects[n.value], Destination)])
  }

  /** `set_node_state`: dispatch on the requested state. */
  function SetNodeState(g: NavGraph, plan: Plan, n: Option<NodeId>, s: NodeState): (r: NavGraph)
    requires WellFormed(g)
    requires n.Some? ==> n.value in g.objects
    ensures n.None? ==> r == g
    ensures n.Some? && s == Start ==> r == SetStartNode(g, plan, n)
    ensures n.Some? && s == Destination ==> r == SetDestinationNode(g, plan, n)
    ensures n.Some? && s == Default ==> r == SetNodeToDefault(g, plan, n)
  {
    if n.None? then g
    else match s
      case Start => SetStartNode(g, plan, n)
      case Destination => SetDestinationNode(g, plan, n)
      case Default => SetNodeToDefault(g, plan, n)
  }

  // ---------------------------------------------------------------- update

  /** `update`: when any dirty flag is set the path is re-planned (and its edges flagged);
      otherwise the store is left as it is. All three flags are clear afterwards. */
  function Update(g: NavGraph, plan: Plan): (r: NavGraph)
    ensures !r.positionsDirty && !r.nodeSetDirty && !r.selectDirty
    ensures r.nodes == g.nodes && r.edges == g.edges && r.objects == g.objects
    ensures r.pathfinder.start == g.pathfinder.start && r.pathfinder.destination == g.pathfinder.destination
    ensures (g.positionsDirty || g.nodeSetDirty || g.selectDirty) ==>
      && r.pathfinder.path == plan(g.nodes, g.edges, g.pathfinder.start, g.pathfinder.destination)
      && (forall e :: e in r.pathEdges <==> e in g.edges && e in PathPairs(r.pathfinder.path))
    ensures !(g.positionsDirty || g.nodeSetDirty || g.selectDirty) ==> r == g
  {
    var anyDirty := g.positionsDirty || g.nodeSetDirty || g.selectDirty;
    var g1 := if anyDirty then UpdatePath(g, plan) else g;
    g1.(positionsDirty := false, nodeSetDirty := false, selectDirty := false)
  }

  // ---------------------------------------------------------------- invariants

  /** A freshly constructed node object: Default state, no label, no role. */
  predicate Fresh(g: NavGraph, id: NodeId) {
    id in g.objects && g.objects[id].state == Default && g.objects[id].labelNo.None?
      && g.pathfinder.start != Some(id) && g.pathfinder.destination != Some(id)
  }

  /** Appending an unlabelled node to a densely labelled graph leaves labels that
      `update_node_labels` can make dense again. */
  lemma AppendUnlabeledProper(g: NavGraph, id: NodeId)
    requires WellFormed(g) && LabelsDense(g)
    requires id in g.objects && g.objects[id].labelNo.None?
    ensures Labels.ProperLabels(NodeLabels(g.(nodes := g.nodes + [id])))
  {
    var h := g.(nodes := g.nodes + [id]);
    var ls := NodeLabels(h);
    forall i, j | 0 <= i < j < |ls| && ls[i].Some? && ls[j].Some? ensures ls[i].value != ls[j].value {
      assert h.nodes[i] == g.nodes[i];
      assert h.nodes[j] == g.nodes[j];
    }
    forall i | 0 <= i < |ls| && ls[i].Some? ensures ls[i].value >= 1 {
      assert h.nodes[i] == g.nodes[i];
    }
  }

  /** Keeping some of the nodes of a densely labelled graph, with their labels, leaves labels
      that `update_node_labels` can make dense again. */
  lemma SubgraphProper(g: NavGraph, h: NavGraph)
    requires WellFormed(g) && LabelsDense(g) && WellFormed(h) && Distinct(h.nodes)
    requires forall m :: m in h.nodes ==> m in g.nodes
    requires forall m :: m in h.nodes ==> h.objects[m].labelNo == g.objects[m].labelNo
    ensures Labels.ProperLabels(NodeLabels(h))
  {
    var ls := NodeLabels(h);
    forall i | 0 <= i < |ls| ensures ls[i].Some? && ls[i].value >= 1 {
      var m := h.nodes[i];
      assert m in h.nodes;
      assert m in g.nodes;
      var k :| 0 <= k < |g.nodes| && g.nodes[k] == h.nodes[i];
    }
    forall i, j | 0 <= i < j < |ls| ensures ls[i] != ls[j] {
      assert h.nodes[i] in h.nodes && h.nodes[j] in h.nodes;
      assert h.nodes[i] in g.nodes && h.nodes[j] in g.nodes;
      var i' :| 0 <= i' < |g.nodes| && g.nodes[i'] == h.nodes[i];
      var j' :| 0 <= j' < |g.nodes| && g.nodes[j'] == h.nodes[j];
      assert i' != j';
      if i' < j' {
        assert g.objects[g.nodes[i']].labelNo != g.objects[g.nodes[j']].labelNo;
      } else {
        assert g.objects[g.nodes[j']].labelNo != g.objects[g.nodes[i']].labelNo;
      }
    }
  }

  /** Adding a node keeps the store valid. */
  lemma AddNodeKeepsValid(g: NavGraph, cfg: RadiusConfig, n: Option<NodeId>)
    requires Valid(g)
    requires n.Some? ==> n.value in g.objects
    ensures Valid(AddNode(g, cfg, n).0)
  {
    var r := AddNode(g, cfg, n).0;
    forall e | e in r.edges ensures e.0 in r.nodes && e.1 in r.nodes {
      assert e in g.edges;
    }
  }

  /** Adding a fresh node to a densely labelled store keeps the labels dense and the node
      states in step with the roles. */
  lemma AddNodeKeepsLabelsAndRoles(g: NavGraph, cfg: RadiusConfig, id: NodeId)
    requires Valid(g) && Fresh(g, id)
    ensures LabelsDense(g) ==> LabelsDense(AddNode(g, cfg, Some(id)).0)
    ensures StatesMatchRoles(g) ==> StatesMatchRoles(AddNode(g, cfg, Some(id)).0)
  {
    if LabelsDense(g) {
      AddNodeKeepsLabelsDense(g, cfg, id);
    }
    if StatesMatchRoles(g) {
      AddNodeKeepsRoles(g, cfg, id);
    }
  }

  lemma AddNodeKeepsLabelsDense(g: NavGraph, cfg: RadiusConfig, id: NodeId)
    requires Valid(g) && Fresh(g, id) && LabelsDense(g)
    ensures LabelsDense(AddNode(g, cfg, Some(id)).0)
  {
    var (r, ok) := AddNode(g, cfg, Some(id));
    if ok {
      var g1 := g.(nodes := if id in g.nodes then g.nodes else g.nodes + [id], nodeSetDirty := true);
      assert r == UpdateNodeLabels(g1);
      if id !in g.nodes {
        AppendUnlabeledProper(g, id);
        assert NodeLabels(g1) == NodeLabels(g.(nodes := g.nodes + [id]));
        UpdateNodeLabelsDense(g1);
      } else {
        SubgraphProper(g, g1);
        UpdateNodeLabelsDense(g1);
      }
    }
  }

  lemma AddNodeKeepsRoles(g: NavGraph, cfg: RadiusConfig, id: NodeId)
    requires Valid(g) && Fresh(g, id) && StatesMatchRoles(g)
    ensures StatesMatchRoles(AddNode(g, cfg, Some(id)).0)
  {
    var (r, ok) := AddNode(g, cfg, Some(id));
    if ok {
      forall m | m in r.nodes
        ensures (r.objects[m].state == Start <==> r.pathfinder.start == Some(m))
        ensures (r.objects[m].state == Destination <==> r.pathfinder.destination == Some(m))
      {
        assert r.objects[m].state == g.objects[m].state;
      }
    }
  }

  /** Removing a node keeps the store valid, whether it returns or raises. */
  lemma RemoveNodeKeepsValid(g: NavGraph, plan: Plan, n: Option<NodeId>)
    requires Valid(g)
    requires n.Some? ==> n.value in g.objects
    ensures Valid(RemoveNode(g, plan, n).store)
  {
  }

  /** Removing a node from a densely labelled store keeps the labels dense. */
  lemma RemoveNodeKeepsLabelsDense(g: NavGraph, plan: Plan, id: NodeId)
    requires Valid(g) && LabelsDense(g) && id in g.objects
    ensures LabelsDense(RemoveNode(g, plan, Some(id)).store)
  {
    var r := RemoveNode(g, plan, Some(id)).store;
    if id in g.nodes {
      var g2 := RemoveAllNodeEdges(DeselectNode(g, Some(id)).store, id);
      var u := Unlinked(g2, plan, id);
      SubgraphProper(g, u);
      UpdateNodeLabelsDense(u);
      assert r == UpdateNodeLabels(u);
    } else {
      assert r.nodes == g.nodes;
      assert forall m :: m in g.nodes ==> r.objects[m].labelNo == g.objects[m].labelNo;
    }
  }

  /** Removing a node keeps the node states in step with the roles. */
  lemma RemoveNodeKeepsRoles(g: NavGraph, plan: Plan, n: Option<NodeId>)
    requires Valid(g) && StatesMatchRoles(g)
    requires n.Some? ==> n.value in g.objects
    ensures StatesMatchRoles(RemoveNode(g, plan, n).store)
  {
  }

  /** Making a node the start keeps the store valid and the node states in step with the
      roles. */
  lemma SetStartNodeInvariants(g: NavGraph, plan: Plan, n: Option<NodeId>)
    requires Valid(g)
    requires n.Some? ==> n.value in g.objects
    ensures Valid(SetStartNode(g, plan, n))
    ensures StatesMatchRoles(g) ==> StatesMatchRoles(SetStartNode(g, plan, n))
  {
    SetStartNodeKeepsValid(g, plan, n);
    if StatesMatchRoles(g) {
      SetStartNodeKeepsRoles(g, plan, n);
    }
  }

  lemma SetStartNodeKeepsValid(g: NavGraph, plan: Plan, n: Option<NodeId>)
    requires Valid(g)
    requires n.Some? ==> n.value in g.objects
    ensures Valid(SetStartNode(g, plan, n))
  {
    var r := SetStartNode(g, plan, n);
    if n.Some? && n != g.pathfinder.start {
      var g1 := SetNodeToDefault(g, plan, g.pathfinder.start);
      var pf := Pathfinding.SetStartNode(g1.pathfinder, PlannerFor(g1, plan), n);
      var g2 := Replanned(g1, pf);
      assert r.pathEdges == g2.pathEdges <= g2.edges;
    }
  }

  lemma SetStartNodeKeepsRoles(g: NavGraph, plan: Plan, n: Option<NodeId>)
    requires Valid(g) && StatesMatchRoles(g)
    requires n.Some? ==> n.value in g.objects
    ensures StatesMatchRoles(SetStartNode(g, plan, n))
  {
  }

  /** Making a node the destination keeps the store valid and the node states in step with
      the roles. */
  lemma SetDestinationNodeInvariants(g: NavGraph, plan: Plan, n: Option<NodeId>)
    requires Valid(g)
    requires n.Some? ==> n.value in g.objects
    ensures Valid(SetDestinationNode(g, plan, n))
    ensures StatesMatchRoles(g) ==> StatesMatchRoles(SetDestinationNode(g, plan, n))
  {
    SetDestinationNodeKeepsValid(g, plan, n);
    if StatesMatchRoles(g) {
      SetDestinationNodeKeepsRoles(g, plan, n);
    }
  }

  lemma SetDestinationNodeKeepsValid(g: NavGraph, plan: Plan, n: Option<NodeId>)
    requires Valid(g)
    requires n.Some? ==> n.value in g.objects
    ensures Valid(SetDestinationNode(g, plan, n))
  {
    var r := SetDestinationNode(g, plan, n);
    if n.Some? && n != g.pathfinder.destination {
      var g1 := SetNodeToDefault(g, plan, g.pathfinder.destination);
      var pf := Pathfinding.SetDestinationNode(g1.pathfinder, PlannerFor(g1, plan), n);
      var g2 := Replanned(g1, pf);
      assert r.pathEdges == g2.pathEdges <= g2.edges;
    }
  }

  lemma SetDestinationNodeKeepsRoles(g: NavGraph, plan: Plan, n: Option<NodeId>)
    requires Valid(g) && StatesMatchRoles(g)
    requires n.Some? ==> n.value in g.objects
    ensures StatesMatchRoles(SetDestinationNode(g, plan, n))
  {
  }

  /** Adding or removing an edge keeps the store valid. */
  lemma EdgeEditsKeepValid(g: NavGraph, u: Option<NodeId>, v: Option<NodeId>)
    requires Valid(g)
    requires u.Some? ==> u.value in g.objects
    requires v.Some? ==> v.value in g.objects
    ensures Valid(AddEdge(g, u, v).0)
    ensures Valid(RemoveEdge(g, u, v).0)
  {
    var (r, ok) := AddEdge(g, u, v);
    if ok {
      var a := u.value;
      var b := v.value;
      var withA := if a in g.nodes then g.nodes else g.nodes + [a];
      var withB := if b in withA then withA else withA + [b];
      assert r.nodes == withB;
      AppendFreshKeepsDistinct(g.nodes, a);
      AppendFreshKeepsDistinct(withA, b);
      assert WellFormed(r) by {
        forall i | 0 <= i < |withB| ensures withB[i] in r.objects {
          if i < |g.nodes| { assert withB[i] == g.nodes[i]; }
        }
      }
    }
  }
}
