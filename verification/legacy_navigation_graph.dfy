/** The older graph store (app/classes/navigation_graph.py): a list of selected nodes, start
    and destination roles with no exclusion between them, node insertion with a spacing check,
    node removal, and directed edges that may be self-loops. networkx's DiGraph becomes a node
    sequence (its insertion order) and an edge set; edge weights and drawing are left out. */
module LegacyNavigationGraph {
  import opened Optional
  import opened Paths
  import opened LegacyNodes
  import NavigationGraph

  type NodeId = NavigationGraph.NodeId

  type Edge = (NodeId, NodeId)

  datatype LegacyGraph = LegacyGraph(
    /** Attributes of every node object the store can be handed. */
    objects: map<NodeId, LegacyNode>,
    /** `graph.nodes()`, in insertion order. */
    nodes: seq<NodeId>,
    /** `graph.edges()`. */
    edges: set<Edge>,
    /** `selected_nodes`, in selection order. */
    selected: seq<NodeId>,
    start: Option<NodeId>,
    destination: Option<NodeId>)

  /** The shape every reachable store keeps: known, distinct nodes; edges between nodes of the
      graph; a selection without repeats. */
  predicate Valid(g: LegacyGraph) {
    && (forall i :: 0 <= i < |g.nodes| ==> g.nodes[i] in g.objects)
    && Distinct(g.nodes)
    && (forall e :: e in g.edges ==> e.0 in g.nodes && e.1 in g.nodes)
    && Distinct(g.selected)
  }

  /** `NavigationGraph.__init__`: empty graph, nothing selected, no roles. */
  function NewLegacyGraph(objects: map<NodeId, LegacyNode>): (g: LegacyGraph)
    ensures Valid(g)
    ensures g.nodes == [] && g.edges == {} && g.selected == [] && g.start.None? && g.destination.None?
  {
    LegacyGraph(objects, [], {}, [], None, None)
  }

  // ---------------------------------------------------------------- list removal

  /** The index of the first occurrence of `x` in `s`. */
  function FirstIndex(s: seq<NodeId>, x: NodeId): (k: nat)
    requires x in s
    ensures k < |s| && s[k] == x && x !in s[..k]
  {
    if s[0] == x then 0
    else
      var k := FirstIndex(s[1..], x) + 1;
      assert s[..k] == [s[0]] + s[1..][..k - 1];
      k
  }

  /** Python's `list.remove(x)` for an `x` in the list: the first occurrence goes. */
  function RemoveFirst(s: seq<NodeId>, x: NodeId): (r: seq<NodeId>)
    requires x in s
    ensures |r| == |s| - 1
    ensures Distinct(s) ==> Distinct(r) && x !in r
    ensures forall y :: y in r ==> y in s
    ensures forall y :: y in s && y != x ==> y in r
  {
    var k := FirstIndex(s, x);
    var r := s[..k] + s[k + 1..];
    assert forall i :: 0 <= i < |r| ==> r[i] == (if i < k then s[i] else s[i + 1]);
    forall y | y in s && y != x ensures y in r {
      var i :| 0 <= i < |s| && s[i] == y;
      assert r[if i < k then i else i - 1] == y;
    }
    r
  }

  /** Appending an element that is not in the list and removing it again restores the list. */
  lemma RemoveAppended(s: seq<NodeId>, x: NodeId)
    requires x !in s
    ensures RemoveFirst(s + [x], x) == s
  {
    var k := FirstIndex(s + [x], x);
    assert k == |s|;
    assert (s + [x])[..k] == s;
  }

  // ---------------------------------------------------------------- selection

  /** `select_node`: `None` and an already selected node are refused with nothing changed;
      any other node is appended to the selection. */
  function SelectNode(g: LegacyGraph, n: Option<NodeId>): (r: (LegacyGraph, bool))
    ensures r.1 <==> n.Some? && n.value !in g.selected
    ensures !r.1 ==> r.0 == g
    ensures r.1 ==> r.0 == g.(selected := g.selected + [n.value])
    ensures Distinct(g.selected) ==> Distinct(r.0.selected)
  {
    if n.None? || n.value in g.selected then (g, false)
    else
      var r := g.(selected := g.selected + [n.value]);
      assert forall i :: 0 <= i < |g.selected| ==> r.selected[i] == g.selected[i];
      (r, true)
  }

  /** `deselect_node`: `None` and an unselected node are refused with nothing changed; a
      selected node is removed from the selection. */
  function DeselectNode(g: LegacyGraph, n: Option<NodeId>): (r: (LegacyGraph, bool))
    ensures r.1 <==> n.Some? && n.value in g.selected
    ensures !r.1 ==> r.0 == g
    ensures r.1 ==> r.0 == g.(selected := RemoveFirst(g.selected, n.value))
    ensures r.1 && Distinct(g.selected) ==> n.value !in r.0.selected
    ensures Distinct(g.selected) ==> Distinct(r.0.selected)
  {
    if n.None? || n.value !in g.selected then (g, false)
    else (g.(selected := RemoveFirst(g.selected, n.value)), true)
  }

  /** Selecting a node that was not selected and deselecting it again restores the store. */
  lemma SelectThenDeselect(g: LegacyGraph, n: NodeId)
    requires n !in g.selected
    ensures DeselectNode(SelectNode(g, Some(n)).0, Some(n)) == (g, true)
  {
    RemoveAppended(g.selected, n);
  }

  /** `select_node_at_position` once the node under the cursor is found: a node that cannot
      be selected (because it already is) is deselected instead, so the node's membership in
      the selection flips. */
  function SelectNodeAtPosition(g: LegacyGraph, found: Option<NodeId>): (r: LegacyGraph)
    requires Distinct(g.selected)
    ensures Distinct(r.selected)
    ensures found.None? ==> r == g
    ensures found.Some? ==> (found.value in r.selected <==> found.value !in g.selected)
  {
    if found.None? then g
    else
      var (g1, ok) := SelectNode(g, found);
      if ok then g1 else DeselectNode(g1, found).0
  }

  /** `deselect_node_at_position` once the node is found: the mirror image, which flips the
      node's membership the same way. */
  function DeselectNodeAtPosition(g: LegacyGraph, found: Option<NodeId>): (r: LegacyGraph)
    requires Distinct(g.selected)
    ensures Distinct(r.selected)
    ensures found.None? ==> r == g
    ensures found.Some? ==> (found.value in r.selected <==> found.value !in g.selected)
  {
    if found.None? then g
    else
      var (g1, ok) := DeselectNode(g, found);
      if ok then g1 else SelectNode(g1, found).0
  }

  /** Clicking an unselected node twice leaves the selection as it was. */
  lemma SelectAtPositionTwice(g: LegacyGraph, n: NodeId)
    requires Distinct(g.selected) && n !in g.selected
    ensures SelectNodeAtPosition(SelectNodeAtPosition(g, Some(n)), Some(n)) == g
  {
    RemoveAppended(g.selected, n);
  }

  /** `deselect_all_nodes`. */
  function DeselectAllNodes(g: LegacyGraph): (r: LegacyGraph)
    ensures |r.selected| == 0 && r.(selected := g.selected) == g
  {
    g.(selected := [])
  }

  // ---------------------------------------------------------------- roles

  /** `set_start_node`: `None` is ignored; otherwise the start is overwritten and the
      destination is left as it is. */
  function SetStartNode(g: LegacyGraph, n: Option<NodeId>): (r: LegacyGraph)
    ensures n.None? ==> r == g
    ensures n.Some? ==> r.start == n && r.(start := g.start) == g
  {
    if n.None? then g else g.(start := n)
  }

  /** `set_destination_node`: the mirror image of `SetStartNode`. */
  function SetDestinationNode(g: LegacyGraph, n: Option<NodeId>): (r: LegacyGraph)
    ensures n.None? ==> r == g
    ensures n.Some? ==> r.destination == n && r.(destination := g.destination) == g
  {
    if n.None? then g else g.(destination := n)
  }

  /** Unlike the graph-package store, one node can become both start and destination. */
  lemma RolesMayCoincide(g: LegacyGraph, n: NodeId)
    ensures var r := SetDestinationNode(SetStartNode(g, Some(n)), Some(n));
      r.start == Some(n) && r.destination == Some(n) && r.nodes == g.nodes && r.edges == g.edges
  {
  }

  // ---------------------------------------------------------------- nodes

  /** `get_node_distance(a, b) < min(a.radius, b.radius)`. The distance is the square root of
      the squared coordinate differences, so it lies below a limit exactly when the limit is
      positive and the squared distance lies below the limit's square. */
  predicate TooClose(a: LegacyNode, b: LegacyNode) {
    var dx := a.x - b.x;
    var dy := a.y - b.y;
    var limit := (if a.radius < b.radius then a.radius else b.radius) as real;
    limit > 0.0 && dx * dx + dy * dy < limit * limit
  }

  /** No node of the graph lies too close to `node`. */
  predicate Spaced(g: LegacyGraph, node: LegacyNode)
    requires forall i :: 0 <= i < |g.nodes| ==> g.nodes[i] in g.objects
  {
    forall i :: 0 <= i < |g.nodes| ==> !TooClose(g.objects[g.nodes[i]], node)
  }

  /** `add_node`: `None` and a node too close to an existing one are refused with nothing
      changed; otherwise the node joins the graph (adding a node already there changes
      nothing). */
  function AddNode(g: LegacyGraph, n: Option<NodeId>): (r: (LegacyGraph, bool))
    requires Valid(g)
    requires n.Some? ==> n.value in g.objects
    ensures r.1 <==> n.Some? && Spaced(g, g.objects[n.value])
    ensures !r.1 ==> r.0 == g
    ensures r.1 ==> r.0 == g.(nodes := if n.value in g.nodes then g.nodes else g.nodes + [n.value])
    ensures Valid(r.0)
  {
    if n.None? || !Spaced(g, g.objects[n.value]) then (g, false)
    else if n.value in g.nodes then (g, true)
    else
      var r := g.(nodes := g.nodes + [n.value]);
      assert forall i :: 0 <= i < |g.nodes| ==> r.nodes[i] == g.nodes[i];
      (r, true)
  }

  /** A node of positive radius already in the graph is too close to itself, so adding it
      again is refused. */
  lemma ReAddRefused(g: LegacyGraph, n: NodeId)
    requires Valid(g) && n in g.nodes && g.objects[n].radius > 0
    ensures !AddNode(g, Some(n)).1
  {
    var i :| 0 <= i < |g.nodes| && g.nodes[i] == n;
    assert TooClose(g.objects[g.nodes[i]], g.objects[n]);
  }

  /** `remove_node`: `None` is refused. Any other node is first deselected; a node of the
      graph is then removed with every edge touching it, while one outside the graph makes
      networkx raise and the call answers false (the deselection stays). The start and
      destination roles are not touched. */
  function RemoveNode(g: LegacyGraph, n: Option<NodeId>): (r: (LegacyGraph, bool))
    requires Valid(g)
    ensures r.1 <==> n.Some? && n.value in g.nodes
    ensures n.None? ==> r.0 == g
    ensures n.Some? ==> n.value !in r.0.selected && n.value !in r.0.nodes
    ensures n.Some? ==> forall e :: e in r.0.edges <==> e in g.edges && e.0 != n.value && e.1 != n.value
    ensures n.Some? ==> forall m :: m in r.0.nodes <==> m in g.nodes && m != n.value
    ensures n.Some? ==> forall m :: m in r.0.selected <==> m in g.selected && m != n.value
    ensures r.0.start == g.start && r.0.destination == g.destination && r.0.objects == g.objects
    ensures Valid(r.0)
  {
    if n.None? then (g, false)
    else
      var id := n.value;
      var g1 := DeselectNode(g, n).0;
      if id !in g.nodes then (g1, false)
      else
        var r := g1.(nodes := RemoveFirst(g.nodes, id),
                     edges := set e | e in g.edges && e.0 != id && e.1 != id);
        (r, true)
  }

  // ---------------------------------------------------------------- edges

  /** The nodes after networkx adds any missing endpoint of a new edge, `u` before `v`. */
  function WithEndpoints(nodes: seq<NodeId>, u: NodeId, v: NodeId): (r: seq<NodeId>)
    requires Distinct(nodes)
    ensures Distinct(r)
    ensures forall m :: m in r <==> m in nodes || m == u || m == v
    ensures |r| >= |nodes| && r[..|nodes|] == nodes
  {
    var n1 := if u in nodes then nodes else nodes + [u];
    assert forall i :: 0 <= i < |nodes| ==> n1[i] == nodes[i];
    var n2 := if v in n1 then n1 else n1 + [v];
    assert forall i :: 0 <= i < |n1| ==> n2[i] == n1[i];
    assert n2[..|nodes|] == nodes;
    n2
  }

  /** `add_edge`: only a `None` endpoint is refused, so a self-loop is accepted. Otherwise
      the edge exists afterwards (its data replaced if it already did), with any missing
      endpoint added to the graph. */
  function AddEdge(g: LegacyGraph, u: Option<NodeId>, v: Option<NodeId>): (r: (LegacyGraph, bool))
    requires Valid(g)
    requires u.Some? ==> u.value in g.objects
    requires v.Some? ==> v.value in g.objects
    ensures r.1 <==> u.Some? && v.Some?
    ensures !r.1 ==> r.0 == g
    ensures r.1 ==> r.0.edges == g.edges + {(u.value, v.value)}
    ensures r.1 ==> forall m :: m in r.0.nodes <==> m in g.nodes || m == u.value || m == v.value
    ensures r.1 ==> r.0 == g.(nodes := r.0.nodes, edges := r.0.edges)
    ensures Valid(r.0)
  {
    if u.None? || v.None? then (g, false)
    else
      var nodes := WithEndpoints(g.nodes, u.value, v.value);
      var r := g.(nodes := nodes, edges := g.edges + {(u.value, v.value)});
      assert forall i :: 0 <= i < |nodes| ==> nodes[i] in g.objects by {
        forall i | 0 <= i < |nodes| ensures nodes[i] in g.objects {
          assert nodes[i] in nodes;
          if nodes[i] in g.nodes {
            var j :| 0 <= j < |g.nodes| && g.nodes[j] == nodes[i];
          }
        }
      }
      (r, true)
  }

  /** A node can be joined to itself. */
  lemma SelfLoopAccepted(g: LegacyGraph, n: NodeId)
    requires Valid(g) && n in g.objects
    ensures AddEdge(g, Some(n), Some(n)).1 && (n, n) in AddEdge(g, Some(n), Some(n)).0.edges
  {
  }

  /** `remove_edge`: `None` endpoints answer false and an existing edge is removed with true;
      for a missing edge the method falls off its end and answers Python's `None` (written
      `None` here too), changing nothing. */
  function RemoveEdge(g: LegacyGraph, u: Option<NodeId>, v: Option<NodeId>): (r: (LegacyGraph, Option<bool>))
    ensures u.None? || v.None? ==> r == (g, Some(false))
    ensures u.Some? && v.Some? && (u.value, v.value) !in g.edges ==> r == (g, None)
    ensures u.Some? && v.Some? && (u.value, v.value) in g.edges ==>
      r == (g.(edges := g.edges - {(u.value, v.value)}), Some(true))
    ensures r.1 == Some(true) <==> u.Some? && v.Some? && (u.value, v.value) in g.edges
  {
    if u.None? || v.None? then (g, Some(false))
    else if (u.value, v.value) in g.edges then (g.(edges := g.edges - {(u.value, v.value)}), Some(true))
    else (g, None)
  }

  /** Adding a missing edge between two graph nodes and removing it again restores the
      store; removing a missing edge answers a falsy value. */
  lemma AddThenRemoveEdge(g: LegacyGraph, a: NodeId, b: NodeId)
    requires Valid(g) && a in g.nodes && b in g.nodes && (a, b) !in g.edges
    ensures var added := AddEdge(g, Some(a), Some(b));
      && added.1
      && RemoveEdge(added.0, Some(a), Some(b)) == (g, Some(true))
      && RemoveEdge(g, Some(a), Some(b)) == (g, None)
  {
    var added := AddEdge(g, Some(a), Some(b)).0;
    assert added.nodes == g.nodes by {
      assert added.nodes[..|g.nodes|] == g.nodes;
      assert |added.nodes| == |g.nodes| by {
        assert a in g.nodes && b in g.nodes;
      }
    }
    assert added.edges - {(a, b)} == g.edges;
  }
}
