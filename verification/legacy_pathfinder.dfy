/** The older pathfinder (app/classes/pathfinder.py): start and destination roles set
    independently of each other, `clear_node`, and `update_path`, which stores whatever the
    pathfinder's `find_path` yields. The base class finds nothing; the A* subclass asks
    networkx, which is an oracle here. */
module LegacyPathfinding {
  import opened Optional

  /** Which `find_path` the pathfinder runs. `AStar`'s search answers `None` where
      `nx.astar_path` raises (an unset or missing endpoint, or no path). */
  datatype Finder<!N> = Base | AStar(search: (Option<N>, Option<N>) -> Option<seq<N>>)

  datatype LegacyPathfinder<N> = LegacyPathfinder(start: Option<N>, destination: Option<N>, path: Option<seq<N>>)

  /** `Pathfinder.__init__`: no roles and no path. */
  function NewLegacyPathfinder<N>(): (pf: LegacyPathfinder<N>)
    ensures pf.start.None? && pf.destination.None? && pf.path.None?
  {
    LegacyPathfinder(None, None, None)
  }

  /** `set_start_node`: only the start changes, whatever the destination is. */
  function SetStartNode<N>(pf: LegacyPathfinder<N>, n: Option<N>): (r: LegacyPathfinder<N>)
    ensures r.start == n && r.(start := pf.start) == pf
  {
    pf.(start := n)
  }

  /** `set_destination_node`: only the destination changes, whatever the start is. */
  function SetDestinationNode<N>(pf: LegacyPathfinder<N>, n: Option<N>): (r: LegacyPathfinder<N>)
    ensures r.destination == n && r.(destination := pf.destination) == pf
  {
    pf.(destination := n)
  }

  /** The two roles are not kept apart: one node can hold both. */
  lemma BothRolesOnOneNode<N>(pf: LegacyPathfinder<N>, n: N)
    ensures var r := SetDestinationNode(SetStartNode(pf, Some(n)), Some(n));
      r.start == Some(n) && r.destination == Some(n)
  {
  }

  /** `clear_node` as written: a node equal to the start clears the start, and a node equal
      to the destination also clears the start, so the destination is never cleared. */
  function ClearNodeAsWritten<N(==)>(pf: LegacyPathfinder<N>, n: Option<N>): (r: LegacyPathfinder<N>)
    ensures r.destination == pf.destination && r.path == pf.path
    ensures r.start == (if pf.start == n || pf.destination == n then None else pf.start)
  {
    var p1 := if pf.start == n then pf.(start := None) else pf;
    if pf.destination == n then p1.(start := None) else p1
  }

  /** Clearing the destination node as written leaves it the destination and drops the
      start instead. */
  lemma ClearNodeAsWrittenKeepsDestination<N>(s: N, d: N)
    requires s != d
    ensures var pf := LegacyPathfinder(Some(s), Some(d), None);
      ClearNodeAsWritten(pf, Some(d)) == LegacyPathfinder(None, Some(d), None)
  {
  }

  /** `clear_node` as evidently intended: the node gives up whichever roles it holds, and a
      role held by another node stays. */
  function ClearNode<N(==)>(pf: LegacyPathfinder<N>, n: Option<N>): (r: LegacyPathfinder<N>)
    ensures pf.start == n ==> r.start.None?
    ensures pf.start != n ==> r.start == pf.start
    ensures pf.destination == n ==> r.destination.None?
    ensures pf.destination != n ==> r.destination == pf.destination
    ensures r.path == pf.path
  {
    var p1 := if pf.start == n then pf.(start := None) else pf;
    if pf.destination == n then p1.(destination := None) else p1
  }

  /** After the intended `clear_node` of a node, the node holds no role; a node holding no
      role changes nothing; and the two versions differ exactly when the node is the
      destination. */
  lemma ClearNodeClearsRoles<N>(pf: LegacyPathfinder<N>, n: N)
    ensures ClearNode(pf, Some(n)).start != Some(n) && ClearNode(pf, Some(n)).destination != Some(n)
    ensures pf.start != Some(n) && pf.destination != Some(n) ==> ClearNode(pf, Some(n)) == pf
    ensures ClearNode(pf, Some(n)) != ClearNodeAsWritten(pf, Some(n)) <==> pf.destination == Some(n)
  {
  }

  /** `find_path`: the outer `None` stands for the exception `nx.astar_path` raises. */
  function FindPath<N>(pf: LegacyPathfinder<N>, f: Finder<N>): (r: Option<Option<seq<N>>>)
    ensures f.Base? ==> r == Some(None)
    ensures f.AStar? ==> (r.None? <==> f.search(pf.start, pf.destination).None?)
    ensures f.AStar? && r.Some? ==> r.value == f.search(pf.start, pf.destination)
  {
    match f
    case Base => Some(None)
    case AStar(search) =>
      var found := search(pf.start, pf.destination);
      if found.None? then None else Some(found)
  }

  /** `update_path`: the path becomes what `find_path` yields; when it raises, `None` is
      returned and nothing is stored. */
  function UpdatePath<N>(pf: LegacyPathfinder<N>, f: Finder<N>): (r: Option<LegacyPathfinder<N>>)
    ensures r.None? <==> FindPath(pf, f).None?
    ensures r.Some? ==> r.value.start == pf.start && r.value.destination == pf.destination
    ensures r.Some? ==> r.value.path == FindPath(pf, f).value
    ensures f.Base? ==> r == Some(pf.(path := None))
  {
    var found := FindPath(pf, f);
    if found.None? then None else Some(pf.(path := found.value))
  }

  /** Re-planning twice gives what re-planning once gives: the search depends only on the
      roles, which `update_path` leaves alone. */
  lemma UpdatePathIdempotent<N>(pf: LegacyPathfinder<N>, f: Finder<N>)
    requires UpdatePath(pf, f).Some?
    ensures UpdatePath(UpdatePath(pf, f).value, f) == UpdatePath(pf, f)
  {
  }
}
