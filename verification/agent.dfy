/** A walking agent of the graph package (app/classes/graph/agent.py): its run state, its
    travel state along an assigned path, and the commands it gives its animation. The
    animation itself is not modelled; the last commands sent to it are recorded instead. */
module Agents {
  import opened Optional

  /** `Agent.State`. */
  datatype RunState = Idle | Running | Complete

  /** `Agent.TravelState`. */
  datatype TravelState = Unassigned | OnStart | Underway | OnTarget

  /** `Trip`: a path with its cost. */
  datatype Trip<N> = Trip(path: seq<N>, cost: real)

  /** `Trip.get_start`; an empty path makes Python raise, reported as `None`. */
  function TripStart<N>(t: Trip<N>): (r: Option<N>)
    ensures |t.path| == 0 <==> r.None?
    ensures r.Some? ==> r.value == t.path[0] && r.value in t.path
  {
    if |t.path| == 0 then None else Some(t.path[0])
  }

  /** `Trip.get_destination`; an empty path makes Python raise, reported as `None`. */
  function TripDestination<N>(t: Trip<N>): (r: Option<N>)
    ensures |t.path| == 0 <==> r.None?
    ensures r.Some? ==> r.value == t.path[|t.path| - 1] && r.value in t.path
  {
    if |t.path| == 0 then None else Some(t.path[|t.path| - 1])
  }

  datatype Agent<N> = Agent(
    state: RunState,
    current: Option<N>,
    target: Option<N>,
    pathNodes: seq<N>,
    expenses: real,
    coverage: real,
    travel: TravelState,
    /** The last move (`true`) or idle (`false`) command sent to the animation. */
    moving: Option<bool>,
    /** The node whose position was last handed to the animation as its target. */
    aim: Option<N>)

  /** An agent as `__init__` leaves it before any path is assigned. */
  function Unassigned<N>(): Agent<N> {
    Agent(Idle, None, None, [], 0.0, 0.0, TravelState.Unassigned, None, None)
  }

  /** `set_state`: the run state is set and the animation is told to move exactly when the
      agent is running. */
  function SetState<N>(a: Agent<N>, s: RunState): (r: Agent<N>)
    ensures r.state == s
    ensures r.moving == Some(s == Running)
    ensures r == a.(state := s, moving := r.moving)
  {
    a.(state := s, moving := Some(s == Running))
  }

  /** `set_travel_state`. */
  function SetTravelState<N>(a: Agent<N>, t: TravelState): (r: Agent<N>)
    ensures r.travel == t && r == a.(travel := t)
  {
    a.(travel := t)
  }

  /** `set_current_node`. */
  function SetCurrentNode<N>(a: Agent<N>, n: Option<N>): (r: Agent<N>)
    ensures r.current == n && r == a.(current := n)
  {
    a.(current := n)
  }

  /** `set_target_node`: the target is always overwritten; `None` stops there. Otherwise the
      animation is aimed at the node, and with `setToRun` an agent that is not yet running
      starts running. */
  function SetTargetNode<N>(a: Agent<N>, n: Option<N>, setToRun: bool): (r: Agent<N>)
    ensures r.target == n
    ensures n.None? ==> r == a.(target := None)
    ensures n.Some? ==> r.aim == n
    ensures n.Some? && setToRun ==> r.state == Running
    ensures !setToRun ==> r == a.(target := n, aim := if n.Some? then n else a.aim)
    ensures r.current == a.current && r.pathNodes == a.pathNodes && r.travel == a.travel
  {
    var a1 := a.(target := n);
    if n.None? then a1
    else
      var a2 := a1.(aim := n);
      if setToRun && a2.state != Running then SetState(a2, Running) else a2
  }

  /** `set_path`: `None` or a path of fewer than two nodes changes nothing. Otherwise the agent
      takes the path and stands on its first node; with three or more nodes it targets the
      second node and is on its start, with exactly two it targets the node it stands on and
      is on its target. */
  function SetPath<N>(a: Agent<N>, path: Option<seq<N>>): (r: Agent<N>)
    ensures path.None? || |path.value| < 2 ==> r == a
    ensures path.Some? && |path.value| >= 2 ==>
      && r.pathNodes == path.value
      && r.current == Some(path.value[0])
      && r.target == r.aim
      && r.target == Some(if |path.value| > 2 then path.value[1] else path.value[0])
      && r.travel == (if |path.value| > 2 then OnStart else OnTarget)
    ensures r.state == a.state && r.moving == a.moving
    ensures r.expenses == a.expenses && r.coverage == a.coverage
  {
    if path.None? || |path.value| <= 1 then a
    else
      var ns := path.value;
      var a1 := SetCurrentNode(a.(pathNodes := ns), Some(ns[0]));
      if |ns| > 2 then SetTravelState(SetTargetNode(a1, Some(ns[1]), false), OnStart)
      else SetTravelState(SetTargetNode(a1, a1.current, false), OnTarget)
  }

  /** `Agent.__init__`: an idle, unassigned agent, given the path when there is one. */
  function NewAgent<N>(path: Option<seq<N>>): (r: Agent<N>)
    ensures r.state == Idle && r.expenses == 0.0 && r.coverage == 0.0
    ensures path.None? || |path.value| < 2 ==> r == Unassigned()
    ensures path.Some? && |path.value| >= 2 ==> r.current == Some(path.value[0]) && r.pathNodes == path.value
  {
    SetPath(Unassigned(), path)
  }

  // ---------------------------------------------------------------- properties

  /** Assigning the same path twice is assigning it once. */
  lemma SetPathIdempotent<N>(a: Agent<N>, path: Option<seq<N>>)
    ensures SetPath(SetPath(a, path), path) == SetPath(a, path)
  {
  }

  /** Assigning a path leaves the agent standing on the path's start, aimed at a node of the
      path, without touching how it runs. */
  lemma SetPathStaysOnPath<N>(a: Agent<N>, path: seq<N>)
    requires |path| >= 2
    ensures var r := SetPath(a, Some(path));
      && r.current.Some? && r.current.value == path[0]
      && r.target.Some? && r.target.value in path
      && r.state == a.state
  {
  }

  /** Telling an agent to run towards a node and then stopping it leaves it idle, aimed at
      that node. */
  lemma RunThenStop<N>(a: Agent<N>, n: N)
    ensures var r := SetState(SetTargetNode(a, Some(n), true), Idle);
      r.state == Idle && r.moving == Some(false) && r.target == Some(n) && r.aim == Some(n)
  {
  }
}
