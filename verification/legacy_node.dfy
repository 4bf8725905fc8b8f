/** The older node value (app/classes/node.py): coordinates, the "x,y" text label, role state,
    selection flag and radius arithmetic. Unlike the graph-package node, the constructor
    truncates its coordinates to integers while the label shows them as given, and moving the
    node stores the new coordinates untruncated and refreshes the label. The label text is held
    as the pair of numbers it prints. The two node records stay separate, as in the program:
    they are different classes with different fields, and only the graph package's store
    reads `Nodes.Node`, so the selection and state setters are written once per record. */
module LegacyNodes {
  import opened Optional
  import Nodes
  import Environment

  datatype LegacyNode = LegacyNode(x: real, y: real, text: (real, real), altitude: real, radius: int,
                                   state: Nodes.NodeState, selected: bool)

  /** The label holds the node's current coordinates as numbers. This compares values, not
      printed text: `str(3.0)` is "3.0" while the truncated `int` prints as "3". */
  predicate LabelMatches(n: LegacyNode) {
    n.text == (n.x, n.y)
  }

  predicate Integral(v: real) {
    v == v.Floor as real
  }

  /** `Node.__init__`: the coordinates are truncated towards zero, the label keeps the given
      values, the role is Default and the selection is as given. */
  function NewLegacyNode(cfg: Nodes.RadiusConfig, x: real, y: real, altitude: real, isSelected: bool): (n: LegacyNode)
    ensures Integral(n.x) && Integral(n.y)
    ensures -1.0 < n.x - x < 1.0 && -1.0 < n.y - y < 1.0
    ensures 0.0 <= x ==> 0.0 <= n.x <= x
    ensures x <= 0.0 ==> x <= n.x <= 0.0
    ensures 0.0 <= y ==> 0.0 <= n.y <= y
    ensures y <= 0.0 ==> y <= n.y <= 0.0
    ensures n.text == (x, y)
    ensures n.state == Nodes.Default && n.selected == isSelected && n.radius == cfg.nodeRadius
  {
    LegacyNode(Environment.Trunc(x) as real, Environment.Trunc(y) as real, (x, y), altitude,
               cfg.nodeRadius, Nodes.Default, isSelected)
  }

  /** A new node's label holds the same numbers as its position exactly when it was given
      whole coordinates; the match is numeric, so it says nothing of how the label prints. */
  lemma NewLabelMatchesIff(cfg: Nodes.RadiusConfig, x: real, y: real, altitude: real, isSelected: bool)
    ensures LabelMatches(NewLegacyNode(cfg, x, y, altitude, isSelected)) <==> Integral(x) && Integral(y)
  {
    var n := NewLegacyNode(cfg, x, y, altitude, isSelected);
    if Integral(x) {
      TruncWhole(x);
    }
    if Integral(y) {
      TruncWhole(y);
    }
  }

  /** Truncating a whole number gives it back. */
  lemma TruncWhole(v: real)
    requires Integral(v)
    ensures Environment.Trunc(v) as real == v
  {
    if v < 0.0 {
      assert (-v).Floor == -(v.Floor);
    }
  }

  function Position(n: LegacyNode): (real, real) { (n.x, n.y) }

  /** `update_parameters`: the label is rewritten from the coordinates. */
  function UpdateParameters(n: LegacyNode): (r: LegacyNode)
    ensures LabelMatches(r)
    ensures r.(text := n.text) == n
  {
    n.(text := (n.x, n.y))
  }

  /** `set_position`: `None` is refused and leaves the node alone; otherwise the node takes the
      given coordinates as they are and its label follows. */
  function SetPosition(n: LegacyNode, p: Option<(real, real)>): (r: (LegacyNode, bool))
    ensures r.1 <==> p.Some?
    ensures !r.1 ==> r.0 == n
    ensures r.1 ==> Position(r.0) == p.value && LabelMatches(r.0)
    ensures r.1 ==> r.0.(x := n.x, y := n.y, text := n.text) == n
  {
    match p
    case None => (n, false)
    case Some(pos) => (UpdateParameters(n.(x := pos.0, y := pos.1)), true)
  }

  /** Moving a node twice to the same place is moving it once. */
  lemma SetPositionIdempotent(n: LegacyNode, p: (real, real))
    ensures SetPosition(SetPosition(n, Some(p)).0, Some(p)) == SetPosition(n, Some(p))
  {
  }

  function IsSelected(n: LegacyNode): bool { n.selected }

  /** `set_as_selected`: afterwards `is_selected` answers `selected`; nothing else changes. */
  function SetAsSelected(n: LegacyNode, selected: bool): (r: LegacyNode)
    ensures IsSelected(r) == selected
    ensures r.(selected := n.selected) == n
  {
    n.(selected := selected)
  }

  /** `set_state`. */
  function SetState(n: LegacyNode, s: Nodes.NodeState): (r: LegacyNode)
    ensures r.state == s && r.(state := n.state) == n
  {
    n.(state := s)
  }

  /** `get_padded_radius`: the shared radius arithmetic on this node's radius. */
  function PaddedRadius(n: LegacyNode, cfg: Nodes.RadiusConfig): int {
    Nodes.PaddedRadius(n.radius, cfg)
  }

  /** `get_visual_radius`. */
  function VisualRadius(n: LegacyNode, cfg: Nodes.RadiusConfig): int {
    Nodes.VisualRadius(n.radius, n.selected, cfg)
  }

  /** Selecting and then asking gives back the selection; the padded radius ignores it, and
      the drawn radius grows by the selection ring exactly when selected. */
  lemma SelectionRoundTrip(n: LegacyNode, b: bool, cfg: Nodes.RadiusConfig)
    requires cfg.selectedRadiusIncrease >= 0 && cfg.nodePadding >= 0
    ensures IsSelected(SetAsSelected(n, b)) == b
    ensures PaddedRadius(SetAsSelected(n, b), cfg) == n.radius + cfg.selectedRadiusIncrease + cfg.nodePadding
    ensures VisualRadius(SetAsSelected(n, b), cfg) == n.radius + (if b then cfg.selectedRadiusIncrease else 0)
    ensures n.radius <= VisualRadius(SetAsSelected(n, b), cfg) <= PaddedRadius(n, cfg)
  {
    Nodes.RadiusOrdering(n.radius, b, cfg);
  }
}
