/** Node values of the graph package (app/classes/graph/node.py): role state, selection flag,
    position and the radius arithmetic the graph store uses for spacing. The circles, colours
    and text labels drawn for a node are not modelled. The older node class has a record of
    its own in `LegacyNodes`, with its own setters, because its fields differ. */
module Nodes {
  import opened Optional

  /** The role a node plays for the pathfinder. */
  datatype NodeState = Default | Start | Destination

  /** The world settings the radius arithmetic reads (node_radius,
      selected_radius_increase and node_padding in the configuration). */
  datatype RadiusConfig = RadiusConfig(nodeRadius: int, selectedRadiusIncrease: int, nodePadding: int)

  /** The configuration as shipped: radius 20, selection ring 10, padding 10. */
  const ShippedConfig := RadiusConfig(20, 10, 10)

  predicate NonNegative(cfg: RadiusConfig) {
    cfg.nodeRadius >= 0 && cfg.selectedRadiusIncrease >= 0 && cfg.nodePadding >= 0
  }

  /** The radius a node claims for spacing: its own radius plus the selection ring and the
      padding, whether or not it is selected. */
  function PaddedRadius(radius: int, cfg: RadiusConfig): int {
    radius + cfg.selectedRadiusIncrease + cfg.nodePadding
  }

  /** The radius a node is drawn with: the selection ring is added only when selected. */
  function VisualRadius(radius: int, selected: bool, cfg: RadiusConfig): int {
    radius + (if selected then cfg.selectedRadiusIncrease else 0)
  }

  /** With non-negative settings the drawn radius lies between the bare radius and the padded
      radius, and the padded radius does not depend on selection. */
  lemma RadiusOrdering(radius: int, selected: bool, cfg: RadiusConfig)
    requires cfg.selectedRadiusIncrease >= 0 && cfg.nodePadding >= 0
    ensures radius <= VisualRadius(radius, selected, cfg) <= PaddedRadius(radius, cfg)
    ensures VisualRadius(radius, false, cfg) == radius
    ensures VisualRadius(radius, true, cfg) == PaddedRadius(radius, cfg) - cfg.nodePadding
  {
  }

  /** The attributes of one graph-package node object. `labelNo` is the decimal label the graph
      store assigns, held as the number it spells (`None` until one is assigned). */
  datatype Node = Node(x: int, y: int, altitude: int, radius: int, labelNo: Option<int>,
                       state: NodeState, selected: bool)

  /** `Node.__init__`: default role, no label, the configured radius and the given selection. */
  function NewNode(cfg: RadiusConfig, x: int, y: int, altitude: int, isSelected: bool): (n: Node)
    ensures n.state == Default && n.labelNo.None? && n.selected == isSelected
    ensures Position(n) == (x, y) && n.radius == cfg.nodeRadius && n.altitude == altitude
  {
    Node(x, y, altitude, cfg.nodeRadius, None, Default, isSelected)
  }

  function Position(n: Node): (int, int) { (n.x, n.y) }

  function IsSelected(n: Node): bool { n.selected }

  /** `set_as_selected`: afterwards `is_selected` answers `selected`; nothing else changes. */
  function SetAsSelected(n: Node, selected: bool): (r: Node)
    ensures IsSelected(r) == selected
    ensures r.(selected := n.selected) == n
  {
    n.(selected := selected)
  }

  /** `set_state`: the node takes the new role; nothing else changes. */
  function SetState(n: Node, s: NodeState): (r: Node)
    ensures r.state == s && r.(state := n.state) == n
  {
    n.(state := s)
  }

  /** `set_label`. */
  function SetLabel(n: Node, k: int): (r: Node)
    ensures r.labelNo == Some(k) && r.(labelNo := n.labelNo) == n
  {
    n.(labelNo := Some(k))
  }

  /** `set_position`: `None` is refused and leaves the node alone; otherwise the node moves to
      the given point and nothing else changes. */
  function SetPosition(n: Node, p: Option<(int, int)>): (r: (Node, bool))
    ensures r.1 <==> p.Some?
    ensures !r.1 ==> r.0 == n
    ensures r.1 ==> Position(r.0) == p.value && r.0.(x := n.x, y := n.y) == n
  {
    match p
    case None => (n, false)
    case Some(pos) => (n.(x := pos.0, y := pos.1), true)
  }

  function NodePaddedRadius(n: Node, cfg: RadiusConfig): int { PaddedRadius(n.radius, cfg) }

  function NodeVisualRadius(n: Node, cfg: RadiusConfig): int { VisualRadius(n.radius, n.selected, cfg) }

  /** Selecting and then asking gives back the selection; the padded radius ignores it. */
  lemma SelectionRoundTrip(n: Node, b: bool, cfg: RadiusConfig)
    ensures IsSelected(SetAsSelected(n, b)) == b
    ensures NodePaddedRadius(SetAsSelected(n, b), cfg) == NodePaddedRadius(n, cfg)
    ensures NodeVisualRadius(SetAsSelected(n, b), cfg) == n.radius + (if b then cfg.selectedRadiusIncrease else 0)
  {
  }
}
