/** The route value produced by a pathfinder (app/classes/graph/path.py): an ordered node
    sequence with a completeness flag and a derived list of consecutive node pairs. */
module Paths {
  import opened Optional

  /** What the constructor may be handed: Python's `None`, the list `[None]`, or a list of nodes. */
  datatype PathSource<N> = Absent | NoneSingleton | Listed(items: seq<N>)

  datatype Path<N> = Path(nodes: seq<N>, complete: bool)

  /** Nodes pairwise distinct: the shape `AddNode` maintains. */
  predicate Distinct<N(==)>(s: seq<N>) {
    forall i, j :: 0 <= i < j < |s| ==> s[i] != s[j]
  }

  /** `Path.__init__`: `None`, `[]` and `[None]` give an empty, incomplete path; any other
      list is kept as it is and marks the path complete, even a single node. */
  function NewPath<N>(src: PathSource<N>): (p: Path<N>)
    ensures p.complete <==> src.Listed? && |src.items| > 0
    ensures p.complete ==> p.nodes == src.items
    ensures !p.complete ==> p.nodes == []
  {
    match src
    case Listed(items) => if |items| > 0 then Path(items, true) else Path([], false)
    case _ => Path([], false)
  }

  /** Python's `list.insert(index, x)` position: a negative index counts from the end and an
      index outside the list is clamped to its ends. */
  function InsertPosition(len: nat, index: int): (k: nat)
    ensures k <= len
    ensures 0 <= index <= len ==> k == index
    ensures index > len ==> k == len
    ensures index < 0 && len + index >= 0 ==> k == len + index
    ensures len + index < 0 ==> k == 0
  {
    if index < 0 then (if len + index < 0 then 0 else len + index)
    else if index > len then len
    else index
  }

  /** `Path.add_node`: a node already on the path is refused; otherwise it is appended, or
      inserted before position `index` when one is given. */
  function AddNode<N(==)>(p: Path<N>, n: N, index: Option<int>): (r: (Path<N>, bool))
    ensures n in p.nodes ==> r == (p, false)
    ensures n !in p.nodes ==> r.1 && r.0.complete == p.complete && |r.0.nodes| == |p.nodes| + 1
    ensures n !in p.nodes && index.None? ==> r.0.nodes == p.nodes + [n]
    ensures n !in p.nodes && index.Some? ==>
      var k := InsertPosition(|p.nodes|, index.value);
      r.0.nodes[..k] == p.nodes[..k] && r.0.nodes[k] == n && r.0.nodes[k+1..] == p.nodes[k..]
    ensures multiset(r.0.nodes) == if r.1 then multiset(p.nodes) + multiset{n} else multiset(p.nodes)
  {
    if n in p.nodes then (p, false)
    else
      var k := match index case None => |p.nodes| case Some(i) => InsertPosition(|p.nodes|, i);
      (p.(nodes := InsertAt(p.nodes, k, n)), true)
  }

  /** `n` placed before position `k`; at `k == |s|` it is appended. */
  function InsertAt<N>(s: seq<N>, k: nat, n: N): (r: seq<N>)
    requires k <= |s|
    ensures |r| == |s| + 1 && r[k] == n
    ensures r[..k] == s[..k] && r[k+1..] == s[k..]
    ensures k == |s| ==> r == s + [n]
    ensures multiset(r) == multiset(s) + multiset{n}
  {
    assert s == s[..k] + s[k..];
    s[..k] + [n] + s[k..]
  }

  /** `add_node` keeps the nodes of a path pairwise distinct. */
  lemma AddNodeKeepsDistinct<N>(p: Path<N>, n: N, index: Option<int>)
    requires Distinct(p.nodes)
    ensures Distinct(AddNode(p, n, index).0.nodes)
  {
    if n !in p.nodes {
      var k := match index case None => |p.nodes| case Some(i) => InsertPosition(|p.nodes|, i);
      InsertAtKeepsDistinct(p.nodes, k, n);
    }
  }

  /** The element at each position of `InsertAt(s, k, n)`. */
  lemma InsertAtIndex<N>(s: seq<N>, k: nat, n: N, i: nat)
    requires k <= |s| && i <= |s|
    ensures InsertAt(s, k, n)[i] == if i < k then s[i] else if i == k then n else s[i - 1]
  {
    var r := InsertAt(s, k, n);
    if i < k {
      assert r[..k][i] == s[..k][i];
    } else if i > k {
      assert r[k+1..][i - k - 1] == s[k..][i - k - 1];
    }
  }

  /** Inserting an element not yet present keeps a sequence pairwise distinct. */
  lemma InsertAtKeepsDistinct<N>(s: seq<N>, k: nat, n: N)
    requires k <= |s| && Distinct(s) && n !in s
    ensures Distinct(InsertAt(s, k, n))
  {
    var r := InsertAt(s, k, n);
    forall i, j | 0 <= i < j < |r| ensures r[i] != r[j] {
      InsertAtIndex(s, k, n, i);
      InsertAtIndex(s, k, n, j);
    }
  }

  /** Consecutive node pairs of a node sequence, in order. */
  function {:induction false} EdgePairs<N>(nodes: seq<N>): (es: seq<(N, N)>)
    ensures |es| == if |nodes| < 2 then 0 else |nodes| - 1
    ensures forall i :: 0 <= i < |es| ==> es[i] == (nodes[i], nodes[i + 1])
  {
    if |nodes| < 2 then []
    else [(nodes[0], nodes[1])] + EdgePairs(nodes[1..])
  }

  /** `a` is immediately followed by `b` somewhere in `nodes`. */
  ghost predicate Consecutive<N>(nodes: seq<N>, a: N, b: N) {
    exists i :: 0 <= i < |nodes| - 1 && nodes[i] == a && nodes[i + 1] == b
  }

  /** A pair is a path edge exactly when it joins two consecutive path nodes. */
  lemma EdgePairsMembership<N>(nodes: seq<N>, a: N, b: N)
    ensures (a, b) in EdgePairs(nodes) <==> Consecutive(nodes, a, b)
  {
    var es := EdgePairs(nodes);
    if (a, b) in es {
      var i :| 0 <= i < |es| && es[i] == (a, b);
      assert es[i] == (nodes[i], nodes[i + 1]);
    }
    if Consecutive(nodes, a, b) {
      var i :| 0 <= i < |nodes| - 1 && nodes[i] == a && nodes[i + 1] == b;
      assert es[i] == (a, b);
    }
  }

  /** `get_node_list`. */
  function NodeList<N>(p: Path<N>): seq<N> { p.nodes }

  /** `get_count`: the number of nodes on the path. */
  function Count<N>(p: Path<N>): nat { |p.nodes| }

  /** `get_edge_list`, as the loop over `range(1, count)` it is written as. */
  method GetEdgeList<N>(p: Path<N>) returns (edges: seq<(N, N)>)
    ensures |edges| == if Count(p) == 0 then 0 else Count(p) - 1
    ensures forall i :: 0 <= i < |edges| ==> edges[i] == (NodeList(p)[i], NodeList(p)[i + 1])
    ensures edges == EdgePairs(p.nodes)
  {
    var nodes := NodeList(p);
    edges := [];
    var i := 1;
    while i < Count(p)
      invariant 1 <= i <= if Count(p) == 0 then 1 else Count(p)
      invariant |edges| == i - 1
      invariant forall j :: 0 <= j < |edges| ==> edges[j] == (nodes[j], nodes[j + 1])
    {
      edges := edges + [(nodes[i - 1], nodes[i])];
      i := i + 1;
    }
    var ref := EdgePairs(p.nodes);
    assert |edges| == |ref|;
    forall j | 0 <= j < |edges| ensures edges[j] == ref[j] {
      assert ref[j] == (p.nodes[j], p.nodes[j + 1]);
    }
  }
}
