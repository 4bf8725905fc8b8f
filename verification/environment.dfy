/** The integer parts of the grid generator and of the environment set-up
    (app/environment.py): node keys of the grid, the left/above edge targets, the altitude
    clamp with its out-of-bounds flags, the edge-weight floor, the weight buckets and the
    orientation of the path's edges. The float formulas feeding these, and the random
    choices, are parameters. */
module Environment {
  import opened Optional
  import Labels

  /** The `config.world` values these computations read. */
  datatype World = World(
    sizeX: int, sizeY: int, startX: int, startY: int, padding: int,
    maxWeight: int, minWeight: int, minAltitude: int, maxAltitude: int, edgeTypes: int)

  /** The values app/config.py ships. */
  const Shipped := World(18, 13, 1, 1, 3, 10, 1, 1, 100, 5)

  /** A non-empty grid. */
  predicate GridShape(w: World) {
    w.sizeX > 0 && w.sizeY > 0
  }

  // ---------------------------------------------------------------- altitude flags

  /** The out-of-bounds flags of `GraphGenerator`. */
  datatype Generator = Generator(aboveUpper: bool, belowLower: bool)

  /** `GraphGenerator.reset` (and `__init__`): both flags clear. */
  function Reset(): (g: Generator)
    ensures WithinBounds(g)
  {
    Generator(false, false)
  }

  /** `is_altitudes_within_bounds`: neither flag is set. */
  predicate WithinBounds(g: Generator) {
    !(g.aboveUpper || g.belowLower)
  }

  /** The check at the end of `create_node_altitude_from_pos`: an altitude above the maximum
      is cut to the maximum and raises the upper flag; otherwise one below the minimum is
      lifted to the minimum and raises the lower flag. */
  function ClampAltitude(g: Generator, w: World, altitude: real): (r: (Generator, real))
    ensures w.minAltitude <= w.maxAltitude ==> w.minAltitude as real <= r.1 <= w.maxAltitude as real
    ensures r.0.aboveUpper == (g.aboveUpper || altitude > w.maxAltitude as real)
    ensures r.0.belowLower == (g.belowLower || (altitude <= w.maxAltitude as real && altitude < w.minAltitude as real))
    ensures w.minAltitude as real <= altitude <= w.maxAltitude as real ==> r == (g, altitude)
  {
    if altitude > w.maxAltitude as real then (g.(aboveUpper := true), w.maxAltitude as real)
    else if altitude < w.minAltitude as real then (g.(belowLower := true), w.minAltitude as real)
    else (g, altitude)
  }

  /** Starting from a reset generator, the flags stay clear exactly when the altitude was
      already within bounds; clamping a clamped altitude changes nothing. */
  lemma ClampFlagsExactly(w: World, altitude: real)
    requires w.minAltitude <= w.maxAltitude
    ensures WithinBounds(ClampAltitude(Reset(), w, altitude).0)
      <==> w.minAltitude as real <= altitude <= w.maxAltitude as real
    ensures var c := ClampAltitude(Reset(), w, altitude).1;
      ClampAltitude(Reset(), w, c) == (Reset(), c)
  {
  }

  // ---------------------------------------------------------------- edge weight

  /** Python's `int()` on a float: truncation toward zero. */
  function Trunc(x: real): (r: int)
    ensures x >= 0.0 ==> r as real <= x < r as real + 1.0 && r >= 0
    ensures x < 0.0 ==> r as real - 1.0 < x <= r as real && r <= 0
  {
    if x >= 0.0 then x.Floor else -((-x).Floor)
  }

  /** `get_edge_weight_from_nodes` from the position weight onwards: truncated, and lifted to
      the minimum weight when below it. */
  function EdgeWeight(w: World, posWeight: real): (r: int)
    ensures r >= w.minWeight
    ensures Trunc(posWeight) >= w.minWeight ==> r == Trunc(posWeight)
    ensures Trunc(posWeight) < w.minWeight ==> r == w.minWeight
  {
    var weight := Trunc(posWeight);
    if weight < w.minWeight then w.minWeight else weight
  }

  /** A position weight within [min, max] (what the formula yields for a target inside the
      grid) gives an edge weight within [min, max]. */
  lemma EdgeWeightInRange(w: World, posWeight: real)
    requires w.minWeight <= w.maxWeight
    requires w.minWeight as real <= posWeight <= w.maxWeight as real
    ensures w.minWeight <= EdgeWeight(w, posWeight) <= w.maxWeight
  {
  }

  // ---------------------------------------------------------------- grid keys

  /** A cell of the grid `create_nodes` walks. */
  predicate InGrid(w: World, x: int, y: int) {
    w.startX <= x < w.startX + w.sizeX && w.startY <= y < w.startY + w.sizeY
  }

  /** The key `create_nodes` gives the cell (x, y). */
  function Key(w: World, x: int, y: int): int {
    (y - w.startY) * w.sizeX + x
  }

  /** `a·s` with `|a·s| < s` forces `a = 0`. */
  lemma SmallMultipleIsZero(a: int, s: int)
    requires s > 0 && -s < a * s < s
    ensures a == 0
  {
  }

  /** Distinct grid cells have distinct keys. */
  lemma KeyInjective(w: World, x: int, y: int, x': int, y': int)
    requires InGrid(w, x, y) && InGrid(w, x', y')
    requires Key(w, x, y) == Key(w, x', y')
    ensures x == x' && y == y'
  {
    assert (y - y') * w.sizeX == x' - x;
    SmallMultipleIsZero(y - y', w.sizeX);
  }

  /** With the grid starting at column 1, keys run over 1..sizeX·sizeY. */
  lemma KeyRange(w: World, x: int, y: int)
    requires InGrid(w, x, y) && w.startX == 1
    ensures 1 <= Key(w, x, y) <= w.sizeX * w.sizeY
  {
    var row := y - w.startY;
    MulMonotone(w.sizeX, 0, row);
    MulMonotone(w.sizeX, row, w.sizeY - 1);
    assert w.sizeX * (w.sizeY - 1) == w.sizeX * w.sizeY - w.sizeX;
  }

  /** The cell of a key, for a grid starting at column 1. */
  function Cell(w: World, k: int): (c: (int, int))
    requires GridShape(w) && w.startX == 1
    requires 1 <= k <= w.sizeX * w.sizeY
    ensures InGrid(w, c.0, c.1) && Key(w, c.0, c.1) == k
  {
    var q := (k - 1) / w.sizeX;
    var rem := (k - 1) % w.sizeX;
    assert q * w.sizeX + rem == k - 1;
    assert q < w.sizeY;
    (rem + 1, q + w.startY)
  }

  /** `create_nodes`: every grid cell is stored under its key. */
  method CreateNodes(w: World) returns (m: map<int, (int, int)>)
    requires GridShape(w)
    ensures forall x, y :: InGrid(w, x, y) ==> Key(w, x, y) in m && m[Key(w, x, y)] == (x, y)
    ensures forall k :: k in m ==> InGrid(w, m[k].0, m[k].1) && Key(w, m[k].0, m[k].1) == k
  {
    m := map[];
    var y := w.startY;
    while y < w.startY + w.sizeY
      invariant w.startY <= y <= w.startY + w.sizeY
      invariant forall x', y' :: InGrid(w, x', y') && y' < y ==> Key(w, x', y') in m && m[Key(w, x', y')] == (x', y')
      invariant forall k :: k in m ==> InGrid(w, m[k].0, m[k].1) && m[k].1 < y && Key(w, m[k].0, m[k].1) == k
    {
      var x := w.startX;
      while x < w.startX + w.sizeX
        invariant w.startX <= x <= w.startX + w.sizeX
        invariant forall x', y' :: InGrid(w, x', y') && (y' < y || (y' == y && x' < x)) ==> Key(w, x', y') in m && m[Key(w, x', y')] == (x', y')
        invariant forall k :: k in m ==> InGrid(w, m[k].0, m[k].1) && (m[k].1 < y || (m[k].1 == y && m[k].0 < x)) && Key(w, m[k].0, m[k].1) == k
      {
        var key := Key(w, x, y);
        forall x', y' | InGrid(w, x', y') && (y' < y || (y' == y && x' < x))
          ensures Key(w, x', y') != key
        {
          if Key(w, x', y') == key {
            KeyInjective(w, x', y', x, y);
          }
        }
        m := m[key := (x, y)];
        x := x + 1;
      }
      y := y + 1;
    }
  }

  /** With the grid starting at column 1, `create_nodes` stores exactly the keys
      1..sizeX·sizeY, so `nodes[1]` and `nodes[len(nodes)]` are the first and last cells. */
  lemma CreatedKeys(w: World, m: map<int, (int, int)>)
    requires GridShape(w) && w.startX == 1
    requires forall x, y :: InGrid(w, x, y) ==> Key(w, x, y) in m && m[Key(w, x, y)] == (x, y)
    requires forall k :: k in m ==> InGrid(w, m[k].0, m[k].1) && Key(w, m[k].0, m[k].1) == k
    ensures m.Keys == Labels.SetOf(Labels.Upto(w.sizeX * w.sizeY))
    ensures |m| == w.sizeX * w.sizeY
    ensures 1 in m && w.sizeX * w.sizeY in m
    ensures m[1] == (w.startX, w.startY)
    ensures m[w.sizeX * w.sizeY] == (w.startX + w.sizeX - 1, w.startY + w.sizeY - 1)
  {
    var n := w.sizeX * w.sizeY;
    Labels.UptoSet(n);
    forall k | k in m ensures 1 <= k <= n {
      KeyRange(w, m[k].0, m[k].1);
    }
    forall k | 1 <= k <= n ensures k in m {
      var c := Cell(w, k);
    }
    assert m.Keys == Labels.SetOf(Labels.Upto(n));
    CornerKeys(w);
  }

  /** The first and last corners of a grid starting at column 1 have keys 1 and sizeX·sizeY. */
  lemma CornerKeys(w: World)
    requires GridShape(w) && w.startX == 1
    ensures InGrid(w, w.startX, w.startY) && Key(w, w.startX, w.startY) == 1
    ensures InGrid(w, w.startX + w.sizeX - 1, w.startY + w.sizeY - 1)
    ensures Key(w, w.startX + w.sizeX - 1, w.startY + w.sizeY - 1) == w.sizeX * w.sizeY
  {
    assert (w.sizeY - 1) * w.sizeX == w.sizeX * w.sizeY - w.sizeX;
  }

  /** The edge targets `create_edges` picks for the node at (x, y): the left neighbour when
      there is one and its coin comes up, then the node above likewise. The coins are
      `random.random() < base_edge_chance`. */
  function Targets(w: World, x: int, y: int, leftCoin: bool, aboveCoin: bool): (ts: seq<int>)
    requires InGrid(w, x, y)
    ensures |ts| <= 2
    ensures x > w.startX && leftCoin ==> Key(w, x - 1, y) in ts
    ensures y > w.startY && aboveCoin ==> Key(w, x, y - 1) in ts
    ensures |ts| == (if x > w.startX && leftCoin then 1 else 0) + (if y > w.startY && aboveCoin then 1 else 0)
    ensures forall i :: 0 <= i < |ts| ==> ts[i] == Key(w, x, y) - 1 || ts[i] == Key(w, x, y) - w.sizeX
    ensures forall i :: 0 <= i < |ts| ==>
      (ts[i] == Key(w, x - 1, y) && InGrid(w, x - 1, y)) || (ts[i] == Key(w, x, y - 1) && InGrid(w, x, y - 1))
  {
    var left := if x > w.startX && leftCoin then [(y - w.startY) * w.sizeX + (x - 1)] else [];
    var above := if y > w.startY && aboveCoin then [((y - 1) - w.startY) * w.sizeX + x] else [];
    assert (y - 1 - w.startY) * w.sizeX == (y - w.startY) * w.sizeX - w.sizeX;
    left + above
  }

  /** A node never targets itself, and every target is a key `create_nodes` stored. */
  lemma TargetsAreOtherNodes(w: World, m: map<int, (int, int)>, x: int, y: int, leftCoin: bool, aboveCoin: bool)
    requires GridShape(w) && InGrid(w, x, y)
    requires forall x', y' :: InGrid(w, x', y') ==> Key(w, x', y') in m && m[Key(w, x', y')] == (x', y')
    ensures forall t :: t in Targets(w, x, y, leftCoin, aboveCoin) ==> t in m && t != Key(w, x, y) && m[t] != (x, y)
  {
    forall t | t in Targets(w, x, y, leftCoin, aboveCoin) ensures t in m && t != Key(w, x, y) && m[t] != (x, y) {
      var ts := Targets(w, x, y, leftCoin, aboveCoin);
      var i :| 0 <= i < |ts| && ts[i] == t;
      assert t == Key(w, x, y) - 1 || t == Key(w, x, y) - w.sizeX;
      if t == Key(w, x - 1, y) && InGrid(w, x - 1, y) {
        assert m[t] == (x - 1, y);
      } else {
        assert m[t] == (x, y - 1);
      }
    }
  }

  /** Multiplying by a non-negative factor keeps order. */
  lemma MulMonotone(c: int, a: int, b: int)
    requires c >= 0 && a <= b
    ensures c * a <= c * b
  {
    assert c * b - c * a == c * (b - a);
  }

  /** The start and target node keys of `Environment.__init__` are the cells `padding` steps
      in from the first and the last corner, the start no later than the target. */
  lemma StartAndTargetKeys(w: World)
    requires GridShape(w) && w.startX == 1 && w.startY == 1
    requires w.padding >= 0 && 2 * w.padding < w.sizeX && 2 * w.padding < w.sizeY
    ensures var startKey := w.padding * w.sizeX + w.padding + 1;
      var targetKey := w.sizeX * w.sizeY - w.padding * w.sizeX - w.padding;
      && InGrid(w, w.padding + 1, w.padding + 1) && startKey == Key(w, w.padding + 1, w.padding + 1)
      && InGrid(w, w.sizeX - w.padding, w.sizeY - w.padding) && targetKey == Key(w, w.sizeX - w.padding, w.sizeY - w.padding)
      && startKey <= targetKey
  {
    var p, sx, sy := w.padding, w.sizeX, w.sizeY;
    assert Key(w, p + 1, p + 1) == p * sx + p + 1;
    assert (sy - p - 1) * sx == sy * sx - p * sx - sx;
    assert Key(w, sx - p, sy - p) == (sy - p - 1) * sx + sx - p;
    MulMonotone(sx, 2 * p + 1, sy);
    assert sx * (2 * p + 1) == 2 * (p * sx) + sx;
  }

  /** The shipped configuration: keys 58 and 177, the cells (4, 4) and (15, 10). */
  lemma ShippedStartAndTarget()
    ensures GridShape(Shipped)
    ensures Key(Shipped, 4, 4) == 58 && Key(Shipped, 15, 10) == 177
  {
  }

  // ---------------------------------------------------------------- weight buckets

  /** `int((weight - min) / (max - min) * (types - 1))`; equal minimum and maximum weights
      make Python divide by zero, reported as `None`. */
  function WeightIndex(w: World, weight: int): (r: Option<int>)
    ensures r.None? <==> w.maxWeight == w.minWeight
  {
    if w.maxWeight == w.minWeight then None
    else Some(Trunc(Scaled(w, weight)))
  }

  /** The weight's place between minimum and maximum, stretched over `types - 1`. */
  function Scaled(w: World, weight: int): real
    requires w.maxWeight != w.minWeight
  {
    (weight - w.minWeight) as real / (w.maxWeight - w.minWeight) as real * (w.edgeTypes - 1) as real
  }

  /** `0 <= f <= 1` and `n >= 0` give `0 <= f·n <= n`. */
  lemma ScaleUnit(f: real, n: real)
    requires 0.0 <= f <= 1.0 && n >= 0.0
    ensures 0.0 <= f * n <= n
  {
  }

  /** `0 <= a <= b` with `b > 0` gives `0 <= a / b <= 1`, and exactly 1 when `a == b`. */
  lemma UnitFraction(a: real, b: real)
    requires 0.0 <= a <= b && b > 0.0
    ensures 0.0 <= a / b <= 1.0
    ensures a == b ==> a / b == 1.0
  {
  }

  /** A weight within [min, max] falls in one of the buckets 0..types-1, the maximum in the
      last. */
  lemma WeightIndexInRange(w: World, weight: int)
    requires w.minWeight < w.maxWeight && w.edgeTypes >= 1
    requires w.minWeight <= weight <= w.maxWeight
    ensures WeightIndex(w, weight).Some?
    ensures 0 <= WeightIndex(w, weight).value < w.edgeTypes
    ensures weight == w.maxWeight ==> WeightIndex(w, weight).value == w.edgeTypes - 1
  {
    var f := (weight - w.minWeight) as real / (w.maxWeight - w.minWeight) as real;
    var top := (w.edgeTypes - 1) as real;
    UnitFraction((weight - w.minWeight) as real, (w.maxWeight - w.minWeight) as real);
    ScaleUnit(f, top);
    var v := f * top;
    assert Scaled(w, weight) == v;
    assert 0.0 <= v <= top;
    if weight == w.maxWeight {
      assert v == top;
    }
  }

  /** `WeightIndex` for the world's weight range, as a function of the weight alone. */
  function Indexer(w: World): int -> Option<int> {
    (weight: int) => WeightIndex(w, weight)
  }

  /** The `(u, v)` of the edges whose weight `ix` puts in bucket `i`, in edge order. */
  function Bucket<N>(ix: int -> Option<int>, edges: seq<(N, N, int)>, i: int): (b: seq<(N, N)>)
    ensures |b| <= |edges|
  {
    if |edges| == 0 then []
    else
      var e := edges[0];
      (if ix(e.2) == Some(i) then [(e.0, e.1)] else []) + Bucket(ix, edges[1..], i)
  }

  /** Every edge's weight names one of the buckets 0..count-1. */
  predicate AllIndexed<N>(ix: int -> Option<int>, edges: seq<(N, N, int)>, count: int) {
    forall j :: 0 <= j < |edges| ==> ix(edges[j].2).Some? && 0 <= ix(edges[j].2).value < count
  }

  /** The edge-sorting loop of `Environment.__init__`: buckets 0..types-1 start empty and each
      edge is appended to the bucket of its weight. The bucket width is computed first, by a
      division by the number of edge types, so zero edge types makes Python raise even when
      there are no edges; so does a weight naming no bucket. A raise is reported as `None`. */
  method SortEdges<N>(w: World, edges: seq<(N, N, int)>) returns (r: Option<seq<seq<(N, N)>>>)
    ensures w.edgeTypes == 0 ==> r.None?
    ensures r.Some? <==> w.edgeTypes != 0 && AllIndexed(Indexer(w), edges, w.edgeTypes)
    ensures r.Some? ==> |r.value| == if w.edgeTypes > 0 then w.edgeTypes else 0
    ensures r.Some? ==> forall i :: 0 <= i < |r.value| ==> r.value[i] == Bucket(Indexer(w), edges, i)
  {
    if w.edgeTypes == 0 {
      return None;
    }
    r := SortBy(Indexer(w), w.edgeTypes, edges);
  }

  /** The sorting loop for any bucket function `ix` and number of buckets `types`. */
  method SortBy<N>(ix: int -> Option<int>, types: int, edges: seq<(N, N, int)>) returns (r: Option<seq<seq<(N, N)>>>)
    ensures r.Some? <==> AllIndexed(ix, edges, types)
    ensures r.Some? ==> |r.value| == if types > 0 then types else 0
    ensures r.Some? ==> forall i :: 0 <= i < |r.value| ==> r.value[i] == Bucket(ix, edges, i)
  {
    var count := if types > 0 then types else 0;
    var buckets: seq<seq<(N, N)>> := seq(count, _ => []);
    var j := 0;
    while j < |edges|
      invariant 0 <= j <= |edges| && |buckets| == count
      invariant AllIndexed(ix, edges[..j], types)
      invariant forall i :: 0 <= i < count ==> buckets[i] + Bucket(ix, edges[j..], i) == Bucket(ix, edges, i)
    {
      var index := ix(edges[j].2);
      if index.None? || !(0 <= index.value < count) {
        assert !AllIndexed(ix, edges, types) by {
          assert edges[j] == edges[j];
        }
        return None;
      }
      var e := edges[j];
      var next := buckets[index.value := buckets[index.value] + [(e.0, e.1)]];
      forall i | 0 <= i < count
        ensures next[i] + Bucket(ix, edges[j + 1..], i) == Bucket(ix, edges, i)
      {
        BucketStep(ix, edges, j, i);
        var here := if i == index.value then [(e.0, e.1)] else [];
        assert next[i] == buckets[i] + here;
        AppendAssoc(buckets[i], here, Bucket(ix, edges[j + 1..], i));
      }
      AllIndexedStep(ix, edges, j, types);
      buckets := next;
      j := j + 1;
    }
    assert edges[..j] == edges;
    assert edges[j..] == [];
    r := Some(buckets);
  }

  lemma AppendAssoc<T>(a: seq<T>, b: seq<T>, c: seq<T>)
    ensures (a + b) + c == a + (b + c)
  {
  }

  /** Bucket `i` of `edges[j..]` is what edge `j` adds to it followed by bucket `i` of the
      edges after it. */
  lemma BucketStep<N>(ix: int -> Option<int>, edges: seq<(N, N, int)>, j: int, i: int)
    requires 0 <= j < |edges|
    ensures Bucket(ix, edges[j..], i)
      == (if ix(edges[j].2) == Some(i) then [(edges[j].0, edges[j].1)] else []) + Bucket(ix, edges[j + 1..], i)
  {
    assert edges[j..][1..] == edges[j + 1..];
  }

  /** One more edge whose weight names a bucket keeps the prefix indexed. */
  lemma AllIndexedStep<N>(ix: int -> Option<int>, edges: seq<(N, N, int)>, j: int, types: int)
    requires 0 <= j < |edges| && AllIndexed(ix, edges[..j], types)
    requires ix(edges[j].2).Some? && 0 <= ix(edges[j].2).value < types
    ensures AllIndexed(ix, edges[..j + 1], types)
  {
    var p := edges[..j + 1];
    forall k | 0 <= k < |p| ensures ix(p[k].2).Some? && 0 <= ix(p[k].2).value < types {
      if k < j {
        assert p[k] == edges[..j][k];
      }
    }
  }

  /** The total size of buckets 0..n-1. */
  function Total<N>(ix: int -> Option<int>, edges: seq<(N, N, int)>, n: nat): nat {
    if n == 0 then 0 else Total(ix, edges, n - 1) + |Bucket(ix, edges, n - 1)|
  }

  /** The first edge adds one to the bucket its weight names and nothing to the others. */
  lemma BucketHead<N>(ix: int -> Option<int>, edges: seq<(N, N, int)>, i: int)
    requires |edges| > 0
    ensures |Bucket(ix, edges, i)| == (if ix(edges[0].2) == Some(i) then 1 else 0) + |Bucket(ix, edges[1..], i)|
  {
  }

  lemma {:induction false} TotalCons<N>(ix: int -> Option<int>, edges: seq<(N, N, int)>, n: nat)
    requires |edges| > 0
    ensures var x := ix(edges[0].2);
      Total(ix, edges, n) == Total(ix, edges[1..], n) + (if x.Some? && 0 <= x.value < n then 1 else 0)
  {
    if n > 0 {
      var rest := edges[1..];
      TotalCons(ix, edges, n - 1);
      BucketHead(ix, edges, n - 1);
      assert Total(ix, edges, n) == Total(ix, edges, n - 1) + |Bucket(ix, edges, n - 1)|;
      assert Total(ix, rest, n) == Total(ix, rest, n - 1) + |Bucket(ix, rest, n - 1)|;
    }
  }

  /** When every weight names a bucket, the buckets partition the edges: their sizes add up
      to the number of edges. */
  lemma {:induction false} BucketsPartition<N>(ix: int -> Option<int>, edges: seq<(N, N, int)>, count: nat)
    requires AllIndexed(ix, edges, count)
    ensures Total(ix, edges, count) == |edges|
  {
    if |edges| > 0 {
      TotalCons(ix, edges, count);
      assert ix(edges[0].2).Some? && 0 <= ix(edges[0].2).value < count;
      assert AllIndexed(ix, edges[1..], count) by {
        forall j | 0 <= j < |edges| - 1
          ensures ix(edges[1..][j].2).Some? && 0 <= ix(edges[1..][j].2).value < count
        {
          assert edges[1..][j] == edges[j + 1];
        }
      }
      BucketsPartition(ix, edges[1..], count);
    } else {
      TotalEmpty(ix, edges, count);
    }
  }

  lemma {:induction false} TotalEmpty<N>(ix: int -> Option<int>, edges: seq<(N, N, int)>, n: nat)
    requires |edges| == 0
    ensures Total(ix, edges, n) == 0
  {
    if n > 0 {
      TotalEmpty(ix, edges, n - 1);
    }
  }

  // ---------------------------------------------------------------- path edges

  /** The edge a path step uses, oriented as the graph stores it, or none when the two nodes
      are not adjacent. */
  function StepEdge<N>(hasEdge: (N, N) -> bool, from: N, to: N): (r: seq<(N, N)>)
    ensures |r| <= 1
    ensures r == [] <==> !hasEdge(from, to) && !hasEdge(to, from)
    ensures r != [] ==> (r[0] == (from, to) && hasEdge(from, to)) || (r[0] == (to, from) && hasEdge(to, from))
  {
    if hasEdge(from, to) then [(from, to)]
    else if hasEdge(to, from) then [(to, from)]
    else []
  }

  /** The steps a walk along `path` from `current` takes: one per node that differs from the
      node before it. */
  function Steps<N(==)>(current: N, path: seq<N>): (r: seq<(N, N)>)
    ensures |r| <= |path|
    ensures forall i :: 0 <= i < |r| ==> r[i].0 != r[i].1
  {
    if |path| == 0 then []
    else if path[0] == current then Steps(current, path[1..])
    else [(current, path[0])] + Steps(path[0], path[1..])
  }

  /** Each step replaced by the stored edge it uses. */
  function Oriented<N>(hasEdge: (N, N) -> bool, steps: seq<(N, N)>): (r: seq<(N, N)>)
    ensures |r| <= |steps|
    ensures forall i :: 0 <= i < |r| ==> hasEdge(r[i].0, r[i].1)
  {
    if |steps| == 0 then []
    else StepEdge(hasEdge, steps[0].0, steps[0].1) + Oriented(hasEdge, steps[1..])
  }

  /** The loop's own recursion: walk the path from `current`, recording each step's stored
      edge. */
  function Walk<N(==)>(hasEdge: (N, N) -> bool, current: N, path: seq<N>): seq<(N, N)> {
    if |path| == 0 then []
    else if path[0] == current then Walk(hasEdge, current, path[1..])
    else StepEdge(hasEdge, current, path[0]) + Walk(hasEdge, path[0], path[1..])
  }

  /** The path-edge loop of `Environment.__init__`: starting at the start node, every node
      that differs from the current one contributes the stored edge between them, in the
      direction it is stored; `None` for the path gives no edges. */
  method PathEdges<N(==)>(hasEdge: (N, N) -> bool, start: N, path: Option<seq<N>>) returns (edges: seq<(N, N)>)
    ensures path.None? ==> edges == []
    ensures path.Some? ==> edges == Walk(hasEdge, start, path.value)
  {
    edges := [];
    if path.None? {
      return;
    }
    var nodes := path.value;
    var current := start;
    var i := 0;
    while i < |nodes|
      invariant 0 <= i <= |nodes|
      invariant edges + Walk(hasEdge, current, nodes[i..]) == Walk(hasEdge, start, nodes)
    {
      var node := nodes[i];
      assert nodes[i..][1..] == nodes[i + 1..];
      if node != current {
        if hasEdge(current, node) {
          edges := edges + [(current, node)];
        } else if hasEdge(node, current) {
          edges := edges + [(node, current)];
        }
        current := node;
      }
      i := i + 1;
    }
  }

  /** The walk records exactly the stored edge of each step, in order: one entry per step
      whose nodes are adjacent, and each entry an edge of the graph. */
  lemma {:induction false} WalkIsOrientedSteps<N>(hasEdge: (N, N) -> bool, current: N, path: seq<N>)
    ensures Walk(hasEdge, current, path) == Oriented(hasEdge, Steps(current, path))
  {
    if |path| > 0 {
      WalkIsOrientedSteps(hasEdge, path[0], path[1..]);
      WalkIsOrientedSteps(hasEdge, current, path[1..]);
      if path[0] != current {
        var steps := Steps(current, path);
        assert steps[0] == (current, path[0]) && steps[1..] == Steps(path[0], path[1..]);
      }
    }
  }

  /** When every step joins adjacent nodes, there is one path edge per step. */
  lemma {:induction false} OrientedKeepsAdjacentSteps<N>(hasEdge: (N, N) -> bool, steps: seq<(N, N)>)
    requires forall i :: 0 <= i < |steps| ==> hasEdge(steps[i].0, steps[i].1) || hasEdge(steps[i].1, steps[i].0)
    ensures |Oriented(hasEdge, steps)| == |steps|
  {
    if |steps| > 0 {
      assert forall i :: 0 <= i < |steps| - 1 ==> steps[1..][i] == steps[i + 1];
      OrientedKeepsAdjacentSteps(hasEdge, steps[1..]);
    }
  }
}
