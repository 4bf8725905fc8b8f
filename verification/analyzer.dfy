/** Leave-one-out scoring of a path (app/classes/graph/analyzer.py): each interior node of
    the current path is blocked in turn, the path cost with that node blocked is read, and the
    expected cost over a uniform choice of blocked node is reported together with the nodes
    whose loss leaves no usable path. Costs are reals; the blocked-path cost is an oracle. */
module Analyzer {
  import opened Optional

  /** What `get_path_cost` hands back: no value, a finite number, or infinity. */
  datatype Cost = Missing | Finite(value: real) | Infinite

  /** The cost survives `None if not cost or cost == infinity else cost`: it is present,
      non-zero and finite. */
  predicate Usable(c: Cost) {
    c.Finite? && c.value != 0.0
  }

  /** The triple `score_path` returns. */
  datatype Score<N> = Score(expected: real, base: real, irreplaceable: seq<N>)

  /** The calls into the graph that scoring makes, in order. */
  datatype Event<N> = Block(node: N) | Unblock(node: N)

  // ---------------------------------------------------------------- sums over reals

  function Sum(cs: seq<real>): real {
    if |cs| == 0 then 0.0 else cs[0] + Sum(cs[1..])
  }

  /** `sum(c * p for c in cs)`. */
  function WeightedSum(cs: seq<real>, p: real): real {
    if |cs| == 0 then 0.0 else cs[0] * p + WeightedSum(cs[1..], p)
  }

  function Min(cs: seq<real>): (m: real)
    requires |cs| > 0
    ensures forall i :: 0 <= i < |cs| ==> m <= cs[i]
    ensures exists i :: 0 <= i < |cs| && m == cs[i]
  {
    if |cs| == 1 then cs[0]
    else
      var rest := Min(cs[1..]);
      assert forall i :: 1 <= i < |cs| ==> cs[i] == cs[1..][i - 1];
      if cs[0] <= rest then cs[0] else rest
  }

  function Max(cs: seq<real>): (m: real)
    requires |cs| > 0
    ensures forall i :: 0 <= i < |cs| ==> cs[i] <= m
    ensures exists i :: 0 <= i < |cs| && m == cs[i]
  {
    if |cs| == 1 then cs[0]
    else
      var rest := Max(cs[1..]);
      assert forall i :: 1 <= i < |cs| ==> cs[i] == cs[1..][i - 1];
      if cs[0] >= rest then cs[0] else rest
  }

  /** Weighting every term by the same probability is scaling the plain sum. */
  lemma {:induction false} WeightedSumFactor(cs: seq<real>, p: real)
    ensures WeightedSum(cs, p) == Sum(cs) * p
  {
    if |cs| > 0 {
      WeightedSumFactor(cs[1..], p);
    }
  }

  /** A sum of terms within [lo, hi] lies within [|cs|·lo, |cs|·hi]. */
  lemma {:induction false} SumBounds(cs: seq<real>, lo: real, hi: real)
    requires forall i :: 0 <= i < |cs| ==> lo <= cs[i] <= hi
    ensures (|cs| as real) * lo <= Sum(cs) <= (|cs| as real) * hi
  {
    if |cs| > 0 {
      assert forall i :: 0 <= i < |cs| - 1 ==> cs[1..][i] == cs[i + 1];
      SumBounds(cs[1..], lo, hi);
    }
  }

  /** A sum of equal terms is the count times the term. */
  lemma {:induction false} SumConst(cs: seq<real>, c: real)
    requires forall i :: 0 <= i < |cs| ==> cs[i] == c
    ensures Sum(cs) == (|cs| as real) * c
  {
    if |cs| > 0 {
      assert forall i :: 0 <= i < |cs| - 1 ==> cs[1..][i] == cs[i + 1];
      SumConst(cs[1..], c);
    }
  }

  // ---------------------------------------------------------------- scoring

  /** The nodes strictly between the first and the last. */
  function Interior<N>(nodes: seq<N>): (r: seq<N>)
    requires |nodes| >= 2
    ensures |r| == |nodes| - 2
    ensures forall i :: 0 <= i < |r| ==> r[i] == nodes[i + 1]
  {
    nodes[1..|nodes| - 1]
  }

  /** `costs[node]`: the blocked cost when it is usable, the unblocked base cost otherwise. */
  function RecordedCost(base: real, c: Cost): (r: real)
    ensures Usable(c) ==> r == c.value
    ensures !Usable(c) ==> r == base
  {
    if Usable(c) then c.value else base
  }

  /** The recorded cost of each interior node, in path order. */
  function RecordedCosts<N>(interior: seq<N>, base: real, blocked: N -> Cost): (cs: seq<real>)
    ensures |cs| == |interior|
    ensures forall i :: 0 <= i < |interior| ==> cs[i] == RecordedCost(base, blocked(interior[i]))
  {
    seq(|interior|, i requires 0 <= i < |interior| => RecordedCost(base, blocked(interior[i])))
  }

  /** `irreplaceable_nodes`: the nodes without a usable blocked cost, in path order. */
  function Irreplaceable<N>(interior: seq<N>, blocked: N -> Cost): (r: seq<N>)
    ensures forall i :: 0 <= i < |r| ==> r[i] in interior && !Usable(blocked(r[i]))
    ensures forall i :: 0 <= i < |interior| && !Usable(blocked(interior[i])) ==> interior[i] in r
    ensures |r| <= |interior|
  {
    if |interior| == 0 then []
    else (if Usable(blocked(interior[0])) then [] else [interior[0]]) + Irreplaceable(interior[1..], blocked)
  }

  /** `idx` lists positions of `s`, in increasing order, that hold the elements of `r` one by
      one: `r` is `s` with the other positions left out. */
  predicate PicksInOrder<N(==)>(s: seq<N>, r: seq<N>, idx: seq<nat>) {
    && |idx| == |r|
    && (forall k :: 0 <= k < |idx| ==> idx[k] < |s| && s[idx[k]] == r[k])
    && (forall k, l :: 0 <= k < l < |idx| ==> idx[k] < idx[l])
  }

  /** `Irreplaceable` keeps path order and multiplicity: `idx` gives, for each listed node, the
      position on the path it comes from. The positions are exactly those whose blocked cost is
      unusable, each once, in increasing order. */
  lemma {:induction false} IrreplaceableInPathOrder<N>(interior: seq<N>, blocked: N -> Cost) returns (idx: seq<nat>)
    ensures PicksInOrder(interior, Irreplaceable(interior, blocked), idx)
    ensures forall i :: 0 <= i < |interior| ==> (!Usable(blocked(interior[i])) <==> i in idx)
  {
    if |interior| == 0 {
      idx := [];
    } else {
      var tail := interior[1..];
      var rest := IrreplaceableInPathOrder(tail, blocked);
      var shifted := Shifted(rest);
      assert interior == [interior[0]] + tail;
      if Usable(blocked(interior[0])) {
        assert Irreplaceable(interior, blocked) == Irreplaceable(tail, blocked);
        idx := shifted;
        PickSkip(interior[0], tail, Irreplaceable(tail, blocked), rest);
      } else {
        assert Irreplaceable(interior, blocked) == [interior[0]] + Irreplaceable(tail, blocked);
        idx := [0] + shifted;
        PickKeep(interior[0], tail, Irreplaceable(tail, blocked), rest);
      }
      forall i | 0 <= i < |interior| ensures (!Usable(blocked(interior[i])) <==> i in idx) {
        if i > 0 {
          assert interior[i] == tail[i - 1];
          assert i in shifted <==> i - 1 in rest;
        } else {
          assert 0 !in shifted;
        }
      }
    }
  }

  /** Leaving out a first element moves every picked position one step on. */
  lemma PickSkip<N>(x: N, tail: seq<N>, r: seq<N>, idx: seq<nat>)
    requires PicksInOrder(tail, r, idx)
    ensures PicksInOrder([x] + tail, r, Shifted(idx))
  {
  }

  /** Keeping a first element picks position 0 ahead of the moved positions. */
  lemma PickKeep<N>(x: N, tail: seq<N>, r: seq<N>, idx: seq<nat>)
    requires PicksInOrder(tail, r, idx)
    ensures PicksInOrder([x] + tail, [x] + r, [0] + Shifted(idx))
  {
  }

  /** Every position moved one step on. */
  function Shifted(idx: seq<nat>): (r: seq<nat>)
    ensures |r| == |idx|
    ensures forall k :: 0 <= k < |idx| ==> r[k] == idx[k] + 1
    ensures 0 !in r
    ensures forall i: int :: i in r <==> 1 <= i && i - 1 in idx
  {
    var r := seq(|idx|, k requires 0 <= k < |idx| => idx[k] + 1);
    assert forall i: int :: i in r ==> 1 <= i && i - 1 in idx by {
      forall i: int | i in r ensures 1 <= i && i - 1 in idx {
        var k :| 0 <= k < |r| && r[k] == i;
        assert idx[k] == i - 1;
      }
    }
    assert forall i: int :: 1 <= i && i - 1 in idx ==> i in r by {
      forall i: int | 1 <= i && i - 1 in idx ensures i in r {
        var k :| 0 <= k < |idx| && idx[k] == i - 1;
        assert r[k] == i;
      }
    }
    r
  }

  /** The block/unblock calls scoring makes: each interior node is blocked, its cost read, and
      then unblocked before the next. */
  function {:induction false} Trace<N>(interior: seq<N>): (t: seq<Event<N>>)
    ensures |t| == 2 * |interior|
    ensures forall i :: 0 <= i < |interior| ==> t[2 * i] == Block(interior[i]) && t[2 * i + 1] == Unblock(interior[i])
  {
    if |interior| == 0 then []
    else
      var rest := Trace(interior[1..]);
      var t := [Block(interior[0]), Unblock(interior[0])] + rest;
      forall i | 1 <= i < |interior|
        ensures t[2 * i] == Block(interior[i]) && t[2 * i + 1] == Unblock(interior[i])
      {
        var j := i - 1;
        assert interior[1..][j] == interior[i];
        assert t[2 * i] == rest[2 * j] && t[2 * i + 1] == rest[2 * j + 1];
      }
      t
  }

  /** The blocked set after a sequence of calls, with blocking as set insertion and unblocking
      as removal. */
  function Apply<N>(blocked: set<N>, t: seq<Event<N>>): set<N>
    decreases |t|
  {
    if |t| == 0 then blocked
    else
      var next := match t[0]
        case Block(n) => blocked + {n}
        case Unblock(n) => blocked - {n};
      Apply(next, t[1..])
  }

  /** `Analyzer.score_path` for the path `nodes`, whose unblocked cost is `base` and whose cost
      with node `m` blocked is `blocked(m)`. Returns the score and the calls made. */
  function ScorePath<N>(nodes: seq<N>, base: real, blocked: N -> Cost): (r: (Option<Score<N>>, seq<Event<N>>))
    ensures r.0.None? <==> |nodes| < 3
    ensures r.0.None? ==> r.1 == []
    ensures r.0.Some? ==> r.0.value.base == base
    ensures r.0.Some? ==> r.1 == Trace(Interior(nodes))
    ensures r.0.Some? ==> r.0.value.irreplaceable == Irreplaceable(Interior(nodes), blocked)
    ensures r.0.Some? ==> r.0.value.expected == WeightedSum(RecordedCosts(Interior(nodes), base, blocked), 1.0 / ((|nodes| - 2) as real))
  {
    if |nodes| < 3 then (None, [])
    else
      var interior := Interior(nodes);
      var chance := 1.0 / ((|nodes| - 2) as real);
      var expected := WeightedSum(RecordedCosts(interior, base, blocked), chance);
      (Some(Score(expected, base, Irreplaceable(interior, blocked))), Trace(interior))
  }

  // ---------------------------------------------------------------- properties

  /** The probabilities handed to the interior nodes sum to one. */
  lemma ChancesSumToOne(k: nat)
    requires k > 0
    ensures Sum(seq(k, _ => 1.0 / (k as real))) == 1.0
  {
    SumConst(seq(k, _ => 1.0 / (k as real)), 1.0 / (k as real));
  }

  /** Scaling by the reciprocal is division. */
  lemma ScaleByReciprocal(x: real, k: real)
    requires k > 0.0
    ensures x * (1.0 / k) == x / k
  {
  }

  /** Dividing a value within [k·lo, k·hi] by k lands within [lo, hi]. */
  lemma DivideBounds(x: real, k: real, lo: real, hi: real)
    requires k > 0.0 && k * lo <= x <= k * hi
    ensures lo <= x / k <= hi
  {
    assert x / k * k == x;
  }

  /** Weighting each of the terms by one over their count gives their mean. */
  lemma WeightedByReciprocalIsMean(cs: seq<real>)
    requires |cs| > 0
    ensures WeightedSum(cs, 1.0 / (|cs| as real)) == Sum(cs) / (|cs| as real)
  {
    WeightedSumFactor(cs, 1.0 / (|cs| as real));
    ScaleByReciprocal(Sum(cs), |cs| as real);
  }

  /** A mean of terms within [lo, hi] lies within [lo, hi]. */
  lemma MeanWithin(cs: seq<real>, lo: real, hi: real)
    requires |cs| > 0
    requires forall i :: 0 <= i < |cs| ==> lo <= cs[i] <= hi
    ensures lo <= Sum(cs) / (|cs| as real) <= hi
  {
    SumBounds(cs, lo, hi);
    DivideBounds(Sum(cs), |cs| as real, lo, hi);
  }

  /** A mean lies between the least and the greatest term. */
  lemma MeanBetweenMinMax(cs: seq<real>)
    requires |cs| > 0
    ensures Min(cs) <= Sum(cs) / (|cs| as real) <= Max(cs)
  {
    MeanWithin(cs, Min(cs), Max(cs));
  }

  /** The expected cost is the mean of the recorded costs, and lies between their least and
      greatest. */
  lemma ExpectedIsMean<N>(nodes: seq<N>, base: real, blocked: N -> Cost)
    requires |nodes| >= 3
    ensures var cs := RecordedCosts(Interior(nodes), base, blocked);
      && ScorePath(nodes, base, blocked).0.value.expected == Sum(cs) / (|cs| as real)
      && Min(cs) <= ScorePath(nodes, base, blocked).0.value.expected <= Max(cs)
  {
    var cs := RecordedCosts(Interior(nodes), base, blocked);
    var k := |cs| as real;
    assert k == (|nodes| - 2) as real;
    assert ScorePath(nodes, base, blocked).0.value.expected == WeightedSum(cs, 1.0 / k);
    WeightedByReciprocalIsMean(cs);
    MeanBetweenMinMax(cs);
  }

  /** When no interior node has a usable blocked cost, every interior node is irreplaceable
      and the expected cost is the base cost. */
  lemma AllIrreplaceable<N>(nodes: seq<N>, base: real, blocked: N -> Cost)
    requires |nodes| >= 3
    requires forall i :: 1 <= i < |nodes| - 1 ==> !Usable(blocked(nodes[i]))
    ensures ScorePath(nodes, base, blocked).0.value.expected == base
    ensures ScorePath(nodes, base, blocked).0.value.irreplaceable == Interior(nodes)
  {
    var interior := Interior(nodes);
    var cs := RecordedCosts(interior, base, blocked);
    var k := |cs| as real;
    assert k == (|nodes| - 2) as real;
    assert forall i :: 0 <= i < |cs| ==> cs[i] == base by {
      forall i | 0 <= i < |cs| ensures cs[i] == base {
        assert interior[i] == nodes[i + 1];
      }
    }
    SumConst(cs, base);
    WeightedByReciprocalIsMean(cs);
    DivideBounds(Sum(cs), k, base, base);
    assert forall i :: 0 <= i < |interior| ==> !Usable(blocked(interior[i])) by {
      forall i | 0 <= i < |interior| ensures !Usable(blocked(interior[i])) {
        assert interior[i] == nodes[i + 1];
      }
    }
    IrreplaceableAll(interior, blocked);
  }

  lemma {:induction false} IrreplaceableAll<N>(interior: seq<N>, blocked: N -> Cost)
    requires forall i :: 0 <= i < |interior| ==> !Usable(blocked(interior[i]))
    ensures Irreplaceable(interior, blocked) == interior
  {
    if |interior| > 0 {
      var rest := interior[1..];
      forall i | 0 <= i < |rest| ensures !Usable(blocked(rest[i])) {
        assert rest[i] == interior[i + 1];
      }
      IrreplaceableAll(rest, blocked);
      assert interior == [interior[0]] + rest;
    }
  }

  /** The end points of a path without repeated nodes are never irreplaceable. */
  lemma EndsNeverIrreplaceable<N>(nodes: seq<N>, base: real, blocked: N -> Cost)
    requires |nodes| >= 3
    requires forall i, j :: 0 <= i < j < |nodes| ==> nodes[i] != nodes[j]
    ensures nodes[0] !in ScorePath(nodes, base, blocked).0.value.irreplaceable
    ensures nodes[|nodes| - 1] !in ScorePath(nodes, base, blocked).0.value.irreplaceable
  {
    var interior := Interior(nodes);
    assert nodes[0] !in interior by {
      forall i | 0 <= i < |interior| ensures interior[i] != nodes[0] {
        assert interior[i] == nodes[i + 1];
      }
    }
    assert nodes[|nodes| - 1] !in interior by {
      forall i | 0 <= i < |interior| ensures interior[i] != nodes[|nodes| - 1] {
        assert interior[i] == nodes[i + 1];
      }
    }
  }

  /** Blocking and then unblocking each node in turn leaves the blocked set as it was,
      provided none of those nodes was blocked beforehand. */
  lemma {:induction false} TraceRestoresBlocked<N>(blocked: set<N>, interior: seq<N>)
    requires forall i :: 0 <= i < |interior| ==> interior[i] !in blocked
    ensures Apply(blocked, Trace(interior)) == blocked
  {
    if |interior| > 0 {
      var n := interior[0];
      var t := Trace(interior);
      var rest := Trace(interior[1..]);
      assert t == [Block(n), Unblock(n)] + rest;
      assert t[1..] == [Unblock(n)] + rest;
      assert t[1..][1..] == rest;
      assert blocked + {n} - {n} == blocked;
      assert forall i :: 0 <= i < |interior| - 1 ==> interior[1..][i] == interior[i + 1];
      TraceRestoresBlocked(blocked, interior[1..]);
    }
  }

  /** Scoring leaves the graph's blocked set as it found it. */
  lemma ScoringRestoresBlocked<N>(nodes: seq<N>, base: real, blocked: N -> Cost, before: set<N>)
    requires forall i :: 1 <= i < |nodes| - 1 ==> nodes[i] !in before
    ensures Apply(before, ScorePath(nodes, base, blocked).1) == before
  {
    if |nodes| >= 3 {
      TraceRestoresBlocked(before, Interior(nodes));
    }
  }
}
