/** The dense relabelling of the graph store, `update_node_labels`
    (app/classes/graph/navigation_graph.py): nodes keep a label that does not exceed the node
    count, and the others receive, in node order, the smallest labels in 1..count not kept. */
module Labels {
  import opened Optional

  /** A label survives relabelling when it is set and does not exceed the node count. */
  predicate Kept(l: Option<int>, count: int) {
    l.Some? && l.value <= count
  }

  /** `used_labels`: the kept labels, in node order. */
  function KeptValues(ls: seq<Option<int>>, count: int): (used: seq<int>)
    ensures |used| <= |ls|
    ensures forall v :: v in used <==> exists i :: 0 <= i < |ls| && Kept(ls[i], count) && ls[i].value == v
  {
    if |ls| == 0 then []
    else
      var rest := KeptValues(ls[1..], count);
      assert forall i :: 0 <= i < |ls| - 1 ==> ls[1..][i] == ls[i + 1];
      if Kept(ls[0], count) then [ls[0].value] + rest else rest
  }

  /** `len(unlabeled_nodes)`: how many nodes need a new label. */
  function {:induction false} Needing(ls: seq<Option<int>>, count: int): (n: nat)
    ensures n + |KeptValues(ls, count)| == |ls|
  {
    if |ls| == 0 then 0
    else (if Kept(ls[0], count) then 0 else 1) + Needing(ls[1..], count)
  }

  /** `unused_labels` restricted to `lo..count`: the labels in that range nobody keeps,
      ascending. */
  function {:induction false} FreeLabels(lo: int, count: int, used: seq<int>): (free: seq<int>)
    decreases if lo <= count then count - lo + 1 else 0
    ensures forall i :: 0 <= i < |free| ==> lo <= free[i] <= count && free[i] !in used
    ensures forall i, j :: 0 <= i < j < |free| ==> free[i] < free[j]
    ensures forall k :: lo <= k <= count && k !in used ==> k in free
  {
    if lo > count then []
    else
      var rest := FreeLabels(lo + 1, count, used);
      if lo in used then rest else [lo] + rest
  }

  /** The kept labels that fall in `lo..count`. */
  ghost function UsedIn(lo: int, count: int, used: seq<int>): set<int> {
    set k | lo <= k <= count && k in used
  }

  ghost function SetOf(s: seq<int>): set<int> {
    set k | k in s
  }

  lemma {:induction false} FreeCount(lo: int, count: int, used: seq<int>)
    requires lo <= count + 1
    decreases count - lo + 1
    ensures |FreeLabels(lo, count, used)| + |UsedIn(lo, count, used)| == count - lo + 1
  {
    if lo <= count {
      FreeCount(lo + 1, count, used);
      var below := UsedIn(lo + 1, count, used);
      if lo in used {
        assert UsedIn(lo, count, used) == below + {lo};
      } else {
        assert UsedIn(lo, count, used) == below;
      }
    } else {
      assert UsedIn(lo, count, used) == {};
    }
  }

  lemma {:induction false} SetOfSize(s: seq<int>)
    ensures |SetOf(s)| <= |s|
  {
    if |s| > 0 {
      SetOfSize(s[1..]);
      assert SetOf(s) == SetOf(s[1..]) + {s[0]};
    }
  }

  lemma SubsetSize(a: set<int>, b: set<int>)
    requires a <= b
    ensures |a| <= |b|
  {
    assert b == a + (b - a);
  }

  /** There are always at least as many unused labels as nodes needing one, so the
      assignment loop never runs out of labels. */
  lemma EnoughFreeLabels(ls: seq<Option<int>>)
    ensures |FreeLabels(1, |ls|, KeptValues(ls, |ls|))| >= Needing(ls, |ls|)
  {
    var used := KeptValues(ls, |ls|);
    FreeCount(1, |ls|, used);
    SubsetSize(UsedIn(1, |ls|, used), SetOf(used));
    SetOfSize(used);
  }

  /** The labels the nodes needing one end up with, in node order. */
  function {:induction false} Reassigned(ls: seq<Option<int>>, r: seq<int>, count: int): seq<int>
    requires |r| == |ls|
  {
    if |ls| == 0 then []
    else (if Kept(ls[0], count) then [] else [r[0]]) + Reassigned(ls[1..], r[1..], count)
  }

  /** The assignment loop: kept labels stay, the i-th node needing a label gets `free[i]`. */
  function {:induction false} Assign(ls: seq<Option<int>>, count: int, free: seq<int>): (r: seq<int>)
    requires |free| >= Needing(ls, count)
    ensures |r| == |ls|
    ensures forall i :: 0 <= i < |ls| && Kept(ls[i], count) ==> r[i] == ls[i].value
    ensures forall i :: 0 <= i < |ls| && !Kept(ls[i], count) ==> r[i] in free
    ensures Reassigned(ls, r, count) == free[..Needing(ls, count)]
  {
    if |ls| == 0 then []
    else
      var tail := ls[1..];
      var free' := if Kept(ls[0], count) then free else free[1..];
      var rest := Assign(tail, count, free');
      var r := [if Kept(ls[0], count) then ls[0].value else free[0]] + rest;
      assert r[1..] == rest;
      forall i | 1 <= i < |ls|
        ensures Kept(ls[i], count) ==> r[i] == ls[i].value
        ensures !Kept(ls[i], count) ==> r[i] in free
      {
        assert tail[i - 1] == ls[i] && r[i] == rest[i - 1];
        if !Kept(ls[i], count) && !Kept(ls[0], count) {
          var k :| 0 <= k < |free'| && free'[k] == rest[i - 1];
          assert free'[k] == free[k + 1];
        }
      }
      var n := Needing(tail, count);
      assert !Kept(ls[0], count) ==> Needing(ls, count) == n + 1 && free[..n + 1] == [free[0]] + free'[..n] by {
        if !Kept(ls[0], count) {
          TakeCons(free, n);
        }
      }
      r
  }

  lemma TakeCons(s: seq<int>, n: nat)
    requires n < |s|
    ensures s[..n + 1] == [s[0]] + s[1..][..n]
  {
  }

  /** `update_node_labels` over the labels of the nodes in iteration order: the labels they
      hold afterwards. Kept labels are unchanged, and the others are the unused labels of
      1..count, handed out in order. */
  function Relabel(ls: seq<Option<int>>): (r: seq<int>)
    ensures |r| == |ls|
    ensures forall i :: 0 <= i < |ls| && Kept(ls[i], |ls|) ==> r[i] == ls[i].value
    ensures Needing(ls, |ls|) <= |FreeLabels(1, |ls|, KeptValues(ls, |ls|))|
    ensures Reassigned(ls, r, |ls|) == FreeLabels(1, |ls|, KeptValues(ls, |ls|))[..Needing(ls, |ls|)]
  {
    EnoughFreeLabels(ls);
    Assign(ls, |ls|, FreeLabels(1, |ls|, KeptValues(ls, |ls|)))
  }

  /** Labels that are all positive and pairwise different. */
  predicate ProperLabels(ls: seq<Option<int>>) {
    && (forall i :: 0 <= i < |ls| && ls[i].Some? ==> ls[i].value >= 1)
    && (forall i, j :: 0 <= i < j < |ls| && ls[i].Some? && ls[j].Some? ==> ls[i].value != ls[j].value)
  }

  predicate DistinctInts(s: seq<int>) {
    forall i, j :: 0 <= i < j < |s| ==> s[i] != s[j]
  }

  lemma {:induction false} AssignDistinct(ls: seq<Option<int>>, count: int, free: seq<int>)
    requires |free| >= Needing(ls, count)
    requires forall i, j :: 0 <= i < j < |ls| && Kept(ls[i], count) && Kept(ls[j], count) ==> ls[i].value != ls[j].value
    requires forall i, j :: 0 <= i < j < |free| ==> free[i] < free[j]
    requires forall i :: 0 <= i < |ls| && Kept(ls[i], count) ==> ls[i].value !in free
    ensures DistinctInts(Assign(ls, count, free))
  {
    if |ls| > 0 {
      var r := Assign(ls, count, free);
      var tail := ls[1..];
      assert forall i :: 0 <= i < |tail| ==> tail[i] == ls[i + 1];
      var free' := if Kept(ls[0], count) then free else free[1..];
      AssignDistinct(tail, count, free');
      var rest := Assign(tail, count, free');
      assert r[1..] == rest;
      forall k | 0 <= k < |rest| ensures r[0] != rest[k] {
        if Kept(tail[k], count) {
          assert rest[k] == ls[k + 1].value;
          if !Kept(ls[0], count) {
            assert r[0] == free[0];
          }
        } else {
          assert rest[k] in free';
          if !Kept(ls[0], count) {
            var m :| 0 <= m < |free'| && free'[m] == rest[k];
            assert free'[m] == free[m + 1];
          }
        }
      }
      assert r == [r[0]] + rest;
      ConsDistinct(r[0], rest);
    }
  }

  /** A value absent from a duplicate-free sequence can be put in front of it. */
  lemma ConsDistinct(x: int, s: seq<int>)
    requires DistinctInts(s) && x !in s
    ensures DistinctInts([x] + s)
  {
    var t := [x] + s;
    forall i, j | 0 <= i < j < |t| ensures t[i] != t[j] {
      assert t[j] == s[j - 1];
      if i > 0 {
        assert t[i] == s[i - 1];
      }
    }
  }

  lemma {:induction false} DistinctSetSize(s: seq<int>)
    requires DistinctInts(s)
    ensures |SetOf(s)| == |s|
  {
    if |s| > 0 {
      DistinctSetSize(s[1..]);
      assert SetOf(s) == SetOf(s[1..]) + {s[0]};
      assert s[0] !in SetOf(s[1..]);
    }
  }

  /** The labels 1..hi, ascending. */
  function Upto(hi: nat): (s: seq<int>)
    ensures |s| == hi
    ensures forall i :: 0 <= i < hi ==> s[i] == i + 1
  {
    seq(hi, i => i + 1)
  }

  lemma UptoSet(hi: nat)
    ensures |SetOf(Upto(hi))| == hi
    ensures forall k :: k in SetOf(Upto(hi)) <==> 1 <= k <= hi
  {
    var s := Upto(hi);
    forall k | 1 <= k <= hi ensures k in SetOf(s) {
      assert s[k - 1] == k;
    }
    DistinctSetSize(s);
  }

  /** When the labels start positive and distinct, the new labels are distinct and lie in
      1..count. */
  lemma RelabelInRange(ls: seq<Option<int>>)
    requires ProperLabels(ls)
    ensures DistinctInts(Relabel(ls))
    ensures forall i :: 0 <= i < |ls| ==> 1 <= Relabel(ls)[i] <= |ls|
  {
    var count := |ls|;
    var used := KeptValues(ls, count);
    var free := FreeLabels(1, count, used);
    EnoughFreeLabels(ls);
    forall i | 0 <= i < |ls| && Kept(ls[i], count) ensures ls[i].value !in free {
      assert ls[i].value in used;
    }
    AssignDistinct(ls, count, free);
    var r := Relabel(ls);
    assert r == Assign(ls, count, free);
    forall i | 0 <= i < |ls| ensures 1 <= r[i] <= count {
      if !Kept(ls[i], count) {
        assert r[i] in free;
      }
    }
  }

  /** `n` distinct values from 1..n are exactly 1..n. */
  lemma FillsRange(r: seq<int>)
    requires DistinctInts(r)
    requires forall i :: 0 <= i < |r| ==> 1 <= r[i] <= |r|
    ensures SetOf(r) == SetOf(Upto(|r|))
  {
    DistinctSetSize(r);
    UptoSet(|r|);
    var all := SetOf(Upto(|r|));
    assert SetOf(r) <= all;
    assert all == SetOf(r) + (all - SetOf(r));
  }

  /** When the labels start positive and distinct, relabelling leaves every node with a
      distinct label in 1..count, so the labels are exactly 1..count. */
  lemma RelabelIsPermutation(ls: seq<Option<int>>)
    requires ProperLabels(ls)
    ensures DistinctInts(Relabel(ls))
    ensures forall i :: 0 <= i < |ls| ==> 1 <= Relabel(ls)[i] <= |ls|
    ensures SetOf(Relabel(ls)) == SetOf(Upto(|ls|))
  {
    RelabelInRange(ls);
    FillsRange(Relabel(ls));
  }
}
