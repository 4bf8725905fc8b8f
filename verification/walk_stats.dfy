/** The walk statistics of the console view (app/classes/views/__init__.py): the walk-data
    key, the completion-gated counter map with its list of key snapshots, the evils' random
    moves and the walk along a path that dies on meeting an evil. Random choices are an
    oracle that picks an index into the candidates. */
module WalkStats {
  import opened Optional

  /** `WalkDataKey`. */
  datatype WalkKey = WalkKey(rows: int, cols: int, walkIndex: int, pathIndex: int, pathLen: int, death: bool, success: bool)

  /** What `WalkDataKey.key()` distinguishes: the fields its `csv_line` prints, tab-separated.
      The walk index is not among them. */
  datatype KeyId = KeyId(rows: int, cols: int, pathIndex: int, pathLen: int, success: bool, death: bool)

  /** A fresh key: every number -1, neither flag set. */
  function NewWalkKey(): (k: WalkKey)
    ensures !Complete(k)
  {
    WalkKey(-1, -1, -1, -1, -1, false, false)
  }

  /** `WalkDataKey.complete`: the walk ended in death or success. */
  predicate Complete(k: WalkKey) {
    k.death || k.success
  }

  function KeyOf(k: WalkKey): KeyId {
    KeyId(k.rows, k.cols, k.pathIndex, k.pathLen, k.success, k.death)
  }

  /** Two keys are the same statistic exactly when they agree on everything but the walk
      index. */
  lemma KeyIgnoresWalkIndex(k: WalkKey, k': WalkKey)
    ensures KeyOf(k) == KeyOf(k') <==> k.(walkIndex := 0) == k'.(walkIndex := 0)
  {
  }

  /** The console view's bookkeeping: the key being filled in, the snapshots taken so far and
      the counts per key. */
  datatype Console = Console(current: WalkKey, walkKeys: seq<WalkKey>, stats: map<KeyId, int>)

  function NewConsole(): (c: Console)
    ensures Consistent(c) && !Complete(c.current)
  {
    Console(NewWalkKey(), [], map[])
  }

  /** How many snapshots carry the key `id`. */
  function Occurrences(ks: seq<WalkKey>, id: KeyId): nat {
    if |ks| == 0 then 0
    else Occurrences(ks[..|ks| - 1], id) + (if KeyOf(ks[|ks| - 1]) == id then 1 else 0)
  }

  /** Each counted key is counted exactly as often as it was snapshotted, and every snapshot's
      key is counted. */
  predicate Consistent(c: Console) {
    && (forall id :: id in c.stats ==> c.stats[id] == Occurrences(c.walkKeys, id) && c.stats[id] > 0)
    && (forall i :: 0 <= i < |c.walkKeys| ==> KeyOf(c.walkKeys[i]) in c.stats)
  }

  /** `increment_stats_for_walk_data`: an incomplete key raises, with nothing changed. A
      complete key has its count raised by one (from nothing to one), a snapshot of it is
      appended, and its death and success flags are cleared. */
  function Increment(c: Console): (r: Option<Console>)
    ensures r.None? <==> !Complete(c.current)
    ensures r.Some? ==> r.value.walkKeys == c.walkKeys + [c.current]
    ensures r.Some? ==> r.value.stats.Keys == c.stats.Keys + {KeyOf(c.current)}
    ensures r.Some? ==> r.value.stats[KeyOf(c.current)] == (if KeyOf(c.current) in c.stats then c.stats[KeyOf(c.current)] else 0) + 1
    ensures r.Some? ==> forall id :: id in c.stats && id != KeyOf(c.current) ==> r.value.stats[id] == c.stats[id]
    ensures r.Some? ==> r.value.current == c.current.(death := false, success := false)
  {
    if !Complete(c.current) then None
    else
      var id := KeyOf(c.current);
      var count := if id in c.stats then c.stats[id] + 1 else 1;
      var r := Console(c.current.(death := false, success := false), c.walkKeys + [c.current], c.stats[id := count]);
      Some(r)
  }

  /** Counting a complete key keeps the statistics consistent. */
  lemma IncrementKeepsConsistent(c: Console)
    requires Complete(c.current)
    ensures Consistent(c) ==> Consistent(Increment(c).value)
  {
    if Consistent(c) {
      IncrementCounts(c);
      IncrementKeysCounted(c);
    }
  }

  /** After counting, each key's count is its number of snapshots. */
  lemma IncrementCounts(c: Console)
    requires Complete(c.current) && Consistent(c)
    ensures var r := Increment(c).value;
      forall id :: id in r.stats ==> r.stats[id] == Occurrences(r.walkKeys, id) && r.stats[id] > 0
  {
    var r := Increment(c).value;
    var cur := KeyOf(c.current);
    if cur !in c.stats && Occurrences(c.walkKeys, cur) > 0 {
      CountedKeysOccur(c.walkKeys, cur);
    }
    forall id | id in r.stats ensures r.stats[id] == Occurrences(r.walkKeys, id) && r.stats[id] > 0 {
      OccurrencesAppend(c.walkKeys, c.current, id);
    }
  }

  /** After counting, every snapshot's key is counted. */
  lemma IncrementKeysCounted(c: Console)
    requires Complete(c.current) && Consistent(c)
    ensures var r := Increment(c).value;
      forall i :: 0 <= i < |r.walkKeys| ==> KeyOf(r.walkKeys[i]) in r.stats
  {
    var r := Increment(c).value;
    forall i | 0 <= i < |r.walkKeys| ensures KeyOf(r.walkKeys[i]) in r.stats {
      if i < |c.walkKeys| {
        assert r.walkKeys[i] == c.walkKeys[i];
      }
    }
  }

  /** One more snapshot adds one to its own key's count and nothing to the others. */
  lemma OccurrencesAppend(ks: seq<WalkKey>, k: WalkKey, id: KeyId)
    ensures Occurrences(ks + [k], id) == Occurrences(ks, id) + (if KeyOf(k) == id then 1 else 0)
  {
    assert (ks + [k])[..|ks|] == ks;
  }

  /** `walk_success`: mark the key a success and count it. */
  function WalkSuccess(c: Console): (r: Console)
    ensures r.walkKeys == c.walkKeys + [c.current.(success := true)]
    ensures !Complete(r.current)
    ensures Consistent(c) ==> Consistent(r)
  {
    var c1 := c.(current := c.current.(success := true));
    IncrementKeepsConsistent(c1);
    Increment(c1).value
  }

  /** `walk_collide`: mark the key a death and count it. */
  function WalkCollide(c: Console): (r: Console)
    ensures r.walkKeys == c.walkKeys + [c.current.(death := true)]
    ensures !Complete(r.current)
    ensures Consistent(c) ==> Consistent(r)
  {
    var c1 := c.(current := c.current.(death := true));
    IncrementKeepsConsistent(c1);
    Increment(c1).value
  }

  /** A key counted at least once occurs among the snapshots. */
  lemma {:induction false} CountedKeysOccur(ks: seq<WalkKey>, id: KeyId)
    requires Occurrences(ks, id) > 0
    ensures exists i :: 0 <= i < |ks| && KeyOf(ks[i]) == id
  {
    var last := |ks| - 1;
    if KeyOf(ks[last]) != id {
      CountedKeysOccur(ks[..last], id);
      var i :| 0 <= i < last && KeyOf(ks[..last][i]) == id;
      assert ks[i] == ks[..last][i];
    }
  }

  /** The check at the end of `save_results` never raises on consistent statistics: every
      counted key is the key of some snapshot. */
  lemma SaveCheckPasses(c: Console)
    requires Consistent(c)
    ensures forall id :: id in c.stats ==> exists i :: 0 <= i < |c.walkKeys| && KeyOf(c.walkKeys[i]) == id
  {
    forall id | id in c.stats ensures exists i :: 0 <= i < |c.walkKeys| && KeyOf(c.walkKeys[i]) == id {
      CountedKeysOccur(c.walkKeys, id);
    }
  }

  // ---------------------------------------------------------------- evils

  /** The neighbours not among `taken`, in neighbour order. */
  function Available<N(==)>(ns: seq<N>, taken: seq<N>): (r: seq<N>)
    ensures forall i :: 0 <= i < |r| ==> r[i] in ns && r[i] !in taken
    ensures forall i :: 0 <= i < |ns| && ns[i] !in taken ==> ns[i] in r
  {
    if |ns| == 0 then []
    else (if ns[0] in taken then [] else [ns[0]]) + Available(ns[1..], taken)
  }

  /** The random choice for step `step` of a walk and evil `j` among `candidates`, as an
      index. */
  type Chooser<!N> = (nat, nat, seq<N>) -> nat

  /** `move_evils` from evil `j` on: each evil picks among the neighbours not held by it or a
      later evil (their old positions), and staying put. */
  function MoveFrom<N(==)>(evils: seq<N>, j: nat, neighbors: N -> seq<N>, choose: Chooser<N>, step: nat): (r: seq<N>)
    requires j <= |evils|
    decreases |evils| - j
    ensures |r| == |evils| - j
  {
    if j == |evils| then []
    else
      var candidates := Available(neighbors(evils[j]), evils[j..]) + [evils[j]];
      var pick := candidates[choose(step, j, candidates) % |candidates|];
      [pick] + MoveFrom(evils, j + 1, neighbors, choose, step)
  }

  /** `move_evils`. */
  function MoveEvils<N(==)>(evils: seq<N>, neighbors: N -> seq<N>, choose: Chooser<N>, step: nat): (r: seq<N>)
    ensures |r| == |evils|
  {
    MoveFrom(evils, 0, neighbors, choose, step)
  }

  /** The evil at `j + i` either stayed or moved to one of its neighbours that neither it nor
      a later evil held before the move. */
  predicate StayedOrStepped<N(==)>(evils: seq<N>, moved: seq<N>, neighbors: N -> seq<N>, j: nat, i: nat)
    requires j + i < |evils| && i < |moved|
  {
    moved[i] == evils[j + i] || (moved[i] in neighbors(evils[j + i]) && moved[i] !in evils[j + i..])
  }

  lemma {:induction false} MoveFromStaysOrSteps<N>(evils: seq<N>, j: nat, neighbors: N -> seq<N>, choose: Chooser<N>, step: nat)
    requires j <= |evils|
    decreases |evils| - j
    ensures forall i :: 0 <= i < |evils| - j ==> StayedOrStepped(evils, MoveFrom(evils, j, neighbors, choose, step), neighbors, j, i)
  {
    if j < |evils| {
      MoveFromStaysOrSteps(evils, j + 1, neighbors, choose, step);
      var r := MoveFrom(evils, j, neighbors, choose, step);
      var rest := MoveFrom(evils, j + 1, neighbors, choose, step);
      var avail := Available(neighbors(evils[j]), evils[j..]);
      var candidates := avail + [evils[j]];
      var k := choose(step, j, candidates) % |candidates|;
      assert r == [candidates[k]] + rest;
      forall i | 0 <= i < |evils| - j ensures StayedOrStepped(evils, r, neighbors, j, i) {
        if i > 0 {
          assert StayedOrStepped(evils, rest, neighbors, j + 1, i - 1);
          assert r[i] == rest[i - 1];
          assert j + 1 + (i - 1) == j + i;
        } else if k < |avail| {
          assert candidates[k] == avail[k];
        }
      }
    }
  }

  /** `move_evils` keeps the number of evils, and each new position is the old one or a
      neighbour not held by this or a later evil. */
  lemma MoveEvilsStaysOrSteps<N>(evils: seq<N>, neighbors: N -> seq<N>, choose: Chooser<N>, step: nat)
    ensures var r := MoveEvils(evils, neighbors, choose, step);
      && |r| == |evils|
      && forall i :: 0 <= i < |evils| ==> r[i] == evils[i] || (r[i] in neighbors(evils[i]) && r[i] !in evils[i..])
  {
    MoveFromStaysOrSteps(evils, 0, neighbors, choose, step);
    var r := MoveEvils(evils, neighbors, choose, step);
    forall i | 0 <= i < |evils|
      ensures r[i] == evils[i] || (r[i] in neighbors(evils[i]) && r[i] !in evils[i..])
    {
      assert StayedOrStepped(evils, r, neighbors, 0, i);
    }
  }

  /** Where the evils stand when the walker reaches path index `k`. */
  function EvilsAt<N(==)>(evils: seq<N>, neighbors: N -> seq<N>, choose: Chooser<N>, k: nat): (r: seq<N>)
    ensures |r| == |evils|
  {
    if k == 0 then evils else MoveEvils(EvilsAt(evils, neighbors, choose, k - 1), neighbors, choose, k - 1)
  }

  /** Where the evils stand at each path index, as one value. */
  function Schedule<N(==)>(evils: seq<N>, neighbors: N -> seq<N>, choose: Chooser<N>): nat -> seq<N> {
    (k: nat) => EvilsAt(evils, neighbors, choose, k)
  }

  /** The walker meets an evil at path index `k`, the evils standing where `at` puts them. */
  predicate Meets<N(==)>(path: seq<N>, at: nat -> seq<N>, k: nat)
    requires k < |path|
  {
    path[k] in at(k)
  }

  /** The first path index from `k` on where the walker meets an evil. */
  function FirstMeetFrom<N(==)>(path: seq<N>, at: nat -> seq<N>, k: nat): (r: Option<nat>)
    requires k <= |path|
    decreases |path| - k
    ensures r.Some? ==> k <= r.value < |path|
  {
    if k == |path| then None
    else if Meets(path, at, k) then Some(k)
    else FirstMeetFrom(path, at, k + 1)
  }

  /** `FirstMeetFrom` finds a meeting, and no index between `k` and it meets; when it finds
      none, no index from `k` on meets. */
  lemma {:induction false} FirstMeetIsFirst<N>(path: seq<N>, at: nat -> seq<N>, k: nat)
    requires k <= |path|
    decreases |path| - k
    ensures var r := FirstMeetFrom(path, at, k);
      && (r.Some? ==> Meets(path, at, r.value))
      && (forall j :: k <= j < |path| && (r.None? || j < r.value) ==> !Meets(path, at, j))
  {
    if k < |path| && !Meets(path, at, k) {
      FirstMeetIsFirst(path, at, k + 1);
    }
  }

  /** One step of the search: a meeting at `k` is the first from `k` on; otherwise the search
      goes on from `k + 1`. */
  lemma FirstMeetStep<N>(path: seq<N>, at: nat -> seq<N>, k: nat)
    requires k < |path|
    ensures path[k] in at(k) ==> FirstMeetFrom(path, at, k) == Some(k)
    ensures path[k] !in at(k) ==> FirstMeetFrom(path, at, k) == FirstMeetFrom(path, at, k + 1)
  {
  }

  /** The schedule starts where the evils were placed and moves them once per path index. */
  lemma ScheduleStep<N>(evils: seq<N>, neighbors: N -> seq<N>, choose: Chooser<N>, k: nat)
    ensures Schedule(evils, neighbors, choose)(0) == evils
    ensures Schedule(evils, neighbors, choose)(k + 1) == MoveEvils(Schedule(evils, neighbors, choose)(k), neighbors, choose, k)
  {
  }

  /** A death at path index `k`: the key records the index and the death. */
  function Died(c: Console, k: nat): (r: Console)
    ensures r.walkKeys == c.walkKeys + [c.current.(pathIndex := k, death := true)]
    ensures !Complete(r.current)
    ensures Consistent(c) ==> Consistent(r)
  {
    WalkCollide(c.(current := c.current.(pathIndex := k)))
  }

  /** A walk that reached the end of a path of `n > 0` nodes: the key keeps the last index. */
  function Survived(c: Console, n: nat): (r: Console)
    requires n > 0
    ensures r.walkKeys == c.walkKeys + [c.current.(pathIndex := n - 1, success := true)]
    ensures !Complete(r.current)
    ensures Consistent(c) ==> Consistent(r)
  {
    WalkSuccess(c.(current := c.current.(pathIndex := n - 1)))
  }

  /** `perform_walk` once the evils are placed. An empty path makes Python raise on its start
      node, reported as `None`. Otherwise, at each path index the evils' moves are drawn, and
      the walk dies if an evil stood on the node before moving; if not, the evils take their
      new places. Exactly one outcome is counted: a death at the first meeting, or a success. */
  method PerformWalk<N(==)>(c: Console, path: seq<N>, evils: seq<N>, neighbors: N -> seq<N>, choose: Chooser<N>)
    returns (r: Option<Console>, ok: bool)
    requires !Complete(c.current)
    ensures r.None? <==> |path| == 0
    ensures r.None? ==> !ok
    ensures r.Some? ==> (ok <==> FirstMeetFrom(path, Schedule(evils, neighbors, choose), 0).None?)
    ensures r.Some? && !ok ==> r.value == Died(c, FirstMeetFrom(path, Schedule(evils, neighbors, choose), 0).value)
    ensures r.Some? && ok ==> r.value == Survived(c, |path|)
  {
    if |path| == 0 {
      return None, false;
    }
    var at := Schedule(evils, neighbors, choose);
    ScheduleStep(evils, neighbors, choose, 0);
    var cur := evils;
    var i := 0;
    while i < |path|
      invariant 0 <= i <= |path|
      invariant cur == at(i)
      invariant FirstMeetFrom(path, at, 0) == FirstMeetFrom(path, at, i)
    {
      FirstMeetStep(path, at, i);
      ScheduleStep(evils, neighbors, choose, i);
      if path[i] in cur {
        return Some(Died(c, i)), false;
      }
      cur := MoveEvils(cur, neighbors, choose, i);
      i := i + 1;
    }
    return Some(Survived(c, |path|)), true;
  }

  /** Evils placed away from the start node never kill the walker on its first step. */
  lemma NeverMeetsAtStart<N>(path: seq<N>, evils: seq<N>, neighbors: N -> seq<N>, choose: Chooser<N>)
    requires |path| > 0 && path[0] !in evils
    ensures !Meets(path, Schedule(evils, neighbors, choose), 0)
  {
  }
}
