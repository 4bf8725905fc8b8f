/** The state stack of app/classes/state_machine.py. The pop event the machine dispatches is
    returned as the popped value. */
module StateMachines {
  import opened Optional

  datatype StateMachine<S> = StateMachine(stack: seq<S>)

  /** A new machine has an empty stack. */
  function NewStateMachine<S>(): (m: StateMachine<S>)
    ensures |m.stack| == 0 && Current(m).None?
  {
    StateMachine([])
  }

  /** `get_current_state`: the top of the stack, `None` when it is empty. */
  function Current<S>(m: StateMachine<S>): (r: Option<S>)
    ensures r.None? <==> |m.stack| == 0
    ensures r.Some? ==> r.value == m.stack[|m.stack| - 1]
  {
    if |m.stack| < 1 then None else Some(m.stack[|m.stack| - 1])
  }

  /** `push_state`: `None` is refused; any other state goes on top. */
  function Push<S>(m: StateMachine<S>, s: Option<S>): (r: (StateMachine<S>, bool))
    ensures r.1 <==> s.Some?
    ensures !r.1 ==> r.0 == m
    ensures r.1 ==> |r.0.stack| == |m.stack| + 1 && Current(r.0) == s
    ensures r.1 ==> r.0.stack[..|m.stack|] == m.stack
  {
    if s.None? then (m, false) else (StateMachine(m.stack + [s.value]), true)
  }

  /** `pop_state`: the top state is removed and returned (and dispatched); an empty stack
      gives `None` and stays empty. */
  function Pop<S>(m: StateMachine<S>): (r: (StateMachine<S>, Option<S>))
    ensures r.1 == Current(m)
    ensures |m.stack| == 0 ==> r.0 == m
    ensures |m.stack| > 0 ==> r.0.stack == m.stack[..|m.stack| - 1]
  {
    if |m.stack| > 0 then (StateMachine(m.stack[..|m.stack| - 1]), Some(m.stack[|m.stack| - 1]))
    else (m, None)
  }

  /** Pushing a state and popping returns that state and restores the stack. */
  lemma PushThenPop<S>(m: StateMachine<S>, s: S)
    ensures Pop(Push(m, Some(s)).0) == (m, Some(s))
  {
    assert (m.stack + [s])[..|m.stack|] == m.stack;
  }

  /** Pushing a sequence of states and popping as many returns them in reverse order and
      restores the stack. */
  lemma {:induction false} PushAllThenPopAll<S>(m: StateMachine<S>, ss: seq<S>)
    ensures PopN(PushAll(m, ss), |ss|) == (m, Reverse(ss))
  {
    if |ss| > 0 {
      var last := ss[|ss| - 1];
      var init := ss[..|ss| - 1];
      assert PushAll(m, ss) == Push(PushAll(m, init), Some(last)).0;
      PushThenPop(PushAll(m, init), last);
      PushAllThenPopAll(m, init);
      assert Reverse(ss) == [last] + Reverse(init);
    }
  }

  /** Push each state of `ss` in order. */
  function PushAll<S>(m: StateMachine<S>, ss: seq<S>): (r: StateMachine<S>)
    ensures r.stack == m.stack + ss
  {
    if |ss| == 0 then m
    else
      var r := Push(PushAll(m, ss[..|ss| - 1]), Some(ss[|ss| - 1])).0;
      assert m.stack + ss == (m.stack + ss[..|ss| - 1]) + [ss[|ss| - 1]];
      r
  }

  /** Pop `n` times, collecting what comes off in order. */
  function PopN<S>(m: StateMachine<S>, n: nat): (r: (StateMachine<S>, seq<S>))
    ensures n <= |m.stack| ==> |r.1| == n && r.0.stack == m.stack[..|m.stack| - n]
    decreases n
  {
    if n == 0 then (m, [])
    else
      var (m1, top) := Pop(m);
      var (m2, rest) := PopN(m1, n - 1);
      (m2, (if top.Some? then [top.value] else []) + rest)
  }

  function Reverse<S>(ss: seq<S>): (r: seq<S>)
    ensures |r| == |ss|
    ensures forall i :: 0 <= i < |ss| ==> r[i] == ss[|ss| - 1 - i]
  {
    if |ss| == 0 then [] else [ss[|ss| - 1]] + Reverse(ss[..|ss| - 1])
  }
}
