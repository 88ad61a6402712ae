/** Runs of a step function, and two facts about all of them. */
module Runs {
  import opened Wrappers

  datatype Run<S, E> = Run(states: seq<S>, steps: seq<E>) {
    ghost predicate Follows(step: (S, E) -> Option<S>) {
      && |states| == |steps| + 1
      && forall n | 0 <= n < |steps| :: step(states[n], steps[n]) == Some(states[n + 1])
    }
  }

  /** The state after a list of steps, if each of them is possible. */
  function After<S, E>(step: (S, E) -> Option<S>, s: S, steps: seq<E>): Option<S>
    decreases |steps|
  {
    if steps == [] then Some(s)
    else
      match step(s, steps[0])
      case None => None
      case Some(t) => After(step, t, steps[1..])
  }

  lemma AfterOne<S, E>(step: (S, E) -> Option<S>, s: S, e: E)
    ensures After(step, s, [e]) == step(s, e)
  {
    assert [e][1..] == [];
  }

  lemma {:induction false} AfterConcat<S, E>(step: (S, E) -> Option<S>, s: S, a: seq<E>, b: seq<E>)
    requires After(step, s, a).Some?
    ensures After(step, s, a + b) == After(step, After(step, s, a).value, b)
    decreases |a|
  {
    if a == [] {
      assert a + b == b;
    } else {
      AfterConcat(step, step(s, a[0]).value, a[1..], b);
      assert (a + b)[1..] == a[1..] + b;
    }
  }

  lemma ExtendOne<S, E>(step: (S, E) -> Option<S>, run: Run<S, E>, e: E, t: S)
    requires run.Follows(step) && step(run.states[|run.steps|], e) == Some(t)
    ensures Run(run.states + [t], run.steps + [e]).Follows(step)
  {
    var next := Run(run.states + [t], run.steps + [e]);
    forall n | 0 <= n < |next.steps| ensures step(next.states[n], next.steps[n]) == Some(next.states[n + 1]) {
      assert n < |run.steps| ==> step(run.states[n], run.steps[n]) == Some(run.states[n + 1]);
    }
  }

  /** A list of steps that is possible in the last state extends the run. */
  lemma {:induction false} Extend<S, E>(step: (S, E) -> Option<S>, run: Run<S, E>, steps: seq<E>) returns (longer: Run<S, E>)
    requires run.Follows(step) && After(step, run.states[|run.steps|], steps).Some?
    ensures longer.Follows(step) && longer.steps == run.steps + steps && run.states <= longer.states
    ensures Some(longer.states[|longer.steps|]) == After(step, run.states[|run.steps|], steps)
    decreases |steps|
  {
    if steps == [] {
      longer := run;
    } else {
      var t := step(run.states[|run.steps|], steps[0]).value;
      ExtendOne(step, run, steps[0], t);
      longer := Extend(step, Run(run.states + [t], run.steps + [steps[0]]), steps[1..]);
      assert run.steps + [steps[0]] + steps[1..] == run.steps + steps;
    }
  }

  /** What holds now but did not at first was brought about at some point, and nothing since then
      has spoiled it. */
  lemma {:induction false} LastCause(n: nat, holds: nat -> bool, caused: nat -> bool, unspoiled: nat -> bool) returns (i: nat)
    requires !holds(0) && holds(n)
    requires forall k: nat | k < n && holds(k + 1) :: caused(k) || (holds(k) && unspoiled(k))
    ensures i < n && caused(i) && forall j: nat | i < j < n :: unspoiled(j)
  {
    if caused(n - 1) {
      i := n - 1;
    } else {
      i := LastCause(n - 1, holds, caused, unspoiled);
    }
  }
}
