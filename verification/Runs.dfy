/** Runs of a state machine: what every step keeps, every run keeps. */
module Runs {

  function Run<S, A>(step: (S, A) -> S, s: S, actions: seq<A>): S
    decreases |actions|
  {
    if actions == [] then s else Run(step, step(s, actions[0]), actions[1..])
  }

  ghost predicate Keeps<S(!new), A(!new)>(step: (S, A) -> S, inv: S -> bool) {
    forall s, a :: inv(s) ==> inv(step(s, a))
  }

  lemma {:induction false} RunKeeps<S(!new), A(!new)>(step: (S, A) -> S, inv: S -> bool, s: S, actions: seq<A>)
    requires Keeps(step, inv) && inv(s)
    ensures inv(Run(step, s, actions))
    decreases |actions|
  {
    if actions != [] {
      RunKeeps(step, inv, step(s, actions[0]), actions[1..]);
    }
  }

  /** A relation between the start and the current state that each step extends holds at the end of every run. */
  lemma {:induction false} RunRelates<S(!new), A(!new)>(
      step: (S, A) -> S, inv: S -> bool, rel: (S, S) -> bool, s: S, t: S, actions: seq<A>)
    requires Keeps(step, inv)
    requires forall x, y, a :: inv(y) && rel(x, y) ==> rel(x, step(y, a))
    requires inv(t) && rel(s, t)
    ensures inv(Run(step, t, actions)) && rel(s, Run(step, t, actions))
    decreases |actions|
  {
    if actions != [] {
      RunRelates(step, inv, rel, s, step(t, actions[0]), actions[1..]);
    }
  }

  lemma {:induction false} RunAppend<S, A>(step: (S, A) -> S, s: S, first: seq<A>, second: seq<A>)
    ensures Run(step, s, first + second) == Run(step, Run(step, s, first), second)
    decreases |first|
  {
    if first == [] {
      assert first + second == second;
    } else {
      assert (first + second)[1..] == first[1..] + second;
      RunAppend(step, step(s, first[0]), first[1..], second);
    }
  }
}
