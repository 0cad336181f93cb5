/** Runs of a step system: `next` says where a step leads, if it is possible at all. */
module Runs {
  import opened Wrappers

  /** The steps lead from s to end, each of them possible where it is taken. */
  ghost predicate Run<S, T>(next: (S, T) -> Option<S>, s: S, steps: seq<T>, end: S)
    decreases |steps|
  {
    if steps == [] then s == end
    else
      var mid := next(s, steps[0]);
      mid.Some? && Run(next, mid.value, steps[1..], end)
  }

  /** Some run leads from the initial state to s. */
  ghost predicate Reachable<S, T(!new)>(next: (S, T) -> Option<S>, initial: S, s: S) {
    exists steps: seq<T> :: Run(next, initial, steps, s)
  }

  /** Every step keeps inv. */
  ghost predicate Inductive<S(!new), T(!new)>(next: (S, T) -> Option<S>, inv: S -> bool) {
    forall s: S, step: T :: inv(s) && next(s, step).Some? ==> inv(next(s, step).value)
  }

  lemma {:induction false} RunKeeps<S(!new), T(!new)>(next: (S, T) -> Option<S>, inv: S -> bool, s: S, steps: seq<T>, end: S)
    requires Inductive(next, inv) && inv(s) && Run(next, s, steps, end)
    ensures inv(end)
    decreases |steps|
  {
    if steps != [] {
      RunKeeps(next, inv, next(s, steps[0]).value, steps[1..], end);
    }
  }

  /** What holds at the start and is kept by every step holds in every reachable state. */
  lemma ReachableKeeps<S(!new), T(!new)>(next: (S, T) -> Option<S>, inv: S -> bool, initial: S, s: S)
    requires Inductive(next, inv) && inv(initial) && Reachable(next, initial, s)
    ensures inv(s)
  {
    var steps: seq<T> :| Run(next, initial, steps, s);
    RunKeeps(next, inv, initial, steps, s);
  }

  lemma {:induction false} RunThen<S, T>(next: (S, T) -> Option<S>, s: S, steps: seq<T>, mid: S, step: T, end: S)
    requires Run(next, s, steps, mid) && next(mid, step) == Some(end)
    ensures Run(next, s, steps + [step], end)
    decreases |steps|
  {
    if steps == [] {
      assert Run(next, end, [], end);
      assert [step][1..] == [];
    } else {
      RunThen(next, next(s, steps[0]).value, steps[1..], mid, step, end);
      assert (steps + [step])[1..] == steps[1..] + [step];
    }
  }

  lemma RunOfTwo<S, T>(next: (S, T) -> Option<S>, s: S, first: T, mid: S, second: T, end: S)
    requires next(s, first) == Some(mid) && next(mid, second) == Some(end)
    ensures Run(next, s, [first, second], end)
  {
    assert Run(next, s, [], s);
    RunThen(next, s, [], s, first, mid);
    assert [] + [first] == [first];
    RunThen(next, s, [first], mid, second, end);
    assert [first] + [second] == [first, second];
  }

  lemma RunAround<S, T>(next: (S, T) -> Option<S>, s: S, first: T, s1: S, steps: seq<T>, s2: S, last: T, end: S)
    requires next(s, first) == Some(s1) && Run(next, s1, steps, s2) && next(s2, last) == Some(end)
    ensures Run(next, s, [first] + steps + [last], end)
  {
    assert ([first] + steps)[1..] == steps;
    RunThen(next, s, [first] + steps, s2, last, end);
  }
}
