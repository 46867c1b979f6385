/** Runs of step systems. */
module Runs {

  /** The state after some steps, made one after the other. */
  function Fold<S, T>(next: (S, T) -> S, s: S, steps: seq<T>): S
    decreases |steps|
  {
    if steps == [] then s else next(Fold(next, s, steps[..|steps| - 1]), steps[|steps| - 1])
  }

  lemma {:induction false} FoldConcat<S, T>(next: (S, T) -> S, s: S, a: seq<T>, b: seq<T>)
    ensures Fold(next, s, a + b) == Fold(next, Fold(next, s, a), b)
    decreases |b|
  {
    if b == [] {
      assert a + b == a;
    } else {
      FoldConcat(next, s, a, b[..|b| - 1]);
      assert (a + b)[..|a + b| - 1] == a + b[..|b| - 1];
    }
  }

  lemma FoldOne<S, T>(next: (S, T) -> S, s: S, a: T)
    ensures Fold(next, s, [a]) == next(s, a)
  {
    assert [a][..0] == [];
  }

  lemma FoldTwo<S, T>(next: (S, T) -> S, s: S, a: T, b: T)
    ensures Fold(next, s, [a, b]) == next(next(s, a), b)
  {
    FoldOne(next, s, a);
    assert [a, b][..1] == [a];
  }

  /** Step `i` of a run is one that `event` is about. */
  predicate Occurs<S, T>(next: (S, T) -> S, s: S, steps: seq<T>, i: nat, event: (S, T) -> bool) {
    i < |steps| && event(Fold(next, s, steps[..i]), steps[i])
  }

  /** A fact that only an event brings about and that nothing undoes holds after a run iff the event occurred in it. */
  lemma {:induction false} HoldsIffOccurred<S(!new), T(!new)>(
      next: (S, T) -> S, s: S, steps: seq<T>, fact: S -> bool, event: (S, T) -> bool)
    requires !fact(s)
    requires forall x, step :: fact(next(x, step)) <==> fact(x) || event(x, step)
    ensures fact(Fold(next, s, steps)) <==> exists i: nat :: Occurs(next, s, steps, i, event)
    decreases |steps|
  {
    if steps == [] {
    } else {
      var n := |steps| - 1;
      var front := steps[..n];
      HoldsIffOccurred(next, s, front, fact, event);
      forall i: nat | i < n
        ensures Occurs(next, s, front, i, event) <==> Occurs(next, s, steps, i, event)
      {
        assert front[..i] == steps[..i];
      }
      assert Occurs(next, s, steps, n, event) <==> event(Fold(next, s, front), steps[n]);
    }
  }
}
