/** The randomisation of DNS answers: a Fisher-Yates shuffle in place. The random indices are a parameter. */
module Shuffle {

  /** `choices[n - 1]` is the index drawn when `n` elements are left; it is below `n`. */
  predicate InRange(choices: seq<nat>) {
    forall k :: 0 <= k < |choices| ==> choices[k] <= k
  }

  /** What remains in front when element `i` and the last element change places. */
  function Rest<T>(s: seq<T>, i: nat): (r: seq<T>)
    requires i < |s|
    ensures |r| == |s| - 1
  {
    s[i := s[|s| - 1]][..|s| - 1]
  }

  /** The result of the loop: the element drawn goes last and the others are shuffled on. */
  function Shuffled<T>(s: seq<T>, choices: seq<nat>): (r: seq<T>)
    requires |choices| == |s| && InRange(choices)
    ensures |r| == |s|
    decreases |s|
  {
    if |s| <= 1 then s else
      var n := |s| - 1;
      Shuffled(Rest(s, choices[n]), choices[..n]) + [s[choices[n]]]
  }

  lemma RestIsRest<T>(s: seq<T>, i: nat)
    requires i < |s|
    ensures multiset(Rest(s, i)) == multiset(s) - multiset{s[i]}
  {
    var n := |s| - 1;
    assert s == s[..n] + [s[n]];
    if i == n {
      assert Rest(s, i) == s[..n];
    } else {
      assert Rest(s, i) == s[..n][i := s[n]];
    }
  }

  method ShuffleInPlace<T>(rrs: array<T>, choices: seq<nat>)
    requires |choices| == rrs.Length && InRange(choices)
    modifies rrs
    ensures rrs[..] == Shuffled(old(rrs[..]), choices)
  {
    var n := rrs.Length;
    assert rrs[..n] == rrs[..] && choices[..n] == choices;
    while n > 1
      invariant n <= rrs.Length && (rrs.Length > 0 ==> n > 0)
      invariant Finish(rrs[..], choices, n) == Shuffled(old(rrs[..]), choices)
    {
      FinishStep(rrs[..], choices, n);
      var randIndex := choices[n - 1];
      rrs[n - 1], rrs[randIndex] := rrs[randIndex], rrs[n - 1];
      n := n - 1;
    }
  }

  /** The first `n` elements are still to be shuffled. */
  ghost function Finish<T>(s: seq<T>, choices: seq<nat>, n: nat): seq<T>
    requires n <= |s| == |choices| && InRange(choices)
  {
    Shuffled(s[..n], choices[..n]) + s[n..]
  }

  lemma FinishStep<T>(s: seq<T>, choices: seq<nat>, n: nat)
    requires 1 < n <= |s| == |choices| && InRange(choices)
    ensures var i := choices[n - 1];
      Finish(s, choices, n) == Finish(s[n - 1 := s[i]][i := s[n - 1]], choices, n - 1)
  {
    var i := choices[n - 1];
    var swapped := s[n - 1 := s[i]][i := s[n - 1]];
    assert swapped[..n - 1] == Rest(s[..n], i);
    assert choices[..n][..n - 1] == choices[..n - 1];
    assert swapped[n - 1..] == [s[i]] + s[n..];
  }

  /** Whatever is drawn, the answer is a permutation of the records. */
  lemma {:induction false} ShuffleIsPermutation<T>(s: seq<T>, choices: seq<nat>)
    requires |choices| == |s| && InRange(choices)
    ensures multiset(Shuffled(s, choices)) == multiset(s)
    decreases |s|
  {
    if |s| > 1 {
      var n := |s| - 1;
      ShuffleIsPermutation(Rest(s, choices[n]), choices[..n]);
      RestIsRest(s, choices[n]);
      assert s[choices[n]] in s;
    }
  }

  lemma SplitLast<T>(t: seq<T>)
    requires t != []
    ensures multiset(t[..|t| - 1]) == multiset(t) - multiset{t[|t| - 1]}
    ensures t[|t| - 1] in multiset(t)
  {
    assert t == t[..|t| - 1] + [t[|t| - 1]];
  }

  lemma SameLength<T>(s: seq<T>, t: seq<T>)
    requires multiset(s) == multiset(t)
    ensures |s| == |t|
    ensures |s| == 1 ==> s == t
  {
    assert |multiset(s)| == |s| && |multiset(t)| == |t|;
    if |s| == 1 {
      assert t[0] in multiset(t);
      assert t[0] in s;
    }
  }

  /** Every permutation of the records is the result of some draw. */
  lemma {:induction false} EveryPermutationArises<T>(s: seq<T>, t: seq<T>) returns (choices: seq<nat>)
    requires multiset(s) == multiset(t)
    ensures |choices| == |s| && InRange(choices) && Shuffled(s, choices) == t
    decreases |s|
  {
    SameLength(s, t);
    if |s| <= 1 {
      choices := seq(|s|, _ => 0);
    } else {
      var n := |s| - 1;
      SplitLast(t);
      var i := Locate(s, t[n]);
      RestIsRest(s, i);
      var rest := EveryPermutationArises(Rest(s, i), t[..n]);
      choices := rest + [i];
      DrawLast(s, t, rest, i);
    }
  }

  lemma Locate<T>(s: seq<T>, x: T) returns (i: nat)
    requires x in multiset(s)
    ensures i < |s| && s[i] == x
  {
    assert x in s;
    i :| 0 <= i < |s| && s[i] == x;
  }

  lemma DrawLast<T>(s: seq<T>, t: seq<T>, rest: seq<nat>, i: nat)
    requires 1 < |s| == |t| && |rest| == |s| - 1 && i < |s| && s[i] == t[|s| - 1] && InRange(rest)
    requires Shuffled(Rest(s, i), rest) == t[..|s| - 1]
    ensures InRange(rest + [i]) && Shuffled(s, rest + [i]) == t
  {
    assert (rest + [i])[..|s| - 1] == rest;
    assert t == t[..|s| - 1] + [t[|s| - 1]];
  }

  predicate Distinct<T(==)>(s: seq<T>) {
    forall i, j :: 0 <= i < j < |s| ==> s[i] != s[j]
  }

  /** Pairwise distinct records: different draws give different answers. */
  lemma {:induction false} DrawsAreDistinguishable<T>(s: seq<T>, a: seq<nat>, b: seq<nat>)
    requires Distinct(s)
    requires |a| == |b| == |s| && InRange(a) && InRange(b)
    requires Shuffled(s, a) == Shuffled(s, b)
    ensures a == b
    decreases |s|
  {
    if |s| > 1 {
      var n := |s| - 1;
      var i := a[n];
      assert Shuffled(s, a)[n] == s[i] && Shuffled(s, b)[n] == s[b[n]];
      assert b[n] == i;
      assert Shuffled(s, a)[..n] == Shuffled(Rest(s, i), a[..n]);
      assert Shuffled(s, b)[..n] == Shuffled(Rest(s, i), b[..n]);
      DrawsAreDistinguishable(Rest(s, i), a[..n], b[..n]);
      assert a == a[..n] + [i] && b == b[..n] + [i];
    }
  }

  /** The shuffle of pairwise distinct records is a bijection between draws and permutations. */
  lemma ShuffleIsBijection<T>(s: seq<T>, t: seq<T>)
    requires Distinct(s)
    ensures multiset(s) == multiset(t) <==>
      exists choices :: |choices| == |s| && InRange(choices) && Shuffled(s, choices) == t
    ensures forall a, b ::
      |a| == |b| == |s| && InRange(a) && InRange(b) && Shuffled(s, a) == t && Shuffled(s, b) == t ==> a == b
  {
    if multiset(s) == multiset(t) {
      var choices := EveryPermutationArises(s, t);
    }
    forall a | |a| == |s| && InRange(a) && Shuffled(s, a) == t ensures multiset(s) == multiset(t) {
      ShuffleIsPermutation(s, a);
    }
    forall a, b |
      |a| == |b| == |s| && InRange(a) && InRange(b) && Shuffled(s, a) == t && Shuffled(s, b) == t ensures a == b {
      DrawsAreDistinguishable(s, a, b);
    }
  }
}
