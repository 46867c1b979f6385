/** Lists of subscriber IDs as Go keeps them: a slice is a backing array and a length, and the array's length is the
    slice's capacity. All slices here start at the beginning of their array. */
module Slices {

  import opened Wrappers

  datatype Slice = Slice(arr: array<string>, len: nat)

  predicate IsSlice(s: Slice) {
    s.len <= s.arr.Length
  }

  /** The visible elements. */
  function Contents(s: Slice): seq<string>
    requires IsSlice(s)
    reads s.arr
  {
    s.arr[..s.len]
  }

  predicate NoDuplicates(l: seq<string>) {
    forall i, j :: 0 <= i < j < |l| ==> l[i] != l[j]
  }

  /** `l` without the occurrences of `x`; the order of the others is kept. */
  function Without(l: seq<string>, x: string): seq<string> {
    if l == [] then [] else
      (if l[0] == x then [] else [l[0]]) + Without(l[1..], x)
  }

  lemma {:induction false} WithoutElements(l: seq<string>, x: string, y: string)
    ensures y in Without(l, x) <==> y in l && y != x
    decreases |l|
  {
    if l == [] {
    } else {
      WithoutElements(l[1..], x, y);
      assert y in l <==> y == l[0] || y in l[1..];
    }
  }

  lemma {:induction false} WithoutKeepsNoDuplicates(l: seq<string>, x: string)
    requires NoDuplicates(l)
    ensures NoDuplicates(Without(l, x))
    decreases |l|
  {
    if l == [] {
    } else {
      WithoutKeepsNoDuplicates(l[1..], x);
      WithoutElements(l[1..], x, l[0]);
    }
  }

  lemma WithoutAll(l: seq<string>, x: string)
    ensures forall y :: y in Without(l, x) <==> y in l && y != x
  {
    forall y {
      WithoutElements(l, x, y);
    }
  }

  lemma {:induction false} WithoutAbsent(l: seq<string>, x: string)
    requires x !in l
    ensures Without(l, x) == l
    decreases |l|
  {
    if l == [] {
    } else {
      WithoutAbsent(l[1..], x);
    }
  }

  /** Cutting out the only occurrence is removing all occurrences. */
  lemma {:induction false} WithoutIsCut(l: seq<string>, i: nat)
    requires i < |l| && NoDuplicates(l)
    ensures Without(l, l[i]) == l[..i] + l[i + 1..]
    decreases |l|
  {
    if i == 0 {
      assert l[i] !in l[1..];
      WithoutAbsent(l[1..], l[i]);
    } else {
      WithoutIsCut(l[1..], i - 1);
      assert l[1..][..i - 1] == l[1..i] && l[1..][i..] == l[i + 1..];
      assert [l[0]] + l[1..i] == l[..i];
    }
  }

  // ---------- Operations ----------

  method NewSlice() returns (s: Slice)
    ensures IsSlice(s) && fresh(s.arr) && Contents(s) == []
  {
    var arr := new string[0];
    s := Slice(arr, 0);
  }

  /** append(s, x): in place while there is capacity, into a new array of some capacity otherwise. */
  method Append(s: Slice, x: string) returns (r: Slice)
    requires IsSlice(s)
    modifies s.arr
    ensures IsSlice(r) && (r.arr == s.arr || fresh(r.arr))
    ensures Contents(r) == old(Contents(s)) + [x]
    ensures Contents(s) == old(Contents(s))
  {
    if s.len < s.arr.Length {
      s.arr[s.len] := x;
      r := Slice(s.arr, s.len + 1);
    } else {
      var capacity :| capacity > s.len;
      var arr := new string[capacity](_ => "");
      for i := 0 to s.len
        invariant arr[..i] == s.arr[..i]
        invariant s.arr[..] == old(s.arr[..])
      {
        arr[i] := s.arr[i];
      }
      arr[s.len] := x;
      r := Slice(arr, s.len + 1);
    }
  }

  /** The index of an ID, or -1. */
  method IndexOf(s: Slice, x: string) returns (index: int)
    requires IsSlice(s)
    ensures -1 <= index < s.len
    ensures index == -1 <==> x !in Contents(s)
    ensures index >= 0 ==> Contents(s)[index] == x && x !in Contents(s)[..index]
  {
    for i := 0 to s.len
      invariant x !in Contents(s)[..i]
    {
      if s.arr[i] == x {
        return i;
      }
    }
    return -1;
  }

  /** The cells after element `i` of the first `len` is cut out: the others move down, the last cell keeps its value. */
  function Cut(cells: seq<string>, len: nat, i: nat): (r: seq<string>)
    requires i < len <= |cells|
    ensures |r| == |cells|
  {
    cells[..i] + cells[i + 1..len] + cells[len - 1..]
  }

  /** In a list without duplicates, the cut leaves the list without that element. */
  lemma CutIsWithout(cells: seq<string>, len: nat, i: nat)
    requires i < len <= |cells| && NoDuplicates(cells[..len])
    ensures Cut(cells, len, i)[..len - 1] == Without(cells[..len], cells[i])
  {
    WithoutIsCut(cells[..len], i);
    assert Cut(cells, len, i)[..len - 1] == cells[..len][..i] + cells[..len][i + 1..];
  }

  /** append(s[:i], s[i+1:]...): shifts in place. */
  method RemoveAt(s: Slice, i: nat) returns (r: Slice)
    requires IsSlice(s) && i < s.len
    modifies s.arr
    ensures r == Slice(s.arr, s.len - 1)
    ensures s.arr[..] == Cut(old(s.arr[..]), s.len, i)
  {
    for j := i to s.len - 1
      invariant forall m :: 0 <= m < s.arr.Length ==>
                              s.arr[m] == if i <= m < j then old(s.arr[m + 1]) else old(s.arr[m])
    {
      s.arr[j] := s.arr[j + 1];
    }
    r := Slice(s.arr, s.len - 1);
  }

  // ---------- Removing while ranging ----------

  /** What ranging over the old list while cutting matches out of the shifting array leaves: the element behind a match
      moves into its place and is never looked at. */
  function Swept(l: seq<string>, x: string): seq<string>
    decreases |l|
  {
    if l == [] then []
    else if l[0] != x then [l[0]] + Swept(l[1..], x)
    else if |l| == 1 then []
    else [l[1]] + Swept(l[2..], x)
  }

  predicate TwoInARow(l: seq<string>, x: string) {
    exists i :: 0 <= i < |l| - 1 && l[i] == x && l[i + 1] == x
  }

  lemma {:induction false} WithoutConcat(a: seq<string>, b: seq<string>, x: string)
    ensures Without(a + b, x) == Without(a, x) + Without(b, x)
    decreases |a|
  {
    if a == [] {
      assert a + b == b;
    } else {
      assert (a + b)[1..] == a[1..] + b;
      WithoutConcat(a[1..], b, x);
    }
  }

  /** The sweep loses nothing but matches and keeps the order of everything else. */
  lemma {:induction false} SweptLosesOnlyMatches(l: seq<string>, x: string)
    ensures Without(Swept(l, x), x) == Without(l, x)
    decreases |l|
  {
    if l == [] || l == [x] {
    } else if l[0] != x {
      SweptLosesOnlyMatches(l[1..], x);
    } else {
      SweptLosesOnlyMatches(l[2..], x);
      WithoutConcat([l[1]], Swept(l[2..], x), x);
      assert l[1..] == [l[1]] + l[2..];
      WithoutConcat([l[1]], l[2..], x);
    }
  }

  /** A match survives the sweep iff two stand next to each other. */
  lemma {:induction false} SweptMisses(l: seq<string>, x: string)
    ensures x in Swept(l, x) <==> TwoInARow(l, x)
    decreases |l|
  {
    if |l| < 2 {
    } else if l[0] != x {
      SweptMisses(l[1..], x);
      assert TwoInARow(l[1..], x) ==> TwoInARow(l, x) by {
        assert forall i :: 0 <= i < |l| - 2 ==> l[1..][i] == l[i + 1];
      }
      assert forall i :: 1 <= i < |l| ==> l[i] == l[1..][i - 1];
    } else {
      SweptMisses(l[2..], x);
      assert forall i :: 2 <= i < |l| ==> l[i] == l[2..][i - 2];
      assert TwoInARow(l[2..], x) ==> TwoInARow(l, x) by {
        assert forall i :: 0 <= i < |l| - 2 ==> l[2..][i] == l[i + 2];
      }
    }
  }

  /** Exactly when the sweep does what its name says. */
  lemma SweptIsWithout(l: seq<string>, x: string)
    ensures Swept(l, x) == Without(l, x) <==> !TwoInARow(l, x)
    ensures NoDuplicates(l) ==> !TwoInARow(l, x) && !SweepPanics(l, x)
  {
    SweptMisses(l, x);
    SweptLosesOnlyMatches(l, x);
    WithoutElements(l, x, x);
    if x !in Swept(l, x) {
      WithoutAbsent(Swept(l, x), x);
    }
  }

  /** The loop slices out of range iff the last element matches and is not the only match. */
  predicate SweepPanics(l: seq<string>, x: string) {
    l != [] && l[|l| - 1] == x && x in l[..|l| - 1]
  }

  /** The loop, run from `i` on cells whose visible part has length `len`; `None` is the slice bounds panic. */
  function SweepFrom(cells: seq<string>, len: nat, n: nat, i: nat, x: string): Option<seq<string>>
    requires len <= n <= |cells| && i <= n
    decreases n - i
  {
    if i == n then Some(cells[..len])
    else if cells[i] != x then SweepFrom(cells, len, n, i + 1, x)
    else if i + 1 > len then None
    else SweepFrom(Cut(cells, len, i), len - 1, n, i + 1, x)
  }

  /** Behind the visible part only copies `z` of the last element are left to look at. */
  lemma {:induction false} SweepStale(cells: seq<string>, len: nat, n: nat, i: nat, x: string, z: string)
    requires len <= i <= n <= |cells| && forall j :: i <= j < n ==> cells[j] == z
    ensures SweepFrom(cells, len, n, i, x) == if i < n && z == x then None else Some(cells[..len])
    decreases n - i
  {
    if i < n && z != x {
      SweepStale(cells, len, n, i + 1, x, z);
    }
  }

  /** The loop, with `done` settled, `rest` before it and `k` cuts made. */
  function SweepOn(done: seq<string>, rest: seq<string>, tail: seq<string>, k: nat, x: string): Option<seq<string>>
    requires k <= |tail|
  {
    SweepFrom(done + rest + tail, |done| + |rest|, |done| + |rest| + k, |done|, x)
  }

  lemma SweepKeeps(done: seq<string>, rest: seq<string>, tail: seq<string>, k: nat, x: string)
    requires rest != [] && rest[0] != x && k <= |tail|
    ensures SweepOn(done, rest, tail, k, x) == SweepOn(done + [rest[0]], rest[1..], tail, k, x)
  {
    assert done + rest + tail == done + [rest[0]] + rest[1..] + tail;
  }

  lemma SweepCuts(done: seq<string>, rest: seq<string>, tail: seq<string>, k: nat, x: string)
    requires |rest| > 1 && rest[0] == x && k <= |tail|
    ensures SweepOn(done, rest, tail, k, x) ==
            SweepOn(done + [rest[1]], rest[2..], [rest[|rest| - 1]] + tail, k + 1, x)
  {
    assert Cut(done + rest + tail, |done| + |rest|, |done|) ==
           done + [rest[1]] + rest[2..] + ([rest[|rest| - 1]] + tail);
  }

  lemma SweepCutsLast(done: seq<string>, tail: seq<string>, k: nat, x: string)
    requires k <= |tail| && forall j :: 0 <= j < k ==> tail[j] == x
    ensures SweepOn(done, [x], tail, k, x) == if k > 0 then None else Some(done)
  {
    var cells := done + [x] + tail;
    assert Cut(cells, |done| + 1, |done|) == cells;
    SweepStale(cells, |done|, |done| + 1 + k, |done| + 1, x, x);
    assert cells[..|done|] == done;
  }

  lemma SweepEnds(done: seq<string>, tail: seq<string>, k: nat, x: string, z: string)
    requires k <= |tail| && forall j :: 0 <= j < k ==> tail[j] == z
    ensures SweepOn(done, [], tail, k, x) == if k > 0 && z == x then None else Some(done)
  {
    assert done + [] == done;
    SweepStale(done + tail, |done|, |done| + k, |done|, x, z);
    assert (done + tail)[..|done|] == done;
  }

  lemma {:induction false} SweepRest(
      done: seq<string>, rest: seq<string>, tail: seq<string>, k: nat, x: string, z: string)
    requires k <= |tail| && forall j :: 0 <= j < k ==> tail[j] == z
    requires rest != [] ==> z == rest[|rest| - 1]
    ensures SweepOn(done, rest, tail, k, x) ==
            if z == x && (k > 0 || (rest != [] && x in rest[..|rest| - 1])) then None
            else Some(done + Swept(rest, x))
    decreases |rest|
  {
    if rest == [] {
      SweepEnds(done, tail, k, x, z);
      assert done + [] == done;
    } else if rest[0] != x {
      SweepKeeps(done, rest, tail, k, x);
      SweepRest(done + [rest[0]], rest[1..], tail, k, x, z);
      var swept := Swept(rest[1..], x);
      assert done + [rest[0]] + swept == done + ([rest[0]] + swept);
      assert |rest| > 1 ==> rest[..|rest| - 1] == [rest[0]] + rest[1..][..|rest| - 2];
    } else if |rest| == 1 {
      assert rest == [x];
      SweepCutsLast(done, tail, k, x);
      assert done + [] == done;
    } else {
      SweepCuts(done, rest, tail, k, x);
      SweepRest(done + [rest[1]], rest[2..], [z] + tail, k + 1, x, z);
      var swept := Swept(rest[2..], x);
      assert done + [rest[1]] + swept == done + ([rest[1]] + swept);
      assert x == rest[..|rest| - 1][0];
    }
  }

  /** `SweepFrom`, not recursive itself: contracts name it so that the loop is unfolded only where a step lemma says. */
  function SweepRun(cells: seq<string>, len: nat, n: nat, i: nat, x: string): Option<seq<string>>
    requires len <= n <= |cells| && i <= n
  {
    SweepFrom(cells, len, n, i, x)
  }

  lemma SweepStep(cells: seq<string>, len: nat, n: nat, i: nat, x: string)
    requires len <= n <= |cells| && i < n
    ensures cells[i] != x ==> SweepRun(cells, len, n, i, x) == SweepRun(cells, len, n, i + 1, x)
    ensures cells[i] == x && i < len ==>
              SweepRun(cells, len, n, i, x) == SweepRun(Cut(cells, len, i), len - 1, n, i + 1, x)
    ensures cells[i] == x && i >= len ==> SweepRun(cells, len, n, i, x) == None
  {
  }

  /** The loop leaves the swept list, or panics. */
  lemma SweepWhole(cells: seq<string>, n: nat, x: string)
    requires n <= |cells|
    ensures SweepRun(cells, n, n, 0, x) ==
            if SweepPanics(cells[..n], x) then None else Some(Swept(cells[..n], x))
  {
    var l := cells[..n];
    assert SweepRun(cells, n, n, 0, x) == SweepOn([], l, cells[n..], 0, x) by {
      assert cells == [] + l + cells[n..];
    }
    SweepRest([], l, cells[n..], 0, x, if n == 0 then x else l[n - 1]);
    assert [] + Swept(l, x) == Swept(l, x);
  }

  /** The loop body, for index `i` of the old header `s` and the current list `r`. */
  method SweepAt(s: Slice, r: Slice, i: nat, x: string) returns (q: Slice, panicked: bool)
    requires IsSlice(s) && r.arr == s.arr && r.len <= s.len && i < s.len
    modifies s.arr
    ensures q.arr == s.arr && q.len <= s.len
    ensures panicked ==> old(s.arr[i]) == x && SweepRun(old(s.arr[..]), r.len, s.len, i, x) == None
    ensures !panicked ==> SweepRun(s.arr[..], q.len, s.len, i + 1, x) == SweepRun(old(s.arr[..]), r.len, s.len, i, x)
    ensures old(s.arr[i]) != x ==> q == r && s.arr[..] == old(s.arr[..])
  {
    SweepStep(s.arr[..], r.len, s.len, i, x);
    q, panicked := r, false;
    if s.arr[i] == x {
      if i + 1 > r.len {
        panicked := true;
      } else {
        q := RemoveAt(r, i);
      }
    }
  }

  /** The loop ranges over the header it started with -- old length, same array -- while the list shrinks under it. */
  method RemoveSubscriber(s: Slice, x: string) returns (r: Slice, changed: bool, panicked: bool)
    requires IsSlice(s)
    modifies s.arr
    ensures IsSlice(r) && r.arr == s.arr
    ensures panicked <==> SweepPanics(old(Contents(s)), x)
    ensures !panicked ==> Contents(r) == Swept(old(Contents(s)), x)
    ensures changed <==> x in old(Contents(s))
  {
    r, changed, panicked := s, false, false;
    ghost var l, outcome := Contents(s), SweepRun(s.arr[..], s.len, s.len, 0, x);
    SweepWhole(s.arr[..], s.len, x);
    for i := 0 to s.len
      invariant r.arr == s.arr && r.len <= s.len
      invariant SweepRun(s.arr[..], r.len, s.len, i, x) == outcome
      invariant if changed then x in l else r == s && Contents(s) == l && x !in l[..i]
    {
      changed := changed || s.arr[i] == x;
      r, panicked := SweepAt(s, r, i, x);
      if panicked {
        return;
      }
    }
  }

  // ---------- Merging two lists ----------

  /** The elements of `b` that are not in `a`, in order. */
  function Others(a: seq<string>, b: seq<string>): seq<string> {
    if b == [] then [] else
      Others(a, b[..|b| - 1]) + (if b[|b| - 1] in a then [] else [b[|b| - 1]])
  }

  lemma {:induction false} OthersElements(a: seq<string>, b: seq<string>)
    ensures forall y :: y in Others(a, b) <==> y in b && y !in a
  {
    if b == [] {
    } else {
      OthersElements(a, b[..|b| - 1]);
      assert b == b[..|b| - 1] + [b[|b| - 1]];
    }
  }

  lemma {:induction false} OthersKeepNoDuplicates(a: seq<string>, b: seq<string>)
    requires NoDuplicates(a) && NoDuplicates(b)
    ensures NoDuplicates(a + Others(a, b))
  {
    if b == [] {
      assert a + [] == a;
    } else {
      var front, y := b[..|b| - 1], b[|b| - 1];
      OthersKeepNoDuplicates(a, front);
      OthersElements(a, front);
      var merged := a + Others(a, front);
      assert y !in front;
      if y in a {
        assert a + Others(a, b) == merged;
      } else {
        assert a + Others(a, b) == merged + [y];
        assert y !in merged;
      }
    }
  }

  lemma OthersStep(a: seq<string>, b: seq<string>, j: nat)
    requires j < |b|
    ensures Others(a, b[..j + 1]) == Others(a, b[..j]) + (if b[j] in a then [] else [b[j]])
  {
    assert b[..j + 1][..j] == b[..j];
  }

  /** Starts from `ns` itself, so appending may write behind its end in the array it shares; neither list changes. */
  method UniqueSubs(ns: Slice, sv: Slice) returns (full: Slice)
    requires IsSlice(ns) && IsSlice(sv) && ns.arr != sv.arr
    modifies ns.arr
    ensures IsSlice(full) && Contents(full) == old(Contents(ns)) + Others(old(Contents(ns)), Contents(sv))
    ensures Contents(ns) == old(Contents(ns))
  {
    full := ns;
    ghost var a, b := Contents(ns), Contents(sv);
    for j := 0 to sv.len
      invariant IsSlice(full) && full.len >= ns.len && (full.arr == ns.arr || fresh(full.arr))
      invariant Contents(ns) == a && Contents(sv) == b
      invariant Contents(full) == a + Others(a, b[..j])
    {
      var index := IndexOf(ns, sv.arr[j]);
      OthersStep(a, b, j);
      if index == -1 {
        full := Append(full, sv.arr[j]);
      }
    }
    assert b[..sv.len] == b;
  }
}
