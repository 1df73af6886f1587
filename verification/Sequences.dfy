// Facts about sequences that several components lean on: distinctness and the
// pigeonhole bound.
module Sequences {

  ghost predicate Distinct<T>(s: seq<T>) {
    forall i, j :: 0 <= i < j < |s| ==> s[i] != s[j]
  }

  function ToSet<T>(s: seq<T>): set<T> {
    set x | x in s
  }

  // What vector::erase leaves.
  function Without<T>(s: seq<T>, i: nat): seq<T>
    requires i < |s|
  {
    s[..i] + s[i + 1..]
  }

  // Pigeonhole: a repetition-free sequence over a finite set is no longer than the set.
  lemma {:induction false} DistinctBound<T>(s: seq<T>, u: set<T>)
    requires Distinct(s)
    requires forall x :: x in s ==> x in u
    ensures |s| <= |u|
  {
    if s != [] {
      var last := s[|s| - 1];
      DistinctBound(s[..|s| - 1], u - {last});
    }
  }

  // A sequence that repeats has a shortest repeating prefix.
  lemma {:induction false} FirstRepeat<T>(s: seq<T>) returns (i: nat, j: nat)
    requires !Distinct(s)
    ensures i < j < |s| && s[i] == s[j] && Distinct(s[..j])
  {
    var n := |s| - 1;
    if Distinct(s[..n]) {
      forall a, b | 0 <= a < b < n ensures s[a] != s[b] {
        assert s[..n][a] != s[..n][b];
      }
      i, j :| 0 <= i < j < |s| && s[i] == s[j];
    } else {
      i, j := FirstRepeat(s[..n]);
      assert s[..n][..j] == s[..j];
    }
  }

  lemma DistinctAppend<T>(s: seq<T>, x: T)
    requires Distinct(s) && x !in s
    ensures Distinct(s + [x])
  {
  }

  function Sum<T>(xs: seq<T>, f: T -> nat): nat {
    if xs == [] then 0 else Sum(xs[..|xs| - 1], f) + f(xs[|xs| - 1])
  }

  lemma {:induction false} SumUpdate<T>(xs: seq<T>, f: T -> nat, i: nat, x: T)
    requires i < |xs|
    ensures Sum(xs[i := x], f) == Sum(xs, f) - f(xs[i]) + f(x)
  {
    var n := |xs| - 1;
    if i < n {
      SumUpdate(xs[..n], f, i, x);
      assert xs[i := x][..n] == xs[..n][i := x];
    } else {
      assert xs[i := x][..n] == xs[..n];
    }
  }

  lemma {:induction false} SumZero<T>(xs: seq<T>, f: T -> nat)
    requires forall i :: 0 <= i < |xs| ==> f(xs[i]) == 0
    ensures Sum(xs, f) == 0
  {
    if xs != [] {
      SumZero(xs[..|xs| - 1], f);
    }
  }
}
