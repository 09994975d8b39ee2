/** Finite sets: sizes and the pigeonhole principle. */
module Counting {

  function UpTo(n: nat): (r: set<nat>)
    ensures |r| == n
    ensures forall i: nat :: i in r <==> i < n
  {
    if n == 0 then {} else UpTo(n - 1) + {n - 1}
  }

  lemma {:induction false} SubsetSize<T>(a: set<T>, b: set<T>)
    requires a <= b
    ensures |a| <= |b|
    ensures |a| == |b| ==> a == b
  {
    if a != {} {
      var x :| x in a;
      SubsetSize(a - {x}, b - {x});
    }
  }

  ghost predicate Distinct<T>(s: seq<T>) {
    forall i, j :: 0 <= i < j < |s| ==> s[i] != s[j]
  }

  /** A sequence of different members of a set is no longer than the set is large. */
  lemma {:induction false} DistinctFits<T>(s: seq<T>, members: set<T>)
    requires Distinct(s) && forall i :: 0 <= i < |s| ==> s[i] in members
    ensures |s| <= |members|
  {
    if s != [] {
      var m := |s| - 1;
      DistinctFits(s[..m], members - {s[m]});
    }
  }
}
