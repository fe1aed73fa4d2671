/** The sizes shared by processes and files, and the pigeonhole argument behind them. */
module Limits {
  const PROCESS_LIMIT: nat := 8
  // A null pointer, where pointers into a table are indices.
  const NULL: int := -1

  /** Distinct values from a set are no more than the set has. */
  lemma {:induction false} DistinctBound<T>(s: seq<T>, t: set<T>)
    requires forall i, j :: 0 <= i < j < |s| ==> s[i] != s[j]
    requires forall i :: 0 <= i < |s| ==> s[i] in t
    ensures |s| <= |t|
    decreases |s|
  {
    if s != [] {
      var r := s[1..];
      assert forall i :: 0 <= i < |r| ==> r[i] == s[i + 1];
      DistinctBound(r, t - {s[0]});
    }
  }

  // The numbers below n.
  function Below(n: nat): (t: set<int>)
    ensures forall i :: i in t <==> 0 <= i < n
    ensures |t| == n
  {
    if n == 0 then {} else Below(n - 1) + {n - 1}
  }

  /** Distinct numbers below n that miss one of them are fewer than n. */
  lemma Pigeonhole(s: seq<int>, n: nat, x: int)
    requires 0 <= x < n && forall i, j :: 0 <= i < j < |s| ==> s[i] != s[j]
    requires forall i :: 0 <= i < |s| ==> 0 <= s[i] < n && s[i] != x
    ensures |s| < n
  {
    DistinctBound(s, Below(n) - {x});
  }
}
