/** Permutations of the first n indices. */
module Perms {
  /** `p` lists every index below n once. */
  ghost predicate Permutation(p: seq<nat>, n: nat)
  {
    && |p| == n
    && (forall i :: 0 <= i < n ==> p[i] < n)
    && (forall i, j :: 0 <= i < j < n ==> p[i] != p[j])
  }

  ghost function Below(n: nat): (s: set<nat>)
    ensures |s| == n && forall i: nat :: i in s <==> i < n
  {
    if n == 0 then {} else Below(n - 1) + {n - 1}
  }

  /** The elements of a prefix of distinct elements are as many as its length. */
  lemma {:induction false} PrefixSize(p: seq<nat>, k: nat)
    requires k <= |p| && forall i, j :: 0 <= i < j < |p| ==> p[i] != p[j]
    ensures |set i | 0 <= i < k :: p[i]| == k
  {
    if k > 0 {
      PrefixSize(p, k - 1);
      var s := set i | 0 <= i < k - 1 :: p[i];
      assert (set i | 0 <= i < k :: p[i]) == s + {p[k - 1]};
      assert p[k - 1] !in s;
    }
  }

  lemma SubsetFull<T>(a: set<T>, b: set<T>)
    requires a <= b && |a| == |b|
    ensures a == b
  {
    assert |b - a| == |b| - |a|;
  }

  /** A permutation hits every index. */
  lemma Onto(p: seq<nat>, n: nat, c: nat) returns (i: nat)
    requires Permutation(p, n) && c < n
    ensures i < n && p[i] == c
  {
    var s := set i | 0 <= i < n :: p[i];
    PrefixSize(p, n);
    SubsetFull(s, Below(n));
    assert c in s;
    i :| 0 <= i < n && p[i] == c;
  }

  /** The inverse of a permutation, filled in one entry at a time. */
  method Invert(p: seq<nat>, n: nat) returns (q: seq<nat>)
    requires Permutation(p, n)
    ensures |q| == n && forall i :: 0 <= i < n ==> q[i] < n && p[q[i]] == i && q[p[i]] == i
  {
    q := seq(n, _ => 0);
    for i := 0 to n
      invariant |q| == n && forall j :: 0 <= j < i ==> q[p[j]] == j
    {
      q := q[p[i] := i];
    }
    forall c | 0 <= c < n
      ensures q[c] < n && p[q[c]] == c
    {
      var i := Onto(p, n, c);
    }
  }
}
