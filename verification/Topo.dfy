/** Kahn's algorithm with a sorted frontier over nodes 0 .. n-1. */
module Topo {
  import opened Graphs
  import opened Options
  import opened Perms

  type Edges = set<(nat, nat)>

  /** The edges into `v`. */
  ghost function In(es: Edges, v: nat): Edges
  {
    set e | e in es && e.1 == v
  }

  /** The edges whose source has not been placed. */
  ghost function Open(es: Edges, placed: seq<nat>): Edges
  {
    set e | e in es && e.0 !in placed
  }

  /** `v` may come next: not placed, and everything before it is. */
  ghost predicate Available(es: Edges, n: nat, placed: seq<nat>, v: nat)
  {
    v < n && v !in placed && forall e :: e in es && e.1 == v ==> e.0 in placed
  }

  /** Each node was available when it was placed. */
  ghost predicate Placed(es: Edges, n: nat, order: seq<nat>)
  {
    forall k {:trigger order[k]} :: 0 <= k < |order| ==> Available(es, n, order[..k], order[k])
  }

  /** Each node was the least available one. */
  ghost predicate Least(es: Edges, n: nat, order: seq<nat>)
  {
    forall k, v: nat {:trigger Available(es, n, order[..k], v)} ::
      0 <= k < |order| && Available(es, n, order[..k], v) ==> order[k] <= v
  }

  /** A complete order in which every edge goes forward. */
  ghost predicate Topological(es: Edges, n: nat, t: seq<nat>)
  {
    Permutation(t, n) && forall i, j :: 0 <= i < n && 0 <= j < n && (t[i], t[j]) in es ==> i < j
  }

  ghost predicate Within(es: Edges, n: nat)
  {
    forall e :: e in es ==> e.0 < n && e.1 < n
  }

  ghost predicate SortedStrictly(s: seq<nat>)
  {
    forall i, j :: 0 <= i < j < |s| ==> s[i] < s[j]
  }

  /** `adj` lists the edges, each once. */
  ghost predicate Lists(adj: seq<seq<nat>>, es: Edges, n: nat)
  {
    && |adj| == n
    && (forall i, v: nat :: 0 <= i < n ==> (v in adj[i] <==> (i, v) in es))
    && (forall i :: 0 <= i < n ==> SortedStrictly(adj[i]))
  }

  /** The position at which x belongs in a sorted sequence. */
  method SearchPosition(s: seq<nat>, x: nat) returns (pos: nat)
    requires SortedStrictly(s)
    ensures pos <= |s|
    ensures forall i :: 0 <= i < pos ==> s[i] < x
    ensures forall i :: pos <= i < |s| ==> s[i] >= x
  {
    var lo, hi := 0, |s|;
    while lo < hi
      invariant 0 <= lo <= hi <= |s|
      invariant forall i :: 0 <= i < lo ==> s[i] < x
      invariant forall i :: hi <= i < |s| ==> s[i] >= x
    {
      var mid := (lo + hi) / 2;
      if s[mid] < x {
        lo := mid + 1;
      } else {
        hi := mid;
      }
    }
    pos := lo;
  }

  /** The frontier and the counts agree with the edges still open. */
  ghost predicate Frontier(open: Edges, n: nat, order: seq<nat>, indeg: seq<nat>, ready: seq<nat>)
  {
    && |indeg| == n && (forall v :: 0 <= v < n ==> indeg[v] == |In(open, v)|)
    && SortedStrictly(ready)
    && (forall v: nat :: v in ready <==> v < n && v !in order && In(open, v) == {})
  }

  /** The nodes without an edge into them. */
  method FirstReady(n: nat, indeg: seq<nat>, ghost es: Edges) returns (ready: seq<nat>)
    requires |indeg| == n && forall v :: 0 <= v < n ==> indeg[v] == |In(es, v)|
    ensures Frontier(es, n, [], indeg, ready)
  {
    ready := [];
    for i := 0 to n
      invariant SortedStrictly(ready) && forall v: nat :: v in ready <==> v < i && In(es, v) == {}
    {
      forall k | 0 <= k < |ready| ensures ready[k] < i {
        assert ready[k] in ready;
      }
      assert forall v: nat :: v in ready + [i] <==> v in ready || v == i;
      assert indeg[i] == 0 <==> In(es, i) == {};
      if indeg[i] == 0 {
        ready := ready + [i];
      }
    }
  }

  lemma NextIsLeast(es: Edges, n: nat, order: seq<nat>, indeg: seq<nat>, ready: seq<nat>)
    requires ready != [] && Frontier(Open(es, order), n, order, indeg, ready) && Placed(es, n, order) &&
      Least(es, n, order)
    ensures Placed(es, n, order + [ready[0]]) && Least(es, n, order + [ready[0]])
    ensures ready[0] < n && ready[0] !in order
  {
    var next := ready[0];
    var w := order + [next];
    assert next in ready;
    forall e | e in es && e.1 == next
      ensures e.0 in order
    {
      assert e.0 !in order ==> e in In(Open(es, order), next);
    }
    forall k {:trigger w[k]} | 0 <= k < |w|
      ensures Available(es, n, w[..k], w[k])
    {
      assert w[..k] == order[..k];
      if k < |order| {
        assert w[k] == order[k];
      } else {
        assert order[..k] == order;
      }
    }
    forall k, v: nat {:trigger Available(es, n, w[..k], v)} | 0 <= k < |w| && Available(es, n, w[..k], v)
      ensures w[k] <= v
    {
      assert w[..k] == order[..k];
      if k == |order| {
        assert order[..k] == order;
        assert In(Open(es, order), v) == {};
        assert v in ready;
      }
    }
  }

  lemma SubsetSize<T>(a: set<T>, b: set<T>)
    requires a <= b
    ensures |a| <= |b|
  {
    assert |b - a| == |b| - |a|;
  }

  /** Placed nodes are distinct and below n. */
  lemma PlacedFits(es: Edges, n: nat, order: seq<nat>)
    requires Placed(es, n, order)
    ensures forall i :: 0 <= i < |order| ==> order[i] < n
    ensures forall i, j :: 0 <= i < j < |order| ==> order[i] != order[j]
    ensures |order| <= n
  {
    forall i, j | 0 <= i < j < |order|
      ensures order[i] != order[j]
    {
      assert order[i] in order[..j];
    }
    var s := set i | 0 <= i < |order| :: order[i];
    PrefixSize(order, |order|);
    SubsetSize(s, Below(n));
  }

  /** The edges from `next` to the destinations from i on. */
  ghost function Left(next: nat, dsts: seq<nat>, i: nat): Edges
    requires i <= |dsts|
  {
    set k | i <= k < |dsts| :: (next, dsts[k])
  }

  lemma AllLeft(es: Edges, order: seq<nat>, next: nat, dsts: seq<nat>)
    requires order != [] && order[|order| - 1] == next && next !in order[..|order| - 1]
    requires forall v: nat :: v in dsts <==> (next, v) in es
    ensures Open(es, order[..|order| - 1]) == Open(es, order) + Left(next, dsts, 0)
  {
    var front := order[..|order| - 1];
    assert order == front + [next];
    forall e: (nat, nat) | e in Open(es, front)
      ensures e in Open(es, order) + Left(next, dsts, 0)
    {
      if e.0 == next {
        assert e.1 in dsts;
        var k :| 0 <= k < |dsts| && dsts[k] == e.1;
        assert (next, dsts[k]) in Left(next, dsts, 0);
      }
    }
  }

  lemma OneLeft(es: Edges, order: seq<nat>, next: nat, dsts: seq<nat>, i: nat)
    requires i < |dsts| && next in order && SortedStrictly(dsts)
    ensures (next, dsts[i]) in Left(next, dsts, i)
    ensures Open(es, order) + Left(next, dsts, i) - {(next, dsts[i])} == Open(es, order) + Left(next, dsts, i + 1)
  {
    forall e: (nat, nat) | e in Left(next, dsts, i + 1)
      ensures e != (next, dsts[i]) && e in Left(next, dsts, i)
    {
      var k :| i + 1 <= k < |dsts| && e == (next, dsts[k]);
    }
  }

  /** The counts after the edge e is taken off. */
  ghost predicate Counts(open: Edges, n: nat, indeg: seq<nat>)
  {
    |indeg| == n && forall v :: 0 <= v < n ==> indeg[v] == |In(open, v)|
  }

  lemma RemoveEdge(open: Edges, e: (nat, nat))
    requires e in open
    ensures |In(open, e.1)| > 0 && |In(open - {e}, e.1)| == |In(open, e.1)| - 1
    ensures forall v: nat :: v != e.1 ==> In(open - {e}, v) == In(open, v)
  {
    assert In(open - {e}, e.1) == In(open, e.1) - {e};
    assert e in In(open, e.1);
  }

  lemma InsertKeepsSorted(s: seq<nat>, pos: nat, x: nat)
    requires SortedStrictly(s) && pos <= |s| && x !in s
    requires (forall i :: 0 <= i < pos ==> s[i] < x) && (forall i :: pos <= i < |s| ==> s[i] >= x)
    ensures SortedStrictly(s[..pos] + [x] + s[pos..])
    ensures forall v :: v in s[..pos] + [x] + s[pos..] <==> v in s || v == x
  {
    assert s == s[..pos] + s[pos..];
  }

  lemma JoinsFrontier(open: Edges, n: nat, order: seq<nat>, indeg: seq<nat>, ready: seq<nat>, e: (nat, nat), pos: nat)
    requires e in open && e.1 < n && e.1 !in order && Counts(open - {e}, n, indeg) && indeg[e.1] == 0
    requires SortedStrictly(ready) && forall v: nat :: v in ready <==> v < n && v !in order && In(open, v) == {}
    requires pos <= |ready| && (forall i :: 0 <= i < pos ==> ready[i] < e.1) &&
      (forall i :: pos <= i < |ready| ==> ready[i] >= e.1)
    ensures Frontier(open - {e}, n, order, indeg, ready[..pos] + [e.1] + ready[pos..])
  {
    RemoveEdge(open, e);
    assert e in In(open, e.1);
    InsertKeepsSorted(ready, pos, e.1);
  }

  lemma StaysOut(open: Edges, n: nat, order: seq<nat>, indeg: seq<nat>, ready: seq<nat>, e: (nat, nat))
    requires e in open && e.1 < n && Counts(open - {e}, n, indeg) && indeg[e.1] != 0
    requires SortedStrictly(ready) && forall v: nat :: v in ready <==> v < n && v !in order && In(open, v) == {}
    ensures Frontier(open - {e}, n, order, indeg, ready)
  {
    RemoveEdge(open, e);
    assert e in In(open, e.1);
  }

  /** A node with an edge from the node just placed has not been placed. */
  lemma NotPlacedYet(es: Edges, n: nat, order: seq<nat>, next: nat, dst: nat)
    requires Placed(es, n, order) && order != [] && order[|order| - 1] == next && (next, dst) in es
    ensures dst !in order
  {
    forall k | 0 <= k < |order|
      ensures order[k] != dst
    {
      assert Available(es, n, order[..k], order[k]);
      PlacedFits(es, n, order);
    }
  }

  /** The edges out of `next` are taken off, one destination at a time, and each node
      left without one joins the frontier. */
  method Release(n: nat, dsts: seq<nat>, indeg0: seq<nat>, ready0: seq<nat>, ghost order: seq<nat>, next: nat,
                 ghost es: Edges)
    returns (indeg: seq<nat>, ready: seq<nat>)
    requires order != [] && order[|order| - 1] == next && next !in order[..|order| - 1] && Within(es, n)
    requires SortedStrictly(dsts) && forall v: nat :: v in dsts <==> (next, v) in es
    requires |indeg0| == n && forall v :: 0 <= v < n ==> indeg0[v] == |In(Open(es, order[..|order| - 1]), v)|
    requires SortedStrictly(ready0)
    requires forall v: nat :: v in ready0 <==> v < n && v !in order && In(Open(es, order[..|order| - 1]), v) == {}
    requires Placed(es, n, order)
    ensures Frontier(Open(es, order), n, order, indeg, ready)
  {
    indeg, ready := indeg0, ready0;
    ghost var open := Open(es, order[..|order| - 1]);
    AllLeft(es, order, next, dsts);
    for i := 0 to |dsts|
      invariant open == Open(es, order) + Left(next, dsts, i)
      invariant Frontier(open, n, order, indeg, ready)
    {
      var dst := dsts[i];
      assert dst in dsts;
      NotPlacedYet(es, n, order, next, dst);
      OneLeft(es, order, next, dsts, i);
      RemoveEdge(open, (next, dst));
      indeg := indeg[dst := indeg[dst] - 1];
      if indeg[dst] == 0 {
        var pos := SearchPosition(ready, dst);
        JoinsFrontier(open, n, order, indeg, ready, (next, dst), pos);
        ready := ready[..pos] + [dst] + ready[pos..];
      } else {
        StaysOut(open, n, order, indeg, ready, (next, dst));
      }
      open := open - {(next, dst)};
    }
    assert Left(next, dsts, |dsts|) == {};
  }

  method Kahn(n: nat, adj: seq<seq<nat>>, indeg0: seq<nat>, ghost es: Edges) returns (order: seq<nat>, indeg: seq<nat>)
    requires Within(es, n) && Lists(adj, es, n) && |indeg0| == n
    requires forall v :: 0 <= v < n ==> indeg0[v] == |In(es, v)|
    ensures Placed(es, n, order) && Least(es, n, order) && |indeg| == n
    ensures forall v: nat :: !Available(es, n, order, v)
    ensures forall v :: 0 <= v < n ==> indeg[v] == |In(Open(es, order), v)|
  {
    indeg := indeg0;
    var ready := FirstReady(n, indeg, es);
    order := [];
    assert Open(es, []) == es;
    while ready != []
      invariant Placed(es, n, order) && Least(es, n, order)
      invariant Frontier(Open(es, order), n, order, indeg, ready)
      decreases n - |order|
    {
      var next := ready[0];
      NextIsLeast(es, n, order, indeg, ready);
      PlacedFits(es, n, order);
      ready := ready[1..];
      order := order + [next];
      PlacedFits(es, n, order);
      indeg, ready := Release(n, adj[next], indeg, ready, order, next, es);
    }
    forall v: nat ensures !Available(es, n, order, v) {
      assert Available(es, n, order, v) ==> In(Open(es, order), v) == {};
    }
  }

  // ----- what the order means -----

  /** On a path that ends at a placed node, every node is placed, the first before the
      last. */
  lemma {:induction false} PathPlaced(g: Graph<nat>, es: Edges, n: nat, order: seq<nat>, p: seq<nat>, k: nat)
    returns (i: nat)
    requires Placed(es, n, order) && k < |order| && |p| >= 2 && IsPath(g, p) && p[|p| - 1] == order[k]
    requires forall a: nat, b: nat :: Edge(g, a, b) ==> (a, b) in es
    ensures i < k && order[i] == p[0]
  {
    var m := |p| - 1;
    assert Hop(g, p, m - 1);
    assert Available(es, n, order[..k], order[k]);
    assert (p[m - 1], p[m]) in es;
    i :| 0 <= i < k && order[..k][i] == p[m - 1];
    if m > 1 {
      PrefixPath(g, p, m);
      i := PathPlaced(g, es, n, order, p[..m], i);
    }
  }

  /** No placed node lies on a cycle or downstream of one. */
  lemma PlacedOffCycles(g: Graph<nat>, es: Edges, n: nat, order: seq<nat>, c: nat, v: nat)
    requires Placed(es, n, order) && v in order && (forall a: nat, b: nat :: Edge(g, a, b) ==> (a, b) in es)
    requires c == v || Reaches(g, c, v)
    ensures !Reaches(g, c, c)
  {
    var k :| 0 <= k < |order| && order[k] == v;
    if Reaches(g, c, c) {
      if c != v {
        var p :| PathFrom(g, p, c, v);
        k := PathPlaced(g, es, n, order, p, k);
      }
      var q :| PathFrom(g, q, c, c);
      var i := PathPlaced(g, es, n, order, q, k);
      PlacedFits(es, n, order);
      assert false;
    }
  }

  /** A node left over lies on a cycle or downstream of one. */
  lemma LeftOverIsDownstream(g: Graph<nat>, es: Edges, n: nat, order: seq<nat>, v: nat) returns (c: nat)
    requires Within(es, n) && v < n && v !in order && (forall u: nat :: !Available(es, n, order, u))
    requires forall a: nat, b: nat :: (a, b) in es ==> Edge(g, a, b)
    ensures Reaches(g, c, c) && (c == v || Reaches(g, c, v))
  {
    var r := Below(n) - (set x | x in order);
    forall b | b in r ensures HasPredecessor(g, r, b) {
      assert !Available(es, n, order, b);
      var e :| e in es && e.1 == b && e.0 !in order;
      assert Edge(g, e.0, b) && e.0 in r;
    }
    c := DownstreamOfCycle(g, r, v);
  }

  /** A short list misses some index. */
  lemma Missing(order: seq<nat>, n: nat) returns (v: nat)
    requires |order| < n && (forall i, j :: 0 <= i < j < |order| ==> order[i] != order[j])
    ensures v < n && v !in order
  {
    var s := set i | 0 <= i < |order| :: order[i];
    PrefixSize(order, |order|);
    if Below(n) <= s {
      SubsetSize(Below(n), s);
      assert false;
    }
    v :| v in Below(n) && v !in s;
    forall i | 0 <= i < |order| ensures order[i] != v {
      assert order[i] in s;
    }
  }

  /** Placing every node happens exactly when the graph has no cycle. */
  lemma AllPlacedIffAcyclic(g: Graph<nat>, es: Edges, n: nat, order: seq<nat>)
    requires Within(es, n) && Placed(es, n, order) && (forall u: nat :: !Available(es, n, order, u))
    requires forall a: nat, b: nat :: Edge(g, a, b) <==> (a, b) in es
    ensures |order| == n <==> Acyclic(g)
  {
    PlacedFits(es, n, order);
    if |order| == n {
      forall a: nat ensures !Reaches(g, a, a) {
        if Reaches(g, a, a) {
          var b := ReachesFirst(g, a, a);
          assert (a, b) in es;
          var i := Onto(order, n, a);
          PlacedOffCycles(g, es, n, order, a, a);
          assert false;
        }
      }
    } else {
      var v := Missing(order, n);
      var c := LeftOverIsDownstream(g, es, n, order, v);
    }
  }

  /** A complete placement is a topological order. */
  lemma PlacedIsTopological(es: Edges, n: nat, order: seq<nat>)
    requires Placed(es, n, order) && |order| == n
    ensures Topological(es, n, order)
  {
    PlacedFits(es, n, order);
    forall i, j | 0 <= i < n && 0 <= j < n && (order[i], order[j]) in es
      ensures i < j
    {
      assert Available(es, n, order[..j], order[j]);
      var k :| 0 <= k < j && order[..j][k] == order[i];
      assert order[k] == order[i];
    }
  }

  ghost predicate FirstLess(s: seq<nat>, t: seq<nat>, k: int)
  {
    0 <= k < |s| && k < |t| && s[..k] == t[..k] && s[k] < t[k]
  }

  /** `s` is `t`, or smaller at the first place they differ. */
  ghost predicate LexLeq(s: seq<nat>, t: seq<nat>)
  {
    s == t || exists k :: FirstLess(s, t, k)
  }

  lemma FirstDifference(s: seq<nat>, t: seq<nat>) returns (k: nat)
    requires |s| == |t| && s != t
    ensures k < |s| && s[..k] == t[..k] && s[k] != t[k]
  {
    k := 0;
    while k < |s| && s[k] == t[k]
      invariant k <= |s| && s[..k] == t[..k]
    {
      k := k + 1;
    }
    assert s[..|s|] == s && t[..|t|] == t;
  }

  /** In a topological order each node is available where it stands. */
  lemma TopologicalAvailable(es: Edges, n: nat, t: seq<nat>, k: nat)
    requires Within(es, n) && Topological(es, n, t) && k < n
    ensures Available(es, n, t[..k], t[k])
  {
    forall e | e in es && e.1 == t[k]
      ensures e.0 in t[..k]
    {
      var i := Onto(t, n, e.0);
      assert (t[i], t[k]) in es;
      assert t[..k][i] == e.0;
    }
  }

  /** Always placing the least available node gives the least topological order. */
  lemma LeastIsLexLeast(es: Edges, n: nat, order: seq<nat>, t: seq<nat>)
    requires Within(es, n) && Placed(es, n, order) && Least(es, n, order) && |order| == n && Topological(es, n, t)
    ensures LexLeq(order, t)
  {
    if order != t {
      var k := FirstDifference(order, t);
      TopologicalAvailable(es, n, t, k);
      assert Available(es, n, order[..k], t[k]);
      assert FirstLess(order, t, k);
    }
  }
}
