/** Finite directed graphs given as successor lists, and what acyclicity means. */
module Graphs {
  /** Each node's successors; a node without an entry has none. */
  type Graph<T> = map<T, seq<T>>

  predicate Edge<T(==)>(g: Graph<T>, a: T, b: T)
  {
    a in g && b in g[a]
  }

  predicate Hop<T(==)>(g: Graph<T>, p: seq<T>, i: nat)
    requires i + 1 < |p|
  {
    Edge(g, p[i], p[i + 1])
  }

  /** Each node of `p` has an edge to the next. */
  ghost predicate IsPath<T>(g: Graph<T>, p: seq<T>)
  {
    forall i :: 0 <= i < |p| - 1 ==> Hop(g, p, i)
  }

  /** A path of at least one edge from `a` to `b`. */
  ghost predicate PathFrom<T>(g: Graph<T>, p: seq<T>, a: T, b: T)
  {
    |p| >= 2 && p[0] == a && p[|p| - 1] == b && IsPath(g, p)
  }

  ghost predicate Reaches<T(!new)>(g: Graph<T>, a: T, b: T)
  {
    exists p: seq<T> :: PathFrom(g, p, a, b)
  }

  ghost predicate Acyclic<T(!new)>(g: Graph<T>)
  {
    forall a :: !Reaches(g, a, a)
  }

  lemma EdgeReaches<T(!new)>(g: Graph<T>, a: T, b: T)
    requires Edge(g, a, b)
    ensures Reaches(g, a, b)
  {
    assert Hop(g, [a, b], 0);
    assert PathFrom(g, [a, b], a, b);
  }

  lemma PathsJoin<T>(g: Graph<T>, p: seq<T>, q: seq<T>, a: T, b: T, c: T)
    requires PathFrom(g, p, a, b) && PathFrom(g, q, b, c)
    ensures PathFrom(g, p + q[1..], a, c)
  {
    var r := p + q[1..];
    forall i | 0 <= i < |r| - 1
      ensures Hop(g, r, i)
    {
      if i < |p| - 1 {
        assert Hop(g, p, i);
      } else {
        assert Hop(g, q, i - |p| + 1);
      }
    }
  }

  lemma ReachesTransits<T(!new)>(g: Graph<T>, a: T, b: T, c: T)
    requires Reaches(g, a, b) && Reaches(g, b, c)
    ensures Reaches(g, a, c)
  {
    var p :| PathFrom(g, p, a, b);
    var q :| PathFrom(g, q, b, c);
    PathsJoin(g, p, q, a, b, c);
  }

  lemma SuffixPath<T>(g: Graph<T>, p: seq<T>, i: nat)
    requires IsPath(g, p) && i < |p|
    ensures IsPath(g, p[i..])
  {
    forall j | 0 <= j < |p[i..]| - 1 ensures Hop(g, p[i..], j) {
      assert Hop(g, p, i + j);
    }
  }

  /** A path leaves along an edge, and either ends there or goes on. */
  lemma ReachesFirst<T(!new)>(g: Graph<T>, a: T, c: T) returns (b: T)
    requires Reaches(g, a, c)
    ensures Edge(g, a, b) && (b == c || Reaches(g, b, c))
  {
    var p :| PathFrom(g, p, a, c);
    b := p[1];
    assert Hop(g, p, 0);
    if |p| > 2 {
      SuffixPath(g, p, 1);
      assert PathFrom(g, p[1..], b, c);
    }
  }

  lemma PrefixPath<T>(g: Graph<T>, p: seq<T>, i: nat)
    requires IsPath(g, p) && i <= |p|
    ensures IsPath(g, p[..i])
  {
    forall j | 0 <= j < |p[..i]| - 1 ensures Hop(g, p[..i], j) {
      assert Hop(g, p, j);
    }
  }

  /** A path leads to each of its nodes but the first. */
  lemma PrefixReaches<T(!new)>(g: Graph<T>, p: seq<T>, a: T, b: T, i: nat)
    requires PathFrom(g, p, a, b) && 0 < i < |p|
    ensures Reaches(g, a, p[i])
  {
    PrefixPath(g, p, i + 1);
    assert PathFrom(g, p[..i + 1], a, p[i]);
  }

  /** A set closed under edges cannot be left. */
  ghost predicate Closed<T(!new)>(g: Graph<T>, s: set<T>)
  {
    forall a, b :: a in s && Edge(g, a, b) ==> b in s
  }

  lemma {:induction false} PathStays<T(!new)>(g: Graph<T>, s: set<T>, p: seq<T>, i: nat)
    requires Closed(g, s) && IsPath(g, p) && i < |p| && p[0] in s
    ensures p[i] in s
  {
    if i > 0 {
      PathStays(g, s, p, i - 1);
      assert Hop(g, p, i - 1);
    }
  }

  lemma ClosedReaches<T(!new)>(g: Graph<T>, s: set<T>, a: T, b: T)
    requires Closed(g, s) && a in s && Reaches(g, a, b)
    ensures b in s
  {
    var p :| PathFrom(g, p, a, b);
    PathStays(g, s, p, |p| - 1);
  }

  lemma PathGrows<T>(g: Graph<T>, stack: seq<T>, node: T)
    requires IsPath(g, stack) && (stack != [] ==> Edge(g, stack[|stack| - 1], node))
    ensures IsPath(g, stack + [node])
  {
    var st := stack + [node];
    forall i | 0 <= i < |st| - 1
      ensures Hop(g, st, i)
    {
      if i < |stack| - 1 {
        assert Hop(g, stack, i);
      }
    }
  }

  /** The nodes of `stack` lead to one another; an edge from the last back to any of them
      closes a cycle. */
  lemma StackCycle<T(!new)>(g: Graph<T>, stack: seq<T>, b: T)
    requires IsPath(g, stack) && stack != [] && b in stack && Edge(g, stack[|stack| - 1], b)
    ensures Reaches(g, b, b)
  {
    var i :| 0 <= i < |stack| && stack[i] == b;
    SuffixPath(g, stack, i);
    PathGrows(g, stack[i..], b);
    assert PathFrom(g, stack[i..] + [b], b, b);
  }

  // ----- rank: how many nodes a node reaches -----

  /** Every node with an edge in or out. */
  ghost function Nodes<T(!new)>(g: Graph<T>): (s: set<T>)
    ensures forall a, b :: Edge(g, a, b) ==> a in s && b in s
    ensures Closed(g, s)
  {
    g.Keys + set a, b | a in g.Keys && b in g[a] :: b
  }

  ghost function Descendants<T(!new)>(g: Graph<T>, a: T): set<T>
  {
    set b | b in Nodes(g) && Reaches(g, a, b)
  }

  lemma DescendantsAre<T(!new)>(g: Graph<T>, a: T, b: T)
    ensures b in Descendants(g, a) <==> Reaches(g, a, b)
  {
    if Reaches(g, a, b) {
      var c := ReachesFirst(g, a, b);
      ClosedReaches(g, Nodes(g), a, b);
    }
  }

  ghost function Rank<T(!new)>(g: Graph<T>, a: T): nat
  {
    |Descendants(g, a)|
  }

  lemma ProperSubsetSmaller<T>(a: set<T>, b: set<T>)
    requires a < b
    ensures |a| < |b|
  {
    assert |b - a| == |b| - |a|;
  }

  /** In an acyclic graph an edge goes to a node of smaller rank. */
  lemma RankFalls<T(!new)>(g: Graph<T>, a: T, b: T)
    requires Edge(g, a, b) && !Reaches(g, b, b)
    ensures Rank(g, b) < Rank(g, a)
  {
    EdgeReaches(g, a, b);
    forall c | c in Descendants(g, b)
      ensures c in Descendants(g, a)
    {
      ReachesTransits(g, a, b, c);
      DescendantsAre(g, a, c);
    }
    DescendantsAre(g, a, b);
    ProperSubsetSmaller(Descendants(g, b), Descendants(g, a));
  }

  /** A member of `r` of the greatest rank. */
  lemma {:induction false} GreatestRank<T(!new)>(g: Graph<T>, r: set<T>) returns (a: T)
    requires r != {}
    ensures a in r && forall b :: b in r ==> Rank(g, b) <= Rank(g, a)
    decreases r
  {
    a :| a in r;
    if r != {a} {
      var c := GreatestRank(g, r - {a});
      if Rank(g, c) > Rank(g, a) {
        a := c;
      }
    }
  }

  ghost predicate HasPredecessor<T(!new)>(g: Graph<T>, r: set<T>, b: T)
  {
    exists a :: a in r && Edge(g, a, b)
  }

  /** If every node of a finite set has a predecessor in it, the set holds a cycle. */
  lemma BackwardsCycle<T(!new)>(g: Graph<T>, r: set<T>) returns (c: T)
    requires r != {} && forall b {:trigger HasPredecessor(g, r, b)} :: b in r ==> HasPredecessor(g, r, b)
    ensures c in r && Reaches(g, c, c)
  {
    c := GreatestRank(g, r);
    assert HasPredecessor(g, r, c);
    var a :| a in r && Edge(g, a, c);
    if !Reaches(g, c, c) {
      RankFalls(g, a, c);
      assert false;
    }
  }

  /** The nodes of `r` from which `v` can be reached, `v` included. */
  ghost function Upstream<T(!new)>(g: Graph<T>, r: set<T>, v: T): set<T>
  {
    set a | a in r && (a == v || Reaches(g, a, v))
  }

  lemma UpstreamStep<T(!new)>(g: Graph<T>, r: set<T>, v: T, a: T, b: T)
    requires a in r && b in Upstream(g, r, v) && Edge(g, a, b)
    ensures a in Upstream(g, r, v)
  {
    EdgeReaches(g, a, b);
    if b != v {
      ReachesTransits(g, a, b, v);
    }
  }

  lemma UpstreamClosed<T(!new)>(g: Graph<T>, r: set<T>, v: T, b: T)
    requires b in Upstream(g, r, v) && HasPredecessor(g, r, b)
    ensures HasPredecessor(g, Upstream(g, r, v), b)
  {
    var a :| a in r && Edge(g, a, b);
    UpstreamStep(g, r, v, a, b);
  }

  /** Every node of such a set lies on a cycle or downstream of one. */
  lemma DownstreamOfCycle<T(!new)>(g: Graph<T>, r: set<T>, v: T) returns (c: T)
    requires v in r && forall b {:trigger HasPredecessor(g, r, b)} :: b in r ==> HasPredecessor(g, r, b)
    ensures c in r && Reaches(g, c, c) && (c == v || Reaches(g, c, v))
  {
    var up := Upstream(g, r, v);
    assert v in up;
    forall b {:trigger HasPredecessor(g, up, b)} | b in up ensures HasPredecessor(g, up, b) {
        assert HasPredecessor(g, r, b);
      UpstreamClosed(g, r, v, b);
    }
    c := BackwardsCycle(g, up);
  }
}
