/** The three-colour depth-first search shared by the include-graph check and the data
    dependency check. */
module Dfs {
  import opened Graphs
  import opened Options

  datatype Color = White | Gray | Black

  function DepsOf<T(==)>(g: Graph<T>, a: T): seq<T>
  {
    if a in g then g[a] else []
  }

  ghost function Elems<T>(s: seq<T>): set<T>
  {
    set x | x in s
  }

  lemma Shrinks<T(!new)>(g: Graph<T>, path: seq<T>, a: T)
    requires a in Nodes(g) && a !in path
    ensures |Nodes(g) - Elems(path + [a])| < |Nodes(g) - Elems(path)|
  {
    assert Nodes(g) - Elems(path + [a]) < Nodes(g) - Elems(path) by {
      assert a in path + [a];
      assert a in Nodes(g) - Elems(path) && a !in Nodes(g) - Elems(path + [a]);
    }
    ProperSubsetSmaller(Nodes(g) - Elems(path + [a]), Nodes(g) - Elems(path));
  }

  /** The node that depth-first exploration of every path on from `path` first meets on its
      own path, nothing being remembered from one path to the next. */
  ghost function FirstBack<T(!new)>(g: Graph<T>, path: seq<T>, deps: seq<T>): Option<T>
    decreases |Nodes(g) - Elems(path)|, |deps|
  {
    if deps == [] then None
    else if deps[0] in path then Some(deps[0])
    else
      var below := if deps[0] in Nodes(g) then
        (Shrinks(g, path, deps[0]); FirstBack(g, path + [deps[0]], DepsOf(g, deps[0]))) else None;
      if below.Some? then below else FirstBack(g, path, deps[1..])
  }

  /** Among nodes on no cycle no path comes back, as long as what it has of them lies
      upstream. */
  lemma {:induction false} NothingBack<T(!new)>(g: Graph<T>, done: set<T>, path: seq<T>, deps: seq<T>)
    requires Closed(g, done) && (forall a :: a in done ==> !Reaches(g, a, a)) && (forall d :: d in deps ==> d in done)
    requires forall a, d :: a in path && a in done && d in deps ==> Reaches(g, a, d)
    ensures FirstBack(g, path, deps) == None
    decreases |Nodes(g) - Elems(path)|, |deps|
  {
    if deps != [] {
      var d := deps[0];
      assert d in done && d !in path;
      if d in Nodes(g) {
        Shrinks(g, path, d);
        forall b | b in DepsOf(g, d) ensures Reaches(g, d, b) && b in done {
          assert Edge(g, d, b);
          EdgeReaches(g, d, b);
        }
        forall a, b | a in path + [d] && a in done && b in DepsOf(g, d) ensures Reaches(g, a, b) {
          if a != d {
            assert a in path;
            ReachesTransits(g, a, d, b);
          }
        }
        NothingBack(g, done, path + [d], DepsOf(g, d));
      }
      NothingBack(g, done, path, deps[1..]);
    }
  }

  // ----- colours -----

  function ColorIn<T(==)>(color: map<T, Color>, a: T): Color
  {
    if a in color then color[a] else White
  }

  /** Gray nodes are the ones on the stack, each depending on the next; a black node
      depends on black nodes only and lies on no cycle. */
  ghost predicate Painted<T(!new)>(g: Graph<T>, color: map<T, Color>, stack: seq<T>)
  {
    && IsPath(g, stack)
    && (forall a :: a in color ==> color[a] != White)
    && (forall a :: ColorIn(color, a) == Gray <==> a in stack)
    && (forall a, b :: ColorIn(color, a) == Black && Edge(g, a, b) ==> ColorIn(color, b) == Black)
    && (forall a :: ColorIn(color, a) == Black ==> !Reaches(g, a, a))
  }

  ghost function BlackNodes<T>(color: map<T, Color>): set<T>
  {
    set a | a in color && color[a] == Black
  }

  /** Nothing comes back from a black node, whatever the stack. */
  lemma BlackNeverBack<T(!new)>(g: Graph<T>, color: map<T, Color>, stack: seq<T>, a: T)
    requires Painted(g, color, stack) && ColorIn(color, a) == Black
    ensures a !in stack && FirstBack(g, stack + [a], DepsOf(g, a)) == None
  {
    var done := BlackNodes(color);
    forall x, d | x in stack + [a] && x in done && d in DepsOf(g, a) ensures Reaches(g, x, d) {
      assert ColorIn(color, x) != Gray;
      assert x == a && Edge(g, a, d);
      EdgeReaches(g, a, d);
    }
    forall d | d in DepsOf(g, a) ensures d in done {
      assert Edge(g, a, d);
    }
    NothingBack(g, done, stack + [a], DepsOf(g, a));
  }

  /** A white node that the last gray one depends on is painted gray. */
  lemma Pushed<T(!new)>(g: Graph<T>, color: map<T, Color>, stack: seq<T>, node: T)
    requires Painted(g, color, stack) && node !in color
    requires stack != [] ==> Edge(g, stack[|stack| - 1], node)
    ensures node !in stack && Painted(g, color[node := Gray], stack + [node])
  {
    assert ColorIn(color, node) == White;
    PathGrows(g, stack, node);
  }

  /** A gray node whose dependencies are all black is painted black. */
  lemma Finished<T(!new)>(g: Graph<T>, color: map<T, Color>, stack: seq<T>, node: T)
    requires Painted(g, color, stack + [node]) && node !in stack
    requires forall b :: b in DepsOf(g, node) ==> ColorIn(color, b) == Black
    ensures Painted(g, color[node := Black], stack)
  {
    var st := stack + [node];
    assert st[..|stack|] == stack && st[|stack|] == node;
    PrefixPath(g, st, |stack|);
    assert ColorIn(color, node) == Gray;
    forall b | Edge(g, node, b) ensures ColorIn(color, b) == Black {
      assert b in DepsOf(g, node);
    }
    if Reaches(g, node, node) {
      var b := ReachesFirst(g, node, node);
      if b != node {
        ClosedReaches(g, BlackNodes(color), b, node);
      }
      assert false;
    }
    assert forall a :: a in st <==> a in stack || a == node;
  }

  /** When every root is black and every node with dependencies is a root, no node lies on
      a cycle. */
  lemma AllBlack<T(!new)>(g: Graph<T>, color: map<T, Color>, roots: seq<T>)
    requires Painted(g, color, []) && forall j :: 0 <= j < |roots| ==> ColorIn(color, roots[j]) == Black
    requires forall a :: a in g ==> a in roots
    ensures Acyclic(g)
  {
    forall a ensures !Reaches(g, a, a) {
      if a in g {
        var i :| 0 <= i < |roots| && roots[i] == a;
      } else if Reaches(g, a, a) {
        var b := ReachesFirst(g, a, a);
        assert false;
      }
    }
  }

  // ----- the search -----

  /** One search: the graph, and the colour of every node met so far. `universe` bounds
      the nodes the search can meet. */
  class Search<T(==,!new)> {
    const graph: Graph<T>
    ghost const universe: set<T>
    var color: map<T, Color>

    constructor (g: Graph<T>, ghost roots: set<T>)
      ensures graph == g && color == map[] && universe == Nodes(g) + roots
    {
      graph, color, universe := g, map[], Nodes(g) + roots;
    }

    function ColorOf(a: T): Color
      reads this
    {
      ColorIn(color, a)
    }

    ghost predicate Inv(stack: seq<T>)
      reads this
    {
      Painted(graph, color, stack) && Nodes(graph) <= universe
    }

    ghost function Uncolored(): set<T>
      reads this
    {
      universe - color.Keys
    }

    /** `visit`: paints the node and everything below it black, or reports a node that
        lies on a cycle, the one that exploring without colours would meet first. */
    method Visit(node: T, ghost stack: seq<T>) returns (err: Option<T>)
      requires Inv(stack) && node !in color && node in universe
      requires stack != [] ==> Edge(graph, stack[|stack| - 1], node)
      modifies this
      ensures err == FirstBack(graph, stack + [node], DepsOf(graph, node))
      ensures err.Some? ==> Reaches(graph, err.value, err.value)
      ensures err.None? ==> Inv(stack) && ColorOf(node) == Black
      ensures err.None? ==> forall a :: a in old(color) ==> ColorOf(a) == old(ColorOf(a))
      ensures forall a :: a in old(color) ==> a in color
      decreases Uncolored()
    {
      ghost var st := stack + [node];
      Pushed(graph, color, stack, node);
      color := color[node := Gray];
      ghost var before := color;
      var deps := DepsOf(graph, node);
      for i := 0 to |deps|
        invariant Inv(st)
        invariant forall j :: 0 <= j < i ==> ColorOf(deps[j]) == Black
        invariant forall a :: a in before ==> a in color && color[a] == before[a]
        invariant FirstBack(graph, st, deps) == FirstBack(graph, st, deps[i..])
      {
        var up := deps[i];
        assert Edge(graph, node, up);
        assert deps[i..][0] == up && deps[i..][1..] == deps[i + 1..];
        match ColorOf(up) {
          case Gray =>
            StackCycle(graph, st, up);
            return Some(up);
          case White =>
            assert Uncolored() < old(Uncolored()) by {
              assert node in old(Uncolored()) && node !in Uncolored();
            }
            err := Visit(up, st);
            if err.Some? {
              return;
            }
          case Black =>
            BlackNeverBack(graph, color, st, up);
        }
      }
      Finished(graph, color, stack, node);
      color := color[node := Black];
      return None;
    }
  }

  /** The search started from each node of `roots` that is still white. */
  method FindCycle<T(==,!new)>(g: Graph<T>, roots: seq<T>) returns (err: Option<T>)
    requires forall a :: a in g ==> a in roots
    ensures err == FirstBack(g, [], roots)
    ensures err.Some? ==> Reaches(g, err.value, err.value)
    ensures err.None? <==> Acyclic(g)
  {
    var s := new Search(g, set a | a in roots);
    for i := 0 to |roots|
      invariant s.graph == g && s.Inv([]) && s.universe == Nodes(g) + (set a | a in roots)
      invariant forall j :: 0 <= j < i ==> s.ColorOf(roots[j]) == Black
      invariant FirstBack(g, [], roots) == FirstBack(g, [], roots[i..])
    {
      assert roots[i..][0] == roots[i] && roots[i..][1..] == roots[i + 1..] && [] + [roots[i]] == [roots[i]];
      if s.ColorOf(roots[i]) == White {
        err := s.Visit(roots[i], []);
        if err.Some? {
          return;
        }
      } else {
        BlackNeverBack(g, s.color, [], roots[i]);
      }
    }
    AllBlack(g, s.color, roots);
    return None;
  }
}
