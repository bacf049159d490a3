/** The include graph of definition files. */
module Includes {
  import opened Graphs
  import opened Options
  import Dfs

  /** Go's string order. */
  predicate Less(a: string, b: string)
  {
    b != [] && (a == [] || a[0] < b[0] || (a[0] == b[0] && Less(a[1..], b[1..])))
  }

  /** The strings agree up to k, where a ends or has the smaller character. */
  ghost predicate SmallerAt(a: string, b: string, k: int)
  {
    0 <= k < |b| && k <= |a| && a[..k] == b[..k] && (k == |a| || a[k] < b[k])
  }

  lemma {:induction false} LessAt(a: string, b: string) returns (k: nat)
    requires Less(a, b)
    ensures SmallerAt(a, b, k)
  {
    k := 0;
    if a != [] && a[0] == b[0] {
      var j := LessAt(a[1..], b[1..]);
      assert a[..j + 1] == [a[0]] + a[1..][..j] && b[..j + 1] == [b[0]] + b[1..][..j];
      k := j + 1;
    }
  }

  lemma {:induction false} AtLess(a: string, b: string, k: nat)
    requires SmallerAt(a, b, k)
    ensures Less(a, b)
    decreases k
  {
    if k > 0 {
      assert a[..k][0] == a[0] && b[..k][0] == b[0];
      assert a[1..][..k - 1] == a[..k][1..] && b[1..][..k - 1] == b[..k][1..];
      AtLess(a[1..], b[1..], k - 1);
    }
  }

  /** It is the lexicographic order of the characters. */
  lemma LessIff(a: string, b: string)
    ensures Less(a, b) <==> exists k :: SmallerAt(a, b, k)
  {
    if Less(a, b) {
      var k := LessAt(a, b);
    }
    if k: nat :| SmallerAt(a, b, k) {
      AtLess(a, b, k);
    }
  }

  lemma {:induction false} LessTotal(a: string, b: string)
    ensures Less(a, b) || a == b || Less(b, a)
    ensures !(Less(a, b) && (a == b || Less(b, a)))
  {
    if a != [] && b != [] && a[0] == b[0] {
      LessTotal(a[1..], b[1..]);
      assert a == [a[0]] + a[1..] && b == [b[0]] + b[1..];
    }
  }

  lemma {:induction false} LessTransits(a: string, b: string, c: string)
    requires Less(a, b) && Less(b, c)
    ensures Less(a, c)
  {
    if a != [] && a[0] == b[0] && b[0] == c[0] {
      LessTransits(a[1..], b[1..], c[1..]);
    }
  }

  ghost predicate Ascending(keys: seq<string>)
  {
    forall i, j :: 0 <= i < j < |keys| ==> Less(keys[i], keys[j])
  }

  lemma FirstIsLeast(a: seq<string>, k: string)
    requires Ascending(a) && k in a
    ensures k == a[0] || Less(a[0], k)
  {
  }

  lemma RestOf(a: seq<string>, k: string)
    requires Ascending(a) && a != []
    ensures k in a[1..] <==> k in a && k != a[0]
  {
    LessTotal(a[0], a[0]);
    if k in a && k != a[0] {
      var i :| 0 <= i < |a| && a[i] == k;
      assert a[1..][i - 1] == k;
    }
  }

  /** The ascending listing of a set is unique, so the order of the search does not depend
      on the order a map is walked in. */
  lemma {:induction false} OneListing(a: seq<string>, b: seq<string>)
    requires Ascending(a) && Ascending(b) && forall k :: k in a <==> k in b
    ensures a == b
  {
    assert b == [] || b[0] in b;
    if a != [] {
      assert a[0] in b;
      assert b[0] in a;
      LessTotal(a[0], b[0]);
      FirstIsLeast(a, b[0]);
      FirstIsLeast(b, a[0]);
      forall k ensures k in a[1..] <==> k in b[1..] {
        RestOf(a, k);
        RestOf(b, k);
      }
      OneListing(a[1..], b[1..]);
      assert a == [a[0]] + a[1..] && b == [b[0]] + b[1..];
    }
  }

  /** The keys before `at` are smaller than k, and the others larger. */
  lemma Splits(keys: seq<string>, k: string, at: nat, j: nat)
    requires Ascending(keys) && k !in keys && at <= |keys| && j < |keys|
    requires at < |keys| ==> Less(k, keys[at])
    requires at > 0 ==> !Less(k, keys[at - 1])
    ensures if j < at then Less(keys[j], k) else Less(k, keys[j])
  {
    if j < at {
      LessTotal(keys[at - 1], k);
      if j < at - 1 {
        LessTransits(keys[j], keys[at - 1], k);
      }
    } else if j > at {
      LessTransits(k, keys[at], keys[j]);
    }
  }

  lemma Inserted(keys: seq<string>, k: string, at: nat)
    requires Ascending(keys) && k !in keys && at <= |keys|
    requires at < |keys| ==> Less(k, keys[at])
    requires at > 0 ==> !Less(k, keys[at - 1])
    ensures Ascending(keys[..at] + [k] + keys[at..])
  {
    var w := keys[..at] + [k] + keys[at..];
    forall j | 0 <= j < |keys|
      ensures if j < at then Less(keys[j], k) else Less(k, keys[j])
    {
      Splits(keys, k, at, j);
    }
    forall i, j | 0 <= i < j < |w|
      ensures Less(w[i], w[j])
    {
      if j < at || i > at {
        assert Less(keys[if i < at then i else i - 1], keys[if j < at then j else j - 1]);
      }
    }
  }

  lemma InsertedHas(keys: seq<string>, k: string, at: nat)
    requires at <= |keys|
    ensures forall x :: x in keys[..at] + [k] + keys[at..] <==> x in keys || x == k
  {
    assert keys == keys[..at] + keys[at..];
  }

  /** The keys of a map, collected in any order and sorted. */
  method SortedKeys(all: set<string>) returns (keys: seq<string>)
    ensures Ascending(keys) && forall k :: k in keys <==> k in all
  {
    keys := [];
    var rest := all;
    while rest != {}
      invariant rest <= all && Ascending(keys)
      invariant forall k :: k in keys <==> k in all && k !in rest
    {
      var k :| k in rest;
      rest := rest - {k};
      var at := |keys|;
      while at > 0 && Less(k, keys[at - 1])
        invariant 0 <= at <= |keys|
        invariant at < |keys| ==> Less(k, keys[at])
      {
        at := at - 1;
      }
      Inserted(keys, k, at);
      InsertedHas(keys, k, at);
      keys := keys[..at] + [k] + keys[at..];
    }
  }

  /** The check reports a node exactly when some definition includes itself, directly or
      not; the node it reports does. Which one that is depends on the graph alone: it is the
      node that following the includes in order, from the least definition on, first comes
      back to. */
  method CheckIncludeDAG(graph: Graph<string>) returns (err: Option<string>)
    ensures err.None? <==> Acyclic(graph)
    ensures err.Some? ==> Reaches(graph, err.value, err.value)
    ensures forall keys :: Ascending(keys) && (forall k :: k in keys <==> k in graph) ==>
      err == Dfs.FirstBack(graph, [], keys)
  {
    var keys := SortedKeys(graph.Keys);
    forall other | Ascending(other) && (forall k :: k in other <==> k in graph) ensures other == keys {
      OneListing(other, keys);
    }
    err := Dfs.FindCycle(graph, keys);
  }
}
