/** The render graph: passes ordered by the resources they produce and consume, with a
    barrier for every hand-over. */
module RenderGraph {
  import opened Graphs
  import opened Options
  import opened Perms
  import opened Topo

  /** A packed 64-bit resource handle; its kind is the top byte, of which the program uses
      0 to 6, so the sign bit stays clear. */
  type RID = r: nat | r < 0x8000_0000_0000_0000 witness 0

  const KIND_UNIT := 0x100_0000_0000_0000

  predicate IsNil(r: RID) { r / KIND_UNIT == 0 }

  datatype Pass = Pass(name: string, inputs: seq<RID>, outputs: seq<RID>)

  /** A resource handed from one position of the built order to a later one. */
  datatype Barrier = Barrier(resource: RID, from: nat, dest: nat)

  /** The last of the first k passes that writes r. */
  function Producer(passes: seq<Pass>, k: nat, r: RID): (p: Option<nat>)
    requires k <= |passes|
    ensures p.Some? ==> p.value < k && r in passes[p.value].outputs && r >= KIND_UNIT
    ensures p.Some? ==> forall i :: p.value < i < k ==> r !in passes[i].outputs
    ensures p.None? ==> r < KIND_UNIT || forall i :: 0 <= i < k ==> r !in passes[i].outputs
  {
    if k == 0 then None
    else if !IsNil(r) && r in passes[k - 1].outputs then Some(k - 1)
    else Producer(passes, k - 1, r)
  }

  /** The last pass that writes r, nil handles being written by none. */
  function Writer(passes: seq<Pass>, r: RID): (p: Option<nat>)
    ensures p.Some? ==> p.value < |passes| && r in passes[p.value].outputs && r >= KIND_UNIT
    ensures p.Some? ==> forall i :: p.value < i < |passes| ==> r !in passes[i].outputs
    ensures p.None? ==> r < KIND_UNIT || forall i :: 0 <= i < |passes| ==> r !in passes[i].outputs
  {
    Producer(passes, |passes|, r)
  }

  /** Some resource of `rs` is written by pass i. */
  predicate ReadsFrom(passes: seq<Pass>, rs: seq<RID>, i: nat)
  {
    exists r :: r in rs && Writer(passes, r) == Some(i)
  }

  /** Pass j consumes what pass i produces. */
  predicate Dep(passes: seq<Pass>, i: nat, j: nat)
  {
    j < |passes| && ReadsFrom(passes, passes[j].inputs, i)
  }

  /** The consumers of pass i among the first k passes. */
  function Consumers(passes: seq<Pass>, i: nat, k: nat): (r: seq<nat>)
    requires k <= |passes|
    ensures forall j: nat :: j in r <==> j < k && Dep(passes, i, j)
  {
    if k == 0 then []
    else Consumers(passes, i, k - 1) + (if Dep(passes, i, k - 1) then [k - 1] else [])
  }

  /** The producer-to-consumer graph, self-reads included. */
  ghost function PassGraph(passes: seq<Pass>): (g: Graphs.Graph<nat>)
    ensures forall i: nat, j: nat :: Edge(g, i, j) <==> Dep(passes, i, j)
    ensures forall i: nat, j: nat :: Edge(g, i, j) ==>
      j < |passes| && exists r :: r in passes[j].inputs && Writer(passes, r) == Some(i)
    ensures forall j, r :: 0 <= j < |passes| && r in passes[j].inputs && Writer(passes, r).Some? ==>
      Edge(g, Writer(passes, r).value, j)
  {
    var g: Graphs.Graph<nat> := map i | i in Below(|passes|) :: Consumers(passes, i, |passes|);
    forall i: nat, j: nat
      ensures Edge(g, i, j) <==> Dep(passes, i, j)
    {
      if Dep(passes, i, j) {
        var r :| r in passes[j].inputs && Writer(passes, r) == Some(i);
      }
    }
    g
  }

  /** `producers` holds each written resource's writer. */
  ghost predicate Names(passes: seq<Pass>, producers: map<RID, nat>)
  {
    && (forall r :: r in producers <==> Writer(passes, r).Some?)
    && (forall r :: r in producers ==> Writer(passes, r) == Some(producers[r]))
  }

  method FindProducers(passes: seq<Pass>) returns (producers: map<RID, nat>)
    ensures Names(passes, producers)
  {
    producers := map[];
    for i := 0 to |passes|
      invariant forall r :: r in producers <==> Producer(passes, i, r).Some?
      invariant forall r :: r in producers ==> Producer(passes, i, r) == Some(producers[r])
    {
      ghost var before := producers;
      var outs := passes[i].outputs;
      for m := 0 to |outs|
        invariant forall r :: r in producers <==> r in before || (r in outs[..m] && !IsNil(r))
        invariant forall r :: r in producers ==> producers[r] == if r in outs[..m] && !IsNil(r) then i else before[r]
      {
        assert outs[..m + 1] == outs[..m] + [outs[m]];
        if !IsNil(outs[m]) {
          producers := producers[outs[m] := i];
        }
      }
      assert outs[..|outs|] == outs;
    }
  }

  /** The edges found once the passes before j, and the first inputs `rs` of pass j, have
      been looked at. */
  ghost predicate Found(passes: seq<Pass>, es: Edges, j: nat, rs: seq<RID>)
  {
    forall i: nat, k: nat :: (i, k) in es <==> (k < j && Dep(passes, i, k)) || (k == j && ReadsFrom(passes, rs, i))
  }

  /** The adjacency lists and counts agree with the edges found. */
  ghost predicate Tallied(es: Edges, n: nat, adj: seq<seq<nat>>, indeg: seq<nat>, j: nat)
  {
    && Lists(adj, es, n) && |indeg| == n
    && (forall v :: 0 <= v < n ==> indeg[v] == |In(es, v)|)
    && (forall e :: e in es ==> e.0 < n && e.1 <= j && e.0 != e.1)
  }

  lemma FoundAll(passes: seq<Pass>, es: Edges, j: nat)
    requires j < |passes| && Found(passes, es, j, passes[j].inputs)
    ensures Found(passes, es, j + 1, [])
  {
  }

  lemma FoundNext(passes: seq<Pass>, es: Edges, j: nat, rs: seq<RID>, r: RID)
    requires Found(passes, es, j, rs) && Writer(passes, r).Some?
    ensures Found(passes, es + {(Writer(passes, r).value, j)}, j, rs + [r])
  {
    forall i: nat
      ensures ReadsFrom(passes, rs + [r], i) <==> ReadsFrom(passes, rs, i) || Writer(passes, r) == Some(i)
    {
      if Writer(passes, r) == Some(i) {
        assert r in rs + [r];
      }
      if ReadsFrom(passes, rs, i) {
        var x :| x in rs && Writer(passes, x) == Some(i);
        assert x in rs + [r];
      }
    }
  }

  lemma FoundSame(passes: seq<Pass>, es: Edges, j: nat, rs: seq<RID>, r: RID)
    requires Found(passes, es, j, rs) && Writer(passes, r).None?
    ensures Found(passes, es, j, rs + [r])
  {
    forall i: nat
      ensures ReadsFrom(passes, rs + [r], i) <==> ReadsFrom(passes, rs, i)
    {
      if ReadsFrom(passes, rs, i) {
        var x :| x in rs && Writer(passes, x) == Some(i);
        assert x in rs + [r];
      }
    }
  }

  lemma InGrows(es: Edges, i: nat, j: nat, v: nat)
    requires (i, j) !in es
    ensures |In(es + {(i, j)}, v)| == |In(es, v)| + (if v == j then 1 else 0)
  {
    if v == j {
      assert In(es + {(i, j)}, v) == In(es, v) + {(i, j)};
      assert (i, j) !in In(es, v);
    } else {
      assert In(es + {(i, j)}, v) == In(es, v);
    }
  }

  lemma ListsGrow(es: Edges, n: nat, adj: seq<seq<nat>>, i: nat, j: nat)
    requires Lists(adj, es, n) && i < n && j < n && (i, j) !in es
    requires forall e :: e in es ==> e.0 < n && e.1 <= j
    ensures Lists(adj[i := adj[i] + [j]], es + {(i, j)}, n)
  {
    var es', adj' := es + {(i, j)}, adj[i := adj[i] + [j]];
    forall k | 0 <= k < |adj[i]| ensures adj[i][k] < j {
      assert adj[i][k] in adj[i];
      assert (i, adj[i][k]) in es;
    }
    forall k, v: nat | 0 <= k < n
      ensures v in adj'[k] <==> (k, v) in es'
    {
      assert v in adj[k] <==> (k, v) in es;
    }
  }

  lemma AddEdge(es: Edges, n: nat, adj: seq<seq<nat>>, indeg: seq<nat>, i: nat, j: nat)
    requires Tallied(es, n, adj, indeg, j) && i < n && j < n && i != j && (i, j) !in es
    ensures Tallied(es + {(i, j)}, n, adj[i := adj[i] + [j]], indeg[j := indeg[j] + 1], j)
  {
    ListsGrow(es, n, adj, i, j);
    forall v | 0 <= v < n
      ensures |In(es + {(i, j)}, v)| == indeg[j := indeg[j] + 1][v]
    {
      InGrows(es, i, j, v);
    }
  }

  /** The edges into pass j, unless it reads its own output. */
  method PassEdges(passes: seq<Pass>, producers: map<RID, nat>, j: nat, seen0: Edges, adj0: seq<seq<nat>>,
                   indeg0: seq<nat>)
    returns (selfRead: bool, seen: Edges, adj: seq<seq<nat>>, indeg: seq<nat>)
    requires Names(passes, producers)
    requires j < |passes| && Found(passes, seen0, j, []) && Tallied(seen0, |passes|, adj0, indeg0, j)
    ensures selfRead ==> Dep(passes, j, j)
    ensures !selfRead ==> Found(passes, seen, j, passes[j].inputs) && Tallied(seen, |passes|, adj, indeg, j)
  {
    var ins := passes[j].inputs;
    seen, adj, indeg := seen0, adj0, indeg0;
    for m := 0 to |ins|
      invariant Found(passes, seen, j, ins[..m]) && Tallied(seen, |passes|, adj, indeg, j)
    {
      assert ins[..m + 1] == ins[..m] + [ins[m]];
      if ins[m] in producers {
        var pi := producers[ins[m]];
        if pi == j {
          assert ReadsFrom(passes, ins, j);
          return true, seen, adj, indeg;
        }
        FoundNext(passes, seen, j, ins[..m], ins[m]);
        if (pi, j) in seen {
          assert seen + {(pi, j)} == seen;
        } else {
          AddEdge(seen, |passes|, adj, indeg, pi, j);
          adj := adj[pi := adj[pi] + [j]];
          indeg := indeg[j := indeg[j] + 1];
          seen := seen + {(pi, j)};
        }
      } else {
        FoundSame(passes, seen, j, ins[..m], ins[m]);
      }
    }
    assert ins[..|ins|] == ins;
    selfRead := false;
  }

  /** Either the first pass that reads its own output, or every edge, each once. The
      lists come out in ascending order, so sorting them changes nothing. */
  method FindEdges(passes: seq<Pass>, producers: map<RID, nat>)
    returns (selfRead: Option<nat>, adj: seq<seq<nat>>, indeg: seq<nat>, ghost es: Edges)
    requires Names(passes, producers)
    ensures selfRead.Some? ==>
      Dep(passes, selfRead.value, selfRead.value) && forall i: nat :: i < selfRead.value ==> !Dep(passes, i, i)
    ensures selfRead.None? ==>
      && Lists(adj, es, |passes|) && Within(es, |passes|) && |indeg| == |passes|
      && (forall v :: 0 <= v < |passes| ==> indeg[v] == |In(es, v)|)
      && (forall i: nat, k: nat :: (i, k) in es <==> Dep(passes, i, k))
      && (forall e :: e in es ==> e.0 != e.1)
  {
    var n := |passes|;
    var seen: Edges := {};
    adj, indeg, es, selfRead := seq(n, _ => []), seq(n, _ => 0), {}, None;
    for j := 0 to n
      invariant Found(passes, seen, j, []) && Tallied(seen, n, adj, indeg, j) && selfRead.None?
    {
      var own;
      ghost var before := seen;
      own, seen, adj, indeg := PassEdges(passes, producers, j, seen, adj, indeg);
      if own {
        forall i: nat | i < j ensures !Dep(passes, i, i) {
          assert (i, i) !in before;
        }
        return Some(j), adj, indeg, seen;
      }
      FoundAll(passes, seen, j);
    }
    es := seen;
  }

  // ----- barriers -----

  /** The barriers of inputs `rs` of pass j, in input order. */
  function InputBarriers(passes: seq<Pass>, pos: seq<nat>, j: nat, rs: seq<RID>): (bs: seq<Barrier>)
    requires |pos| == |passes| && j < |passes|
  {
    if rs == [] then []
    else
      var before := InputBarriers(passes, pos, j, rs[..|rs| - 1]);
      var r := rs[|rs| - 1];
      var w := Writer(passes, r);
      if w.Some? && w.value != j then before + [Barrier(r, pos[w.value], pos[j])] else before
  }

  /** One barrier for every input of every pass that another pass writes. */
  function AllBarriers(passes: seq<Pass>, pos: seq<nat>, k: nat): seq<Barrier>
    requires |pos| == |passes| && k <= |passes|
  {
    if k == 0 then [] else AllBarriers(passes, pos, k - 1) + InputBarriers(passes, pos, k - 1, passes[k - 1].inputs)
  }

  /** Pass j takes b's resource over, at b's positions, from the other pass that writes it. */
  predicate HandsOver(passes: seq<Pass>, pos: seq<nat>, j: nat, b: Barrier)
    requires |pos| == |passes| && j < |passes|
  {
    var w := Writer(passes, b.resource);
    w.Some? && w.value != j && b.from == pos[w.value] && b.dest == pos[j]
  }

  lemma {:induction false} InputBarriersCount(passes: seq<Pass>, pos: seq<nat>, j: nat, rs: seq<RID>, b: Barrier)
    requires |pos| == |passes| && j < |passes|
    ensures multiset(InputBarriers(passes, pos, j, rs))[b] ==
      if HandsOver(passes, pos, j, b) then multiset(rs)[b.resource] else 0
  {
    if rs != [] {
      var front, r := rs[..|rs| - 1], rs[|rs| - 1];
      InputBarriersCount(passes, pos, j, front, b);
      assert rs == front + [r];
    }
  }

  /** How often the pass in position b.dest reads b's resource, if the pass in another
      position, b.from, is the one that writes it. */
  function Occurrences(passes: seq<Pass>, order: seq<nat>, b: Barrier): nat
    requires |order| == |passes| && b.from < |order| && b.dest < |order| && order[b.dest] < |passes|
  {
    if Writer(passes, b.resource) == Some(order[b.from]) && b.from != b.dest
    then multiset(passes[order[b.dest]].inputs)[b.resource] else 0
  }

  /** There is a barrier for each such reading, and no other. */
  ghost predicate Barred(passes: seq<Pass>, order: seq<nat>, bs: seq<Barrier>)
    requires |order| == |passes| && forall i :: 0 <= i < |order| ==> order[i] < |passes|
  {
    && (forall b :: b in bs ==> b.from < b.dest < |order|)
    && forall b: Barrier {:trigger multiset(bs)[b]} :: b.from < |order| && b.dest < |order| ==>
         multiset(bs)[b] == Occurrences(passes, order, b)
  }

  lemma HandsOverAt(passes: seq<Pass>, order: seq<nat>, pos: seq<nat>, j: nat, b: Barrier)
    requires |pos| == |passes| == |order| && j < |passes| && b.from < |order| && b.dest < |order|
    requires forall i :: 0 <= i < |passes| ==> pos[i] < |passes| && order[pos[i]] == i
    requires forall i :: 0 <= i < |order| ==> order[i] < |passes| && pos[order[i]] == i
    ensures HandsOver(passes, pos, j, b) <==>
      order[b.dest] == j && Writer(passes, b.resource) == Some(order[b.from]) && b.from != b.dest
  {
    assert pos[order[b.dest]] == b.dest && pos[order[b.from]] == b.from && order[pos[j]] == j;
    var w := Writer(passes, b.resource);
    if w.Some? {
      assert order[pos[w.value]] == w.value;
    }
  }

  /** How many barriers equal b there are: as many as b's resource occurs among the inputs of
      the pass at b's later position, if the pass at the earlier one writes it. */
  lemma {:induction false} BarriersCount(passes: seq<Pass>, order: seq<nat>, pos: seq<nat>, k: nat, b: Barrier)
    requires |pos| == |passes| == |order| && k <= |passes| && b.from < |order| && b.dest < |order|
    requires forall i :: 0 <= i < |passes| ==> pos[i] < |passes| && order[pos[i]] == i
    requires forall i :: 0 <= i < |order| ==> order[i] < |passes| && pos[order[i]] == i
    ensures multiset(AllBarriers(passes, pos, k))[b] == if order[b.dest] < k then Occurrences(passes, order, b) else 0
  {
    if k > 0 {
      BarriersCount(passes, order, pos, k - 1, b);
      InputBarriersCount(passes, pos, k - 1, passes[k - 1].inputs, b);
      HandsOverAt(passes, order, pos, k - 1, b);
    }
  }

  method RawBarriers(passes: seq<Pass>, producers: map<RID, nat>, pos: seq<nat>) returns (raw: seq<Barrier>)
    requires |pos| == |passes|
    requires Names(passes, producers)
    ensures raw == AllBarriers(passes, pos, |passes|)
  {
    raw := [];
    for j := 0 to |passes|
      invariant raw == AllBarriers(passes, pos, j)
    {
      ghost var before := raw;
      var ins := passes[j].inputs;
      for m := 0 to |ins|
        invariant raw == before + InputBarriers(passes, pos, j, ins[..m])
      {
        assert ins[..m + 1][..m] == ins[..m];
        if ins[m] in producers && producers[ins[m]] != j {
          raw := raw + [Barrier(ins[m], pos[producers[ins[m]]], pos[j])];
        }
      }
      assert ins[..|ins|] == ins;
    }
  }

  /** The order barriers are sorted by. */
  predicate BarrierBefore(a: Barrier, b: Barrier)
  {
    if a.from != b.from then a.from < b.from
    else if a.dest != b.dest then a.dest < b.dest
    else a.resource < b.resource
  }

  predicate BarriersSorted(bs: seq<Barrier>)
  {
    forall i, j :: 0 <= i < j < |bs| ==> !BarrierBefore(bs[j], bs[i])
  }

  lemma InsertBarrier(bs: seq<Barrier>, b: Barrier, at: nat)
    requires BarriersSorted(bs) && at <= |bs| && (forall j :: at <= j < |bs| ==> BarrierBefore(b, bs[j]))
    requires at > 0 ==> !BarrierBefore(b, bs[at - 1])
    ensures BarriersSorted(bs[..at] + [b] + bs[at..])
    ensures multiset(bs[..at] + [b] + bs[at..]) == multiset(bs) + multiset{b}
  {
    assert bs == bs[..at] + bs[at..];
    var w := bs[..at] + [b] + bs[at..];
    forall i, j | 0 <= i < j < |w|
      ensures !BarrierBefore(w[j], w[i])
    {
      if j == at && i < at - 1 {
        assert !BarrierBefore(bs[at - 1], bs[i]);
      }
    }
  }

  method SortBarriers(raw: seq<Barrier>) returns (bs: seq<Barrier>)
    ensures BarriersSorted(bs) && multiset(bs) == multiset(raw)
  {
    bs := [];
    for n := 0 to |raw|
      invariant BarriersSorted(bs) && multiset(bs) == multiset(raw[..n])
    {
      assert raw[..n + 1] == raw[..n] + [raw[n]];
      var at := |bs|;
      while at > 0 && BarrierBefore(raw[n], bs[at - 1])
        invariant 0 <= at <= |bs|
        invariant forall j :: at <= j < |bs| ==> BarrierBefore(raw[n], bs[j])
      {
        at := at - 1;
      }
      InsertBarrier(bs, raw[n], at);
      bs := bs[..at] + [raw[n]] + bs[at..];
    }
    assert raw[..|raw|] == raw;
  }

  lemma {:induction false} BarriersForward(passes: seq<Pass>, order: seq<nat>, pos: seq<nat>, es: Edges, k: nat)
    requires |pos| == |passes| && k <= |passes| && Topological(es, |passes|, order)
    requires forall i :: 0 <= i < |passes| ==> pos[i] < |passes| && order[pos[i]] == i
    requires forall i: nat, j: nat :: Dep(passes, i, j) ==> (i, j) in es
    ensures forall b :: b in AllBarriers(passes, pos, k) ==> b.from < b.dest < |passes|
  {
    if k > 0 {
      BarriersForward(passes, order, pos, es, k - 1);
      var j := k - 1;
      forall b | b in InputBarriers(passes, pos, j, passes[j].inputs)
        ensures b.from < b.dest < |passes|
      {
        InputBarriersCount(passes, pos, j, passes[j].inputs, b);
        assert b in multiset(InputBarriers(passes, pos, j, passes[j].inputs));
        var i := Writer(passes, b.resource).value;
        assert ReadsFrom(passes, passes[j].inputs, i);
        assert Dep(passes, i, j);
        assert (order[pos[i]], order[pos[j]]) in es;
      }
    }
  }

  /** The barriers between the positions of a topological order, sorted. */
  method PlaceBarriers(passes: seq<Pass>, producers: map<RID, nat>, order: seq<nat>, ghost es: Edges)
    returns (bs: seq<Barrier>)
    requires Names(passes, producers) && Topological(es, |passes|, order)
    requires forall i: nat, j: nat :: Dep(passes, i, j) ==> (i, j) in es
    ensures BarriersSorted(bs) && Barred(passes, order, bs)
  {
    var pos := Invert(order, |passes|);
    var raw := RawBarriers(passes, producers, pos);
    bs := SortBarriers(raw);
    BarriersForward(passes, order, pos, es, |passes|);
    forall b | b in bs ensures b.from < b.dest < |passes| {
      assert b in multiset(raw);
    }
    forall b: Barrier {:trigger multiset(bs)[b]} | b.from < |order| && b.dest < |order|
      ensures multiset(bs)[b] == Occurrences(passes, order, b)
    {
      BarriersCount(passes, order, pos, |passes|, b);
    }
  }

  // ----- the graph -----

  /** What Build returns; a cycle error lists passes, which the message names. */
  datatype BuildResult = Built | Cycle(at: seq<nat>)

  ghost predicate OnCycle(passes: seq<Pass>, v: nat)
  {
    Reaches(PassGraph(passes), v, v)
  }

  /** Pass v lies on a cycle or downstream of one. */
  ghost predicate Entangled(passes: seq<Pass>, v: nat)
  {
    exists c: nat :: OnCycle(passes, c) && (c == v || Reaches(PassGraph(passes), c, v))
  }

  /** Pass c lies on a cycle and hands a resource to pass v, which lies on none. */
  ghost predicate Leaks(passes: seq<Pass>, c: nat, v: nat)
  {
    OnCycle(passes, c) && Dep(passes, c, v) && !OnCycle(passes, v)
  }

  /** Every pass comes after the passes it consumes from. */
  ghost predicate Respects(passes: seq<Pass>, t: seq<nat>)
  {
    forall i, j :: 0 <= i < |t| && 0 <= j < |t| && Dep(passes, t[i], t[j]) ==> i < j
  }

  lemma StuckIffOpen(es: Edges, n: nat, order: seq<nat>, v: nat)
    requires v < n && Placed(es, n, order) && !Available(es, n, order, v)
    ensures In(Open(es, order), v) != {} <==> v !in order
  {
    if v in order {
      var k :| 0 <= k < |order| && order[k] == v;
      assert Available(es, n, order[..k], order[k]);
      forall e | e in es && e.1 == v ensures e.0 in order {
        assert e.0 in order[..k];
      }
    } else {
      var e :| e in es && e.1 == v && e.0 !in order;
      assert e in In(Open(es, order), v);
    }
  }

  /** The passes still waiting for a producer, in ascending order. */
  method Unplaced(n: nat, indeg: seq<nat>, ghost order: seq<nat>, ghost es: Edges) returns (stuck: seq<nat>)
    requires |indeg| == n && Placed(es, n, order) && forall v: nat :: !Available(es, n, order, v)
    requires forall v :: 0 <= v < n ==> indeg[v] == |In(Open(es, order), v)|
    ensures SortedStrictly(stuck) && forall v: nat :: v in stuck <==> v < n && v !in order
  {
    stuck := [];
    for i := 0 to n
      invariant SortedStrictly(stuck) && forall v: nat :: v in stuck <==> v < i && v !in order
    {
      StuckIffOpen(es, n, order, i);
      assert indeg[i] > 0 <==> In(Open(es, order), i) != {};
      if indeg[i] > 0 {
        assert forall k :: 0 <= k < |stuck| ==> stuck[k] in stuck;
        stuck := stuck + [i];
      }
    }
  }

  lemma StuckAreEntangled(passes: seq<Pass>, es: Edges, order: seq<nat>, stuck: seq<nat>)
    requires Within(es, |passes|) && Placed(es, |passes|, order) && forall v: nat :: !Available(es, |passes|, order, v)
    requires forall i: nat, j: nat :: (i, j) in es <==> Dep(passes, i, j)
    requires forall v: nat :: v in stuck <==> v < |passes| && v !in order
    ensures forall v: nat :: v in stuck <==> v < |passes| && Entangled(passes, v)
  {
    var g := PassGraph(passes);
    forall v: nat | v < |passes|
      ensures v in stuck <==> Entangled(passes, v)
    {
      if v in order {
        forall c: nat | c == v || Reaches(g, c, v) ensures !Reaches(g, c, c) {
          PlacedOffCycles(g, es, |passes|, order, c, v);
        }
      } else {
        var c := LeftOverIsDownstream(g, es, |passes|, order, v);
      }
    }
  }

  /** The build up to its barriers: the order, or the passes that keep it from being one. */
  method OrderPasses(passes: seq<Pass>, producers: map<RID, nat>)
    returns (r: BuildResult, order: seq<nat>, ghost es: Edges)
    requires Names(passes, producers)
    ensures r.Built? <==> Acyclic(PassGraph(passes))
    ensures r.Built? ==> Topological(es, |passes|, order) && forall i: nat, j: nat :: Dep(passes, i, j) ==> (i, j) in es
    ensures r.Built? ==> forall t :: Permutation(t, |passes|) && Respects(passes, t) ==> LexLeq(order, t)
    ensures r.Cycle? ==>
      || (exists j: nat :: Dep(passes, j, j) && (forall i: nat :: i < j ==> !Dep(passes, i, i)) && r.at == [j])
      || ((forall j: nat :: !Dep(passes, j, j)) && SortedStrictly(r.at) &&
          forall v: nat :: v in r.at <==> v < |passes| && Entangled(passes, v))
  {
    var n := |passes|;
    var selfRead, adj, indeg;
    selfRead, adj, indeg, es := FindEdges(passes, producers);
    if selfRead.Some? {
      EdgeReaches(PassGraph(passes), selfRead.value, selfRead.value);
      return Cycle([selfRead.value]), [], es;
    }
    var left;
    order, left := Kahn(n, adj, indeg, es);
    AllPlacedIffAcyclic(PassGraph(passes), es, n, order);
    if |order| != n {
      var stuck := Unplaced(n, left, order, es);
      StuckAreEntangled(passes, es, order, stuck);
      return Cycle(stuck), [], es;
    }
    PlacedIsTopological(es, n, order);
    forall t | Permutation(t, n) && Respects(passes, t) ensures LexLeq(order, t) {
      LeastIsLexLeast(es, n, order, t);
    }
    r := Built;
  }

  class RenderGraph {
    var passes: seq<Pass>
    var order: seq<nat>
    var barriers: seq<Barrier>
    var built: bool

    /** What a built graph has. */
    ghost predicate Valid()
      reads this
    {
      built ==>
        && Acyclic(PassGraph(passes)) && Permutation(order, |passes|)
        && (forall i, j :: 0 <= i < |order| && 0 <= j < |order| && Dep(passes, order[i], order[j]) ==> i < j)
        && (forall b :: b in barriers ==> b.from < b.dest < |order|)
    }

    constructor ()
      ensures Valid() && !built && passes == []
    {
      passes, order, barriers, built := [], [], [], false;
    }

    method AddPass(p: Pass)
      modifies this
      ensures Valid() && !built && passes == old(passes) + [p]
    {
      passes := passes + [p];
      built := false;
    }

    /** Build without a resource tracker. It succeeds exactly on acyclic graphs. The order
        is then the lexicographically least topological one, with one barrier for every
        input another pass writes, each going forward. Otherwise the graph is left
        unbuilt and the error lists a pass that reads its own output or, when there is
        none, exactly the passes on a cycle or downstream of one. */
    method Build() returns (r: BuildResult)
      modifies this
      ensures Valid() && passes == old(passes) && built == r.Built?
      ensures r.Built? <==> Acyclic(PassGraph(passes))
      ensures r.Built? ==> forall t :: Permutation(t, |passes|) && Respects(passes, t) ==> LexLeq(order, t)
      ensures r.Built? ==> forall b: Barrier {:trigger multiset(barriers)[b]} ::
        b.from < |passes| && b.dest < |passes| ==>
        multiset(barriers)[b] ==
          if Writer(passes, b.resource) == Some(order[b.from]) && b.from != b.dest
          then multiset(passes[order[b.dest]].inputs)[b.resource] else 0
      ensures r.Built? ==> forall b :: b in barriers ==> b.from < b.dest < |passes|
      ensures r.Built? ==> forall i, k {:trigger barriers[i], barriers[k]} :: 0 <= i < k < |barriers| ==>
        var a, b := barriers[i], barriers[k];
        a.from < b.from || (a.from == b.from && (a.dest < b.dest || (a.dest == b.dest && a.resource <= b.resource)))
      ensures r.Cycle? ==>
        || (exists j: nat :: Dep(passes, j, j) && (forall i: nat :: i < j ==> !Dep(passes, i, i)) && r.at == [j])
        || ((forall j: nat :: !Dep(passes, j, j)) && (forall i, k :: 0 <= i < k < |r.at| ==> r.at[i] < r.at[k]) &&
            forall v: nat :: v in r.at <==> v < |passes| && Entangled(passes, v))
    {
      built := false;
      var producers := FindProducers(passes);
      var sorted;
      ghost var es;
      r, sorted, es := OrderPasses(passes, producers);
      if r.Built? {
        var bs := PlaceBarriers(passes, producers, sorted, es);
        order, barriers, built := sorted, bs, true;
      }
    }

    /** Execute walks the built order; the result is the passes run, in order. */
    method Execute() returns (ran: Option<seq<nat>>)
      requires Valid()
      ensures ran == if built then Some(order) else None
      ensures ran.Some? ==> Permutation(ran.value, |passes|)
    {
      if !built {
        return None;
      }
      var done: seq<nat> := [];
      for i := 0 to |order|
        invariant done == order[..i]
      {
        done := done + [order[i]];
      }
      assert order[..|order|] == order;
      return Some(done);
    }
  }

  lemma CycleInside(passes: seq<Pass>, c: nat)
    requires OnCycle(passes, c)
    ensures c < |passes|
  {
    var v := ReachesFirst(PassGraph(passes), c, c);
    assert Dep(passes, c, v);
  }

  /** Every pass the error lists is on a cycle exactly when no pass on a cycle produces
      something for a pass on none. */
  lemma NamedOnCyclesIff(passes: seq<Pass>, named: seq<nat>)
    requires forall v: nat :: v in named <==> v < |passes| && Entangled(passes, v)
    ensures (forall v :: v in named ==> OnCycle(passes, v)) <==> forall c: nat, v: nat :: !Leaks(passes, c, v)
  {
    var g := PassGraph(passes);
    if c: nat, v: nat :| Leaks(passes, c, v) {
      assert Edge(g, c, v);
      EdgeReaches(g, c, v);
      assert v in named;
    } else {
      var cyclic := set v: nat | v < |passes| && OnCycle(passes, v);
      forall a: nat, b: nat | a in cyclic && Edge(g, a, b) ensures b in cyclic {
        assert Dep(passes, a, b) && !Leaks(passes, a, b);
      }
      forall v | v in named ensures OnCycle(passes, v) {
        var c: nat :| OnCycle(passes, c) && (c == v || Reaches(g, c, v));
        CycleInside(passes, c);
        if c != v {
          ClosedReaches(g, cyclic, c, v);
        }
      }
    }
  }

  /** Two passes that need each other, and one that only reads from the first. */
  function Trio(): seq<Pass>
  {
    [Pass("a", [KIND_UNIT + 1], [KIND_UNIT]), Pass("b", [KIND_UNIT], [KIND_UNIT + 1]), Pass("c", [KIND_UNIT], [])]
  }

  lemma TrioDeps(i: nat, j: nat)
    ensures Dep(Trio(), i, j) <==> (i == 0 && j == 1) || (i == 1 && j == 0) || (i == 0 && j == 2)
  {
    var passes := Trio();
    assert Producer(passes, 1, KIND_UNIT) == Some(0) && Producer(passes, 2, KIND_UNIT) == Some(0) &&
      Writer(passes, KIND_UNIT) == Some(0);
    assert Producer(passes, 2, KIND_UNIT + 1) == Some(1) && Writer(passes, KIND_UNIT + 1) == Some(1);
    if j < 3 {
      assert passes[j].inputs[0] in passes[j].inputs;
    }
  }

  /** So the error can name a pass that is on no cycle: pass 2 here. */
  lemma NamesABystander()
    ensures forall j: nat :: !Dep(Trio(), j, j)
    ensures Leaks(Trio(), 0, 2) && Entangled(Trio(), 2) && !OnCycle(Trio(), 2)
  {
    var g := PassGraph(Trio());
    forall i: nat, j: nat ensures Edge(g, i, j) <==> (i == 0 && j == 1) || (i == 1 && j == 0) || (i == 0 && j == 2) {
      TrioDeps(i, j);
    }
    forall j: nat ensures !Dep(Trio(), j, j) {
      TrioDeps(j, j);
    }
    EdgeReaches(g, 0, 1);
    EdgeReaches(g, 1, 0);
    EdgeReaches(g, 0, 2);
    ReachesTransits(g, 0, 1, 0);
    if Reaches(g, 2, 2) {
      var j := ReachesFirst(g, 2, 2);
      assert false;
    }
  }
}
