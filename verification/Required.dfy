/** Required components: what a type requires, directly or not, and lists of it in
    leaves-first order over a table of registered types that grows. */
module Required {
  import opened Graphs
  import opened Options

  /** A Go type's identity, and a component's ID; ID 0 is the invalid sentinel. */
  type Type = nat

  type ID = nat

  /** What the types of the program declare: for a type that implements the
      RequiredComponents interface, the types of the values it returns, None for a nil
      value. */
  type Declared = map<Type, seq<Option<Type>>>

  datatype Info = Info(ty: Option<Type>, name: string, requiredBy: seq<ID>)

  /** Registration returns an ID or panics. */
  datatype Outcome = Registered(id: ID) | NilType | NilValue(owner: Type) | NameBound(name: string) | Circular(at: Type)

  function NonNil(s: seq<Option<Type>>): (r: seq<Type>)
    ensures forall t :: t in r <==> Some(t) in s
  {
    if s == [] then []
    else (if s[0].Some? then [s[0].value] else []) + NonNil(s[1..])
  }

  /** Which type requires which. */
  function Needs(decl: Declared): (g: Graph<Type>)
    ensures forall a: Type, b: Type :: Edge(g, a, b) <==> a in decl && Some(b) in decl[a]
  {
    map t | t in decl :: NonNil(decl[t])
  }

  ghost predicate CycleBelow(decl: Declared, t: Type)
  {
    exists c :: Reaches(Needs(decl), c, c) && (c == t || Reaches(Needs(decl), t, c))
  }

  ghost predicate NilBelow(decl: Declared, t: Type)
  {
    exists c :: c in decl && None in decl[c] && (c == t || Reaches(Needs(decl), t, c))
  }

  /** The type u has an ID, and it is listed. */
  predicate Has(ids: map<Type, ID>, list: seq<ID>, u: Type)
  {
    u in ids && ids[u] in list
  }

  ghost predicate Injective(ids: map<Type, ID>)
  {
    forall a, b :: a in ids && b in ids && ids[a] == ids[b] ==> a == b
  }

  ghost predicate Above(decl: Declared, ids: map<Type, ID>, list: seq<ID>, v: Type)
  {
    forall u :: Reaches(Needs(decl), v, u) ==> Has(ids, list, u)
  }

  /** Each listed type comes after everything it requires, directly or not. */
  ghost predicate LeavesFirst(decl: Declared, ids: map<Type, ID>, list: seq<ID>)
  {
    forall k, v :: 0 <= k < |list| && v in ids && ids[v] == list[k] ==> Above(decl, ids, list[..k], v)
  }

  /** A duplicate-free list of IDs of registered types, leaves first. */
  ghost predicate Ordered(decl: Declared, ids: map<Type, ID>, list: seq<ID>)
  {
    && (forall i, j :: 0 <= i < j < |list| ==> list[i] != list[j])
    && (forall x :: x in list ==> x in ids.Values)
    && LeavesFirst(decl, ids, list)
  }

  /** The listed types are exactly those t requires, directly or not. */
  ghost predicate Covers(decl: Declared, ids: map<Type, ID>, list: seq<ID>, t: Type)
  {
    forall u :: Reaches(Needs(decl), t, u) <==> Has(ids, list, u)
  }

  ghost predicate Extends(ids: map<Type, ID>, more: map<Type, ID>)
  {
    forall u :: u in ids ==> u in more && more[u] == ids[u]
  }

  lemma ListedStays(ids: map<Type, ID>, more: map<Type, ID>, list: seq<ID>)
    requires Extends(ids, more) && Injective(more)
    requires forall x :: x in list ==> x in ids.Values
    ensures forall u :: Has(more, list, u) <==> Has(ids, list, u)
  {
    forall u | Has(more, list, u)
      ensures Has(ids, list, u)
    {
      var v :| v in ids && ids[v] == more[u];
    }
  }

  lemma OrderedStays(decl: Declared, ids: map<Type, ID>, more: map<Type, ID>, list: seq<ID>)
    requires Extends(ids, more) && Injective(more) && Ordered(decl, ids, list)
    ensures Ordered(decl, more, list)
  {
    forall x | x in list ensures x in more.Values {
      var v :| v in ids && ids[v] == x;
      assert more[v] == x;
    }
    forall k, v | 0 <= k < |list| && v in more && more[v] == list[k]
      ensures Above(decl, more, list[..k], v)
    {
      assert list[k] in ids.Values;
      var w :| w in ids && ids[w] == list[k];
      assert w == v;
      assert Above(decl, ids, list[..k], v);
      ListedStays(ids, more, list[..k]);
    }
  }

  lemma CoversStays(decl: Declared, ids: map<Type, ID>, more: map<Type, ID>, list: seq<ID>, t: Type)
    requires Extends(ids, more) && Injective(more) && Covers(decl, ids, list, t)
    requires forall x :: x in list ==> x in ids.Values
    ensures Covers(decl, more, list, t)
  {
    ListedStays(ids, more, list);
  }

  lemma OrderedAppend(decl: Declared, ids: map<Type, ID>, list: seq<ID>, v: Type)
    requires Ordered(decl, ids, list) && Injective(ids) && v in ids && ids[v] !in list
    requires Above(decl, ids, list, v)
    ensures Ordered(decl, ids, list + [ids[v]])
  {
    var more := list + [ids[v]];
    assert ids[v] in ids.Values;
    forall k, w | 0 <= k < |more| && w in ids && ids[w] == more[k]
      ensures Above(decl, ids, more[..k], w)
    {
      if k < |list| {
        assert more[..k] == list[..k];
        assert Above(decl, ids, list[..k], w);
      } else {
        assert more[..k] == list;
      }
    }
  }

  /** The inner loop of resolveRequired: first the dependency's own list, then the
      dependency, each unless already there. */
  method Emit(out0: seq<ID>, list: seq<ID>, depID: ID, ghost decl: Declared, ghost ids: map<Type, ID>, ghost dep: Type)
    returns (out: seq<ID>)
    requires Injective(ids) && dep in ids && ids[dep] == depID
    requires Ordered(decl, ids, out0) && Ordered(decl, ids, list) && Covers(decl, ids, list, dep)
    ensures Ordered(decl, ids, out)
    ensures forall x :: x in out <==> x in out0 || x in list || x == depID
  {
    out := out0;
    for k := 0 to |list|
      invariant Ordered(decl, ids, out)
      invariant forall x :: x in out <==> x in out0 || x in list[..k]
    {
      assert list[..k + 1] == list[..k] + [list[k]];
      if list[k] !in out {
        assert list[k] in ids.Values;
        ghost var v :| v in ids && ids[v] == list[k];
        assert Above(decl, ids, list[..k], v);
        OrderedAppend(decl, ids, out, v);
        out := out + [list[k]];
      }
    }
    assert list[..|list|] == list;
    if depID !in out {
      OrderedAppend(decl, ids, out, dep);
      out := out + [depID];
    }
  }

  /** Everything the prefix of `deps` brings in. */
  ghost predicate Gathered(decl: Declared, ids: map<Type, ID>, deps: seq<Option<Type>>, out: seq<ID>)
  {
    forall u :: Has(ids, out, u) <==> exists d :: Some(d) in deps && (d == u || Reaches(Needs(decl), d, u))
  }

  lemma GatheredStays(decl: Declared, ids: map<Type, ID>, more: map<Type, ID>, deps: seq<Option<Type>>, out: seq<ID>)
    requires Extends(ids, more) && Injective(more) && Gathered(decl, ids, deps, out)
    requires forall x :: x in out ==> x in ids.Values
    ensures Gathered(decl, more, deps, out)
  {
    ListedStays(ids, more, out);
  }

  lemma GatheredNext(decl: Declared, ids: map<Type, ID>, deps: seq<Option<Type>>, out0: seq<ID>, list: seq<ID>,
                     d: Type, out: seq<ID>)
    requires Injective(ids) && d in ids && Covers(decl, ids, list, d) && Gathered(decl, ids, deps, out0)
    requires forall x :: x in out <==> x in out0 || x in list || x == ids[d]
    ensures Gathered(decl, ids, deps + [Some(d)], out)
  {
    var more := deps + [Some(d)];
    forall u
      ensures Has(ids, out, u) <==> exists e :: Some(e) in more && (e == u || Reaches(Needs(decl), e, u))
    {
      assert Has(ids, out, u) <==> Has(ids, out0, u) || Has(ids, list, u) || d == u;
      if Has(ids, out0, u) {
        var e :| Some(e) in deps && (e == u || Reaches(Needs(decl), e, u));
        assert Some(e) in more;
      }
      assert Some(d) in more;
    }
  }

  lemma GatheredCovers(decl: Declared, ids: map<Type, ID>, t: Type, out: seq<ID>)
    requires t in decl && Gathered(decl, ids, decl[t], out)
    ensures Covers(decl, ids, out, t)
  {
    var g := Needs(decl);
    forall u
      ensures Reaches(g, t, u) <==> Has(ids, out, u)
    {
      if Reaches(g, t, u) {
        var b := ReachesFirst(g, t, u);
        assert Some(b) in decl[t];
      } else if Has(ids, out, u) {
        var d :| Some(d) in decl[t] && (d == u || Reaches(g, d, u));
        EdgeReaches(g, t, d);
        if d != u {
          ReachesTransits(g, t, d, u);
        }
        assert false;
      }
    }
  }

  ghost predicate Sound(decl: Declared, t: Type)
  {
    !CycleBelow(decl, t) && !NilBelow(decl, t)
  }

  /** A type is sound when everything it declares is sound and is not the type itself. */
  lemma SoundAbove(decl: Declared, t: Type)
    requires t in decl && None !in decl[t]
    requires forall d :: Some(d) in decl[t] ==> d != t && Sound(decl, d)
    ensures Sound(decl, t)
  {
    var g := Needs(decl);
    if CycleBelow(decl, t) {
      var c :| Reaches(g, c, c) && (c == t || Reaches(g, t, c));
      var b := ReachesFirst(g, t, c);
    }
    if NilBelow(decl, t) {
      var c :| c in decl && None in decl[c] && (c == t || Reaches(g, t, c));
      var b := ReachesFirst(g, t, c);
    }
  }

  lemma LeafIsSound(decl: Declared, ids: map<Type, ID>, t: Type)
    requires t !in decl
    ensures Sound(decl, t) && Covers(decl, ids, [], t)
  {
    var g := Needs(decl);
    forall u ensures !Reaches(g, t, u) {
      if Reaches(g, t, u) {
        var b := ReachesFirst(g, t, u);
        assert false;
      }
    }
  }

  lemma BelowReaches(decl: Declared, t: Type, d: Type, c: Type)
    requires Edge(Needs(decl), t, d) && (c == d || Reaches(Needs(decl), d, c))
    ensures Reaches(Needs(decl), t, c)
  {
    var g := Needs(decl);
    EdgeReaches(g, t, d);
    if c != d {
      ReachesTransits(g, t, d, c);
    }
  }

  /** What lies below d lies below every type that declares d. */
  lemma Below(decl: Declared, t: Type, d: Type)
    requires Edge(Needs(decl), t, d)
    ensures CycleBelow(decl, d) ==> CycleBelow(decl, t)
    ensures NilBelow(decl, d) ==> NilBelow(decl, t)
  {
    if CycleBelow(decl, d) {
      var c :| Reaches(Needs(decl), c, c) && (c == d || Reaches(Needs(decl), d, c));
      BelowReaches(decl, t, d, c);
    }
    if NilBelow(decl, d) {
      var c :| c in decl && None in decl[c] && (c == d || Reaches(Needs(decl), d, c));
      BelowReaches(decl, t, d, c);
    }
  }

  /** Every type's position holds the type. */
  ghost predicate Owned(ids: map<Type, ID>, infos: seq<Info>)
  {
    forall t :: t in ids ==> 1 <= ids[t] < |infos| && infos[ids[t]].ty == Some(t)
  }

  predicate Bound(ids: map<Type, ID>, t: Type, id: ID)
  {
    t in ids && ids[t] == id
  }

  /** Types and names are bound to distinct positions, and every position but the
      sentinel's is bound. */
  ghost predicate Indexed(ids: map<Type, ID>, names: map<string, ID>, infos: seq<Info>)
  {
    && |infos| >= 1 && Owned(ids, infos)
    && (forall id: ID :: 1 <= id < |infos| ==> infos[id].ty.Some? && Bound(ids, infos[id].ty.value, id))
    && (forall s :: s in names ==> 1 <= names[s] < |infos| && infos[names[s]].name == s)
    && (forall id: ID :: 1 <= id < |infos| ==> infos[id].name in names)
  }

  lemma OwnedInjective(ids: map<Type, ID>, infos: seq<Info>)
    requires Owned(ids, infos)
    ensures Injective(ids)
  {
  }

  /** t is registered with a list of exactly the types it requires, leaves first, and
      nothing it requires is circular or nil. */
  ghost predicate Final(decl: Declared, ids: map<Type, ID>, infos: seq<Info>, t: Type)
  {
    && t in ids && ids[t] < |infos| && Sound(decl, t)
    && Ordered(decl, ids, infos[ids[t]].requiredBy) && Covers(decl, ids, infos[ids[t]].requiredBy, t)
  }

  /** What a reader of a final list may rely on: no repeats, not the type itself, exactly
      what the type requires. */
  lemma FinalList(decl: Declared, ids: map<Type, ID>, infos: seq<Info>, t: Type)
    requires Final(decl, ids, infos, t)
    ensures var list := infos[ids[t]].requiredBy;
      && (forall i, j :: 0 <= i < j < |list| ==> list[i] != list[j]) && ids[t] !in list
      && (forall x :: x in list ==> x in ids.Values)
      && (forall u :: Reaches(Needs(decl), t, u) <==> Has(ids, list, u))
  {
    assert !Reaches(Needs(decl), t, t);
    assert !Has(ids, infos[ids[t]].requiredBy, t);
  }

  /** Every entry comes after each entry it declares. */
  lemma FinalLeavesFirst(decl: Declared, ids: map<Type, ID>, infos: seq<Info>, t: Type, k: nat, v: Type, u: Type)
    requires Final(decl, ids, infos, t) && k < |infos[ids[t]].requiredBy|
    requires v in ids && ids[v] == infos[ids[t]].requiredBy[k] && Edge(Needs(decl), v, u)
    ensures Has(ids, infos[ids[t]].requiredBy[..k], u)
  {
    EdgeReaches(Needs(decl), v, u);
    assert Above(decl, ids, infos[ids[t]].requiredBy[..k], v);
  }

  lemma FinalStays(decl: Declared, ids: map<Type, ID>, more: map<Type, ID>, infos: seq<Info>, infos': seq<Info>,
                   t: Type)
    requires Extends(ids, more) && Injective(more) && infos <= infos' && Final(decl, ids, infos, t)
    ensures Final(decl, more, infos', t)
  {
    var list := infos[ids[t]].requiredBy;
    assert infos'[ids[t]] == infos[ids[t]];
    OrderedStays(decl, ids, more, list);
    CoversStays(decl, ids, more, list, t);
  }

  /** The declared dependencies `met` so far are sound, and listed with all they require. */
  ghost predicate Progress(decl: Declared, ids: map<Type, ID>, t: Type, met: seq<Option<Type>>, list: seq<ID>)
  {
    && Ordered(decl, ids, list) && Gathered(decl, ids, met, list)
    && None !in met && forall d :: Some(d) in met ==> d != t && Sound(decl, d)
  }

  lemma ProgressStarts(decl: Declared, ids: map<Type, ID>, t: Type)
    ensures Progress(decl, ids, t, [], [])
  {
  }

  lemma ProgressStays(decl: Declared, ids: map<Type, ID>, more: map<Type, ID>, infos: seq<Info>, t: Type,
                      met: seq<Option<Type>>, list: seq<ID>)
    requires Progress(decl, ids, t, met, list) && Extends(ids, more) && Owned(more, infos)
    ensures Progress(decl, more, t, met, list)
  {
    OwnedInjective(more, infos);
    OrderedStays(decl, ids, more, list);
    GatheredStays(decl, ids, more, met, list);
  }

  lemma ProgressDone(decl: Declared, ids: map<Type, ID>, t: Type, list: seq<ID>)
    requires t in decl && Progress(decl, ids, t, decl[t][..|decl[t]|], list)
    ensures Sound(decl, t) && Ordered(decl, ids, list) && Covers(decl, ids, list, t)
  {
    assert decl[t][..|decl[t]|] == decl[t];
    SoundAbove(decl, t);
    GatheredCovers(decl, ids, t, list);
  }

  /** One more declared dependency. */
  method Include(list0: seq<ID>, infos: seq<Info>, depID: ID, ghost decl: Declared, ghost ids: map<Type, ID>,
                 ghost t: Type, ghost met: seq<Option<Type>>, ghost d: Type)
    returns (list: seq<ID>)
    requires Owned(ids, infos) && Progress(decl, ids, t, met, list0)
    requires Final(decl, ids, infos, d) && ids[d] == depID && d != t
    ensures Progress(decl, ids, t, met + [Some(d)], list)
  {
    OwnedInjective(ids, infos);
    list := Emit(list0, infos[depID].requiredBy, depID, decl, ids, d);
    GatheredNext(decl, ids, met, list0, infos[depID].requiredBy, d, list);
  }

  /** No name was chosen by a caller. */
  ghost predicate DefaultNames(infos: seq<Info>, qualified: Type -> string)
  {
    forall id: ID :: 1 <= id < |infos| ==> infos[id].ty.Some? && infos[id].name == qualified(infos[id].ty.value)
  }

  ghost predicate NamesDiffer(qualified: Type -> string)
  {
    forall a, b :: qualified(a) == qualified(b) ==> a == b
  }

  /** What a panic below t says. */
  ghost predicate Explains(decl: Declared, qualified: Type -> string, plain: bool, r: Outcome, t: Type)
  {
    match r
    case Circular(c) => Reaches(Needs(decl), c, c) && CycleBelow(decl, t)
    case NilValue(c) => c in decl && None in decl[c] && NilBelow(decl, t)
    case NameBound(_) => !(plain && NamesDiffer(qualified))
    case NilType => false
    case Registered(_) => true
  }

  lemma ExplainsAbove(decl: Declared, qualified: Type -> string, plain: bool, r: Outcome, t: Type, d: Type)
    requires Explains(decl, qualified, plain, r, d) && t in decl && Some(d) in decl[t]
    ensures Explains(decl, qualified, plain, r, t)
  {
    Below(decl, t, d);
  }

  ghost predicate Grown(ids: map<Type, ID>, infos: seq<Info>, ids': map<Type, ID>, infos': seq<Info>)
  {
    infos <= infos' && Extends(ids, ids')
  }

  lemma GrownTransits(ids0: map<Type, ID>, infos0: seq<Info>, ids1: map<Type, ID>, infos1: seq<Info>,
                      ids: map<Type, ID>, infos: seq<Info>)
    requires Grown(ids0, infos0, ids1, infos1) && Grown(ids1, infos1, ids, infos)
    ensures Grown(ids0, infos0, ids, infos)
  {
  }

  lemma GrownTwice(ids: map<Type, ID>, infos: seq<Info>, t: Type, info: Info, ids': map<Type, ID>, infos': seq<Info>,
                   info': Info)
    requires t !in ids && Grown(ids[t := |infos|], infos + [info], ids', infos')
    ensures Grown(ids, infos, ids', infos'[|infos| := info'])
    ensures t in ids' && ids'[t] == |infos|
  {
    assert (infos + [info])[..|infos|] == infos;
    assert forall k :: 0 <= k < |infos| ==> infos[k] == (infos + [info])[k] == infos'[k];
    assert t in ids[t := |infos|];
    forall u | u in ids ensures u in ids' && ids'[u] == ids[u] {
      assert u in ids[t := |infos|];
    }
  }

  /** The types being resolved, each requiring the next and the last requiring t. */
  ghost predicate Resolving(decl: Declared, stack: seq<Type>, visiting: set<Type>, t: Type)
  {
    && IsPath(Needs(decl), stack) && (forall v :: v in visiting <==> v in stack)
    && (stack != [] ==> Edge(Needs(decl), stack[|stack| - 1], t))
  }

  lemma ResolvingNext(decl: Declared, stack: seq<Type>, visiting: set<Type>, t: Type, d: Type)
    requires Resolving(decl, stack, visiting, t) && t in decl && Some(d) in decl[t]
    ensures Resolving(decl, stack + [t], visiting + {t}, d)
  {
    PathGrows(Needs(decl), stack, t);
  }

  lemma Prefix<T>(s: seq<T>, i: nat)
    requires i < |s|
    ensures s[..i + 1] == s[..i] + [s[i]]
  {
  }

  /** t requires none of these types. */
  ghost predicate Clear(decl: Declared, t: Type, pending: set<Type>)
  {
    forall v :: v in pending ==> !Reaches(Needs(decl), t, v)
  }

  /** Every registered type that is not pending has its final list, and requires no pending
      type. */
  ghost predicate AllFinal(decl: Declared, ids: map<Type, ID>, infos: seq<Info>, pending: set<Type>)
  {
    forall t :: t in ids && t !in pending ==> Final(decl, ids, infos, t) && Clear(decl, t, pending)
  }

  lemma InsertIndexed(ids: map<Type, ID>, names: map<string, ID>, infos: seq<Info>, t: Type, info: Info)
    requires Indexed(ids, names, infos) && t !in ids && info.name !in names && info.ty == Some(t)
    ensures Indexed(ids[t := |infos|], names[info.name := |infos|], infos + [info])
  {
    var ids' := ids[t := |infos|];
    var infos' := infos + [info];
    forall id: ID | 1 <= id < |infos'|
      ensures infos'[id].ty.Some? && Bound(ids', infos'[id].ty.value, id)
    {
      if id < |infos| {
        assert Bound(ids, infos[id].ty.value, id);
      }
    }
  }

  lemma SetIndexed(ids: map<Type, ID>, names: map<string, ID>, infos: seq<Info>, id: ID, list: seq<ID>)
    requires Indexed(ids, names, infos) && id < |infos|
    ensures Indexed(ids, names, infos[id := infos[id].(requiredBy := list)])
  {
    var infos' := infos[id := infos[id].(requiredBy := list)];
    assert forall k :: 0 <= k < |infos| ==> infos'[k].ty == infos[k].ty && infos'[k].name == infos[k].name;
    forall k: ID | 1 <= k < |infos'|
      ensures infos'[k].ty.Some? && Bound(ids, infos'[k].ty.value, k)
    {
      assert Bound(ids, infos[k].ty.value, k);
    }
  }

  lemma InsertInjective(ids: map<Type, ID>, infos: seq<Info>, t: Type)
    requires Owned(ids, infos) && t !in ids
    ensures Injective(ids[t := |infos|])
  {
    OwnedInjective(ids, infos);
  }

  lemma InsertFinal(decl: Declared, ids: map<Type, ID>, infos: seq<Info>, t: Type, info: Info, pending: set<Type>)
    requires AllFinal(decl, ids, infos, pending) && t !in ids && Owned(ids, infos)
    ensures AllFinal(decl, ids[t := |infos|], infos + [info], pending + {t})
  {
    var ids' := ids[t := |infos|];
    var infos' := infos + [info];
    InsertInjective(ids, infos, t);
    forall u | u in ids' && u !in pending + {t}
      ensures Final(decl, ids', infos', u) && Clear(decl, u, pending + {t})
    {
      assert Final(decl, ids, infos, u);
      assert !Has(ids, infos[ids[u]].requiredBy, t);
      FinalStays(decl, ids, ids', infos, infos', u);
    }
  }

  /** Every type being resolved requires t. */
  lemma StackReaches(decl: Declared, stack: seq<Type>, visiting: set<Type>, t: Type, v: Type)
    requires Resolving(decl, stack, visiting, t) && v in visiting
    ensures Reaches(Needs(decl), v, t)
  {
    var g := Needs(decl);
    var i :| 0 <= i < |stack| && stack[i] == v;
    SuffixPath(g, stack, i);
    PathGrows(g, stack[i..], t);
    assert PathFrom(g, stack[i..] + [t], v, t);
  }

  /** A sound type requires none of those that require it. */
  lemma SoundIsClear(decl: Declared, stack: seq<Type>, visiting: set<Type>, t: Type)
    requires Resolving(decl, stack, visiting, t) && Sound(decl, t)
    ensures Clear(decl, t, visiting)
  {
    forall v | v in visiting ensures !Reaches(Needs(decl), t, v) {
      StackReaches(decl, stack, visiting, t, v);
      if Reaches(Needs(decl), t, v) {
        ReachesTransits(Needs(decl), t, v, t);
        assert false;
      }
    }
  }

  lemma SetFinal(decl: Declared, ids: map<Type, ID>, infos: seq<Info>, t: Type, list: seq<ID>, pending: set<Type>)
    requires AllFinal(decl, ids, infos, pending + {t}) && Owned(ids, infos) && t in ids
    requires Sound(decl, t) && Ordered(decl, ids, list) && Covers(decl, ids, list, t) && Clear(decl, t, pending)
    ensures AllFinal(decl, ids, infos[ids[t] := infos[ids[t]].(requiredBy := list)], pending)
  {
    var infos' := infos[ids[t] := infos[ids[t]].(requiredBy := list)];
    OwnedInjective(ids, infos);
    forall u | u in ids && u !in pending
      ensures Final(decl, ids, infos', u) && Clear(decl, u, pending)
    {
      if u != t {
        assert Final(decl, ids, infos, u) && Clear(decl, u, pending + {t});
        assert infos'[ids[u]] == infos[ids[u]];
      }
    }
  }

  /** The two indexes and the table agree; every registered type that is not being resolved
      has its final list; when `plain`, every name is the type's own. */
  ghost predicate Ready(decl: Declared, qualified: Type -> string, ids: map<Type, ID>, names: map<string, ID>,
                        infos: seq<Info>, visiting: set<Type>, plain: bool)
  {
    && Indexed(ids, names, infos) && AllFinal(decl, ids, infos, visiting)
    && (plain ==> DefaultNames(infos, qualified))
  }

  lemma InsertNames(infos: seq<Info>, info: Info, qualified: Type -> string)
    requires DefaultNames(infos, qualified) && info.ty.Some? && info.name == qualified(info.ty.value)
    ensures DefaultNames(infos + [info], qualified)
  {
  }

  /** Entering a type under a new name. */
  lemma InsertReady(decl: Declared, qualified: Type -> string, ids: map<Type, ID>, names: map<string, ID>,
                    infos: seq<Info>, visiting: set<Type>, plain: bool, t: Type, info: Info)
    requires Ready(decl, qualified, ids, names, infos, visiting, plain) && t !in ids && info.name !in names
    requires info.ty == Some(t) && (plain ==> info.name == qualified(t))
    ensures Ready(decl, qualified, ids[t := |infos|], names[info.name := |infos|], infos + [info], visiting + {t},
      plain)
  {
    InsertIndexed(ids, names, infos, t, info);
    InsertFinal(decl, ids, infos, t, info, visiting);
    if plain {
      InsertNames(infos, info, qualified);
    }
  }

  lemma SetNames(infos: seq<Info>, id: ID, list: seq<ID>, qualified: Type -> string)
    requires id < |infos| && DefaultNames(infos, qualified)
    ensures DefaultNames(infos[id := infos[id].(requiredBy := list)], qualified)
  {
  }

  /** Setting the list of a type that has been resolved. */
  lemma SetReady(decl: Declared, qualified: Type -> string, ids: map<Type, ID>, names: map<string, ID>,
                 infos: seq<Info>, visiting: set<Type>, plain: bool, t: Type, list: seq<ID>, stack: seq<Type>)
    requires Ready(decl, qualified, ids, names, infos, visiting + {t}, plain) && t in ids
    requires Sound(decl, t) && Ordered(decl, ids, list) && Covers(decl, ids, list, t)
    requires Resolving(decl, stack, visiting, t)
    ensures ids[t] < |infos|
    ensures Ready(decl, qualified, ids, names, infos[ids[t] := infos[ids[t]].(requiredBy := list)], visiting, plain)
  {
    SetIndexed(ids, names, infos, ids[t], list);
    SoundIsClear(decl, stack, visiting, t);
    SetFinal(decl, ids, infos, t, list, visiting);
    if plain {
      SetNames(infos, ids[t], list, qualified);
    }
  }
}
