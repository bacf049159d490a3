/** What a panic leaves in a registry: types that were entered and never resolved. */
module Leftover {
  import opened Graphs
  import opened Options
  import opened Required

  /** Edges of a part of the declarations are edges of the whole. */
  lemma PartReaches(decl: Declared, left: set<Type>, u: Type, v: Type)
    requires Reaches(Needs(decl - left), u, v)
    ensures Reaches(Needs(decl), u, v)
  {
    var p :| PathFrom(Needs(decl - left), p, u, v);
    forall i | 0 <= i < |p| - 1 ensures Hop(Needs(decl), p, i) {
      assert Hop(Needs(decl - left), p, i);
    }
    assert PathFrom(Needs(decl), p, u, v);
  }

  lemma CutEdge(decl: Declared, left: set<Type>, a: Type, b: Type)
    requires a !in left
    ensures Edge(Needs(decl - left), a, b) <==> Edge(Needs(decl), a, b)
  {
  }

  lemma CutPath(decl: Declared, left: set<Type>, p: seq<Type>, u: Type, v: Type)
    requires u !in left && Clear(decl, u, left) && PathFrom(Needs(decl), p, u, v)
    ensures PathFrom(Needs(decl - left), p, u, v)
  {
    forall i | 0 <= i < |p| - 1 ensures Hop(Needs(decl - left), p, i) {
      assert Hop(Needs(decl), p, i);
      if i > 0 {
        PrefixReaches(Needs(decl), p, u, v, i);
      }
      CutEdge(decl, left, p[i], p[i + 1]);
    }
  }

  /** A type that requires none of `left` requires the same without their declarations. */
  lemma CutReaches(decl: Declared, left: set<Type>, u: Type, v: Type)
    requires u !in left && Clear(decl, u, left)
    ensures Reaches(Needs(decl - left), u, v) <==> Reaches(Needs(decl), u, v)
  {
    if Reaches(Needs(decl - left), u, v) {
      PartReaches(decl, left, u, v);
    }
    if Reaches(Needs(decl), u, v) {
      var p :| PathFrom(Needs(decl), p, u, v);
      CutPath(decl, left, p, u, v);
    }
  }

  lemma ClearBelow(decl: Declared, left: set<Type>, u: Type, v: Type)
    requires u !in left && Clear(decl, u, left) && Reaches(Needs(decl), u, v)
    ensures v !in left && Clear(decl, v, left)
  {
    forall x | x in left ensures !Reaches(Needs(decl), v, x) {
      if Reaches(Needs(decl), v, x) {
        ReachesTransits(Needs(decl), u, v, x);
        assert false;
      }
    }
  }

  lemma CutCycle(decl: Declared, left: set<Type>, u: Type)
    requires u !in left && Clear(decl, u, left)
    ensures CycleBelow(decl - left, u) <==> CycleBelow(decl, u)
  {
    if CycleBelow(decl - left, u) {
      var c :| Reaches(Needs(decl - left), c, c) && (c == u || Reaches(Needs(decl - left), u, c));
      PartReaches(decl, left, c, c);
      CutReaches(decl, left, u, c);
    }
    if CycleBelow(decl, u) {
      var c :| Reaches(Needs(decl), c, c) && (c == u || Reaches(Needs(decl), u, c));
      CutReaches(decl, left, u, c);
      if c != u {
        ClearBelow(decl, left, u, c);
      }
      CutReaches(decl, left, c, c);
    }
  }

  lemma CutNil(decl: Declared, left: set<Type>, u: Type)
    requires u !in left && Clear(decl, u, left)
    ensures NilBelow(decl - left, u) <==> NilBelow(decl, u)
  {
    if NilBelow(decl - left, u) {
      var c :| c in decl - left && None in (decl - left)[c] && (c == u || Reaches(Needs(decl - left), u, c));
      CutReaches(decl, left, u, c);
    }
    if NilBelow(decl, u) {
      var c :| c in decl && None in decl[c] && (c == u || Reaches(Needs(decl), u, c));
      CutReaches(decl, left, u, c);
      if c != u {
        ClearBelow(decl, left, u, c);
      }
    }
  }

  lemma CutSound(decl: Declared, left: set<Type>, u: Type)
    requires u !in left && Clear(decl, u, left)
    ensures Sound(decl - left, u) <==> Sound(decl, u)
  {
    CutCycle(decl, left, u);
    CutNil(decl, left, u);
  }

  /** What a part of the declarations finds wrong is wrong. */
  lemma PartCycle(decl: Declared, left: set<Type>, u: Type)
    requires CycleBelow(decl - left, u)
    ensures CycleBelow(decl, u)
  {
    var c :| Reaches(Needs(decl - left), c, c) && (c == u || Reaches(Needs(decl - left), u, c));
    PartReaches(decl, left, c, c);
    if c != u {
      PartReaches(decl, left, u, c);
    }
  }

  lemma PartUnsound(decl: Declared, left: set<Type>, u: Type)
    requires !Sound(decl - left, u)
    ensures !Sound(decl, u)
  {
    if CycleBelow(decl - left, u) {
      PartCycle(decl, left, u);
    } else {
      var c :| c in decl - left && None in (decl - left)[c] && (c == u || Reaches(Needs(decl - left), u, c));
      if c != u {
        PartReaches(decl, left, u, c);
      }
    }
  }

  lemma CutOrdered(decl: Declared, left: set<Type>, ids: map<Type, ID>, list: seq<ID>, u: Type)
    requires Clear(decl, u, left) && u !in left && Covers(decl, ids, list, u)
    ensures Ordered(decl - left, ids, list) <==> Ordered(decl, ids, list)
  {
    forall k, v | 0 <= k < |list| && v in ids && ids[v] == list[k]
      ensures Above(decl - left, ids, list[..k], v) <==> Above(decl, ids, list[..k], v)
    {
      assert Has(ids, list, v);
      ClearBelow(decl, left, u, v);
      forall w ensures Reaches(Needs(decl - left), v, w) <==> Reaches(Needs(decl), v, w) {
        CutReaches(decl, left, v, w);
      }
    }
  }

  /** Final with and without the declarations of types it does not require. */
  lemma CutFinal(decl: Declared, left: set<Type>, ids: map<Type, ID>, infos: seq<Info>, u: Type)
    requires Clear(decl, u, left) && u !in left
    ensures Final(decl - left, ids, infos, u) <==> Final(decl, ids, infos, u)
  {
    CutSound(decl, left, u);
    forall v ensures Reaches(Needs(decl - left), u, v) <==> Reaches(Needs(decl), u, v) {
      CutReaches(decl, left, u, v);
    }
    if u in ids && ids[u] < |infos| && Covers(decl, ids, infos[ids[u]].requiredBy, u) {
      CutOrdered(decl, left, ids, infos[ids[u]].requiredBy, u);
    }
  }

  /** Once the pending types stay behind with empty lists, every list is final for what the
      other types declare. */
  lemma LeftIsFinal(decl: Declared, ids: map<Type, ID>, infos: seq<Info>, left: set<Type>)
    requires AllFinal(decl, ids, infos, left)
    requires forall u :: u in left ==> u in ids && ids[u] < |infos| && infos[ids[u]].requiredBy == []
    ensures AllFinal(decl - left, ids, infos, {})
  {
    forall u | u in ids
      ensures Final(decl - left, ids, infos, u)
    {
      if u in left {
        LeafIsSound(decl - left, ids, u);
      } else {
        CutFinal(decl, left, ids, infos, u);
      }
    }
  }

  lemma CutTwice(decl: Declared, stuck: set<Type>, left: set<Type>)
    ensures (decl - stuck) - left == decl - (stuck + left)
  {
  }

  /** A type left behind lists nothing. */
  lemma StuckListsNothing(decl: Declared, stuck: set<Type>, ids: map<Type, ID>, infos: seq<Info>, t: Type)
    requires t in stuck && Final(decl - stuck, ids, infos, t)
    ensures infos[ids[t]].requiredBy == []
  {
    var list := infos[ids[t]].requiredBy;
    LeafIsSound(decl - stuck, ids, t);
    if list != [] {
      assert list[0] in ids.Values;
      var u :| u in ids && ids[u] == list[0];
      assert Has(ids, list, u) && !Has(ids, [], u);
      assert false;
    }
  }

  /** t is, or requires, a type left behind. */
  ghost predicate Tainted(decl: Declared, stuck: set<Type>, t: Type)
  {
    t in stuck || !Clear(decl, t, stuck)
  }

  /** What requires an unsound type is unsound. */
  lemma TaintedUnsound(decl: Declared, stuck: set<Type>, t: Type)
    requires Tainted(decl, stuck, t) && forall s :: s in stuck ==> !Sound(decl, s)
    ensures !Sound(decl, t)
  {
    if t !in stuck {
      var s :| s in stuck && Reaches(Needs(decl), t, s);
      if CycleBelow(decl, s) {
        var c :| Reaches(Needs(decl), c, c) && (c == s || Reaches(Needs(decl), s, c));
        if c != s {
          ReachesTransits(Needs(decl), t, s, c);
        }
      } else {
        var c :| c in decl && None in decl[c] && (c == s || Reaches(Needs(decl), s, c));
        if c != s {
          ReachesTransits(Needs(decl), t, s, c);
        }
      }
    }
  }

  /** A registered type's list is the one its declarations call for exactly when the type
      is not, and does not require, one left behind. */
  lemma FinalIffUntainted(decl: Declared, stuck: set<Type>, ids: map<Type, ID>, infos: seq<Info>, t: Type)
    requires Final(decl - stuck, ids, infos, t) && forall s :: s in stuck ==> !Sound(decl, s)
    ensures Final(decl, ids, infos, t) <==> !Tainted(decl, stuck, t)
  {
    if Tainted(decl, stuck, t) {
      TaintedUnsound(decl, stuck, t);
    } else {
      CutFinal(decl, stuck, ids, infos, t);
    }
  }

  /** Unless two types share a name, a caller chose one, or a nil value is declared,
      registration panics exactly when a circular requirement is reachable; and with nil
      values, exactly when one or the other is. */
  lemma PanicsIffCircular(decl: Declared, qualified: Type -> string, r: Outcome, t: Type)
    requires Explains(decl, qualified, true, r, t) && (r.Registered? ==> Sound(decl, t)) && NamesDiffer(qualified)
    ensures r.Registered? <==> Sound(decl, t)
    ensures !NilBelow(decl, t) ==> (r.Circular? <==> CycleBelow(decl, t))
  {
  }

  /** Registration did what it is for: it panicked exactly on a circular or nil requirement,
      and otherwise the type has the list its declarations call for. */
  ghost predicate Right(decl: Declared, ids: map<Type, ID>, infos: seq<Info>, r: Outcome, t: Type)
  {
    (r.Registered? <==> Sound(decl, t)) && (r.Registered? ==> Final(decl, ids, infos, t))
  }

  /** It did if and only if the type is not, and does not require, one left behind by an
      earlier panic, or what the other types declare is circular or nil too. */
  lemma RightIff(decl: Declared, stuck: set<Type>, ids: map<Type, ID>, infos: seq<Info>, r: Outcome, t: Type)
    requires (r.Registered? <==> Sound(decl - stuck, t)) && (r.Registered? ==> Final(decl - stuck, ids, infos, t))
    requires forall s :: s in stuck ==> !Sound(decl, s)
    ensures Right(decl, ids, infos, r, t) <==> (!Tainted(decl, stuck, t) || !Sound(decl - stuck, t))
  {
    if Tainted(decl, stuck, t) {
      TaintedUnsound(decl, stuck, t);
    } else {
      CutSound(decl, stuck, t);
      if r.Registered? {
        FinalIffUntainted(decl, stuck, ids, infos, t);
      }
    }
  }

  /** The types `left` were entered by this call, each required by t, and kept their first
      lists: the caller's for t, empty for the others. */
  ghost predicate Stranded(decl: Declared, qualified: Type -> string, plain: bool, before: map<Type, ID>,
                           ids: map<Type, ID>, infos: seq<Info>, r: Outcome, t: Type, given: seq<ID>, left: set<Type>)
  {
    forall u :: u in left ==>
      && u in ids && u !in before && ids[u] < |infos| && (u == t || Reaches(Needs(decl), t, u))
      && infos[ids[u]].requiredBy == (if u == t then given else []) && Explains(decl, qualified, plain, r, u)
  }

  lemma NothingLeft(decl: Declared, qualified: Type -> string, plain: bool, ids: map<Type, ID>, infos: seq<Info>,
                    r: Outcome, t: Type, given: seq<ID>, visiting: set<Type>)
    ensures Grown(ids, infos, ids, infos) && visiting + {} == visiting
    ensures forall ids', infos' :: Stranded(decl, qualified, plain, ids, ids', infos', r, t, given, {})
  {
  }

  /** What a dependency's call left behind was left behind by the call for t. */
  lemma StrandedAbove(decl: Declared, qualified: Type -> string, plain: bool, ids0: map<Type, ID>,
                     before: map<Type, ID>,
                      ids: map<Type, ID>, infos: seq<Info>, r: Outcome, d: Type, left: set<Type>, t: Type)
    requires Stranded(decl, qualified, plain, before, ids, infos, r, d, [], left) && Extends(ids0, before)
    requires t in decl && Some(d) in decl[t] && t in before
    ensures Stranded(decl, qualified, plain, ids0, ids, infos, r, t, [], left)
  {
    forall u | u in left ensures Reaches(Needs(decl), t, u) {
      BelowReaches(decl, t, d, u);
    }
  }

  lemma EnteredGrown(ids0: map<Type, ID>, infos0: seq<Info>, t: Type, info: Info, ids: map<Type, ID>, infos: seq<Info>)
    requires t !in ids0 && Grown(ids0[t := |infos0|], infos0 + [info], ids, infos)
    ensures Bound(ids, t, |infos0|) && |infos0| < |infos| && infos[|infos0|] == info && Grown(ids0, infos0, ids, infos)
  {
    assert infos[|infos0|] == (infos0 + [info])[|infos0|];
    assert (infos0 + [info])[..|infos0|] == infos0;
    assert forall k :: 0 <= k < |infos0| ==> infos0[k] == (infos0 + [info])[k] == infos[k];
    assert t in ids0[t := |infos0|];
    forall u | u in ids0 ensures u in ids && ids[u] == ids0[u] {
      assert u in ids0[t := |infos0|];
    }
  }

  /** The type itself stays behind too, with the list it was entered with. */
  lemma StrandedWith(decl: Declared, qualified: Type -> string, plain: bool, ids0: map<Type, ID>, infos0: seq<Info>,
                     info: Info, ids: map<Type, ID>, infos: seq<Info>, r: Outcome, t: Type, left: set<Type>)
    requires Stranded(decl, qualified, plain, ids0[t := |infos0|], ids, infos, r, t, [], left)
    requires t !in ids0 && Grown(ids0[t := |infos0|], infos0 + [info], ids, infos)
    requires Explains(decl, qualified, plain, r, t)
    ensures Stranded(decl, qualified, plain, ids0, ids, infos, r, t, info.requiredBy, left + {t})
    ensures t in ids && Grown(ids0, infos0, ids, infos)
  {
    EnteredGrown(ids0, infos0, t, info, ids, infos);
    forall u | u in left ensures u !in ids0 && u != t {
      assert u !in ids0[t := |infos0|];
    }
  }

  /** The types a call left behind are unsound, unless a name was bound. */
  lemma StrandedUnsound(decl: Declared, stuck: set<Type>, qualified: Type -> string, before: map<Type, ID>,
                        ids: map<Type, ID>, infos: seq<Info>, r: Outcome, t: Type, given: seq<ID>, left: set<Type>)
    requires Stranded(decl - stuck, qualified, true, before, ids, infos, r, t, given, left)
    requires !r.Registered? && NamesDiffer(qualified)
    ensures forall u :: u in left ==> !Sound(decl, u)
  {
    forall u | u in left ensures !Sound(decl, u) {
      assert !Sound(decl - stuck, u);
      PartUnsound(decl, stuck, u);
    }
  }

  /** With the types' own names throughout, types are left behind for a reason. */
  ghost predicate Reasons(decl: Declared, stuck: set<Type>, infos: seq<Info>, qualified: Type -> string)
  {
    DefaultNames(infos, qualified) && NamesDiffer(qualified) ==> forall s :: s in stuck ==> !Sound(decl, s)
  }

  /** Every name so far, and the one asked for, is the type's own. */
  ghost predicate OwnNames(infos: seq<Info>, info: Info, qualified: Type -> string)
  {
    DefaultNames(infos, qualified) && info.ty.Some? && (info.name == "" || info.name == qualified(info.ty.value))
  }

  lemma NamesBefore(infos0: seq<Info>, infos: seq<Info>, qualified: Type -> string)
    requires infos0 <= infos && DefaultNames(infos, qualified)
    ensures DefaultNames(infos0, qualified)
  {
    assert forall id: ID :: id < |infos0| ==> infos0[id] == infos[id];
  }

  lemma ReasonsStay(decl: Declared, stuck: set<Type>, infos0: seq<Info>, infos: seq<Info>, qualified: Type -> string)
    requires Reasons(decl, stuck, infos0, qualified) && infos0 <= infos
    ensures Reasons(decl, stuck, infos, qualified)
  {
    if DefaultNames(infos, qualified) {
      NamesBefore(infos0, infos, qualified);
    }
  }

  /** A panic's types have a reason to join those left behind. */
  lemma ReasonsGrow(decl: Declared, stuck: set<Type>, qualified: Type -> string, ids0: map<Type, ID>, infos0: seq<Info>,
                    ids: map<Type, ID>, infos: seq<Info>, info: Info, r: Outcome, t: Type, left: set<Type>)
    requires Reasons(decl, stuck, infos0, qualified) && infos0 <= infos && info.ty == Some(t) && !r.Registered?
    requires Stranded(decl - stuck, qualified, OwnNames(infos0, info, qualified), ids0, ids, infos, r, t,
      info.requiredBy, left)
    requires left == {} || (t in left && 1 <= ids[t] && infos[ids[t]].ty == Some(t) &&
             infos[ids[t]].name == if info.name == "" then qualified(t) else info.name)
    ensures Reasons(decl, stuck + left, infos, qualified)
  {
    if DefaultNames(infos, qualified) && NamesDiffer(qualified) && left != {} {
      NamesBefore(infos0, infos, qualified);
      StrandedUnsound(decl, stuck, qualified, ids0, ids, infos, r, t, info.requiredBy, left);
    }
  }

  /** And with them every list is final for what the others declare. */
  lemma LeavesFinal(decl: Declared, stuck: set<Type>, qualified: Type -> string, plain: bool, ids0: map<Type, ID>,
                    ids: map<Type, ID>, infos: seq<Info>, r: Outcome, t: Type, left: set<Type>)
    requires AllFinal(decl - stuck, ids, infos, left)
    requires Stranded(decl - stuck, qualified, plain, ids0, ids, infos, r, t, [], left)
    ensures AllFinal(decl - (stuck + left), ids, infos, {})
  {
    LeftIsFinal(decl - stuck, ids, infos, left);
    CutTwice(decl, stuck, left);
  }
}
