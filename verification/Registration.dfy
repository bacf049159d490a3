/** The component registry: every type gets the next ID, and the list of components it
    requires is resolved transitively while the registry it is read from is growing. */
module Registration {
  import opened Graphs
  import opened Options
  import opened Required
  import opened Leftover

  lemma MovesOver(visiting: set<Type>, t: Type, left: set<Type>)
    ensures (visiting + {t}) + left == visiting + (left + {t})
  {
  }

  lemma NothingMore(visiting: set<Type>)
    ensures visiting + {} == visiting
  {
  }

  lemma Disjoint(stuck: set<Type>, ids0: map<Type, ID>, left: set<Type>)
    requires stuck <= ids0.Keys && forall u :: u in left ==> u !in ids0
    ensures (stuck + left) - stuck == left && {} + left == left && (left == {} <==> stuck + left == stuck)
  {
    if stuck + left == stuck {
      assert (stuck + left) - stuck == {};
    }
  }

  /** After a panic the types it left join those left before, and the table is ready for
      what the rest declare. */
  lemma Closes(decl: Declared, stuck: set<Type>, qualified: Type -> string, plain: bool, ids0: map<Type, ID>,
               ids: map<Type, ID>, names: map<string, ID>, infos: seq<Info>, info: Info, r: Outcome, t: Type,
               left: set<Type>, after: set<Type>)
    requires after == stuck + left && stuck <= ids0.Keys && stuck <= ids.Keys && t !in ids0
    requires Ready(decl - stuck, qualified, ids, names, infos, {} + left, plain)
    requires Stranded(decl - stuck, qualified, plain, ids0, ids, infos, r, t, info.requiredBy, left)
    ensures Stranded(decl - stuck, qualified, plain, ids0, ids, infos, r, t, info.requiredBy, after - stuck)
    ensures AllFinal(decl - stuck, ids, infos, after - stuck)
    ensures stuck <= after <= ids.Keys && (after == stuck <==> left == {}) && (t in after <==> t in left)
    ensures info.requiredBy == [] ==> Ready(decl - after, qualified, ids, names, infos, {}, false)
  {
    Disjoint(stuck, ids0, left);
    if info.requiredBy == [] {
      LeavesFinal(decl, stuck, qualified, plain, ids0, ids, infos, r, t, left);
    }
  }

  class Registry {
    const decl: Declared
    /** Package path and name of a type. */
    const qualified: Type -> string
    var typeToID: map<Type, ID>
    var nameToID: map<string, ID>
    var infosByID: seq<Info>
    /** The types that earlier panics left half registered. */
    ghost var stuck: set<Type>

    ghost predicate DoneExcept(asked: Declared, visiting: set<Type>, plain: bool)
      reads this
    {
      Ready(asked, qualified, typeToID, nameToID, infosByID, visiting, plain) && stuck <= typeToID.Keys
    }

    /** Every list is final for what the types not left behind declare. */
    ghost predicate Valid()
      reads this
    {
      DoneExcept(decl - stuck, {}, false) && Reasons(decl, stuck, infosByID, qualified)
    }

    constructor (decl: Declared, qualified: Type -> string)
      ensures this.decl == decl && this.qualified == qualified
      ensures Valid() && typeToID == map[] && infosByID == [Info(None, "", [])] && stuck == {}
    {
      this.decl, this.qualified := decl, qualified;
      typeToID, nameToID, infosByID, stuck := map[], map[], [Info(None, "", [])], {};
    }

    /** Binds the next ID, unless the name is taken. */
    method Insert(ghost asked: Declared, t: Type, name: string, given: seq<ID>, ghost visiting: set<Type>,
                  ghost plain: bool) returns (r: Outcome)
      requires DoneExcept(asked, visiting, plain) && t !in typeToID && (plain ==> name == "" || name == qualified(t))
      requires asked == decl - stuck
      modifies this`typeToID, this`nameToID, this`infosByID
      ensures r.Registered? || r.NameBound?
      ensures r.NameBound? ==>
        infosByID == old(infosByID) && typeToID == old(typeToID) && DoneExcept(asked, visiting, plain)
      ensures r.NameBound? ==> r.name in nameToID && r.name == if name == "" then qualified(t) else name
      ensures Explains(asked, qualified, plain, r, t)
      ensures r.Registered? ==> r.id == |old(infosByID)| && typeToID == old(typeToID)[t := r.id]
      ensures r.Registered? ==>
        infosByID == old(infosByID) + [Info(Some(t), if name == "" then qualified(t) else name, given)]
      ensures r.Registered? ==> DoneExcept(asked, visiting + {t}, plain)
    {
      var chosen := if name == "" then qualified(t) else name;
      if chosen in nameToID {
        assert infosByID[nameToID[chosen]].name == chosen;
        return NameBound(chosen);
      }
      var id := |infosByID|;
      InsertReady(asked, qualified, typeToID, nameToID, infosByID, visiting, plain, t, Info(Some(t), chosen, given));
      infosByID := infosByID + [Info(Some(t), chosen, given)];
      typeToID := typeToID[t := id];
      nameToID := nameToID[chosen := id];
      return Registered(id);
    }

    /** A registration has only appended. */
    twostate predicate Appended()
      reads this
    {
      Grown(old(typeToID), old(infosByID), typeToID, infosByID)
    }

    /** Since the table was (ids0, infos0) a panic has left the types `left` behind, and
        everything else as it should be. */
    ghost predicate LeftBehind(asked: Declared, ids0: map<Type, ID>, infos0: seq<Info>, visiting: set<Type>,
                               plain: bool,
                               r: Outcome, t: Type, given: seq<ID>, left: set<Type>)
      reads this
    {
      && Grown(ids0, infos0, typeToID, infosByID) && DoneExcept(asked, visiting + left, plain)
      && Stranded(asked, qualified, plain, ids0, typeToID, infosByID, r, t, given, left)
    }

    /** registerType: the type is met while the types of `stack` are being resolved. */
    method RegisterType(ghost asked: Declared, t: Type, visiting: set<Type>, ghost stack: seq<Type>, ghost plain: bool)
      returns (r: Outcome, ghost left: set<Type>)
      requires DoneExcept(asked, visiting, plain) && Resolving(asked, stack, visiting, t)
      requires asked == decl - stuck
      modifies this`typeToID, this`nameToID, this`infosByID
      ensures r.Registered? ==> DoneExcept(asked, visiting, plain) && t !in visiting && Bound(typeToID, t, r.id)
      ensures r.Registered? ==> Appended()
      ensures !r.Registered? ==> LeftBehind(asked, old(typeToID), old(infosByID), visiting, plain, r, t, [], left)
      ensures Explains(asked, qualified, plain, r, t)
      decreases decl.Keys - visiting, 3
    {
      left := {};
      if t in visiting {
        StackCycle(Needs(asked), stack, t);
        NothingMore(visiting);
        return Circular(t), {};
      }
      if t in typeToID {
        return Registered(typeToID[t]), {};
      }
      r, left := Enter(asked, t, "", [], visiting, stack, plain);
    }

    /** Inserts a new type and resolves what it requires, as both registration entries do. */
    method Enter(ghost asked: Declared, t: Type, name: string, given: seq<ID>, visiting: set<Type>,
                 ghost stack: seq<Type>, ghost plain: bool)
      returns (r: Outcome, ghost left: set<Type>)
      requires DoneExcept(asked, visiting, plain) && Resolving(asked, stack, visiting, t)
      requires t !in typeToID && t !in visiting && (plain ==> name == "" || name == qualified(t))
      requires asked == decl - stuck
      modifies this`typeToID, this`nameToID, this`infosByID
      ensures r.Registered? ==> DoneExcept(asked, visiting, plain) && Bound(typeToID, t, r.id) && Appended()
      ensures r.Registered? ==> r.id == |old(infosByID)| < |infosByID| && Sound(asked, t)
      ensures r.Registered? ==>
        infosByID[r.id].ty == Some(t) && infosByID[r.id].name == if name == "" then qualified(t) else name
      ensures !r.Registered? ==> LeftBehind(asked, old(typeToID), old(infosByID), visiting, plain, r, t, given, left)
      ensures !r.Registered? ==> (t in left <==> t in typeToID) && (if left == {} then r.NameBound? else t in left)
      ensures !r.Registered? && t in left ==> (
        typeToID[t] == |old(infosByID)| < |infosByID| &&
        infosByID[typeToID[t]] == Info(Some(t), if name == "" then qualified(t) else name, given))
      ensures Explains(asked, qualified, plain, r, t)
      decreases decl.Keys - visiting, 2
    {
      left := {};
      ghost var ids0, infos0 := typeToID, infosByID;
      ghost var info := Info(Some(t), if name == "" then qualified(t) else name, given);
      r := Insert(asked, t, name, given, visiting, plain);
      if r.Registered? {
        r, left := Resolve(asked, t, r.id, visiting, stack, plain, ids0, infos0, info);
      } else {
        NothingLeft(asked, qualified, plain, ids0, infos0, r, t, given, visiting);
      }
    }

    /** `r.infosByID[id].RequiredBy = ...` for a type that is not being resolved any more. */
    method SetRequired(ghost asked: Declared, t: Type, id: ID, list: seq<ID>, ghost visiting: set<Type>,
                       ghost stack: seq<Type>, ghost plain: bool)
      requires DoneExcept(asked, visiting + {t}, plain) && Bound(typeToID, t, id) &&
        Resolving(asked, stack, visiting, t)
      requires Sound(asked, t) && Ordered(asked, typeToID, list) && Covers(asked, typeToID, list, t)
      modifies this`infosByID
      ensures infosByID == old(infosByID)[id := old(infosByID)[id].(requiredBy := list)]
      ensures DoneExcept(asked, visiting, plain)
    {
      SetReady(asked, qualified, typeToID, nameToID, infosByID, visiting, plain, t, list, stack);
      infosByID := infosByID[id := infosByID[id].(requiredBy := list)];
    }

    /** The rest of Enter, once the type has its ID. */
    method Resolve(ghost asked: Declared, t: Type, id: ID, visiting: set<Type>, ghost stack: seq<Type>,
                   ghost plain: bool,
                   ghost ids0: map<Type, ID>, ghost infos0: seq<Info>, ghost info: Info)
      returns (r: Outcome, ghost left: set<Type>)
      requires DoneExcept(asked, visiting + {t}, plain) && Resolving(asked, stack, visiting, t)
      requires t !in ids0 && t !in stuck && id == |infos0| && typeToID == ids0[t := id] && infosByID == infos0 + [info]
      requires asked == decl - stuck
      modifies this`typeToID, this`nameToID, this`infosByID
      ensures r.Registered? ==> DoneExcept(asked, visiting, plain) && Sound(asked, t) && r.id == id
      ensures r.Registered? ==> Bound(typeToID, t, id) && Grown(ids0, infos0, typeToID, infosByID)
      ensures r.Registered? ==> id < |infosByID| && infosByID[id] == info.(requiredBy := infosByID[id].requiredBy)
      ensures !r.Registered? ==>
        LeftBehind(asked, ids0, infos0, visiting, plain, r, t, info.requiredBy, left) && t in left &&
        Bound(typeToID, t, id) && id < |infosByID| && infosByID[id] == info
      ensures Explains(asked, qualified, plain, r, t)
      decreases decl.Keys - visiting, 1
    {
      var list;
      r, list, left := ResolveRequired(asked, t, visiting, stack, plain);
      if r.Registered? {
        GrownTwice(ids0, infos0, t, info, typeToID, infosByID, infosByID[id].(requiredBy := list));
        SetRequired(asked, t, id, list, visiting, stack, plain);
        r := Registered(id);
      } else {
        StrandedWith(asked, qualified, plain, ids0, infos0, info, typeToID, infosByID, r, t, left);
        MovesOver(visiting, t, left);
        left := left + {t};
      }
    }

    /** resolveRequired: registers what t declares, and lists all it requires. */
    method ResolveRequired(ghost asked: Declared, t: Type, visiting: set<Type>, ghost stack: seq<Type>,
                           ghost plain: bool)
      returns (r: Outcome, list: seq<ID>, ghost left: set<Type>)
      requires DoneExcept(asked, visiting + {t}, plain) && Resolving(asked, stack, visiting, t)
      requires t in typeToID && t !in stuck
      requires asked == decl - stuck
      modifies this`typeToID, this`nameToID, this`infosByID
      ensures r.Registered? ==> DoneExcept(asked, visiting + {t}, plain) && Appended() && Sound(asked, t)
      ensures r.Registered? ==> Ordered(asked, typeToID, list) && Covers(asked, typeToID, list, t)
      ensures !r.Registered? ==> LeftBehind(asked, old(typeToID), old(infosByID), visiting + {t}, plain, r, t, [], left)
      ensures Explains(asked, qualified, plain, r, t)
      decreases decl.Keys - visiting, 0
    {
      list, left := [], {};
      if t !in decl {
        LeafIsSound(asked, typeToID, t);
        return Registered(typeToID[t]), [], {};
      }
      if t in visiting {
        StackCycle(Needs(asked), stack, t);
        NothingMore(visiting + {t});
        return Circular(t), [], {};
      }
      r, list, left := ResolveDeclared(asked, t, visiting, stack, plain);
      if r.Registered? {
        ProgressDone(asked, typeToID, t, list);
      }
    }

    /** resolveRequired's loop. */
    method ResolveDeclared(ghost asked: Declared, t: Type, visiting: set<Type>, ghost stack: seq<Type>,
                           ghost plain: bool)
      returns (r: Outcome, list: seq<ID>, ghost left: set<Type>)
      requires DoneExcept(asked, visiting + {t}, plain) && Resolving(asked, stack, visiting, t)
      requires t in typeToID && t in decl && t !in stuck
      requires asked == decl - stuck
      modifies this`typeToID, this`nameToID, this`infosByID
      ensures r.Registered? ==>
        DoneExcept(asked, visiting + {t}, plain) && Appended() &&
          Progress(asked, typeToID, t, decl[t][..|decl[t]|], list)
      ensures !r.Registered? ==> LeftBehind(asked, old(typeToID), old(infosByID), visiting + {t}, plain, r, t, [], left)
      ensures Explains(asked, qualified, plain, r, t)
      decreases decl.Keys - (visiting + {t}), 5
    {
      list, left := [], {};
      ghost var ids0, infos0 := typeToID, infosByID;
      var deps := decl[t];
      ProgressStarts(asked, typeToID, t);
      for i := 0 to |deps|
        invariant DoneExcept(asked, visiting + {t}, plain) && Grown(ids0, infos0, typeToID, infosByID)
        invariant Progress(asked, typeToID, t, deps[..i], list)
      {
        Prefix(deps, i);
        r, list, left := ResolveOne(asked, t, visiting, stack, plain, ids0, infos0, deps[..i], deps[i], list);
        if !r.Registered? {
          return r, [], left;
        }
      }
      r := Registered(typeToID[t]);
    }

    /** One pass of resolveRequired's loop, which began with the table (ids0, infos0). */
    method ResolveOne(ghost asked: Declared, t: Type, visiting: set<Type>, ghost stack: seq<Type>, ghost plain: bool,
                      ghost ids0: map<Type, ID>, ghost infos0: seq<Info>,
                      ghost met: seq<Option<Type>>, dep: Option<Type>, list0: seq<ID>)
      returns (r: Outcome, list: seq<ID>, ghost left: set<Type>)
      requires DoneExcept(asked, visiting + {t}, plain) && Resolving(asked, stack, visiting, t)
      requires t in ids0 && Grown(ids0, infos0, typeToID, infosByID)
      requires t in decl && t !in stuck && dep in decl[t] && Progress(asked, typeToID, t, met, list0)
      requires asked == decl - stuck
      modifies this`typeToID, this`nameToID, this`infosByID
      ensures r.Registered? ==> DoneExcept(asked, visiting + {t}, plain) && Grown(ids0, infos0, typeToID, infosByID)
      ensures r.Registered? ==> Progress(asked, typeToID, t, met + [dep], list)
      ensures !r.Registered? ==> LeftBehind(asked, ids0, infos0, visiting + {t}, plain, r, t, [], left)
      ensures Explains(asked, qualified, plain, r, t)
      decreases decl.Keys - (visiting + {t}), 4
    {
      list, left := list0, {};
      ghost var ids, infos := typeToID, infosByID;
      if dep.None? {
        NothingLeft(asked, qualified, plain, ids0, infos0, NilValue(t), t, [], visiting + {t});
        return NilValue(t), [], {};
      }
      var d := dep.value;
      ResolvingNext(asked, stack, visiting, t, d);
      r, left := RegisterType(asked, d, visiting + {t}, stack + [t], plain);
      GrownTransits(ids0, infos0, ids, infos, typeToID, infosByID);
      ExplainsAbove(asked, qualified, plain, r, t, d);
      if r.Registered? {
        ProgressStays(asked, ids, typeToID, infosByID, t, met, list);
        list := Include(list, infosByID, r.id, asked, typeToID, t, met, d);
      } else {
        StrandedAbove(asked, qualified, plain, ids0, ids, typeToID, infosByID, r, d, left, t);
      }
    }

    /** Register: the public entry point, with a caller's name and list or none. Registering
        a known type returns its ID and changes nothing. A new type gets the next ID, and
        its list is then final for what the types not left behind declare. A panic keeps
        every entry; it leaves behind the type and those it was being resolved through, each
        with the list it was entered with, and every other list final. */
    method Register(info: Info) returns (r: Outcome)
      requires Valid()
      modifies this
      ensures info.ty.None? <==> r.NilType?
      ensures Appended() && old(stuck) <= stuck
      ensures info.ty.None? || r.Registered? || info.requiredBy == [] ==> Valid()
      ensures info.ty.None? || r.Registered? ==> stuck == old(stuck)
      ensures r.Registered? ==> Bound(typeToID, info.ty.value, r.id) && Sound(decl - stuck, info.ty.value)
      ensures info.ty.Some? && info.ty.value in old(typeToID) ==>
        r.Registered? && infosByID == old(infosByID) && typeToID == old(typeToID)
      ensures r.Registered? && info.ty.value !in old(typeToID) ==>
        && r.id == |old(infosByID)| < |infosByID| && infosByID[r.id].ty == info.ty
        && infosByID[r.id].name == if info.name == "" then qualified(info.ty.value) else info.name
      ensures info.ty.Some? && !r.Registered? ==> var t := info.ty.value;
        && Stranded(decl - old(stuck), qualified, OwnNames(old(infosByID), info, qualified), old(typeToID),
                    typeToID, infosByID, r, t, info.requiredBy, stuck - old(stuck))
        && (t in stuck <==> t in typeToID) && (if stuck == old(stuck) then r.NameBound? else t in stuck)
        && AllFinal(decl - old(stuck), typeToID, infosByID, stuck - old(stuck))
      ensures info.ty.Some? ==>
        Explains(decl - old(stuck), qualified, OwnNames(old(infosByID), info, qualified), r, info.ty.value)
    {
      if info.ty.None? {
        return NilType;
      }
      var t := info.ty.value;
      if t in typeToID {
        assert Final(decl - stuck, typeToID, infosByID, t);
        return Registered(typeToID[t]);
      }
      ghost var left, ids0, infos0, plain := {}, typeToID, infosByID, OwnNames(infosByID, info, qualified);
      r, left := Enter(decl - stuck, t, info.name, info.requiredBy, {}, [], plain);
      if r.Registered? {
        ReasonsStay(decl, stuck, infos0, infosByID, qualified);
      } else {
        ReasonsGrow(decl, stuck, qualified, ids0, infos0, typeToID, infosByID, info, r, t, left);
        ghost var after := stuck + left;
        Closes(decl, stuck, qualified, plain, ids0, typeToID, nameToID, infosByID, info, r, t, left, after);
        stuck := after;
      }
    }

    /** RegisterByType. */
    method RegisterByType(t: Option<Type>) returns (r: Outcome)
      requires Valid()
      modifies this
      ensures Valid() && Appended() && old(stuck) <= stuck && (t.None? <==> r.NilType?)
      ensures t.None? || r.Registered? ==> stuck == old(stuck)
      ensures r.Registered? ==> Bound(typeToID, t.value, r.id) && Sound(decl - stuck, t.value)
      ensures t.Some? && !r.Registered? ==>
        Stranded(decl - old(stuck), qualified, DefaultNames(old(infosByID), qualified), old(typeToID),
                 typeToID, infosByID, r, t.value, [], stuck - old(stuck))
      ensures t.Some? ==>
        Explains(decl - old(stuck), qualified, DefaultNames(old(infosByID), qualified), r, t.value)
    {
      if t.None? {
        return NilType;
      }
      if t.value in typeToID {
        assert Final(decl - stuck, typeToID, infosByID, t.value);
        return Registered(typeToID[t.value]);
      }
      r := Register(Info(t, "", []));
    }
  }

  /** RegisterType, the canonical entry point. With every type under its own name it panics
      exactly on what the types not left behind declare, over a circle exactly when there is
      one and no nil value, and does what registration is for
      exactly when the type is not, and does not require, one left behind, or their
      declarations are circular or nil anyway. On a registry where nothing ever panicked
      that is always. */
  method RegisterType(reg: Registry, t: Type) returns (r: Outcome)
    requires reg.Valid()
    modifies reg
    ensures reg.Valid() && old(reg.stuck) <= reg.stuck && (r.Registered? ==> Bound(reg.typeToID, t, r.id))
    ensures DefaultNames(old(reg.infosByID), reg.qualified) && NamesDiffer(reg.qualified) ==>
      && (r.Registered? <==> Sound(reg.decl - old(reg.stuck), t))
      && (!NilBelow(reg.decl - old(reg.stuck), t) ==> (r.Circular? <==> CycleBelow(reg.decl - old(reg.stuck), t)))
      && (Right(reg.decl, reg.typeToID, reg.infosByID, r, t) <==>
          (!Tainted(reg.decl, old(reg.stuck), t) || !Sound(reg.decl - old(reg.stuck), t)))
      && (old(reg.stuck) == {} ==> Right(reg.decl, reg.typeToID, reg.infosByID, r, t))
  {
    ghost var stuck, plain := reg.stuck, DefaultNames(reg.infosByID, reg.qualified) && NamesDiffer(reg.qualified);
    r := reg.Register(Info(Some(t), "", []));
    if plain {
      PanicsIffCircular(reg.decl - stuck, reg.qualified, r, t);
      RightIff(reg.decl, stuck, reg.typeToID, reg.infosByID, r, t);
    }
  }

  // ----- a registration after a panic -----

  method Again(reg: Registry, t: Type) returns (r: Outcome)
    requires reg.Valid()
    modifies reg
    ensures old(reg.stuck) <= reg.stuck
    ensures t in old(reg.typeToID) ==>
      r == Registered(old(reg.typeToID)[t]) && r.id < |reg.infosByID| && reg.infosByID == old(reg.infosByID)
  {
    r := reg.Register(Info(Some(t), "", []));
  }

  /** A type whose registration panicked on a circle registers at the next call, with an
      empty list, though the circle is still there. */
  method RegisterTwice(reg: Registry, t: Type) returns (first: Outcome, second: Outcome)
    requires reg.Valid() && t !in reg.typeToID
    modifies reg
    ensures var names := DefaultNames(old(reg.infosByID), reg.qualified);
      Explains(reg.decl - old(reg.stuck), reg.qualified, names, first, t)
    ensures first.Registered? ==> Sound(reg.decl - old(reg.stuck), t)
    ensures first.Circular? ==>
      && second.Registered? && CycleBelow(reg.decl, t) && t in reg.stuck
      && second.id < |reg.infosByID| && reg.infosByID[second.id].requiredBy == []
  {
    ghost var stuck0 := reg.stuck;
    first := reg.Register(Info(Some(t), "", []));
    if first.Circular? {
      PartCycle(reg.decl, stuck0, t);
      assert Final(reg.decl - reg.stuck, reg.typeToID, reg.infosByID, t);
      StuckListsNothing(reg.decl, reg.stuck, reg.typeToID, reg.infosByID, t);
    }
    second := Again(reg, t);
  }

  lemma Circle()
    ensures var decl: Declared := map[0 := [Some(1)], 1 := [Some(0)]]; CycleBelow(decl, 0) && !NilBelow(decl, 0)
  {
    var decl: Declared := map[0 := [Some(1)], 1 := [Some(0)]];
    EdgeReaches(Needs(decl), 0, 1);
    EdgeReaches(Needs(decl), 1, 0);
    ReachesTransits(Needs(decl), 0, 1, 0);
  }

  /** A requires B and B requires A: the first registration of A panics, and the second
      succeeds. */
  method CircleTwice() returns (reg: Registry, first: Outcome, second: Outcome)
    ensures first.Circular? && second.Registered? && CycleBelow(reg.decl, 0) &&
      reg.decl == map[0 := [Some(1)], 1 := [Some(0)]]
  {
    reg := new Registry(map[0 := [Some(1)], 1 := [Some(0)]], (t: Type) => seq(t, _ => 'a'));
    Circle();
    assert reg.decl - {} == reg.decl;
    assert NamesDiffer(reg.qualified) by {
      forall a: Type, b: Type | reg.qualified(a) == reg.qualified(b) ensures a == b {
        assert |reg.qualified(a)| == a && |reg.qualified(b)| == b;
      }
    }
    ghost var decl, qualified := reg.decl, reg.qualified;
    first, second := RegisterTwice(reg, 0);
    PanicsIffCircular(decl, qualified, first, 0);
  }
}
