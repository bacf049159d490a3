/** Every history of the allocator: which handles are issued, which are alive. */
module AllocatorHistory {
  import opened Entities
  import opened Allocator

  predicate Distinct<T(==)>(s: seq<T>) { forall i, j :: 0 <= i < j < |s| ==> s[i] != s[j] }

  /** Slots are at generation one or later, and every slot is either alive or on the free
      list, once. */
  predicate Sane(s: State)
  {
    && |s.generations| < WORD && (forall i :: 0 <= i < |s.generations| ==> s.generations[i] >= 1)
    && InRange(s) && Distinct(s.freeList) && s.alive + |s.freeList| == |s.generations|
  }

  /** The handle a free slot will give out next. */
  predicate Pending(s: State, h: Handle) { Current(s, h) && Index(h) in s.freeList }

  /** How the state accounts for the handles issued and freed so far. */
  ghost predicate Accounts(s: State, issued: set<Handle>, freed: set<Handle>)
  {
    && freed <= issued && |issued| == |freed| + s.alive
    && (forall h :: h in issued ==> Index(h) < |s.generations| && 1 <= Generation(h) <= s.generations[Index(h)])
    && (forall h :: h in issued ==> (h in freed <==> Generation(h) < s.generations[Index(h)]))
    && (forall h :: h in issued && h !in freed ==> Index(h) !in s.freeList)
    && (forall h :: Current(s, h) && Index(h) !in s.freeList ==> h in issued)
  }

  ghost predicate Good(s: State, issued: set<Handle>, freed: set<Handle>)
  {
    Sane(s) && Accounts(s, issued, freed)
  }

  /** IsAlive holds of exactly the handles issued and not yet freed, and of the handles
      free slots will give out next. */
  lemma AliveIff(s: State, issued: set<Handle>, freed: set<Handle>, h: Handle)
    requires Good(s, issued, freed)
    ensures Current(s, h) <==> (h in issued && h !in freed) || Pending(s, h)
    ensures h in issued ==> !Pending(s, h) && (Current(s, h) <==> h !in freed)
    ensures NULL !in issued
  {
    PackRoundTrip(h, 0, 0);
  }

  lemma DropLast(list: seq<Word>)
    requires list != [] && Distinct(list)
    ensures Distinct(list[..|list| - 1])
    ensures forall i :: i in list[..|list| - 1] <==> i in list && i != list[|list| - 1]
  {
  }

  /** Allocating takes one index off the free list or adds one slot. */
  lemma IssueStaysSane(s: State)
    requires Sane(s) && Room(s, 1)
    ensures var (t, h) := Allocated(s);
      && Sane(t) && h != NULL && Current(t, h) && t.alive == s.alive + 1
      && (forall i :: i in t.freeList <==> i in s.freeList && i != Index(h))
      && (forall i :: 0 <= i < |s.generations| ==> i < |t.generations| && t.generations[i] == s.generations[i])
      && (|t.generations| == |s.generations| || (|t.generations| == |s.generations| + 1 && Index(h) == |s.generations|))
      && (Index(h) < |s.generations| ==> Index(h) in s.freeList)
  {
    var (t, h) := Allocated(s);
    PackRoundTrip(h, if s.freeList == [] then |s.generations| else s.freeList[|s.freeList| - 1], Generation(h));
    if s.freeList != [] {
      PackRoundTrip(h, s.freeList[|s.freeList| - 1], s.generations[s.freeList[|s.freeList| - 1]]);
      DropLast(s.freeList);
    } else {
      PackRoundTrip(h, |s.generations|, 1);
    }
  }

  lemma AddOne<T>(s: set<T>, x: T)
    requires x !in s
    ensures |s + {x}| == |s| + 1
  {
  }

  /** Issuing gives a handle never issued before, alive, and of a slot no live handle is
      in. */
  lemma IssueKeeps(s: State, issued: set<Handle>, freed: set<Handle>)
    requires Good(s, issued, freed) && Room(s, 1)
    ensures var (t, h) := Allocated(s);
      Good(t, issued + {h}, freed) && h !in issued && h != NULL && Current(t, h) && !Pending(t, h)
    ensures forall g :: g in issued && g !in freed ==> Index(g) != Index(Allocated(s).1)
  {
    var (t, h) := Allocated(s);
    IssueStaysSane(s);
    assert h !in issued;
    AddOne(issued, h);
    forall g | Current(t, g) && Index(g) !in t.freeList
      ensures g in issued + {h}
    {
      PackRoundTrip(g, 0, 0);
      PackRoundTrip(h, 0, 0);
      if Index(g) != Index(h) {
        assert Current(s, g);
      }
    }
  }

  /** Freeing a live handle advances its slot and puts it on the free list. */
  lemma FreeStaysSane(s: State, h: Handle)
    requires Sane(s) && Current(s, h) && Index(h) !in s.freeList && s.alive > 0 && Generation(h) + 1 < WORD
    ensures var t := Freed(s, h);
      && Sane(t) && t.alive == s.alive - 1 && |t.generations| == |s.generations|
      && (forall i :: i in t.freeList <==> i in s.freeList || i == Index(h))
      && (forall i :: 0 <= i < |s.generations| ==>
        t.generations[i] == if i == Index(h) then Generation(h) + 1 else s.generations[i])
  {
    var t := Freed(s, h);
    forall k | 0 <= k < |s.freeList| ensures t.freeList[k] != Index(h) {
      assert t.freeList[k] == s.freeList[k];
    }
  }

  lemma FreeKeeps(s: State, issued: set<Handle>, freed: set<Handle>, h: Handle)
    requires Good(s, issued, freed) && h in issued && Generation(h) + 1 < WORD
    ensures Good(Freed(s, h), issued, freed + {h})
  {
    AliveIff(s, issued, freed, h);
    if h in freed {
      assert freed + {h} == freed;
    } else {
      AddOne(freed, h);
      assert |issued - freed| == |issued| - |freed| && h in issued - freed;
      FreeStaysSane(s, h);
      var t := Freed(s, h);
      forall g | g in issued
        ensures Index(g) == Index(h) && Generation(g) == Generation(h) ==> g == h
      {
        PackRoundTrip(g, 0, 0);
        PackRoundTrip(h, 0, 0);
      }
      forall g | Current(t, g) && Index(g) !in t.freeList
        ensures g in issued
      {
        assert Current(s, g);
      }
    }
  }

  // ----- histories -----

  datatype Op = Allocate | AllocateMany(n: int) | Free(h: Handle)

  /** The state, the handles returned since the beginning in order, and the handles issued
      or placed and freed. */
  datatype History = History(s: State, log: seq<Handle>, issued: set<Handle>, freed: set<Handle>)

  function AsSet(hs: seq<Handle>): set<Handle> { set h | h in hs }

  /** Freed handles were issued, no generation wraps, and the arena has room. */
  predicate Legal(x: History, op: Op)
  {
    match op
    case Allocate => Room(x.s, 1)
    case AllocateMany(n) => n > 0 ==> Room(x.s, n)
    case Free(h) => h in x.issued && Generation(h) + 1 < WORD
  }

  function Step(x: History, op: Op): (y: History)
    requires InRange(x.s) && Legal(x, op)
    ensures InRange(y.s)
  {
    match op
    case Allocate =>
      var (t, h) := Allocated(x.s);
      History(t, x.log + [h], x.issued + {h}, x.freed)
    case AllocateMany(n) =>
      var (t, hs) := if n > 0 then AllocatedEach(x.s, n) else (x.s, []);
      History(t, x.log + hs, x.issued + AsSet(hs), x.freed)
    case Free(h) => History(Freed(x.s, h), x.log, x.issued, x.freed + {h})
  }

  predicate Runs(x: History, ops: seq<Op>)
    requires InRange(x.s)
    decreases |ops|
  {
    ops == [] || (Legal(x, ops[0]) && Runs(Step(x, ops[0]), ops[1..]))
  }

  function Run(x: History, ops: seq<Op>): History
    requires InRange(x.s) && Runs(x, ops)
    decreases |ops|
  {
    if ops == [] then x else Run(Step(x, ops[0]), ops[1..])
  }

  /** What holds of every history. */
  ghost predicate Sound(x: History)
  {
    && Good(x.s, x.issued, x.freed) && Distinct(x.log) && NULL !in x.log
    && (forall h :: h in x.log ==> h in x.issued)
  }

  /** The handles are new, and accounted for in the state after issuing them. */
  ghost predicate Issues(t: State, hs: seq<Handle>, issued: set<Handle>, freed: set<Handle>)
  {
    && Good(t, issued + AsSet(hs), freed) && Distinct(hs)
    && (forall h :: h in hs ==> h !in issued && h != NULL)
  }

  lemma IssuesNone(s: State, issued: set<Handle>, freed: set<Handle>)
    requires Good(s, issued, freed)
    ensures Issues(s, [], issued, freed)
  {
    assert issued + AsSet([]) == issued;
  }

  lemma AppendNew(hs: seq<Handle>, h: Handle, issued: set<Handle>)
    requires Distinct(hs) && (forall g :: g in hs ==> g !in issued && g != NULL)
    requires h != NULL && h !in issued + AsSet(hs)
    ensures Distinct(hs + [h]) && issued + AsSet(hs) + {h} == issued + AsSet(hs + [h])
    ensures forall g :: g in hs + [h] ==> g !in issued && g != NULL
  {
    assert forall g :: g in hs ==> g in AsSet(hs);
    assert AsSet(hs + [h]) == AsSet(hs) + {h};
  }

  lemma BatchNext(t: State, hs: seq<Handle>, issued: set<Handle>, freed: set<Handle>)
    requires Issues(t, hs, issued, freed) && Room(t, 1)
    ensures Issues(Allocated(t).0, hs + [Allocated(t).1], issued, freed)
  {
    IssueKeeps(t, issued + AsSet(hs), freed);
    var h := Allocated(t).1;
    AppendNew(hs, h, issued);
  }

  /** What n allocations issue. */
  ghost predicate IssuesEach(s: State, n: nat, issued: set<Handle>, freed: set<Handle>)
    requires InRange(s) && Room(s, n)
  {
    Issues(AllocatedEach(s, n).0, AllocatedEach(s, n).1, issued, freed)
  }

  lemma BatchMore(s: State, issued: set<Handle>, freed: set<Handle>, n: nat)
    requires n > 0 && InRange(s) && Room(s, n) && IssuesEach(s, n - 1, issued, freed)
    ensures IssuesEach(s, n, issued, freed)
  {
    EachNext(s, n - 1);
    BatchNext(AllocatedEach(s, n - 1).0, AllocatedEach(s, n - 1).1, issued, freed);
  }

  lemma {:induction false} BatchKeeps(s: State, issued: set<Handle>, freed: set<Handle>, n: nat)
    requires Good(s, issued, freed) && Room(s, n)
    ensures IssuesEach(s, n, issued, freed)
  {
    if n == 0 {
      IssuesNone(s, issued, freed);
    } else {
      BatchKeeps(s, issued, freed, n - 1);
      BatchMore(s, issued, freed, n);
    }
  }

  lemma LogGrows(log: seq<Handle>, more: seq<Handle>, issued: set<Handle>)
    requires Distinct(log) && Distinct(more) && (forall h :: h in log ==> h in issued) &&
      (forall h :: h in more ==> h !in issued)
    ensures Distinct(log + more)
  {
    var all := log + more;
    forall i, j | 0 <= i < j < |all|
      ensures all[i] != all[j]
    {
      if i < |log| && j >= |log| {
        assert all[i] in log && all[j] in more;
      }
    }
  }

  lemma StepKeeps(x: History, op: Op)
    requires Sound(x) && Legal(x, op)
    ensures Sound(Step(x, op))
  {
    match op {
      case Allocate =>
        IssueKeeps(x.s, x.issued, x.freed);
        LogGrows(x.log, [Allocated(x.s).1], x.issued);
      case AllocateMany(n) =>
        if n > 0 {
          BatchKeeps(x.s, x.issued, x.freed, n);
          LogGrows(x.log, AllocatedEach(x.s, n).1, x.issued);
        } else {
          assert x.issued + AsSet([]) == x.issued && x.log + [] == x.log;
        }
      case Free(h) => FreeKeeps(x.s, x.issued, x.freed, h);
    }
  }

  /** Over every history no handle is issued twice or null; the free list is distinct and
      alive plus free is the number of slots; a handle issued is alive exactly until it is
      freed. */
  lemma {:induction false} EveryHistory(x: History, ops: seq<Op>)
    requires Sound(x) && Runs(x, ops)
    ensures Sound(Run(x, ops))
    ensures forall h :: h in Run(x, ops).issued ==> (Current(Run(x, ops).s, h) <==> h !in Run(x, ops).freed)
    decreases |ops|
  {
    if ops == [] {
      forall h | h in x.issued ensures Current(x.s, h) <==> h !in x.freed {
        AliveIff(x.s, x.issued, x.freed, h);
      }
    } else {
      StepKeeps(x, ops[0]);
      EveryHistory(Step(x, ops[0]), ops[1..]);
    }
  }

  /** How many handles the operations ask for. */
  function Asked(ops: seq<Op>): nat
  {
    if ops == [] then 0
    else
      Asked(ops[1..]) +
      match ops[0]
      case Allocate => 1
      case AllocateMany(n) => if n > 0 then n else 0
      case Free(_) => 0
  }

  /** A history has as many handles more as were asked for, and has freed those it was asked to. */
  lemma {:induction false} HistoryIsAsked(x: History, ops: seq<Op>)
    requires InRange(x.s) && Runs(x, ops)
    ensures x.log <= Run(x, ops).log && |Run(x, ops).log| == |x.log| + Asked(ops)
    ensures forall h :: h in Run(x, ops).freed <==> h in x.freed || Op.Free(h) in ops
    decreases |ops|
  {
    if ops != [] {
      HistoryIsAsked(Step(x, ops[0]), ops[1..]);
      assert ops == [ops[0]] + ops[1..];
    }
  }

  /** The slot is, or has been, at the generation of this handle. */
  predicate Stood(s: State, h: Handle)
  {
    && Index(h) < |s.generations| && 1 <= Generation(h) <= s.generations[Index(h)]
    && (Generation(h) < s.generations[Index(h)] || Index(h) !in s.freeList)
  }

  /** Every handle a slot has ever stood for was issued: true of an allocator that started
      empty. */
  ghost predicate Used(s: State, issued: set<Handle>)
  {
    forall h :: Stood(s, h) ==> h in issued
  }

  lemma IssueUses(s: State, issued: set<Handle>)
    requires Sane(s) && Room(s, 1) && Used(s, issued)
    ensures Used(Allocated(s).0, issued + {Allocated(s).1})
  {
    var (t, h) := Allocated(s);
    IssueStaysSane(s);
    forall g | Stood(t, g) ensures g in issued + {h} {
      PackRoundTrip(g, 0, 0);
      PackRoundTrip(h, 0, 0);
      assert Stood(s, g) || g == h;
    }
  }

  lemma UsedSame(s: State, issued: set<Handle>, same: set<Handle>)
    requires Used(s, issued) && issued <= same
    ensures Used(s, same)
  {
  }

  lemma BatchUsesNext(t: State, hs: seq<Handle>, issued: set<Handle>)
    requires Sane(t) && Room(t, 1) && Used(t, issued + AsSet(hs))
    ensures Used(Allocated(t).0, issued + AsSet(hs + [Allocated(t).1]))
  {
    var h := Allocated(t).1;
    IssueUses(t, issued + AsSet(hs));
    assert h in hs + [h];
    assert forall g :: g in hs ==> g in hs + [h];
    UsedSame(Allocated(t).0, issued + AsSet(hs) + {h}, issued + AsSet(hs + [h]));
  }

  lemma BatchSane(s: State, issued: set<Handle>, freed: set<Handle>, n: nat)
    requires Good(s, issued, freed) && Room(s, n)
    ensures Sane(AllocatedEach(s, n).0)
  {
    BatchKeeps(s, issued, freed, n);
  }

  lemma {:induction false} BatchUses(s: State, issued: set<Handle>, freed: set<Handle>, n: nat)
    requires Good(s, issued, freed) && Room(s, n) && Used(s, issued)
    ensures Used(AllocatedEach(s, n).0, issued + AsSet(AllocatedEach(s, n).1))
  {
    if n == 0 {
      UsedSame(s, issued, issued + AsSet([]));
    } else {
      BatchUses(s, issued, freed, n - 1);
      BatchSane(s, issued, freed, n - 1);
      EachNext(s, n - 1);
      BatchUsesNext(AllocatedEach(s, n - 1).0, AllocatedEach(s, n - 1).1, issued);
    }
  }

  lemma FreeUses(s: State, issued: set<Handle>, h: Handle)
    requires Used(s, issued) && h in issued && Generation(h) + 1 < WORD
    ensures Used(Freed(s, h), issued)
  {
    var t := Freed(s, h);
    if Current(s, h) {
      forall g | Stood(t, g)
        ensures g in issued
      {
        assert Index(h) == t.freeList[|s.freeList|];
        assert forall i :: i in s.freeList ==> i in t.freeList;
        PackRoundTrip(g, 0, 0);
        PackRoundTrip(h, 0, 0);
        assert Stood(s, g) || g == h;
      }
    }
  }

  lemma StepUses(x: History, op: Op)
    requires Sound(x) && Used(x.s, x.issued) && Legal(x, op)
    ensures Used(Step(x, op).s, Step(x, op).issued)
  {
    match op {
      case Allocate => IssueUses(x.s, x.issued);
      case AllocateMany(n) =>
        if n > 0 {
          BatchUses(x.s, x.issued, x.freed, n);
        } else {
          UsedSame(x.s, x.issued, x.issued + AsSet([]));
        }
      case Free(h) => FreeUses(x.s, x.issued, h);
    }
  }

  const FRESH := History(State([], [], 0), [], {}, {})

  lemma {:induction false} UsedFrom(x: History, ops: seq<Op>)
    requires Sound(x) && Used(x.s, x.issued) && (forall h :: h in x.issued <==> h in x.log) && Runs(x, ops)
    ensures var y := Run(x, ops); Sound(y) && Used(y.s, y.issued) && (forall h :: h in y.issued <==> h in y.log)
    decreases |ops|
  {
    if ops != [] {
      StepKeeps(x, ops[0]);
      StepUses(x, ops[0]);
      UsedFrom(Step(x, ops[0]), ops[1..]);
    }
  }

  /** From a new allocator on every history keeps the account, and every handle a slot has
      stood for was issued. */
  lemma EveryFreshHistory(ops: seq<Op>)
    requires Runs(FRESH, ops)
    ensures var x := Run(FRESH, ops); Sound(x) && Used(x.s, x.issued) && (forall h :: h in x.issued <==> h in x.log)
  {
    UsedFrom(FRESH, ops);
  }

  // ----- what the preconditions are for -----

  /** Freeing any handle keeps the free list distinct exactly when the handle is not the
      pending one of a free slot, which no history has issued. */
  lemma FreeKeepsDistinctIff(s: State, h: Handle)
    requires Distinct(s.freeList)
    ensures Distinct(Freed(s, h).freeList) <==> !Pending(s, h)
  {
    if Current(s, h) {
      var t := Freed(s, h).freeList;
      if Index(h) in s.freeList {
        var i :| 0 <= i < |s.freeList| && s.freeList[i] == Index(h);
        assert t[i] == t[|s.freeList|];
      } else {
        forall i, j | 0 <= i < j < |t| ensures t[i] != t[j] {
          assert t[i] == s.freeList[i];
        }
      }
    }
  }

  /** A forged handle puts a slot on the free list twice, so two handles then share it. */
  lemma ForgedFree()
    ensures var (s1, h) := Allocated(State([], [], 0));
      var s2 := Freed(Freed(s1, h), Pack(0, 2));
      var (s3, a) := Allocated(s2);
      var (s4, b) := Allocated(s3);
      InRange(s2) && a == b
  {
    var (s1, h) := Allocated(State([], [], 0));
    assert s1 == State([], [1], 1) && h == Pack(0, 1);
    assert Freed(s1, h) == State([0], [2], 0);
    assert Freed(State([0], [2], 0), Pack(0, 2)) == State([0, 0], [3], WORD - 1);
  }

  /** Freeing a live handle keeps the account of handles, from which no handle is issued
      twice or null, exactly when its generation is not the last one. */
  lemma FreeKeepsIff(s: State, issued: set<Handle>, freed: set<Handle>, h: Handle)
    requires Good(s, issued, freed) && h in issued && h !in freed
    ensures Good(Freed(s, h), issued, freed + {h}) <==> Generation(h) < WORD - 1
  {
    AliveIff(s, issued, freed, h);
    if Generation(h) < WORD - 1 {
      FreeKeeps(s, issued, freed, h);
    } else {
      assert Freed(s, h).generations[Index(h)] == 0;
    }
  }

  /** The other way it fails in every slot: slot zero gives out the null handle next, and
      any other slot, once that handle is freed, the first handle it ever gave out. */
  lemma WrapReissues(x: History, h: Handle)
    requires Sound(x) && Used(x.s, x.issued) && Room(x.s, 1)
    requires h in x.issued && h !in x.freed && Generation(h) == WORD - 1
    ensures var s1 := Freed(x.s, h);
      var (s2, g) := Allocated(s1);
      var s3 := Freed(s2, g);
      && g == Pack(Index(h), 0) && (Index(h) == 0 <==> g == NULL)
      && (g != NULL ==> Allocated(s3).1 == Pack(Index(h), 1) && Allocated(s3).1 in x.issued)
  {
    AliveIff(x.s, x.issued, x.freed, h);
    var i := Index(h);
    var s1 := Freed(x.s, h);
    assert s1.freeList == x.s.freeList + [i] && s1.generations == x.s.generations[i := 0];
    var (s2, g) := Allocated(s1);
    PackRoundTrip(h, i, 0);
    PackRoundTrip(h, i, 1);
    assert g == Pack(i, 0) && s2.freeList == x.s.freeList && s2.generations == s1.generations;
    if g != NULL {
      var s3 := Freed(s2, g);
      assert s3.freeList == x.s.freeList + [i] && s3.generations[i] == 1;
      assert Stood(x.s, Pack(i, 1));
    }
  }

  // ----- restoring -----

  datatype Place = Place(index: Word, generation: Word)

  function PlacedAll(s: State, places: seq<Place>): State
  {
    if places == [] then s
    else
      var t := PlacedAll(s, places[..|places| - 1]);
      var p := places[|places| - 1];
      Placed(t, p.index, p.generation)
  }

  /** The last generation each index was placed at; generation zero is ignored. */
  function LastPlaced(places: seq<Place>): (m: map<Word, Word>)
    ensures forall i :: i in m ==> m[i] >= 1
  {
    if places == [] then map[]
    else
      var m := LastPlaced(places[..|places| - 1]);
      var p := places[|places| - 1];
      if p.generation == 0 then m else m[p.index := p.generation]
  }

  /** Placed slots have their generations, and the others are unused. */
  ghost predicate SlotsAre(generations: seq<Word>, m: map<Word, Word>)
  {
    && |generations| < WORD && (forall i :: i in m ==> i < |generations|)
    && (forall i: Word :: i < |generations| ==> generations[i] == if i in m then m[i] else 0)
  }

  /** A fresh allocator after placing. */
  ghost predicate Restoring(s: State, m: map<Word, Word>)
  {
    s.freeList == [] && s.alive == |m| && SlotsAre(s.generations, m)
  }

  lemma SlotPlaced(generations: seq<Word>, m: map<Word, Word>, index: Word, generation: Word)
    requires SlotsAre(generations, m) && index < WORD - 1
    ensures SlotsAre(Padded(generations, index), m)
    ensures SlotsAre(Padded(generations, index)[index := generation], m[index := generation])
  {
  }

  lemma {:induction false} SetFits(s: set<Word>, n: nat)
    requires forall i :: i in s ==> i < n
    ensures |s| <= n
  {
    if n == 0 {
      assert s == {};
    } else if n - 1 in s {
      SetFits(s - {n - 1}, n - 1);
    } else {
      SetFits(s, n - 1);
    }
  }

  /** Words below n are at most n. */
  lemma MapFits(m: map<Word, Word>, n: nat)
    requires forall i :: i in m ==> i < n
    ensures |m| <= n
  {
    assert |m| == |m.Keys|;
    SetFits(m.Keys, n);
  }

  lemma CountKeys(m: map<Word, Word>, index: Word, generation: Word, n: nat)
    requires index < n && forall i :: i in m ==> i < n
    ensures |m[index := generation]| == (if index in m then |m| else |m| + 1) <= n
  {
    var m' := m[index := generation];
    assert m'.Keys == m.Keys + {index};
    assert |m'| == |m'.Keys| && |m| == |m.Keys|;
    MapFits(m', n);
    if index in m {
      assert m.Keys + {index} == m.Keys;
    }
  }

  lemma PlaceStep(s: State, m: map<Word, Word>, p: Place)
    requires Restoring(s, m) && p.index < WORD - 1 && forall i :: i in m ==> m[i] >= 1
    ensures Restoring(Placed(s, p.index, p.generation), if p.generation == 0 then m else m[p.index := p.generation])
  {
    if p.generation != 0 {
      SlotPlaced(s.generations, m, p.index, p.generation);
      CountKeys(m, p.index, p.generation, |Padded(s.generations, p.index)|);
      assert Padded(s.generations, p.index)[p.index] == 0 <==> p.index !in m;
    }
  }

  lemma {:induction false} PlacingRestores(places: seq<Place>)
    requires forall k :: 0 <= k < |places| ==> places[k].index < WORD - 1
    ensures Restoring(PlacedAll(State([], [], 0), places), LastPlaced(places))
  {
    if places != [] {
      var rest := places[..|places| - 1];
      PlacingRestores(rest);
      var p := places[|places| - 1];
      PlaceStep(PlacedAll(State([], [], 0), rest), LastPlaced(rest), p);
    }
  }

  function HandlesOf(m: map<Word, Word>): set<Handle>
  {
    set i | i in m :: Pack(i, m[i])
  }

  lemma HandleOf(m: map<Word, Word>, h: Handle)
    requires forall i :: i in m ==> m[i] >= 1
    ensures h in HandlesOf(m) <==> h != NULL && Index(h) in m && Generation(h) == m[Index(h)]
  {
    PackRoundTrip(h, 0, 0);
    if h in HandlesOf(m) {
      var i :| i in m && h == Pack(i, m[i]);
      PackRoundTrip(h, i, m[i]);
    }
  }

  function KeysFrom(m: map<Word, Word>, k: nat): set<Word>
  {
    set i | i in m && i >= k
  }

  lemma GapsNext(generations: seq<Word>, k: nat)
    requires k < |generations| < WORD
    ensures |Gaps(generations, k)| == |Gaps(generations, k + 1)| + (if generations[k] == 0 then 1 else 0)
  {
  }

  lemma KeysFromNext(m: map<Word, Word>, k: Word)
    ensures |KeysFrom(m, k)| == |KeysFrom(m, k + 1)| + (if k in m then 1 else 0)
  {
    if k in m {
      AddOne(KeysFrom(m, k + 1), k);
      assert KeysFrom(m, k) == KeysFrom(m, k + 1) + {k};
    } else {
      assert KeysFrom(m, k) == KeysFrom(m, k + 1);
    }
  }

  lemma NoKeysFrom(generations: seq<Word>, m: map<Word, Word>)
    requires SlotsAre(generations, m)
    ensures KeysFrom(m, |generations|) == {}
  {
  }

  lemma SlotUsed(generations: seq<Word>, m: map<Word, Word>, k: Word)
    requires k < |generations| && SlotsAre(generations, m) && forall i :: i in m ==> m[i] >= 1
    ensures k in m <==> generations[k] != 0
  {
  }

  lemma {:induction false} CountGaps(generations: seq<Word>, m: map<Word, Word>, k: nat)
    requires k <= |generations| && SlotsAre(generations, m) && forall i :: i in m ==> m[i] >= 1
    ensures |Gaps(generations, k)| + |KeysFrom(m, k)| == |generations| - k
    decreases |generations| - k
  {
    if k == |generations| {
      NoKeysFrom(generations, m);
    } else {
      CountGaps(generations, m, k + 1);
      KeysFromNext(m, k);
      GapsNext(generations, k);
      SlotUsed(generations, m, k);
    }
  }

  lemma GapsInside(generations: seq<Word>)
    requires |generations| < WORD
    ensures var gaps := Gaps(generations, 0);
      (forall k :: 0 <= k < |gaps| ==> gaps[k] < |generations|) && Distinct(gaps)
  {
    var gaps := Gaps(generations, 0);
    forall k | 0 <= k < |gaps| ensures gaps[k] < |generations| {
      assert gaps[k] in gaps;
    }
  }

  lemma RebuiltIsSane(s0: State, m: map<Word, Word>)
    requires Restoring(s0, m) && forall i :: i in m ==> m[i] >= 1
    ensures Sane(Rebuilt(s0))
    ensures forall i: Word :: i < |s0.generations| ==> (i in Rebuilt(s0).freeList <==> i !in m)
    ensures forall i: Word :: i in m ==> i < |s0.generations| && Rebuilt(s0).generations[i] == m[i]
  {
    CountGaps(s0.generations, m, 0);
    assert KeysFrom(m, 0) == m.Keys;
    GapsInside(s0.generations);
    forall i: Word | i < |s0.generations| ensures i in Gaps(s0.generations, 0) <==> i !in m {
      SlotUsed(s0.generations, m, i);
    }
  }

  function HandlesOver(m: map<Word, Word>, keys: set<Word>): set<Handle>
    requires keys <= m.Keys
  {
    set i | i in keys :: Pack(i, m[i])
  }

  lemma HandleNew(m: map<Word, Word>, rest: set<Word>, i: Word)
    requires rest <= m.Keys && i in m && i !in rest
    ensures Pack(i, m[i]) !in HandlesOver(m, rest)
    ensures HandlesOver(m, rest + {i}) == HandlesOver(m, rest) + {Pack(i, m[i])}
  {
    var h := Pack(i, m[i]);
    forall j | j in rest ensures Pack(j, m[j]) != h {
      PackRoundTrip(h, i, m[i]);
      PackRoundTrip(h, j, m[j]);
    }
  }

  lemma {:induction false} HandlesAreAsMany(m: map<Word, Word>, keys: set<Word>)
    requires keys <= m.Keys
    ensures |HandlesOver(m, keys)| == |keys|
    decreases keys
  {
    if keys != {} {
      var i :| i in keys;
      var rest := keys - {i};
      HandlesAreAsMany(m, rest);
      HandleNew(m, rest, i);
      AddOne(HandlesOver(m, rest), Pack(i, m[i]));
      assert keys == rest + {i};
    }
  }

  lemma RebuiltIsGood(s0: State, m: map<Word, Word>)
    requires Restoring(s0, m) && forall i :: i in m ==> m[i] >= 1
    ensures Good(Rebuilt(s0), HandlesOf(m), {})
    ensures forall h :: h in HandlesOf(m) ==> Current(Rebuilt(s0), h)
    ensures NULL !in HandlesOf(m)
  {
    RebuiltIsSane(s0, m);
    var s := Rebuilt(s0);
    HandlesAreAsMany(m, m.Keys);
    assert HandlesOf(m) == HandlesOver(m, m.Keys) && |m| == |m.Keys|;
    forall h ensures h in HandlesOf(m) <==> h != NULL && Index(h) in m && Generation(h) == m[Index(h)] {
      HandleOf(m, h);
    }
  }

  /** After PlaceAt calls on a fresh allocator and one RebuildFreeList, the placed handles
      count as issued and not freed: all that holds of every history holds from here on.
      Each is alive, and no index of theirs is given out before it is freed. */
  lemma RestoredIsSound(places: seq<Place>)
    requires forall k :: 0 <= k < |places| ==> places[k].index < WORD - 1
    ensures |PlacedAll(State([], [], 0), places).generations| < WORD
    ensures var s := Rebuilt(PlacedAll(State([], [], 0), places));
      var placed := HandlesOf(LastPlaced(places));
      Sound(History(s, [], placed, {})) && (forall h :: h in placed ==> Current(s, h))
  {
    PlacingRestores(places);
    RebuiltIsGood(PlacedAll(State([], [], 0), places), LastPlaced(places));
  }

  lemma LastGapIsLeast(generations: seq<Word>)
    requires |generations| < WORD && Gaps(generations, 0) != []
    ensures var gaps := Gaps(generations, 0);
      var least := gaps[|gaps| - 1];
      && least < |generations| && generations[least] == 0
      && forall i :: 0 <= i < |generations| && generations[i] == 0 ==> least <= i
  {
    var gaps := Gaps(generations, 0);
    assert gaps[|gaps| - 1] in gaps;
    forall i: nat | i < |generations| && generations[i] == 0 ensures gaps[|gaps| - 1] <= i {
      assert i in gaps;
      var k :| 0 <= k < |gaps| && gaps[k] == i;
    }
  }

  /** After a rebuild the lowest unused slot is given out first, at generation one. */
  lemma LowestGapFirst(s: State)
    requires Room(s, 1) && Gaps(s.generations, 0) != []
    ensures InRange(Rebuilt(s)) && Room(Rebuilt(s), 1)
    ensures var h := Allocated(Rebuilt(s)).1;
      Generation(h) == 1 && Index(h) < |s.generations| && s.generations[Index(h)] == 0 &&
      forall i :: 0 <= i < |s.generations| && s.generations[i] == 0 ==> Index(h) <= i
  {
    GapsInside(s.generations);
    LastGapIsLeast(s.generations);
    var gaps := Gaps(s.generations, 0);
    PackRoundTrip(NULL, gaps[|gaps| - 1], 1);
  }
}
