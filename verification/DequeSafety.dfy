/** Every step of every goroutine keeps the deque's invariant. */
module DequeSafety {
  import opened Options
  import opened Ring
  import opened Deque

  lemma InitSafe(logSize: nat, thieves: nat)
    ensures Safe(Init(logSize, thieves))
  {
    var s := Init(logSize, thieves);
    forall k: nat | k < |s.thieves| ensures ThiefOk(s, k) {}
  }

  /** A cell keeps its task and, unless it is `except`, its owner. */
  ghost predicate CellsKept(s: State, s': State, except: Option<Cell>)
  {
    forall c :: c in s.place && s.place[c] != Pooled && Some(c) != except && c in s.cells ==>
      c in s'.place && s'.place[c] == s.place[c] && c in s'.cells && s'.cells[c] == s.cells[c]
  }

  /** Live indices stay live when their slots and cells are untouched. */
  lemma LiveKept(s: State, s': State, except: Option<Cell>)
    requires LiveOk(s) && CellsKept(s, s', except)
    requires |s'.rings| > 0 && s'.current == |s'.rings| - 1
    requires s.top <= s'.top <= LogicalBottom(s') <= LogicalBottom(s)
    requires LogicalBottom(s') <= s'.top + Size(s'.rings[s'.current])
    requires forall i: nat {:trigger SlotAt(s', i)} :: s'.top <= i < LogicalBottom(s') ==>
      SlotAt(s', i) == SlotAt(s, i) && SlotAt(s, i) != except
    ensures LiveOk(s')
  {
    forall i: nat {:trigger SlotAt(s', i)} | s'.top <= i < LogicalBottom(s')
      ensures Owned(s', SlotAt(s', i), Live(i))
    {
      assert Owned(s, SlotAt(s, i), Live(i));
    }
  }

  /** What thieves have read stays true when `top` moves, or the slot at `top` does not. */
  lemma ThievesKept(s: State, s': State, except: Option<Cell>, me: int)
    requires ThievesOk(s) && CellsKept(s, s', except)
    requires |s'.thieves| == |s.thieves|
    requires forall k: nat {:trigger s'.thieves[k]} :: k < |s.thieves| && k != me ==> s'.thieves[k] == s.thieves[k]
    requires except.Some? && except.value in s.place ==>
      !s.place[except.value].ThiefHas? || s.place[except.value].k == me
    requires s.top <= s'.top && |s.rings| <= |s'.rings|
    requires s.top == s'.top && s.top < LogicalBottom(s) ==>
      && s.top < LogicalBottom(s') && SlotAt(s', s.top) == SlotAt(s, s.top)
      && forall a :: 0 <= a < |s.rings| ==> Get(s'.rings[a], s.top) == Get(s.rings[a], s.top)
    ensures forall k: nat {:trigger ThiefOk(s', k)} :: k < |s'.thieves| && k != me ==> ThiefOk(s', k)
  {
    forall k: nat {:trigger ThiefOk(s', k)} | k < |s'.thieves| && k != me
      ensures ThiefOk(s', k)
    {
      assert ThiefOk(s, k);
      assert s'.thieves[k] == s.thieves[k];
    }
  }

  /** The owner's facts survive a change to a cell it does not hold. */
  lemma OwnerKept(s: State, s': State, except: Option<Cell>)
    requires OwnerOk(s) && CellsKept(s, s', except)
    requires s'.owner == s.owner && s'.bottom == s.bottom && s'.top == s.top
    requires s'.rings == s.rings && s'.current == s.current
    requires except.Some? && except.value in s.place ==> s.place[except.value] != OwnerHas
    ensures OwnerOk(s')
  {
    if s.owner.PopLoadSlot? && s.owner.tp < s.owner.b {
      assert SlotAt(s', s.owner.b) == SlotAt(s, s.owner.b);
    }
  }

  lemma PushKeepsSafe(s: State, t: Task, c: Cell)
    requires Safe(s) && Enabled(s, Push(t, c))
    ensures Safe(Step(s, Push(t, c)))
  {
    var s' := Step(s, Push(t, c));
    LiveKept(s, s', Some(c));
    ThievesKept(s, s', Some(c), -1);
  }

  /** An owner that changes nothing but its own locals and `bottom`, keeping the
      logical bottom where it is, keeps everyone's invariant. */
  lemma OwnerLocal(s: State, w: Owner, b: int)
    requires Safe(s)
    requires var s' := s.(owner := w, bottom := b); LogicalBottom(s') == LogicalBottom(s) && OwnerOk(s')
    ensures Safe(s.(owner := w, bottom := b))
  {
    var s' := s.(owner := w, bottom := b);
    LiveKept(s, s', None);
    ThievesKept(s, s', None, -1);
  }

  lemma PopKeepsSafe(s: State)
    requires Safe(s) && Enabled(s, Pop)
    ensures Safe(Step(s, Pop))
  {
    OwnerLocal(s, PopLoadArray(s.bottom - 1), s.bottom);
  }

  lemma PushLoadsKeepSafe(s: State)
    requires Safe(s) && (s.owner.PushLoadBottom? || s.owner.PushLoadTop? || s.owner.PushLoadArray?)
    ensures Safe(StepOwner(s))
  {
    match s.owner {
      case PushLoadBottom(c) => OwnerLocal(s, PushLoadTop(c, s.bottom), s.bottom);
      case PushLoadTop(c, b) => OwnerLocal(s, PushLoadArray(c, b, s.top), s.bottom);
      case PushLoadArray(c, b, tp) =>
        if b - tp > CurrentSize(s) - 1 {
          OwnerLocal(s, PushGrow(c, b, tp, s.current, tp, Blank(2 * Size(s.rings[s.current]))), s.bottom);
        } else {
          OwnerLocal(s, PushSlot(c, b, s.current), s.bottom);
        }
    }
  }

  lemma PopLoadsKeepSafe(s: State)
    requires Safe(s) && (s.owner.PopLoadArray? || s.owner.PopStoreBottom? || s.owner.PopRestore? || s.owner.PopUnlock?)
    ensures Safe(StepOwner(s))
  {
    match s.owner {
      case PopLoadArray(b) => OwnerLocal(s, PopStoreBottom(b, s.current), s.bottom);
      case PopStoreBottom(b, a) => OwnerLocal(s, PopLoadTop(b, a), b);
      case PopRestore(b) => OwnerLocal(s, Idle, b + 1);
      case PopUnlock(b, p, won) => OwnerLocal(s, if won then PopConsume(p) else Idle, b + 1);
    }
  }

  /** Copying one slot writes only the ring that is not yet published. */
  lemma PushCopyKeepsSafe(s: State)
    requires Safe(s) && s.owner.PushGrow? && s.owner.i < s.owner.b
    ensures Safe(StepOwner(s))
  {
    var PushGrow(c, b, tp, a, i, n) := s.owner;
    OwnerLocal(s, PushGrow(c, b, tp, a, i + 1, Put(n, i, Get(s.rings[a], i))), s.bottom);
  }

  /** Publishing the doubled ring: live slots read the same in it. */
  lemma PushGrownKeepsSafe(s: State)
    requires Safe(s) && s.owner.PushGrow? && s.owner.i >= s.owner.b
    ensures Safe(StepOwner(s))
  {
    var s' := StepOwner(s);
    LiveKept(s, s', None);
    ThievesKept(s, s', None, -1);
  }

  lemma PushSlotKeepsSafe(s: State)
    requires Safe(s) && s.owner.PushSlot?
    ensures Safe(StepOwner(s))
  {
    var s' := StepOwner(s);
    LiveKept(s, s', None);
    ThievesKept(s, s', None, -1);
  }

  lemma PushPublishKeepsSafe(s: State)
    requires Safe(s) && s.owner.PushPublish?
    ensures Safe(StepOwner(s))
  {
    var s' := StepOwner(s);
    var c := Some(s.owner.c);
    forall i: nat {:trigger SlotAt(s', i)} | s'.top <= i < LogicalBottom(s')
      ensures Owned(s', SlotAt(s', i), Live(i))
    {
      assert SlotAt(s', i) == SlotAt(s, i);
    }
    ThievesKept(s, s', c, -1);
  }

  lemma PopLoadTopKeepsSafe(s: State)
    requires Safe(s) && s.owner.PopLoadTop?
    ensures Safe(StepOwner(s))
  {
    var s' := StepOwner(s);
    var b := s.owner.b;
    if s.top < b {
      var p := SlotAt(s, b);
      assert Owned(s, p, Live(b));
      forall i: nat {:trigger SlotAt(s', i)} | s'.top <= i < LogicalBottom(s')
        ensures SlotAt(s', i) == SlotAt(s, i) && SlotAt(s, i) != p
      {
        assert Owned(s, SlotAt(s, i), Live(i));
      }
      LiveKept(s, s', p);
      ThievesKept(s, s', p, -1);
    } else {
      LiveKept(s, s', None);
      ThievesKept(s, s', None, -1);
    }
  }

  lemma PopLoadSlotKeepsSafe(s: State)
    requires Safe(s) && s.owner.PopLoadSlot?
    ensures Safe(StepOwner(s))
  {
    var s' := StepOwner(s);
    LiveKept(s, s', None);
    ThievesKept(s, s', None, -1);
  }

  lemma PopCasKeepsSafe(s: State)
    requires Safe(s) && s.owner.PopCas?
    ensures Safe(StepOwner(s))
  {
    var s' := StepOwner(s);
    var p := s.owner.p;
    if s.top == s.owner.tp {
      assert Owned(s, SlotAt(s, s.top), Live(s.top));
      LiveKept(s, s', p);
      ThievesKept(s, s', p, -1);
    } else {
      LiveKept(s, s', None);
      ThievesKept(s, s', None, -1);
    }
  }

  lemma PopConsumeKeepsSafe(s: State)
    requires Safe(s) && s.owner.PopConsume?
    ensures Safe(StepOwner(s))
  {
    var s' := StepOwner(s);
    var p := s.owner.p;
    forall i: nat {:trigger SlotAt(s', i)} | s'.top <= i < LogicalBottom(s')
      ensures SlotAt(s', i) == SlotAt(s, i) && SlotAt(s, i) != p
    {
      assert Owned(s, SlotAt(s, i), Live(i));
    }
    LiveKept(s, s', p);
    ThievesKept(s, s', p, -1);
  }

  lemma OwnerKeepsSafe(s: State)
    requires Safe(s) && !s.owner.Idle?
    ensures Safe(StepOwner(s))
  {
    match s.owner {
      case PushLoadBottom(_) => PushLoadsKeepSafe(s);
      case PushLoadTop(_, _) => PushLoadsKeepSafe(s);
      case PushLoadArray(_, _, _) => PushLoadsKeepSafe(s);
      case PushGrow(_, b, _, _, i, _) =>
        if i < b {
          PushCopyKeepsSafe(s);
        } else {
          PushGrownKeepsSafe(s);
        }
      case PushSlot(_, _, _) => PushSlotKeepsSafe(s);
      case PushPublish(_, _) => PushPublishKeepsSafe(s);
      case PopLoadTop(_, _) => PopLoadTopKeepsSafe(s);
      case PopLoadSlot(_, _, _) => PopLoadSlotKeepsSafe(s);
      case PopCas(_, _, _) => PopCasKeepsSafe(s);
      case PopConsume(_) => PopConsumeKeepsSafe(s);
      case _ => PopLoadsKeepSafe(s);
    }
  }

  /** A thief that changes nothing but its own locals keeps everyone's invariant. */
  lemma ThiefLocal(s: State, k: nat, w: Thief)
    requires Safe(s) && k < |s.thieves|
    requires ThiefOk(s.(thieves := s.thieves[k := w]), k)
    ensures Safe(s.(thieves := s.thieves[k := w]))
  {
    var s' := s.(thieves := s.thieves[k := w]);
    LiveKept(s, s', None);
    ThievesKept(s, s', None, k);
  }

  lemma StealKeepsSafe(s: State, k: nat)
    requires Safe(s) && Enabled(s, Steal(k))
    ensures Safe(Step(s, Steal(k)))
  {
    ThiefLocal(s, k, LoadBottom(s.top));
  }

  /** A thief's loads, and a compare-and-swap it loses. */
  lemma ThiefReadKeepsSafe(s: State, k: nat)
    requires Safe(s) && k < |s.thieves|
    requires match s.thieves[k]
             case Free => false
             case Consume(_) => false
             case Cas(tp, _) => s.top != tp
             case _ => true
    ensures Safe(StepThief(s, k))
  {
    assert ThiefOk(s, k);
    match s.thieves[k] {
      case LoadBottom(tp) => ThiefLocal(s, k, if tp >= s.bottom then Free else LoadArray(tp));
      case LoadArray(tp) => ThiefLocal(s, k, LoadSlot(tp, s.current));
      case LoadSlot(tp, a) => ThiefLocal(s, k, Cas(tp, Get(s.rings[a], tp)));
      case Cas(tp, _) => ThiefLocal(s, k, Free);
    }
  }

  lemma ThiefWinKeepsSafe(s: State, k: nat)
    requires Safe(s) && k < |s.thieves| && s.thieves[k].Cas? && s.top == s.thieves[k].tp
    ensures Safe(StepThief(s, k))
  {
    var s' := StepThief(s, k);
    assert ThiefOk(s, k);
    var p := s.thieves[k].p;
    assert Owned(s, SlotAt(s, s.top), Live(s.top));
    forall i: nat {:trigger SlotAt(s', i)} | s'.top <= i < LogicalBottom(s')
      ensures SlotAt(s', i) == SlotAt(s, i) && SlotAt(s, i) != p
    {
      assert Owned(s, SlotAt(s, i), Live(i));
    }
    LiveKept(s, s', p);
    ThievesKept(s, s', p, k);
    assert ThiefOk(s', k);
  }

  lemma ThiefConsumeKeepsSafe(s: State, k: nat)
    requires Safe(s) && k < |s.thieves| && s.thieves[k].Consume?
    ensures Safe(StepThief(s, k))
  {
    var s' := StepThief(s, k);
    assert ThiefOk(s, k);
    var p := s.thieves[k].p;
    forall i: nat {:trigger SlotAt(s', i)} | s'.top <= i < LogicalBottom(s')
      ensures SlotAt(s', i) == SlotAt(s, i) && SlotAt(s, i) != p
    {
      assert Owned(s, SlotAt(s, i), Live(i));
    }
    OwnerKept(s, s', p);
    LiveKept(s, s', p);
    ThievesKept(s, s', p, k);
    assert ThiefOk(s', k);
  }

  lemma ThiefKeepsSafe(s: State, k: nat)
    requires Safe(s) && k < |s.thieves| && !s.thieves[k].Free?
    ensures Safe(StepThief(s, k))
  {
    match s.thieves[k] {
      case Consume(_) => ThiefConsumeKeepsSafe(s, k);
      case Cas(tp, _) =>
        if s.top == tp {
          ThiefWinKeepsSafe(s, k);
        } else {
          ThiefReadKeepsSafe(s, k);
        }
      case _ => ThiefReadKeepsSafe(s, k);
    }
  }

  /** One step, whoever takes it. */
  lemma StepKeepsSafe(s: State, a: Action)
    requires Safe(s) && Enabled(s, a)
    ensures Safe(Step(s, a))
  {
    match a {
      case Push(t, c) => PushKeepsSafe(s, t, c);
      case Pop => PopKeepsSafe(s);
      case OwnerStep => OwnerKeepsSafe(s);
      case Steal(k) => StealKeepsSafe(s, k);
      case ThiefStep(k) => ThiefKeepsSafe(s, k);
    }
  }
}
