/** Every run of the deque is linearizable: each operation takes effect at one of its
    own steps, in an order the sequential deque allows, and returns what it took. */
module DequeHistory {
  import opened Options
  import opened Ring
  import opened Deque
  import opened DequeSafety

  lemma ReplayAppend(events: seq<Event>, e: Event)
    ensures Replay(events + [e]) == if Replay(events).Some? then Apply(Replay(events).value, e) else None
  {
    assert (events + [e])[..|events|] == events;
  }

  lemma TakenByAppend(events: seq<Event>, e: Event, who: Agent)
    ensures TakenBy(events + [e], who) == TakenBy(events, who) + Took(e, who)
  {
    assert (events + [e])[..|events|] == events;
  }

  lemma GivenToAppend(returned: seq<(Agent, Task)>, r: (Agent, Task), who: Agent)
    ensures GivenTo(returned + [r], who) == GivenTo(returned, who) + GivenBy(r, who)
  {
    assert (returned + [r])[..|returned|] == returned;
  }

  lemma PushedInAppend(events: seq<Event>, e: Event)
    ensures PushedIn(events + [e]) == PushedIn(events) + PushedBy(e)
  {
    assert (events + [e])[..|events|] == events;
  }

  lemma TakenByConcat(a: seq<Event>, b: seq<Event>, who: Agent)
    requires |b| <= 1
    ensures TakenBy(a + b, who) == TakenBy(a, who) + TakenBy(b, who)
  {
    if b == [] {
      assert a + b == a;
      assert TakenBy(a, who) + [] == TakenBy(a, who);
    } else {
      assert b == [] + [b[0]];
      TakenByAppend(a, b[0], who);
      TakenByAppend([], b[0], who);
      assert TakenBy(b, who) == Took(b[0], who);
    }
  }

  lemma GivenToConcat(a: seq<(Agent, Task)>, b: seq<(Agent, Task)>, who: Agent)
    requires |b| <= 1
    ensures GivenTo(a + b, who) == GivenTo(a, who) + GivenTo(b, who)
  {
    if b == [] {
      assert a + b == a;
      assert GivenTo(a, who) + [] == GivenTo(a, who);
    } else {
      assert b == [] + [b[0]];
      GivenToAppend(a, b[0], who);
      GivenToAppend([], b[0], who);
      assert GivenTo(b, who) == GivenBy(b[0], who);
    }
  }

  lemma PushedInConcat(a: seq<Event>, b: seq<Event>)
    requires |b| <= 1
    ensures PushedIn(a + b) == PushedIn(a) + PushedIn(b)
  {
    if b == [] {
      assert a + b == a;
      assert PushedIn(a) + [] == PushedIn(a);
    } else {
      assert b == [] + [b[0]];
      PushedInAppend(a, b[0]);
      PushedInAppend([], b[0]);
      assert PushedIn(b) == PushedBy(b[0]);
    }
  }

  lemma ReplayConcat(a: seq<Event>, b: seq<Event>, q: seq<Task>, q': seq<Task>)
    requires |b| <= 1 && Replay(a) == Some(q)
    requires if b == [] then q' == q else Apply(q, b[0]) == Some(q')
    ensures Replay(a + b) == Some(q')
  {
    if b == [] {
      assert a + b == a;
    } else {
      assert b == [b[0]];
      ReplayAppend(a, b[0]);
    }
  }

  /** What an agent held, and what the event took, is what it got back and now holds. */
  predicate Balanced(ev: seq<Event>, ret: seq<(Agent, Task)>, who: Agent, held: seq<Task>, held': seq<Task>)
  {
    held + TakenBy(ev, who) == GivenTo(ret, who) + held'
  }

  lemma Regroup<T>(e: seq<T>, a: seq<T>, b: seq<T>, c: seq<T>, d: seq<T>)
    requires a + b == c + d
    ensures (e + a) + b == (e + c) + d
  {
    assert (e + a) + b == e + (a + b);
    assert (e + c) + d == e + (c + d);
  }

  lemma AgentAdvances(events: seq<Event>, ev: seq<Event>, returned: seq<(Agent, Task)>, ret: seq<(Agent, Task)>,
                      who: Agent, held: seq<Task>, held': seq<Task>)
    requires |ev| <= 1 && |ret| <= 1
    requires AgentOk(events, returned, who, held) && Balanced(ev, ret, who, held, held')
    ensures AgentOk(events + ev, returned + ret, who, held')
  {
    TakenByConcat(events, ev, who);
    GivenToConcat(returned, ret, who);
    Regroup(GivenTo(returned, who), held, TakenBy(ev, who), GivenTo(ret, who), held');
  }

  lemma CallsAdvance(events: seq<Event>, ev: seq<Event>, pushing: seq<Task>, pushing': seq<Task>,
                     calls: seq<Task>, more: seq<Task>)
    requires |ev| <= 1 && calls == PushedIn(events) + pushing && pushing + more == PushedIn(ev) + pushing'
    ensures calls + more == PushedIn(events + ev) + pushing'
  {
    PushedInConcat(events, ev);
    Regroup(PushedIn(events), pushing, more, PushedIn(ev), pushing');
  }

  /** A step that records at most one event `ev` and one return `ret` stays linearized
      when the contents follow the event and every agent's account balances. */
  lemma Advance(s: State, s': State, ev: seq<Event>, ret: seq<(Agent, Task)>, more: seq<Task>)
    requires Linearized(s) && |ev| <= 1 && |ret| <= 1
    requires s'.events == s.events + ev && s'.returned == s.returned + ret && s'.calls == s.calls + more
    requires if ev == [] then Abs(s') == Abs(s) else Apply(Abs(s), ev[0]) == Some(Abs(s'))
    requires Pushing(s) + more == PushedIn(ev) + Pushing(s')
    requires forall who {:trigger Holding(s', who)} :: Balanced(ev, ret, who, Holding(s, who), Holding(s', who))
    ensures Linearized(s')
  {
    ReplayConcat(s.events, ev, Abs(s), Abs(s'));
    CallsAdvance(s.events, ev, Pushing(s), Pushing(s'), s.calls, more);
    forall who {:trigger Holding(s', who)} ensures AgentOk(s'.events, s'.returned, who, Holding(s', who)) {
      assert AgentOk(s.events, s.returned, who, Holding(s, who));
      assert Balanced(ev, ret, who, Holding(s, who), Holding(s', who));
      AgentAdvances(s.events, ev, s.returned, ret, who, Holding(s, who), Holding(s', who));
    }
  }

  lemma NothingTaken(ev: seq<Event>, who: Agent)
    requires |ev| <= 1 && (ev != [] ==> Took(ev[0], who) == [])
    ensures TakenBy(ev, who) == []
  {
    if ev != [] {
      assert ev[..|ev| - 1] == [];
    }
  }

  lemma NothingGiven(ret: seq<(Agent, Task)>, who: Agent)
    requires |ret| <= 1 && (ret != [] ==> ret[0].0 != who)
    ensures GivenTo(ret, who) == []
  {
    if ret != [] {
      assert ret[..|ret| - 1] == [];
    }
  }

  /** Every thief but `me` holds what it held. */
  ghost predicate ThievesHold(s: State, s': State, me: int)
  {
    forall k: nat {:trigger Holding(s', AThief(k))} :: k != me ==> Holding(s', AThief(k)) == Holding(s, AThief(k))
  }

  /** When only `me` takes or is given, and everyone else holds what they held, all balance. */
  lemma OthersBalance(s: State, s': State, me: Agent, k: int, ev: seq<Event>, ret: seq<(Agent, Task)>)
    requires |ev| <= 1 && |ret| <= 1
    requires (ev != [] ==> forall who :: who != me ==> Took(ev[0], who) == []) && (ret != [] ==> ret[0].0 == me)
    requires Balanced(ev, ret, me, Holding(s, me), Holding(s', me))
    requires ThievesHold(s, s', k) && (me.AThief? ==> me.k == k && Holding(s', TheOwner) == Holding(s, TheOwner))
    requires me.TheOwner? ==> k == -1
    ensures forall who {:trigger Holding(s', who)} :: Balanced(ev, ret, who, Holding(s, who), Holding(s', who))
  {
    forall who {:trigger Holding(s', who)} ensures Balanced(ev, ret, who, Holding(s, who), Holding(s', who)) {
      if who != me {
        assert who.AThief? ==> Holding(s', AThief(who.k)) == Holding(s, AThief(who.k));
        NothingTaken(ev, who);
        NothingGiven(ret, who);
      }
    }
  }

  /** `Advance` for a step of the owner: thieves hold what they held. */
  lemma AdvanceOwner(s: State, s': State, ev: seq<Event>, ret: seq<(Agent, Task)>, more: seq<Task>)
    requires Linearized(s) && |ev| <= 1 && |ret| <= 1
    requires s'.events == s.events + ev && s'.returned == s.returned + ret && s'.calls == s.calls + more
    requires if ev == [] then Abs(s') == Abs(s) else Apply(Abs(s), ev[0]) == Some(Abs(s'))
    requires Pushing(s) + more == PushedIn(ev) + Pushing(s')
    requires (ev != [] ==> !ev[0].Stole?) && (ret != [] ==> ret[0].0 == TheOwner)
    requires Balanced(ev, ret, TheOwner, Holding(s, TheOwner), Holding(s', TheOwner))
    requires ThievesHold(s, s', -1)
    ensures Linearized(s')
  {
    OthersBalance(s, s', TheOwner, -1, ev, ret);
    Advance(s, s', ev, ret, more);
  }

  lemma PushedNothing(ev: seq<Event>)
    requires |ev| <= 1 && (ev != [] ==> !ev[0].Pushed?)
    ensures PushedIn(ev) == []
  {
    if ev != [] {
      assert ev[..|ev| - 1] == [];
    }
  }

  /** `Advance` for a step of thief `k`: everyone else holds what they held. */
  lemma AdvanceThief(s: State, s': State, k: nat, ev: seq<Event>, ret: seq<(Agent, Task)>)
    requires Linearized(s) && |ev| <= 1 && |ret| <= 1
    requires s'.events == s.events + ev && s'.returned == s.returned + ret && s'.calls == s.calls
    requires if ev == [] then Abs(s') == Abs(s) else Apply(Abs(s), ev[0]) == Some(Abs(s'))
    requires Pushing(s') == Pushing(s)
    requires (ev != [] ==> ev[0].Stole? && ev[0].k == k) && (ret != [] ==> ret[0].0 == AThief(k))
    requires Balanced(ev, ret, AThief(k), Holding(s, AThief(k)), Holding(s', AThief(k)))
    requires ThievesHold(s, s', k) && Holding(s', TheOwner) == Holding(s, TheOwner)
    ensures Linearized(s')
  {
    OthersBalance(s, s', AThief(k), k, ev, ret);
    PushedNothing(ev);
    assert s.calls + [] == s.calls;
    Advance(s, s', ev, ret, []);
  }

  lemma TakesOne(e: Event, who: Agent, t: Task)
    requires Took(e, who) == [t]
    ensures Balanced([e], [], who, [], [t])
  {
    assert [e] == [] + [e];
    TakenByAppend([], e, who);
  }

  lemma GivesOne(who: Agent, t: Task)
    ensures Balanced([], [(who, t)], who, [t], [])
  {
    assert [(who, t)] == [] + [(who, t)];
    GivenToAppend([], (who, t), who);
  }

  lemma ThievesStillHold(s: State, s': State, except: Option<Cell>, me: int)
    requires ThievesOk(s) && CellsKept(s, s', except) && |s'.thieves| == |s.thieves|
    requires forall k: nat {:trigger s'.thieves[k]} :: k < |s.thieves| && k != me ==> s'.thieves[k] == s.thieves[k]
    requires except.Some? && except.value in s.place ==>
      !s.place[except.value].ThiefHas? || s.place[except.value].k == me
    ensures ThievesHold(s, s', me)
  {
    forall k: nat {:trigger Holding(s', AThief(k))} | k != me
      ensures Holding(s', AThief(k)) == Holding(s, AThief(k))
    {
      if k < |s.thieves| {
        assert ThiefOk(s, k);
        assert s'.thieves[k] == s.thieves[k];
      }
    }
  }

  lemma OwnerStillHolds(s: State, s': State, except: Option<Cell>)
    requires OwnerOk(s) && CellsKept(s, s', except)
    requires s'.owner == s.owner && s'.rings == s.rings && s'.current == s.current
    requires except.Some? && except.value in s.place ==> s.place[except.value] != OwnerHas
    ensures Holding(s', TheOwner) == Holding(s, TheOwner) && Pushing(s') == Pushing(s)
  {
    if s.owner.PopLoadSlot? && s.owner.b >= 0 {
      assert SlotAt(s', s.owner.b) == SlotAt(s, s.owner.b);
    }
  }

  lemma RangeSlice(s: State, lo: nat, hi: int, lo': nat, hi': int)
    requires lo <= lo' <= hi' <= hi
    ensures Range(s, lo', hi') == Range(s, lo, hi)[lo' - lo..hi' - lo]
  {
  }

  lemma RangeKept(s: State, s': State, lo: nat, hi: int)
    requires forall i: nat {:trigger SlotAt(s', i)} :: lo <= i < hi ==>
      TaskOf(s', SlotAt(s', i)) == TaskOf(s, SlotAt(s, i))
    ensures Range(s', lo, hi) == Range(s, lo, hi)
  {
  }

  lemma RangeGrows(s: State, lo: nat, hi: nat)
    requires lo <= hi
    ensures Range(s, lo, hi + 1) == Range(s, lo, hi) + [TaskOf(s, SlotAt(s, hi))]
  {
  }

  lemma SameTask(s: State, s': State, except: Option<Cell>, p: Option<Cell>, w: Place)
    requires CellsKept(s, s', except) && Owned(s, p, w) && w != Pooled && p != except
    ensures TaskOf(s', p) == TaskOf(s, p)
  {
  }

  /** Live slots that read the same, with their cells untouched, carry the same tasks. */
  lemma LiveTasksKept(s: State, s': State, except: Option<Cell>, lo: nat, hi: int)
    requires LiveOk(s) && CellsKept(s, s', except) && s.top <= lo <= hi <= LogicalBottom(s)
    requires forall i: nat {:trigger SlotAt(s', i)} :: lo <= i < hi ==>
      SlotAt(s', i) == SlotAt(s, i) && SlotAt(s, i) != except
    ensures Range(s', lo, hi) == Abs(s)[lo - s.top..hi - s.top]
  {
    forall i: nat {:trigger SlotAt(s', i)} | lo <= i < hi
      ensures TaskOf(s', SlotAt(s', i)) == TaskOf(s, SlotAt(s, i))
    {
      assert Owned(s, SlotAt(s, i), Live(i));
      assert SlotAt(s', i) == SlotAt(s, i) && SlotAt(s, i) != except;
      SameTask(s, s', except, SlotAt(s, i), Live(i));
    }
    RangeKept(s, s', lo, hi);
    RangeSlice(s, s.top, LogicalBottom(s), lo, hi);
  }

  /** With the same rings, and `except` belonging to no live index in range, likewise. */
  lemma AbsShrinks(s: State, s': State, except: Option<Cell>, lo: nat, hi: int)
    requires LiveOk(s) && CellsKept(s, s', except) && s.top <= lo <= hi <= LogicalBottom(s)
    requires s'.rings == s.rings && s'.current == s.current
    requires except.Some? && except.value in s.place ==>
      !s.place[except.value].Live? || s.place[except.value].i < lo || s.place[except.value].i >= hi
    ensures Range(s', lo, hi) == Abs(s)[lo - s.top..hi - s.top]
  {
    forall i: nat {:trigger SlotAt(s', i)} | lo <= i < hi
      ensures SlotAt(s', i) == SlotAt(s, i) && SlotAt(s, i) != except
    {
      assert Owned(s, SlotAt(s, i), Live(i));
    }
    LiveTasksKept(s, s', except, lo, hi);
  }

  /** The contents do not depend on a cell that is not live. */
  lemma AbsKept(s: State, s': State, except: Option<Cell>)
    requires LiveOk(s) && CellsKept(s, s', except)
    requires s'.rings == s.rings && s'.current == s.current && s'.top == s.top && LogicalBottom(s') == LogicalBottom(s)
    requires except.Some? && except.value in s.place ==> !s.place[except.value].Live?
    ensures Abs(s') == Abs(s)
  {
    AbsShrinks(s, s', except, s.top, LogicalBottom(s));
  }

  lemma PushLinearized(s: State, t: Task, c: Cell)
    requires Safe(s) && Linearized(s) && Enabled(s, Push(t, c))
    ensures Linearized(Step(s, Push(t, c)))
  {
    var s' := Step(s, Push(t, c));
    AbsKept(s, s', Some(c));
    ThievesStillHold(s, s', Some(c), -1);
    AdvanceOwner(s, s', [], [], [t]);
  }

  /** Nothing an abstract operation could be told from has changed. */
  ghost predicate Silent(s: State, s': State)
  {
    && s'.top == s.top && LogicalBottom(s') == LogicalBottom(s) && s'.cells == s.cells && s'.place == s.place
    && s'.thieves == s.thieves && s'.events == s.events && s'.returned == s.returned && s'.calls == s.calls
    && (forall i: nat {:trigger SlotAt(s', i)} :: s.top <= i < LogicalBottom(s) ==> SlotAt(s', i) == SlotAt(s, i))
    && PushCell(s'.owner) == PushCell(s.owner) && Holding(s', TheOwner) == Holding(s, TheOwner)
  }

  /** The owner's steps that take nothing and give nothing back. */
  lemma OwnerSilent(s: State, s': State)
    requires LiveOk(s) && ThievesOk(s) && Linearized(s) && Silent(s, s')
    ensures Linearized(s')
  {
    LiveTasksKept(s, s', None, s.top, LogicalBottom(s));
    ThievesStillHold(s, s', None, -1);
    AdvanceOwner(s, s', [], [], []);
  }

  lemma PopLinearized(s: State)
    requires Safe(s) && Linearized(s) && Enabled(s, Pop)
    ensures Linearized(Step(s, Pop))
  {
    OwnerSilent(s, Step(s, Pop));
  }

  lemma PushIsSilent(s: State)
    requires Safe(s) && PushCell(s.owner).Some? && !s.owner.PushPublish?
    ensures Silent(s, StepOwner(s))
  {
  }

  lemma PushSilentLinearized(s: State)
    requires Safe(s) && Linearized(s) && PushCell(s.owner).Some? && !s.owner.PushPublish?
    ensures Linearized(StepOwner(s))
  {
    PushIsSilent(s);
    OwnerSilent(s, StepOwner(s));
  }

  /** Such a change of the owner's locals and `bottom` shows nowhere else. */
  predicate OnlyLocal(s: State, w: Owner, b: int)
  {
    var s' := s.(owner := w, bottom := b);
    && LogicalBottom(s') == LogicalBottom(s) && PushCell(w) == PushCell(s.owner)
    && Holding(s', TheOwner) == Holding(s, TheOwner)
  }

  /** As `OwnerSilent`, for a step that changes only the owner's locals and `bottom`. */
  lemma OwnerLocalLinearized(s: State, w: Owner, b: int)
    requires LiveOk(s) && ThievesOk(s) && Linearized(s) && OnlyLocal(s, w, b)
    ensures Linearized(s.(owner := w, bottom := b))
  {
    var s' := s.(owner := w, bottom := b);
    AbsKept(s, s', None);
    ThievesStillHold(s, s', None, -1);
    AdvanceOwner(s, s', [], [], []);
  }

  /** Steps of a pop that change no more than that. */
  lemma PopLocal(s: State) returns (w: Owner, b: int)
    requires OwnerOk(s)
    requires s.owner.PopLoadArray? || s.owner.PopStoreBottom? || s.owner.PopRestore? || s.owner.PopUnlock?
    ensures StepOwner(s) == s.(owner := w, bottom := b) && OnlyLocal(s, w, b)
  {
    w, b := StepOwner(s).owner, StepOwner(s).bottom;
  }

  lemma PopSilentLinearized(s: State)
    requires LiveOk(s) && OwnerOk(s) && ThievesOk(s) && Linearized(s)
    requires s.owner.PopLoadArray? || s.owner.PopStoreBottom? || s.owner.PopRestore? || s.owner.PopUnlock?
    ensures Linearized(StepOwner(s))
  {
    var w, b := PopLocal(s);
    OwnerLocalLinearized(s, w, b);
  }

  lemma PopLoadSlotLinearized(s: State)
    requires LiveOk(s) && OwnerOk(s) && ThievesOk(s) && Linearized(s) && s.owner.PopLoadSlot?
    ensures Linearized(StepOwner(s))
  {
    var PopLoadSlot(b, a, tp) := s.owner;
    var p := Get(s.rings[a], b);
    OwnerLocalLinearized(s, if tp != b then PopConsume(p) else PopCas(b, tp, p), s.bottom);
  }

  lemma PublishedAbs(s: State)
    requires LiveOk(s) && OwnerOk(s) && s.owner.PushPublish?
    ensures Abs(StepOwner(s)) == Abs(s) + [TaskOf(s, Some(s.owner.c))]
  {
    var s' := StepOwner(s);
    var c, b := Some(s.owner.c), s.bottom;
    AbsShrinks(s, s', c, s.top, b);
    RangeGrows(s', s.top, b);
    assert SlotAt(s', b) == c;
  }

  lemma PushesOne(e: Event)
    requires e.Pushed?
    ensures PushedIn([e]) == [e.t]
  {
    assert [e] == [] + [e];
    PushedInAppend([], e);
  }

  /** pushBottom takes effect when it stores `bottom`. */
  lemma PushPublishLinearized(s: State)
    requires LiveOk(s) && OwnerOk(s) && ThievesOk(s) && Linearized(s) && s.owner.PushPublish?
    ensures Linearized(StepOwner(s))
  {
    var s' := StepOwner(s);
    var c := Some(s.owner.c);
    var e := Pushed(TaskOf(s, c));
    PublishedAbs(s);
    ThievesStillHold(s, s', c, -1);
    PushesOne(e);
    NothingTaken([e], TheOwner);
    AdvanceOwner(s, s', [e], [], []);
  }

  /** popBottom found the deque empty. */
  lemma OwnerMissed(s: State, s': State)
    requires LiveOk(s) && ThievesOk(s) && Linearized(s)
    requires s.top == s'.top == LogicalBottom(s) == LogicalBottom(s')
    requires s'.cells == s.cells && s'.place == s.place && s'.thieves == s.thieves
    requires s'.events == s.events + [PopMissed] && s'.returned == s.returned && s'.calls == s.calls
    requires Holding(s, TheOwner) == [] == Holding(s', TheOwner) && PushCell(s.owner) == None == PushCell(s'.owner)
    ensures Linearized(s')
  {
    ThievesStillHold(s, s', None, -1);
    PushedNothing([PopMissed]);
    NothingTaken([PopMissed], TheOwner);
    AdvanceOwner(s, s', [PopMissed], [], []);
  }

  /** The owner took the newest task, in the cell `p` of index `b`. */
  lemma OwnerTook(s: State, s': State, p: Option<Cell>, b: nat)
    requires LiveOk(s) && ThievesOk(s) && Linearized(s) && CellsKept(s, s', p)
    requires s.top <= b == LogicalBottom(s) - 1 && p == SlotAt(s, b) && Owned(s, p, Live(b))
    requires Abs(s') == Range(s', s.top, b) && s'.rings == s.rings && s'.current == s.current
    requires s'.thieves == s.thieves && s'.returned == s.returned && s'.calls == s.calls
    requires s'.events == s.events + [Popped(TaskOf(s, p))]
    requires Holding(s, TheOwner) == [] && Holding(s', TheOwner) == [TaskOf(s, p)]
    requires PushCell(s.owner) == None == PushCell(s'.owner)
    ensures Linearized(s')
  {
    var e := Popped(TaskOf(s, p));
    AbsShrinks(s, s', p, s.top, b);
    RangeGrows(s, s.top, b);
    ThievesStillHold(s, s', p, -1);
    TakesOne(e, TheOwner, e.t);
    PushedNothing([e]);
    AdvanceOwner(s, s', [e], [], []);
  }

  /** popBottom takes effect when it loads `top`, if that leaves it alone with its element. */
  lemma PopLoadTopLinearized(s: State)
    requires LiveOk(s) && OwnerOk(s) && ThievesOk(s) && Linearized(s) && s.owner.PopLoadTop?
    ensures Linearized(StepOwner(s))
  {
    var b := s.owner.b;
    if s.top > b {
      OwnerMissed(s, StepOwner(s));
    } else if s.top == b {
      OwnerSilent(s, StepOwner(s));
    } else {
      assert Owned(s, SlotAt(s, b), Live(b));
      OwnerTook(s, StepOwner(s), SlotAt(s, b), b);
    }
  }

  /** With one element left, popBottom takes effect at its compare-and-swap. */
  lemma PopCasLinearized(s: State)
    requires LiveOk(s) && OwnerOk(s) && ThievesOk(s) && Linearized(s) && s.owner.PopCas?
    ensures Linearized(StepOwner(s))
  {
    if s.top == s.owner.tp {
      assert Owned(s, SlotAt(s, s.top), Live(s.top));
      OwnerTook(s, StepOwner(s), s.owner.p, s.top);
    } else {
      OwnerMissed(s, StepOwner(s));
    }
  }

  /** The owner hands back the task in cell `p`. */
  lemma OwnerReturns(s: State, s': State, p: Option<Cell>, t: Task)
    requires LiveOk(s) && ThievesOk(s) && Linearized(s) && CellsKept(s, s', p) && Owned(s, p, OwnerHas)
    requires s'.rings == s.rings && s'.current == s.current && s'.top == s.top && LogicalBottom(s') == LogicalBottom(s)
    requires s'.thieves == s.thieves && s'.events == s.events && s'.calls == s.calls
    requires s'.returned == s.returned + [(TheOwner, t)]
    requires Holding(s, TheOwner) == [t] && Holding(s', TheOwner) == []
    requires PushCell(s.owner) == None == PushCell(s'.owner)
    ensures Linearized(s')
  {
    AbsKept(s, s', p);
    ThievesStillHold(s, s', p, -1);
    GivesOne(TheOwner, t);
    AdvanceOwner(s, s', [], [(TheOwner, t)], []);
  }

  lemma PopConsumeLinearized(s: State)
    requires LiveOk(s) && OwnerOk(s) && ThievesOk(s) && Linearized(s) && s.owner.PopConsume?
    ensures Linearized(StepOwner(s))
  {
    var p := s.owner.p;
    OwnerReturns(s, StepOwner(s), p, TaskOf(s, p));
  }

  /** A thief's steps that take nothing and give nothing back. */
  lemma ThiefLocalLinearized(s: State, k: nat, w: Thief)
    requires LiveOk(s) && OwnerOk(s) && ThievesOk(s) && Linearized(s) && k < |s.thieves|
    requires !s.thieves[k].Consume? && !w.Consume?
    ensures Linearized(s.(thieves := s.thieves[k := w]))
  {
    var s' := s.(thieves := s.thieves[k := w]);
    ThievesStillHold(s, s', None, k);
    OwnerStillHolds(s, s', None);
    AbsKept(s, s', None);
    AdvanceThief(s, s', k, [], []);
  }

  lemma FrontTask(s: State)
    requires LiveOk(s) && s.top < LogicalBottom(s)
    ensures Owned(s, SlotAt(s, s.top), Live(s.top)) && Abs(s) != [] && Abs(s)[0] == TaskOf(s, SlotAt(s, s.top))
  {
    assert Abs(s)[0] == TaskOf(s, SlotAt(s, s.top + 0));
  }

  lemma StolenAbs(s: State, k: nat)
    requires LiveOk(s) && ThievesOk(s) && k < |s.thieves| && s.thieves[k].Cas? && s.top == s.thieves[k].tp
    ensures var p := s.thieves[k].p;
      && Abs(s) != [] && Abs(s)[0] == TaskOf(s, p) && Abs(StepThief(s, k)) == Abs(s)[1..]
      && Owned(s, p, Live(s.top))
  {
    var p := s.thieves[k].p;
    assert ThiefOk(s, k);
    FrontTask(s);
    AbsShrinks(s, StepThief(s, k), p, s.top + 1, LogicalBottom(s));
  }

  /** steal takes effect at the compare-and-swap it wins. */
  lemma ThiefWinLinearized(s: State, k: nat)
    requires LiveOk(s) && OwnerOk(s) && ThievesOk(s) && Linearized(s)
    requires k < |s.thieves| && s.thieves[k].Cas? && s.top == s.thieves[k].tp
    ensures Linearized(StepThief(s, k))
  {
    var s' := StepThief(s, k);
    var p := s.thieves[k].p;
    var e := Stole(k, TaskOf(s, p));
    StolenAbs(s, k);
    ThievesStillHold(s, s', p, k);
    OwnerStillHolds(s, s', p);
    TakesOne(e, AThief(k), e.t);
    AdvanceThief(s, s', k, [e], []);
  }

  lemma ThiefConsumes(s: State, k: nat) returns (t: Task)
    requires LiveOk(s) && OwnerOk(s) && ThievesOk(s) && k < |s.thieves| && s.thieves[k].Consume?
    ensures var s' := StepThief(s, k);
      && s'.events == s.events && s'.returned == s.returned + [(AThief(k), t)] && s'.calls == s.calls
      && Abs(s') == Abs(s) && Pushing(s') == Pushing(s) && ThievesHold(s, s', k)
      && Holding(s, AThief(k)) == [t] && Holding(s', AThief(k)) == []
      && Holding(s', TheOwner) == Holding(s, TheOwner)
  {
    var s' := StepThief(s, k);
    var p := s.thieves[k].p;
    t := TaskOf(s, p);
    assert ThiefOk(s, k);
    AbsKept(s, s', p);
    ThievesStillHold(s, s', p, k);
    OwnerStillHolds(s, s', p);
  }

  lemma ThiefConsumeLinearized(s: State, k: nat)
    requires LiveOk(s) && OwnerOk(s) && ThievesOk(s) && Linearized(s) && k < |s.thieves| && s.thieves[k].Consume?
    ensures Linearized(StepThief(s, k))
  {
    var t := ThiefConsumes(s, k);
    GivesOne(AThief(k), t);
    AdvanceThief(s, StepThief(s, k), k, [], [(AThief(k), t)]);
  }

  lemma ThiefLinearized(s: State, k: nat)
    requires LiveOk(s) && OwnerOk(s) && ThievesOk(s) && Linearized(s) && k < |s.thieves| && !s.thieves[k].Free?
    ensures Linearized(StepThief(s, k))
  {
    assert ThiefOk(s, k);
    match s.thieves[k] {
      case LoadBottom(tp) => ThiefLocalLinearized(s, k, if tp >= s.bottom then Free else LoadArray(tp));
      case LoadArray(tp) => ThiefLocalLinearized(s, k, LoadSlot(tp, s.current));
      case LoadSlot(tp, a) => ThiefLocalLinearized(s, k, Cas(tp, Get(s.rings[a], tp)));
      case Cas(tp, _) =>
        if s.top == tp {
          ThiefWinLinearized(s, k);
        } else {
          ThiefLocalLinearized(s, k, Free);
        }
      case Consume(_) => ThiefConsumeLinearized(s, k);
    }
  }

  lemma OwnerLinearized(s: State)
    requires Safe(s) && Linearized(s) && !s.owner.Idle?
    ensures Linearized(StepOwner(s))
  {
    match s.owner {
      case PushPublish(_, _) => PushPublishLinearized(s);
      case PopLoadTop(_, _) => PopLoadTopLinearized(s);
      case PopCas(_, _, _) => PopCasLinearized(s);
      case PopConsume(_) => PopConsumeLinearized(s);
      case PopLoadSlot(_, _, _) => PopLoadSlotLinearized(s);
      case _ =>
        if PushCell(s.owner).Some? {
          PushSilentLinearized(s);
        } else {
          PopSilentLinearized(s);
        }
    }
  }

  /** One step, whoever takes it. */
  lemma StepLinearized(s: State, a: Action)
    requires Safe(s) && Linearized(s) && Enabled(s, a)
    ensures Linearized(Step(s, a))
  {
    match a {
      case Push(t, c) => PushLinearized(s, t, c);
      case Pop => PopLinearized(s);
      case OwnerStep => OwnerLinearized(s);
      case Steal(k) => ThiefLocalLinearized(s, k, LoadBottom(s.top));
      case ThiefStep(k) => ThiefLinearized(s, k);
    }
  }

  lemma InitLinearized(logSize: nat, thieves: nat)
    ensures Linearized(Init(logSize, thieves))
  {
  }

  /** Every state of every run, whatever the interleaving. */
  lemma {:induction false} RunsAreLinearizable(logSize: nat, thieves: nat, acts: seq<Action>)
    requires Run(Init(logSize, thieves), acts).Some?
    ensures Safe(Run(Init(logSize, thieves), acts).value) && Linearized(Run(Init(logSize, thieves), acts).value)
  {
    if acts == [] {
      InitSafe(logSize, thieves);
      InitLinearized(logSize, thieves);
    } else {
      var front, a := acts[..|acts| - 1], acts[|acts| - 1];
      RunsAreLinearizable(logSize, thieves, front);
      var s := Run(Init(logSize, thieves), front).value;
      StepKeepsSafe(s, a);
      StepLinearized(s, a);
    }
  }
}
