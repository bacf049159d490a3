/** What the operations of the deque answer: left to run, each of them ends and takes what it
    is there to take, and a steal that comes back empty-handed has a reason. */
module DequeAnswers {
  import opened Options
  import opened Ring
  import opened Deque
  import opened DequeSafety
  import opened DequeHistory
  import opened DequeConservation
  import opened DequeReasons

  // ----- runs taken apart at their first step -----

  lemma RunNext(s: State, acts: seq<Action>, a: Action)
    requires Run(s, acts).Some? && Enabled(Run(s, acts).value, a)
    ensures Run(s, acts + [a]) == Some(Step(Run(s, acts).value, a))
  {
    assert (acts + [a])[..|acts|] == acts;
  }

  lemma RunStuck(s: State, acts: seq<Action>, a: Action)
    requires Run(s, acts).None? || !Enabled(Run(s, acts).value, a)
    ensures Run(s, acts + [a]) == None
  {
    assert (acts + [a])[..|acts|] == acts;
  }

  lemma {:induction false} RunFirst(s: State, a: Action, acts: seq<Action>)
    requires Enabled(s, a)
    ensures Run(s, [a] + acts) == Run(Step(s, a), acts)
    decreases |acts|
  {
    if acts == [] {
      RunNext(s, [], a);
      assert [] + [a] == [a] + acts;
    } else {
      var front, last := acts[..|acts| - 1], acts[|acts| - 1];
      RunFirst(s, a, front);
      assert [a] + acts == ([a] + front) + [last];
      if Run(s, [a] + front).Some? && Enabled(Run(s, [a] + front).value, last) {
        RunNext(s, [a] + front, last);
      } else {
        RunStuck(s, [a] + front, last);
      }
    }
  }

  // ----- a steal that comes back empty-handed -----

  /** The owner is between the start of a pop and its end. */
  predicate Popping(w: Owner)
  {
    !w.Idle? && PushCell(w).None?
  }

  /** steal answers empty only when at most one task is left, and then only because the
      owner is in the middle of popping it. */
  lemma StealEmptyReason(s: State, k: nat)
    requires Safe(s) && k < |s.thieves| && !s.thieves[k].Free? && !s.thieves[k].Cas? && !s.thieves[k].Consume?
    requires StepThief(s, k).thieves[k].Free?
    ensures |Abs(s)| <= 1 && (Abs(s) != [] ==> Popping(s.owner))
  {
    assert ThiefOk(s, k);
  }

  /** It answers that it lost its race only after an operation took the very task it was
      after: the history has a steal, or a pop of the last task, of that logical index. */
  lemma StealLostReason(logSize: nat, thieves: nat, acts: seq<Action>, s: State, k: nat) returns (j: nat)
    requires Run(Init(logSize, thieves), acts) == Some(s)
    requires k < |s.thieves| && s.thieves[k].Cas? && StepThief(s, k).thieves[k].Free?
    ensures TookAt(s.events, j, s.thieves[k].tp) && (s.events[j].Stole? || s.events[j].Popped?)
  {
    j := TakenEarlier(logSize, thieves, acts, s, k);
  }

  // ----- a steal left alone -----

  /** Nobody else moving, thief k takes the oldest task. */
  predicate WillTake(s: State, k: nat)
    requires k < |s.thieves|
  {
    match s.thieves[k]
    case LoadBottom(tp) => tp == s.top && tp < s.bottom
    case LoadArray(tp) => tp == s.top
    case LoadSlot(tp, _) => tp == s.top
    case Cas(tp, _) => tp == s.top
    case _ => false
  }

  function Left(w: Thief): nat
  {
    match w
    case Free => 0
    case Consume(_) => 1
    case Cas(_, _) => 2
    case LoadSlot(_, _) => 3
    case LoadArray(_) => 4
    case LoadBottom(_) => 5
  }

  function ForAgent(who: Agent, ts: seq<Task>): seq<(Agent, Task)>
  {
    if ts == [] then [] else [(who, ts[0])]
  }

  /** What will be left, and what thief k will have been handed, when its steal has ended. */
  function LeftByThief(s: State, k: nat): seq<Task>
    requires k < |s.thieves|
  {
    if WillTake(s, k) && Abs(s) != [] then Abs(s)[1..] else Abs(s)
  }

  function GivenToThief(s: State, k: nat): seq<(Agent, Task)>
    requires k < |s.thieves|
  {
    s.returned +
      ForAgent(AThief(k), if WillTake(s, k) && Abs(s) != [] then Abs(s)[..1] else Holding(s, AThief(k)))
  }

  lemma ThiefLoads(s: State, k: nat, w: Thief)
    requires Safe(s) && k < |s.thieves| && !s.thieves[k].Free? && !s.thieves[k].Consume? && !w.Consume?
    requires StepThief(s, k) == s.(thieves := s.thieves[k := w])
    ensures Abs(StepThief(s, k)) == Abs(s)
    ensures Holding(StepThief(s, k), AThief(k)) == Holding(s, AThief(k)) == []
  {
    AbsKept(s, StepThief(s, k), None);
  }

  lemma ThiefStepAlone(s: State, k: nat)
    requires Safe(s) && k < |s.thieves| && !s.thieves[k].Free?
    ensures var s' := StepThief(s, k);
      && |s'.thieves| == |s.thieves| && Left(s'.thieves[k]) < Left(s.thieves[k])
      && s'.owner == s.owner && s'.bottom == s.bottom
      && LeftByThief(s', k) == LeftByThief(s, k) && GivenToThief(s', k) == GivenToThief(s, k)
  {
    assert ThiefOk(s, k);
    match s.thieves[k] {
      case Consume(p) =>
        var t := ThiefConsumes(s, k);
      case Cas(tp, p) =>
        if s.top == tp {
          StolenAbs(s, k);
          assert Abs(s)[..1] == [TaskOf(s, p)];
        } else {
          ThiefLoads(s, k, Free);
        }
      case LoadBottom(tp) => ThiefLoads(s, k, if tp >= s.bottom then Free else LoadArray(tp));
      case LoadArray(tp) => ThiefLoads(s, k, LoadSlot(tp, s.current));
      case LoadSlot(tp, a) => ThiefLoads(s, k, Cas(tp, Get(s.rings[a], tp)));
    }
  }

  /** A steal, left alone, ends within five steps as foretold. */
  lemma {:induction false} ThiefEnds(s: State, k: nat) returns (own: seq<Action>, s': State)
    requires Safe(s) && k < |s.thieves|
    ensures (forall a :: a in own ==> a == ThiefStep(k)) && |own| <= Left(s.thieves[k]) && Run(s, own) == Some(s')
    ensures Safe(s') && |s'.thieves| == |s.thieves| && s'.thieves[k].Free?
    ensures s'.owner == s.owner && s'.bottom == s.bottom
    ensures Abs(s') == LeftByThief(s, k) && s'.returned == GivenToThief(s, k)
    decreases Left(s.thieves[k])
  {
    own, s' := [], s;
    if !s.thieves[k].Free? {
      StepKeepsSafe(s, ThiefStep(k));
      ThiefStepAlone(s, k);
      own, s' := ThiefEnds(StepThief(s, k), k);
      RunFirst(s, ThiefStep(k), own);
      own := [ThiefStep(k)] + own;
    }
  }

  /** There is a task the owner is not about to take. */
  predicate Stealable(s: State)
  {
    |Abs(s)| > 1 || (Abs(s) != [] && !Popping(s.owner))
  }

  /** A steal that starts there and is left alone is handed the oldest task. */
  lemma StealAlone(s: State, k: nat) returns (own: seq<Action>, s': State)
    requires Safe(s) && k < |s.thieves| && s.thieves[k].Free? && Stealable(s)
    ensures (forall a :: a in own ==> a == Steal(k) || a == ThiefStep(k)) && Run(s, own) == Some(s')
    ensures |s'.thieves| == |s.thieves| && s'.thieves[k].Free?
    ensures Abs(s') == Abs(s)[1..] && s'.returned == s.returned + [(AThief(k), Abs(s)[0])]
  {
    var s1 := Step(s, Steal(k));
    StepKeepsSafe(s, Steal(k));
    AbsKept(s, s1, None);
    own, s' := ThiefEnds(s1, k);
    RunFirst(s, Steal(k), own);
    own := [Steal(k)] + own;
  }

  lemma {:induction false} RunBoth(s: State, a: seq<Action>, b: seq<Action>)
    requires Run(s, a).Some?
    ensures Run(s, a + b) == Run(Run(s, a).value, b)
  {
    if b == [] {
      assert a + b == a;
    } else {
      RunBoth(s, a, b[..|b| - 1]);
      assert (a + b)[..|a + b| - 1] == a + b[..|b| - 1];
    }
  }

  lemma WillTakeGives(s: State, k: nat)
    requires k < |s.thieves| && WillTake(s, k) && Abs(s) != []
    ensures Holding(s, AThief(k)) == [] && GivenToThief(s, k) == s.returned + [] + [(AThief(k), Abs(s)[0])]
  {
    assert s.returned + [] == s.returned && Abs(s)[..1] == [Abs(s)[0]];
  }

  /** A thief left alone ends the steal it is in and, if that got it nothing new, begins one. */
  lemma StealNext(s: State, k: nat) returns (own: seq<Action>, s': State)
    requires Safe(s) && k < |s.thieves| && Stealable(s)
    ensures (forall a :: a in own ==> a == Steal(k) || a == ThiefStep(k)) && Run(s, own) == Some(s')
    ensures |s'.thieves| == |s.thieves| && s'.thieves[k].Free? && Abs(s') == Abs(s)[1..]
    ensures s'.returned == s.returned + ForAgent(AThief(k), Holding(s, AThief(k))) + [(AThief(k), Abs(s)[0])]
  {
    own, s' := ThiefEnds(s, k);
    if WillTake(s, k) {
      WillTakeGives(s, k);
    } else {
      var more, s2 := StealAlone(s', k);
      RunBoth(s, own, more);
      own, s' := own + more, s2;
    }
  }

  /** From every reachable state with a task the owner is not about to take, any thief that is
      left alone is handed the oldest one, after what it may hold already. */
  lemma StealTakes(logSize: nat, thieves: nat, acts: seq<Action>, s: State, k: nat)
    returns (own: seq<Action>, s': State)
    requires Run(Init(logSize, thieves), acts) == Some(s) && k < |s.thieves| && Stealable(s)
    ensures (forall a :: a in own ==> a == Steal(k) || a == ThiefStep(k)) && Run(s, own) == Some(s')
    ensures |s'.thieves| == |s.thieves| && s'.thieves[k].Free? && Abs(s') == Abs(s)[1..]
    ensures s'.returned == s.returned + ForAgent(AThief(k), Holding(s, AThief(k))) + [(AThief(k), Abs(s)[0])]
  {
    RunsAreLinearizable(logSize, thieves, acts);
    own, s' := StealNext(s, k);
  }

  // ----- the owner left alone -----

  /** A pop that has yet to take effect. */
  predicate PopPending(w: Owner)
  {
    match w
    case PopLoadArray(_) => true
    case PopStoreBottom(_, _) => true
    case PopLoadTop(_, _) => true
    case PopLoadSlot(b, _, tp) => tp == b
    case PopCas(_, _, _) => true
    case _ => false
  }

  function Stage(w: Owner): nat
  {
    match w
    case Idle => 0
    case PushPublish(_, _) => 1
    case PushSlot(_, _, _) => 2
    case PushGrow(_, _, _, _, _, _) => 3
    case PushLoadArray(_, _, _) => 4
    case PushLoadTop(_, _) => 5
    case PushLoadBottom(_) => 6
    case PopConsume(_) => 1
    case PopRestore(_) => 1
    case PopUnlock(_, _, _) => 2
    case PopCas(_, _, _) => 3
    case PopLoadSlot(_, _, _) => 4
    case PopLoadTop(_, _) => 5
    case PopStoreBottom(_, _) => 6
    case PopLoadArray(_) => 7
  }

  /** How many slots a growing push has yet to copy. */
  function ToCopy(w: Owner): nat
  {
    if w.PushGrow? && w.i < w.b then w.b - w.i else 0
  }

  /** The newest task, if any. */
  function Newest(q: seq<Task>): seq<Task>
  {
    if q == [] then [] else q[|q| - 1..]
  }

  /** What will be left, and what the owner will have been handed, when its operation has
      ended. */
  function LeftByOwner(s: State): seq<Task>
  {
    if PopPending(s.owner) then Abs(s)[..|Abs(s)| - |Newest(Abs(s))|] else Abs(s) + Pushing(s)
  }

  function GivenToOwner(s: State): seq<(Agent, Task)>
  {
    s.returned + ForAgent(TheOwner, if PopPending(s.owner) then Newest(Abs(s)) else Holding(s, TheOwner))
  }

  /** The step is the next of its operation. */
  predicate Nears(w: Owner, w': Owner)
  {
    Stage(w') < Stage(w) || (Stage(w') == Stage(w) && ToCopy(w') < ToCopy(w))
  }

  lemma OwnerNears(s: State)
    requires Safe(s) && !s.owner.Idle?
    ensures Nears(s.owner, StepOwner(s).owner)
  {
  }

  /** What the operation will come to does not change. */
  ghost predicate Foretold(s: State, s': State)
  {
    LeftByOwner(s') == LeftByOwner(s) && GivenToOwner(s') == GivenToOwner(s)
  }

  /** A step that takes no effect. */
  lemma ForetoldLocal(s: State, s': State)
    requires Abs(s') == Abs(s) && s'.returned == s.returned && PopPending(s'.owner) == PopPending(s.owner)
    requires Pushing(s') == Pushing(s) && Holding(s', TheOwner) == Holding(s, TheOwner)
    ensures Foretold(s, s')
  {
  }

  lemma PushForetold(s: State)
    requires Safe(s) && PushCell(s.owner).Some?
    ensures Foretold(s, StepOwner(s))
  {
    var s' := StepOwner(s);
    if s.owner.PushPublish? {
      PublishedAbs(s);
    } else {
      PushIsSilent(s);
      LiveTasksKept(s, s', None, s.top, LogicalBottom(s));
      ForetoldLocal(s, s');
    }
  }

  lemma PopLocalForetold(s: State)
    requires Safe(s) && (s.owner.PopLoadArray? || s.owner.PopStoreBottom? || s.owner.PopRestore? || s.owner.PopUnlock?)
    ensures Foretold(s, StepOwner(s))
  {
    var w, b := PopLocal(s);
    AbsKept(s, StepOwner(s), None);
    ForetoldLocal(s, StepOwner(s));
  }

  lemma PopSlotForetold(s: State)
    requires Safe(s) && s.owner.PopLoadSlot?
    ensures Foretold(s, StepOwner(s))
  {
    AbsKept(s, StepOwner(s), None);
    ForetoldLocal(s, StepOwner(s));
  }

  /** A pop takes the newest task. */
  lemma PopTakes(s: State, s': State, t: Task)
    requires Replay(s.events) == Some(Abs(s)) && Replay(s'.events) == Some(Abs(s'))
    requires s'.events == s.events + [Popped(t)] && s'.returned == s.returned
    requires PopPending(s.owner) && !PopPending(s'.owner) && PushCell(s'.owner) == None
    requires Holding(s', TheOwner) == [t]
    ensures Foretold(s, s')
  {
    ReplayAppend(s.events, Popped(t));
    assert Newest(Abs(s)) == [t];
    assert Abs(s') + [] == Abs(s');
  }

  lemma PopMisses(s: State, s': State)
    requires Abs(s) == [] == Abs(s') && s'.returned == s.returned
    requires PopPending(s.owner) && !PopPending(s'.owner) && PushCell(s'.owner) == None
    requires Holding(s', TheOwner) == []
    ensures Foretold(s, s')
  {
  }

  lemma PopTopForetold(s: State)
    requires Safe(s) && Linearized(s) && s.owner.PopLoadTop?
    ensures Foretold(s, StepOwner(s))
  {
    var b := s.owner.b;
    var s' := StepOwner(s);
    if s.top > b {
      PopMisses(s, s');
    } else if s.top == b {
      AbsKept(s, s', None);
      ForetoldLocal(s, s');
    } else {
      PopLoadTopLinearized(s);
      assert Owned(s, SlotAt(s, b), Live(b));
      PopTakes(s, s', TaskOf(s, SlotAt(s, b)));
    }
  }

  lemma PopCasForetold(s: State)
    requires Safe(s) && Linearized(s) && s.owner.PopCas?
    ensures Foretold(s, StepOwner(s))
  {
    var s' := StepOwner(s);
    if s.top == s.owner.tp {
      PopCasLinearized(s);
      PopTakes(s, s', TaskOf(s, s.owner.p));
    } else {
      PopMisses(s, s');
    }
  }

  lemma PopConsumeForetold(s: State)
    requires Safe(s) && s.owner.PopConsume?
    ensures Foretold(s, StepOwner(s))
  {
    AbsKept(s, StepOwner(s), s.owner.p);
    assert s.returned + [(TheOwner, TaskOf(s, s.owner.p))] + [] == s.returned + [(TheOwner, TaskOf(s, s.owner.p))];
  }

  lemma OwnerForetold(s: State)
    requires Safe(s) && Linearized(s) && !s.owner.Idle?
    ensures Foretold(s, StepOwner(s))
  {
    match s.owner {
      case PopLoadTop(_, _) => PopTopForetold(s);
      case PopCas(_, _, _) => PopCasForetold(s);
      case PopConsume(_) => PopConsumeForetold(s);
      case PopLoadSlot(_, _, _) => PopSlotForetold(s);
      case _ =>
        if PushCell(s.owner).Some? {
          PushForetold(s);
        } else {
          PopLocalForetold(s);
        }
    }
  }

  /** An operation of the owner, left alone, ends as foretold. */
  lemma {:induction false} OwnerEnds(s: State) returns (own: seq<Action>, s': State)
    requires Safe(s) && Linearized(s)
    ensures (forall a :: a in own ==> a == OwnerStep) && Run(s, own) == Some(s')
    ensures s'.owner.Idle? && Abs(s') == LeftByOwner(s) && s'.returned == GivenToOwner(s)
    decreases Stage(s.owner), ToCopy(s.owner)
  {
    own, s' := [], s;
    if !s.owner.Idle? {
      StepKeepsSafe(s, OwnerStep);
      OwnerLinearized(s);
      OwnerNears(s);
      OwnerForetold(s);
      own, s' := OwnerEnds(StepOwner(s));
      RunFirst(s, OwnerStep, own);
      own := [OwnerStep] + own;
    }
  }

  /** From every reachable state in which the owner is between operations, a push that is left
      alone ends with its task last and nothing handed over. */
  lemma PushAppends(logSize: nat, thieves: nat, acts: seq<Action>, s: State, t: Task, c: Cell)
    returns (own: seq<Action>, s': State)
    requires Run(Init(logSize, thieves), acts) == Some(s) && Enabled(s, Push(t, c))
    ensures own != [] && own[0] == Push(t, c) && (forall a :: a in own[1..] ==> a == OwnerStep)
    ensures Run(s, own) == Some(s') && s'.owner.Idle? && Abs(s') == Abs(s) + [t] && s'.returned == s.returned
  {
    RunsAreLinearizable(logSize, thieves, acts);
    var s1 := Step(s, Push(t, c));
    StepKeepsSafe(s, Push(t, c));
    PushLinearized(s, t, c);
    AbsKept(s, s1, Some(c));
    own, s' := OwnerEnds(s1);
    RunFirst(s, Push(t, c), own);
    own := [Push(t, c)] + own;
  }

  /** And a pop with the newest task handed over, if there is one. */
  lemma PopTakesNewest(logSize: nat, thieves: nat, acts: seq<Action>, s: State)
    returns (own: seq<Action>, s': State)
    requires Run(Init(logSize, thieves), acts) == Some(s) && s.owner.Idle?
    ensures own != [] && own[0] == Pop && (forall a :: a in own[1..] ==> a == OwnerStep)
    ensures Run(s, own) == Some(s') && s'.owner.Idle?
    ensures if Abs(s) == [] then Abs(s') == [] && s'.returned == s.returned
            else Abs(s') == Abs(s)[..|Abs(s)| - 1] && s'.returned == s.returned + [(TheOwner, Abs(s)[|Abs(s)| - 1])]
  {
    RunsAreLinearizable(logSize, thieves, acts);
    var s1 := Step(s, Pop);
    StepKeepsSafe(s, Pop);
    PopLinearized(s);
    AbsKept(s, s1, None);
    own, s' := OwnerEnds(s1);
    RunFirst(s, Pop, own);
    own := [Pop] + own;
  }

  // ----- every pop is answered -----

  function Pops(acts: seq<Action>): nat
  {
    if acts == [] then 0 else Pops(acts[..|acts| - 1]) + if acts[|acts| - 1].Pop? then 1 else 0
  }

  predicate OfPop(e: Event) { e.Popped? || e.PopMissed? }

  /** The pops that took a task or found the deque empty. */
  function PopsIn(events: seq<Event>): nat
  {
    if events == [] then 0
    else PopsIn(events[..|events| - 1]) + if OfPop(events[|events| - 1]) then 1 else 0
  }

  lemma PopsInAppend(events: seq<Event>, e: Event)
    ensures PopsIn(events + [e]) == PopsIn(events) + if OfPop(e) then 1 else 0
  {
    assert (events + [e])[..|events|] == events;
  }

  /** Pops that have taken effect, and the one that has yet to. */
  function PopsBegun(s: State): nat
  {
    PopsIn(s.events) + if PopPending(s.owner) then 1 else 0
  }

  lemma EffectCounts(s: State, s': State, e: Event)
    requires OfPop(e) && s'.events == s.events + [e] && PopPending(s.owner) && !PopPending(s'.owner)
    ensures PopsBegun(s') == PopsBegun(s)
  {
    PopsInAppend(s.events, e);
  }

  lemma LoadTopCounts(s: State)
    requires Safe(s) && s.owner.PopLoadTop?
    ensures PopsBegun(StepOwner(s)) == PopsBegun(s)
  {
    var b := s.owner.b;
    if s.top > b {
      EffectCounts(s, StepOwner(s), PopMissed);
    } else if s.top < b {
      EffectCounts(s, StepOwner(s), Popped(TaskOf(s, Get(s.rings[s.owner.a], b))));
    }
  }

  lemma CasCounts(s: State)
    requires s.owner.PopCas?
    ensures PopsBegun(StepOwner(s)) == PopsBegun(s)
  {
    EffectCounts(s, StepOwner(s), if s.top == s.owner.tp then Popped(TaskOf(s, s.owner.p)) else PopMissed);
  }

  lemma OwnerStepCounts(s: State)
    requires Safe(s) && !s.owner.Idle?
    ensures PopsBegun(StepOwner(s)) == PopsBegun(s)
  {
    match s.owner {
      case PushPublish(c, _) => PopsInAppend(s.events, Pushed(TaskOf(s, Some(c))));
      case PopLoadTop(_, _) => LoadTopCounts(s);
      case PopCas(_, _, _) => CasCounts(s);
      case _ => QuietRecords(s);
    }
  }

  lemma StepCounts(s: State, a: Action)
    requires Safe(s) && Enabled(s, a)
    ensures PopsBegun(Step(s, a)) == PopsBegun(s) + if a.Pop? then 1 else 0
  {
    match a {
      case OwnerStep => OwnerStepCounts(s);
      case ThiefStep(k) => PopsInAppend(s.events,
        Stole(k, TaskOf(s, if s.thieves[k].Cas? then s.thieves[k].p else None)));
      case _ =>
    }
  }

  /** In every run each pop begun takes effect once, by taking the newest task or by finding
      the deque empty, or is the one in progress. */
  lemma {:induction false} PopsAreAnswered(logSize: nat, thieves: nat, acts: seq<Action>, s: State)
    requires Run(Init(logSize, thieves), acts) == Some(s)
    ensures Pops(acts) == PopsBegun(s) && Replay(s.events) == Some(Abs(s))
  {
    RunsAreLinearizable(logSize, thieves, acts);
    if acts != [] {
      var front := acts[..|acts| - 1];
      var before := Run(Init(logSize, thieves), front).value;
      PopsAreAnswered(logSize, thieves, front, before);
      RunsAreLinearizable(logSize, thieves, front);
      StepCounts(before, acts[|acts| - 1]);
    }
  }
}
