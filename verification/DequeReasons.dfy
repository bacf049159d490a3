/** Which task a steal is after, and which ring is published when the deque grows. */
module DequeReasons {
  import opened Options
  import opened Ring
  import opened Deque
  import opened DequeSafety
  import opened DequeHistory
  import opened DequeConservation

  /** A thief about to win holds the very cell pushed at its index, whichever ring it
      read the cell from and however often that cell was recycled in the meantime. */
  lemma WinnerHasTheCell(s: State, k: nat)
    requires Safe(s) && k < |s.thieves| && s.thieves[k].Cas? && s.top == s.thieves[k].tp
    ensures Owned(s, s.thieves[k].p, Live(s.top)) && s.thieves[k].p == SlotAt(s, s.top)
    ensures Abs(s) != [] && Abs(s)[0] == TaskOf(s, s.thieves[k].p)
  {
    assert ThiefOk(s, k);
    StolenAbs(s, k);
  }

  // ----- which task a front index was -----

  predicate TakesFront(before: seq<Event>, e: Event)
  {
    e.Stole? || (e.Popped? && Replay(before).Some? && |Replay(before).value| == 1)
  }

  /** The logical index of the oldest task after a history: every task taken from the front
      moves it on, and the last task is taken from the front whoever takes it. */
  function Front(events: seq<Event>): nat
  {
    if events == [] then 0
    else
      var before, e := events[..|events| - 1], events[|events| - 1];
      Front(before) + (if TakesFront(before, e) then 1 else 0)
  }

  lemma FrontAppend(events: seq<Event>, e: Event)
    ensures Front(events + [e]) == Front(events) + (if TakesFront(events, e) then 1 else 0)
  {
    assert (events + [e])[..|events|] == events;
  }

  /** `top` is the logical index of the oldest task. */
  ghost predicate TopOk(s: State)
  {
    s.top == Front(s.events)
  }

  lemma OwnerQuiet(s: State)
    requires TopOk(s) && !s.owner.Idle? && !s.owner.PushPublish? && !s.owner.PopLoadTop? && !s.owner.PopCas?
    ensures TopOk(StepOwner(s))
  {
    QuietRecords(s);
  }

  lemma TopStays(s: State, s': State, e: Event)
    requires TopOk(s) && s'.events == s.events + [e] && s'.top == s.top && !TakesFront(s.events, e)
    ensures TopOk(s')
  {
    FrontAppend(s.events, e);
  }

  /** A pop that finds more than one task leaves the front alone. */
  lemma LoadTopTop(s: State)
    requires OwnerOk(s) && LiveOk(s) && Replay(s.events) == Some(Abs(s)) && TopOk(s) && s.owner.PopLoadTop?
    ensures TopOk(StepOwner(s))
  {
    var PopLoadTop(b, a) := s.owner;
    if s.top > b {
      TopStays(s, StepOwner(s), PopMissed);
    } else if s.top < b {
      assert |Abs(s)| > 1;
      TopStays(s, StepOwner(s), Popped(TaskOf(s, Get(s.rings[a], b))));
    }
  }

  lemma TopMoves(s: State, s': State, e: Event)
    requires TopOk(s) && s'.events == s.events + [e] && s'.top == s.top + 1 && TakesFront(s.events, e)
    ensures TopOk(s')
  {
    FrontAppend(s.events, e);
  }

  /** A pop that wins the last task takes it from the front. */
  lemma CasTop(s: State)
    requires OwnerOk(s) && LiveOk(s) && Replay(s.events) == Some(Abs(s)) && TopOk(s) && s.owner.PopCas?
    ensures TopOk(StepOwner(s))
  {
    var PopCas(b, tp, p) := s.owner;
    if s.top == tp {
      assert |Abs(s)| == 1;
      TopMoves(s, StepOwner(s), Popped(TaskOf(s, p)));
    } else {
      TopStays(s, StepOwner(s), PopMissed);
    }
  }

  lemma OwnerTop(s: State)
    requires OwnerOk(s) && LiveOk(s) && Replay(s.events) == Some(Abs(s)) && TopOk(s) && !s.owner.Idle?
    ensures TopOk(StepOwner(s))
  {
    match s.owner {
      case PushPublish(c, b) => TopStays(s, StepOwner(s), Pushed(TaskOf(s, Some(c))));
      case PopLoadTop(b, a) => LoadTopTop(s);
      case PopCas(b, tp, p) => CasTop(s);
      case _ => OwnerQuiet(s);
    }
  }

  lemma ThiefTop(s: State, k: nat)
    requires TopOk(s) && k < |s.thieves| && !s.thieves[k].Free?
    ensures TopOk(StepThief(s, k))
  {
    var s' := StepThief(s, k);
    if s.thieves[k].Cas? && s.top == s.thieves[k].tp {
      TopMoves(s, s', Stole(k, TaskOf(s, s.thieves[k].p)));
    } else {
      assert s'.events == s.events && s'.top == s.top;
    }
  }

  lemma StepTop(s: State, a: Action)
    requires Safe(s) && Linearized(s) && TopOk(s) && Enabled(s, a)
    ensures TopOk(Step(s, a))
  {
    match a {
      case OwnerStep => OwnerTop(s);
      case ThiefStep(k) => ThiefTop(s, k);
      case _ =>
    }
  }

  lemma {:induction false} TopEveryRun(logSize: nat, thieves: nat, acts: seq<Action>)
    requires Run(Init(logSize, thieves), acts).Some?
    ensures TopOk(Run(Init(logSize, thieves), acts).value)
  {
    if acts != [] {
      var front, a := acts[..|acts| - 1], acts[|acts| - 1];
      TopEveryRun(logSize, thieves, front);
      RunsAreLinearizable(logSize, thieves, front);
      StepTop(Run(Init(logSize, thieves), front).value, a);
    }
  }

  /** Event j of the history took the task at front index i. */
  predicate TookAt(events: seq<Event>, j: nat, i: nat)
  {
    j < |events| && Front(events[..j]) == i && TakesFront(events[..j], events[j])
  }

  /** Every index the front has passed was taken by some event. */
  lemma {:induction false} FrontPassed(events: seq<Event>, i: nat) returns (j: nat)
    requires i < Front(events)
    ensures TookAt(events, j, i)
  {
    var before := events[..|events| - 1];
    if i < Front(before) {
      j := FrontPassed(before, i);
      assert before[..j] == events[..j];
    } else {
      j := |events| - 1;
    }
  }

  /** Once `top` has moved on, the history has the operation that took the task a thief was
      after: a steal, or a pop of the last task, of that logical index. */
  lemma TakenEarlier(logSize: nat, thieves: nat, acts: seq<Action>, s: State, k: nat) returns (j: nat)
    requires Run(Init(logSize, thieves), acts) == Some(s)
    requires k < |s.thieves| && s.thieves[k].Cas? && s.top != s.thieves[k].tp
    ensures TookAt(s.events, j, s.thieves[k].tp) && (s.events[j].Stole? || s.events[j].Popped?)
  {
    RunsAreLinearizable(logSize, thieves, acts);
    TopEveryRun(logSize, thieves, acts);
    assert ThiefOk(s, k);
    j := FrontPassed(s.events, s.thieves[k].tp);
  }

  // ----- growing -----

  /** The copy in progress is the one `CircArray.Grow` makes, as far as it has got. */
  ghost predicate GrowOk(s: State)
  {
    s.owner.PushGrow? ==>
      var PushGrow(_, _, tp, a, i, n) := s.owner;
      a < |s.rings| && tp <= i && n == Copied(s.rings[a], Blank(2 * Size(s.rings[a])), tp, i)
  }

  lemma ThiefLeavesGrow(s: State, k: nat)
    requires GrowOk(s) && k < |s.thieves| && !s.thieves[k].Free?
    ensures GrowOk(StepThief(s, k))
  {
    assert StepThief(s, k).owner == s.owner && StepThief(s, k).rings == s.rings;
  }

  /** Thieves may steal between the steps of the copy. */
  lemma StepGrows(s: State, a: Action)
    requires Safe(s) && GrowOk(s) && Enabled(s, a)
    ensures GrowOk(Step(s, a))
  {
    match a {
      case OwnerStep =>
      case ThiefStep(k) => ThiefLeavesGrow(s, k);
      case _ =>
    }
  }

  lemma {:induction false} GrowEveryRun(logSize: nat, thieves: nat, acts: seq<Action>)
    requires Run(Init(logSize, thieves), acts).Some?
    ensures GrowOk(Run(Init(logSize, thieves), acts).value)
  {
    if acts != [] {
      var front, a := acts[..|acts| - 1], acts[|acts| - 1];
      GrowEveryRun(logSize, thieves, front);
      RunsAreLinearizable(logSize, thieves, front);
      StepGrows(Run(Init(logSize, thieves), front).value, a);
    }
  }

  lemma Publishes(s: State)
    requires LiveOk(s) && OwnerOk(s) && GrowOk(s) && s.owner.PushGrow? && s.owner.i >= s.owner.b
    ensures s.current < |s.rings| && 0 <= s.owner.tp <= s.owner.b == s.bottom
    ensures var grown := Copied(s.rings[s.current], Blank(2 * CurrentSize(s)), s.owner.tp, s.owner.b);
      var s' := StepOwner(s);
      s'.rings == s.rings + [grown] && s'.current == |s.rings| && !s'.owner.PushGrow?
  {
  }

  /** In every run, at the step that publishes a new ring, that ring is the one
      `CircArray.Grow` makes of the published one: twice its size, with the range from the
      `top` that was read up to `bottom` copied, whatever was stolen in the meantime. */
  lemma PublishedIsGrown(logSize: nat, thieves: nat, acts: seq<Action>, s: State)
    requires Run(Init(logSize, thieves), acts) == Some(s) && s.owner.PushGrow? && s.owner.i >= s.owner.b
    ensures s.current < |s.rings| && 0 <= s.owner.tp <= s.owner.b == s.bottom
    ensures var grown := Copied(s.rings[s.current], Blank(2 * CurrentSize(s)), s.owner.tp, s.owner.b);
      var s' := StepOwner(s);
      s'.rings == s.rings + [grown] && s'.current == |s.rings| && !s'.owner.PushGrow?
  {
    RunsAreLinearizable(logSize, thieves, acts);
    GrowEveryRun(logSize, thieves, acts);
    Publishes(s);
  }
}
