/** Why a scope's owner cannot be stuck joining: draining its own children it returns by
    itself once no worker has one of them. */
module Progress {
  import opened Options
  import opened Crew
  import opened Deque
  import opened DequeConservation
  import opened Scope

  /** The body has ended and the owner is waiting for its children. */
  predicate Joining(g: Group)
  {
    g.phase.Checking? || g.phase.Draining? || g.phase.Inline?
  }

  /** No worker has a child: none is running one or has won one. */
  predicate Quiet(g: Group)
  {
    && (forall k :: 0 <= k < |g.workers| ==> g.workers[k].None?)
    && (forall k :: 0 <= k < |g.dq.thieves| ==> !g.dq.thieves[k].Consume?)
  }

  /** Some interleaving leads to g. */
  ghost predicate Reachable(g: Group)
  {
    exists logSize: nat, workers: nat, acts: seq<Act> :: RunGroup(InitGroup(logSize, workers), acts) == Some(g)
  }

  lemma ReachableOk(g: Group)
    requires Reachable(g)
    ensures GroupOk(g)
  {
    var logSize: nat, workers: nat, acts :| RunGroup(InitGroup(logSize, workers), acts) == Some(g);
    RunsOk(logSize, workers, acts);
  }

  lemma RunNext(g0: Group, acts: seq<Act>, g: Group, a: Act)
    requires RunGroup(g0, acts) == Some(g) && CanAct(g, a)
    ensures RunGroup(g0, acts + [a]) == Some(Next(g, a))
  {
    assert (acts + [a])[..|acts|] == acts;
  }

  lemma ReachableNext(g: Group, a: Act)
    requires Reachable(g) && CanAct(g, a)
    ensures Reachable(Next(g, a))
  {
    var logSize: nat, workers: nat, acts :| RunGroup(InitGroup(logSize, workers), acts) == Some(g);
    RunNext(InitGroup(logSize, workers), acts, g, a);
  }

  predicate OfOwner(a: Act)
  {
    a.OwnerDeque? || a.LoadPending? || a.FinishInline?
  }

  /** The owner's next step while joining. */
  function OwnerAct(g: Group): Act
    requires Joining(g)
  {
    match g.phase
    case Checking => LoadPending
    case Draining => OwnerDeque
    case _ => FinishInline
  }

  /** It can always be taken, and is the only one. */
  lemma OwnerMay(g: Group)
    requires GroupOk(g) && Joining(g)
    ensures CanAct(g, OwnerAct(g)) && forall a :: OfOwner(a) && CanAct(g, a) ==> a == OwnerAct(g)
    ensures Joining(Next(g, OwnerAct(g))) || Next(g, OwnerAct(g)).phase.Returned?
  {
  }

  // ----- how many steps are left -----

  /** Unless a thief moves, the pop in progress gets a task. */
  predicate PopWins(s: State)
  {
    match s.owner
    case PopLoadArray(b) => s.top <= b
    case PopStoreBottom(b, _) => s.top <= b
    case PopLoadTop(b, _) => s.top <= b
    case PopLoadSlot(b, _, tp) => tp != b || s.top == tp
    case PopCas(_, tp, _) => s.top == tp
    case PopUnlock(_, _, won) => won
    case PopConsume(_) => true
    case _ => false
  }

  /** At most this many steps of the pop are left. */
  function PopLeft(w: Owner): nat
  {
    match w
    case PopLoadArray(_) => 7
    case PopStoreBottom(_, _) => 6
    case PopLoadTop(_, _) => 5
    case PopLoadSlot(_, _, _) => 4
    case PopCas(_, _, _) => 3
    case PopUnlock(_, _, _) => 2
    case PopRestore(_) => 1
    case PopConsume(_) => 1
    case _ => 0
  }

  /** A pop that loses makes the owner check `pending` once more and pop again. */
  function Rank(g: Group): nat
  {
    match g.phase
    case Draining => if PopWins(g.dq) then PopLeft(g.dq.owner) else 9 + PopLeft(g.dq.owner)
    case Checking => 8
    case _ => 0
  }

  /** At most this many steps bring the owner, left alone, to its return. */
  function StepsLeft(g: Group): nat
  {
    20 * (if g.pending > 0 then g.pending else 0) + Rank(g)
  }

  /** A pop that nobody disturbs comes nearer its end. */
  lemma PopNears(s: State)
    requires Safe(s) && !s.owner.Idle? && PushCell(s.owner).None? && !StepOwner(s).owner.Idle?
    ensures PopWins(StepOwner(s)) == PopWins(s) && PopLeft(StepOwner(s).owner) < PopLeft(s.owner)
  {
  }

  /** It ends as `PopWins` foretells. */
  lemma PopEnds(s: State)
    requires Safe(s) && !s.owner.Idle? && PushCell(s.owner).None? && StepOwner(s).owner.Idle?
    ensures |StepOwner(s).returned| > |s.returned| <==> PopWins(s)
  {
  }

  /** Of the children begun, all but the finished ones are run by the owner, had by workers
      or left in the deque. */
  lemma Counts(begun: seq<Task>, back: Bag, held: Bag, left: seq<Task>, pushing: seq<Task>,
               finished: seq<Task>, owner: Bag, busy: Bag)
    requires multiset(begun) == back + held + multiset(left) + multiset(pushing) && pushing == []
    requires back == multiset(finished) + owner + busy
    ensures |begun| == |finished| + |owner| + |busy| + |held| + |left|
  {
    assert |multiset(begun)| == |back| + |held| + |multiset(left)|;
    assert |back| == |multiset(finished)| + |owner| + |busy|;
  }

  lemma {:induction false} ThievesHoldNothing(s: State, n: nat)
    requires forall k :: 0 <= k < |s.thieves| ==> !s.thieves[k].Consume?
    ensures HeldThieves(s, n) == multiset{}
  {
    if n > 0 {
      ThievesHoldNothing(s, n - 1);
    }
  }

  lemma NobodyHolds(s: State)
    requires s.owner.Idle? && forall k :: 0 <= k < |s.thieves| ==> !s.thieves[k].Consume?
    ensures Held(s) == multiset{}
  {
    ThievesHoldNothing(s, |s.thieves|);
  }

  /** Between pops, children not finished are in the deque when no worker has one. */
  lemma SomethingLeft(g: Group)
    requires GroupOk(g) && Quiet(g) && g.phase.Checking? && g.pending > 0
    ensures g.dq.top <= g.dq.bottom - 1
  {
    Conserved(g.dq);
    NobodyHolds(g.dq);
    NobodyBusy(g.workers);
    Counts(g.dq.calls, multiset(AllReturned(g.dq.returned)), Held(g.dq), Abs(g.dq), Pushing(g.dq),
           g.finished, AtOwner(g.phase), Busy(g.workers));
  }

  /** The child the owner runs is still counted. */
  lemma InlineCounted(g: Group)
    requires GroupOk(g) && g.phase.Inline?
    ensures g.pending > 0
  {
    Conserved(g.dq);
    Counts(g.dq.calls, multiset(AllReturned(g.dq.returned)), Held(g.dq), Abs(g.dq), Pushing(g.dq),
           g.finished, AtOwner(g.phase), Busy(g.workers));
  }

  lemma DrainNears(g: Group)
    requires Safe(g.dq) && PhaseOk(g) && g.phase.Draining? && Quiet(g)
    ensures StepsLeft(Next(g, OwnerDeque)) < StepsLeft(g) && Quiet(Next(g, OwnerDeque))
  {
    var d := StepOwner(g.dq);
    OwnerThieves(g.dq);
    if d.owner.Idle? {
      PopEnds(g.dq);
    } else {
      PopNears(g.dq);
    }
    assert Next(g, OwnerDeque) == g.(dq := d, phase := AfterDeque(g, d));
  }

  lemma CheckNears(g: Group)
    requires g.phase.Checking? && g.dq.owner.Idle? && Quiet(g) && (g.pending > 0 ==> g.dq.top <= g.dq.bottom - 1)
    ensures StepsLeft(Next(g, LoadPending)) < StepsLeft(g) && Quiet(Next(g, LoadPending))
  {
  }

  /** The owner's next step can be taken and brings its return nearer. */
  lemma OwnerNears(g: Group)
    requires Reachable(g) && Joining(g) && Quiet(g)
    ensures CanAct(g, OwnerAct(g)) && forall a :: OfOwner(a) && CanAct(g, a) ==> a == OwnerAct(g)
    ensures var g' := Next(g, OwnerAct(g));
      && Reachable(g') && (Joining(g') || g'.phase.Returned?)
      && Quiet(g') && StepsLeft(g') < StepsLeft(g)
  {
    ReachableOk(g);
    OwnerMay(g);
    ReachableNext(g, OwnerAct(g));
    match g.phase {
      case Checking =>
        if g.pending > 0 {
          SomethingLeft(g);
        }
        CheckNears(g);
      case Draining => DrainNears(g);
      case _ => InlineCounted(g);
    }
  }

  // ----- the owner alone -----

  lemma {:induction false} RunFirst(g: Group, a: Act, acts: seq<Act>)
    requires CanAct(g, a)
    ensures RunGroup(g, [a] + acts) == RunGroup(Next(g, a), acts)
    decreases |acts|
  {
    if acts == [] {
      RunNext(g, [], g, a);
      assert [] + [a] == [a] + acts;
    } else {
      RunFirst(g, a, acts[..|acts| - 1]);
      assert ([a] + acts)[..|acts|] == [a] + acts[..|acts| - 1];
    }
  }

  /** From any reachable joining state in which no worker has a child, the owner returns by
      its own steps, the children it pops finishing. */
  lemma {:induction false} OwnerReturns(g: Group) returns (own: seq<Act>, g': Group)
    requires Reachable(g) && Joining(g) && Quiet(g)
    ensures (forall a :: a in own ==> OfOwner(a)) && RunGroup(g, own) == Some(g') && g'.phase.Returned?
    decreases StepsLeft(g)
  {
    var a := OwnerAct(g);
    OwnerNears(g);
    var rest := [];
    g' := Next(g, a);
    if Joining(g') {
      rest, g' := OwnerReturns(g');
    }
    RunFirst(g, a, rest);
    own := [a] + rest;
  }

  lemma {:induction false} FirstCan(g: Group, acts: seq<Act>)
    requires acts != [] && RunGroup(g, acts).Some?
    ensures acts[0] in acts && CanAct(g, acts[0])
    decreases |acts|
  {
    if |acts| > 1 {
      FirstCan(g, acts[..|acts| - 1]);
    } else {
      assert acts[..0] == [];
    }
  }

  /** And it has no choice: any steps of its own are so few, and while it has not returned
      there is a next one. */
  lemma {:induction false} OwnerCannotStray(g: Group, own: seq<Act>, g': Group)
    requires Reachable(g) && Joining(g) && Quiet(g) && (forall a :: a in own ==> OfOwner(a))
    requires RunGroup(g, own) == Some(g')
    ensures |own| <= StepsLeft(g) && (g'.phase.Returned? || (Joining(g') && CanAct(g', OwnerAct(g'))))
    decreases |own|, 0
  {
    OwnerNears(g);
    if own != [] {
      FirstCan(g, own);
      assert forall a :: a in own[1..] ==> a in own;
      assert own == [own[0]] + own[1..];
      RunFirst(g, own[0], own[1..]);
      AfterFirst(Next(g, own[0]), own[1..], g');
    }
  }

  lemma {:induction false} AfterFirst(g: Group, own: seq<Act>, g': Group)
    requires Reachable(g) && Quiet(g) && (Joining(g) || g.phase.Returned?)
    requires (forall a :: a in own ==> OfOwner(a)) && RunGroup(g, own) == Some(g')
    ensures |own| <= StepsLeft(g) && (g'.phase.Returned? || (Joining(g') && CanAct(g', OwnerAct(g'))))
    decreases |own|, 1
  {
    if Joining(g) {
      OwnerCannotStray(g, own, g');
    } else if own != [] {
      FirstCan(g, own);
      assert false;
    }
  }

  // ----- with the workers -----

  /** There is a thief for each worker. */
  predicate Crewed(g: Group)
  {
    |g.workers| == |g.dq.thieves|
  }

  lemma CrewStep(g: Group, a: Act)
    requires DequeOk(g.dq) && CanAct(g, a) && Crewed(g)
    ensures Crewed(Next(g, a))
  {
    match a {
      case OwnerDeque => StepNames(g.dq, OwnerStep);
      case WorkerDeque(k) => StepNames(g.dq, ThiefStep(k));
      case _ =>
    }
  }

  lemma {:induction false} CrewStays(logSize: nat, workers: nat, acts: seq<Act>)
    requires RunGroup(InitGroup(logSize, workers), acts).Some?
    ensures Crewed(RunGroup(InitGroup(logSize, workers), acts).value)
  {
    if acts != [] {
      var front, a := acts[..|acts| - 1], acts[|acts| - 1];
      CrewStays(logSize, workers, front);
      RunsOk(logSize, workers, front);
      CrewStep(RunGroup(InitGroup(logSize, workers), front).value, a);
    }
  }

  lemma ReachableCrewed(g: Group)
    requires Reachable(g)
    ensures Crewed(g)
  {
    var logSize: nat, workers: nat, acts :| RunGroup(InitGroup(logSize, workers), acts) == Some(g);
    CrewStays(logSize, workers, acts);
  }

  lemma {:induction false} RunBoth(g: Group, x: seq<Act>, y: seq<Act>)
    requires RunGroup(g, x).Some?
    ensures RunGroup(g, x + y) == RunGroup(RunGroup(g, x).value, y)
    decreases |y|
  {
    if y == [] {
      assert x + y == x;
    } else {
      RunBoth(g, x, y[..|y| - 1]);
      assert (x + y)[..|x + y| - 1] == x + y[..|y| - 1];
    }
  }

  predicate QuietAt(g: Group, k: nat)
  {
    && (k < |g.workers| ==> g.workers[k].None?)
    && (k < |g.dq.thieves| ==> !g.dq.thieves[k].Consume?)
  }

  /** Only worker k changes between the two states. */
  ghost predicate OnlyAt(g: Group, g': Group, k: nat)
  {
    && g'.phase == g.phase && |g'.workers| == |g.workers|
    && forall j: nat :: j != k && QuietAt(g, j) ==> QuietAt(g', j)
  }

  lemma FinishesAt(g: Group, k: nat)
    requires k < |g.workers| && g.workers[k].Some?
    ensures var g' := Next(g, FinishWorker(k));
      OnlyAt(g, g', k) && g'.workers[k].None? && g'.dq.thieves == g.dq.thieves
  {
  }

  lemma ConsumeEffect(s: State, k: nat)
    requires k < |s.thieves| && s.thieves[k].Consume? && ThiefOk(s, k)
    ensures var s' := StepThief(s, k);
      s'.thieves == s.thieves[k := Free] && |s'.returned| > |s.returned|
  {
  }

  lemma ConsumesAt(g: Group, k: nat)
    requires Reachable(g) && k < |g.workers| == |g.dq.thieves| && g.workers[k].None? && g.dq.thieves[k].Consume?
    ensures CanAct(g, WorkerDeque(k))
    ensures var g' := Next(g, WorkerDeque(k));
      OnlyAt(g, g', k) && g'.workers[k].Some? && |g'.dq.thieves| == |g.dq.thieves| && g'.dq.thieves[k].Free?
  {
    ReachableOk(g);
    assert ThiefOk(g.dq, k);
    ConsumeEffect(g.dq, k);
    NextOfWorker(g, k);
  }

  lemma Extend(g: Group, acts: seq<Act>, g1: Group, a: Act) returns (more: seq<Act>, g2: Group)
    requires RunGroup(g, acts) == Some(g1) && Reachable(g1) && CanAct(g1, a)
    ensures g2 == Next(g1, a) && RunGroup(g, more) == Some(g2) && Reachable(g2)
  {
    more, g2 := acts + [a], Next(g1, a);
    RunNext(g, acts, g1, a);
    ReachableNext(g1, a);
  }

  lemma WinnerSettles(g: Group, acts: seq<Act>, g1: Group, k: nat) returns (more: seq<Act>, g': Group)
    requires RunGroup(g, acts) == Some(g1) && Reachable(g1) && OnlyAt(g, g1, k)
    requires k < |g1.workers| == |g1.dq.thieves| && g1.workers[k].None? && g1.dq.thieves[k].Consume?
    ensures RunGroup(g, more) == Some(g') && Reachable(g') && OnlyAt(g, g', k) && QuietAt(g', k)
  {
    ConsumesAt(g1, k);
    var g2;
    more, g2 := Extend(g, acts, g1, WorkerDeque(k));
    FinishesAt(g2, k);
    more, g' := Extend(g, more, g2, FinishWorker(k));
  }

  /** A worker that has a child can finish it. */
  lemma WorkerSettles(g: Group, k: nat) returns (acts: seq<Act>, g': Group)
    requires Reachable(g) && k < |g.workers|
    ensures RunGroup(g, acts) == Some(g') && Reachable(g') && OnlyAt(g, g', k) && QuietAt(g', k)
  {
    ReachableCrewed(g);
    acts, g' := [], g;
    if g.workers[k].Some? {
      FinishesAt(g, k);
      acts, g' := Extend(g, acts, g', FinishWorker(k));
    }
    if g'.dq.thieves[k].Consume? {
      acts, g' := WinnerSettles(g, acts, g', k);
    }
  }

  /** So can the first n of them. */
  lemma {:induction false} WorkersSettle(g: Group, n: nat) returns (acts: seq<Act>, g': Group)
    requires Reachable(g) && n <= |g.workers|
    ensures RunGroup(g, acts) == Some(g') && Reachable(g') && g'.phase == g.phase && |g'.workers| == |g.workers|
    ensures forall j: nat :: j < n ==> QuietAt(g', j)
  {
    if n == 0 {
      return [], g;
    }
    var first, g1 := WorkersSettle(g, n - 1);
    var last;
    last, g' := WorkerSettles(g1, n - 1);
    RunBoth(g, first, last);
    acts := first + last;
  }

  lemma AllQuiet(g: Group)
    requires Crewed(g) && forall j: nat :: j < |g.workers| ==> QuietAt(g, j)
    ensures Quiet(g)
  {
    forall k | 0 <= k < |g.workers| ensures g.workers[k].None? && !g.dq.thieves[k].Consume? {
      assert QuietAt(g, k);
    }
  }

  /** No interleaving leads to a joining state that RunScope cannot return from: the workers
      finish the children they have, and the owner drains the rest. */
  lemma JoinCanEnd(g: Group) returns (more: seq<Act>, g': Group)
    requires Reachable(g) && Joining(g)
    ensures RunGroup(g, more) == Some(g') && g'.phase.Returned?
  {
    var settle, g1 := WorkersSettle(g, |g.workers|);
    ReachableCrewed(g1);
    AllQuiet(g1);
    var own;
    own, g' := OwnerReturns(g1);
    RunBoth(g, settle, own);
    more := settle + own;
  }
}
