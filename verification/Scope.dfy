/** RunScope: the owner spawns children onto its deque, then joins by draining that
    deque inline while pool workers steal from it. Every atomic step of the deque and
    of the `pending` counter is a step here. */
module Scope {
  import opened Options
  import opened Crew
  import opened Deque
  import opened DequeSafety
  import opened DequeHistory
  import opened DequeConservation

  /** Where the owning goroutine is in RunScope. */
  datatype Phase =
    | Body               // running the caller's body
    | Adding(t: Task)    // Spawn has counted t and not yet pushed it
    | Spawning           // inside pushBottom
    | Checking           // about to load pending
    | Draining           // inside popBottom
    | Inline(t: Task)    // running a child it popped
    | Returned

  /** `workers[k]` is the child worker k is running, if any; `begun` lists the children
      Spawn was called with and `finished` those whose function has returned. */
  datatype Group = Group(
    dq: State, pending: int, phase: Phase, workers: seq<Option<Task>>,
    begun: seq<Task>, finished: seq<Task>)

  datatype Act =
    | Spawn(t: Task)        // body calls Spawn: pending.Add(1)
    | StartPush(c: nat)     // Spawn calls pushBottom
    | OwnerDeque            // the owner's next atomic operation on the deque
    | EndBody               // body returns
    | LoadPending           // the join loop's guard; popBottom starts when it holds
    | FinishInline          // a child the owner ran returns: pending.Add(-1)
    | StartSteal(k: nat)    // worker k starts steal
    | WorkerDeque(k: nat)   // worker k's next atomic operation on the deque
    | FinishWorker(k: nat)  // a child worker k ran returns: pending.Add(-1)

  function InitGroup(logSize: nat, workers: nat): Group
  {
    Group(Init(logSize, workers), 0, Body, seq(workers, _ => None), [], [])
  }

  predicate CanAct(g: Group, a: Act)
  {
    match a
    case Spawn(_) => g.phase.Body?
    case StartPush(c) => g.phase.Adding? && Enabled(g.dq, Push(g.phase.t, c))
    case OwnerDeque => (g.phase.Spawning? || g.phase.Draining?) && Enabled(g.dq, OwnerStep)
    case EndBody => g.phase.Body?
    case LoadPending => g.phase.Checking? && Enabled(g.dq, Pop)
    case FinishInline => g.phase.Inline?
    case StartSteal(k) => k < |g.workers| && g.workers[k].None? && Enabled(g.dq, Steal(k))
    case WorkerDeque(k) => k < |g.workers| && g.workers[k].None? && Enabled(g.dq, ThiefStep(k))
    case FinishWorker(k) => k < |g.workers| && g.workers[k].Some?
  }

  /** What an operation on the deque handed back, if it just returned a task. */
  function Fetched(before: State, after: State): Option<Task>
  {
    if |after.returned| > |before.returned| then Some(after.returned[|after.returned| - 1].1) else None
  }

  /** Where the owner goes when its deque operation has, or has not, returned. */
  function AfterDeque(g: Group, d: State): Phase
  {
    if !d.owner.Idle? then g.phase
    else if g.phase.Spawning? then Body
    else
      var t := Fetched(g.dq, d);
      if t.Some? then Inline(t.value) else Checking
  }

  function Next(g: Group, a: Act): Group
    requires CanAct(g, a)
  {
    match a
    case Spawn(t) => g.(pending := g.pending + 1, phase := Adding(t), begun := g.begun + [t])
    case StartPush(c) => g.(dq := Step(g.dq, Push(g.phase.t, c)), phase := Spawning)
    case OwnerDeque =>
      var d := Step(g.dq, OwnerStep);
      g.(dq := d, phase := AfterDeque(g, d))
    case EndBody => g.(phase := Checking)
    case LoadPending =>
      if g.pending > 0 then g.(dq := Step(g.dq, Pop), phase := Draining) else g.(phase := Returned)
    case FinishInline => g.(pending := g.pending - 1, phase := Checking, finished := g.finished + [g.phase.t])
    case StartSteal(k) => g.(dq := Step(g.dq, Steal(k)))
    case WorkerDeque(k) =>
      var d := Step(g.dq, ThiefStep(k));
      g.(dq := d, workers := g.workers[k := Fetched(g.dq, d)])
    case FinishWorker(k) =>
      g.(pending := g.pending - 1, finished := g.finished + [g.workers[k].value], workers := g.workers[k := None])
  }

  function RunGroup(g: Group, acts: seq<Act>): Option<Group>
  {
    if acts == [] then Some(g)
    else
      var r := RunGroup(g, acts[..|acts| - 1]);
      var a := acts[|acts| - 1];
      if r.Some? && CanAct(r.value, a) then Some(Next(r.value, a)) else None
  }

  // ----- the invariant -----

  function AtOwner(p: Phase): Bag
  {
    if p.Inline? then multiset{p.t} else multiset{}
  }

  function Adds(p: Phase): seq<Task>
  {
    if p.Adding? then [p.t] else []
  }

  predicate PhaseOk(g: Group)
  {
    match g.phase
    case Spawning => PushCell(g.dq.owner).Some?
    case Draining => !g.dq.owner.Idle? && PushCell(g.dq.owner).None?
    case _ => g.dq.owner.Idle?
  }

  /** `pending` is the children begun less the children finished; every child handed out
      by the deque is finished or running. */
  ghost predicate Accounted(g: Group)
  {
    && g.pending == |g.begun| - |g.finished|
    && g.begun == g.dq.calls + Adds(g.phase)
    && multiset(AllReturned(g.dq.returned)) == multiset(g.finished) + AtOwner(g.phase) + Busy(g.workers)
    && (g.phase.Returned? ==> g.pending == 0)
  }

  ghost predicate DequeOk(s: State)
  {
    Safe(s) && Linearized(s) && NamesOk(s)
  }

  ghost predicate GroupOk(g: Group)
  {
    DequeOk(g.dq) && PhaseOk(g) && Accounted(g)
  }

  lemma DequeStepOk(s: State, a: Action)
    requires DequeOk(s) && Enabled(s, a)
    ensures DequeOk(Step(s, a))
  {
    StepKeepsSafe(s, a);
    StepLinearized(s, a);
    StepNames(s, a);
  }

  lemma ReturnedAppend(r: seq<(Agent, Task)>, x: (Agent, Task))
    ensures AllReturned(r + [x]) == AllReturned(r) + [x.1]
  {
    assert (r + [x])[..|r|] == r;
  }

  /** What one of the owner's deque steps can do to the records the scope watches. */
  lemma OwnerStepEffect(s: State)
    requires Safe(s) && !s.owner.Idle?
    ensures var s' := StepOwner(s);
      && s'.calls == s.calls
      && (s'.owner.Idle? || PushCell(s'.owner).Some? == PushCell(s.owner).Some?)
      && (s'.returned == s.returned ||
          (exists x :: s'.returned == s.returned + [x] && s'.owner.Idle? && PushCell(s.owner).None?))
  {
    var s' := StepOwner(s);
    if s.owner.PopConsume? {
      assert s'.returned == s.returned + [(TheOwner, s.cells[s.owner.p.value].value)];
    }
  }

  /** What a step of thief `k` adds to the tasks handed back. */
  function GivenBack(s: State, k: nat): seq<(Agent, Task)>
    requires k < |s.thieves|
  {
    if s.thieves[k].Consume? then [(AThief(k), TaskOf(s, s.thieves[k].p))] else []
  }

  lemma ThiefStepEffect(s: State, k: nat)
    requires Safe(s) && k < |s.thieves| && !s.thieves[k].Free?
    ensures var s' := StepThief(s, k);
      s'.calls == s.calls && s'.owner == s.owner && s'.returned == s.returned + GivenBack(s, k)
  {
    assert ThiefOk(s, k);
  }

  /** `pending` at zero, between Spawn calls, leaves no child anywhere but in `finished`. */
  lemma NothingPending(g: Group)
    requires GroupOk(g) && g.pending <= 0 && g.dq.owner.Idle? && !g.phase.Adding?
    ensures multiset(g.begun) == multiset(g.finished)
    ensures Abs(g.dq) == [] && Held(g.dq) == multiset{} && Busy(g.workers) == multiset{} &&
      AtOwner(g.phase) == multiset{}
    ensures g.pending == 0
  {
    Conserved(g.dq);
    assert Pushing(g.dq) == [] && g.begun == g.dq.calls;
    var rest := AtOwner(g.phase) + Busy(g.workers) + Held(g.dq) + multiset(Abs(g.dq));
    assert multiset(g.begun) == multiset(g.finished) + rest;
    assert |multiset(g.begun)| == |multiset(g.finished)| + |rest|;
    assert rest == multiset{};
    assert |multiset(Abs(g.dq))| == 0;
  }

  /** The scope's half of the invariant. */
  ghost predicate BooksOk(g: Group)
  {
    PhaseOk(g) && Accounted(g)
  }

  lemma OwnerBooks(g: Group, d: State)
    requires BooksOk(g) && (g.phase.Spawning? || g.phase.Draining?)
    requires d.calls == g.dq.calls
    requires d.owner.Idle? || PushCell(d.owner).Some? == PushCell(g.dq.owner).Some?
    requires d.returned == g.dq.returned ||
             (exists x :: d.returned == g.dq.returned + [x] && d.owner.Idle? && PushCell(g.dq.owner).None?)
    ensures BooksOk(g.(dq := d, phase := AfterDeque(g, d)))
  {
    if d.returned != g.dq.returned {
      var x :| d.returned == g.dq.returned + [x];
      ReturnedAppend(g.dq.returned, x);
      BagSwap(multiset(g.finished), Busy(g.workers), multiset{x.1});
    }
  }

  lemma WorkerFetchedBooks(g: Group, k: nat, d: State, x: (Agent, Task))
    requires BooksOk(g) && k < |g.workers| && g.workers[k].None?
    requires d.calls == g.dq.calls && d.owner == g.dq.owner && d.returned == g.dq.returned + [x]
    ensures BooksOk(g.(dq := d, workers := g.workers[k := Some(x.1)]))
  {
    ReturnedAppend(g.dq.returned, x);
    WorkerFills(g.workers, k, x.1);
    var f := multiset(g.finished) + AtOwner(g.phase);
    assert (f + Busy(g.workers)) + multiset{x.1} == f + (Busy(g.workers) + multiset{x.1});
  }

  lemma WorkerQuietBooks(g: Group, d: State)
    requires BooksOk(g) && d.calls == g.dq.calls && d.owner == g.dq.owner && d.returned == g.dq.returned
    ensures BooksOk(g.(dq := d))
  {
  }

  lemma WorkerBooks(g: Group, k: nat, d: State, back: seq<(Agent, Task)>, g': Group)
    requires BooksOk(g) && k < |g.workers| && g.workers[k].None? && |back| <= 1
    requires d.calls == g.dq.calls && d.owner == g.dq.owner && d.returned == g.dq.returned + back
    requires g' == g.(dq := d, workers := g.workers[k := Fetched(g.dq, d)])
    ensures BooksOk(g')
  {
    if back == [] {
      assert g.workers[k := None] == g.workers && d.returned == g.dq.returned;
      assert g' == g.(dq := d);
      WorkerQuietBooks(g, d);
    } else {
      assert back == [back[0]];
      assert g' == g.(dq := d, workers := g.workers[k := Some(back[0].1)]);
      WorkerFetchedBooks(g, k, d, back[0]);
    }
  }

  /** A child moves from running to finished. */
  lemma Finishes(finished: seq<Task>, t: Task, a: Bag, b: Bag)
    ensures multiset(finished + [t]) == multiset(finished) + multiset{t}
    ensures multiset(finished) + a + (b + multiset{t}) == multiset(finished + [t]) + a + b
    ensures multiset(finished) + multiset{t} + b == multiset(finished + [t]) + multiset{} + b
  {
  }

  lemma FinishWorkerBooks(g: Group, k: nat)
    requires BooksOk(g) && CanAct(g, FinishWorker(k)) && !g.phase.Returned?
    ensures BooksOk(Next(g, FinishWorker(k)))
  {
    WorkerEmpties(g.workers, k);
    Finishes(g.finished, g.workers[k].value, AtOwner(g.phase), Busy(g.workers[k := None]));
  }

  /** Nobody can finish a child after RunScope has returned. */
  lemma NoneLeft(g: Group, k: nat)
    requires GroupOk(g) && CanAct(g, FinishWorker(k))
    ensures !g.phase.Returned?
  {
    WorkerEmpties(g.workers, k);
    assert g.workers[k].value in Busy(g.workers);
    if g.phase.Returned? {
      NothingPending(g);
      assert false;
    }
  }

  lemma OwnerStepBooks(g: Group)
    requires Safe(g.dq) && BooksOk(g) && CanAct(g, OwnerDeque)
    ensures BooksOk(Next(g, OwnerDeque))
  {
    OwnerStepEffect(g.dq);
    OwnerBooks(g, Step(g.dq, OwnerStep));
  }

  lemma OwnerDequeOk(g: Group)
    requires GroupOk(g) && CanAct(g, OwnerDeque)
    ensures GroupOk(Next(g, OwnerDeque))
  {
    DequeStepOk(g.dq, OwnerStep);
    OwnerStepBooks(g);
  }

  lemma NextOfWorker(g: Group, k: nat)
    requires CanAct(g, WorkerDeque(k))
    ensures Next(g, WorkerDeque(k)) ==
      g.(dq := StepThief(g.dq, k), workers := g.workers[k := Fetched(g.dq, StepThief(g.dq, k))])
  {
  }

  lemma ThiefStepBooks(g: Group, k: nat, d: State)
    requires CanAct(g, WorkerDeque(k)) && d == StepThief(g.dq, k)
    requires d.calls == g.dq.calls && d.owner == g.dq.owner && d.returned == g.dq.returned + GivenBack(g.dq, k)
    requires BooksOk(g)
    ensures BooksOk(Next(g, WorkerDeque(k)))
  {
    NextOfWorker(g, k);
    WorkerBooks(g, k, d, GivenBack(g.dq, k), Next(g, WorkerDeque(k)));
  }

  lemma WorkerDequeOk(g: Group, k: nat)
    requires GroupOk(g) && CanAct(g, WorkerDeque(k))
    ensures GroupOk(Next(g, WorkerDeque(k)))
  {
    DequeStepOk(g.dq, ThiefStep(k));
    ThiefStepEffect(g.dq, k);
    ThiefStepBooks(g, k, StepThief(g.dq, k));
  }

  lemma LoadPendingBooks(g: Group)
    requires BooksOk(g) && CanAct(g, LoadPending) && g.pending > 0
    ensures BooksOk(Next(g, LoadPending))
  {
  }

  lemma LoadPendingOk(g: Group)
    requires GroupOk(g) && CanAct(g, LoadPending)
    ensures GroupOk(Next(g, LoadPending))
  {
    if g.pending > 0 {
      DequeStepOk(g.dq, Pop);
      LoadPendingBooks(g);
    } else {
      NothingPending(g);
    }
  }

  lemma SpawnBooks(g: Group, t: Task)
    requires BooksOk(g) && CanAct(g, Spawn(t))
    ensures BooksOk(Next(g, Spawn(t)))
  {
  }

  lemma EndBodyBooks(g: Group)
    requires BooksOk(g) && CanAct(g, EndBody)
    ensures BooksOk(Next(g, EndBody))
  {
  }

  lemma FinishInlineBooks(g: Group)
    requires BooksOk(g) && CanAct(g, FinishInline)
    ensures BooksOk(Next(g, FinishInline))
  {
    Finishes(g.finished, g.phase.t, multiset{}, Busy(g.workers));
  }

  lemma StartPushBooks(g: Group, c: nat)
    requires BooksOk(g) && CanAct(g, StartPush(c))
    ensures BooksOk(Next(g, StartPush(c)))
  {
  }

  lemma NextOk(g: Group, a: Act)
    requires GroupOk(g) && CanAct(g, a)
    ensures GroupOk(Next(g, a))
  {
    match a {
      case OwnerDeque => OwnerDequeOk(g);
      case WorkerDeque(k) => WorkerDequeOk(g, k);
      case FinishWorker(k) =>
        NoneLeft(g, k);
        FinishWorkerBooks(g, k);
      case LoadPending => LoadPendingOk(g);
      case StartPush(c) =>
        DequeStepOk(g.dq, Push(g.phase.t, c));
        StartPushBooks(g, c);
      case StartSteal(k) => DequeStepOk(g.dq, Steal(k));
      case Spawn(t) => SpawnBooks(g, t);
      case EndBody => EndBodyBooks(g);
      case FinishInline => FinishInlineBooks(g);
    }
  }

  lemma {:induction false} RunsOk(logSize: nat, workers: nat, acts: seq<Act>)
    requires RunGroup(InitGroup(logSize, workers), acts).Some?
    ensures GroupOk(RunGroup(InitGroup(logSize, workers), acts).value)
  {
    if acts == [] {
      InitSafe(logSize, workers);
      InitLinearized(logSize, workers);
      AllIdle<Task>(workers);
    } else {
      RunsOk(logSize, workers, acts[..|acts| - 1]);
      NextOk(RunGroup(InitGroup(logSize, workers), acts[..|acts| - 1]).value, acts[|acts| - 1]);
    }
  }

  /** In every interleaving, `pending` counts the children begun and not finished; and
      once RunScope has returned, every child begun in its body has finished, exactly
      once, nobody is running or holding one, and the scope's deque is empty. */
  lemma JoinIsComplete(logSize: nat, workers: nat, acts: seq<Act>)
    requires RunGroup(InitGroup(logSize, workers), acts).Some?
    ensures var g := RunGroup(InitGroup(logSize, workers), acts).value;
      && g.pending == |g.begun| - |g.finished| && !g.dq.crashed
      && (g.phase.Returned? ==>
            && multiset(g.finished) == multiset(g.begun)
            && Abs(g.dq) == [] && Held(g.dq) == multiset{}
            && Busy(g.workers) == multiset{})
  {
    RunsOk(logSize, workers, acts);
    var g := RunGroup(InitGroup(logSize, workers), acts).value;
    if g.phase.Returned? {
      NothingPending(g);
    }
  }
}
