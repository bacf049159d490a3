/** Why a scope whose children do something can always return: the body can spawn its
    children, every child can be run to its end, and then the join ends. */
module Returns {
  import opened Options
  import opened Crew
  import opened Deque
  import opened DequeSafety
  import opened DequeHistory
  import opened DequeConservation
  import opened Scope
  import opened Progress
  import opened Fork
  import DequeAnswers

  /** Steps keep `inv`, and under it a child that is not done has a step that brings its end
      nearer. */
  ghost predicate Ends<S(!new), A(!new)>(c: Children<S, A>, r: nat, inv: S -> bool, left: (S, nat) -> nat)
  {
    && (forall s, t, a :: inv(s) && c.step(s, t, a).Some? ==> inv(c.step(s, t, a).value))
    && (forall s, t: nat {:trigger c.done(s, t)} :: inv(s) && t < r && !c.done(s, t) ==>
          exists a :: c.step(s, t, a).Some? && left(c.step(s, t, a).value, t) < left(s, t))
  }

  /** What every state of a run has. */
  ghost predicate Live<S, A>(c: Children<S, A>, r: nat, inv: S -> bool, j: Joint<S>)
  {
    Reachable(j.g) && ForkOk(c, r, j) && inv(j.s)
  }

  lemma MoveLive<S(!new), A(!new)>(c: Children<S, A>, r: nat, inv: S -> bool, left: (S, nat) -> nat, j: Joint<S>,
                                   m: Move<A>)
    requires Lasting(c) && Ends(c, r, inv, left) && Live(c, r, inv, j) && Move1(c, r, j, m).Some?
    ensures Live(c, r, inv, Move1(c, r, j, m).value)
  {
    MoveKeeps(c, r, j, m);
    if m.OfScope? {
      ReachableNext(j.g, m.act);
    }
  }

  lemma InitReachable(logSize: nat, workers: nat)
    ensures Reachable(InitGroup(logSize, workers))
  {
    assert RunGroup(InitGroup(logSize, workers), []) == Some(InitGroup(logSize, workers));
  }

  lemma {:induction false} RunsLive<S(!new), A(!new)>(
    c: Children<S, A>, r: nat, inv: S -> bool, left: (S, nat) -> nat, j0: Joint<S>, moves: seq<Move<A>>)
    requires Lasting(c) && Ends(c, r, inv, left) && Live(c, r, inv, j0) && Runs(c, r, j0, moves).Some?
    ensures Live(c, r, inv, Runs(c, r, j0, moves).value)
  {
    if moves != [] {
      var front, m := moves[..|moves| - 1], moves[|moves| - 1];
      RunsLive(c, r, inv, left, j0, front);
      MoveLive(c, r, inv, left, Runs(c, r, j0, front).value, m);
    }
  }

  lemma {:induction false} MovesBoth<S, A>(c: Children<S, A>, r: nat, j: Joint<S>, x: seq<Move<A>>, y: seq<Move<A>>)
    requires Runs(c, r, j, x).Some?
    ensures Runs(c, r, j, x + y) == Runs(c, r, Runs(c, r, j, x).value, y)
    decreases |y|
  {
    if y == [] {
      assert x + y == x;
    } else {
      MovesBoth(c, r, j, x, y[..|y| - 1]);
      assert (x + y)[..|x + y| - 1] == x + y[..|y| - 1];
    }
  }

  lemma OneMove<S, A>(c: Children<S, A>, r: nat, j: Joint<S>, m: Move<A>)
    ensures Runs(c, r, j, [m]) == Move1(c, r, j, m)
  {
    assert [m][..0] == [];
  }

  /** One move, and then others. */
  lemma MoveFirst<S, A>(c: Children<S, A>, r: nat, j: Joint<S>, m: Move<A>, more: seq<Move<A>>)
    requires Move1(c, r, j, m).Some?
    ensures Runs(c, r, j, [m] + more) == Runs(c, r, Move1(c, r, j, m).value, more)
  {
    OneMove(c, r, j, m);
    MovesBoth(c, r, j, [m], more);
  }

  // ----- a child runs to its end -----

  lemma {:induction false} ChildEnds<S(!new), A(!new)>(
    c: Children<S, A>, r: nat, inv: S -> bool, left: (S, nat) -> nat, j: Joint<S>, t: nat)
    returns (moves: seq<Move<A>>, j': Joint<S>)
    requires Lasting(c) && Ends(c, r, inv, left) && Live(c, r, inv, j) && t < r && Running(j.g, t)
    ensures Runs(c, r, j, moves) == Some(j') && Live(c, r, inv, j') && j'.g == j.g && c.done(j'.s, t)
    decreases left(j.s, t)
  {
    moves, j' := [], j;
    if !c.done(j.s, t) {
      var a :| c.step(j.s, t, a).Some? && left(c.step(j.s, t, a).value, t) < left(j.s, t);
      var m := OfChild(t, a);
      MoveLive(c, r, inv, left, j, m);
      moves, j' := ChildEnds(c, r, inv, left, Move1(c, r, j, m).value, t);
      MoveFirst(c, r, j, m, moves);
      moves := [m] + moves;
    }
  }

  lemma Handed(calls: seq<Task>, back: Bag, rest: Bag, t: Task)
    requires multiset(calls) == back + rest && t in back
    ensures t in calls
  {
    assert t in multiset(calls);
  }

  lemma HandedBack(s: State, t: Task)
    requires DequeOk(s) && t in multiset(AllReturned(s.returned))
    ensures t in s.calls
  {
    Conserved(s);
    var back, rest := multiset(AllReturned(s.returned)), Held(s) + multiset(Abs(s)) + multiset(Pushing(s));
    assert multiset(s.calls) == back + rest;
    Handed(s.calls, back, rest, t);
  }

  /** A child that is running has been spawned. */
  lemma RunningIsBegun(g: Group, t: nat)
    requires GroupOk(g) && Running(g, t)
    ensures t in g.begun
  {
    if g.phase != Inline(t) {
      var k :| 0 <= k < |g.workers| && g.workers[k] == Some(t);
      WorkerEmpties(g.workers, k);
    }
    assert t in multiset(AllReturned(g.dq.returned));
    HandedBack(g.dq, t);
  }

  // ----- the scope's steps, with the children's between them -----

  /** The child that must be done before the step. */
  function Finishing(g: Group, act: Act): Option<Task>
    requires CanAct(g, act)
  {
    match act
    case FinishInline => Some(g.phase.t)
    case FinishWorker(k) => g.workers[k]
    case _ => None
  }

  lemma ActFollows<S(!new), A(!new)>(
    c: Children<S, A>, r: nat, inv: S -> bool, left: (S, nat) -> nat, j: Joint<S>, act: Act)
    returns (moves: seq<Move<A>>, j': Joint<S>)
    requires Lasting(c) && Ends(c, r, inv, left) && Live(c, r, inv, j) && CanAct(j.g, act) && !j.g.phase.Body?
    ensures Runs(c, r, j, moves) == Some(j') && Live(c, r, inv, j') && j'.g == Next(j.g, act)
  {
    moves, j' := [], j;
    var t := Finishing(j.g, act);
    if t.Some? {
      ReachableOk(j.g);
      RunningIsBegun(j.g, t.value);
      moves, j' := ChildEnds(c, r, inv, left, j, t.value);
    }
    var m: Move<A> := OfScope(act);
    assert Allowed(c, r, j', act);
    MoveLive(c, r, inv, left, j', m);
    OneMove(c, r, j', m);
    MovesBoth(c, r, j, moves, [m]);
    moves, j' := moves + [m], Move1(c, r, j', m).value;
  }

  lemma JoinStays(g: Group, act: Act)
    requires (Joining(g) || g.phase.Returned?) && CanAct(g, act)
    ensures Joining(Next(g, act)) || Next(g, act).phase.Returned?
  {
  }

  lemma {:induction false} ActsFollow<S(!new), A(!new)>(
    c: Children<S, A>, r: nat, inv: S -> bool, left: (S, nat) -> nat, j: Joint<S>, acts: seq<Act>)
    returns (moves: seq<Move<A>>, j': Joint<S>)
    requires Lasting(c) && Ends(c, r, inv, left) && Live(c, r, inv, j) && RunGroup(j.g, acts).Some?
    requires Joining(j.g) || j.g.phase.Returned?
    ensures Runs(c, r, j, moves) == Some(j') && Live(c, r, inv, j') && Some(j'.g) == RunGroup(j.g, acts)
    ensures Joining(j'.g) || j'.g.phase.Returned?
  {
    moves, j' := [], j;
    if acts != [] {
      moves, j' := ActsFollow(c, r, inv, left, j, acts[..|acts| - 1]);
      var act := acts[|acts| - 1];
      JoinStays(j'.g, act);
      var more, j2 := ActFollows(c, r, inv, left, j', act);
      MovesBoth(c, r, j, moves, more);
      moves, j' := moves + more, j2;
    }
  }

  // ----- the body -----

  predicate Spawns(p: Phase)
  {
    p.Body? || p.Adding? || p.Spawning?
  }

  function Round(p: Phase): nat
  {
    match p
    case Adding(_) => 2
    case Spawning => 1
    case _ => 0
  }

  /** A cell the pool does not know is always to be had. */
  lemma FreshCell(s: State) returns (c: nat)
    ensures c !in s.cells
  {
    var n := 0;
    c := 0;
    var seen: set<nat> := {};
    while c in s.cells
      invariant seen <= s.cells.Keys && forall x :: x in seen ==> x < c
      decreases s.cells.Keys - seen
    {
      assert c !in seen;
      seen := seen + {c};
      c := c + 1;
    }
  }

  /** The next step of the body. */
  lemma BodyStep<S, A>(c: Children<S, A>, r: nat, j: Joint<S>) returns (act: Act)
    requires GroupOk(j.g) && ForkOk(c, r, j) && Spawns(j.g.phase)
    ensures Allowed(c, r, j, act)
    ensures var g := Next(j.g, act);
      || Joining(g)
      || (Spawns(g.phase) && |g.begun| > |j.g.begun|)
      || (Spawns(g.phase) && |g.begun| == |j.g.begun| && Round(g.phase) < Round(j.g.phase))
      || (Spawns(g.phase) && |g.begun| == |j.g.begun| && Round(g.phase) == Round(j.g.phase) &&
          DequeAnswers.Nears(j.g.dq.owner, g.dq.owner))
  {
    match j.g.phase {
      case Body => act := if |j.g.begun| == r then EndBody else Spawn(|j.g.begun|);
      case Adding(t) =>
        var cell := FreshCell(j.g.dq);
        act := StartPush(cell);
      case Spawning =>
        DequeAnswers.OwnerNears(j.g.dq);
        act := OwnerDeque;
    }
  }

  lemma {:induction false} BodyEnds<S(!new), A(!new)>(
    c: Children<S, A>, r: nat, inv: S -> bool, left: (S, nat) -> nat, j: Joint<S>)
    returns (moves: seq<Move<A>>, j': Joint<S>)
    requires Lasting(c) && Ends(c, r, inv, left) && Live(c, r, inv, j) && Spawns(j.g.phase)
    ensures Runs(c, r, j, moves) == Some(j') && Live(c, r, inv, j') && Joining(j'.g)
    decreases r - |j.g.begun|, Round(j.g.phase), DequeAnswers.Stage(j.g.dq.owner), DequeAnswers.ToCopy(j.g.dq.owner)
  {
    ReachableOk(j.g);
    var act := BodyStep(c, r, j);
    var m: Move<A> := OfScope(act);
    MoveLive(c, r, inv, left, j, m);
    j' := Move1(c, r, j, m).value;
    moves := [];
    if Spawns(j'.g.phase) {
      moves, j' := BodyEnds(c, r, inv, left, j');
    }
    MoveFirst(c, r, j, m, moves);
    moves := [m] + moves;
  }

  // ----- a worker alone -----

  /** The worker's next step at its deque operation shows in the group as it does there. */
  lemma WorkerStep(g: Group, k: nat)
    requires Reachable(g) && k < |g.workers| && g.workers[k].None? && k < |g.dq.thieves| && !g.dq.thieves[k].Free?
    ensures CanAct(g, WorkerDeque(k))
    ensures var d, g' := StepThief(g.dq, k), Next(g, WorkerDeque(k));
      && g'.dq == d && g'.phase == g.phase && |g'.workers| == |g.workers|
      && g'.workers[k] == if g.dq.thieves[k].Consume? then Some(TaskOf(g.dq, g.dq.thieves[k].p)) else None
  {
    ReachableOk(g);
    if g.dq.thieves[k].Consume? {
      assert ThiefOk(g.dq, k);
      ConsumeEffect(g.dq, k);
    } else {
      assert StepThief(g.dq, k).returned == g.dq.returned;
    }
  }

  /** What a worker's steal, left alone, will have handed it. */
  function WillRun(s: State, k: nat): seq<Task>
    requires k < |s.thieves|
  {
    if DequeAnswers.WillTake(s, k) && Abs(s) != [] then Abs(s)[..1] else Holding(s, AThief(k))
  }

  lemma WillRunStays(s: State, k: nat)
    requires Safe(s) && k < |s.thieves| && !s.thieves[k].Free? && !s.thieves[k].Consume?
    ensures WillRun(StepThief(s, k), k) == WillRun(s, k)
  {
    var s' := StepThief(s, k);
    DequeAnswers.ThiefStepAlone(s, k);
    assert s'.returned == s.returned;
    assert DequeAnswers.GivenToThief(s, k)[|s.returned|..] == DequeAnswers.ForAgent(AThief(k), WillRun(s, k));
    assert DequeAnswers.GivenToThief(s', k)[|s.returned|..] == DequeAnswers.ForAgent(AThief(k), WillRun(s', k));
  }

  /** What the worker's next step leaves to be done. */
  lemma WorkerNears(g: Group, k: nat)
    requires Reachable(g) && Crewed(g) && k < |g.workers| && g.workers[k].None? && !g.dq.thieves[k].Free?
    ensures CanAct(g, WorkerDeque(k))
    ensures var g' := Next(g, WorkerDeque(k));
      && Reachable(g') && Crewed(g') && |g'.workers| == |g.workers|
      && DequeAnswers.Left(g'.dq.thieves[k]) < DequeAnswers.Left(g.dq.thieves[k])
      && g'.dq.owner == g.dq.owner && g'.dq.bottom == g.dq.bottom
      && DequeAnswers.LeftByThief(g'.dq, k) == DequeAnswers.LeftByThief(g.dq, k)
      && if g.dq.thieves[k].Consume? then
           g'.dq.thieves[k].Free? && WillRun(g.dq, k) != [] && g'.workers[k] == Some(WillRun(g.dq, k)[0])
         else g'.workers[k].None? && WillRun(g'.dq, k) == WillRun(g.dq, k)
  {
    ReachableOk(g);
    WorkerStep(g, k);
    DequeAnswers.ThiefStepAlone(g.dq, k);
    ReachableNext(g, WorkerDeque(k));
    if g.dq.thieves[k].Consume? {
      assert ThiefOk(g.dq, k);
      ConsumeEffect(g.dq, k);
    } else {
      WillRunStays(g.dq, k);
    }
  }

  ghost predicate WorkerEnded(g: Group, k: nat, g': Group)
    requires k < |g.dq.thieves|
  {
    && Reachable(g') && Crewed(g') && k < |g'.workers| == |g.workers| && g'.dq.thieves[k].Free?
    && g'.dq.owner == g.dq.owner && g'.dq.bottom == g.dq.bottom
    && g'.workers[k] == (if WillRun(g.dq, k) == [] then None else Some(WillRun(g.dq, k)[0]))
    && Abs(g'.dq) == DequeAnswers.LeftByThief(g.dq, k)
  }

  /** The steal worker k is in, left alone, ends with the worker running what it was to get. */
  lemma {:induction false} WorkerEnds(g: Group, k: nat) returns (own: seq<Act>, g': Group)
    requires Reachable(g) && Crewed(g) && k < |g.workers| && g.workers[k].None?
    ensures (forall a :: a in own ==> a == WorkerDeque(k)) && RunGroup(g, own) == Some(g') && WorkerEnded(g, k, g')
    decreases DequeAnswers.Left(g.dq.thieves[k])
  {
    own, g' := [], g;
    if !g.dq.thieves[k].Free? {
      WorkerNears(g, k);
      g' := Next(g, WorkerDeque(k));
      if !g.dq.thieves[k].Consume? {
        own, g' := WorkerEnds(g', k);
      }
      RunFirst(g, WorkerDeque(k), own);
      own := [WorkerDeque(k)] + own;
    }
  }

  lemma StealStarts(g: Group, k: nat)
    requires Reachable(g) && Crewed(g) && k < |g.workers| && g.workers[k].None? && g.dq.thieves[k].Free?
    ensures CanAct(g, StartSteal(k))
    ensures var g' := Next(g, StartSteal(k));
      && Reachable(g') && Crewed(g') && g'.workers == g.workers && Abs(g'.dq) == Abs(g.dq)
      && (DequeAnswers.Stealable(g.dq) ==> DequeAnswers.WillTake(g'.dq, k))
  {
    ReachableOk(g);
    ReachableNext(g, StartSteal(k));
    AbsKept(g.dq, Next(g, StartSteal(k)).dq, None);
  }

  /** A worker that has no child, and has won none, takes the oldest one by its own steps,
      unless the deque is empty or the owner is about to take its last child. */
  lemma WorkerTakes(g: Group, k: nat) returns (own: seq<Act>, g': Group)
    requires Reachable(g) && k < |g.workers| && QuietAt(g, k) && DequeAnswers.Stealable(g.dq)
    ensures (forall a :: a in own ==> a == StartSteal(k) || a == WorkerDeque(k)) && RunGroup(g, own) == Some(g')
    ensures Abs(g'.dq) == Abs(g.dq)[1..] && k < |g'.workers| && g'.workers[k] == Some(Abs(g.dq)[0])
  {
    ReachableCrewed(g);
    own, g' := WorkerEnds(g, k);
    if g'.workers[k].None? {
      StealStarts(g', k);
      var more, g2 := WorkerEnds(Next(g', StartSteal(k)), k);
      RunFirst(g', StartSteal(k), more);
      RunBoth(g, own, [StartSteal(k)] + more);
      own, g' := own + ([StartSteal(k)] + more), g2;
    }
  }

  // ----- the whole -----

  /** No interleaving of the scope's steps with its children's leads to a state from which
      RunScope cannot return, as long as every child can be brought to its end. */
  lemma CanReturn<S(!new), A(!new)>(
    c: Children<S, A>, r: nat, inv: S -> bool, left: (S, nat) -> nat, logSize: nat, workers: nat, s: S,
    moves: seq<Move<A>>, j: Joint<S>)
    returns (more: seq<Move<A>>, j': Joint<S>)
    requires Lasting(c) && Ends(c, r, inv, left) && inv(s)
    requires Runs(c, r, Joint(InitGroup(logSize, workers), s), moves) == Some(j)
    ensures Runs(c, r, j, more) == Some(j') && j'.g.phase.Returned?
  {
    InitReachable(logSize, workers);
    RunsLive(c, r, inv, left, Joint(InitGroup(logSize, workers), s), moves);
    more, j' := [], j;
    if Spawns(j.g.phase) {
      more, j' := BodyEnds(c, r, inv, left, j);
    }
    if !j'.g.phase.Returned? {
      var acts, g := JoinCanEnd(j'.g);
      var last, j2 := ActsFollow(c, r, inv, left, j', acts);
      MovesBoth(c, r, j, more, last);
      more, j' := more + last, j2;
    }
  }
}
