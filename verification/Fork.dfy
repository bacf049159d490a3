/** A scope whose children do something: the steps of RunScope interleaved with the steps
    of the children it is running. Child t may step only while some goroutine runs it, and
    returns only when it is done. */
module Fork {
  import opened Options
  import opened Scope

  /** The scope, and the memory the children share. */
  datatype Joint<S> = Joint(g: Group, s: S)

  /** A step of the scope, or step `a` of child t. */
  datatype Move<A> = OfScope(act: Act) | OfChild(t: nat, a: A)

  /** What the children do: the effect of a child's step, if it can take it, and whether a
      child's function has reached its end. */
  datatype Children<!S, !A> = Children(step: (S, nat, A) -> Option<S>, done: (S, nat) -> bool)

  /** The body spawns children 0 to r - 1 in order and then ends. */
  predicate Allowed<S, A>(c: Children<S, A>, r: nat, j: Joint<S>, act: Act)
  {
    && CanAct(j.g, act)
    && match act
       case Spawn(t) => t == |j.g.begun| && t < r
       case EndBody => |j.g.begun| == r
       case FinishInline => c.done(j.s, j.g.phase.t)
       case FinishWorker(k) => c.done(j.s, j.g.workers[k].value)
       case _ => true
  }

  predicate Running(g: Group, t: nat)
  {
    g.phase == Inline(t) || Some(t) in g.workers
  }

  function Move1<S, A>(c: Children<S, A>, r: nat, j: Joint<S>, m: Move<A>): Option<Joint<S>>
  {
    match m
    case OfScope(act) => if Allowed(c, r, j, act) then Some(j.(g := Next(j.g, act))) else None
    case OfChild(t, a) =>
      var s := c.step(j.s, t, a);
      if Running(j.g, t) && s.Some? then Some(j.(s := s.value)) else None
  }

  function Runs<S, A>(c: Children<S, A>, r: nat, j: Joint<S>, moves: seq<Move<A>>): Option<Joint<S>>
  {
    if moves == [] then Some(j)
    else
      var before := Runs(c, r, j, moves[..|moves| - 1]);
      if before.Some? then Move1(c, r, before.value, moves[|moves| - 1]) else None
  }

  /** The scope's own steps, and the children's. */
  function Acts<A>(moves: seq<Move<A>>): seq<Act>
  {
    if moves == [] then []
    else
      var m := moves[|moves| - 1];
      var before := Acts(moves[..|moves| - 1]);
      if m.OfScope? then before + [m.act] else before
  }

  function Steps<A>(moves: seq<Move<A>>): seq<(nat, A)>
  {
    if moves == [] then []
    else
      var m := moves[|moves| - 1];
      var before := Steps(moves[..|moves| - 1]);
      if m.OfChild? then before + [(m.t, m.a)] else before
  }

  /** The children's steps alone, in the same order. */
  function Alone<S, A>(c: Children<S, A>, s: S, steps: seq<(nat, A)>): Option<S>
  {
    if steps == [] then Some(s)
    else
      var before := Alone(c, s, steps[..|steps| - 1]);
      var (t, a) := steps[|steps| - 1];
      if before.Some? then c.step(before.value, t, a) else None
  }

  /** A child that is done stays done. */
  ghost predicate Lasting<S(!new), A(!new)>(c: Children<S, A>)
  {
    forall s, t, a, u :: c.step(s, t, a).Some? && c.done(s, u) ==> c.done(c.step(s, t, a).value, u)
  }

  /** The children begun are the first ones, all of them once the body has ended, and those
      finished are done. */
  ghost predicate ForkOk<S, A>(c: Children<S, A>, r: nat, j: Joint<S>)
  {
    && |j.g.begun| <= r && (forall i :: 0 <= i < |j.g.begun| ==> j.g.begun[i] == i)
    && (j.g.phase.Body? || j.g.phase.Adding? || j.g.phase.Spawning? || |j.g.begun| == r)
    && (forall t :: t in j.g.finished ==> c.done(j.s, t))
  }

  lemma MoveKeeps<S(!new), A(!new)>(c: Children<S, A>, r: nat, j: Joint<S>, m: Move<A>)
    requires Lasting(c) && ForkOk(c, r, j) && Move1(c, r, j, m).Some?
    ensures ForkOk(c, r, Move1(c, r, j, m).value)
  {
  }

  lemma GroupNext(g0: Group, acts: seq<Act>, g: Group, act: Act)
    requires RunGroup(g0, acts) == Some(g) && CanAct(g, act)
    ensures RunGroup(g0, acts + [act]) == Some(Next(g, act))
  {
    assert (acts + [act])[..|acts|] == acts;
  }

  lemma AloneNext<S, A>(c: Children<S, A>, s0: S, steps: seq<(nat, A)>, s: S, t: nat, a: A)
    requires Alone(c, s0, steps) == Some(s)
    ensures Alone(c, s0, steps + [(t, a)]) == c.step(s, t, a)
  {
    assert (steps + [(t, a)])[..|steps|] == steps;
  }

  /** The joint state is what the scope's steps and the children's steps give separately. */
  ghost predicate Tracks<S, A>(c: Children<S, A>, r: nat, j0: Joint<S>, moves: seq<Move<A>>, j: Joint<S>)
  {
    ForkOk(c, r, j) && RunGroup(j0.g, Acts(moves)) == Some(j.g) && Alone(c, j0.s, Steps(moves)) == Some(j.s)
  }

  lemma Split<A>(moves: seq<Move<A>>, m: Move<A>)
    ensures Acts(moves + [m]) == if m.OfScope? then Acts(moves) + [m.act] else Acts(moves)
    ensures Steps(moves + [m]) == if m.OfChild? then Steps(moves) + [(m.t, m.a)] else Steps(moves)
  {
    assert (moves + [m])[..|moves|] == moves;
  }

  lemma TracksNext<S(!new), A(!new)>(
    c: Children<S, A>, r: nat, j0: Joint<S>, moves: seq<Move<A>>, j: Joint<S>, m: Move<A>)
    requires Lasting(c) && Tracks(c, r, j0, moves, j) && Move1(c, r, j, m).Some?
    ensures Tracks(c, r, j0, moves + [m], Move1(c, r, j, m).value)
  {
    MoveKeeps(c, r, j, m);
    Split(moves, m);
    match m {
      case OfScope(act) => GroupNext(j0.g, Acts(moves), j.g, act);
      case OfChild(t, a) => AloneNext(c, j0.s, Steps(moves), j.s, t, a);
    }
  }

  lemma {:induction false} RunsTrack<S(!new), A(!new)>(c: Children<S, A>, r: nat, j0: Joint<S>, moves: seq<Move<A>>)
    requires Lasting(c) && ForkOk(c, r, j0) && Runs(c, r, j0, moves).Some?
    ensures Tracks(c, r, j0, moves, Runs(c, r, j0, moves).value)
  {
    if moves != [] {
      var front, m := moves[..|moves| - 1], moves[|moves| - 1];
      RunsTrack(c, r, j0, front);
      TracksNext(c, r, j0, front, Runs(c, r, j0, front).value, m);
      assert front + [m] == moves;
    }
  }

  /** Once RunScope has returned, in any interleaving, every child is done; and what the
      children did is what they would have done by themselves in the same order. */
  lemma AllDone<S(!new), A(!new)>(
    c: Children<S, A>, r: nat, logSize: nat, workers: nat, s: S, moves: seq<Move<A>>, j: Joint<S>)
    requires Lasting(c) && Runs(c, r, Joint(InitGroup(logSize, workers), s), moves) == Some(j) && j.g.phase.Returned?
    ensures forall t: nat :: t < r ==> c.done(j.s, t)
    ensures Alone(c, s, Steps(moves)) == Some(j.s)
  {
    RunsTrack(c, r, Joint(InitGroup(logSize, workers), s), moves);
    JoinIsComplete(logSize, workers, Acts(moves));
    forall t: nat | t < r ensures c.done(j.s, t) {
      assert j.g.begun[t] in multiset(j.g.begun);
      assert t in multiset(j.g.finished);
    }
  }
}
