/** ForBatched and ParChunkMap as a whole: their children run in a scope, and they return
    when the scope does. */
module Joined {
  import opened Arith
  import opened Int64
  import opened Options
  import opened Strides
  import opened Scope
  import opened Fork
  import opened Returns
  import Dispatch
  import ForBatched
  import ChunkMap

  // ----- ForBatched -----

  /** Child w is runner w of the claim loop. */
  function Runners(n: nat, b: nat): Children<ForBatched.Machine, Dispatch.Action>
  {
    Children(
      (m: ForBatched.Machine, w: nat, a: Dispatch.Action) =>
        if a.w == w && ForBatched.Enabled(m, a) then Some(ForBatched.Step(m, n, b, a)) else None,
      (m: ForBatched.Machine, w: nat) => w in m.stopped)
  }

  /** A runner that has stopped stays stopped. */
  lemma RunnersLast(n: nat, b: nat)
    ensures Lasting(Runners(n, b))
  {
    var c := Runners(n, b);
    forall m: ForBatched.Machine, w: nat, a: Dispatch.Action, u: nat | c.step(m, w, a).Some? && c.done(m, u)
      ensures c.done(c.step(m, w, a).value, u)
    {
      assert c.step(m, w, a).value == ForBatched.Step(m, n, b, a);
    }
  }

  function Actions(steps: seq<(nat, Dispatch.Action)>): seq<Dispatch.Action>
  {
    if steps == [] then [] else Actions(steps[..|steps| - 1]) + [steps[|steps| - 1].1]
  }

  lemma {:induction false} AloneIsRun(n: nat, b: nat, r: nat, steps: seq<(nat, Dispatch.Action)>)
    requires Alone(Runners(n, b), ForBatched.Start(r), steps).Some?
    ensures ForBatched.Run(ForBatched.Start(r), n, b, Actions(steps)) ==
      Alone(Runners(n, b), ForBatched.Start(r), steps)
    ensures |Alone(Runners(n, b), ForBatched.Start(r), steps).value.work| == r
  {
    if steps != [] {
      var front, a := steps[..|steps| - 1], steps[|steps| - 1].1;
      AloneIsRun(n, b, r, front);
      assert (Actions(front) + [a])[..|Actions(front)|] == Actions(front);
    }
  }

  /** A run whose RunScope has returned is a joined run of the claim loop. */
  lemma ReturnedIsJoined(n: nat, b: nat, r: nat, logSize: nat, thieves: nat,
                         moves: seq<Move<Dispatch.Action>>, j: Joint<ForBatched.Machine>)
    requires Runs(Runners(n, b), r, Joint(InitGroup(logSize, thieves), ForBatched.Start(r)), moves) == Some(j)
    requires b > 0 && j.g.phase.Returned?
    ensures ForBatched.Run(ForBatched.Start(r), n, b, Actions(Steps(moves))) == Some(j.s) && ForBatched.Joined(j.s)
  {
    var c := Runners(n, b);
    RunnersLast(n, b);
    AllDone(c, r, logSize, thieves, ForBatched.Start(r), moves, j);
    AloneIsRun(n, b, r, Steps(moves));
    forall w | 0 <= w < |j.s.work| ensures w in j.s.stopped {
      assert c.done(j.s, w);
    }
  }

  /** When ForBatched returns, `fn` has been given every item exactly once, and nothing was
      sliced out of range, if and only if neither len(items) + batchSize - 1 nor a claim of
      the cursor wraps, whatever the deque size and the interleaving. On a slice of up to 2^48
      elements no claim does. */
  lemma ForBatchedIsExactIff(n: nat, requested: int, numWorkers: int, b: nat, r: nat, logSize: nat, thieves: nat,
                             moves: seq<Move<Dispatch.Action>>, j: Joint<ForBatched.Machine>)
    requires n <= MAX && IsInt(requested) && b == StrideOf(requested) && r == ForBatched.Runners(n, b, numWorkers)
    requires Runs(Runners(n, b), r, Joint(InitGroup(logSize, thieves), ForBatched.Start(r)), moves) == Some(j)
    requires j.g.phase.Returned?
    ensures !j.s.crashed && Dispatch.ExactCover(j.s.handed, n, b) <==> ForBatched.Exact(n, b, numWorkers)
    ensures n <= MAX_LEN ==> (ForBatched.Exact(n, b, numWorkers) <==> n + b - 1 <= MAX)
    ensures n + b - 1 <= MAX ==> ForBatched.Exact(n, b, numWorkers)
  {
    ReturnedIsJoined(n, b, r, logSize, thieves, moves, j);
    ForBatched.EveryItemOnceIff(n, requested, numWorkers, Actions(Steps(moves)), j.s);
    if n <= MAX_LEN {
      ForBatched.ExactIsFits(n, b, numWorkers);
    }
  }

  lemma RunnerHasStep(n: nat, b: nat, r: nat, m: ForBatched.Machine, w: nat)
    requires 0 < n && 0 < b <= MAX && ForBatched.Fits(n, b) && r <= Count(n, b) && ForBatched.ClaimsFit(n, b, r)
    requires ForBatched.InRun(m, n, b, r) && w < r && w !in m.stopped
    ensures var c := Runners(n, b);
      exists a :: c.step(m, w, a).Some? && ForBatched.Left(c.step(m, w, a).value, n, w) < ForBatched.Left(m, n, w)
  {
    var a := ForBatched.RunnerNears(m, n, b, r, w);
    assert Runners(n, b).step(m, w, a) == Some(ForBatched.Step(m, n, b, a));
  }

  lemma RunnersEnd(n: nat, b: nat, r: nat)
    requires r == 0 ||
      (0 < n && 0 < b <= MAX && ForBatched.Fits(n, b) && r <= Count(n, b) && ForBatched.ClaimsFit(n, b, r))
    requires b > 0
    ensures Ends(Runners(n, b), r, (m: ForBatched.Machine) => r == 0 || ForBatched.InRun(m, n, b, r),
                 (m: ForBatched.Machine, w: nat) => ForBatched.Left(m, n, w))
  {
    var c := Runners(n, b);
    var left := (m: ForBatched.Machine, w: nat) => ForBatched.Left(m, n, w);
    if r > 0 {
      forall m: ForBatched.Machine, w: nat, a: Dispatch.Action | ForBatched.InRun(m, n, b, r) && c.step(m, w, a).Some?
        ensures ForBatched.InRun(c.step(m, w, a).value, n, b, r)
      {
        ForBatched.StepInRun(m, n, b, r, a);
      }
      forall m: ForBatched.Machine, w: nat {:trigger c.done(m, w)} | ForBatched.InRun(m, n, b, r) && w < r &&
        !c.done(m, w)
        ensures exists a :: c.step(m, w, a).Some? && left(c.step(m, w, a).value, w) < left(m, w)
      {
        RunnerHasStep(n, b, r, m, w);
      }
    }
  }

  /** When neither wraps, or the batch count is not positive, no interleaving leads to a state
      from which ForBatched cannot return. */
  lemma ForBatchedCanReturn(n: nat, requested: int, numWorkers: int, b: nat, r: nat, logSize: nat, thieves: nat,
                            moves: seq<Move<Dispatch.Action>>, j: Joint<ForBatched.Machine>)
    returns (more: seq<Move<Dispatch.Action>>, j': Joint<ForBatched.Machine>)
    requires n <= MAX && IsInt(requested) && b == StrideOf(requested) && r == ForBatched.Runners(n, b, numWorkers)
    requires Runs(Runners(n, b), r, Joint(InitGroup(logSize, thieves), ForBatched.Start(r)), moves) == Some(j)
    requires ForBatched.Exact(n, b, numWorkers) || n + b - 1 > MAX
    ensures Runs(Runners(n, b), r, j, more) == Some(j') && j'.g.phase.Returned?
  {
    if n > 0 {
      ForBatched.BatchesIff(n, b);
    }
    RunnersLast(n, b);
    RunnersEnd(n, b, r);
    ForBatched.StartInRun(n, b, r);
    more, j' := CanReturn(Runners(n, b), r, (m: ForBatched.Machine) => r == 0 || ForBatched.InRun(m, n, b, r),
                          (m: ForBatched.Machine, w: nat) => ForBatched.Left(m, n, w),
                          logSize, thieves, ForBatched.Start(r), moves, j);
  }

  // ----- ParChunkMap -----

  /** Child j maps the elements of chunk j, one per step. */
  function Mappers<T, R>(input: seq<T>, chunk: nat, fn: T -> R): Children<ChunkMap.State<R>, ()>
  {
    Children(
      (s: ChunkMap.State<R>, j: nat, a: ()) =>
        if ChunkMap.Enabled(s, |input|, chunk, j) then Some(ChunkMap.Step(s, input, chunk, fn, j)) else None,
      (s: ChunkMap.State<R>, j: nat) => j < |s.next| && s.next[j] >= ChunkMap.End(|input|, chunk, j))
  }

  /** A child never moves back in its chunk. */
  lemma MappersLast<T, R(!new)>(input: seq<T>, chunk: nat, fn: T -> R)
    ensures Lasting(Mappers(input, chunk, fn))
  {
    var c := Mappers(input, chunk, fn);
    forall s: ChunkMap.State<R>, j: nat, a: (), u: nat | c.step(s, j, a).Some? && c.done(s, u)
      ensures c.done(c.step(s, j, a).value, u)
    {
      assert c.step(s, j, a).value == ChunkMap.Step(s, input, chunk, fn, j);
    }
  }

  function Order(steps: seq<(nat, ())>): seq<nat>
  {
    if steps == [] then [] else Order(steps[..|steps| - 1]) + [steps[|steps| - 1].0]
  }

  lemma {:induction false} AloneIsMap<T, R>(
    input: seq<T>, chunk: nat, fn: T -> R, s: ChunkMap.State<R>, steps: seq<(nat, ())>)
    requires Alone(Mappers(input, chunk, fn), s, steps).Some?
    ensures ChunkMap.Run(s, input, chunk, fn, Order(steps)) == Alone(Mappers(input, chunk, fn), s, steps)
    ensures |Alone(Mappers(input, chunk, fn), s, steps).value.next| == |s.next|
  {
    if steps != [] {
      var front, j := steps[..|steps| - 1], steps[|steps| - 1].0;
      AloneIsMap(input, chunk, fn, s, front);
      assert (Order(front) + [j])[..|Order(front)|] == Order(front);
    }
  }

  /** When ParChunkMap returns, its output is the sequential map of `fn` over the input and
      no index was out of range, whatever the pool and the interleaving, if and only if the
      end of the last chunk fits in 64 bits; it does for every slice of up to 2^48
      elements. */
  lemma ParChunkMapIsMapIff<T, R(!new)>(
    input: seq<T>, requested: int, chunk: nat, fn: T -> R, zero: R, logSize: nat, thieves: nat,
    moves: seq<Move<()>>, j: Joint<ChunkMap.State<R>>)
    requires |input| <= MAX && IsInt(requested) && chunk == StrideOf(requested)
    requires Runs(Mappers(input, chunk, fn), ChunkMap.Spawned(|input|, chunk),
                  Joint(InitGroup(logSize, thieves), ChunkMap.Begin(|input|, chunk, zero)), moves) == Some(j)
    requires j.g.phase.Returned?
    ensures !j.s.crashed && j.s.output == seq(|input|, i requires 0 <= i < |input| => fn(input[i])) <==>
      !ChunkMap.Wraps(|input|, chunk)
    ensures |input| <= MAX_LEN ==> !ChunkMap.Wraps(|input|, chunk)
  {
    var c, s := Mappers(input, chunk, fn), ChunkMap.Begin(|input|, chunk, zero);
    MappersLast(input, chunk, fn);
    AllDone(c, ChunkMap.Spawned(|input|, chunk), logSize, thieves, s, moves, j);
    AloneIsMap(input, chunk, fn, s, Steps(moves));
    forall k | 0 <= k < |j.s.next| ensures j.s.next[k] >= ChunkMap.End(|input|, chunk, k) {
      assert c.done(j.s, k);
    }
    ChunkMap.OutputIsMapIff(input, chunk, fn, zero, Order(Steps(moves)), j.s);
    if |input| <= MAX_LEN {
      ChunkMap.ChunksFit(|input|, chunk);
    }
  }

  /** How many elements child k has yet to map. */
  function ToMap<R>(n: nat, chunk: nat, s: ChunkMap.State<R>, k: nat): nat
  {
    if k < |s.next| && s.next[k] < ChunkMap.End(n, chunk, k) then ChunkMap.End(n, chunk, k) - s.next[k] else 0
  }

  lemma MappersEnd<T, R(!new)>(input: seq<T>, chunk: nat, fn: T -> R, r: nat)
    ensures Ends(Mappers(input, chunk, fn), r, (s: ChunkMap.State<R>) => |s.next| == r,
                 (s: ChunkMap.State<R>, k: nat) => ToMap(|input|, chunk, s, k))
  {
    var c := Mappers(input, chunk, fn);
    var left := (s: ChunkMap.State<R>, k: nat) => ToMap(|input|, chunk, s, k);
    forall s: ChunkMap.State<R>, k: nat, a: () | |s.next| == r && c.step(s, k, a).Some?
      ensures |c.step(s, k, a).value.next| == r
    {
      assert c.step(s, k, a).value == ChunkMap.Step(s, input, chunk, fn, k);
    }
    forall s: ChunkMap.State<R>, k: nat {:trigger c.done(s, k)} | |s.next| == r && k < r && !c.done(s, k)
      ensures exists a :: c.step(s, k, a).Some? && left(c.step(s, k, a).value, k) < left(s, k)
    {
      assert c.step(s, k, ()) == Some(ChunkMap.Step(s, input, chunk, fn, k));
    }
  }

  /** When no sum wraps, no interleaving leads to a state from which ParChunkMap cannot return. */
  lemma ParChunkMapCanReturn<T, R(!new)>(
    input: seq<T>, requested: int, chunk: nat, fn: T -> R, zero: R, logSize: nat, thieves: nat,
    moves: seq<Move<()>>, j: Joint<ChunkMap.State<R>>)
    returns (more: seq<Move<()>>, j': Joint<ChunkMap.State<R>>)
    requires chunk == StrideOf(requested) && !ChunkMap.Wraps(|input|, chunk)
    requires Runs(Mappers(input, chunk, fn), ChunkMap.Spawned(|input|, chunk),
                  Joint(InitGroup(logSize, thieves), ChunkMap.Begin(|input|, chunk, zero)), moves) == Some(j)
    ensures Runs(Mappers(input, chunk, fn), ChunkMap.Spawned(|input|, chunk), j, more) == Some(j')
    ensures j'.g.phase.Returned?
  {
    var r := ChunkMap.Spawned(|input|, chunk);
    MappersLast(input, chunk, fn);
    MappersEnd(input, chunk, fn, r);
    more, j' := CanReturn(Mappers(input, chunk, fn), r, (s: ChunkMap.State<R>) => |s.next| == r,
                          (s: ChunkMap.State<R>, k: nat) => ToMap(|input|, chunk, s, k),
                          logSize, thieves, ChunkMap.Begin(|input|, chunk, zero), moves, j);
  }
}
