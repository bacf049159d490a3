/** ForBatched in the program's own arithmetic: the batch count and the cursor are 64-bit
    integers that wrap. */
module ForBatched {
  import opened Arith
  import opened Options
  import opened Int64
  import opened Strides
  import Crew
  import Dispatch

  /** `(n + batchSize - 1) / batchSize`, whose sum may wrap. */
  function Batches(n: nat, b: nat): int
    requires b > 0
  {
    Quo(Wrap(Wrap(n + b) - 1), b)
  }

  /** The sum does not wrap. */
  predicate Fits(n: nat, b: nat) { n + b - 1 <= MAX }

  /** The count is right exactly when the sum does not wrap, and otherwise not positive. */
  lemma BatchesIff(n: nat, b: nat)
    requires 0 < n <= MAX && 0 < b <= MAX
    ensures Batches(n, b) == Count(n, b) <==> Fits(n, b)
    ensures !Fits(n, b) ==> Batches(n, b) <= 0
  {
    WrapAdds(n + b, -1);
    WrapFits(n + b - 1);
    CountIsRoundUp(n, b);
    CountCovers(n, b, 0);
    if !Fits(n, b) {
      QuoSign(Wrap(n + b - 1), b);
    }
  }

  /** How many runners are spawned: none for an empty slice or a count that is not
      positive. */
  function Runners(n: nat, b: nat, numWorkers: int): nat
    requires b > 0
  {
    if n == 0 then 0 else Max(Min(Max(numWorkers, 1), Batches(n, b)), 0)
  }

  /** That is the workers there are, at least one, but no more than batches. */
  lemma RunnersAre(n: nat, b: nat, numWorkers: int)
    requires 0 < n <= MAX && 0 < b <= MAX && Fits(n, b)
    ensures var r := Runners(n, b, numWorkers);
      1 <= r <= Count(n, b) && r <= Max(numWorkers, 1) && (r == Count(n, b) || r == Max(numWorkers, 1))
  {
    BatchesIff(n, b);
    CountCovers(n, b, 0);
  }

  /** Each batch has one claim, and each runner one more when nothing is left: the last of
      these claims reads a cursor that has not wrapped. */
  predicate ClaimsFit(n: nat, b: nat, runners: nat)
    requires b > 0
  {
    Count(n, b) + runners == 0 || Times(Count(n, b) + runners - 1, b) <= MAX
  }

  /** Neither the batch count nor a claim goes wrong. */
  predicate Exact(n: nat, b: nat, numWorkers: int)
    requires b > 0
  {
    n == 0 || (Fits(n, b) && ClaimsFit(n, b, Runners(n, b, numWorkers)))
  }

  /** As `Dispatch.State`, with the cursor and the claimed starts in 64 bits; slicing out
      of range panics. */
  datatype Machine = Machine(
    cursor: int, work: seq<Option<int>>, stopped: set<nat>, handed: seq<(nat, nat)>, crashed: bool)

  function Start(runners: nat): Machine
  {
    Machine(0, seq(runners, _ => None), {}, [], false)
  }

  predicate Enabled(m: Machine, a: Dispatch.Action)
  {
    match a
    case Claim(w) => w < |m.work| && m.work[w].None? && w !in m.stopped
    case Process(w) => w < |m.work| && m.work[w].Some?
  }

  function Step(m: Machine, n: nat, b: nat, a: Dispatch.Action): Machine
    requires Enabled(m, a)
  {
    match a
    case Claim(w) =>
      var cursor := Wrap(m.cursor + b);
      var start := Wrap(cursor - b);
      if start >= n then m.(cursor := cursor, stopped := m.stopped + {w})
      else m.(cursor := cursor, work := m.work[w := Some(start)])
    case Process(w) =>
      var start := m.work[w].value;
      var end := Min(Wrap(start + b), n);
      if 0 <= start <= end <= n then m.(work := m.work[w := None], handed := m.handed + [(start, end)])
      else m.(crashed := true)
  }

  function Run(m: Machine, n: nat, b: nat, acts: seq<Dispatch.Action>): Option<Machine>
  {
    if acts == [] then Some(m)
    else
      var r := Run(m, n, b, acts[..|acts| - 1]);
      var a := acts[|acts| - 1];
      if r.Some? && Enabled(r.value, a) then Some(Step(r.value, n, b, a)) else None
  }

  predicate Joined(m: Machine)
  {
    forall w :: 0 <= w < |m.work| ==> w in m.stopped
  }

  // ----- the machine does what unbounded arithmetic does -----

  predicate SameWork(x: Option<int>, y: Option<nat>)
  {
    x.Some? == y.Some? && (x.Some? ==> x.value == y.value)
  }

  predicate Like(m: Machine, s: Dispatch.State)
  {
    && !m.crashed && m.cursor == Wrap(s.cursor) && m.stopped == s.stopped && m.handed == s.handed
    && |m.work| == |s.work| && forall w :: 0 <= w < |m.work| ==> SameWork(m.work[w], s.work[w])
  }

  lemma {:induction false} TimesSum(x: nat, y: nat, b: nat)
    ensures Times(x + y, b) == Times(x, b) + Times(y, b)
  {
    if y > 0 {
      TimesSum(x, y - 1, b);
    }
  }

  lemma TwoRanges(n: nat, b: nat, c: nat)
    requires 0 < n && 0 < b && n + b - 1 <= MAX && c <= 2 * Count(n, b) - 1
    ensures Times(c, b) <= 2 * MAX
  {
    var m := Count(n, b);
    CountCovers(n, b, 0);
    CountCovers(n, b, m - 1);
    TimesNext(m - 1, b);
    TimesSum(m, m - 1, b);
    if c < m + (m - 1) {
      TimesApart(c, m + (m - 1), b);
    }
  }

  /** A claim in range is one of those `ClaimsFit` counts, and the cursor is short of two
      ranges even when it is not. */
  lemma ClaimCount(s: Dispatch.State, n: nat, b: nat, k: nat, w: nat)
    requires 0 < n && 0 < b && n + b - 1 <= MAX && Dispatch.Inv(s, n, b, Count(n, b), k)
    requires |s.work| <= Count(n, b) && Dispatch.Enabled(s, Dispatch.Claim(w))
    ensures s.cursor <= 2 * MAX && (ClaimsFit(n, b, |s.work|) ==> s.cursor <= MAX)
  {
    var m, c := Count(n, b), k + Dispatch.Gone(s.stopped, |s.work|);
    Dispatch.GoneMore(s.stopped, w, |s.work|);
    if c < m + |s.work| - 1 {
      TimesApart(c, m + |s.work| - 1, b);
    }
    TwoRanges(n, b, c);
  }

  /** Batches claimed start before the end. */
  lemma HeldStarts(s: Dispatch.State, n: nat, b: nat, k: nat, w: nat)
    requires b > 0 && Dispatch.Inv(s, n, b, Count(n, b), k) && w < |s.work| && s.work[w].Some?
    ensures s.work[w].value < n
  {
    var x := s.work[w].value;
    Crew.WorkerEmpties(s.work, w);
    assert x in multiset(Starts(k, b));
    var j :| 0 <= j < k && Starts(k, b)[j] == x;
    CountCovers(n, b, j);
  }

  lemma ClaimLike(m: Machine, s: Dispatch.State, n: nat, b: nat, w: nat)
    requires b > 0 && s.cursor <= MAX && Like(m, s) && Enabled(m, Dispatch.Claim(w))
    ensures Dispatch.Enabled(s, Dispatch.Claim(w))
    ensures Like(Step(m, n, b, Dispatch.Claim(w)), Dispatch.Step(s, n, b, Dispatch.Claim(w)))
  {
    assert SameWork(m.work[w], s.work[w]);
    WrapFits(s.cursor);
    var stride: int := b;
    WrapAdds(s.cursor + b, -stride);
  }

  lemma ProcessLike(m: Machine, s: Dispatch.State, n: nat, b: nat, w: nat)
    requires 0 < b <= MAX && Fits(n, b) && Like(m, s) && Enabled(m, Dispatch.Process(w))
    requires w < |s.work| && s.work[w].Some? ==> s.work[w].value < n
    ensures Dispatch.Enabled(s, Dispatch.Process(w))
    ensures Like(Step(m, n, b, Dispatch.Process(w)), Dispatch.Step(s, n, b, Dispatch.Process(w)))
  {
    assert SameWork(m.work[w], s.work[w]);
    var start: int := s.work[w].value;
    WrapFits(start + b);
  }

  // ----- when a claim wraps -----

  /** A runner has claimed a negative start: it slices out of range next, or has done so and
      will not go on. */
  ghost predicate Broken(m: Machine)
  {
    exists w :: 0 <= w < |m.work| && w !in m.stopped && m.work[w].Some? && m.work[w].value < 0
  }

  lemma BrokenStays(m: Machine, n: nat, b: nat, a: Dispatch.Action)
    requires Broken(m) && Enabled(m, a)
    ensures Broken(Step(m, n, b, a))
  {
    var w :| 0 <= w < |m.work| && w !in m.stopped && m.work[w].Some? && m.work[w].value < 0;
    var m' := Step(m, n, b, a);
    assert w !in m'.stopped && m'.work[w] == m.work[w];
  }

  lemma ClaimBreaks(m: Machine, s: Dispatch.State, n: nat, b: nat, w: nat)
    requires b > 0 && MAX < s.cursor <= 2 * MAX && Like(m, s) && Enabled(m, Dispatch.Claim(w))
    ensures Broken(Step(m, n, b, Dispatch.Claim(w)))
  {
    var stride: int := b;
    WrapAdds(s.cursor, stride);
    WrapAdds(s.cursor + b, -stride);
    WrapFits(s.cursor);
    var m' := Step(m, n, b, Dispatch.Claim(w));
    assert m'.work[w] == Some(Wrap(s.cursor));
  }

  lemma StepLike(m: Machine, s: Dispatch.State, n: nat, b: nat, k: nat, a: Dispatch.Action)
    requires 0 < n && 0 < b <= MAX && Fits(n, b) && Dispatch.Inv(s, n, b, Count(n, b), k)
    requires |s.work| <= Count(n, b) && Like(m, s) && Enabled(m, a) && s.cursor <= MAX + b
    ensures Dispatch.Enabled(s, a)
    ensures var m' := Step(m, n, b, a);
      var s' := Dispatch.Step(s, n, b, a);
      (Like(m', s') && s'.cursor <= MAX + b) || (Broken(m') && !ClaimsFit(n, b, |s.work|))
  {
    match a {
      case Claim(w) =>
        assert SameWork(m.work[w], s.work[w]);
        ClaimCount(s, n, b, k, w);
        if s.cursor <= MAX {
          ClaimLike(m, s, n, b, w);
        } else {
          ClaimBreaks(m, s, n, b, w);
        }
      case Process(w) =>
        assert SameWork(m.work[w], s.work[w]);
        HeldStarts(s, n, b, k, w);
        ProcessLike(m, s, n, b, w);
    }
  }

  /** In every run, what unbounded arithmetic does, or a claim that wrapped. */
  lemma {:induction false} RunLike(r: nat, n: nat, b: nat, acts: seq<Dispatch.Action>)
    requires 0 < n && 0 < b <= MAX && Fits(n, b) && r <= Count(n, b) && Run(Start(r), n, b, acts).Some?
    ensures var m := Run(Start(r), n, b, acts).value;
      var s := Dispatch.Run(Dispatch.Start(r), n, b, acts);
      (s.Some? && Like(m, s.value) && s.value.cursor <= MAX + b) || (Broken(m) && !ClaimsFit(n, b, r))
  {
    if acts == [] {
      WrapFits(0);
    } else {
      var front, a := acts[..|acts| - 1], acts[|acts| - 1];
      RunLike(r, n, b, front);
      var m, s := Run(Start(r), n, b, front).value, Dispatch.Run(Dispatch.Start(r), n, b, front);
      if Broken(m) && !ClaimsFit(n, b, r) {
        BrokenStays(m, n, b, a);
      } else {
        var k := Dispatch.RunKeeps(r, n, b, front);
        StepLike(m, s.value, n, b, k, a);
      }
    }
  }

  // ----- left alone, a runner stops -----

  /** The machine of some run of unbounded arithmetic. */
  ghost predicate InRun(m: Machine, n: nat, b: nat, r: nat)
    requires b > 0
  {
    && |m.work| == r
    && exists s, k :: Like(m, s) && Dispatch.Inv(s, n, b, Count(n, b), k) && s.cursor <= MAX + b
  }

  lemma StartInRun(n: nat, b: nat, r: nat)
    requires b > 0
    ensures InRun(Start(r), n, b, r)
  {
    WrapFits(0);
    var k := Dispatch.RunKeeps(r, n, b, []);
    assert Like(Start(r), Dispatch.Start(r));
  }

  lemma StepInRun(m: Machine, n: nat, b: nat, r: nat, a: Dispatch.Action)
    requires 0 < n && 0 < b <= MAX && Fits(n, b) && r <= Count(n, b) && ClaimsFit(n, b, r)
    requires InRun(m, n, b, r) && Enabled(m, a)
    ensures InRun(Step(m, n, b, a), n, b, r)
  {
    var s, k :| Like(m, s) && Dispatch.Inv(s, n, b, Count(n, b), k) && s.cursor <= MAX + b;
    StepLike(m, s, n, b, k, a);
    match a {
      case Claim(w) => k := Dispatch.ClaimKeeps(s, n, b, Count(n, b), k, w);
      case Process(w) => Dispatch.ProcessKeeps(s, n, b, Count(n, b), k, w);
    }
    assert Like(Step(m, n, b, a), Dispatch.Step(s, n, b, a));
  }

  /** More than the steps runner w has left. */
  function Left(m: Machine, n: nat, w: nat): nat
  {
    if w in m.stopped || w >= |m.work| then 0
    else 2 * (if m.cursor < n then n - m.cursor else 0) + if m.work[w].Some? then 2 else 1
  }

  lemma ClaimNears(m: Machine, s: Dispatch.State, n: nat, b: nat, k: nat, w: nat)
    requires 0 < n && 0 < b <= MAX && Fits(n, b) && |s.work| <= Count(n, b) && ClaimsFit(n, b, |s.work|)
    requires Like(m, s) && Dispatch.Inv(s, n, b, Count(n, b), k) && Enabled(m, Dispatch.Claim(w))
    ensures Left(Step(m, n, b, Dispatch.Claim(w)), n, w) < Left(m, n, w)
  {
    assert SameWork(m.work[w], s.work[w]);
    ClaimCount(s, n, b, k, w);
    WrapFits(s.cursor);
    WrapFits(s.cursor + b);
    WrapAdds(s.cursor + b, -(b as int));
  }

  lemma ProcessNears(m: Machine, s: Dispatch.State, n: nat, b: nat, k: nat, w: nat)
    requires 0 < n && 0 < b <= MAX && Fits(n, b) && Like(m, s) && Dispatch.Inv(s, n, b, Count(n, b), k)
    requires Enabled(m, Dispatch.Process(w)) && w !in m.stopped
    ensures Left(Step(m, n, b, Dispatch.Process(w)), n, w) < Left(m, n, w)
  {
    assert SameWork(m.work[w], s.work[w]);
    HeldStarts(s, n, b, k, w);
    WrapFits(m.work[w].value + b);
  }

  /** The step a runner that has not stopped takes next brings it nearer to that. */
  lemma RunnerNears(m: Machine, n: nat, b: nat, r: nat, w: nat) returns (a: Dispatch.Action)
    requires 0 < n && 0 < b <= MAX && Fits(n, b) && r <= Count(n, b) && ClaimsFit(n, b, r)
    requires InRun(m, n, b, r) && w < r && w !in m.stopped
    ensures a.w == w && Enabled(m, a) && Left(Step(m, n, b, a), n, w) < Left(m, n, w)
  {
    var s, k :| Like(m, s) && Dispatch.Inv(s, n, b, Count(n, b), k) && s.cursor <= MAX + b;
    if m.work[w].None? {
      a := Dispatch.Claim(w);
      ClaimNears(m, s, n, b, k, w);
    } else {
      a := Dispatch.Process(w);
      ProcessNears(m, s, n, b, k, w);
    }
  }

  // ----- the cursor -----

  function Claims(acts: seq<Dispatch.Action>): nat
  {
    if acts == [] then 0
    else Claims(acts[..|acts| - 1]) + if acts[|acts| - 1].Claim? then 1 else 0
  }

  lemma {:induction false} CursorCounts(r: nat, n: nat, b: nat, acts: seq<Dispatch.Action>)
    requires b > 0 && Run(Start(r), n, b, acts).Some?
    ensures Run(Start(r), n, b, acts).value.cursor == Wrap(Times(Claims(acts), b))
  {
    if acts == [] {
      WrapFits(0);
    } else {
      var front := acts[..|acts| - 1];
      CursorCounts(r, n, b, front);
      TimesNext(Claims(front), b);
      WrapAdds(Times(Claims(front), b), b);
    }
  }

  lemma {:induction false} ClaimsTold(r: nat, n: nat, b: nat, acts: seq<Dispatch.Action>)
    requires b > 0 && Dispatch.Run(Dispatch.Start(r), n, b, acts).Some?
    ensures Dispatch.Run(Dispatch.Start(r), n, b, acts).value.cursor == Times(Claims(acts), b)
  {
    if acts != [] {
      ClaimsTold(r, n, b, acts[..|acts| - 1]);
      TimesNext(Claims(acts[..|acts| - 1]), b);
    }
  }

  lemma SameTimes(x: nat, y: nat, b: nat)
    requires b > 0 && Times(x, b) == Times(y, b)
    ensures x == y
  {
    if x < y {
      TimesApart(x, y, b);
    } else if y < x {
      TimesApart(y, x, b);
    }
  }

  /** Without a runner nothing happens. */
  lemma NoRunners(n: nat, b: nat, acts: seq<Dispatch.Action>)
    requires Run(Start(0), n, b, acts).Some?
    ensures Run(Start(0), n, b, acts) == Some(Start(0)) && acts == []
    decreases |acts|
  {
    if acts != [] {
      NoRunners(n, b, acts[..|acts| - 1]);
    }
  }

  /** In every interleaving the cursor is the wrapped sum of the claims made so far; unless
      one has wrapped, they are at most one per batch and one more per runner. */
  lemma CursorBounded(n: nat, requested: int, numWorkers: int, acts: seq<Dispatch.Action>, m: Machine)
    requires n <= MAX && IsInt(requested)
    requires Run(Start(Runners(n, StrideOf(requested), numWorkers)), n, StrideOf(requested), acts) == Some(m)
    ensures m.cursor == Wrap(Times(Claims(acts), StrideOf(requested)))
    ensures var b := StrideOf(requested);
      Exact(n, b, numWorkers) ==> Claims(acts) <= Count(n, b) + Runners(n, b, numWorkers)
  {
    var b := StrideOf(requested);
    var r := Runners(n, b, numWorkers);
    CursorCounts(r, n, b, acts);
    if r == 0 {
      NoRunners(n, b, acts);
    } else if Exact(n, b, numWorkers) {
      BatchesIff(n, b);
      RunLike(r, n, b, acts);
      ClaimsTold(r, n, b, acts);
      var k := Dispatch.RunKeeps(r, n, b, acts);
      var s := Dispatch.Run(Dispatch.Start(r), n, b, acts).value;
      SameTimes(Claims(acts), k + Dispatch.Gone(s.stopped, r), b);
    }
  }

  // ----- when all runners have stopped -----

  lemma JoinedIff(n: nat, b: nat, r: nat, acts: seq<Dispatch.Action>, m: Machine)
    requires 0 < n && 0 < b <= MAX && Fits(n, b) && 0 < r <= Count(n, b)
    requires Run(Start(r), n, b, acts) == Some(m) && Joined(m)
    ensures ClaimsFit(n, b, r) && !m.crashed && Dispatch.ExactCover(m.handed, n, b)
  {
    RunLike(r, n, b, acts);
    var s := Dispatch.Run(Dispatch.Start(r), n, b, acts);
    Dispatch.EveryItemOnce(n, b, r, acts, s.value);
    TimesNext(Count(n, b) + r - 1, b);
  }

  /** When all runners have stopped, the batches given to `fn` cover every item exactly
      once and nothing was sliced out of range if and only if neither the sum in the batch
      count nor a claim wraps. If the sum does, no runner is spawned and nothing given to
      `fn`; if only a claim does, they never all stop, the runner that slices at a negative
      start having panicked. */
  lemma EveryItemOnceIff(n: nat, requested: int, numWorkers: int, acts: seq<Dispatch.Action>, m: Machine)
    requires n <= MAX && IsInt(requested)
    requires Run(Start(Runners(n, StrideOf(requested), numWorkers)), n, StrideOf(requested), acts) == Some(m)
    requires Joined(m)
    ensures var b := StrideOf(requested);
      !m.crashed && Dispatch.ExactCover(m.handed, n, b) <==> Exact(n, b, numWorkers)
    ensures !Fits(n, StrideOf(requested)) ==> m.work == [] && m.handed == []
    ensures Fits(n, StrideOf(requested)) ==> Exact(n, StrideOf(requested), numWorkers)
  {
    var b := StrideOf(requested);
    var r := Runners(n, b, numWorkers);
    if n == 0 {
      NoRunners(n, b, acts);
      assert Dispatch.StartsOf([]) == [] && Starts(0, b) == [];
    } else {
      BatchesIff(n, b);
      CountCovers(n, b, 0);
      if r == 0 {
        NoRunners(n, b, acts);
        assert !Dispatch.Covered([], 0);
      } else {
        JoinedIff(n, b, r, acts, m);
      }
    }
  }

  /** Two items and the largest batch size: nothing is given to `fn`, on any pool. */
  lemma HugeBatchDropsEverything(numWorkers: int, acts: seq<Dispatch.Action>, m: Machine)
    requires Run(Start(Runners(2, StrideOf(MAX), numWorkers)), 2, StrideOf(MAX), acts) == Some(m)
    ensures Runners(2, StrideOf(MAX), numWorkers) == 0 && Joined(m) && m.handed == []
  {
    BatchesIff(2, MAX);
    NoRunners(2, MAX, acts);
  }

  /** On a slice of elements that take up memory only the sum can wrap. */
  lemma ExactIsFits(n: nat, b: nat, numWorkers: int)
    requires n <= MAX_LEN && 0 < b <= MAX
    ensures Exact(n, b, numWorkers) <==> Fits(n, b)
  {
    if n > 0 && Fits(n, b) {
      BatchesIff(n, b);
      var m, r := Count(n, b), Runners(n, b, numWorkers);
      CountCovers(n, b, 0);
      CountCovers(n, b, m - 1);
      TimesNext(m - 1, b);
      TimesSum(m, m - 1, b);
      if m > 1 {
        TimesApart(0, m - 1, b);
      }
      if m + r - 1 < m + (m - 1) {
        TimesApart(m + r - 1, m + (m - 1), b);
      }
    }
  }

  /** A slice of elements that take none: 2^62 + 1 of them in two batches, and the claim after
      the last wraps when there are two workers. */
  lemma ClaimCanWrap(numWorkers: int)
    requires numWorkers >= 2
    ensures var n, b := 0x4000_0000_0000_0001, 0x3FFF_FFFF_FFFF_FFFF;
      Fits(n, b) && Runners(n, b, numWorkers) == 2 && !Exact(n, b, numWorkers)
  {
    var n, b := 0x4000_0000_0000_0001, 0x3FFF_FFFF_FFFF_FFFF;
    assert Count(n, b) == 1 + Count(n - b, b);
    BatchesIff(n, b);
    TimesNext(0, b);
    TimesNext(1, b);
    TimesNext(2, b);
  }
}
