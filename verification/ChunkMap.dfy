/** ParChunkMap and ParSplatMap: a slice is cut into chunks, one child task each, and
    every child writes the results of its own chunk into the shared output. */
module ChunkMap {
  import opened Arith
  import opened Int64
  import opened Options
  import opened Strides

  /** The end of the last chunk does not fit in 64 bits, so that the spawning loop goes on
      at a negative start. */
  predicate Wraps(n: nat, chunk: nat)
    requires chunk > 0
  {
    Times(Count(n, chunk), chunk) > MAX
  }

  /** How many children are spawned, up to the first that starts below zero. */
  function Spawned(n: nat, chunk: nat): nat
    requires chunk > 0
  {
    Count(n, chunk) + if Wraps(n, chunk) then 1 else 0
  }

  /** Where chunk j starts and ends, in 64 bits. */
  function From(chunk: nat, j: nat): int { Wrap(Times(j, chunk)) }

  function End(n: nat, chunk: nat, j: nat): int { Min(Wrap(From(chunk, j) + chunk), n) }

  /** Without a wrap every chunk lies where unbounded sums put it. */
  lemma ChunkFits(n: nat, chunk: nat, j: nat)
    requires 0 < n <= MAX && 0 < chunk <= MAX && j < Count(n, chunk)
    ensures From(chunk, j) == Times(j, chunk) < n
    ensures !Wraps(n, chunk) ==> End(n, chunk, j) == Min(Times(j, chunk) + chunk, n)
  {
    CountCovers(n, chunk, j);
    WrapFits(Times(j, chunk));
    TimesApart(j, Count(n, chunk), chunk);
    WrapFits(Times(j, chunk) + chunk);
  }

  /** With one, the chunk after the last starts below zero, and not at its end. */
  lemma ChunkBelowZero(n: nat, chunk: nat)
    requires 0 < n <= MAX && 0 < chunk <= MAX && Wraps(n, chunk)
    ensures From(chunk, Count(n, chunk)) < 0 && From(chunk, Count(n, chunk)) < End(n, chunk, Count(n, chunk))
  {
    var m := Count(n, chunk);
    CountCovers(n, chunk, 0);
    CountCovers(n, chunk, m - 1);
    TimesNext(m - 1, chunk);
    WrapFits(Times(m, chunk));
    WrapFits(From(chunk, m) + chunk);
  }

  /** The loop meets a negative start only past the last chunk. */
  lemma Negative(n: nat, chunk: nat, j: nat)
    requires 0 < n <= MAX && 0 < chunk <= MAX && j <= Count(n, chunk) && From(chunk, j) < 0
    ensures j == Count(n, chunk) && Wraps(n, chunk)
  {
    if j < Count(n, chunk) {
      ChunkFits(n, chunk, j);
    } else if !Wraps(n, chunk) {
      WrapFits(Times(j, chunk));
    }
  }

  lemma NextStart(n: nat, chunk: nat, j: nat)
    requires 0 < n <= MAX && 0 < chunk <= MAX && j <= Count(n, chunk) && 0 <= From(chunk, j) < n
    requires j == Count(n, chunk) ==> Wraps(n, chunk)
    ensures j < Count(n, chunk) && Wrap(From(chunk, j) + chunk) == From(chunk, j + 1)
    ensures j + 1 == Count(n, chunk) ==> (From(chunk, j + 1) < n <==> Wraps(n, chunk))
  {
    if j == Count(n, chunk) {
      ChunkBelowZero(n, chunk);
    }
    TimesNext(j, chunk);
    WrapAdds(Times(j, chunk), chunk);
    if j + 1 == Count(n, chunk) {
      CountCovers(n, chunk, j + 1);
      if Wraps(n, chunk) {
        ChunkBelowZero(n, chunk);
      } else {
        WrapFits(Times(j + 1, chunk));
      }
    }
  }

  lemma StartsInside(n: nat, chunk: nat, j: nat)
    requires n <= MAX && 0 < chunk <= MAX && j <= Count(n, chunk) && From(chunk, j) >= n
    ensures j == Count(n, chunk)
  {
    if j < Count(n, chunk) {
      ChunkFits(n, chunk, j);
    }
  }

  /** The spawning loop of ParChunkMap: the (start, end) of every child, up to the first
      that starts below zero and so cannot store its first element. */
  method Cut(n: nat, chunk: nat) returns (parts: seq<(int, int)>)
    requires n <= MAX && 0 < chunk <= MAX
    ensures |parts| == Spawned(n, chunk)
    ensures forall j :: 0 <= j < |parts| ==> parts[j] == (From(chunk, j), End(n, chunk, j))
  {
    parts := [];
    var start: int := 0;
    WrapFits(0);
    CountCovers(n, chunk, 0);
    while start < n
      invariant start == From(chunk, |parts|) && |parts| <= Count(n, chunk)
      invariant |parts| == Count(n, chunk) ==> (start < n <==> Wraps(n, chunk))
      invariant forall j :: 0 <= j < |parts| ==> parts[j] == (From(chunk, j), End(n, chunk, j))
      decreases Count(n, chunk) - |parts|
    {
      parts := parts + [(start, Min(Wrap(start + chunk), n))];
      if start < 0 {
        Negative(n, chunk, |parts| - 1);
        return;
      }
      NextStart(n, chunk, |parts| - 1);
      start := Wrap(start + chunk);
    }
    StartsInside(n, chunk, |parts|);
  }

  // ----- ParSplatMap -----

  /** The parts ParSplatMap asks for. */
  function Parts(n: nat, maxTasks: int): (p: nat)
    requires n > 0
    ensures p > 0
  {
    Min(Max(maxTasks, 1), n)
  }

  /** The chunk size that gives; the sum may wrap, and a size below one counts as one. */
  function SplatChunk(n: nat, maxTasks: int): (c: nat)
    requires n > 0
    ensures c > 0
  {
    var parts := Parts(n, maxTasks);
    StrideOf(Quo(Wrap(Wrap(n + parts) - 1), parts))
  }

  /** Without a wrap it is the least size at which that many chunks hold all elements. */
  lemma SplatIsLeast(n: nat, maxTasks: int)
    requires 0 < n && n + Parts(n, maxTasks) - 1 <= MAX
    ensures var parts, c := Parts(n, maxTasks), SplatChunk(n, maxTasks);
      Times(c - 1, parts) < n <= Times(c, parts) && parts <= n && parts <= Max(maxTasks, 1) &&
        (parts == n || parts == Max(maxTasks, 1))
  {
    var parts := Parts(n, maxTasks);
    WrapFits(n + parts - 1);
    WrapAdds(n + parts, -1);
    CountIsRoundUp(n, parts);
    var c := Count(n, parts);
    CountCovers(n, parts, 0);
    CountCovers(n, parts, c - 1);
    CountCovers(n, parts, c);
  }

  lemma SplatFits(n: nat, parts: nat)
    requires 0 < parts <= n && n + parts - 1 <= MAX
    ensures var c := (n + parts - 1) / parts;
      c > 0 && Count(n, c) <= parts && Times(Count(n, c), c) <= MAX
  {
    CountIsRoundUp(n, parts);
    CountCovers(n, parts, 0);
    var c := Count(n, parts);
    TimesIsProduct(c, parts);
    TimesIsProduct(parts, c);
    assert c * parts == parts * c;
    CountCovers(n, parts, c);
    CountCovers(n, c, parts);
    CountCovers(n, parts, c - 1);
    TimesNext(c - 1, parts);
    if Count(n, c) < parts {
      TimesApart(Count(n, c), parts, c);
    }
  }

  lemma CountOfOnes(n: nat)
    requires n > 0
    ensures Count(n, 1) == n && Times(n, 1) == n
  {
    TimesIsProduct(n, 1);
    TimesIsProduct(n - 1, 1);
    CountCovers(n, 1, n);
    CountCovers(n, 1, n - 1);
  }

  /** ParSplatMap never spawns more than maxTasks children, though it rounds up twice, if and
      only if the sum it rounds with does not wrap or there are no more elements than tasks.
      Its chunks never wrap. */
  lemma SplatWithinTasksIff(n: nat, maxTasks: int)
    requires 0 < n <= MAX
    ensures !Wraps(n, SplatChunk(n, maxTasks))
    ensures Spawned(n, SplatChunk(n, maxTasks)) <= Max(maxTasks, 1) <==>
      n + Parts(n, maxTasks) - 1 <= MAX || n <= maxTasks
  {
    var parts := Parts(n, maxTasks);
    WrapAdds(n + parts, -1);
    WrapFits(n + parts - 1);
    if n + parts - 1 <= MAX {
      SplatFits(n, parts);
    } else {
      QuoSign(Wrap(n + parts - 1), parts);
      CountOfOnes(n);
    }
  }

  // ----- the children, interleaved element by element -----

  /** `next[j]` is how far child j has got in its chunk; an index out of range panics. */
  datatype State<R> = State(output: seq<R>, next: seq<int>, crashed: bool)

  /** The output starts as zero values, every child at the start of its chunk. */
  function Begin<R>(n: nat, chunk: nat, zero: R): State<R>
    requires chunk > 0
  {
    State(seq(n, _ => zero), seq(Spawned(n, chunk), j requires 0 <= j => From(chunk, j)), false)
  }

  predicate Enabled<R>(s: State<R>, n: nat, chunk: nat, j: nat)
  {
    j < |s.next| && s.next[j] < End(n, chunk, j)
  }

  /** Child j computes and stores its next element. */
  function Step<T, R>(s: State<R>, input: seq<T>, chunk: nat, fn: T -> R, j: nat): State<R>
    requires Enabled(s, |input|, chunk, j)
  {
    var i := s.next[j];
    var next := s.next[j := i + 1];
    if 0 <= i < |input| && i < |s.output| then State(s.output[i := fn(input[i])], next, s.crashed)
    else State(s.output, next, true)
  }

  /** The state after the children have taken steps in the order `who`. */
  function Run<T, R>(s: State<R>, input: seq<T>, chunk: nat, fn: T -> R, who: seq<nat>): Option<State<R>>
  {
    if who == [] then Some(s)
    else
      var r := Run(s, input, chunk, fn, who[..|who| - 1]);
      var j := who[|who| - 1];
      if r.Some? && Enabled(r.value, |input|, chunk, j) then Some(Step(r.value, input, chunk, fn, j)) else None
  }

  predicate Finished<R>(s: State<R>, n: nat, chunk: nat)
  {
    forall j :: 0 <= j < |s.next| ==> s.next[j] >= End(n, chunk, j)
  }

  ghost predicate ChunkDone<T, R>(s: State<R>, input: seq<T>, chunk: nat, fn: T -> R, j: nat)
    requires |s.output| == |input| && j < |s.next|
  {
    && Times(j, chunk) <= s.next[j] <= Min(Times(j, chunk) + chunk, |input|)
    && forall i :: Times(j, chunk) <= i < s.next[j] ==> s.output[i] == fn(input[i])
  }

  /** Every chunk holds results up to where its child has got. */
  ghost predicate Inv<T, R>(s: State<R>, input: seq<T>, chunk: nat, fn: T -> R)
    requires chunk > 0
  {
    && !s.crashed && |s.output| == |input| && |s.next| == Count(|input|, chunk)
    && forall j :: 0 <= j < |s.next| ==> ChunkDone(s, input, chunk, fn, j)
  }

  lemma StepKeeps<T, R>(s: State<R>, input: seq<T>, chunk: nat, fn: T -> R, j: nat)
    requires |input| <= MAX && 0 < chunk <= MAX && !Wraps(|input|, chunk)
    requires Inv(s, input, chunk, fn) && Enabled(s, |input|, chunk, j)
    ensures Inv(Step(s, input, chunk, fn, j), input, chunk, fn)
  {
    ChunkFits(|input|, chunk, j);
    assert ChunkDone(s, input, chunk, fn, j);
    var s' := Step(s, input, chunk, fn, j);
    forall k | 0 <= k < |s'.next|
      ensures ChunkDone(s', input, chunk, fn, k)
    {
      assert ChunkDone(s, input, chunk, fn, k);
      if k < j {
        TimesApart(k, j, chunk);
      } else if j < k {
        TimesApart(j, k, chunk);
      }
    }
  }

  lemma {:induction false} RunKeeps<T, R>(input: seq<T>, chunk: nat, fn: T -> R, zero: R, who: seq<nat>)
    requires |input| <= MAX && 0 < chunk <= MAX && !Wraps(|input|, chunk)
    requires Run(Begin(|input|, chunk, zero), input, chunk, fn, who).Some?
    ensures Inv(Run(Begin(|input|, chunk, zero), input, chunk, fn, who).value, input, chunk, fn)
  {
    var s0 := Begin(|input|, chunk, zero);
    if who == [] {
      forall j | 0 <= j < |s0.next| ensures ChunkDone(s0, input, chunk, fn, j) {
        ChunkFits(|input|, chunk, j);
      }
    } else {
      RunKeeps(input, chunk, fn, zero, who[..|who| - 1]);
      StepKeeps(Run(s0, input, chunk, fn, who[..|who| - 1]).value, input, chunk, fn, who[|who| - 1]);
    }
  }

  /** A child that starts below zero takes no step without a panic. */
  lemma {:induction false} RunCrashes<T, R>(input: seq<T>, chunk: nat, fn: T -> R, zero: R, who: seq<nat>)
    requires 0 < |input| <= MAX && 0 < chunk <= MAX && Wraps(|input|, chunk)
    requires Run(Begin(|input|, chunk, zero), input, chunk, fn, who).Some?
    ensures var s := Run(Begin(|input|, chunk, zero), input, chunk, fn, who).value;
      var m := Count(|input|, chunk);
      |s.next| == m + 1 && (s.crashed || s.next[m] == From(chunk, m))
  {
    if who != [] {
      RunCrashes(input, chunk, fn, zero, who[..|who| - 1]);
      ChunkBelowZero(|input|, chunk);
    }
  }

  /** Whatever the order in which chunks, or elements of different chunks, are computed, the
      finished output is the sequential map of `fn` over the input, and nothing has panicked,
      if and only if the end of the last chunk fits in 64 bits. */
  lemma OutputIsMapIff<T, R>(input: seq<T>, chunk: nat, fn: T -> R, zero: R, who: seq<nat>, s: State<R>)
    requires |input| <= MAX && 0 < chunk <= MAX
    requires Run(Begin(|input|, chunk, zero), input, chunk, fn, who) == Some(s) && Finished(s, |input|, chunk)
    ensures !s.crashed && s.output == seq(|input|, i requires 0 <= i < |input| => fn(input[i])) <==>
      !Wraps(|input|, chunk)
  {
    if Wraps(|input|, chunk) {
      RunCrashes(input, chunk, fn, zero, who);
      ChunkBelowZero(|input|, chunk);
    } else {
      RunKeeps(input, chunk, fn, zero, who);
      forall i | 0 <= i < |input|
        ensures s.output[i] == fn(input[i])
      {
        var j := Containing(|input|, chunk, i);
        ChunkFits(|input|, chunk, j);
        assert ChunkDone(s, input, chunk, fn, j);
      }
    }
  }

  /** For a slice of elements that take up memory it always fits. */
  lemma ChunksFit(n: nat, chunk: nat)
    requires n <= MAX_LEN && 0 < chunk <= MAX
    ensures !Wraps(n, chunk)
  {
    var m := Count(n, chunk);
    CountCovers(n, chunk, 0);
    if n > 0 {
      CountCovers(n, chunk, m - 1);
      TimesNext(m - 1, chunk);
      if m > 1 {
        TimesApart(0, m - 1, chunk);
      }
    }
  }
}
