/** The claim loop of ForBatched: runners claim batches of a slice from one atomic cursor.
    Each `cursor.Add` and each call of `fn` is one step, in any interleaving. Arithmetic is
    unbounded here; `ForBatched` is about the program's. */
module Dispatch {
  import opened Arith
  import opened Options
  import opened Crew
  import opened Strides

  /** `work[w]` is the start of the batch runner w has claimed and not yet finished;
      `stopped` holds the runners that have left their loop; `handed` lists the
      (start, end) of each batch given to `fn`, in the order it was. */
  datatype State = State(cursor: nat, work: seq<Option<nat>>, stopped: set<nat>, handed: seq<(nat, nat)>)

  datatype Action = Claim(w: nat) | Process(w: nat)

  function Start(runners: nat): State
  {
    State(0, seq(runners, _ => None), {}, [])
  }

  predicate Enabled(s: State, a: Action)
  {
    match a
    case Claim(w) => w < |s.work| && s.work[w].None? && w !in s.stopped
    case Process(w) => w < |s.work| && s.work[w].Some?
  }

  function Step(s: State, n: nat, b: nat, a: Action): State
    requires Enabled(s, a)
  {
    match a
    case Claim(w) =>
      var cursor := s.cursor + b;
      var start := cursor - b;
      if start >= n then s.(cursor := cursor, stopped := s.stopped + {w})
      else s.(cursor := cursor, work := s.work[w := Some(start)])
    case Process(w) =>
      var start := s.work[w].value;
      s.(work := s.work[w := None], handed := s.handed + [(start, Min(start + b, n))])
  }

  function Run(s: State, n: nat, b: nat, acts: seq<Action>): Option<State>
  {
    if acts == [] then Some(s)
    else
      var r := Run(s, n, b, acts[..|acts| - 1]);
      var a := acts[|acts| - 1];
      if r.Some? && Enabled(r.value, a) then Some(Step(r.value, n, b, a)) else None
  }

  /** Every runner has left its loop, which is what RunScope waits for. */
  predicate Joined(s: State)
  {
    forall w :: 0 <= w < |s.work| ==> w in s.stopped
  }

  // ----- the invariant -----

  function StartsOf(handed: seq<(nat, nat)>): (r: seq<nat>)
    ensures |r| == |handed| && forall j :: 0 <= j < |r| ==> r[j] == handed[j].0
  {
    seq(|handed|, j requires 0 <= j < |handed| => handed[j].0)
  }

  /** Each batch ends where the next stride starts, or at n. */
  ghost predicate Clipped(handed: seq<(nat, nat)>, n: nat, b: nat)
  {
    forall p :: 0 <= p < |handed| ==> handed[p].1 == Min(handed[p].0 + b, n)
  }

  lemma ClippedMore(handed: seq<(nat, nat)>, n: nat, b: nat, start: nat)
    requires Clipped(handed, n, b)
    ensures Clipped(handed + [(start, Min(start + b, n))], n, b)
  {
  }

  /** How many of the first n runners have stopped. */
  function Gone(stopped: set<nat>, n: nat): (g: nat)
    ensures g <= n
  {
    if n == 0 then 0 else Gone(stopped, n - 1) + if n - 1 in stopped then 1 else 0
  }

  lemma {:induction false} GoneMore(stopped: set<nat>, w: nat, n: nat)
    requires w !in stopped
    ensures Gone(stopped + {w}, n) == Gone(stopped, n) + if w < n then 1 else 0
  {
    if n > 0 {
      GoneMore(stopped, w, n - 1);
    }
  }

  lemma {:induction false} NoneGone(n: nat)
    ensures Gone({}, n) == 0
  {
    if n > 0 {
      NoneGone(n - 1);
    }
  }

  lemma {:induction false} AllGone(stopped: set<nat>, n: nat)
    requires forall w :: 0 <= w < n ==> w in stopped
    ensures Gone(stopped, n) == n
  {
    if n > 0 {
      AllGone(stopped, n - 1);
    }
  }

  /** The batches handed out or in hand are exactly the first `k` of `m`; the rest of
      the cursor's additions were made by runners that then stopped. */
  ghost predicate Inv(s: State, n: nat, b: nat, m: nat, k: nat)
  {
    && k <= m
    && s.cursor == Times(k + Gone(s.stopped, |s.work|), b)
    && (Gone(s.stopped, |s.work|) > 0 ==> k == m)
    && multiset(StartsOf(s.handed)) + Busy(s.work) == multiset(Starts(k, b))
    && Clipped(s.handed, n, b)
    && (forall w :: w in s.stopped ==> w < |s.work| && s.work[w].None?)
  }

  lemma StopKeeps(s: State, n: nat, b: nat, m: nat, k: nat, w: nat)
    requires Inv(s, n, b, m, k) && Enabled(s, Claim(w)) && s.cursor >= n
    requires k + Gone(s.stopped, |s.work|) >= m && Times(k + Gone(s.stopped, |s.work|) + 1, b) == s.cursor + b
    ensures Inv(Step(s, n, b, Claim(w)), n, b, m, k)
  {
    GoneMore(s.stopped, w, |s.work|);
  }

  /** One more batch in hand. */
  lemma BagsGrow(h: multiset<nat>, busy: multiset<nat>, all: multiset<nat>, x: nat)
    requires h + busy == all
    ensures h + (busy + multiset{x}) == all + multiset{x}
  {
  }

  lemma TakeBooks(h: seq<nat>, work: seq<Option<nat>>, w: nat, k: nat, b: nat)
    requires multiset(h) + Busy(work) == multiset(Starts(k, b)) && w < |work| && work[w].None?
    ensures multiset(h) + Busy(work[w := Some(Times(k, b))]) == multiset(Starts(k + 1, b))
  {
    WorkerFills(work, w, Times(k, b));
    StartsNext(k, b);
    BagsGrow(multiset(h), Busy(work), multiset(Starts(k, b)), Times(k, b));
  }

  lemma TakeKeeps(s: State, n: nat, b: nat, m: nat, k: nat, w: nat)
    requires Inv(s, n, b, m, k) && Enabled(s, Claim(w)) && s.cursor < n && k + Gone(s.stopped, |s.work|) < m
    ensures Inv(Step(s, n, b, Claim(w)), n, b, m, k + 1)
  {
    TakeBooks(StartsOf(s.handed), s.work, w, k, b);
  }

  lemma ClaimKeeps(s: State, n: nat, b: nat, m: nat, k: nat, w: nat) returns (k': nat)
    requires b > 0 && m == Count(n, b) && Inv(s, n, b, m, k) && Enabled(s, Claim(w))
    ensures Inv(Step(s, n, b, Claim(w)), n, b, m, k')
  {
    CountCovers(n, b, k + Gone(s.stopped, |s.work|));
    TimesNext(k + Gone(s.stopped, |s.work|), b);
    if s.cursor >= n {
      k' := k;
      StopKeeps(s, n, b, m, k, w);
    } else {
      k' := k + 1;
      TakeKeeps(s, n, b, m, k, w);
    }
  }

  /** A batch in hand becomes a batch handed out. */
  lemma MovesOver(h: multiset<nat>, x: nat, rest: multiset<nat>, all: multiset<nat>)
    requires h + (rest + multiset{x}) == all
    ensures (h + multiset{x}) + rest == all
  {
    assert (h + multiset{x}) + rest == h + (rest + multiset{x});
  }

  lemma StartsOfMore(handed: seq<(nat, nat)>, p: (nat, nat))
    ensures multiset(StartsOf(handed + [p])) == multiset(StartsOf(handed)) + multiset{p.0}
  {
    assert StartsOf(handed + [p]) == StartsOf(handed) + [p.0];
  }

  lemma ProcessBooks(handed: seq<(nat, nat)>, work: seq<Option<nat>>, w: nat, all: multiset<nat>, end: nat)
    requires multiset(StartsOf(handed)) + Busy(work) == all && w < |work| && work[w].Some?
    ensures multiset(StartsOf(handed + [(work[w].value, end)])) + Busy(work[w := None]) == all
  {
    WorkerEmpties(work, w);
    StartsOfMore(handed, (work[w].value, end));
    MovesOver(multiset(StartsOf(handed)), work[w].value, Busy(work[w := None]), all);
  }

  /** Inv speaks of nothing a finished batch changes but the books and the batches. */
  lemma DoneKeeps(s: State, n: nat, b: nat, m: nat, k: nat, w: nat, handed: seq<(nat, nat)>)
    requires Inv(s, n, b, m, k) && w < |s.work| && Clipped(handed, n, b)
    requires multiset(StartsOf(handed)) + Busy(s.work[w := None]) == multiset(Starts(k, b))
    ensures Inv(State(s.cursor, s.work[w := None], s.stopped, handed), n, b, m, k)
  {
  }

  lemma ProcessKeeps(s: State, n: nat, b: nat, m: nat, k: nat, w: nat)
    requires Inv(s, n, b, m, k) && Enabled(s, Process(w))
    ensures Inv(Step(s, n, b, Process(w)), n, b, m, k)
  {
    var x := s.work[w].value;
    var handed := s.handed + [(x, Min(x + b, n))];
    ClippedMore(s.handed, n, b, x);
    ProcessBooks(s.handed, s.work, w, multiset(Starts(k, b)), Min(x + b, n));
    DoneKeeps(s, n, b, m, k, w, handed);
    assert Step(s, n, b, Process(w)) == State(s.cursor, s.work[w := None], s.stopped, handed);
  }

  lemma {:induction false} RunKeeps(runners: nat, n: nat, b: nat, acts: seq<Action>) returns (k: nat)
    requires b > 0 && Run(Start(runners), n, b, acts).Some?
    ensures var s := Run(Start(runners), n, b, acts).value; Inv(s, n, b, Count(n, b), k) && |s.work| == runners
  {
    if acts == [] {
      AllIdle<nat>(runners);
      NoneGone(runners);
      assert StartsOf([]) == [] && Starts(0, b) == [];
      k := 0;
    } else {
      var front, a := acts[..|acts| - 1], acts[|acts| - 1];
      k := RunKeeps(runners, n, b, front);
      var s := Run(Start(runners), n, b, front).value;
      match a {
        case Claim(w) => k := ClaimKeeps(s, n, b, Count(n, b), k, w);
        case Process(w) => ProcessKeeps(s, n, b, Count(n, b), k, w);
      }
    }
  }

  /** Item `i` lies in the batch that `handed` lists at `p`. */
  predicate Covers(handed: seq<(nat, nat)>, p: nat, i: nat)
  {
    p < |handed| && handed[p].0 <= i < handed[p].1
  }

  ghost predicate Covered(handed: seq<(nat, nat)>, i: nat)
  {
    exists p: nat :: Covers(handed, p, i)
  }

  /** The batches handed to `fn` are the strides [j*b, min((j+1)*b, n)) covering n items,
      each once, so every item is in exactly one of them. */
  ghost predicate ExactCover(handed: seq<(nat, nat)>, n: nat, b: nat)
    requires b > 0
  {
    && multiset(StartsOf(handed)) == multiset(Starts(Count(n, b), b))
    && (forall p :: 0 <= p < |handed| ==> handed[p].0 < n && handed[p].1 == Min(handed[p].0 + b, n))
    && (forall i: nat {:trigger Covered(handed, i)} :: i < n ==> Covered(handed, i))
    && (forall i: nat, p: nat, q: nat :: Covers(handed, p, i) && Covers(handed, q, i) ==> p == q)
  }

  lemma AllStopped(s: State, n: nat, b: nat, m: nat, k: nat)
    requires Inv(s, n, b, m, k) && Joined(s) && |s.work| > 0
    ensures multiset(StartsOf(s.handed)) == multiset(Starts(m, b)) && s.cursor == Times(m + |s.work|, b)
    ensures Clipped(s.handed, n, b)
  {
    AllGone(s.stopped, |s.work|);
    NobodyBusy(s.work);
  }

  lemma RunStopped(n: nat, b: nat, r: nat, acts: seq<Action>, s: State)
    requires b > 0 && r > 0 && Run(Start(r), n, b, acts) == Some(s) && Joined(s)
    ensures multiset(StartsOf(s.handed)) == multiset(Starts(Count(n, b), b)) && Clipped(s.handed, n, b)
    ensures s.cursor == Times(Count(n, b) + r, b)
  {
    var k := RunKeeps(r, n, b, acts);
    AllStopped(s, n, b, Count(n, b), k);
  }

  /** Every batch handed out is one of the counted strides. */
  lemma BatchIsStride(handed: seq<(nat, nat)>, n: nat, b: nat, p: nat) returns (j: nat)
    requires b > 0 && multiset(StartsOf(handed)) == multiset(Starts(Count(n, b), b)) && p < |handed|
    ensures j < Count(n, b) && handed[p].0 == Times(j, b) < n
  {
    var all := Starts(Count(n, b), b);
    assert StartsOf(handed)[p] in multiset(all);
    j :| 0 <= j < |all| && all[j] == handed[p].0;
    CountCovers(n, b, j);
  }

  lemma CoverAt(handed: seq<(nat, nat)>, n: nat, b: nat, i: nat)
    requires b > 0 && multiset(StartsOf(handed)) == multiset(Starts(Count(n, b), b)) && i < n
    requires Clipped(handed, n, b)
    ensures Covered(handed, i)
  {
    var j := Containing(n, b, i);
    assert Starts(Count(n, b), b)[j] in multiset(StartsOf(handed));
    var p :| 0 <= p < |handed| && StartsOf(handed)[p] == Times(j, b);
    assert Covers(handed, p, i);
  }

  lemma CoverOnce(handed: seq<(nat, nat)>, n: nat, b: nat, i: nat, p: nat, q: nat)
    requires b > 0 && multiset(StartsOf(handed)) == multiset(Starts(Count(n, b), b))
    requires Clipped(handed, n, b)
    requires Covers(handed, p, i) && Covers(handed, q, i)
    ensures p == q
  {
    var x := BatchIsStride(handed, n, b, p);
    var y := BatchIsStride(handed, n, b, q);
    SameStride(x, y, b, i);
    StartsDistinct(Count(n, b), b);
    DistinctLike(StartsOf(handed), Starts(Count(n, b), b));
    assert StartsOf(handed)[p] == StartsOf(handed)[q];
  }

  lemma HandedAll(handed: seq<(nat, nat)>, n: nat, b: nat)
    requires b > 0 && multiset(StartsOf(handed)) == multiset(Starts(Count(n, b), b))
    requires Clipped(handed, n, b)
    ensures ExactCover(handed, n, b)
  {
    forall p | 0 <= p < |handed|
      ensures handed[p].0 < n && handed[p].1 == Min(handed[p].0 + b, n)
    {
      var j := BatchIsStride(handed, n, b, p);
    }
    forall i: nat {:trigger Covered(handed, i)} | i < n
      ensures Covered(handed, i)
    {
      CoverAt(handed, n, b, i);
    }
    forall i: nat, p: nat, q: nat | Covers(handed, p, i) && Covers(handed, q, i)
      ensures p == q
    {
      CoverOnce(handed, n, b, i, p, q);
    }
  }

  /** When all of at least one runner have stopped, every item has been given to `fn`
      exactly once, and the cursor has gone exactly one step per runner past the last
      batch. */
  lemma EveryItemOnce(n: nat, b: nat, r: nat, acts: seq<Action>, s: State)
    requires n > 0 && b > 0 && r > 0 && Run(Start(r), n, b, acts) == Some(s) && Joined(s)
    ensures ExactCover(s.handed, n, b) && s.cursor == Times(Count(n, b) + r, b)
  {
    RunStopped(n, b, r, acts, s);
    HandedAll(s.handed, n, b);
  }
}
