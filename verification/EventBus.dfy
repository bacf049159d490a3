/** The double-buffered event bus: a window over the log of every event sent. */
module EventBus {
  import opened Arith
  import opened Options
  import opened Streams

  /** Every event ever sent, where the current buffer begins, and where the previous one
      does. */
  datatype Window<T> = Window(log: seq<T>, base: nat, oldest: nat)

  predicate Ordered<T>(w: Window<T>) { w.oldest <= w.base <= |w.log| }

  function ViewOf<T>(w: Window<T>): View { View(w.oldest, |w.log|) }

  function Sent<T>(w: Window<T>, es: seq<T>): Window<T> { w.(log := w.log + es) }

  function Swapped<T>(w: Window<T>): Window<T> { Window(w.log, |w.log|, w.base) }

  /** One operation of a run of one reader against a bus. */
  datatype Op<T> = Send(es: seq<T>) | Swap | Read(limit: nat)

  datatype Pair<T> = Pair(w: Window<T>, r: Reader)

  /** What each operation makes of the bus and of a reader; the methods below do the same. */
  function Step<T>(s: Pair<T>, op: Op<T>): Pair<T>
    requires Ordered(s.w) && s.r.cursor <= |s.w.log|
    ensures Ordered(Step(s, op).w) && Step(s, op).r.cursor <= |Step(s, op).w.log|
  {
    match op
    case Send(es) => Pair(Sent(s.w, es), s.r)
    case Swap => Pair(Swapped(s.w), s.r)
    case Read(limit) => Pair(s.w, Take(ViewOf(s.w), s.r, limit))
  }

  class Bus<T> {
    var buffers: seq<seq<T>>
    var current: nat
    var sentCount: nat
    var baseCount: nat
    ghost var log: seq<T>

    ghost predicate Valid()
      reads this
    {
      && |buffers| == 2 && current < 2 && sentCount == |log|
      && |buffers[1 - current]| <= baseCount <= |log|
      && buffers[current] == log[baseCount..]
      && buffers[1 - current] == log[baseCount - |buffers[1 - current]|..baseCount]
    }

    ghost function State(): (w: Window<T>)
      requires Valid()
      reads this
      ensures Ordered(w)
    {
      Window(log, baseCount, baseCount - |buffers[1 - current]|)
    }

    constructor ()
      ensures Valid() && State() == Window([], 0, 0)
    {
      buffers, current, sentCount, baseCount, log := [[], []], 0, 0, 0, [];
    }

    method Send(e: T)
      requires Valid()
      modifies this
      ensures Valid() && State() == Sent(old(State()), [e])
      ensures forall r: Reader :: r.cursor <= |old(log)| ==>
        Step(Pair(old(State()), r), Op.Send([e])) == Pair(State(), r)
      ensures log == old(log) + [e] && State().base == old(State()).base && State().oldest == old(State()).oldest
    {
      buffers := buffers[current := buffers[current] + [e]];
      sentCount := sentCount + 1;
      log := log + [e];
    }

    method SendBatch(es: seq<T>)
      requires Valid()
      modifies this
      ensures Valid() && State() == Sent(old(State()), es)
      ensures forall r: Reader :: r.cursor <= |old(log)| ==>
        Step(Pair(old(State()), r), Op.Send(es)) == Pair(State(), r)
      ensures log == old(log) + es && State().base == old(State()).base && State().oldest == old(State()).oldest
    {
      if |es| == 0 {
        return;
      }
      buffers := buffers[current := buffers[current] + es];
      sentCount := sentCount + |es|;
      log := log + es;
    }

    method Swap()
      requires Valid()
      modifies this
      ensures Valid() && State() == Swapped(old(State()))
      ensures forall r: Reader :: r.cursor <= |log| ==> Step(Pair(old(State()), r), Op.Swap) == Pair(State(), r)
      ensures log == old(log) && State().base == |log| && State().oldest == old(State()).base
    {
      var next := 1 - current;
      buffers := buffers[next := []];
      current := next;
      baseCount := sentCount;
    }

    method Len() returns (n: nat)
      requires Valid()
      ensures n == |State().log| - State().oldest
    {
      n := |buffers[0]| + |buffers[1]|;
    }

    /** readAt: the entry a cursor is at, lost ones skipped. */
    method ReadAt(cursor: nat) returns (e: Option<T>, next: nat)
      requires Valid()
      ensures var c := From(ViewOf(State()), cursor);
        if c < |log| then e == Some(log[c]) && next == c + 1 else e == None && next == c
    {
      var prev := buffers[1 - current];
      var oldest := baseCount - |prev|;
      next := cursor;
      if next < oldest {
        next := oldest;
      }
      if next < baseCount {
        return Some(prev[next - oldest]), next + 1;
      }
      if next < sentCount {
        return Some(buffers[current][next - baseCount]), next + 1;
      }
      return None, next;
    }
  }

  lemma SliceNext<T>(s: seq<T>, a: nat, b: nat, more: seq<T>)
    requires a <= b < |s|
    ensures (s + more)[a..b + 1] == s[a..b] + [s[b]]
  {
  }

  /** All that a consumer sends on its first n entries. */
  ghost function Replies<T>(reply: nat -> seq<T>, n: nat): seq<T>
  {
    if n == 0 then [] else Replies(reply, n - 1) + reply(n - 1)
  }

  /** From window `w` and cursor `start` on, a consumer has got `out` and sent its
      replies; `w'` and `cursor` are what it has come to. */
  ghost predicate Fed<T>(w: Window<T>, start: nat, reply: nat -> seq<T>,
                         w': Window<T>, cursor: nat, out: seq<T>)
  {
    var c := From(ViewOf(w'), start);
    && w' == Sent(w, Replies(reply, |out|)) && (out == [] || cursor == c + |out|)
    && From(ViewOf(w'), cursor) == c + |out| <= |w'.log| && out == w'.log[c..c + |out|]
  }

  lemma FedNothing<T>(w: Window<T>, start: nat, reply: nat -> seq<T>)
    requires Ordered(w) && start <= |w.log|
    ensures Fed(w, start, reply, w, start, [])
  {
    assert w.log + [] == w.log;
  }

  lemma FedNext<T>(w: Window<T>, start: nat, reply: nat -> seq<T>, w': Window<T>, cursor: nat, out: seq<T>)
    requires Fed(w, start, reply, w', cursor, out) && From(ViewOf(w'), cursor) < |w'.log|
    ensures var at := From(ViewOf(w'), cursor);
      Fed(w, start, reply, Sent(w', reply(|out|)), at + 1, out + [w'.log[at]])
  {
    var es := reply(|out|);
    SliceNext(w'.log, From(ViewOf(w'), start), From(ViewOf(w'), cursor), es);
    assert (w.log + Replies(reply, |out|)) + es == w.log + (Replies(reply, |out|) + es);
  }

  /** It stops with as many entries as it wants, or with none left. */
  lemma FedEnough<T>(w: Window<T>, start: nat, reply: nat -> seq<T>, w': Window<T>, cursor: nat, out: seq<T>,
                     limit: nat)
    requires Ordered(w) && start <= |w.log| && Fed(w, start, reply, w', cursor, out)
    requires |out| <= limit && cursor == From(ViewOf(w'), cursor) && (|out| == limit || cursor == |w'.log|)
    ensures cursor == Upto(ViewOf(w'), start, limit) && out == w'.log[From(ViewOf(w'), start)..cursor]
  {
  }

  class EventReader<T> {
    const bus: Bus<T>
    var cursor: nat

    ghost predicate Valid()
      reads this, bus
    {
      bus.Valid() && cursor <= |bus.log|
    }

    /** NewEventReader starts at the oldest entry kept, NewEventReaderAt at the end. */
    constructor (bus: Bus<T>, atEnd: bool)
      requires bus.Valid()
      ensures Valid() && this.bus == bus
      ensures From(ViewOf(bus.State()), cursor) == if atEnd then |bus.log| else bus.State().oldest
    {
      this.bus := bus;
      cursor := if atEnd then bus.sentCount else 0;
    }

    method Len() returns (n: nat)
      requires Valid()
      ensures n == |bus.log| - From(ViewOf(bus.State()), cursor)
    {
      var oldest := bus.baseCount - |bus.buffers[1 - bus.current]|;
      var c := if cursor > oldest then cursor else oldest;
      n := bus.sentCount - c;
    }

    method Clear()
      requires Valid()
      modifies this
      ensures Valid() && cursor == |bus.log|
    {
      cursor := bus.sentCount;
    }

    /** One entry is handed over, and the consumer sends its reply; or none is left. */
    method FeedOne(ghost w: Window<T>, ghost start: nat, reply: nat -> seq<T>, got: seq<T>)
      returns (more: bool, out: seq<T>)
      requires Valid() && Fed(w, start, reply, bus.State(), cursor, got)
      modifies this, bus
      ensures Valid() && Fed(w, start, reply, bus.State(), cursor, out) && From(ViewOf(bus.State()), cursor) == cursor
      ensures if more then |out| == |got| + 1 else out == got && cursor == |bus.log|
    {
      ghost var w', at := bus.State(), cursor;
      var e, next := bus.ReadAt(cursor);
      cursor := next;
      if e.None? {
        return false, got;
      }
      FedNext(w, start, reply, w', at, got);
      bus.SendBatch(reply(|got|));
      return true, got + [e.value];
    }

    /** All, with a consumer that stops after `limit` entries or, when it gets fewer,
        never, and that sends `reply(i)` while it is fed entry i. */
    method All(limit: nat, reply: nat -> seq<T>) returns (out: seq<T>)
      requires Valid() && limit > 0
      modifies this, bus
      ensures Valid() && bus.State() == Sent(old(bus.State()), Replies(reply, |out|))
      ensures var v := ViewOf(bus.State());
        cursor == Upto(v, old(cursor), limit) && out == bus.log[From(v, old(cursor))..cursor]
      ensures forall r: Reader :: r.cursor == old(cursor) ==>
        var t := Step(Pair(bus.State(), r), Op.Read(limit)).r;
        t.cursor == cursor && |t.got| == |r.got| + |out|
    {
      out := [];
      ghost var w, start := bus.State(), cursor;
      FedNothing(w, start, reply);
      var more := true;
      while more && |out| < limit
        invariant Valid() && |out| <= limit && Fed(w, start, reply, bus.State(), cursor, out)
        invariant out != [] || !more ==> From(ViewOf(bus.State()), cursor) == cursor
        invariant !more ==> cursor == |bus.log|
        decreases limit - |out|, more
      {
        more, out := FeedOne(w, start, reply, out);
      }
      FedEnough(w, start, reply, bus.State(), cursor, out, limit);
    }
  }

  // ----- runs of one reader against a bus -----

  function Run<T>(s: Pair<T>, ops: seq<Op<T>>): (t: Pair<T>)
    requires Ordered(s.w) && s.r.cursor <= |s.w.log|
    ensures Ordered(t.w) && t.r.cursor <= |t.w.log|
    decreases |ops|
  {
    if ops == [] then s else Run(Step(s, ops[0]), ops[1..])
  }

  /** In every run a reader is handed entries in order, none twice, and each entry it has
      passed it was handed or lost. */
  lemma {:induction false} RunsAreFaithful<T>(s: Pair<T>, ops: seq<Op<T>>)
    requires Ordered(s.w) && s.r.cursor <= |s.w.log| && Faithful(s.r)
    ensures Faithful(Run(s, ops).r) && s.w.log <= Run(s, ops).w.log && Run(s, ops).r.start == s.r.start
    decreases |ops|
  {
    if ops != [] {
      if ops[0].Read? {
        TakeIsFaithful(ViewOf(s.w), s.r, ops[0].limit);
      }
      RunsAreFaithful(Step(s, ops[0]), ops[1..]);
    }
  }

  /** Some full read comes before each swap and after the one before it; `drained` says
      whether one has come since the last swap. */
  predicate EachFrame<T>(s: Pair<T>, ops: seq<Op<T>>, drained: bool)
    requires Ordered(s.w) && s.r.cursor <= |s.w.log|
    decreases |ops|
  {
    if ops == [] then true
    else
      match ops[0]
      case Send(_) => EachFrame(Step(s, ops[0]), ops[1..], drained)
      case Swap => drained && EachFrame(Step(s, ops[0]), ops[1..], false)
      case Read(n) => EachFrame(Step(s, ops[0]), ops[1..], drained || Step(s, ops[0]).r.cursor == |s.w.log|)
  }

  /** A reader that catches up at least once per frame loses nothing: it has been handed
      exactly the entries from its start to its cursor, in order. */
  lemma {:induction false} DrainedEachFrame<T>(s: Pair<T>, ops: seq<Op<T>>, drained: bool)
    requires Ordered(s.w) && s.w.oldest <= s.r.cursor <= |s.w.log| && Faithful(s.r) && s.r.lost == 0
    requires (drained ==> s.w.base <= s.r.cursor) && EachFrame(s, ops, drained)
    ensures s.r.start <= Run(s, ops).r.cursor && Run(s, ops).r.got == Range(s.r.start, Run(s, ops).r.cursor)
    decreases |ops|
  {
    if ops == [] {
      CompleteIffNothingLost(s.r);
    } else {
      var next := Step(s, ops[0]);
      match ops[0] {
        case Send(_) => DrainedEachFrame(next, ops[1..], drained);
        case Swap => DrainedEachFrame(next, ops[1..], false);
        case Read(n) =>
          TakeIsFaithful(ViewOf(s.w), s.r, n);
          DrainedEachFrame(next, ops[1..], drained || next.r.cursor == |s.w.log|);
      }
    }
  }

  function Swaps<T>(ops: seq<Op<T>>): nat
  {
    if ops == [] then 0 else (if ops[0].Swap? then 1 else 0) + Swaps(ops[1..])
  }

  /** After any further operations the entry at index i is kept exactly when fewer swaps
      have come than `left`, the number it survives plus one. */
  lemma {:induction false} KeptFor<T>(s: Pair<T>, ops: seq<Op<T>>, i: nat, left: nat)
    requires Ordered(s.w) && s.r.cursor <= |s.w.log| && i < |s.w.log|
    requires left == if s.w.base <= i then 2 else if s.w.oldest <= i then 1 else 0
    ensures Run(s, ops).w.oldest <= i <==> Swaps(ops) < left
    decreases |ops|
  {
    if ops != [] {
      var next := Step(s, ops[0]);
      KeptFor(next, ops[1..], i, if next.w.base <= i then 2 else if next.w.oldest <= i then 1 else 0);
    }
  }

  lemma {:induction false} LogGrows<T>(s: Pair<T>, ops: seq<Op<T>>)
    requires Ordered(s.w) && s.r.cursor <= |s.w.log|
    ensures s.w.log <= Run(s, ops).w.log
    decreases |ops|
  {
    if ops != [] {
      LogGrows(Step(s, ops[0]), ops[1..]);
    }
  }

  /** An event becomes unreadable at the second swap after it was sent, and not before. */
  lemma UnreadableAtSecondSwap<T>(s: Pair<T>, e: T, ops: seq<Op<T>>)
    requires Ordered(s.w) && s.r.cursor <= |s.w.log|
    ensures var t := Run(Step(s, Send([e])), ops);
      |s.w.log| < |t.w.log| && t.w.log[|s.w.log|] == e && (t.w.oldest <= |s.w.log| <==> Swaps(ops) < 2)
  {
    var next := Step(s, Send([e]));
    KeptFor(next, ops, |s.w.log|, 2);
    LogGrows(next, ops);
  }
}
