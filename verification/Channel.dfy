/** The message channel: a ring buffer with one cursor per reader, a window over the log
    of every message written. */
module Channel {
  import opened Arith
  import opened Streams

  const DEFAULT_CAPACITY := 64
  /** Reader IDs are 32-bit words, handed out in turn. */
  const ID_COUNT := 0x1_0000_0000

  function NextID(id: nat): nat { (id + 1) % ID_COUNT }

  /** What a ring of this capacity keeps. */
  function Kept(head: nat, capacity: nat): View
  {
    View(if head > capacity then head - capacity else 0, head)
  }

  /** One operation of a run with any number of readers. */
  datatype Op<T> = Write(msg: T) | Register | Unregister(id: nat) | Read(id: nat, limit: nat)

  datatype State<T> = State(log: seq<T>, capacity: nat, readers: map<nat, Reader>, nextID: nat)

  predicate Fits<T>(s: State<T>)
  {
    s.nextID < ID_COUNT && forall id :: id in s.readers ==> id < ID_COUNT && s.readers[id].cursor <= |s.log|
  }

  /** What each operation makes of the channel and its readers; the methods below do the same. */
  function Step<T>(s: State<T>, op: Op<T>): (t: State<T>)
    requires Fits(s)
    ensures Fits(t)
  {
    match op
    case Write(msg) => s.(log := s.log + [msg])
    case Register =>
      var id := NextID(s.nextID);
      s.(nextID := id, readers := s.readers[id := Reader(|s.log|, |s.log|, [], 0)])
    case Unregister(id) => s.(readers := s.readers - {id})
    case Read(id, limit) =>
      if id in s.readers
        then s.(readers := s.readers[id := Take(Kept(|s.log|, s.capacity), s.readers[id], limit)]) else s
  }

  /** The state of a run is that of a channel with these fields. */
  ghost predicate Shows<T>(s: State<T>, log: seq<T>, capacity: nat, readers: map<nat, nat>, nextID: nat)
  {
    && s.log == log && s.capacity == capacity && s.nextID == nextID && s.readers.Keys == readers.Keys
    && forall id :: id in readers ==> s.readers[id].cursor == readers[id]
  }

  class MessageChannel<T> {
    const capacity: nat
    const buffer: array<T>
    var head: nat
    var readers: map<nat, nat>
    var nextID: nat
    ghost var log: seq<T>

    ghost predicate Valid()
      reads this, buffer
    {
      && capacity == buffer.Length > 0 && head == |log|
      && (forall i: nat :: Kept(head, capacity).oldest <= i < head ==> buffer[Slot(i, capacity)] == log[i])
      && nextID < ID_COUNT && (forall id :: id in readers ==> id < ID_COUNT && readers[id] <= head)
    }

    constructor (wanted: int, zero: T)
      ensures Valid() && fresh(buffer) && log == [] && readers == map[] && nextID == 0
      ensures capacity == if wanted <= 0 then 64 else wanted
    {
      var n := if wanted <= 0 then DEFAULT_CAPACITY else wanted;
      capacity, buffer := n, new T[n](_ => zero);
      head, readers, nextID, log := 0, map[], 0, [];
    }

    method Write(msg: T)
      requires Valid()
      modifies this`head, this`log, buffer
      ensures Valid() && log == old(log) + [msg]
      ensures forall s :: Fits(s) && Shows(s, old(log), capacity, old(readers), old(nextID)) ==>
        Shows(Step(s, Op.Write(msg)), log, capacity, readers, nextID)
    {
      buffer[Slot(head, capacity)] := msg;
      forall i: nat | Kept(head + 1, capacity).oldest <= i < head
        ensures buffer[Slot(i, capacity)] == log[i]
      {
        SlotsDiffer(i, head, capacity);
      }
      log := log + [msg];
      head := head + 1;
    }

    /** A new reader sees what is written from now on. Its ID is the next in turn; once
        they have all been handed out that may be one in use, whose cursor it takes over. */
    method RegisterReader() returns (id: nat)
      requires Valid()
      modifies this`readers, this`nextID
      ensures Valid() && id == nextID == (old(nextID) + 1) % 0x1_0000_0000
      ensures readers == old(readers)[id := head]
      ensures forall s :: Fits(s) && Shows(s, old(log), capacity, old(readers), old(nextID)) ==>
        Shows(Step(s, Register), log, capacity, readers, nextID)
    {
      nextID := NextID(nextID);
      id := nextID;
      readers := readers[id := head];
    }

    method UnregisterReader(id: nat)
      requires Valid()
      modifies this`readers
      ensures Valid() && readers == old(readers) - {id}
      ensures forall s :: Fits(s) && Shows(s, old(log), capacity, old(readers), old(nextID)) ==>
        Shows(Step(s, Unregister(id)), log, capacity, readers, nextID)
    {
      readers := readers - {id};
    }

    /** The cursor moved up to the oldest message kept. */
    method Forwarded(cursor: nat) returns (c: nat)
      ensures c == From(Kept(head, capacity), cursor)
    {
      c := cursor;
      if head > capacity {
        var oldest := head - capacity;
        if c < oldest {
          c := oldest;
        }
      }
    }

    /** read, with a consumer that stops after `limit` messages or, when there are fewer,
        never. It does not write to this channel. */
    method Read(id: nat, limit: nat) returns (out: seq<T>)
      requires Valid() && limit > 0
      modifies this`readers
      ensures Valid()
      ensures id !in old(readers) ==> out == [] && readers == old(readers)
      ensures id in old(readers) ==>
        var c := old(readers)[id];
        var e := Upto(Kept(head, capacity), c, limit);
        out == log[From(Kept(head, capacity), c)..e] && readers == old(readers)[id := e]
      ensures forall s :: Fits(s) && Shows(s, old(log), capacity, old(readers), old(nextID)) ==>
        Shows(Step(s, Op.Read(id, limit)), log, capacity, readers, nextID)
      ensures forall s :: Fits(s) && Shows(s, old(log), capacity, old(readers), old(nextID)) && id in s.readers ==>
        |Step(s, Op.Read(id, limit)).readers[id].got| == |s.readers[id].got| + |out|
    {
      out := [];
      if id !in readers {
        return;
      }
      var cursor := Forwarded(readers[id]);
      ghost var c := cursor;
      while cursor < head
        invariant c <= cursor <= head && cursor == c + |out| && |out| < limit
        invariant out == log[c..cursor] && readers == old(readers)
      {
        var msg := buffer[Slot(cursor, capacity)];
        assert log[c..cursor + 1] == log[c..cursor] + [log[cursor]];
        cursor := cursor + 1;
        out := out + [msg];
        if |out| == limit {
          readers := readers[id := cursor];
          return;
        }
      }
      readers := readers[id := cursor];
    }

    /** Len is what a read to the end would yield. */
    method Len(id: nat) returns (n: nat)
      requires Valid()
      ensures n == if id in readers then |log| - From(Kept(|log|, capacity), readers[id]) else 0
    {
      if id !in readers {
        return 0;
      }
      var cursor := Forwarded(readers[id]);
      n := head - cursor;
    }
  }

  // ----- runs with any number of readers -----

  function Run<T>(s: State<T>, ops: seq<Op<T>>): (t: State<T>)
    requires Fits(s)
    ensures Fits(t)
    decreases |ops|
  {
    if ops == [] then s else Run(Step(s, ops[0]), ops[1..])
  }

  ghost predicate AllFaithful<T>(s: State<T>)
  {
    forall id :: id in s.readers ==> Faithful(s.readers[id])
  }

  /** In every run each reader is handed messages in order, none twice, and each message it
      has passed it was handed or lost. */
  lemma {:induction false} RunsAreFaithful<T>(s: State<T>, ops: seq<Op<T>>)
    requires Fits(s) && AllFaithful(s)
    ensures AllFaithful(Run(s, ops))
    decreases |ops|
  {
    if ops != [] {
      var op := ops[0];
      if op.Read? && op.id in s.readers {
        TakeIsFaithful(Kept(|s.log|, s.capacity), s.readers[op.id], op.limit);
      }
      RunsAreFaithful(Step(s, op), ops[1..]);
    }
  }

  /** No read by `id` in the run comes after more than `capacity` messages it has not
      seen. */
  predicate NeverLapped<T>(s: State<T>, ops: seq<Op<T>>, id: nat)
    requires Fits(s)
    decreases |ops|
  {
    ops == [] || (
      && (ops[0].Read? && ops[0].id == id && id in s.readers ==> |s.log| <= s.readers[id].cursor + s.capacity)
      && NeverLapped(Step(s, ops[0]), ops[1..], id))
  }

  function Registrations<T>(ops: seq<Op<T>>): nat
  {
    if ops == [] then 0 else (if ops[0].Register? then 1 else 0) + Registrations(ops[1..])
  }

  /** How many IDs are handed out before `id` is, `last` being the latest. */
  function Before(last: nat, id: nat): nat
    requires last < ID_COUNT && id < ID_COUNT
  {
    if id > last then id - last - 1 else id + ID_COUNT - last - 1
  }

  /** The reader is neither unregistered in the run nor has its ID handed out again. */
  ghost predicate Stays<T>(s: State<T>, ops: seq<Op<T>>, id: nat)
    requires Fits(s) && id < ID_COUNT
  {
    Unregister(id) !in ops && Registrations(ops) <= Before(s.nextID, id)
  }

  lemma {:induction false} LostIffLapped<T>(s: State<T>, ops: seq<Op<T>>, id: nat)
    requires Fits(s) && id in s.readers && Faithful(s.readers[id]) && Stays(s, ops, id)
    ensures id in Run(s, ops).readers
    ensures var r := Run(s, ops).readers[id];
      Faithful(r) && r.lost >= s.readers[id].lost && (r.lost == s.readers[id].lost <==> NeverLapped(s, ops, id))
    decreases |ops|
  {
    if ops != [] {
      var op := ops[0];
      if op.Read? && op.id == id {
        TakeIsFaithful(Kept(|s.log|, s.capacity), s.readers[id], op.limit);
      }
      assert op in ops;
      assert forall o :: o in ops[1..] ==> o in ops;
      LostIffLapped(Step(s, op), ops[1..], id);
    }
  }

  /** A reader that has lost nothing yet gets the whole log from its start to its cursor
      exactly when it was never lapped. */
  lemma CompleteIffNeverLapped<T>(s: State<T>, ops: seq<Op<T>>, id: nat)
    requires Fits(s) && id in s.readers && Faithful(s.readers[id]) && s.readers[id].lost == 0 && Stays(s, ops, id)
    ensures id in Run(s, ops).readers
    ensures Faithful(Run(s, ops).readers[id])
    ensures var r := Run(s, ops).readers[id];
      r.got == Range(r.start, r.cursor) <==> NeverLapped(s, ops, id)
  {
    LostIffLapped(s, ops, id);
    CompleteIffNothingLost(Run(s, ops).readers[id]);
  }

  lemma RunTail<T>(s: State<T>, ops: seq<Op<T>>, k: nat)
    requires Fits(s) && k < |ops|
    ensures Run(s, ops[..k + 1]) == Run(Step(s, ops[0]), ops[1..][..k])
  {
    assert ops[..k + 1][1..] == ops[1..][..k];
  }

  /** In every run with more registrations than there are IDs before `id`, one of them starts
      its reader afresh, at the end of the log as it is then. */
  lemma {:induction false} TakenOver<T>(s: State<T>, ops: seq<Op<T>>, id: nat) returns (k: nat)
    requires Fits(s) && id < ID_COUNT && Registrations(ops) > Before(s.nextID, id)
    ensures k < |ops| && ops[k].Register? && id in Run(s, ops[..k + 1]).readers
    ensures var log := Run(s, ops[..k]).log; Run(s, ops[..k + 1]).readers[id] == Reader(|log|, |log|, [], 0)
    decreases |ops|
  {
    if ops[0].Register? && NextID(s.nextID) == id {
      k := 0;
      assert ops[..1] == [ops[0]] && Run(s, ops[..1]) == Step(s, ops[0]);
    } else {
      k := TakenOver(Step(s, ops[0]), ops[1..], id);
      RunTail(s, ops, k);
      RunTail(s, ops, k + 1);
      k := k + 1;
    }
  }

  /** The run without the other readers' reads and departures. */
  function Only<T>(ops: seq<Op<T>>, id: nat): seq<Op<T>>
  {
    if ops == [] then []
    else
      var rest := Only(ops[1..], id);
      match ops[0]
      case Read(other, _) => if other == id then [ops[0]] + rest else rest
      case Unregister(other) => if other == id then [ops[0]] + rest else rest
      case _ => [ops[0]] + rest
  }

  /** What `id` can tell of the two states is the same. */
  ghost predicate Alike<T>(s: State<T>, t: State<T>, id: nat)
  {
    && s.log == t.log && s.capacity == t.capacity && s.nextID == t.nextID
    && (id in s.readers <==> id in t.readers) && (id in s.readers ==> s.readers[id] == t.readers[id])
  }

  /** Readers do not affect one another: leaving out what the others do changes nothing
      for `id`. */
  lemma {:induction false} ReadersAreIndependent<T>(s: State<T>, t: State<T>, ops: seq<Op<T>>, id: nat)
    requires Fits(s) && Fits(t) && Alike(s, t, id)
    ensures Alike(Run(s, ops), Run(t, Only(ops, id)), id)
    decreases |ops|
  {
    if ops != [] {
      var op := ops[0];
      if (op.Read? || op.Unregister?) && op.id != id {
        ReadersAreIndependent(Step(s, op), t, ops[1..], id);
      } else {
        assert Only(ops, id) == [op] + Only(ops[1..], id);
        assert Only(ops, id)[1..] == Only(ops[1..], id);
        ReadersAreIndependent(Step(s, op), Step(t, op), ops[1..], id);
      }
    }
  }
}
