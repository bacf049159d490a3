/** The growable ring of cell pointers behind one deque (`circArray`). */
module Ring {
  import opened Options
  import opened Arith
  import Bits

  /** The identity of a recycled task cell. */
  type Cell = nat

  /** The contents of a ring; a slot never written holds nil. */
  type Ring = r: seq<Option<Cell>> | |r| > 0 witness [None]

  function Size(r: Ring): (n: nat)
    ensures n > 0
  {
    |r|
  }

  function Get(r: Ring, i: nat): Option<Cell>
  {
    r[Slot(i, Size(r))]
  }

  /** A ring of nil slots. */
  function Blank(size: nat): (r: Ring)
    requires size > 0
    ensures Size(r) == size && forall i: nat {:trigger Get(r, i)} :: Get(r, i) == None
  {
    seq(size, _ => None)
  }

  /** In a ring of `2^log` slots the slot is what the program computes, `i & mask`. */
  lemma SlotIsMask(i: nat, log: nat)
    ensures Slot(i, Bits.Pow2(log)) == Bits.And(i, Bits.Pow2(log) - 1)
  {
    Bits.MaskIsMod(i, log);
  }

  /** Storing at index `i` is seen at `i`, and at no index less than a ring away. */
  function Put(r: Ring, i: nat, c: Option<Cell>): (w: Ring)
    ensures Size(w) == Size(r) && Get(w, i) == c
    ensures forall j: nat {:trigger Get(w, j)} :: i != j && i < j + Size(r) && j < i + Size(r) ==>
      Get(w, j) == Get(r, j)
  {
    var w: Ring := r[Slot(i, Size(r)) := c];
    assert forall j: nat {:trigger Get(w, j)} :: i != j && i < j + Size(r) && j < i + Size(r) ==>
      Get(w, j) == Get(r, j) by {
      forall j: nat {:trigger Get(w, j)} | i != j && i < j + Size(r) && j < i + Size(r)
        ensures Get(w, j) == Get(r, j)
      {
        SlotsDiffer(i, j, Size(r));
      }
    }
    w
  }

  /** `into` with the logical range [lo, hi) of `r` copied over it. */
  function Copied(r: Ring, into: Ring, lo: nat, hi: nat): (n: Ring)
    requires lo <= hi
    ensures Size(n) == Size(into)
    decreases hi
  {
    if lo == hi then into
    else Put(Copied(r, into, lo, hi - 1), hi - 1, Get(r, hi - 1))
  }

  /** A copied range that fits in the new ring reads back as it was. */
  lemma {:induction false} CopiedReads(r: Ring, into: Ring, lo: nat, hi: nat, i: nat)
    requires lo <= i < hi && hi - lo <= Size(into)
    ensures Get(Copied(r, into, lo, hi), i) == Get(r, i)
    decreases hi
  {
    if i < hi - 1 {
      CopiedReads(r, into, lo, hi - 1, i);
    }
  }

  /** The ring as the program holds it: a fixed buffer of slots, written in place. */
  class CircArray {
    const log: nat
    const buf: array<Option<Cell>>
    const size: nat
    const mask: nat

    ghost predicate Valid() {
      size == Bits.Pow2(log) && mask == size - 1 && buf.Length == size
    }

    ghost function Contents(): Ring
      reads this, buf
      requires Valid()
    {
      buf[..]
    }

    constructor (logSize: nat)
      ensures Valid() && log == logSize && fresh(buf) && Contents() == Blank(Bits.Pow2(logSize))
    {
      log := logSize;
      size := Bits.Pow2(logSize);
      mask := Bits.Pow2(logSize) - 1;
      buf := new Option<Cell>[Bits.Pow2(logSize)](_ => None);
      new;
      assert buf[..] == seq(Bits.Pow2(log), _ => None);
    }

    method Load(i: nat) returns (c: Option<Cell>)
      requires Valid()
      ensures c == Get(Contents(), i)
    {
      SlotIsMask(i, log);
      c := buf[Bits.And(i, mask)];
    }

    method Store(i: nat, c: Option<Cell>)
      requires Valid()
      modifies buf
      ensures Valid() && Contents() == Put(old(Contents()), i, c)
    {
      SlotIsMask(i, log);
      buf[Bits.And(i, mask)] := c;
    }

    /** A doubled ring holding the live range; this ring is left as it was. */
    method Grow(top: nat, bottom: nat) returns (n: CircArray)
      requires Valid() && top <= bottom && bottom - top <= size
      ensures n.Valid() && n.log == log + 1 && fresh(n) && fresh(n.buf)
      ensures n.Contents() == Copied(Contents(), Blank(Bits.Pow2(log + 1)), top, bottom)
    {
      n := new CircArray(log + 1);
      ghost var was := Contents();
      var i := top;
      while i < bottom
        invariant top <= i <= bottom
        invariant n.Valid() && n.log == log + 1 && fresh(n.buf)
        invariant Contents() == was
        invariant n.Contents() == Copied(was, Blank(Bits.Pow2(log + 1)), top, i)
      {
        var c := Load(i);
        n.Store(i, c);
        i := i + 1;
      }
    }
  }
}
