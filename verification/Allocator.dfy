/** The entity allocator: a generational arena with a free list. */
module Allocator {
  import opened Arith
  import opened Entities
  import opened Options

  datatype State = State(freeList: seq<Word>, generations: seq<Word>, alive: Word)

  /** 32-bit counters wrap. */
  function Wrap(x: int): Word { x % WORD }

  /** The arena can take n more slots. */
  predicate Room(s: State, n: nat) { |s.generations| + n < WORD }

  predicate InRange(s: State) { forall k :: 0 <= k < |s.freeList| ==> s.freeList[k] < |s.generations| }

  // ----- what each operation does to the state -----

  /** Pops the last free index, or adds a slot at generation 1. */
  function Allocated(s: State): (r: (State, Handle))
    requires InRange(s) && Room(s, 1)
    ensures InRange(r.0)
    ensures |r.0.generations| == if s.freeList == [] then |s.generations| + 1 else |s.generations|
  {
    var n := |s.freeList|;
    if n > 0 then
      var index := s.freeList[n - 1];
      (State(s.freeList[..n - 1], s.generations, Wrap(s.alive + 1)), Pack(index, s.generations[index]))
    else
      (State([], s.generations + [1], Wrap(s.alive + 1)), Pack(|s.generations|, 1))
  }

  /** n single allocations, one after another. */
  function AllocatedEach(s: State, n: nat): (r: (State, seq<Handle>))
    requires InRange(s) && Room(s, n)
    ensures InRange(r.0) && |r.1| == n
    ensures |r.0.generations| <= |s.generations| + n
  {
    if n == 0 then (s, [])
    else
      var (t, hs) := AllocatedEach(s, n - 1);
      var (u, h) := Allocated(t);
      (u, hs + [h])
  }

  lemma EachNext(s: State, n: nat)
    requires InRange(s) && Room(s, n + 1)
    ensures var (t, hs) := AllocatedEach(s, n);
      Room(t, 1) && AllocatedEach(s, n + 1) == (Allocated(t).0, hs + [Allocated(t).1])
  {
  }

  /** The slot is at this handle's generation. */
  predicate Current(s: State, h: Handle)
  {
    h != NULL && Index(h) < |s.generations| && s.generations[Index(h)] == Generation(h)
  }

  function Freed(s: State, h: Handle): State
  {
    if !Current(s, h) then s
    else State(s.freeList + [Index(h)], s.generations[Index(h) := Wrap(Generation(h) + 1)], Wrap(s.alive - 1))
  }

  function Zeros(n: nat): (z: seq<Word>)
    ensures |z| == n && forall k :: 0 <= k < n ==> z[k] == 0
  {
    seq(n, _ => 0)
  }

  /** The arena grown to hold an index, new slots at the unused generation 0. */
  function Padded(generations: seq<Word>, index: Word): (p: seq<Word>)
    ensures index < |p|
  {
    if index < |generations| then generations else generations + Zeros(index + 1 - |generations|)
  }

  function Placed(s: State, index: Word, generation: Word): State
  {
    if generation == 0 then s
    else
      var p := Padded(s.generations, index);
      State(s.freeList, p[index := generation], if p[index] == 0 then Wrap(s.alive + 1) else s.alive)
  }

  /** The unused slots from k on, highest first. */
  function Gaps(generations: seq<Word>, k: nat): (r: seq<Word>)
    requires k <= |generations| < WORD
    ensures forall i: Word :: i in r <==> k <= i < |generations| && generations[i] == 0
    ensures forall i, j :: 0 <= i < j < |r| ==> r[i] > r[j]
    decreases |generations| - k
  {
    if k == |generations| then []
    else
      var above := Gaps(generations, k + 1);
      assert forall i :: 0 <= i < |above| ==> above[i] in above;
      above + (if generations[k] == 0 then [k] else [])
  }

  /** Unused slots, from k on, brought to generation 1. */
  function Filled(generations: seq<Word>, k: nat): (r: seq<Word>)
    ensures |r| == |generations|
    ensures forall i :: 0 <= i < |r| ==> r[i] == if i >= k && generations[i] == 0 then 1 else generations[i]
  {
    seq(|generations|, i requires 0 <= i < |generations| => if i >= k && generations[i] == 0 then 1 else generations[i])
  }

  function Rebuilt(s: State): State
    requires |s.generations| < WORD
  {
    State(Gaps(s.generations, 0), Filled(s.generations, 0), s.alive)
  }

  predicate Exceeds(length: nat, index: Word) { Wrap(length) > index }

  /** Padding one slot at a time, the 32-bit length at some point exceeds the index. */
  ghost predicate PaddingEnds(length: nat, index: Word)
  {
    exists longer: nat :: longer >= length && Exceeds(longer, index)
  }

  /** It never exceeds the last index, and it does exceed every other. */
  lemma PaddingEndsIff(length: nat, index: Word)
    ensures PaddingEnds(length, index) <==> index < WORD - 1
  {
    if index < WORD - 1 {
      var longer := length - length % WORD + WORD - 1;
      assert longer == length / WORD * WORD + (WORD - 1);
      assert Exceeds(longer, index);
    }
  }

  lemma WrapAdds(a: Word, k: nat)
    ensures Wrap(Wrap(a + k) + 1) == Wrap(a + (k + 1))
  {
  }

  lemma EachPops(s: State, k: nat, free: seq<Word>, generations: seq<Word>, hs: seq<Handle>)
    requires InRange(s) && Room(s, k + 1) &&
      AllocatedEach(s, k) == (State(free, generations, Wrap(s.alive + k)), hs) && free != []
    ensures free[|free| - 1] < |generations|
    ensures AllocatedEach(s, k + 1) ==
      (State(free[..|free| - 1], generations, Wrap(s.alive + (k + 1))),
        hs + [Pack(free[|free| - 1], generations[free[|free| - 1]])])
  {
    WrapAdds(s.alive, k);
  }

  /** After k single allocations from s the free list is used up, and these are the slots
      and the handles. */
  ghost predicate Extended(s: State, k: nat, generations: seq<Word>, hs: seq<Handle>)
  {
    InRange(s) && Room(s, k) && AllocatedEach(s, k) == (State([], generations, Wrap(s.alive + k)), hs)
  }

  lemma AppendsLast<T>(a: seq<T>, b: seq<T>, x: T)
    ensures a + (b + [x]) == (a + b) + [x]
  {
  }

  lemma EachExtends(s: State, k: nat, generations: seq<Word>, before: seq<Handle>, out: seq<Handle>)
    requires Room(s, k + 1) && |generations| < WORD && Extended(s, k, generations, before + out)
    ensures Extended(s, k + 1, generations + [1], before + (out + [Pack(|generations|, 1)]))
  {
    WrapAdds(s.alive, k);
    AppendsLast(before, out, Pack(|generations|, 1));
  }

  class EntityAllocator {
    var freeList: seq<Word>
    var generations: seq<Word>
    var alive: Word

    ghost function S(): State
      reads this
    {
      State(freeList, generations, alive)
    }

    constructor ()
      ensures S() == State([], [], 0)
    {
      freeList, generations, alive := [], [], 0;
    }

    method Allocate() returns (h: Handle)
      requires InRange(S()) && Room(S(), 1)
      modifies this
      ensures (S(), h) == Allocated(old(S()))
      ensures alive == (old(alive) + 1) % WORD && Index(h) < |generations| && Generation(h) == generations[Index(h)]
      ensures if old(freeList) == []
        then Index(h) == |old(generations)| && generations == old(generations) + [1] && freeList == []
        else freeList + [Index(h)] == old(freeList) && generations == old(generations)
    {
      var index: Word;
      var n := |freeList|;
      if n > 0 {
        index := freeList[n - 1];
        freeList := freeList[..n - 1];
      } else {
        index := |generations|;
        generations := generations + [1];
      }
      alive := Wrap(alive + 1);
      h := Pack(index, generations[index]);
    }

    /** The batch's first loop: handles from the free list. */
    method Reuse(reuse: nat) returns (out: seq<Handle>)
      requires InRange(S()) && reuse <= |freeList| && Room(S(), reuse)
      modifies this`freeList
      ensures InRange(S()) && |freeList| == |old(freeList)| - reuse
      ensures AllocatedEach(old(S()), reuse) == (State(freeList, generations, Wrap(alive + reuse)), out)
    {
      out := [];
      ghost var s := S();
      for k := 0 to reuse
        invariant |freeList| == |s.freeList| - k && InRange(S())
        invariant AllocatedEach(s, k) == (State(freeList, generations, Wrap(alive + k)), out)
      {
        EachPops(s, k, freeList, generations, out);
        var index := freeList[|freeList| - 1];
        freeList := freeList[..|freeList| - 1];
        out := out + [Pack(index, generations[index])];
      }
    }

    /** The batch's second loop: handles of new slots. */
    method Extend(remaining: nat, ghost s: State, ghost reuse: nat, ghost before: seq<Handle>)
      returns (out: seq<Handle>)
      requires Room(s, reuse + remaining) && |generations| + remaining < WORD
      requires Extended(s, reuse, generations, before)
      modifies this`generations
      ensures Extended(s, reuse + remaining, generations, before + out)
    {
      out := [];
      assert before + out == before;
      var base := |generations|;
      ghost var issued := reuse;
      for k := 0 to remaining
        invariant |generations| == base + k && issued == reuse + k && Extended(s, issued, generations, before + out)
      {
        EachExtends(s, issued, generations, before, out);
        generations := generations + [1];
        out := out + [Pack(base + k, 1)];
        issued := issued + 1;
      }
    }

    /** The batch does exactly what n single allocations do. */
    method AllocateMany(n: int) returns (out: seq<Handle>)
      requires InRange(S()) && (n > 0 ==> Room(S(), n))
      modifies this
      ensures n <= 0 ==> out == [] && S() == old(S())
      ensures n > 0 ==> (S(), out) == AllocatedEach(old(S()), n)
    {
      out := [];
      if n <= 0 {
        return;
      }
      ghost var s := S();
      var reuse := Min(|freeList|, n);
      out := Reuse(reuse);
      var remaining := n - reuse;
      if remaining > 0 {
        var more := Extend(remaining, s, reuse, out);
        out := out + more;
      }
      alive := Wrap(alive + n);
    }

    method Free(h: Handle)
      modifies this
      ensures S() == Freed(old(S()), h)
      ensures if h != NULL && Index(h) < |old(generations)| && old(generations)[Index(h)] == Generation(h)
        then freeList == old(freeList) + [Index(h)] && alive == (old(alive) - 1) % WORD &&
          generations == old(generations)[Index(h) := (Generation(h) + 1) % WORD]
        else freeList == old(freeList) && generations == old(generations) && alive == old(alive)
    {
      if h == NULL {
        return;
      }
      var index := Index(h);
      if index >= |generations| {
        return;
      }
      if generations[index] != Generation(h) {
        return;
      }
      generations := generations[index := Wrap(Generation(h) + 1)];
      freeList := freeList + [index];
      alive := Wrap(alive - 1);
    }

    method IsAlive(h: Handle) returns (r: bool)
      ensures r == Current(S(), h)
      ensures r <==> h != NULL && Index(h) < |generations| && generations[Index(h)] == Generation(h)
    {
      if h == NULL {
        return false;
      }
      var index := Index(h);
      if index >= |generations| {
        return false;
      }
      r := generations[index] == Generation(h);
    }

    /** False when the padding loop would not end, which is so for the last index only. */
    method PlaceAt(index: Word, generation: Word) returns (ends: bool)
      requires |generations| < WORD
      modifies this
      ensures ends <==> generation == 0 || PaddingEnds(|old(generations)|, index)
      ensures ends <==> generation == 0 || index < WORD - 1
      ensures S() == if ends then Placed(old(S()), index, generation) else old(S())
      ensures freeList == old(freeList)
      ensures ends && generation != 0 ==> var was := old(generations);
        && |generations| == (if index < |was| then |was| else index + 1)
        && (forall i :: 0 <= i < |generations| ==>
              generations[i] == if i == index then generation else if i < |was| then was[i] else 0)
        && alive == if index < |was| && was[index] != 0 then old(alive) else (old(alive) + 1) % WORD
    {
      PaddingEndsIff(|generations|, index);
      if generation == 0 {
        return true;
      }
      if index == WORD - 1 {
        return false;
      }
      ghost var before := generations;
      while Wrap(|generations|) <= index
        invariant freeList == old(freeList) && alive == old(alive)
        invariant |generations| < WORD && |before| <= |generations| <= Max(|before|, index + 1)
        invariant generations == before + Zeros(|generations| - |before|)
        decreases WORD - |generations|
      {
        generations := generations + [0];
      }
      assert generations == Padded(before, index);
      if generations[index] == 0 {
        alive := Wrap(alive + 1);
      }
      generations := generations[index := generation];
      return true;
    }

    method RebuildFreeList()
      requires |generations| < WORD
      modifies this
      ensures S() == Rebuilt(old(S()))
      ensures alive == old(alive) && |generations| == |old(generations)|
      ensures forall i :: 0 <= i < |generations| ==>
        generations[i] == if old(generations)[i] == 0 then 1 else old(generations)[i]
      ensures forall i: Word :: i in freeList <==> i < |generations| && old(generations)[i] == 0
      ensures forall i, j :: 0 <= i < j < |freeList| ==> freeList[i] > freeList[j]
    {
      freeList := [];
      ghost var before := generations;
      var i: int := |generations| - 1;
      while i >= 0
        invariant -1 <= i < |before| == |generations| && alive == old(alive)
        invariant generations == Filled(before, i + 1) && freeList == Gaps(before, i + 1)
      {
        if generations[i] == 0 {
          generations := generations[i := 1];
          freeList := freeList + [i];
        }
        i := i - 1;
      }
    }
  }
}
