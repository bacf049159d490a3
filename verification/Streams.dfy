/** A cursor over an append-only log of which only a window is kept. */
module Streams {
  import opened Arith

  /** The kept indices are oldest up to end. */
  datatype View = View(oldest: nat, end: nat)

  /** A reader that began at `start`, the log indices it has been handed, and how many it
      was too late for. */
  datatype Reader = Reader(start: nat, cursor: nat, got: seq<nat>, lost: nat)

  function Range(a: nat, b: nat): (r: seq<nat>)
    requires a <= b
    ensures |r| == b - a && forall i :: 0 <= i < |r| ==> r[i] == a + i
  {
    if a == b then [] else Range(a, b - 1) + [b - 1]
  }

  /** Where the next read begins, and how far a read of at most n goes. */
  function From(v: View, cursor: nat): (c: nat)
    ensures c >= v.oldest && c >= cursor && (c == v.oldest || c == cursor)
  {
    if cursor < v.oldest then v.oldest else cursor
  }

  function Upto(v: View, cursor: nat, n: nat): (e: nat)
    requires cursor <= v.end && v.oldest <= v.end
    ensures From(v, cursor) <= e <= v.end && e <= From(v, cursor) + n && (e == v.end || e == From(v, cursor) + n)
  {
    Min(From(v, cursor) + n, v.end)
  }

  /** A read of at most n entries. */
  function Take(v: View, r: Reader, n: nat): Reader
    requires r.cursor <= v.end && v.oldest <= v.end
  {
    var c, e := From(v, r.cursor), Upto(v, r.cursor, n);
    Reader(r.start, e, r.got + Range(c, e), r.lost + (c - r.cursor))
  }

  /** What a reader was handed is in log order without repeats, and every index it has
      passed was handed over or lost. */
  ghost predicate Faithful(r: Reader)
  {
    && (forall i, j :: 0 <= i < j < |r.got| ==> r.got[i] < r.got[j])
    && (forall i :: 0 <= i < |r.got| ==> r.start <= r.got[i] < r.cursor)
    && r.start <= r.cursor && |r.got| + r.lost == r.cursor - r.start
  }

  lemma TakeIsFaithful(v: View, r: Reader, n: nat)
    requires r.cursor <= v.end && v.oldest <= v.end && Faithful(r)
    ensures Faithful(Take(v, r, n))
  {
    var c, e := From(v, r.cursor), Upto(v, r.cursor, n);
    var got := r.got + Range(c, e);
    forall i | 0 <= i < |got|
      ensures r.start <= got[i] < e
      ensures i < |r.got| ==> got[i] < c
      ensures i >= |r.got| ==> got[i] == c + i - |r.got|
    {
    }
  }

  lemma {:induction false} AtLeast(s: seq<nat>, start: nat, i: nat)
    requires i < |s| && s[0] >= start && forall j, k :: 0 <= j < k < |s| ==> s[j] < s[k]
    ensures s[i] >= start + i
  {
    if i > 0 {
      AtLeast(s, start, i - 1);
    }
  }

  lemma {:induction false} AtMost(s: seq<nat>, end: nat, i: nat)
    requires i < |s| && s[|s| - 1] < end && forall j, k :: 0 <= j < k < |s| ==> s[j] < s[k]
    ensures s[i] + (|s| - i) <= end
    decreases |s| - i
  {
    if i < |s| - 1 {
      AtMost(s, end, i + 1);
    }
  }

  /** A reader has been handed everything since its start, in order, exactly when it lost
      nothing. */
  lemma CompleteIffNothingLost(r: Reader)
    requires Faithful(r)
    ensures r.lost == 0 <==> r.got == Range(r.start, r.cursor)
  {
    if r.lost == 0 {
      forall i | 0 <= i < |r.got| ensures r.got[i] == r.start + i {
        AtLeast(r.got, r.start, i);
        AtMost(r.got, r.cursor, i);
      }
    }
  }
}
