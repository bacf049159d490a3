/** What a crew of workers has in hand, and facts about bags and sequences. */
module Crew {
  import opened Options

  function OptBag<T>(t: Option<T>): multiset<T>
  {
    if t.Some? then multiset{t.value} else multiset{}
  }

  /** What the first n workers have in hand: `ws[k]` is worker k's item, if it has one. */
  function BusyTo<T>(ws: seq<Option<T>>, n: nat): multiset<T>
    requires n <= |ws|
  {
    if n == 0 then multiset{} else BusyTo(ws, n - 1) + OptBag(ws[n - 1])
  }

  /** The items in hand. */
  function Busy<T>(ws: seq<Option<T>>): multiset<T>
  {
    BusyTo(ws, |ws|)
  }

  lemma BagSwap<T>(a: multiset<T>, b: multiset<T>, c: multiset<T>)
    ensures (a + b) + c == (a + c) + b
  {
  }

  lemma {:induction false} FillsTo<T>(ws: seq<Option<T>>, k: nat, x: T, n: nat)
    requires k < |ws| && ws[k].None? && n <= |ws|
    ensures BusyTo(ws[k := Some(x)], n) == BusyTo(ws, n) + if k < n then multiset{x} else multiset{}
  {
    if n > 0 {
      FillsTo(ws, k, x, n - 1);
      if k < n - 1 {
        BagSwap(BusyTo(ws, n - 1), multiset{x}, OptBag(ws[n - 1]));
      }
    }
  }

  /** An idle worker that takes up `x`. */
  lemma WorkerFills<T>(ws: seq<Option<T>>, k: nat, x: T)
    requires k < |ws| && ws[k].None?
    ensures Busy(ws[k := Some(x)]) == Busy(ws) + multiset{x}
  {
    FillsTo(ws, k, x, |ws|);
  }

  /** A worker that puts down what it had. */
  lemma WorkerEmpties<T>(ws: seq<Option<T>>, k: nat)
    requires k < |ws| && ws[k].Some?
    ensures Busy(ws) == Busy(ws[k := None]) + multiset{ws[k].value}
  {
    WorkerFills(ws[k := None], k, ws[k].value);
    assert ws[k := None][k := ws[k]] == ws;
  }

  lemma {:induction false} IdleTo<T>(ws: seq<Option<T>>, n: nat)
    requires n <= |ws| && forall k :: 0 <= k < n ==> ws[k].None?
    ensures BusyTo(ws, n) == multiset{}
  {
    if n > 0 {
      IdleTo(ws, n - 1);
    }
  }

  lemma NobodyBusy<T>(ws: seq<Option<T>>)
    requires forall k :: 0 <= k < |ws| ==> ws[k].None?
    ensures Busy(ws) == multiset{}
  {
    IdleTo(ws, |ws|);
  }

  lemma AllIdle<T>(n: nat)
    ensures Busy(seq<Option<T>>(n, _ => None)) == multiset{}
  {
    NobodyBusy(seq<Option<T>>(n, _ => None));
  }

  lemma TwiceIn<T>(s: seq<T>, i: nat, j: nat)
    requires i < j < |s| && s[i] == s[j]
    ensures multiset(s)[s[i]] >= 2
  {
    assert s == s[..i] + [s[i]] + s[i + 1..j] + [s[j]] + s[j + 1..];
  }

  lemma {:induction false} OnceIn<T>(t: seq<T>, x: T)
    requires forall i, j :: 0 <= i < j < |t| ==> t[i] != t[j]
    ensures multiset(t)[x] <= 1
  {
    if t != [] {
      var n := |t| - 1;
      assert t == t[..n] + [t[n]];
      OnceIn(t[..n], x);
      if x == t[n] {
        assert x !in t[..n];
      }
    }
  }

  /** A sequence that is a rearrangement of distinct elements has distinct elements. */
  lemma DistinctLike<T>(s: seq<T>, t: seq<T>)
    requires multiset(s) == multiset(t)
    requires forall i, j :: 0 <= i < j < |t| ==> t[i] != t[j]
    ensures forall i, j :: 0 <= i < j < |s| ==> s[i] != s[j]
  {
    forall i, j | 0 <= i < j < |s|
      ensures s[i] != s[j]
    {
      if s[i] == s[j] {
        TwiceIn(s, i, j);
        OnceIn(t, s[i]);
        assert false;
      }
    }
  }
}
