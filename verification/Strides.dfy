/** Equal strides over a slice of n items, the arithmetic of batches and chunks:
    stride j of b starts at Times(j, b). */
module Strides {
  import opened Arith

  /** The stride in force: a requested size below one counts as one. */
  function StrideOf(requested: int): (b: nat)
    ensures b >= 1 && (requested >= 1 ==> b == requested) && (requested < 1 ==> b == 1)
  {
    Max(requested, 1)
  }

  /** The number of strides of `b` it takes to cover n items. */
  function Count(n: nat, b: nat): nat
    requires b > 0
  {
    if n == 0 then 0 else if n <= b then 1 else 1 + Count(n - b, b)
  }

  /** The formula the program uses for it, where its sum does not wrap. */
  lemma {:induction false} CountIsRoundUp(n: nat, b: nat)
    requires b > 0
    ensures (n + b - 1) / b == Count(n, b)
  {
    if n == 0 {
      ModUnique(b - 1, b, 0, b - 1);
    } else if n <= b {
      ModUnique(n + b - 1, b, 1, n - 1);
    } else {
      CountIsRoundUp(n - b, b);
      var q, r := (n - 1) / b, (n - 1) % b;
      assert (q + 1) * b == q * b + b;
      ModUnique(n + b - 1, b, q + 1, r);
    }
  }

  /** Stride `j` is one of the counted ones exactly when it starts before the end. */
  lemma {:induction false} CountCovers(n: nat, b: nat, j: nat)
    requires b > 0
    ensures j < Count(n, b) <==> Times(j, b) < n
  {
    if n <= b {
      if j > 0 {
        TimesApart(0, j, b);
      }
    } else if j > 0 {
      CountCovers(n - b, b, j - 1);
    }
  }

  lemma {:induction false} Search(b: nat, i: nat) returns (j: nat)
    requires b > 0
    ensures Times(j, b) <= i < Times(j, b) + b
  {
    if i < b {
      j := 0;
    } else {
      j := Search(b, i - b);
      TimesNext(j, b);
      j := j + 1;
    }
  }

  /** Every item lies in one of the counted strides. */
  lemma Containing(n: nat, b: nat, i: nat) returns (j: nat)
    requires b > 0 && i < n
    ensures j < Count(n, b) && Times(j, b) <= i < Times(j, b) + b
  {
    j := Search(b, i);
    CountCovers(n, b, j);
  }

  /** Strides that share an item are the same stride. */
  lemma SameStride(x: nat, y: nat, b: nat, i: int)
    requires Times(x, b) <= i < Times(x, b) + b && Times(y, b) <= i < Times(y, b) + b
    ensures x == y
  {
    if x < y {
      TimesApart(x, y, b);
    } else if y < x {
      TimesApart(y, x, b);
    }
  }

  /** The starts of the first k strides. */
  function Starts(k: nat, b: nat): (r: seq<nat>)
    ensures |r| == k && forall j :: 0 <= j < k ==> r[j] == Times(j, b)
  {
    seq<nat>(k, j requires 0 <= j => Times(j, b))
  }

  lemma StartsNext(k: nat, b: nat)
    ensures multiset(Starts(k + 1, b)) == multiset(Starts(k, b)) + multiset{Times(k, b)}
  {
    assert Starts(k + 1, b) == Starts(k, b) + [Times(k, b)];
  }

  lemma StartsDistinct(k: nat, b: nat)
    requires b > 0
    ensures forall i, j :: 0 <= i < j < k ==> Starts(k, b)[i] != Starts(k, b)[j]
  {
    forall i, j | 0 <= i < j < k
      ensures Starts(k, b)[i] != Starts(k, b)[j]
    {
      TimesApart(i, j, b);
    }
  }
}
