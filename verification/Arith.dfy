/** Products, multiples and quotients by repeated addition, so that reasoning about
    them stays linear; and their agreement with `*`, `/` and `%`. */
module Arith {
  function Max(a: int, b: int): int { if a > b then a else b }

  function Min(a: int, b: int): int { if a < b then a else b }

  /** n times x. */
  function Times(n: nat, x: nat): nat
  {
    if n == 0 then 0 else Times(n - 1, x) + x
  }

  lemma {:induction false} TimesIsProduct(n: nat, x: nat)
    ensures Times(n, x) == n * x
  {
    if n > 0 {
      TimesIsProduct(n - 1, x);
      assert n * x == (n - 1) * x + x;
    }
  }

  /** The program's `n * x`. */
  method Product(n: nat, x: nat) returns (r: nat)
    ensures r == Times(n, x)
  {
    TimesIsProduct(n, x);
    r := n * x;
  }

  lemma TimesNext(n: nat, x: nat)
    ensures Times(n + 1, x) == Times(n, x) + x
  {
  }

  lemma {:induction false} TimesApart(m: nat, n: nat, x: nat)
    requires m < n
    ensures Times(m, x) + x <= Times(n, x)
  {
    if m < n - 1 {
      TimesApart(m, n - 1, x);
    }
  }

  lemma {:induction false} TimesAdds(n: nat, x: nat, y: nat)
    ensures Times(n, x + y) == Times(n, x) + Times(n, y)
  {
    if n > 0 {
      TimesAdds(n - 1, x, y);
    }
  }

  lemma {:induction false} TimesZero(n: nat)
    ensures Times(n, 0) == 0
  {
    if n > 0 {
      TimesZero(n - 1);
    }
  }

  /** `x` is a multiple of `a`; zero and one divide everything. */
  predicate Multiple(x: nat, a: nat)
  {
    a <= 1 || x == 0 || (x >= a && Multiple(x - a, a))
  }

  /** A nonzero multiple of n is at least n away from zero. */
  lemma MultipleGap(d: int, n: int)
    requires n > 0
    ensures d >= 1 ==> d * n >= n
    ensures d <= -1 ==> d * n <= -n
  {
  }

  lemma Distribute(p: int, q: int, n: int)
    ensures (p - q) * n == p * n - q * n
  {
  }

  lemma DivMod(x: int, n: int)
    requires n > 0
    ensures x == (x / n) * n + x % n && 0 <= x % n < n
  {
  }

  /** Quotient and remainder are determined by their defining equation. */
  lemma ModUnique(x: int, n: int, q: int, r: int)
    requires n > 0 && 0 <= r < n && x == q * n + r
    ensures x / n == q && x % n == r
  {
    DivMod(x, n);
    Distribute(x / n, q, n);
    MultipleGap(x / n - q, n);
  }

  lemma ModStep(x: nat, a: nat)
    requires x >= a > 0
    ensures x % a == (x - a) % a
  {
    assert x == ((x - a) / a + 1) * a + (x - a) % a by {
      assert ((x - a) / a + 1) * a == ((x - a) / a) * a + a;
    }
    ModUnique(x, a, (x - a) / a + 1, (x - a) % a);
  }

  lemma {:induction false} MultipleIsMod(x: nat, a: nat)
    requires a > 0
    ensures Multiple(x, a) <==> x % a == 0
  {
    if a > 1 && x >= a {
      MultipleIsMod(x - a, a);
      ModStep(x, a);
    }
  }

  lemma {:induction false} MultipleAdds(x: nat, y: nat, a: nat)
    requires Multiple(x, a) && Multiple(y, a)
    ensures Multiple(x + y, a)
  {
    if a > 1 && x > 0 {
      MultipleAdds(x - a, y, a);
    }
  }

  lemma {:induction false} TimesIsMultiple(n: nat, x: nat, a: nat)
    requires Multiple(x, a)
    ensures Multiple(Times(n, x), a)
  {
    if n > 0 {
      TimesIsMultiple(n - 1, x, a);
      MultipleAdds(Times(n - 1, x), x, a);
    }
  }

  lemma {:induction false} MultipleTransits(x: nat, a: nat, b: nat)
    requires a > 0 && Multiple(x, a) && Multiple(a, b)
    ensures a > 1 ==> Multiple(x, b)
  {
    if a > 1 && x > 0 {
      MultipleTransits(x - a, a, b);
      MultipleAdds(x - a, a, b);
    }
  }

  /** Multiples of `a` that are less than `a` apart are equal. */
  lemma {:induction false} MultiplesApart(x: nat, y: nat, a: nat)
    requires a > 1 && Multiple(x, a) && Multiple(y, a) && x < y
    ensures x + a <= y
  {
    if x > 0 {
      MultiplesApart(x - a, y - a, a);
    }
  }

  /** The quotient, as the number of times n fits. */
  lemma QuotientTimes(x: nat, n: nat)
    requires n > 0
    ensures Times(x / n, n) <= x < Times(x / n, n) + n && x == Times(x / n, n) + x % n
  {
    DivMod(x, n);
    TimesIsProduct(x / n, n);
  }

  /** x divided by n, by repeated subtraction. */
  function Quot(x: nat, n: nat): nat
    requires n > 0
  {
    if x < n then 0 else 1 + Quot(x - n, n)
  }

  function Rem(x: nat, n: nat): (r: nat)
    requires n > 0
    ensures r < n
  {
    if x < n then x else Rem(x - n, n)
  }

  lemma {:induction false} QuotRemIs(x: nat, n: nat)
    requires n > 0
    ensures x == Times(Quot(x, n), n) + Rem(x, n)
  {
    if x >= n {
      QuotRemIs(x - n, n);
    }
  }

  /** The program's `x / n` and `x % n`. */
  method QuotRem(x: nat, n: nat) returns (q: nat, r: nat)
    requires n > 0
    ensures q == Quot(x, n) && r == Rem(x, n)
  {
    q, r := x / n, x % n;
    QuotRemIs(x, n);
    TimesIsProduct(Quot(x, n), n);
    ModUnique(x, n, Quot(x, n), Rem(x, n));
  }

  lemma {:induction false} QuotBelow(x: nat, m: nat, n: nat)
    requires n > 0 && x < Times(m, n)
    ensures Quot(x, n) < m
  {
    if x >= n {
      QuotBelow(x - n, m - 1, n);
    }
  }

  lemma {:induction false} TimesMonotone(n: nat, x: nat, y: nat)
    requires x <= y
    ensures Times(n, x) <= Times(n, y)
  {
    if n > 0 {
      TimesMonotone(n - 1, x, y);
    }
  }

  /** The slot of logical index `i` in a ring. */
  function Slot(i: nat, size: nat): (k: nat)
    requires size > 0
    ensures k < size
  {
    i % size
  }

  /** Indices less than the size apart never share a slot. */
  lemma SlotsDiffer(x: nat, y: nat, size: nat)
    requires x != y && x < y + size && y < x + size
    ensures Slot(x, size) != Slot(y, size)
  {
    DivMod(x, size);
    DivMod(y, size);
    Distribute(x / size, y / size, size);
    MultipleGap(x / size - y / size, size);
  }
}
