/** The bit-mask arithmetic of the ring index (`i & mask`) and of `alignUp`
    (`x &^ (align - 1)`), on natural numbers. */
module Bits {
  import opened Arith

  /** Two to the power `k`. */
  function Pow2(k: nat): (p: nat)
    ensures p > 0
  {
    if k == 0 then 1 else 2 * Pow2(k - 1)
  }

  /** The bitwise `a & b`. */
  function And(a: nat, b: nat): (r: nat)
    ensures r <= a && r <= b
  {
    if a == 0 || b == 0 then 0
    else 2 * And(a / 2, b / 2) + (if a % 2 == 1 && b % 2 == 1 then 1 else 0)
  }

  /** The bitwise `a &^ b` (and-not). */
  function AndNot(a: nat, b: nat): nat
  {
    if a == 0 then 0
    else 2 * AndNot(a / 2, b / 2) + (if a % 2 == 1 && b % 2 == 0 then 1 else 0)
  }

  lemma Doubles(q: int, h: int)
    ensures q * (2 * h) == 2 * (q * h)
  {
  }

  lemma HalfMod(a: nat, h: nat)
    requires h > 0
    ensures a % (2 * h) == 2 * ((a / 2) % h) + a % 2
  {
    var q, r := (a / 2) / h, (a / 2) % h;
    DivMod(a / 2, h);
    Doubles(q, h);
    ModUnique(a, 2 * h, q, 2 * r + a % 2);
  }

  /** Masking with a power of two less one is the remainder. */
  lemma {:induction false} MaskIsMod(a: nat, k: nat)
    ensures And(a, Pow2(k) - 1) == a % Pow2(k)
  {
    if k == 0 {
    } else if a == 0 {
    } else {
      var h := Pow2(k - 1);
      MaskIsMod(a / 2, k - 1);
      assert (Pow2(k) - 1) / 2 == h - 1;
      HalfMod(a, h);
    }
  }

  /** `&` and `&^` split a number into two parts. */
  lemma {:induction false} AndNotSplits(a: nat, b: nat)
    ensures AndNot(a, b) + And(a, b) == a
  {
    if a == 0 {
    } else if b == 0 {
      AndNotSplits(a / 2, 0);
    } else {
      AndNotSplits(a / 2, b / 2);
    }
  }

  /** A larger power of two is a multiple of a smaller one. */
  lemma {:induction false} Pow2Divides(j: nat, k: nat)
    requires j <= k
    ensures Multiple(Pow2(k), Pow2(j))
  {
    if j == k {
      assert Multiple(Pow2(k) - Pow2(k), Pow2(k));
    } else {
      Pow2Divides(j, k - 1);
      MultipleAdds(Pow2(k - 1), Pow2(k - 1), Pow2(j));
    }
  }

  lemma {:induction false} Pow2Monotone(j: nat, k: nat)
    requires j <= k
    ensures Pow2(j) <= Pow2(k)
  {
    if j < k {
      Pow2Monotone(j, k - 1);
    }
  }
}
