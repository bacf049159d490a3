/** Go's 64-bit `int`: sums wrap, and division truncates toward zero. */
module Int64 {
  const MAX := 0x7FFF_FFFF_FFFF_FFFF
  /** No slice of items that take up memory is longer than this. */
  const MAX_LEN := 0x1_0000_0000_0000

  predicate IsInt(x: int) { -MAX - 1 <= x <= MAX }

  function Wrap(x: int): (w: int)
    ensures IsInt(w)
  {
    (x + (MAX + 1)) % (2 * MAX + 2) - (MAX + 1)
  }

  lemma WrapFits(x: int)
    ensures IsInt(x) ==> Wrap(x) == x
    ensures MAX < x <= 2 * MAX + 1 ==> Wrap(x) < 0
  {
  }

  /** Only the final sum matters, however often it wraps on the way. */
  lemma WrapAdds(x: int, y: int)
    ensures Wrap(Wrap(x) + y) == Wrap(x + y)
  {
    var z := x + (MAX + 1);
    var q := z / (2 * MAX + 2);
    assert Wrap(x) == x - q * (2 * MAX + 2);
  }

  function Quo(x: int, y: nat): int
    requires y > 0
  {
    if x >= 0 then x / y else -(-x / y)
  }

  lemma QuoSign(x: int, y: nat)
    requires y > 0
    ensures x <= 0 ==> Quo(x, y) <= 0
  {
  }
}
