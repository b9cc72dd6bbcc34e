/** Whole division. */
module Division {

  lemma DivisionBounds(a: int, n: int)
    requires a >= 0 && n > 0
    ensures a / n >= 0 && 0 <= a % n < n && a == a / n * n + a % n
  {
  }

  lemma AtLeastOnce(d: int, n: int)
    requires d >= 1 && n > 0
    ensures d * n >= n
  {
  }

  lemma DivisionUnique(a: int, n: int, q: int, r: int)
    requires n > 0 && 0 <= r < n && a == q * n + r
    ensures a / n == q && a % n == r
  {
    var q', r' := a / n, a % n;
    assert a == q' * n + r' && 0 <= r' < n;
    var d := q' - q;
    assert d * n == r - r' by {
      assert d * n == q' * n - q * n;
    }
    if d >= 1 {
      AtLeastOnce(d, n);
    } else if d <= -1 {
      AtLeastOnce(-d, n);
    }
  }

  // ---- division as Go does it ----

  /** The quotient, cut off toward zero. */
  function Quo(a: int, n: int): int
    requires n > 0
  {
    if a >= 0 then a / n else -(-a / n)
  }

  /** The remainder, which has the sign of a. */
  function Rem(a: int, n: int): int
    requires n > 0
  {
    a - Quo(a, n) * n
  }

  lemma QuoRem(a: int, n: int)
    requires n > 0
    ensures -n < Rem(a, n) < n && (a >= 0 ==> Rem(a, n) >= 0) && (a <= 0 ==> Rem(a, n) <= 0)
    ensures a >= 0 ==> Quo(a, n) == a / n && Rem(a, n) == a % n
    ensures a < 0 ==> (Rem(a, n) == 0 <==> a % n == 0)
    ensures a % n == 0 ==> Quo(a, n) == a / n
  {
    if a >= 0 {
      DivisionBounds(a, n);
    } else {
      var q, r := -a / n, -a % n;
      DivisionBounds(-a, n);
      assert (-q) * n == -(q * n) && (-q - 1) * n == -(q * n) - n;
      if r == 0 { DivisionUnique(a, n, -q, 0); } else { DivisionUnique(a, n, -q - 1, n - r); }
    }
  }
}
