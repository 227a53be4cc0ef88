/** Multiplication and division facts shared by the other modules. */
module Arithmetic {

  const TWO_TO_THE_32: nat := 0x1_0000_0000
  const TWO_TO_THE_64: nat := 0x1_0000_0000_0000_0000

  function Min(x: nat, y: nat): nat {
    if x < y then x else y
  }

  lemma MulMono(a: int, b: int, d: nat)
    ensures a <= b ==> a * d <= b * d
  {
  }

  lemma MulLess(a: int, b: int, d: nat)
    ensures a < b ==> a * d + d <= b * d
  {
    MulMono(a + 1, b, d);
    assert (a + 1) * d == a * d + d;
  }

  /** Quotient and remainder are determined by the remainder's range. */
  lemma DivUnique(x: int, q: int, r: nat, n: nat)
    requires r < n && x == q * n + r
    ensures x / n == q && x % n == r
  {
    assert x == (x / n) * n + x % n;
    MulLess(x / n, q, n);
    MulLess(q, x / n, n);
  }

  /** A whole turn changes no remainder. */
  lemma AddModulus(x: nat, n: nat)
    requires n > 0
    ensures (x + n) % n == x % n
  {
    assert x == (x / n) * n + x % n;
    assert x + n == (x / n + 1) * n + x % n;
    DivUnique(x + n, x / n + 1, x % n, n);
  }

  function CeilDiv(x: nat, y: nat): nat
    requires y > 0
  {
    (x + y - 1) / y
  }

  lemma CeilDivIs(x: nat, y: nat, n: nat)
    requires y > 0 && n > 0
    ensures (n - 1) * y < x <= n * y ==> n == CeilDiv(x, y)
    ensures x > 0 && n == CeilDiv(x, y) ==> (n - 1) * y < x <= n * y
  {
    var q, r := (x + y - 1) / y, (x + y - 1) % y;
    assert x + y - 1 == q * y + r && 0 <= r < y;
    assert (n - 1) * y == n * y - y;
    if (n - 1) * y < x <= n * y {
      DivUnique(x + y - 1, n, x + y - 1 - n * y, y);
    }
  }

  lemma CeilDivPositive(x: nat, y: nat)
    requires x > 0 && y > 0
    ensures CeilDiv(x, y) > 0
  {
    DivUnique(y, 1, 0, y);
    assert (x + y - 1) / y >= y / y;
  }
}
