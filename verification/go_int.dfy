/**
  Go's integer semantics where they differ from Dafny's.

  Dafny's `/` and `%` on `int` are Euclidean; Go's truncate toward zero and the
  remainder takes the sign of the dividend (Go specification, "Arithmetic
  operators"). Both panic on a zero divisor, which the model turns into a
  precondition.
*/
module GoInt {
  /** Go's `byte` (`uint8`). */
  newtype byte = b: int | 0 <= b < 256

  function Abs(x: int): nat {
    if x < 0 then -x else x
  }

  /** Go's `a / b`: the quotient truncated toward zero. */
  function Quo(a: int, b: int): (q: int)
    requires b != 0
    ensures 0 <= a && 0 < b ==> q == a / b
    ensures Abs(q) * Abs(b) <= Abs(a) < (Abs(q) + 1) * Abs(b)
    ensures q != 0 ==> (q < 0 <==> (a < 0) != (b < 0))
  {
    var m := Abs(a) / Abs(b);
    DivBracket(Abs(a), Abs(b));
    if (a < 0) == (b < 0) then m else -m
  }

  /** Euclidean division of naturals brackets the dividend. */
  lemma DivBracket(x: nat, n: nat)
    requires 0 < n
    ensures (x / n) * n <= x < (x / n + 1) * n
  {
    var q := x / n;
    assert x == q * n + x % n;
    assert (q + 1) * n == q * n + n;
  }

  /** Go's `a % b`: `a == Quo(a, b) * b + r`, `|r| < |b|`, and `r` has the sign of `a`. */
  function Rem(a: int, b: int): (r: int)
    requires b != 0
    ensures a == Quo(a, b) * b + r
    ensures Abs(r) < Abs(b)
    ensures r != 0 ==> (r < 0 <==> a < 0)
    ensures 0 <= a && 0 < b ==> r == a % b
  {
    a - Quo(a, b) * b
  }

  lemma MulAtLeast(k: int, n: int)
    requires 0 < n && 1 <= k
    ensures n <= n * k
  {}

  /** Scaling by a non-negative factor keeps the order. */
  lemma MulMonotone(n: int, a: int, b: int)
    requires 0 <= n && a <= b
    ensures n * a <= n * b
  {
    assert n * b - n * a == n * (b - a);
  }

  /** Euclidean division by `n` is determined by the bracket `n*a <= x < n*a + n`. */
  lemma DivModUnique(x: int, n: int, a: int)
    requires 0 < n && n * a <= x < n * a + n
    ensures x / n == a && x % n == x - n * a
  {
    var k := x / n - a;
    assert n * k == x - x % n - n * a;
    if k >= 1 {
      MulAtLeast(k, n);
    } else if k <= -1 {
      MulAtLeast(-k, n);
    }
  }
}
