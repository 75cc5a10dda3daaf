/** Go's integer division and remainder, and the Max/Min helpers the multiplier uses.
    Go's `/` truncates toward zero and `%` takes the sign of the dividend, whereas
    Dafny's operators are Euclidean; the two agree when both operands are non-negative. */
module GoInt {

  function Max(a: int, b: int): (m: int)
    ensures m >= a && m >= b && (m == a || m == b)
  {
    if a >= b then a else b
  }

  function Min(a: int, b: int): (m: int)
    ensures m <= a && m <= b && (m == a || m == b)
  {
    if a <= b then a else b
  }

  function Abs(a: int): nat
  {
    if a < 0 then -a else a
  }

  /** Go's `a / b`: the quotient truncated toward zero, whose magnitude is the floor of
      `|a| / |b|` and whose sign is the product of the operands' signs. */
  function Quo(a: int, b: int): (q: int)
    requires b != 0
    ensures Abs(q) == Abs(a) / Abs(b)
    ensures q > 0 ==> (a > 0 <==> b > 0)
    ensures q < 0 ==> (a > 0 <==> b < 0)
  {
    if a >= 0 then a / b else -((-a) / b)
  }

  /** Go's `a % b`: the remainder whose magnitude is `|a| mod |b|` and whose sign
      follows the dividend. */
  function Rem(a: int, b: int): (r: int)
    requires b != 0
    ensures Abs(r) == Abs(a) % Abs(b)
    ensures a >= 0 ==> r >= 0
    ensures a < 0 ==> r <= 0
  {
    if a >= 0 then a % b else -((-a) % b)
  }

  /** The law the Go specification gives relating `/` and `%`, with `|a % b| < |b|`. */
  lemma QuoRem(a: int, b: int)
    requires b != 0
    ensures a == b * Quo(a, b) + Rem(a, b)
    ensures Abs(Rem(a, b)) < Abs(b)
  {
    if a < 0 {
      assert -a == b * ((-a) / b) + (-a) % b;
    }
  }

  /** On non-negative operands Go's and Dafny's operators coincide. */
  lemma QuoRemNonNegative(a: int, b: int)
    requires a >= 0 && b > 0
    ensures Quo(a, b) == a / b >= 0
    ensures Rem(a, b) == a % b
    ensures 0 <= Rem(a, b) < b
  {
  }

  /** A non-negative dividend below the divisor is its own remainder. */
  lemma RemSmall(a: int, b: int)
    requires 0 <= a < b
    ensures Rem(a, b) == a
  {
    assert a % b == a;
    assert Rem(a, b) == a % b;
  }
}
