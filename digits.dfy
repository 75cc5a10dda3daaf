/** Little-endian digit vectors: index `i` holds the coefficient of `b^i`. */
module Digits {

  /** Every digit lies in `[0, b)`. */
  ghost predicate DigitsIn(d: seq<int>, b: int)
  {
    forall k :: 0 <= k < |d| ==> 0 <= d[k] < b
  }

  /** No digit is negative. */
  ghost predicate NonNegative(d: seq<int>)
  {
    forall k :: 0 <= k < |d| ==> d[k] >= 0
  }

  ghost function Pow(b: int, n: nat): int
  {
    if n == 0 then 1 else b * Pow(b, n - 1)
  }

  /** The number a digit vector denotes in base `b`: the sum of `d[i] * b^i`. */
  ghost function Val(d: seq<int>, b: int): int
  {
    if |d| == 0 then 0 else d[0] + b * Val(d[1..], b)
  }

  lemma {:induction false} PowPositive(b: int, n: nat)
    requires b >= 1
    ensures Pow(b, n) >= 1
  {
    if n > 0 {
      PowPositive(b, n - 1);
      assert b * Pow(b, n - 1) >= Pow(b, n - 1);
    }
  }

  lemma {:induction false} PowAdd(b: int, m: nat, n: nat)
    ensures Pow(b, m + n) == Pow(b, m) * Pow(b, n)
  {
    if n > 0 {
      PowAdd(b, m, n - 1);
      calc {
        Pow(b, m + n);
        b * Pow(b, m + n - 1);
        b * (Pow(b, m) * Pow(b, n - 1));
        Pow(b, m) * (b * Pow(b, n - 1));
      }
    }
  }

  /** Appending a digit at the most significant end adds `v * b^|s|`. */
  lemma {:induction false} ValAppend(s: seq<int>, v: int, b: int)
    ensures Val(s + [v], b) == Val(s, b) + v * Pow(b, |s|)
  {
    if |s| == 0 {
      assert s + [v] == [v];
      assert [v][1..] == [];
    } else {
      assert (s + [v])[1..] == s[1..] + [v];
      ValAppend(s[1..], v, b);
      var w, pw := Val(s[1..], b), Pow(b, |s| - 1);
      assert Val(s + [v], b) == s[0] + b * (w + v * pw);
      assert b * (w + v * pw) == b * w + v * (b * pw);
    }
  }

  /** The value of a prefix grows by one digit at a time. */
  lemma ValPrefix(d: seq<int>, i: nat, b: int)
    requires i < |d|
    ensures Val(d[..i + 1], b) == Val(d[..i], b) + d[i] * Pow(b, i)
  {
    assert d[..i + 1] == d[..i] + [d[i]];
    ValAppend(d[..i], d[i], b);
  }

  /** Multiplying by a non-negative factor preserves `<=`. */
  lemma MulMonotone(a: int, x: int, y: int)
    requires a >= 0 && x <= y
    ensures a * x <= a * y
  {
    assert a * y - a * x == a * (y - x);
  }

  /** A vector of `n` digits in `[0, b)` denotes a number in `[0, b^n)`. */
  lemma {:induction false} ValBound(d: seq<int>, b: int)
    requires DigitsIn(d, b)
    ensures 0 <= Val(d, b) < Pow(b, |d|)
  {
    if |d| > 0 {
      assert DigitsIn(d[1..], b);
      ValBound(d[1..], b);
      var v := Val(d[1..], b);
      var p := Pow(b, |d| - 1);
      assert 0 <= d[0] < b;
      assert Val(d, b) == d[0] + b * v;
      assert Pow(b, |d|) == b * p;
      DigitBound(d[0], b, v, p);
    }
  }

  /** One more digit below the base: `0 <= r + b * v < b * p` for `0 <= r < b`, `0 <= v < p`. */
  lemma DigitBound(r: int, b: int, v: int, p: int)
    requires 0 <= r < b && 0 <= v < p
    ensures 0 <= r + b * v < b * p
  {
    MulMonotone(b, 0, v);
    MulMonotone(b, v, p - 1);
    assert b * (p - 1) == b * p - b;
  }

  /** A vector whose most significant digit is non-zero denotes at least `b^(n-1)`. */
  lemma {:induction false} ValTopNonZero(d: seq<int>, b: int)
    requires DigitsIn(d, b) && |d| > 0 && d[|d| - 1] != 0
    ensures Val(d, b) >= Pow(b, |d| - 1) >= 1
  {
    PowPositive(b, |d| - 1);
    if |d| > 1 {
      ValTopNonZero(d[1..], b);
      assert 0 <= d[0] && b >= 1;
      MulMonotone(b, Pow(b, |d| - 2), Val(d[1..], b));
    }
  }

  /** Division by the base recovers the lowest digit and the rest. */
  lemma DigitSplit(r1: int, q1: int, r2: int, q2: int, b: int)
    requires 0 <= r1 < b && 0 <= r2 < b
    requires r1 + b * q1 == r2 + b * q2
    ensures r1 == r2 && q1 == q2
  {
    assert b * (q1 - q2) == r2 - r1;
    if q1 > q2 {
      MulMonotone(b, 1, q1 - q2);
    } else if q2 > q1 {
      MulMonotone(b, 1, q2 - q1);
    }
  }

  /** The representation is unique: equal-length digit vectors with the same value are equal. */
  lemma {:induction false} ValInjective(d1: seq<int>, d2: seq<int>, b: int)
    requires |d1| == |d2| && DigitsIn(d1, b) && DigitsIn(d2, b)
    requires Val(d1, b) == Val(d2, b)
    ensures d1 == d2
  {
    if |d1| > 0 {
      DigitSplit(d1[0], Val(d1[1..], b), d2[0], Val(d2[1..], b), b);
      ValInjective(d1[1..], d2[1..], b);
      assert d1 == [d1[0]] + d1[1..];
      assert d2 == [d2[0]] + d2[1..];
    }
  }
}
