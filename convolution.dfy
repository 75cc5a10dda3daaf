/** The product of two digit vectors as a convolution: the coefficient of `b^i` in
    `Val(x) * Val(y)` is the sum of `x[i-j] * y[j]` over every valid index pair.
    This is the identity the schoolbook multiplier relies on. */
module Convolution {
  import opened Digits
  import opened GoInt

  /** The digit at index `a`, or 0 outside the vector. */
  ghost function Pad(d: seq<int>, a: int): int
  {
    if 0 <= a < |d| then d[a] else 0
  }

  /** One pairwise product on diagonal `i`. */
  ghost function Term(x: seq<int>, y: seq<int>, i: int, j: int): int
  {
    Pad(x, i - j) * Pad(y, j)
  }

  /** Inside both vectors a term is the product of the two digits; with digits in
      `[0, b)` it is non-negative. */
  lemma TermAt(x: seq<int>, y: seq<int>, i: int, j: int)
    requires 0 <= i - j < |x| && 0 <= j < |y|
    ensures Term(x, y, i, j) == x[i - j] * y[j]
    ensures x[i - j] >= 0 && y[j] >= 0 ==> Term(x, y, i, j) >= 0
  {
  }

  /** The sum of `Term(x, y, i, j)` for `lo <= j < hi`. */
  ghost function ConvSum(x: seq<int>, y: seq<int>, i: int, lo: int, hi: int): int
    decreases hi - lo
  {
    if hi <= lo then 0 else ConvSum(x, y, i, lo, hi - 1) + Term(x, y, i, hi - 1)
  }

  /** The coefficient of `b^i` in the product polynomial. */
  ghost function Coef(x: seq<int>, y: seq<int>, i: nat): int
  {
    ConvSum(x, y, i, 0, i + 1)
  }

  /** The sum of `Coef(x, y, k) * b^k` for `k < n`. */
  ghost function DiagVal(x: seq<int>, y: seq<int>, b: int, n: nat): int
  {
    if n == 0 then 0 else DiagVal(x, y, b, n - 1) + Coef(x, y, n - 1) * Pow(b, n - 1)
  }

  /** The value of the lowest `k` positions of `d`, reading zeros past its end. */
  ghost function PadVal(d: seq<int>, b: int, k: int): int
    decreases k
  {
    if k <= 0 then 0 else PadVal(d, b, k - 1) + Pad(d, k - 1) * Pow(b, k - 1)
  }

  /** The sum of `y[j] * b^j * PadVal(x, b, n - j)` for `j < m`: the first `m` rows
      of the product, each row truncated to the positions below `n`. */
  ghost function Row(x: seq<int>, y: seq<int>, b: int, n: int, m: nat): int
  {
    if m == 0 then 0
    else Row(x, y, b, n, m - 1) + Pad(y, m - 1) * Pow(b, m - 1) * PadVal(x, b, n - (m - 1))
  }

  lemma {:induction false} PadValPrefix(d: seq<int>, b: int, k: nat)
    requires k <= |d|
    ensures PadVal(d, b, k) == Val(d[..k], b)
  {
    if k == 0 {
      assert d[..0] == [];
    } else {
      PadValPrefix(d, b, k - 1);
      ValPrefix(d, k - 1, b);
    }
  }

  lemma {:induction false} PadValFull(d: seq<int>, b: int, k: int)
    requires k >= |d|
    ensures PadVal(d, b, k) == Val(d, b)
    decreases k
  {
    if k == |d| {
      PadValPrefix(d, b, k);
      assert d[..k] == d;
    } else {
      PadValFull(d, b, k - 1);
    }
  }

  lemma ConvSumSplit(x: seq<int>, y: seq<int>, i: int, lo: int, mid: int, hi: int)
    requires lo <= mid <= hi
    ensures ConvSum(x, y, i, lo, hi) == ConvSum(x, y, i, lo, mid) + ConvSum(x, y, i, mid, hi)
    decreases hi - mid
  {
    if hi > mid {
      ConvSumSplit(x, y, i, lo, mid, hi - 1);
    }
  }

  /** Pairs with `i - j >= |x|` contribute nothing. */
  lemma ConvSumBelow(x: seq<int>, y: seq<int>, i: int, lo: int, hi: int)
    requires hi <= i - |x| + 1
    ensures ConvSum(x, y, i, lo, hi) == 0
    decreases hi - lo
  {
    if hi > lo {
      ConvSumBelow(x, y, i, lo, hi - 1);
    }
  }

  /** Pairs with `j >= |y|` contribute nothing. */
  lemma ConvSumAbove(x: seq<int>, y: seq<int>, i: int, lo: int, hi: int)
    requires lo >= |y|
    ensures ConvSum(x, y, i, lo, hi) == 0
    decreases hi - lo
  {
    if hi > lo {
      ConvSumAbove(x, y, i, lo, hi - 1);
    }
  }

  /** Summing only over the valid index pairs, as the multiplier's inner loop does
      with `jMin = Max(0, i-p+1)` and `jMax = Min(i, q-1)`, gives the full coefficient. */
  lemma ConvSumClamp(x: seq<int>, y: seq<int>, i: nat)
    ensures ConvSum(x, y, i, Max(0, i - |x| + 1), Min(i, |y| - 1) + 1) == Coef(x, y, i)
  {
    var lo, hi := Max(0, i - |x| + 1), Min(i, |y| - 1) + 1;
    if hi < i + 1 {
      ConvSumAbove(x, y, i, hi, i + 1);
    }
    if lo <= hi {
      ConvSumSplit(x, y, i, 0, lo, i + 1);
      ConvSumSplit(x, y, i, lo, hi, i + 1);
      if lo > 0 {
        ConvSumBelow(x, y, i, 0, lo);
      }
    } else {
      ConvSumSplit(x, y, i, 0, hi, i + 1);
      ConvSumBelow(x, y, i, 0, hi);
    }
  }

  /** The ring identity behind one step of RowStep, over plain integers. */
  lemma RowStepAlgebra(yj: int, pj: int, v0: int, xa: int, pa: int, pn: int, c: int)
    requires pj * pa == pn
    ensures yj * pj * (v0 + xa * pa) + pn * c == yj * pj * v0 + pn * (c + xa * yj)
  {
    calc {
      yj * pj * (v0 + xa * pa) + pn * c;
      yj * pj * v0 + (xa * yj) * (pj * pa) + pn * c;
      yj * pj * v0 + pn * (xa * yj) + pn * c;
    }
  }

  /** Extending the truncation bound from `n` to `n + 1` adds diagonal `n`. */
  lemma {:induction false} RowStep(x: seq<int>, y: seq<int>, b: int, n: nat, m: nat)
    requires m <= n + 1
    ensures Row(x, y, b, n + 1, m) == Row(x, y, b, n, m) + Pow(b, n) * ConvSum(x, y, n, 0, m)
  {
    if m > 0 {
      RowStep(x, y, b, n, m - 1);
      var j := m - 1;
      var yj, xa := Pad(y, j), Pad(x, n - j);
      var pj, pa, pn := Pow(b, j), Pow(b, n - j), Pow(b, n);
      var v0, v1 := PadVal(x, b, n - j), PadVal(x, b, n + 1 - j);
      var c := ConvSum(x, y, n, 0, j);
      PowAdd(b, j, n - j);
      assert v1 == v0 + xa * pa;
      assert Row(x, y, b, n + 1, m) == Row(x, y, b, n + 1, j) + yj * pj * v1;
      assert Row(x, y, b, n, m) == Row(x, y, b, n, j) + yj * pj * v0;
      assert ConvSum(x, y, n, 0, m) == c + xa * yj;
      RowStepAlgebra(yj, pj, v0, xa, pa, pn, c);
    }
  }

  /** Summing by diagonals equals summing by rows. */
  lemma {:induction false} DiagIsRow(x: seq<int>, y: seq<int>, b: int, n: nat)
    ensures DiagVal(x, y, b, n) == Row(x, y, b, n, n)
  {
    if n > 0 {
      DiagIsRow(x, y, b, n - 1);
      RowStep(x, y, b, n - 1, n - 1);
      var yl, x0, p := Pad(y, n - 1), Pad(x, 0), Pow(b, n - 1);
      var c := ConvSum(x, y, n - 1, 0, n - 1);
      assert PadVal(x, b, 1) == x0 * 1;
      assert Row(x, y, b, n, n) == Row(x, y, b, n, n - 1) + yl * p * (0 + x0 * 1);
      assert Coef(x, y, n - 1) == c + x0 * yl;
      RowStepAlgebra(yl, p, 0, x0, 1, p, c);
      assert DiagVal(x, y, b, n) == DiagVal(x, y, b, n - 1) + Coef(x, y, n - 1) * Pow(b, n - 1);
    }
  }

  /** The ring identity behind one step of RowIsProduct, over plain integers. */
  lemma RowProductAlgebra(r0: int, vx: int, v0: int, yj: int, pj: int, w: int)
    requires r0 == vx * v0 && (yj == 0 || w == vx)
    ensures r0 + yj * pj * w == vx * (v0 + yj * pj)
  {
    if yj == 0 {
      assert yj * pj * w == 0 && yj * pj == 0;
    } else {
      assert yj * pj * w == vx * (yj * pj);
    }
  }

  /** Once every row is complete (`n + 1 >= |x| + |y|`), row `j` is `y[j] * b^j * Val(x)`. */
  lemma {:induction false} RowIsProduct(x: seq<int>, y: seq<int>, b: int, n: int, m: nat)
    requires n + 1 >= |x| + |y|
    ensures Row(x, y, b, n, m) == Val(x, b) * PadVal(y, b, m)
  {
    if m > 0 {
      RowIsProduct(x, y, b, n, m - 1);
      var j := m - 1;
      var vx, yj, pj := Val(x, b), Pad(y, j), Pow(b, j);
      var w := PadVal(x, b, n - j);
      if j < |y| {
        PadValFull(x, b, n - j);
        assert w == vx;
      } else {
        assert yj == 0;
      }
      assert Row(x, y, b, n, m) == Row(x, y, b, n, j) + yj * pj * w;
      assert PadVal(y, b, m) == PadVal(y, b, j) + yj * pj;
      RowProductAlgebra(Row(x, y, b, n, j), vx, PadVal(y, b, j), yj, pj, w);
    }
  }

  /** Polynomial multiplication: the diagonal sums weighted by `b^i` give the product. */
  lemma DiagValIsProduct(x: seq<int>, y: seq<int>, b: int, n: nat)
    requires n + 1 >= |x| + |y|
    ensures DiagVal(x, y, b, n) == Val(x, b) * Val(y, b)
  {
    DiagIsRow(x, y, b, n);
    RowIsProduct(x, y, b, n, n);
    if n >= |y| {
      PadValFull(y, b, n);
    } else {
      assert |x| == 0;
    }
  }
}
