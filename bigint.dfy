/** The `BigInt` value type of main.go and its multiplier. */
module BigInts {
  import opened GoInt
  import opened Digits
  import opened Convolution
  import opened Decimal
  import opened Text

  /** A number as a little-endian digit vector `d` in base `b`. */
  datatype BigInt = BigInt(d: seq<int>, b: int)

  datatype Error =
    | MismatchedBase(xb: int, yb: int)
    | InvalidBase(base: int)
    | InvalidDigit(ch: char)

  datatype Result<T> = Ok(value: T) | Err(error: Error)

  /** The digit vector is well formed for its own base. */
  ghost predicate Valid(x: BigInt)
  {
    DigitsIn(x.d, x.b)
  }

  /** One output position: adding diagonal `i` to the carry, storing `r` and carrying
      `q` (with `b * q + r` the new carry) keeps the invariant of the multiplier. */
  lemma {:induction false} DiagonalStep(x: seq<int>, y: seq<int>, b: int, low: seq<int>,
                                        t0: int, q: int, r: int)
    requires Val(low, b) + Pow(b, |low|) * t0 == DiagVal(x, y, b, |low|)
    requires b * q + r == t0 + Coef(x, y, |low|)
    ensures Val(low + [r], b) + Pow(b, |low| + 1) * q == DiagVal(x, y, b, |low| + 1)
  {
    var i := |low|;
    ValAppend(low, r, b);
    StepAlgebra(Val(low, b), Pow(b, i), t0, Coef(x, y, i), b, q, r);
  }

  lemma StepAlgebra(v: int, pw: int, t0: int, c: int, b: int, q: int, r: int)
    requires b * q + r == t0 + c
    ensures v + r * pw + (b * pw) * q == v + pw * t0 + c * pw
  {
    calc {
      v + r * pw + (b * pw) * q;
      v + pw * (b * q + r);
      v + pw * (t0 + c);
    }
  }

  /** `a * c < A * C` for `0 <= a < A` and `0 <= c < C`. */
  lemma MulStrict(a: int, bigA: int, c: int, bigC: int)
    requires 0 <= a < bigA && 0 <= c < bigC
    ensures a * c < bigA * bigC
  {
    MulMonotone(a, c, bigC);
    MulMonotone(bigC, a, bigA - 1);
    assert bigC * (bigA - 1) == bigA * bigC - bigC;
  }

  /** The carry bound over plain integers: `lv + pw * t == vx * vy < px * py == b * pw`. */
  lemma CarryBound(lv: int, pw: int, t: int, b: int, vx: int, vy: int, px: int, py: int, v: int)
    requires 0 <= lv && pw >= 1 && t >= 0
    requires 0 <= vx < px && 0 <= vy < py
    requires px * py == b * pw
    requires lv + pw * t == vx * vy
    requires v == lv + t * pw
    ensures t < b && v == vx * vy
  {
    MulStrict(vx, px, vy, py);
    if t >= b {
      MulMonotone(pw, b, t);
    }
  }

  /** After the last diagonal the carry fits in one digit, so storing it as the top digit
      loses nothing: the value is a product of a `p`-digit and a `q`-digit number and is
      therefore below `b^(p+q)`. */
  lemma {:induction false} LastCarry(x: seq<int>, y: seq<int>, b: int, low: seq<int>, t: int)
    requires |x| + |y| >= 1 && |low| == |x| + |y| - 1
    requires DigitsIn(x, b) && DigitsIn(y, b) && DigitsIn(low, b) && t >= 0
    requires Val(low, b) + Pow(b, |low|) * t == DiagVal(x, y, b, |low|)
    ensures t < b
    ensures Val(low + [t], b) == Val(x, b) * Val(y, b)
  {
    var vx, vy, vl, pw := Val(x, b), Val(y, b), Val(low, b), Pow(b, |low|);
    var px, py := Pow(b, |x|), Pow(b, |y|);
    assert vl + pw * t == vx * vy by { DiagValIsProduct(x, y, b, |low|); }
    assert Val(low + [t], b) == vl + t * pw by { ValAppend(low, t, b); }
    assert b >= 1 by {
      if |x| > 0 { assert 0 <= x[0] < b; } else { assert 0 <= y[0] < b; }
    }
    assert 0 <= vx < px by { ValBound(x, b); }
    assert 0 <= vy < py by { ValBound(y, b); }
    assert 0 <= vl by { ValBound(low, b); }
    assert px * py == b * pw by { PowAdd(b, |x|, |y|); }
    assert pw >= 1 by { PowPositive(b, |low|); }
    CarryBound(vl, pw, t, b, vx, vy, px, py, Val(low + [t], b));
  }

  /** A positive base and no negative digit in either operand: the case in which every
      digit the multiplier writes lies in `[0, b)`. */
  ghost predicate Unsigned(x: BigInt, y: BigInt)
  {
    x.b > 0 && NonNegative(x.d) && NonNegative(y.d)
  }

  /** Well-formed operands of equal base, not both empty, are `Unsigned`. */
  lemma ValidUnsigned(x: BigInt, y: BigInt)
    requires x.b == y.b && |x.d| + |y.d| >= 1 && Valid(x) && Valid(y)
    ensures Unsigned(x, y)
  {
    if |x.d| > 0 { assert 0 <= x.d[0] < x.b; } else { assert 0 <= y.d[0] < y.b; }
  }

  /** Storing `Rem(t, b)` as the next digit and carrying `Quo(t, b)` keeps the
      invariant of the multiplier. */
  lemma {:induction false} StoreDigit(x: seq<int>, y: seq<int>, b: int, low: seq<int>,
                                      t0: int, t: int)
    requires b != 0
    requires Val(low, b) + Pow(b, |low|) * t0 == DiagVal(x, y, b, |low|)
    requires t == t0 + Coef(x, y, |low|)
    ensures Val(low + [Rem(t, b)], b) + Pow(b, |low| + 1) * Quo(t, b) == DiagVal(x, y, b, |low| + 1)
  {
    QuoRem(t, b);
    DiagonalStep(x, y, b, low, t0, Quo(t, b), Rem(t, b));
  }

  /** For a non-negative carry and a positive base, the stored digit is in `[0, b)` and
      the new carry is non-negative. */
  lemma StoreDigitInRange(low: seq<int>, t: int, b: int)
    requires b > 0 && t >= 0 && DigitsIn(low, b)
    ensures Quo(t, b) >= 0 && DigitsIn(low + [Rem(t, b)], b)
  {
    QuoRemNonNegative(t, b);
  }

  /** Diagonal `i` of the multiplier: adds every product `x.d[i - j] * y.d[j]` to the
      running carry `t`, stores the low digit `(t + Coef) % base` at `prod[i]` and
      returns `(t + Coef) / base` as the new carry; nothing else in `prod` changes. */
  method Diagonal(x: BigInt, y: BigInt, prod: array<int>, i: int, t: int)
    returns (total: int)
    requires x.b != 0 && prod.Length == |x.d| + |y.d| && 0 <= i < prod.Length - 1
    requires Val(prod[..i], x.b) + Pow(x.b, i) * t == DiagVal(x.d, y.d, x.b, i)
    requires Unsigned(x, y) ==> t >= 0 && DigitsIn(prod[..i], x.b)
    modifies prod
    ensures prod[..i] == old(prod[..i]) && prod[i + 1..] == old(prod[i + 1..])
    ensures prod[i] == Rem(t + Coef(x.d, y.d, i), x.b)
    ensures total == Quo(t + Coef(x.d, y.d, i), x.b)
    ensures Val(prod[..i + 1], x.b) + Pow(x.b, i + 1) * total == DiagVal(x.d, y.d, x.b, i + 1)
    ensures Unsigned(x, y) ==> total >= 0 && DigitsIn(prod[..i + 1], x.b)
  {
    var p, q := |x.d|, |y.d|;
    var base := x.b;
    total := t;
    var jMin := Max(0, i - p + 1);
    var jMax := Min(i, q - 1);
    var j := jMin;
    while j <= jMax
      invariant jMin <= j <= Max(jMin, jMax + 1)
      invariant total == t + ConvSum(x.d, y.d, i, jMin, j)
      invariant Unsigned(x, y) ==> total >= 0
    {
      assert x.d[i - j] * y.d[j] == Term(x.d, y.d, i, j) && (Unsigned(x, y) ==> Term(x.d, y.d, i, j) >= 0) by {
        TermAt(x.d, y.d, i, j);
      }
      total := total + x.d[i - j] * y.d[j];
      j := j + 1;
    }
    assert total == t + Coef(x.d, y.d, i) by {
      if jMin > jMax {
        assert j == jMin;
      } else {
        assert j == jMax + 1;
      }
      ConvSumClamp(x.d, y.d, i);
    }
    ghost var low := prod[..i];
    StoreDigit(x.d, y.d, base, low, t, total);
    if Unsigned(x, y) {
      StoreDigitInRange(low, total, base);
    }
    prod[i] := Rem(total, base);
    total := Quo(total, base);
    assert prod[..i + 1] == low + [prod[i]];
  }

  /** `x.Multiply(y)`: schoolbook multiplication by convolution with a single running
      carry `total`, writing each output position once into a buffer of `p + q` digits. */
  method Multiply(x: BigInt, y: BigInt) returns (r: Result<BigInt>)
    requires x.b == y.b ==> x.b != 0 && |x.d| + |y.d| >= 1
    ensures r.Err? <==> x.b != y.b
    ensures r.Err? ==> r.error == MismatchedBase(x.b, y.b)
    ensures r.Ok? ==> |r.value.d| == |x.d| + |y.d| && r.value.b == x.b
    ensures r.Ok? && Unsigned(x, y) ==> Valid(r.value)
    ensures r.Ok? && Valid(x) && Valid(y) ==>
      Valid(r.value) && Val(r.value.d, x.b) == Val(x.d, x.b) * Val(y.d, y.b)
  {
    if x.b != y.b {
      return Err(MismatchedBase(x.b, y.b));
    }
    var total := 0;
    var p, q := |x.d|, |y.d|;
    var base := x.b;
    var prod := new int[p + q](_ => 0);
    var i := 0;
    while i < p + q - 1
      invariant 0 <= i <= p + q - 1
      invariant Val(prod[..i], base) + Pow(base, i) * total == DiagVal(x.d, y.d, base, i)
      invariant Unsigned(x, y) ==> total >= 0 && DigitsIn(prod[..i], base)
    {
      total := Diagonal(x, y, prod, i, total);
      i := i + 1;
    }
    ghost var low, carry := prod[..p + q - 1], total;
    prod[p + q - 1] := Rem(total, base);
    assert prod[..] == low + [prod[p + q - 1]];
    assert Unsigned(x, y) ==> DigitsIn(prod[..], base) by {
      if Unsigned(x, y) {
        StoreDigitInRange(low, carry, base);
      }
    }
    assert Valid(x) && Valid(y) ==> Val(prod[..], base) == Val(x.d, base) * Val(y.d, base) by {
      if Valid(x) && Valid(y) {
        ValidUnsigned(x, y);
        LastCarry(x.d, y.d, base, low, carry);
        RemSmall(carry, base);
      }
    }
    return Ok(BigInt(prod[..], base));
  }

  /** The product does not depend on the order of the operands: two well-formed vectors
      of length `p + q` holding `Val(x) * Val(y)` and `Val(y) * Val(x)` are the same. */
  lemma MultiplyCommutes(x: BigInt, y: BigInt, r1: BigInt, r2: BigInt)
    requires x.b == y.b && Valid(x) && Valid(y)
    requires |r1.d| == |x.d| + |y.d| && r1.b == x.b && Valid(r1)
    requires Val(r1.d, x.b) == Val(x.d, x.b) * Val(y.d, y.b)
    requires |r2.d| == |y.d| + |x.d| && r2.b == y.b && Valid(r2)
    requires Val(r2.d, y.b) == Val(y.d, y.b) * Val(x.d, x.b)
    ensures r1 == r2
  {
    ValInjective(r1.d, r2.d, x.b);
  }

  /** `x.String()`: the digits from the highest index down, one character each, with the
      leading `'0'` characters trimmed. */
  method String(x: BigInt) returns (r: string)
    requires DigitsIn(x.d, 10)
    ensures r == ToText(x.d)
  {
    var s := "";
    var i := |x.d| - 1;
    while i >= 0
      invariant -1 <= i < |x.d|
      invariant s == Render(x.d[i + 1..])
    {
      assert x.d[i..][1..] == x.d[i + 1..];
      s := s + [DigitChar(x.d[i])];
      i := i - 1;
    }
    assert x.d[0..] == x.d;
    r := TrimLeadingZeros(s);
  }

  /** `s[k]` is the first character of `s` that is not a decimal digit. */
  ghost predicate FirstNonDigit(s: string, k: int)
  {
    0 <= k < |s| && !IsDigit(s[k]) && forall m :: 0 <= m < k ==> IsDigit(s[m])
  }

  /** `InitBigInt(s, b)`: rejects a base below 2, then converts each character of `s`
      and stores it at the mirrored index, so that the last character is digit 0.
      The digits are not checked against the base. */
  method InitBigInt(s: string, b: int) returns (r: Result<BigInt>)
    ensures r.Ok? <==> b > 1 && AllDigits(s)
    ensures b <= 1 ==> r == Err(InvalidBase(b))
    ensures b > 1 && !AllDigits(s) ==>
      exists k :: FirstNonDigit(s, k) && r == Err(InvalidDigit(s[k]))
    ensures r.Ok? ==> r.value.b == b && Reverses(r.value.d, s)
  {
    if b <= 1 {
      return Err(InvalidBase(b));
    }
    var a := new int[|s|](_ => 0);
    var i := 0;
    while i < a.Length
      invariant 0 <= i <= |s|
      invariant forall m :: 0 <= m < i ==> IsDigit(s[m]) && a[|s| - 1 - m] == CharValue(s[m])
    {
      if !IsDigit(s[i]) {
        assert FirstNonDigit(s, i);
        return Err(InvalidDigit(s[i]));
      }
      a[|s| - 1 - i] := CharValue(s[i]);
      i := i + 1;
    }
    return Ok(BigInt(a[..], b));
  }

  /** `InitBigInt("123", 10)` stores the digits `[3, 2, 1]`. */
  lemma ParseExample(d: seq<int>)
    requires Reverses(d, "123")
    ensures d == [3, 2, 1]
  {
    assert d[2] == CharValue("123"[0]);
    assert d[1] == CharValue("123"[1]);
    assert d[0] == CharValue("123"[2]);
  }

  lemma Numeral9801()
    ensures DecimalString(9801) == "9801"
  {
    assert DecimalString(9) == "9";
    assert DecimalString(98) == "98";
    assert DecimalString(980) == "980";
  }

  /** The product of `99` by `99` renders as `"9801"`. */
  lemma NinetyNineSquared(x: seq<int>, d: seq<int>)
    requires Reverses(x, "99")
    requires DigitsIn(d, 10) && Val(d, 10) == Val(x, 10) * Val(x, 10)
    ensures ToText(d) == "9801"
  {
    ParsedValue(x, "99");
    assert DecimalValue("99") == 99 by {
      assert "99"[..1] == "9";
      assert "9"[..0] == "";
    }
    assert Val(d, 10) == 9801;
    TextIsDecimal(d);
    Numeral9801();
  }
}
