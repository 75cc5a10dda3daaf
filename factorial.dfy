/** The factorial driver of main.go: a running product multiplied by `2, 3, ..., n`. */
module FactorialDriver {
  import opened Digits
  import opened Decimal
  import opened Text
  import opened BigInts

  ghost function Fact(n: int): nat
  {
    if n <= 1 then 1 else n * Fact(n - 1)
  }

  /** `factorial(n)`: starts from the one-digit vector `[1]` in base 10 and multiplies it
      by `InitBigInt(strconv.Itoa(i), 10)` for `i` from 2 to `n`. Neither call can fail
      here, so the result is always a well-formed base-10 vector whose value is `n!`. */
  method Factorial(n: int) returns (r: Result<BigInt>)
    ensures r.Ok? && r.value.b == 10 && Valid(r.value)
    ensures Val(r.value.d, 10) == Fact(n)
    ensures n <= 1 ==> r.value.d == [1]
  {
    var base := 10;
    var x := BigInt([1], base);
    var i := 2;
    while i <= n
      invariant 2 <= i && (i <= n + 1 || i == 2)
      invariant x.b == base && Valid(x) && |x.d| >= 1
      invariant Val(x.d, base) == Fact(i - 1)
      invariant i == 2 ==> x.d == [1]
    {
      var y := InitBigInt(DecimalString(i), base);
      // y.Ok?: the numeral of i holds only decimal digits and the base is 10
      RenderReverses(y.value.d, DecimalString(i));
      ParsedValue(y.value.d, DecimalString(i));
      var z := Multiply(x, y.value);
      // z.Ok?: both operands are in base 10
      x := z.value;
      i := i + 1;
    }
    return Ok(x);
  }

  /** `5!` renders as `"120"`. */
  lemma FiveFactorialText(d: seq<int>)
    requires DigitsIn(d, 10) && Val(d, 10) == Fact(5)
    ensures ToText(d) == "120"
  {
    TextIsDecimal(d);
    assert Fact(5) == 120 by { FactValues(); }
    assert DecimalString(120) == "120" by { Numeral120(); }
  }

  /** `10!` renders as `"3628800"`. */
  lemma TenFactorialText(d: seq<int>)
    requires DigitsIn(d, 10) && Val(d, 10) == Fact(10)
    ensures ToText(d) == "3628800"
  {
    TextIsDecimal(d);
    assert Fact(10) == 3628800 by { FactValues(); }
    assert DecimalString(3628800) == "3628800" by { Numeral3628800(); }
  }

  lemma FactValues()
    ensures Fact(5) == 120 && Fact(10) == 3628800
  {
    assert Fact(5) == 120;
  }

  lemma Numeral120()
    ensures DecimalString(120) == "120"
  {
    assert DecimalString(12) == "12";
  }

  lemma Numeral3628800()
    ensures DecimalString(3628800) == "3628800"
  {
    assert DecimalString(36) == "36";
    assert DecimalString(362) == "362";
    assert DecimalString(3628) == "3628";
    assert DecimalString(36288) == "36288";
    assert DecimalString(362880) == "362880";
  }
}
