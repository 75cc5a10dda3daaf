/** The textual side of a digit vector: the most-significant-first rendering that
    `String` builds, and the reversed digit vector that `InitBigInt` builds. */
module Text {
  import opened Digits
  import opened Decimal

  /** The characters `String` concatenates before trimming: one per digit, from the
      highest index down. */
  ghost function Render(d: seq<int>): (r: string)
    requires DigitsIn(d, 10)
    ensures |r| == |d|
    ensures forall k :: 0 <= k < |d| ==> r[k] == DigitChar(d[|d| - 1 - k])
  {
    if |d| == 0 then [] else Render(d[1..]) + [DigitChar(d[0])]
  }

  /** What `String` returns: the rendering without its leading `'0'` characters. */
  ghost function ToText(d: seq<int>): string
    requires DigitsIn(d, 10)
  {
    TrimLeadingZeros(Render(d))
  }

  /** `d` is the digit vector `InitBigInt` builds from the numeral `s`:
      `d[|s| - 1 - i]` holds the value of character `s[i]`. */
  ghost predicate Reverses(d: seq<int>, s: string)
  {
    |d| == |s| && AllDigits(s) &&
    forall i :: 0 <= i < |s| ==> d[|s| - 1 - i] == CharValue(s[i])
  }

  /** The reversed digits are decimal digits. */
  lemma ReversesDigits(d: seq<int>, s: string)
    requires Reverses(d, s)
    ensures DigitsIn(d, 10)
  {
    forall k | 0 <= k < |d|
      ensures 0 <= d[k] < 10
    {
      var i := |s| - 1 - k;
      assert d[|s| - 1 - i] == CharValue(s[i]);
    }
  }

  /** Parsing is exact: the reversed digit vector denotes the decimal value of `s`. */
  lemma {:induction false} ParsedValue(d: seq<int>, s: string)
    requires Reverses(d, s)
    ensures Val(d, 10) == DecimalValue(s)
  {
    if |s| > 0 {
      var n := |s|;
      var s' := s[..n - 1];
      assert AllDigits(s');
      forall i | 0 <= i < n - 1
        ensures d[1..][n - 2 - i] == CharValue(s'[i])
      {
        assert d[1..][n - 2 - i] == d[n - 1 - i];
      }
      ParsedValue(d[1..], s');
      assert d[0] == d[n - 1 - (n - 1)] == CharValue(s[n - 1]);
    }
  }

  /** Rendering the vector `InitBigInt` builds gives back the numeral itself. */
  lemma RenderReverses(d: seq<int>, s: string)
    requires Reverses(d, s)
    ensures DigitsIn(d, 10) && Render(d) == s
  {
    ReversesDigits(d, s);
    var r := Render(d);
    forall k | 0 <= k < |s|
      ensures r[k] == s[k]
    {
      assert r[k] == DigitChar(d[|d| - 1 - k]);
      assert d[|s| - 1 - k] == CharValue(s[k]);
      assert CharValue(DigitChar(CharValue(s[k]))) == CharValue(s[k]);
    }
  }

  /** Round trip: rendering a parsed numeral gives `s` without its leading zeros. */
  lemma ParseThenRender(d: seq<int>, s: string)
    requires Reverses(d, s)
    ensures DigitsIn(d, 10) && ToText(d) == TrimLeadingZeros(s)
  {
    RenderReverses(d, s);
  }

  /** The rendered text is empty exactly when every digit is zero. */
  lemma EmptyTextIffZero(d: seq<int>)
    requires DigitsIn(d, 10)
    ensures ToText(d) == [] <==> forall k :: 0 <= k < |d| ==> d[k] == 0
  {
    var s := Render(d);
    var r := TrimLeadingZeros(s);
    if r == [] {
      forall k | 0 <= k < |d|
        ensures d[k] == 0
      {
        var m := |d| - 1 - k;
        assert s[m] == DigitChar(d[|d| - 1 - m]) == '0';
        assert d[k] == CharValue(DigitChar(d[k])) == CharValue('0');
      }
    }
  }

  /** Prepending a most significant digit to the vector puts its character first. */
  lemma {:induction false} RenderAppend(d: seq<int>, v: int)
    requires DigitsIn(d, 10) && 0 <= v < 10
    ensures DigitsIn(d + [v], 10) && Render(d + [v]) == [DigitChar(v)] + Render(d)
  {
    var r := Render(d + [v]);
    forall k | 0 <= k < |r|
      ensures r[k] == ([DigitChar(v)] + Render(d))[k]
    {
      if k > 0 {
        assert (d + [v])[|d| - k] == d[|d| - 1 - (k - 1)];
      }
    }
  }

  /** With a non-zero top digit, the rendering is the shortest numeral of the value. */
  lemma {:induction false} RenderTopNonZero(d: seq<int>)
    requires DigitsIn(d, 10) && |d| > 0 && d[|d| - 1] != 0
    ensures Val(d, 10) >= 0 && Render(d) == DecimalString(Val(d, 10))
  {
    ValBound(d, 10);
    var v := Val(d, 10);
    if |d| == 1 {
      assert d[1..] == [];
    } else {
      var rest := d[1..];
      ValTopNonZero(rest, 10);
      RenderTopNonZero(rest);
      var w := Val(rest, 10);
      assert v == d[0] + 10 * w;
      assert v == 10 * (v / 10) + v % 10 && 0 <= v % 10 < 10;
      DigitSplit(d[0], w, v % 10, v / 10, 10);
      assert DecimalString(v) == DecimalString(w) + [DigitChar(d[0])];
    }
  }

  /** A zero top digit renders as a leading `'0'`, which is trimmed, and adds nothing. */
  lemma DropZeroTop(d: seq<int>)
    requires DigitsIn(d, 10) && |d| > 0 && d[|d| - 1] == 0
    ensures DigitsIn(d[..|d| - 1], 10)
    ensures ToText(d) == ToText(d[..|d| - 1])
    ensures Val(d, 10) == Val(d[..|d| - 1], 10)
  {
    var n := |d|;
    var low := d[..n - 1];
    assert d == low + [0];
    RenderAppend(low, 0);
    ValAppend(low, 0, 10);
    var r := Render(d);
    assert r[0] == '0' && r[1..] == Render(low);
  }

  /** A non-zero top digit renders as a non-`'0'` first character, so nothing is trimmed. */
  lemma KeepNonZeroTop(d: seq<int>)
    requires DigitsIn(d, 10) && |d| > 0 && d[|d| - 1] != 0
    ensures Val(d, 10) >= 1
    ensures ToText(d) == DecimalString(Val(d, 10))
  {
    RenderTopNonZero(d);
    ValTopNonZero(d, 10);
    var r := Render(d);
    assert r[0] == DigitChar(d[|d| - 1]) != '0';
  }

  /** `String` on a base-10 vector gives the shortest decimal numeral of its value,
      and the empty string for the value zero. */
  lemma {:induction false} TextIsDecimal(d: seq<int>)
    requires DigitsIn(d, 10)
    ensures Val(d, 10) >= 0
    ensures ToText(d) == if Val(d, 10) == 0 then [] else DecimalString(Val(d, 10))
  {
    ValBound(d, 10);
    if |d| > 0 {
      if d[|d| - 1] == 0 {
        DropZeroTop(d);
        TextIsDecimal(d[..|d| - 1]);
      } else {
        KeepNonZeroTop(d);
      }
    }
  }
}
