/**
 * The value label above the plain slider (ComposableSliderView.kt): where
 * along the box the label sits, and when label and thumb switch to the
 * over-value colour.
 */
module ComposableSliderView {
  import opened KotlinMath
  import opened LinearTickSlider

  /**
   * `calcFraction(a, b, pos)`: how far `pos` lies from `a` towards `b`,
   * clamped into `[0, 1]`, and 0 for a zero-width span.
   */
  function CalcFraction(a: real, b: real, pos: real): (r: real)
    ensures 0.0 <= r <= 1.0
    ensures b - a == 0.0 ==> r == 0.0
  {
    CoerceIn(if b - a == 0.0 then 0.0 else (pos - a) / (b - a), 0.0, 1.0)
  }

  /** On a proper span the start maps to 0 and the end to 1. */
  lemma FractionEndpoints(a: real, b: real)
    requires a != b
    ensures CalcFraction(a, b, a) == 0.0
    ensures CalcFraction(a, b, b) == 1.0
  {
    assert (a - a) / (b - a) == 0.0;
    assert (b - a) / (b - a) == 1.0;
  }

  /** Inside an increasing span the fraction is exact: it scales the span's width to `pos - a`. */
  lemma FractionInside(a: real, b: real, pos: real)
    requires a < b && a <= pos <= b
    ensures CalcFraction(a, b, pos) * (b - a) == pos - a
  {
    var q := (pos - a) / (b - a);
    assert q * (b - a) == pos - a;
    assert 0.0 <= q by {
      assert (pos - a) >= 0.0;
    }
    assert q <= 1.0 by {
      DivMonotone(pos - a, b - a, b - a);
      DivSelf(b - a);
    }
  }

  /** Over an increasing span the fraction never decreases as `pos` grows. */
  lemma FractionMonotone(a: real, b: real, p: real, q: real)
    requires a < b && p <= q
    ensures CalcFraction(a, b, p) <= CalcFraction(a, b, q)
  {
    DivMonotone(p - a, q - a, b - a);
  }

  /**
   * `getSliderOffset`: the value is clamped into the configured range (which
   * `coerceIn` requires non-empty) and its fraction scales the room left
   * beside the label.
   */
  function GetSliderOffset(value: real, range: FloatRange, boxWidth: real, labelWidth: real): (r: real)
    requires !range.IsEmpty()
    ensures boxWidth >= labelWidth ==> 0.0 <= r <= boxWidth - labelWidth
    ensures value <= range.start ==> r == 0.0
  {
    var coerced := CoerceIn(value, range.start, range.endInclusive);
    var fraction := CalcFraction(range.start, range.endInclusive, coerced);
    ScaleWithinWhenRoom(boxWidth - labelWidth, fraction);
    FractionAtStart(range.start, range.endInclusive, coerced);
    (boxWidth - labelWidth) * fraction
  }

  /** At or below the start of a span the fraction is 0. */
  lemma FractionAtStart(a: real, b: real, pos: real)
    requires a <= b
    ensures pos <= a ==> CalcFraction(a, b, pos) == 0.0
  {
    if pos <= a && a != b {
      assert (pos - a) / (b - a) <= 0.0 by {
        DivMonotone(pos - a, 0.0, b - a);
      }
    }
  }

  /** At or past the end of a proper range the label sits at the far edge. */
  lemma OffsetAtEnd(value: real, range: FloatRange, boxWidth: real, labelWidth: real)
    requires range.start < range.endInclusive && value >= range.endInclusive
    ensures GetSliderOffset(value, range, boxWidth, labelWidth) == boxWidth - labelWidth
  {
    FractionEndpoints(range.start, range.endInclusive);
  }

  /** Within a proper range the label moves linearly: the offset is proportional to `value - start`. */
  lemma OffsetLinear(value: real, range: FloatRange, boxWidth: real, labelWidth: real)
    requires range.start < range.endInclusive && range.Contains(value)
    ensures GetSliderOffset(value, range, boxWidth, labelWidth) * (range.endInclusive - range.start)
            == (boxWidth - labelWidth) * (value - range.start)
  {
    var w := range.endInclusive - range.start;
    var fr := CalcFraction(range.start, range.endInclusive, value);
    FractionInside(range.start, range.endInclusive, value);
    assert (boxWidth - labelWidth) * fr * w == (boxWidth - labelWidth) * (fr * w);
  }

  /** With room for the label, a larger value never moves the label left. */
  lemma OffsetMonotone(v1: real, v2: real, range: FloatRange, boxWidth: real, labelWidth: real)
    requires !range.IsEmpty() && boxWidth >= labelWidth && v1 <= v2
    ensures GetSliderOffset(v1, range, boxWidth, labelWidth) <= GetSliderOffset(v2, range, boxWidth, labelWidth)
  {
    var c1 := CoerceIn(v1, range.start, range.endInclusive);
    var c2 := CoerceIn(v2, range.start, range.endInclusive);
    OffsetIsScaled(v1, range, boxWidth, labelWidth);
    OffsetIsScaled(v2, range, boxWidth, labelWidth);
    if range.start < range.endInclusive {
      FractionMonotone(range.start, range.endInclusive, c1, c2);
    }
    ScaledInOrder(GetSliderOffset(v1, range, boxWidth, labelWidth), GetSliderOffset(v2, range, boxWidth, labelWidth),
                  boxWidth - labelWidth,
                  CalcFraction(range.start, range.endInclusive, c1), CalcFraction(range.start, range.endInclusive, c2));
  }

  lemma ScaledInOrder(o1: real, o2: real, d: real, f1: real, f2: real)
    requires d >= 0.0 && f1 <= f2 && o1 == d * f1 && o2 == d * f2
    ensures o1 <= o2
  {
    ScaleMonotone(d, f1, f2);
  }

  lemma OffsetIsScaled(value: real, range: FloatRange, boxWidth: real, labelWidth: real)
    requires !range.IsEmpty()
    ensures GetSliderOffset(value, range, boxWidth, labelWidth)
            == (boxWidth - labelWidth) * CalcFraction(range.start, range.endInclusive,
                                                      CoerceIn(value, range.start, range.endInclusive))
  {
  }

  lemma ScaleWithinWhenRoom(d: real, f: real)
    requires 0.0 <= f <= 1.0
    ensures d >= 0.0 ==> 0.0 <= d * f <= d
  {
    if d >= 0.0 {
      ScaleWithin(d, f);
    }
  }

  lemma DivSelf(d: real)
    requires d != 0.0
    ensures d / d == 1.0
  {
  }

  /** Label and thumb take the over-value colour when the value rounded to 2 decimals exceeds `overvalueIndex`. */
  predicate IsOverValue(value: real, overvalueIndex: int) {
    RoundDecimals(value, 2) > overvalueIndex as real
  }

  /**
   * The colour switches exactly past `overvalueIndex + 0.005`: at that point
   * itself half-to-even rounding falls back to the index.
   */
  lemma OverValueThreshold(value: real, overvalueIndex: int)
    ensures IsOverValue(value, overvalueIndex) <==> value > overvalueIndex as real + 0.005
  {
    var y := value * 100.0;
    var m := 100 * overvalueIndex;
    RoundToHundredths(value);
    HundredthsAbove(RoundHalfEven(y), overvalueIndex);
    HundredfoldEven(overvalueIndex);
    RoundAboveEven(y, m);
  }

  lemma RoundToHundredths(value: real)
    ensures RoundDecimals(value, 2) == RoundHalfEven(value * 100.0) as real / 100.0
  {
    assert Pow10(2) == 100.0;
    assert RoundDecimals(value, 2) == RoundScaled(value, 100.0);
  }

  lemma HundredthsAbove(n: int, k: int)
    ensures n as real / 100.0 > k as real <==> n > 100 * k
  {
  }

  lemma HundredfoldEven(k: int)
    ensures (100 * k) % 2 == 0
  {
    assert 100 * k == 2 * (50 * k);
  }

  /** Past an even integer's half-way point, and only there, half-to-even rounding goes above it. */
  lemma RoundAboveEven(y: real, m: int)
    requires m % 2 == 0
    ensures RoundHalfEven(y) > m <==> y > m as real + 0.5
  {
    var n := RoundHalfEven(y);
    if n > m {
      assert y >= (m + 1) as real - 0.5;
    }
  }
}
