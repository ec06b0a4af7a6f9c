/**
 * The slider presets (SliderConfigurator.kt). Each preset lists
 * interpolation pairs (a tick-coordinate range and the display range it maps
 * onto), turns them into a value table of linear interpolations and a
 * coefficient table, and fills a `SliderConfig` whose `range` and
 * `currentValue` default to values derived from the table.
 */
module SliderConfigurator {
  import opened KotlinMath
  import opened SliderConfigApi

  /** An interpolation pair: a domain range and the display range it is mapped onto. */
  type InterpolationTable = seq<(FloatRange, FloatRange)>

  /** `linearInterpolation(x, x1, x2, y1, y2)`: the line through `(x1, y1)` and `(x2, y2)`. */
  function LinearInterpolation(x: real, x1: real, x2: real, y1: real, y2: real): (y: real)
    requires x1 != x2
    ensures x1 < x2 && x1 <= x <= x2 ==> Between(y, y1, y2)
  {
    var slope := (y2 - y1) / (x2 - x1);
    SlopeStaysBetween(x, x1, x2, y1, y2, slope);
    y1 + slope * (x - x1)
  }

  /** `y` lies between `a` and `b`, in either order. */
  predicate Between(y: real, a: real, b: real) {
    (a <= y <= b) || (b <= y <= a)
  }

  /** Along a rising domain, a line through both defining points stays between their heights. */
  lemma SlopeStaysBetween(x: real, x1: real, x2: real, y1: real, y2: real, slope: real)
    requires x1 != x2 && slope == (y2 - y1) / (x2 - x1)
    ensures x1 < x2 && x1 <= x <= x2 ==> Between(y1 + slope * (x - x1), y1, y2)
  {
    if x1 < x2 && x1 <= x <= x2 {
      BetweenEnds(y1, y2, slope, x2 - x1, x - x1);
    }
  }

  lemma BetweenEnds(y1: real, y2: real, slope: real, width: real, e: real)
    requires width > 0.0 && 0.0 <= e <= width && slope * width == y2 - y1
    ensures Between(y1 + slope * e, y1, y2)
  {
    if slope >= 0.0 {
      assert slope * e <= slope * width by {
        assert slope * width - slope * e == slope * (width - e);
      }
    } else {
      assert slope * e >= slope * width by {
        assert slope * e - slope * width == -slope * (width - e);
      }
    }
  }

  /** The interpolation meets both of its defining points. */
  lemma InterpolationEndpoints(x1: real, x2: real, y1: real, y2: real)
    requires x1 != x2
    ensures LinearInterpolation(x1, x1, x2, y1, y2) == y1
    ensures LinearInterpolation(x2, x1, x2, y1, y2) == y2
  {
    var s := (y2 - y1) / (x2 - x1);
    assert s * (x2 - x1) == y2 - y1;
  }

  /** The interpolation is affine in `x`, with slope `(y2 - y1) / (x2 - x1)`. */
  lemma InterpolationAffine(x: real, y: real, x1: real, x2: real, y1: real, y2: real)
    requires x1 != x2
    ensures LinearInterpolation(x, x1, x2, y1, y2) - LinearInterpolation(y, x1, x2, y1, y2)
            == (y2 - y1) / (x2 - x1) * (x - y)
  {
    var s := (y2 - y1) / (x2 - x1);
    assert s * (x - x1) - s * (y - x1) == s * (x - y);
  }

  /** With a rising domain and a rising display range, the interpolation is strictly increasing. */
  lemma InterpolationIncreasing(x: real, y: real, x1: real, x2: real, y1: real, y2: real)
    requires x1 < x2 && y1 < y2 && x < y
    ensures LinearInterpolation(x, x1, x2, y1, y2) < LinearInterpolation(y, x1, x2, y1, y2)
  {
    var s := (y2 - y1) / (x2 - x1);
    PositiveQuotient(y2 - y1, x2 - x1, s);
    PositiveProduct(s, y - x);
    InterpolationRises(x, y, x1, x2, y1, y2, s);
  }

  lemma InterpolationRises(x: real, y: real, x1: real, x2: real, y1: real, y2: real, s: real)
    requires x1 != x2 && s == (y2 - y1) / (x2 - x1)
    ensures LinearInterpolation(y, x1, x2, y1, y2) - LinearInterpolation(x, x1, x2, y1, y2) == s * (y - x)
  {
    assert s * (y - x1) - s * (x - x1) == s * (y - x);
  }

  lemma PositiveQuotient(a: real, b: real, q: real)
    requires a > 0.0 && b > 0.0 && q == a / b
    ensures q > 0.0
  {
    assert q * b == a;
  }

  lemma PositiveProduct(a: real, b: real)
    requires a > 0.0 && b > 0.0
    ensures a * b > 0.0
  {
  }

  /** Every domain range of the pairs has distinct ends, so its interpolation divides by a non-zero width. */
  predicate NonDegenerate(interp: InterpolationTable) {
    forall k :: 0 <= k < |interp| ==> interp[k].0.start != interp[k].0.endInclusive
  }

  /** The interpolation of one pair, the lambda each preset pairs with its range. */
  function Interpolation(pair: (FloatRange, FloatRange)): real -> real
    requires pair.0.start != pair.0.endInclusive
  {
    x => LinearInterpolation(x, pair.0.start, pair.0.endInclusive, pair.1.start, pair.1.endInclusive)
  }

  /** `ranges = interpolationRanges.map { Pair(it.first) { linearInterpolation(...) } }`. */
  function InterpolatedRanges(interp: InterpolationTable): (r: ValueTable)
    requires NonDegenerate(interp)
    ensures |r| == |interp|
    ensures forall k :: 0 <= k < |r| ==> r[k].0 == interp[k].0
    ensures forall k, x :: 0 <= k < |r| ==>
      r[k].1(x) == LinearInterpolation(x, interp[k].0.start, interp[k].0.endInclusive,
                                          interp[k].1.start, interp[k].1.endInclusive)
  {
    seq(|interp|, k requires 0 <= k < |interp| => (interp[k].0, Interpolation(interp[k])))
  }

  /** `coefficients = interpolationRanges.map { Pair(it.first, rise / run) }`, as in `TypeOverConfig`. */
  function SlopeCoefficients(interp: InterpolationTable): (r: CoefficientTable)
    requires NonDegenerate(interp)
    ensures |r| == |interp|
    ensures forall k :: 0 <= k < |r| ==> r[k].0 == interp[k].0
  {
    seq(|interp|, k requires 0 <= k < |interp| =>
      (interp[k].0, (interp[k].1.endInclusive - interp[k].1.start) / (interp[k].0.endInclusive - interp[k].0.start)))
  }

  /** `coefficients = interpolationRanges.map { Pair(it.first, c) }`, as in the two linear presets. */
  function ConstantCoefficients(interp: InterpolationTable, c: real): (r: CoefficientTable)
    ensures |r| == |interp|
    ensures forall k :: 0 <= k < |r| ==> r[k] == (interp[k].0, c)
  {
    seq(|interp|, k requires 0 <= k < |interp| => (interp[k].0, c))
  }

  /** Each slope coefficient is the rate of change of the interpolation in the same entry. */
  lemma SlopeCoefficientsAreSlopes(interp: InterpolationTable, k: int, x: real, y: real)
    requires NonDegenerate(interp)
    requires 0 <= k < |interp|
    ensures SlopeCoefficients(interp)[k].1 * (x - y)
            == InterpolatedRanges(interp)[k].1(x) - InterpolatedRanges(interp)[k].1(y)
  {
    var p := interp[k];
    InterpolationAffine(x, y, p.0.start, p.0.endInclusive, p.1.start, p.1.endInclusive);
  }

  /**
   * When the display ranges are laid end to end as the domain ranges are, the
   * interpolations of adjacent entries agree at the point they share.
   */
  lemma InterpolatedRangesAgreeAtJoins(interp: InterpolationTable, k: int)
    requires NonDegenerate(interp)
    requires 0 <= k < |interp| - 1
    requires interp[k].0.endInclusive == interp[k + 1].0.start
    requires interp[k].1.endInclusive == interp[k + 1].1.start
    ensures var t := InterpolatedRanges(interp);
      t[k].1(interp[k].0.endInclusive) == t[k + 1].1(interp[k + 1].0.start) == interp[k].1.endInclusive
  {
    var p, q := interp[k], interp[k + 1];
    InterpolationEndpoints(p.0.start, p.0.endInclusive, p.1.start, p.1.endInclusive);
    InterpolationEndpoints(q.0.start, q.0.endInclusive, q.1.start, q.1.endInclusive);
  }

  /** The parts of `SliderUiConfig` the slider's logic reads (sizes and colours are rendering only). */
  datatype UiConfig = UiConfig(minAlphaAnim: real, overvalueIndex: int, step: int)

  const MinAlpha: real := 0.1

  /** `SliderConfig`'s default `uiConfig`: full opacity, over-value index 35, a label every 5 ticks. */
  function DefaultUiConfig(): UiConfig {
    UiConfig(1.0, 35, 5)
  }

  /** The `uiConfig` both linear presets pass: fading ticks down to `MinAlpha`. */
  function FadingUiConfig(): UiConfig {
    UiConfig(MinAlpha, 35, 5)
  }

  datatype SliderConfig = SliderConfig(
    ranges: ValueTable,
    coefficients: CoefficientTable,
    scrolledValue: real,
    range: FloatRange,
    allowSnap: bool,
    allowHaptic: bool,
    allowDrag: bool,
    currentValue: real,
    uiConfig: UiConfig,
    additionalTick: bool)

  /**
   * The default `currentValue`, `(range.endInclusive - range.start) / 2`
   * as written: half the width of the range, which is its midpoint exactly
   * when the range starts at 0.
   */
  function DefaultCurrentValue(range: FloatRange): (v: real)
    ensures v == (range.start + range.endInclusive) / 2.0 <==> range.start == 0.0
    ensures range.start == 0.0 && range.start <= range.endInclusive ==> range.Contains(v)
  {
    (range.endInclusive - range.start) / 2.0
  }

  /**
   * The `SliderConfig` constructor: an absent `range` defaults to the span
   * of the value table (`ranges.first()` throws on an empty table), an absent
   * `currentValue` to `DefaultCurrentValue` of the range.
   */
  function MakeSliderConfig(
    ranges: ValueTable, coefficients: CoefficientTable, scrolledValue: real, range: Option<FloatRange>,
    allowSnap: bool, allowHaptic: bool, allowDrag: bool, currentValue: Option<real>,
    uiConfig: UiConfig, additionalTick: bool): (c: SliderConfig)
    requires range.Some? || |ranges| > 0
    ensures range.None? ==> c.range.start == ranges[0].0.start
                            && c.range.endInclusive == ranges[|ranges| - 1].0.endInclusive
    ensures currentValue.None? ==> c.currentValue == (c.range.endInclusive - c.range.start) / 2.0
  {
    var r := if range.Some? then range.value else Span(ranges);
    SliderConfig(ranges, coefficients, scrolledValue, r, allowSnap, allowHaptic, allowDrag,
                 if currentValue.Some? then currentValue.value else DefaultCurrentValue(r),
                 uiConfig, additionalTick)
  }

  /** Which of the three sealed `SliderConfigurator` subclasses a configurator is. */
  datatype Preset = TypeOver | TypeLinear | TypeLinearAdditional

  /** A `SliderConfigApi` value: the preset's constants and its `SliderConfig`. */
  datatype Configurator = Configurator(
    preset: Preset,
    initialValue: real,
    start: real,
    end: real,
    tickOffset: int,
    additionalTickWidth: real,
    interpolationRanges: InterpolationTable,
    sliderConfig: SliderConfig)

  /**
   * A pair list a preset can build its default `SliderConfig` from:
   * `ranges.first()` needs an entry, and each interpolation a domain range
   * of non-zero width.
   */
  predicate Buildable(interp: InterpolationTable) {
    |interp| > 0 && NonDegenerate(interp)
  }

  /** `TypeOverConfig`'s default `interpolationRanges`. */
  function TypeOverInterpolation(start: real, end: real): InterpolationTable {
    [ (FloatRange(start, 20.0), FloatRange(0.0, 100.0)),
      (FloatRange(20.0, 30.0), FloatRange(100.0, 200.0)),
      (FloatRange(30.0, end), FloatRange(200.0, 400.0)) ]
  }

  /** The default pairs can be built from unless `start` or `end` collapses a range onto a fixed bound. */
  lemma TypeOverBuildable(start: real, end: real)
    ensures Buildable(TypeOverInterpolation(start, end)) <==> start != 20.0 && end != 30.0
  {
    var t := TypeOverInterpolation(start, end);
    assert t[0].0.start != t[0].0.endInclusive <==> start != 20.0;
    assert t[2].0.start != t[2].0.endInclusive <==> end != 30.0;
  }

  /**
   * `TypeOverConfig(initialValue, start, end, interpolationRanges, sliderConfig)`:
   * a tap-driven slider whose coefficients are the slopes of its pairs. An
   * absent argument takes its Kotlin default.
   */
  function TypeOverConfig(initialValue: real, start: real, end: real,
                          interpolationRanges: Option<InterpolationTable>, sliderConfig: Option<SliderConfig>)
    : (c: Configurator)
    requires sliderConfig.None? ==> Buildable(interpolationRanges.GetOr(TypeOverInterpolation(start, end)))
    ensures c.preset == TypeOver && c.tickOffset == 60 && c.additionalTickWidth == 0.0
    ensures c.interpolationRanges == interpolationRanges.GetOr(TypeOverInterpolation(start, end))
    ensures sliderConfig.Some? ==> c.sliderConfig == sliderConfig.value
    ensures sliderConfig.None? ==> var t := c.interpolationRanges;
      && c.sliderConfig.ranges == InterpolatedRanges(t)
      && c.sliderConfig.coefficients == SlopeCoefficients(t)
      && c.sliderConfig.range == FloatRange(t[0].0.start, t[|t| - 1].0.endInclusive)
      && c.sliderConfig.currentValue == DefaultCurrentValue(c.sliderConfig.range)
      && c.sliderConfig.scrolledValue == initialValue && c.sliderConfig.allowHaptic
      && !c.sliderConfig.allowDrag && !c.sliderConfig.allowSnap && !c.sliderConfig.additionalTick
    ensures interpolationRanges.None? && sliderConfig.None? ==>
      c.sliderConfig.range == FloatRange(start, end) && c.sliderConfig.currentValue == (end - start) / 2.0
  {
    var interp := interpolationRanges.GetOr(TypeOverInterpolation(start, end));
    Configurator(TypeOver, initialValue, start, end, 60, 0.0, interp,
      if sliderConfig.Some? then sliderConfig.value
      else MakeSliderConfig(InterpolatedRanges(interp), SlopeCoefficients(interp), initialValue, None,
                            false, true, false, None, DefaultUiConfig(), false))
  }

  /** `TypeLinearConfig`'s default `interpolationRanges`. */
  function TypeLinearInterpolation(start: real, end: real): InterpolationTable {
    [ (FloatRange(start, end), FloatRange(0.0, 45.0)) ]
  }

  /**
   * `TypeLinearConfig(initialValue, start, end, tickOffset, interpolationRanges, sliderConfig)`:
   * a draggable slider, by default over a single linear range.
   */
  function TypeLinearConfig(initialValue: real, start: real, end: real, tickOffset: int,
                            interpolationRanges: Option<InterpolationTable>, sliderConfig: Option<SliderConfig>)
    : (c: Configurator)
    requires sliderConfig.None? ==> Buildable(interpolationRanges.GetOr(TypeLinearInterpolation(start, end)))
    ensures c.preset == TypeLinear && c.tickOffset == tickOffset && c.additionalTickWidth == 0.0
    ensures c.interpolationRanges == interpolationRanges.GetOr(TypeLinearInterpolation(start, end))
    ensures sliderConfig.Some? ==> c.sliderConfig == sliderConfig.value
    ensures sliderConfig.None? ==> var t := c.interpolationRanges;
      && c.sliderConfig.ranges == InterpolatedRanges(t)
      && c.sliderConfig.coefficients == ConstantCoefficients(t, 5.0)
      && c.sliderConfig.range == FloatRange(t[0].0.start, t[|t| - 1].0.endInclusive)
      && c.sliderConfig.currentValue == initialValue && c.sliderConfig.scrolledValue == initialValue
      && c.sliderConfig.uiConfig == FadingUiConfig() && c.sliderConfig.allowHaptic
      && c.sliderConfig.allowDrag && !c.sliderConfig.allowSnap && !c.sliderConfig.additionalTick
    ensures interpolationRanges.None? && sliderConfig.None? ==> c.sliderConfig.range == FloatRange(start, end)
  {
    var interp := interpolationRanges.GetOr(TypeLinearInterpolation(start, end));
    Configurator(TypeLinear, initialValue, start, end, tickOffset, 0.0, interp,
      if sliderConfig.Some? then sliderConfig.value
      else MakeSliderConfig(InterpolatedRanges(interp), ConstantCoefficients(interp, 5.0), initialValue, None,
                            false, true, true, Some(initialValue), FadingUiConfig(), false))
  }

  /**
   * The default `additionalTickWidth`, `(5.38 - 5.2) * tickOffset / (8 / end)`:
   * proportional to both `tickOffset` and `end`.
   */
  function DefaultAdditionalTickWidth(tickOffset: int, end: real): (w: real)
    requires end != 0.0
    ensures w == 0.0225 * tickOffset as real * end
    ensures tickOffset > 0 && end > 0.0 ==> w > 0.0
  {
    DivideByEighthOf((5.38 - 5.2) * tickOffset as real, end);
    (5.38 - 5.2) * tickOffset as real / (8.0 / end)
  }

  lemma DivideByEighthOf(a: real, e: real)
    requires e != 0.0
    ensures a / (8.0 / e) == a * e / 8.0
  {
    var q := 8.0 / e;
    assert q * e == 8.0;
    assert (a * e / 8.0) * q == a * (e * q) / 8.0;
  }

  /**
   * The end of the extra tick's range, `end + (additionalTickWidth + tickOffset) / tickOffset - 1`:
   * `additionalTickWidth / tickOffset` ticks past `end`.
   */
  function ExtraTickEnd(end: real, tickOffset: int, additionalTickWidth: real): (e: real)
    requires tickOffset != 0
    ensures e == end + additionalTickWidth / tickOffset as real
    ensures tickOffset > 0 && additionalTickWidth >= 0.0 ==> e >= end
  {
    OneTickMore(additionalTickWidth, tickOffset as real);
    end + (additionalTickWidth + tickOffset as real) / tickOffset as real - 1.0
  }

  lemma OneTickMore(w: real, t: real)
    requires t != 0.0
    ensures (w + t) / t - 1.0 == w / t
  {
    assert (w + t) / t == w / t + t / t;
    assert t / t == 1.0;
  }

  /** `TypeLinearAdditionalConfig`'s default `interpolationRanges`; the last pair covers the extra tick. */
  function TypeLinearAdditionalInterpolation(start: real, end: real, tickOffset: int, additionalTickWidth: real)
    : InterpolationTable
    requires tickOffset != 0
  {
    [ (FloatRange(start, 5.0), FloatRange(0.1, 0.25)),
      (FloatRange(5.0, 20.0), FloatRange(0.25, 1.0)),
      (FloatRange(20.0, end - 1.0), FloatRange(1.0, 5.2)),
      (FloatRange(end - 1.0, ExtraTickEnd(end, tickOffset, additionalTickWidth)), FloatRange(5.2, 5.38)) ]
  }

  /** The default pairs can be built from unless a range collapses: `start = 5`, `end = 21`, or a width of `-tickOffset`. */
  lemma TypeLinearAdditionalBuildable(start: real, end: real, tickOffset: int, additionalTickWidth: real)
    requires tickOffset != 0
    ensures Buildable(TypeLinearAdditionalInterpolation(start, end, tickOffset, additionalTickWidth))
            <==> start != 5.0 && end != 21.0 && additionalTickWidth != -(tickOffset as real)
  {
    var t := TypeLinearAdditionalInterpolation(start, end, tickOffset, additionalTickWidth);
    var q := additionalTickWidth / tickOffset as real;
    assert |t| == 4;
    assert t[0].0.start != t[0].0.endInclusive <==> start != 5.0;
    assert t[1].0.start != t[1].0.endInclusive;
    assert t[2].0.start != t[2].0.endInclusive <==> end != 21.0;
    assert t[3].0.start != t[3].0.endInclusive <==> q != -1.0;
    assert q == -1.0 <==> additionalTickWidth == -(tickOffset as real) by {
      assert q * tickOffset as real == additionalTickWidth;
    }
    assert NonDegenerate(t) <==> start != 5.0 && end != 21.0 && q != -1.0 by {
      if start != 5.0 && end != 21.0 && q != -1.0 {
        forall k | 0 <= k < |t| ensures t[k].0.start != t[k].0.endInclusive {
          assert k == 0 || k == 1 || k == 2 || k == 3;
        }
      }
    }
  }

  /**
   * `TypeLinearAdditionalConfig(initialValue, start, end, tickOffset,
   * additionalTickWidth, interpolationRanges, sliderConfig)`: a draggable,
   * snapping slider with an extra tick past `end`, whose default table runs
   * on to cover that tick.
   */
  function TypeLinearAdditionalConfig(
    initialValue: real, start: real, end: real, tickOffset: int, additionalTickWidth: real,
    interpolationRanges: Option<InterpolationTable>, sliderConfig: Option<SliderConfig>): (c: Configurator)
    requires interpolationRanges.None? ==> tickOffset != 0
    requires sliderConfig.None? ==> Buildable(
      if interpolationRanges.Some? then interpolationRanges.value
      else TypeLinearAdditionalInterpolation(start, end, tickOffset, additionalTickWidth))
    ensures c.preset == TypeLinearAdditional && c.tickOffset == tickOffset
    ensures c.additionalTickWidth == additionalTickWidth
    ensures c.interpolationRanges == if interpolationRanges.Some? then interpolationRanges.value
      else TypeLinearAdditionalInterpolation(start, end, tickOffset, additionalTickWidth)
    ensures sliderConfig.Some? ==> c.sliderConfig == sliderConfig.value
    ensures sliderConfig.None? ==> var t := c.interpolationRanges;
      && c.sliderConfig.ranges == InterpolatedRanges(t)
      && c.sliderConfig.coefficients == ConstantCoefficients(t, 1.0)
      && c.sliderConfig.range == FloatRange(t[0].0.start, t[|t| - 1].0.endInclusive)
      && c.sliderConfig.currentValue == initialValue && c.sliderConfig.scrolledValue == initialValue
      && c.sliderConfig.uiConfig == FadingUiConfig() && c.sliderConfig.allowHaptic
      && c.sliderConfig.allowDrag && c.sliderConfig.allowSnap && c.sliderConfig.additionalTick
    ensures interpolationRanges.None? && sliderConfig.None? ==>
      c.sliderConfig.range == FloatRange(start, end + additionalTickWidth / tickOffset as real)
  {
    var interp := if interpolationRanges.Some? then interpolationRanges.value
                  else TypeLinearAdditionalInterpolation(start, end, tickOffset, additionalTickWidth);
    Configurator(TypeLinearAdditional, initialValue, start, end, tickOffset, additionalTickWidth, interp,
      if sliderConfig.Some? then sliderConfig.value
      else MakeSliderConfig(InterpolatedRanges(interp), ConstantCoefficients(interp, 1.0), initialValue, None,
                            true, true, true, Some(initialValue), FadingUiConfig(), true))
  }

  /**
   * The `TypeLinearAdditionalConfig` ranges are laid end to end, the last
   * ending `additionalTickWidth / tickOffset` past `end`; with the
   * default bounds every range is well formed, so the table is contiguous.
   */
  lemma TypeLinearAdditionalContiguous(start: real, end: real, tickOffset: int, additionalTickWidth: real)
    requires tickOffset > 0 && additionalTickWidth >= 0.0
    requires start <= 5.0 && 21.0 <= end
    ensures var t := TypeLinearAdditionalInterpolation(start, end, tickOffset, additionalTickWidth);
      && (forall k :: 0 <= k < |t| - 1 ==> t[k].0.endInclusive == t[k + 1].0.start)
      && t[3].0.endInclusive == end + additionalTickWidth / tickOffset as real
      && Contiguous(t)
  {
    assert additionalTickWidth / tickOffset as real >= 0.0;
  }

  /**
   * With its default bounds, `TypeOverConfig` builds its slider from its
   * own three interpolations, and that table is contiguous.
   */
  lemma TypeOverTableContiguous(initialValue: real)
    ensures var t := TypeOverConfig(initialValue, 0.0, 40.0, None, None).sliderConfig.ranges;
      t == InterpolatedRanges(TypeOverInterpolation(0.0, 40.0)) && Contiguous(t)
  {
    TypeOverBuildable(0.0, 40.0);
    TypeOverInterpolatedContiguous();
  }

  /** The default `TypeOver` table has three ranges that agree at both joins. */
  lemma TypeOverInterpolatedJoins()
    ensures var t := InterpolatedRanges(TypeOverInterpolation(0.0, 40.0));
      && t[0].1(20.0) == t[1].1(20.0) == 100.0
      && t[1].1(30.0) == t[2].1(30.0) == 200.0
  {
    InterpolationEndpoints(0.0, 20.0, 0.0, 100.0);
    InterpolationEndpoints(20.0, 30.0, 100.0, 200.0);
    InterpolationEndpoints(30.0, 40.0, 200.0, 400.0);
  }

  lemma TypeOverInterpolatedContiguous()
    ensures Contiguous(InterpolatedRanges(TypeOverInterpolation(0.0, 40.0)))
  {
    var t := InterpolatedRanges(TypeOverInterpolation(0.0, 40.0));
    assert t[0].0 == FloatRange(0.0, 20.0) && t[1].0 == FloatRange(20.0, 30.0) && t[2].0 == FloatRange(30.0, 40.0);
  }

  /** `TypeOverConfig`'s coefficients are the slopes 5, 10 and 20 of its three interpolations. */
  lemma TypeOverCoefficients(initialValue: real)
    ensures var t := TypeOverConfig(initialValue, 0.0, 40.0, None, None).sliderConfig.coefficients;
      |t| == 3 && t[0].1 == 5.0 && t[1].1 == 10.0 && t[2].1 == 20.0
  {
  }

  /**
   * Lookups in the default `TypeOverConfig` table: 25 maps to 150, the
   * shared point 20 to 100, and -5 and 45 clamp to the ends 0 and 400.
   */
  lemma TypeOverValues(initialValue: real)
    ensures var t := TypeOverConfig(initialValue, 0.0, 40.0, None, None).sliderConfig.ranges;
      && ValueDefined(t, 25.0) && ValueCalculator(25.0, t) == 150.0
      && ValueDefined(t, 20.0) && ValueCalculator(20.0, t) == 100.0
      && ValueDefined(t, -5.0) && ValueCalculator(-5.0, t) == 0.0
      && ValueDefined(t, 45.0) && ValueCalculator(45.0, t) == 400.0
  {
    TypeOverTableContiguous(initialValue);
    TypeOverInterpolatedValues();
  }

  lemma TypeOverInterpolatedValues()
    ensures var t := InterpolatedRanges(TypeOverInterpolation(0.0, 40.0));
      && ValueDefined(t, 25.0) && ValueCalculator(25.0, t) == 150.0
      && ValueDefined(t, 20.0) && ValueCalculator(20.0, t) == 100.0
      && ValueDefined(t, -5.0) && ValueCalculator(-5.0, t) == 0.0
      && ValueDefined(t, 45.0) && ValueCalculator(45.0, t) == 400.0
  {
    TypeOverInsideValues();
    TypeOverClampedValues();
  }

  lemma TypeOverInsideValues()
    ensures var t := InterpolatedRanges(TypeOverInterpolation(0.0, 40.0));
      && ValueDefined(t, 25.0) && ValueCalculator(25.0, t) == 150.0
      && ValueDefined(t, 20.0) && ValueCalculator(20.0, t) == 100.0
  {
    var t := InterpolatedRanges(TypeOverInterpolation(0.0, 40.0));
    assert t[0].0 == FloatRange(0.0, 20.0) && t[1].0 == FloatRange(20.0, 30.0);
    assert IsFirstContaining(t, 25.0, 1);
    assert IsFirstContaining(t, 20.0, 0);
    assert LinearInterpolation(25.0, 20.0, 30.0, 100.0, 200.0) == 150.0;
    InterpolationEndpoints(0.0, 20.0, 0.0, 100.0);
  }

  lemma TypeOverClampedValues()
    ensures var t := InterpolatedRanges(TypeOverInterpolation(0.0, 40.0));
      && ValueDefined(t, -5.0) && ValueCalculator(-5.0, t) == 0.0
      && ValueDefined(t, 45.0) && ValueCalculator(45.0, t) == 400.0
  {
    var t := InterpolatedRanges(TypeOverInterpolation(0.0, 40.0));
    TypeOverInterpolatedContiguous();
    BelowTable(t, -5.0);
    InterpolationEndpoints(0.0, 20.0, 0.0, 100.0);
    AboveTable(t, 45.0);
    InterpolationEndpoints(30.0, 40.0, 200.0, 400.0);
  }

  /**
   * With `end = 25` the third default range `30.0..25.0` is empty, so the
   * table is not contiguous; every value of the slider's range `0..25` is
   * still found in the first two entries, so every lookup there returns.
   */
  lemma TypeOverShortEndDefined(initialValue: real, x: real)
    requires 0.0 <= x <= 25.0
    ensures var c := TypeOverConfig(initialValue, 0.0, 25.0, None, None).sliderConfig;
      && c.range == FloatRange(0.0, 25.0)
      && !Contiguous(c.ranges)
      && ValueDefined(c.ranges, x)
  {
    TypeOverBuildable(0.0, 25.0);
    var t := InterpolatedRanges(TypeOverInterpolation(0.0, 25.0));
    assert t[0].0 == FloatRange(0.0, 20.0) && t[1].0 == FloatRange(20.0, 30.0) && t[2].0 == FloatRange(30.0, 25.0);
    assert !Contiguous(t);
    assert t[0].0.Contains(x) || t[1].0.Contains(x);
    assert !NoneContains(t, x);
  }

  /** With its default bounds the extra-tick preset's table is contiguous, so every lookup returns. */
  lemma TypeLinearAdditionalDefaults(initialValue: real, x: real)
    ensures var c := TypeLinearAdditionalConfig(initialValue, 0.0, 42.0, 12, DefaultAdditionalTickWidth(12, 42.0), None, None);
      && c.additionalTickWidth == 11.34
      && c.sliderConfig.range == FloatRange(0.0, 42.945)
      && ValueDefined(c.sliderConfig.ranges, x)
  {
    var w := DefaultAdditionalTickWidth(12, 42.0);
    assert w == 11.34;
    TypeLinearAdditionalContiguous(0.0, 42.0, 12, w);
    TypeLinearAdditionalBuildable(0.0, 42.0, 12, w);
    var c := TypeLinearAdditionalConfig(initialValue, 0.0, 42.0, 12, w, None, None);
    ContiguousValueDefined(c.sliderConfig.ranges, x);
  }
}
