# ComposableSliders core in Dafny

ComposableSliders is an Android Jetpack Compose library of tick sliders. It
offers three presets:
- `TypeOverConfig`: a strip of ticks the user taps.
- `TypeLinearConfig`: a strip the user drags.
- `TypeLinearAdditionalConfig`: a draggable strip that snaps to ticks and
  has one extra, wider tick past its end.

Each preset maps tick coordinates to displayed values through a piecewise
table of linear interpolations. This project models the library's
decision and arithmetic layer, file by file:

- `kotlin_math.dfy` (`KotlinMath`): the Kotlin primitives the library relies
  on, written over exact reals. These are `Float.toInt()` (truncation),
  `roundToInt()` (ties up), `kotlin.math.round` (ties to even),
  `coerceIn` on floats and ints, and closed ranges.
- `slider_config_api.dfy` (`SliderConfigApi`): `valueCalculator`, which
  finds the first entry containing a value or clamps and retries, and
  `coefficientCalculator`, which finds the first entry or returns 1. Also
  the conditions under which the retry terminates.
- `slider_configurator.dfy` (`SliderConfigurator`): `linearInterpolation`,
  the table builders, the `SliderConfig` defaults and the three presets.
- `linear_tick_slider_state.dfy` (`LinearTickSliderState`): the motion
  state. It is a class whose `position` field is written by `snapTo`,
  `decayTo` and `stop`, plus the saver that stores it as a list.
- `linear_tick_slider.dfy` (`LinearTickSlider`):
  - `Float.round(decimals)`;
  - the initial auto-snap;
  - the drag phase of the pointer gesture;
  - the visible tick window;
  - each tick's offset, alpha and colour class;
  - the `for` loop that counts reached ticks;
  - the haptic-pulse decision with its remembered previous count;
  - one whole composition of the strip.
- `composable_slider_view.dfy` (`ComposableSliderView`): `calcFraction`,
  `getSliderOffset` and the over-value colour test of the label slider.

Kotlin `Float` is modelled as `real`, and pixel and dp sizes as given reals.
Where Kotlin would divide a float by zero (which yields an infinity or NaN
rather than an error), the model states a precondition instead.

Two behaviours follow the code where a name suggests otherwise:
- The default `SliderConfig.currentValue` is `(range.endInclusive - range.start) / 2` as written. This is half the width of the range, which is the midpoint only when the range starts at 0 (`DefaultCurrentValue`).
- Tick alpha has no lower clamp at `minAlphaAnim` (`AlphaHasNoFloor`).

Every function here is deterministic by construction. This covers the property that the two calculators give the same result for the same inputs.

## Model

| member | source | states |
|---|---|---|
| KotlinMath.ToInt | ComposableSliders/src/main/java/com/composablesliders/LinearTickSlider.kt:149-156 | `toInt()` truncates toward zero: for non-negative `x` the result is at most `x` and within 1 below it; for negative `x` it is at least `x` and within 1 above it |
| KotlinMath.RoundToInt | ComposableSliders/src/main/java/com/composablesliders/LinearTickSliderState.kt:74 | `roundToInt()` gives the integer `n` with `n - 1/2 <= x < n + 1/2`, so ties go up |
| KotlinMath.RoundHalfEven | ComposableSliders/src/main/java/com/composablesliders/LinearTickSlider.kt:98 | `round` stays within 1/2 of `x`, and when `x` is exactly half-way the result is even |
| KotlinMath.CoerceIn | ComposableSliders/src/main/java/com/composablesliders/SliderConfigApi.kt:29-32 | the result lies in `[lo, hi]`; it is `x` inside the bounds, `lo` below them and `hi` above them; Kotlin throws when `lo > hi`, so that is required |
| KotlinMath.CoerceInRange | ComposableSliders/src/main/java/com/composablesliders/LinearTickSliderState.kt:58-60 | clamping into a non-empty float range lands in it, leaves a value already in the range unchanged, gives `start` below the range and `endInclusive` above it |
| KotlinMath.CoerceInInt | ComposableSliders/src/main/java/com/composablesliders/LinearTickSliderState.kt:74 | clamping into a non-empty `IntRange` lands in it; inside the range it changes nothing; below it gives `first` and above it gives `last` |
| SliderConfigApi.Find | ComposableSliders/src/main/java/com/composablesliders/SliderConfigApi.kt:27 | `find { it.first.contains(x) }`: a result is the first entry containing `x`; there is no result exactly when no entry contains `x` |
| SliderConfigApi.SpanHoldsEntries | ComposableSliders/src/main/java/com/composablesliders/SliderConfigApi.kt:30-31 | in a contiguous table the retry span `first.start..last.endInclusive` is a valid `coerceIn` bound and holds every entry's range |
| SliderConfigApi.Clamped | ComposableSliders/src/main/java/com/composablesliders/SliderConfigApi.kt:29-32 | the retried value lies in the table's span, and equals `x` when `x` is already in it |
| SliderConfigApi.ValueCalculator | ComposableSliders/src/main/java/com/composablesliders/SliderConfigApi.kt:24-33 | defined exactly where the source returns: when `x` is found, or else when the table is non-empty, its span is a valid bound and the clamped value is found. If some entry contains `x`, the result is the first such entry's function at `x`; if none does, it is the first entry containing the clamped value, applied to the clamped value; the retry happens at most once |
| SliderConfigApi.CoefficientCalculator | ComposableSliders/src/main/java/com/composablesliders/SliderConfigApi.kt:35-38 | the constant of the first entry containing `x`, or exactly 1 when no entry contains it; the input is not clamped |
| SliderConfigApi.FirstContainingUnique | ComposableSliders/src/main/java/com/composablesliders/SliderConfigApi.kt:27 | the first containing entry is unique |
| SliderConfigApi.ContiguousCovers | ComposableSliders/src/main/java/com/composablesliders/SliderConfigApi.kt:27-33 | in a non-empty table of well-formed ranges laid end to end, every point of the span lies in some entry |
| SliderConfigApi.ContiguousValueDefined | ComposableSliders/src/main/java/com/composablesliders/SliderConfigApi.kt:27-33 | for such a table `valueCalculator` returns for every input: the clamped retry always finds an entry |
| SliderConfigApi.SpanOrdered | ComposableSliders/src/main/java/com/composablesliders/SliderConfigApi.kt:30-31 | in such a table, earlier ranges lie to the left of later ones, so the span runs from the first start to the last end |
| SliderConfigApi.BelowTable | ComposableSliders/src/main/java/com/composablesliders/SliderConfigApi.kt:28-33 | below such a table the result is the first entry's function at `first.start` |
| SliderConfigApi.AboveTable | ComposableSliders/src/main/java/com/composablesliders/SliderConfigApi.kt:28-33 | above such a table, when the last range is not a single point, the result is the last entry's function at `last.endInclusive` |
| SliderConfigApi.FoundWithoutSpan | ComposableSliders/src/main/java/com/composablesliders/SliderConfigApi.kt:24-28 | a value found directly is mapped even when the span is empty: on `[50,20], [20,30]` the span is empty, yet 25 is found in the second entry and mapped to 50 |
| SliderConfigApi.GappedTableRetriesForever | ComposableSliders/src/main/java/com/composablesliders/SliderConfigApi.kt:28-33 | with a gap (`[0,1], [2,3]` at 1.5), clamping leaves the value unchanged and no entry contains it, so the recursion never ends and the input is outside `ValueDefined` |
| SliderConfigurator.LinearInterpolation | ComposableSliders/src/main/java/com/composablesliders/SliderConfigurator.kt:11-12 | on a rising domain `x1 < x2`, every input between `x1` and `x2` maps to a value between `y1` and `y2`, whichever of the two is larger |
| SliderConfigurator.InterpolationEndpoints | ComposableSliders/src/main/java/com/composablesliders/SliderConfigurator.kt:11-12 | for `x1 != x2` the interpolation gives `y1` at `x1` and `y2` at `x2` |
| SliderConfigurator.InterpolationAffine | ComposableSliders/src/main/java/com/composablesliders/SliderConfigurator.kt:11-12 | the interpolation is affine: the difference of two values is the slope `(y2 - y1) / (x2 - x1)` times the difference of the inputs |
| SliderConfigurator.InterpolationIncreasing | ComposableSliders/src/main/java/com/composablesliders/SliderConfigurator.kt:11-12 | with `x1 < x2` and `y1 < y2` the interpolation is strictly increasing |
| SliderConfigurator.InterpolatedRanges | ComposableSliders/src/main/java/com/composablesliders/SliderConfigurator.kt:31-41 | `ranges` keeps the pairs' order and ranges one for one, and each entry's function is the linear interpolation of its pair |
| SliderConfigurator.SlopeCoefficients | ComposableSliders/src/main/java/com/composablesliders/SliderConfigurator.kt:42-47 | `coefficients` keeps the pairs' order and ranges one for one |
| SliderConfigurator.ConstantCoefficients | ComposableSliders/src/main/java/com/composablesliders/SliderConfigurator.kt:78-80 | each coefficient entry is its pair's range with the same constant |
| SliderConfigurator.SlopeCoefficientsAreSlopes | ComposableSliders/src/main/java/com/composablesliders/SliderConfigurator.kt:42-47 | each `TypeOverConfig` coefficient is the rate of change of the same entry's interpolation |
| SliderConfigurator.InterpolatedRangesAgreeAtJoins | ComposableSliders/src/main/java/com/composablesliders/SliderConfigurator.kt:25-41 | when both the domain ranges and the display ranges are laid end to end, adjacent interpolations agree at the shared point |
| SliderConfigurator.DefaultCurrentValue | ComposableSliders/src/main/java/com/composablesliders/SliderConfigurator.kt:152 | the default `currentValue` as written is the range's midpoint if and only if the range starts at 0, and then it lies in the range |
| SliderConfigurator.MakeSliderConfig | ComposableSliders/src/main/java/com/composablesliders/SliderConfigurator.kt:144-160 | an absent `range` defaults to the table's span, and an absent `currentValue` to `(range.endInclusive - range.start) / 2` |
| SliderConfigurator.TypeOverBuildable | ComposableSliders/src/main/java/com/composablesliders/SliderConfigurator.kt:25-29 | the default pairs have distinct ends, so their interpolations divide by a non-zero width, exactly when `start != 20` and `end != 30` |
| SliderConfigurator.TypeOverConfig | ComposableSliders/src/main/java/com/composablesliders/SliderConfigurator.kt:21-54 | `tickOffset` is 60 and `additionalTickWidth` 0; absent `interpolationRanges` default to `start..20, 20..30, 30..end`; an absent `sliderConfig` is built from the pairs, with the interpolations as `ranges`, the slopes as `coefficients`, the pairs' span as `range`, the default current value, `scrolledValue = initialValue`, tapped (not dragged), no snapping and no extra tick; with both absent the range is `start..end` and the current value `(end - start) / 2`; a given `sliderConfig` is used as is |
| SliderConfigurator.TypeLinearConfig | ComposableSliders/src/main/java/com/composablesliders/SliderConfigurator.kt:56-93 | absent `interpolationRanges` default to the single pair `start..end` onto `0..45`; an absent `sliderConfig` has the interpolations as `ranges`, coefficient 5 on every range, the pairs' span as `range`, `currentValue = scrolledValue = initialValue`, fading ticks, dragging, no snapping and no extra tick; with both absent the range is `start..end`; a given `sliderConfig` is used as is |
| SliderConfigurator.DefaultAdditionalTickWidth | ComposableSliders/src/main/java/com/composablesliders/SliderConfigurator.kt:100 | the default `additionalTickWidth` `(5.38 - 5.2) * tickOffset / (8 / end)` equals `0.0225 * tickOffset * end`, and is positive for a positive `tickOffset` and `end` |
| SliderConfigurator.ExtraTickEnd | ComposableSliders/src/main/java/com/composablesliders/SliderConfigurator.kt:105 | the extra tick's range ends `additionalTickWidth / tickOffset` past `end`, so not before `end` for a positive `tickOffset` and a non-negative width |
| SliderConfigurator.TypeLinearAdditionalBuildable | ComposableSliders/src/main/java/com/composablesliders/SliderConfigurator.kt:101-106 | the four default pairs have distinct ends exactly when `start != 5`, `end != 21` and `additionalTickWidth != -tickOffset` |
| SliderConfigurator.TypeLinearAdditionalConfig | ComposableSliders/src/main/java/com/composablesliders/SliderConfigurator.kt:95-133 | absent `interpolationRanges` default to the four pairs that end at the extra tick; an absent `sliderConfig` has the interpolations as `ranges`, coefficient 1 on every range, the pairs' span as `range`, `currentValue = scrolledValue = initialValue`, fading ticks, dragging, snapping and the extra tick; with both absent the range runs from `start` to `end + additionalTickWidth / tickOffset`; a given `sliderConfig` is used as is |
| SliderConfigurator.TypeLinearAdditionalContiguous | ComposableSliders/src/main/java/com/composablesliders/SliderConfigurator.kt:101-106 | each start of the extra-tick table equals the previous end, the last end is `end + additionalTickWidth / tickOffset`, and the table is contiguous |
| SliderConfigurator.TypeOverTableContiguous | ComposableSliders/src/main/java/com/composablesliders/SliderConfigurator.kt:25-41 | with its default bounds, `TypeOverConfig`'s table is the interpolation of its three pairs, and it is contiguous |
| SliderConfigurator.TypeOverInterpolatedJoins | ComposableSliders/src/main/java/com/composablesliders/SliderConfigurator.kt:25-41 | the default `TypeOverConfig` interpolations are continuous at the joins: 100 at 20 and 200 at 30 from both sides |
| SliderConfigurator.TypeOverInterpolatedContiguous | ComposableSliders/src/main/java/com/composablesliders/SliderConfigurator.kt:25-29 | the three default `TypeOverConfig` ranges `0..20`, `20..30` and `30..40` are laid end to end |
| SliderConfigurator.TypeOverCoefficients | ComposableSliders/src/main/java/com/composablesliders/SliderConfigurator.kt:42-47 | the default `TypeOverConfig` coefficients are 5, 10 and 20 |
| SliderConfigurator.TypeOverShortEndDefined | ComposableSliders/src/main/java/com/composablesliders/SliderConfigurator.kt:25-41 | with `end = 25` the default `TypeOverConfig` table (third range `30..25`) is not contiguous, yet `valueCalculator` returns at every value of the slider's range `0..25` |
| SliderConfigurator.TypeOverValues | ComposableSliders/src/main/java/com/composablesliders/SliderConfigurator.kt:25-41 | in the default `TypeOverConfig` table, 25 maps to 150 and 20 to 100; -5 clamps to 0 and 45 clamps to 400 |
| SliderConfigurator.TypeLinearAdditionalDefaults | ComposableSliders/src/main/java/com/composablesliders/SliderConfigurator.kt:95-106 | with the defaults, `additionalTickWidth` is 11.34 and the range is `0..42.945`, and `valueCalculator` returns for every input |
| LinearTickSliderState.DragEnvelope | ComposableSliders/src/main/java/com/composablesliders/LinearTickSliderState.kt:56-62 | the `snapTo` envelope starts half a tick below the range; it reaches at least half a tick past the range's end exactly when there is no extra tick or the end is non-negative (the extra tick doubles the end); it is non-empty for a non-empty range under that condition |
| LinearTickSliderState.SnapPosition | ComposableSliders/src/main/java/com/composablesliders/LinearTickSliderState.kt:56-62 | the snapped position lies in the envelope; it is exactly the value when the value is already in it, the envelope's start (`start - 0.5`) below it, and the envelope's end (`end + 0.5`, or `2 * end + 0.5` with the extra tick) above it |
| LinearTickSliderState.SnapKeepsRange | ComposableSliders/src/main/java/com/composablesliders/LinearTickSliderState.kt:56-62 | every value of the slider's own range is left alone by `snapTo` (with a non-negative end when the extra tick is shown) |
| LinearTickSliderState.SnapIdempotent | ComposableSliders/src/main/java/com/composablesliders/LinearTickSliderState.kt:56-62 | snapping to an already snapped position changes nothing |
| LinearTickSliderState.IntRangeOf | ComposableSliders/src/main/java/com/composablesliders/LinearTickSliderState.kt:43 | `intRange` is `start.toInt()..endInclusive.toInt()`, and it is non-empty when the range is |
| LinearTickSliderState.LastRegularTick | ComposableSliders/src/main/java/com/composablesliders/LinearTickSliderState.kt:67-71 | `endInclusive.toInt() - 1` lies strictly below `endInclusive` |
| LinearTickSliderState.DecayTarget | ComposableSliders/src/main/java/com/composablesliders/LinearTickSliderState.kt:64-82 | in the extra tick's cell the target is `end` or the last regular tick; otherwise, when snapping, it is an integer in `intRange`; without snapping it is the value clamped into the envelope with the extra tick and into the range without it: the value itself inside the bound, its start below and its end above |
| LinearTickSliderState.SnapTargetIsNearestTick | ComposableSliders/src/main/java/com/composablesliders/LinearTickSliderState.kt:74 | a snapping target outside the extra tick's cell is `roundToInt(value)` clamped into `intRange`; it lies within 1/2 of the value when that tick exists |
| LinearTickSliderState.ExtraTickTargetIsNearer | ComposableSliders/src/main/java/com/composablesliders/LinearTickSliderState.kt:67-72 | in the extra tick's cell the target is `end` exactly when the value is nearer `end` than the last regular tick, and the last regular tick otherwise |
| LinearTickSliderState.DecayExamples | ComposableSliders/src/main/java/com/composablesliders/LinearTickSliderState.kt:64-82 | on `[0, 15]` a snapping fling to 7.3 rests on 7; on `[0, 42]` with the extra tick, 41.9 rests on 42 and 41.4 on 41 |
| LinearTickSliderState.Encode | ComposableSliders/src/main/java/com/composablesliders/LinearTickSliderState.kt:113 | `save` produces a five-entry list; its contents are pinned down by `DecodeEncode` |
| LinearTickSliderState.Decode | ComposableSliders/src/main/java/com/composablesliders/LinearTickSliderState.kt:114-121 | a successful restore reads a list whose first five entries re-encode to the restored state; a short or mistyped list fails |
| LinearTickSliderState.DecodeEncode | ComposableSliders/src/main/java/com/composablesliders/LinearTickSliderState.kt:112-121 | restoring what was saved gives back every saved field |
| LinearTickSliderState.LinearTickSliderStateImpl.constructor | ComposableSliders/src/main/java/com/composablesliders/LinearTickSliderState.kt:36-44 | a new state holds the given position, range and flags, and `intRange` is derived from the range |
| LinearTickSliderState.LinearTickSliderStateImpl.Stop | ComposableSliders/src/main/java/com/composablesliders/LinearTickSliderState.kt:52-54 | `stop` leaves the position unchanged |
| LinearTickSliderState.LinearTickSliderStateImpl.SnapTo | ComposableSliders/src/main/java/com/composablesliders/LinearTickSliderState.kt:56-62 | `snapTo` writes only the position, setting it to the clamped value, which lies in the envelope |
| LinearTickSliderState.LinearTickSliderStateImpl.DecayTo | ComposableSliders/src/main/java/com/composablesliders/LinearTickSliderState.kt:64-89 | an uninterrupted `decayTo` writes only the position and leaves it on the computed target |
| LinearTickSliderState.LinearTickSliderStateImpl.Save | ComposableSliders/src/main/java/com/composablesliders/LinearTickSliderState.kt:113 | the saved list decodes to the state's position, range and flags |
| LinearTickSliderState.LinearTickSliderStateImpl.Restore | ComposableSliders/src/main/java/com/composablesliders/LinearTickSliderState.kt:114-121 | restore succeeds exactly when the list decodes; the result is a new state that saves back to the same five entries, with `allowHaptic` reset to false |
| LinearTickSliderState.SaveRestore | ComposableSliders/src/main/java/com/composablesliders/LinearTickSliderState.kt:41 | after save and restore, position, range, `allowSnap` and `additionalTick` are kept and `allowHaptic` is false |
| LinearTickSlider.Pow10 | ComposableSliders/src/main/java/com/composablesliders/LinearTickSlider.kt:96-97 | the multiplier `10^d` is at least 1, and a non-positive `d` leaves it at 1 |
| LinearTickSlider.RoundDecimalsError | ComposableSliders/src/main/java/com/composablesliders/LinearTickSlider.kt:95-99 | `round(d)` moves a value by at most half a unit in the `d`-th decimal place |
| LinearTickSlider.RoundScaledError | ComposableSliders/src/main/java/com/composablesliders/LinearTickSlider.kt:98 | scaling, rounding half to even and unscaling errs by at most `1 / (2 * multiplier)` |
| LinearTickSlider.Round | ComposableSliders/src/main/java/com/composablesliders/LinearTickSlider.kt:95-99 | after the `repeat` loop the multiplier is `10^d`, and the result is `round(x * 10^d) / 10^d` |
| LinearTickSlider.RememberSliderState | ComposableSliders/src/main/java/com/composablesliders/LinearTickSlider.kt:49-66 | a new state with haptics off; when snapping is on, its position is snapped to `roundToInt(currentValue)`, and it equals that integer when the integer is in the envelope |
| LinearTickSlider.StateForConfigurator | ComposableSliders/src/main/java/com/composablesliders/LinearTickSlider.kt:354-360 | the public slider builds its state from the configurator's range, snapping flag and extra-tick flag, with haptics off; the initial position is the configured current value, snapped to `roundToInt` of it when snapping is on |
| LinearTickSlider.DraggedPosition | ComposableSliders/src/main/java/com/composablesliders/LinearTickSlider.kt:80-86 | after at least one pointer move the position lies in the drag envelope; no move leaves it where it was |
| LinearTickSlider.DragInsideEnvelope | ComposableSliders/src/main/java/com/composablesliders/LinearTickSlider.kt:80-86 | while every prefix of the moves stays inside the envelope, the position is the start minus the total pixel distance over the tick width |
| LinearTickSlider.DragStepInside | ComposableSliders/src/main/java/com/composablesliders/LinearTickSlider.kt:81-83 | one more move that stays inside the envelope extends an exact drag by that move |
| LinearTickSlider.DragPhase | ComposableSliders/src/main/java/com/composablesliders/LinearTickSlider.kt:74-87 | a press stops the fling and arms haptics; each pointer move snaps to `currentValue - dx / segmentWidthPx` |
| LinearTickSlider.DefaultNumSegments | ComposableSliders/src/main/java/com/composablesliders/LinearTickSlider.kt:105-106 | the default `numSegments` is `(end - start + 1).toInt()`: at least 1 for a non-empty range and the largest integer not above `end - start + 1`; it is 0, the divisor the tapped layout cannot use, exactly when `-2 < end - start < 0` |
| LinearTickSlider.VisibleWindow | ComposableSliders/src/main/java/com/composablesliders/LinearTickSlider.kt:147-156 | the window lies within the truncated range; it holds every in-range tick within `numSegments + 1` of the position, and no tick `numSegments + 2` or more away |
| LinearTickSlider.WindowExample | ComposableSliders/src/main/java/com/composablesliders/LinearTickSlider.kt:148-156 | at position 10 with 5 segments on `[0, 40]` the window is `4..16` |
| LinearTickSlider.Coefficient | ComposableSliders/src/main/java/com/composablesliders/LinearTickSlider.kt:201-208 | in drag mode the coefficient is 1; in tapped mode it is 1 where no coefficient range contains the tapped value |
| LinearTickSlider.Color | ComposableSliders/src/main/java/com/composablesliders/LinearTickSlider.kt:210-232 | in drag mode every `step`-th tick is highlighted and the rest are bars; in tapped mode a tick gets a selected colour exactly when selected, over-value-selected exactly when selected and past `overvalueIndex`, over-value-unselected exactly when unselected and past it, and an unselected tick at or below it is highlighted exactly when `i % step == 0` and a bar otherwise |
| LinearTickSlider.LayoutTicks | ComposableSliders/src/main/java/com/composablesliders/LinearTickSlider.kt:159-263 | the loop emits one visual per window index, in order, with that index's offset, alpha and colour; the final counter is the window start plus the number of reached ticks |
| LinearTickSlider.DrawTick | ComposableSliders/src/main/java/com/composablesliders/LinearTickSlider.kt:162-246 | one loop iteration computes that tick's visual and whether it adds one to the counter |
| LinearTickSlider.PickColor | ComposableSliders/src/main/java/com/composablesliders/LinearTickSlider.kt:210-232 | the colour branch gives the tick's colour class; in tapped mode it counts the tick exactly when the tick is selected |
| LinearTickSlider.DragCounts | ComposableSliders/src/main/java/com/composablesliders/LinearTickSlider.kt:234-246 | in drag mode a tick counts when its truncation is at most the position's; the extra tick counts only once the position reaches the range's end |
| LinearTickSlider.OffsetX | ComposableSliders/src/main/java/com/composablesliders/LinearTickSlider.kt:162-168 | with positive tick widths, a tick to the right of the position has a positive offset, the position's own tick a non-negative one, and a tick to its left (other than the extra tick) a negative one |
| LinearTickSlider.OffsetZeroAtPosition | ComposableSliders/src/main/java/com/composablesliders/LinearTickSlider.kt:162-168 | a tick at the position itself, other than the extra tick, has offset 0 |
| LinearTickSlider.OffsetIncreasing | ComposableSliders/src/main/java/com/composablesliders/LinearTickSlider.kt:162-168 | with positive tick widths, offsets increase strictly across the window |
| LinearTickSlider.AlphaAt | ComposableSliders/src/main/java/com/composablesliders/LinearTickSlider.kt:169 | within half the strip's width of the position (and with `minAlpha <= 1`), alpha lies between `minAlpha` and 1 |
| LinearTickSlider.AlphaBounds | ComposableSliders/src/main/java/com/composablesliders/LinearTickSlider.kt:169 | alpha is 1 at offset 0 and never above 1 when `minAlpha <= 1` |
| LinearTickSlider.AlphaFades | ComposableSliders/src/main/java/com/composablesliders/LinearTickSlider.kt:169 | a tick further from the position is never more opaque |
| LinearTickSlider.AlphaHasNoFloor | ComposableSliders/src/main/java/com/composablesliders/LinearTickSlider.kt:169 | alpha is not clamped at `minAlpha`: three half-widths out with `minAlpha = 0.1` it is -1.7 |
| LinearTickSlider.CountReached | ComposableSliders/src/main/java/com/composablesliders/LinearTickSlider.kt:234-246 | the loop adds at most one per index, so `lo..hi-1` contributes at most `hi - lo` reached ticks |
| LinearTickSlider.HapticCount | ComposableSliders/src/main/java/com/composablesliders/LinearTickSlider.kt:234-246 | the counter after the loop lies between the window's start and one past its end |
| LinearTickSlider.DragCountClosedForm | ComposableSliders/src/main/java/com/composablesliders/LinearTickSlider.kt:234-246 | in drag mode, the reached ticks among `lo..hi-1` are exactly those up to the truncated position, apart from the extra tick |
| LinearTickSlider.DragHapticCount | ComposableSliders/src/main/java/com/composablesliders/LinearTickSlider.kt:234-246 | in drag mode, with the position's tick in the window and short of the extra tick, the counter is the truncated position plus one |
| LinearTickSlider.SelectionIsPrefix | ComposableSliders/src/main/java/com/composablesliders/LinearTickSlider.kt:218-219 | in tapped mode with a non-negative coefficient, the selected ticks form a prefix of the index order |
| LinearTickSlider.CrossingATickFires | ComposableSliders/src/main/java/com/composablesliders/LinearTickSlider.kt:268-275 | dragging onto another tick fires a pulse against the count recorded at the previous tick, unless the end-bounce case applies |
| LinearTickSlider.HapticMemory.constructor | ComposableSliders/src/main/java/com/composablesliders/LinearTickSlider.kt:158 | the remembered previous count starts at 0 |
| LinearTickSlider.HapticMemory.Decide | ComposableSliders/src/main/java/com/composablesliders/LinearTickSlider.kt:268-275 | a pulse fires exactly when `HapticFires` holds: the count changed, both `allowHaptic` flags are set, and the recorded count was not `end + 1` with the position at least `end - 1`; only a pulse records the new count |
| LinearTickSlider.SettledStaysQuiet | ComposableSliders/src/main/java/com/composablesliders/LinearTickSlider.kt:268-275 | over successive compositions, once the recorded count is the count every later one sees, none of them pulses |
| LinearTickSlider.SteadyCountPulsesOnce | ComposableSliders/src/main/java/com/composablesliders/LinearTickSlider.kt:268-275 | pulses are edge-triggered: over successive compositions whose count stays the same, at most one pulses, whatever the switches and positions do |
| LinearTickSlider.FrameOf | ComposableSliders/src/main/java/com/composablesliders/LinearTickSlider.kt:105-160 | one frame's window is the visible window for the default `numSegments`, and `maxOffset` is half the width |
| LinearTickSlider.TickLabel | ComposableSliders/src/main/java/com/composablesliders/LinearTickSlider.kt:176-187 | exactly every `step`-th tick carries a label; for `TypeLinearAdditionalConfig` it is within 0.005 of the tick's mapped value (2 decimals), otherwise it is the integer within 1/2 of it, ties upward |
| LinearTickSlider.ScrolledValue | ComposableSliders/src/main/java/com/composablesliders/LinearTickSlider.kt:322-326 | the value shown under the draggable thumb is within 0.005 of the mapped value for `TypeLinearAdditionalConfig` (2 decimals) and within 0.05 for the others (1 decimal) |
| LinearTickSlider.ValueText | ComposableSliders/src/main/java/com/composablesliders/LinearTickSlider.kt:281-282 | wherever `valueCalculator` returns at the value (on any contiguous table by `ContiguousValueDefined`, and on the non-contiguous `end = 25` table by `TypeOverShortEndDefined`), the published text is the integer within 1/2 of the mapped value, ties upward |
| LinearTickSlider.ComposeTicks | ComposableSliders/src/main/java/com/composablesliders/LinearTickSlider.kt:112-284 | one composition lays out the window's ticks and decides and records the pulse; it arms haptics for `TypeOverConfig`, leaves the position alone, and publishes `roundToInt` of the value under the position (dragging) or under the tapped value; it asks only that `valueCalculator` return at that shown value |
| ComposableSliderView.CalcFraction | ComposableSliders/src/main/java/com/composablesliders/ComposableSliderView.kt:209-210 | the fraction lies in `[0, 1]`, and is 0 when `b - a == 0` |
| ComposableSliderView.FractionEndpoints | ComposableSliders/src/main/java/com/composablesliders/ComposableSliderView.kt:209-210 | for `a != b` the fraction is 0 at `a` and 1 at `b` |
| ComposableSliderView.FractionInside | ComposableSliders/src/main/java/com/composablesliders/ComposableSliderView.kt:209-210 | inside an increasing span the fraction times the span's width is `pos - a` |
| ComposableSliderView.FractionAtStart | ComposableSliders/src/main/java/com/composablesliders/ComposableSliderView.kt:209-210 | on a span with `a <= b`, a position at or below `a` has fraction 0, including on a zero-width span |
| ComposableSliderView.FractionMonotone | ComposableSliders/src/main/java/com/composablesliders/ComposableSliderView.kt:209-210 | for `a < b` the fraction never decreases as `pos` grows |
| ComposableSliderView.GetSliderOffset | ComposableSliders/src/main/java/com/composablesliders/ComposableSliderView.kt:196-207 | the offset lies in `[0, boxWidth - labelWidth]` when the label fits, and is 0 at or below the range's start |
| ComposableSliderView.OffsetAtEnd | ComposableSliders/src/main/java/com/composablesliders/ComposableSliderView.kt:202-206 | at or past the end of a proper range the offset is `boxWidth - labelWidth` |
| ComposableSliderView.OffsetLinear | ComposableSliders/src/main/java/com/composablesliders/ComposableSliderView.kt:202-206 | within the range the offset is proportional to `value - start`, scaled by the free width over the range's width |
| ComposableSliderView.OffsetMonotone | ComposableSliders/src/main/java/com/composablesliders/ComposableSliderView.kt:196-207 | when the label fits, a larger value never moves the label left |
| ComposableSliderView.RoundAboveEven | ComposableSliders/src/main/java/com/composablesliders/LinearTickSlider.kt:98 | `round` exceeds an even integer `m` exactly when its input is strictly above `m + 1/2`, because a tie goes down to the even `m` |
| ComposableSliderView.OverValueThreshold | ComposableSliders/src/main/java/com/composablesliders/ComposableSliderView.kt:141-145 | label and thumb take the over-value colour exactly when the value exceeds `overvalueIndex + 0.005`; at that point itself, rounding half to even falls back to the index |

## Left out

- Compose rendering is not modelled: `Text`, `Box`, `Column`, `Modifier`, `graphicsLayer`, `Surface`, `Slider`, colour values and sizes. Ticks are reduced to index, offset, alpha and a colour class, and the `SliderView` `when` dispatch to the preset's layout is not part of the model.
- Pointer input is not modelled as such: `awaitFirstDown`, `horizontalDrag`, `VelocityTracker` and `splineBasedDecay.calculateTargetValue`. The pointer moves, the release velocity and the ballistic target are inputs, to `DragPhase` and `DecayTo` respectively.
- LinearTickSliderState.LinearTickSliderStateImpl.DecayTo: models only where the animation ends. The `Animatable`/`FloatTweenSpec` trajectory, the velocity's effect on it and coroutine cancellation are library internals and concurrency.
- LinearTickSlider.DragPhase: each pointer move's `launch { state.snapTo(...) }` is run in sequence, so each launched snap is taken to land before the next move reads `currentValue`; interleavings of the coroutines are not modelled.
- `performHapticFeedback` is not modelled; only the fire or no-fire decision is.
- Density conversion (`Float.px`, `Int.px`) needs `Resources.getSystem()`, so pixel widths are given reals.
- `equals` and `hashCode` of the state are not modelled; they compare the `Animatable` by identity.
- IEEE-754 behaviour is not modelled: rounding error, NaN and infinities, and 32-bit `Int` overflow in `toInt()` and `roundToInt()`. Where Kotlin divides a float by zero, the model requires a non-zero divisor instead. This applies to:
  - `LinearInterpolation`, `TypeOverConfig`, `TypeLinearConfig` and `TypeLinearAdditionalConfig` (zero-width ranges);
  - `AlphaAt` and `ComposeTicks` (zero width);
  - `DraggedPosition` and `DragPhase` (zero tick width).
- SliderConfigApi.ValueCalculator: requires `ValueDefined`, the inputs on which the source returns. Outside it the source throws (an empty table from `first()`, an empty span from `coerceIn`) or, when the clamped value is in no entry, recurses forever (see `GappedTableRetriesForever`).
- SliderConfigurator.TypeLinearAdditionalConfig: `additionalTickWidth` is a required argument rather than a default one, because its Kotlin default depends on `tickOffset` and `end`; that default is `DefaultAdditionalTickWidth(tickOffset, end)`, which `TypeLinearAdditionalDefaults` passes.
- Label text is kept as the rounded number (`TickLabel`, `ScrolledValue`, the `valueText` of `ComposeTicks`). Kotlin's `Float.toString` formatting is not modelled.
- `rememberSaveable` and `LaunchedEffect` are not modelled. The saver's restore path is modelled (`Restore`), and the one-off auto-snap is part of `RememberSliderState`.
- `onValueChange` callbacks and the `ScrolledValue` box are not modelled beyond the displayed rounded value.
- app/src/main/java/com/composablesliderapp/MainActivity.kt and ComposableSliders/build.gradle.kts are not part of this model. They hold a demo activity and build configuration.
