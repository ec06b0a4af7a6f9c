/**
 * The tick strip (LinearTickSlider.kt): the window of tick indices drawn
 * around the current position, each tick's horizontal offset, fade and
 * colour class, the running count of reached ticks that drives the haptic
 * pulse, `Float.round(decimals)`, and the initial auto-snap of the state.
 */
module LinearTickSlider {
  import opened KotlinMath
  import opened SliderConfigApi
  import opened SliderConfigurator
  import opened LinearTickSliderState

  /** `10^d` for `d > 0`, and 1 otherwise (`repeat` with a non-positive count does nothing). */
  function Pow10(d: int): (p: real)
    ensures p >= 1.0
    ensures d <= 0 ==> p == 1.0
    decreases d
  {
    if d <= 0 then 1.0 else 10.0 * Pow10(d - 1)
  }

  /** `round(x * multiplier) / multiplier`, half to even. */
  function RoundScaled(x: real, multiplier: real): real
    requires multiplier > 0.0
  {
    RoundHalfEven(x * multiplier) as real / multiplier
  }

  /** What `Float.round(decimals)` returns: `x` rounded at the `decimals`-th decimal place. */
  function RoundDecimals(x: real, decimals: int): real {
    RoundScaled(x, Pow10(decimals))
  }

  /** Rounding to `d` decimals moves a value by at most half a unit of the last kept decimal. */
  lemma RoundDecimalsError(x: real, decimals: int)
    ensures Abs(RoundDecimals(x, decimals) - x) <= 0.5 / Pow10(decimals)
  {
    RoundScaledError(x, Pow10(decimals));
  }

  /** Scaling, rounding to an integer and unscaling errs by at most half of `1 / multiplier`. */
  lemma RoundScaledError(x: real, p: real)
    requires p > 0.0
    ensures Abs(RoundScaled(x, p) - x) <= 0.5 / p
  {
    var y := x * p;
    var n := RoundHalfEven(y) as real;
    assert RoundScaled(x, p) == n / p;
    UnscaledError(n, x, p, y);
  }

  lemma UnscaledError(n: real, x: real, p: real, y: real)
    requires p > 0.0 && y == x * p && Abs(y - n) <= 0.5
    ensures Abs(n / p - x) <= 0.5 / p
  {
    assert n / p - x == (n - y) / p;
    AbsDiv(n - y, p);
    DivMonotone(Abs(n - y), 0.5, p);
  }

  lemma AbsDiv(a: real, b: real)
    requires b != 0.0
    ensures Abs(a / b) == Abs(a) / Abs(b)
  {
    var d := a / b;
    assert d * b == a;
    AbsMul(d, b);
    QuotientOfProduct(Abs(d), Abs(b), Abs(a));
  }

  lemma AbsMul(x: real, y: real)
    ensures Abs(x * y) == Abs(x) * Abs(y)
  {
    NonNegativeProduct(Abs(x), Abs(y));
    if x < 0.0 && y < 0.0 {
      assert x * y == (-x) * (-y);
    } else if x < 0.0 {
      assert x * y == -((-x) * y);
    } else if y < 0.0 {
      assert x * y == -(x * (-y));
    }
  }

  lemma NonNegativeProduct(x: real, y: real)
    requires x >= 0.0 && y >= 0.0
    ensures x * y >= 0.0
  {
  }

  lemma QuotientOfProduct(p: real, d: real, r: real)
    requires d != 0.0 && p * d == r
    ensures r / d == p
  {
  }

  lemma QuotientAtMostOne(a: real, m: real)
    requires 0.0 <= a <= m && m > 0.0
    ensures a / m <= 1.0
  {
    DivMonotone(a, m, m);
    assert m / m == 1.0;
  }

  lemma DivMonotone(a: real, b: real, m: real)
    requires m > 0.0 && a <= b
    ensures a / m <= b / m
  {
    assert b / m - a / m == (b - a) / m;
  }

  /** `Float.round(decimals)`: the multiplier is built up by a `repeat` loop. */
  method Round(x: real, decimals: int) returns (r: real)
    ensures r == RoundDecimals(x, decimals)
  {
    var multiplier := 1.0;
    var k := 0;
    while k < decimals
      invariant 0 <= k <= Max(decimals, 0)
      invariant multiplier == Pow10(k)
    {
      multiplier := multiplier * 10.0;
      k := k + 1;
    }
    assert multiplier == Pow10(decimals);
    r := RoundScaled(x, multiplier);
  }

  /**
   * `rememberSliderState`: a new state, auto-snapped once onto
   * `roundToInt(currentValue)` when snapping is allowed.
   */
  method RememberSliderState(currentValue: real, range: FloatRange, allowSnap: bool, additionalTick: bool)
    returns (state: LinearTickSliderStateImpl)
    requires allowSnap ==> !DragEnvelope(range, additionalTick).IsEmpty()
    ensures fresh(state)
    ensures state.range == range && state.allowSnap == allowSnap && state.additionalTick == additionalTick
    ensures !state.allowHaptic
    ensures state.position ==
      if allowSnap then SnapPosition(range, additionalTick, RoundToInt(currentValue) as real) else currentValue
    ensures allowSnap && DragEnvelope(range, additionalTick).Contains(RoundToInt(currentValue) as real) ==>
      state.position == RoundToInt(currentValue) as real
  {
    state := new LinearTickSliderStateImpl(currentValue, range, allowSnap, additionalTick, false);
    if allowSnap {
      state.SnapTo(RoundToInt(state.CurrentValue()) as real);
    }
  }

  /** The public `LinearTickSlider` builds its state from the configurator's `SliderConfig`. */
  method StateForConfigurator(cfg: Configurator) returns (state: LinearTickSliderStateImpl)
    requires cfg.sliderConfig.allowSnap ==> !DragEnvelope(cfg.sliderConfig.range, cfg.sliderConfig.additionalTick).IsEmpty()
    ensures fresh(state) && state.range == cfg.sliderConfig.range && !state.allowHaptic
    ensures state.allowSnap == cfg.sliderConfig.allowSnap && state.additionalTick == cfg.sliderConfig.additionalTick
    ensures state.position == if cfg.sliderConfig.allowSnap
      then SnapPosition(cfg.sliderConfig.range, cfg.sliderConfig.additionalTick, RoundToInt(cfg.sliderConfig.currentValue) as real)
      else cfg.sliderConfig.currentValue
  {
    var c := cfg.sliderConfig;
    state := RememberSliderState(c.currentValue, c.range, c.allowSnap, c.additionalTick);
  }

  /**
   * The position after the pointer moves of one drag: each move of `dx`
   * pixels snaps to `currentValue - dx / segmentWidthPx`.
   */
  function DraggedPosition(range: FloatRange, additionalTick: bool, p: real, moves: seq<real>, segmentWidthPx: real)
    : (r: real)
    requires !DragEnvelope(range, additionalTick).IsEmpty() && segmentWidthPx != 0.0
    ensures |moves| == 0 ==> r == p
    ensures |moves| > 0 ==> DragEnvelope(range, additionalTick).Contains(r)
    decreases |moves|
  {
    if |moves| == 0 then p
    else
      var before := DraggedPosition(range, additionalTick, p, moves[..|moves| - 1], segmentWidthPx);
      SnapPosition(range, additionalTick, before - moves[|moves| - 1] / segmentWidthPx)
  }

  /** Inside the envelope a drag is exact: the position moves by the pixel distance over the tick width. */
  lemma {:induction false} DragInsideEnvelope(range: FloatRange, additionalTick: bool, p: real, moves: seq<real>,
                                              segmentWidthPx: real, k: int)
    requires !DragEnvelope(range, additionalTick).IsEmpty() && segmentWidthPx != 0.0
    requires 0 <= k <= |moves|
    requires forall j :: 0 <= j <= k ==>
      DragEnvelope(range, additionalTick).Contains(p - Total(moves[..j]) / segmentWidthPx)
    ensures DraggedPosition(range, additionalTick, p, moves[..k], segmentWidthPx) == p - Total(moves[..k]) / segmentWidthPx
  {
    if k > 0 {
      DragInsideEnvelope(range, additionalTick, p, moves, segmentWidthPx, k - 1);
      assert moves[..k - 1] + [moves[k - 1]] == moves[..k];
      DragStepInside(range, additionalTick, p, moves[..k - 1], moves[k - 1], segmentWidthPx);
    }
  }

  /** One more move that stays inside the envelope extends an exact drag. */
  lemma DragStepInside(range: FloatRange, additionalTick: bool, p: real, prev: seq<real>, m: real, segmentWidthPx: real)
    requires !DragEnvelope(range, additionalTick).IsEmpty() && segmentWidthPx != 0.0
    requires DraggedPosition(range, additionalTick, p, prev, segmentWidthPx) == p - Total(prev) / segmentWidthPx
    requires DragEnvelope(range, additionalTick).Contains(p - Total(prev + [m]) / segmentWidthPx)
    ensures DraggedPosition(range, additionalTick, p, prev + [m], segmentWidthPx) == p - Total(prev + [m]) / segmentWidthPx
  {
    var q := prev + [m];
    var before := DraggedPosition(range, additionalTick, p, prev, segmentWidthPx);
    DragLastMove(range, additionalTick, p, prev, m, segmentWidthPx);
    TotalSnoc(prev, m);
    OneMoreMove(before, p, Total(prev), Total(q), m, segmentWidthPx);
  }

  lemma DragLastMove(range: FloatRange, additionalTick: bool, p: real, prev: seq<real>, m: real, segmentWidthPx: real)
    requires !DragEnvelope(range, additionalTick).IsEmpty() && segmentWidthPx != 0.0
    ensures DraggedPosition(range, additionalTick, p, prev + [m], segmentWidthPx)
            == SnapPosition(range, additionalTick,
                            DraggedPosition(range, additionalTick, p, prev, segmentWidthPx) - m / segmentWidthPx)
  {
    var q := prev + [m];
    assert q[..|q| - 1] == prev && q[|q| - 1] == m;
  }

  lemma OneMoreMove(before: real, p: real, total: real, total': real, m: real, w: real)
    requires w != 0.0 && before == p - total / w && total' == total + m
    ensures before - m / w == p - total' / w
  {
    assert (total + m) / w == total / w + m / w;
  }

  /** The sum of the pointer moves. */
  function Total(moves: seq<real>): real
    decreases |moves|
  {
    if |moves| == 0 then 0.0 else moves[0] + Total(moves[1..])
  }

  lemma {:induction false} TotalSnoc(moves: seq<real>, m: real)
    ensures Total(moves + [m]) == Total(moves) + m
    decreases |moves|
  {
    if |moves| > 0 {
      assert (moves + [m])[1..] == moves[1..] + [m];
      TotalSnoc(moves[1..], m);
    }
  }

  /**
   * One press-and-drag of the `drag` modifier: stop any fling, arm haptics,
   * then snap once per pointer move. The release fling is `DecayTo`.
   */
  method DragPhase(state: LinearTickSliderStateImpl, moves: seq<real>, segmentWidthPx: real)
    requires !DragEnvelope(state.range, state.additionalTick).IsEmpty() && segmentWidthPx != 0.0
    modifies state`position, state`allowHaptic
    ensures state.allowHaptic
    ensures state.position == DraggedPosition(state.range, state.additionalTick, old(state.position), moves, segmentWidthPx)
  {
    ghost var p0 := state.position;
    state.Stop();
    state.allowHaptic := true;
    var k := 0;
    while k < |moves|
      invariant 0 <= k <= |moves|
      invariant state.allowHaptic
      invariant state.position == DraggedPosition(state.range, state.additionalTick, p0, moves[..k], segmentWidthPx)
    {
      assert moves[..k + 1][..k] == moves[..k];
      state.SnapTo(state.CurrentValue() - moves[k] / segmentWidthPx);
      k := k + 1;
    }
    assert moves[..|moves|] == moves;
  }

  /** The indices `start..end` drawn in one frame. */
  datatype Window = Window(start: int, end: int) {
    predicate Contains(i: int) {
      start <= i <= end
    }
  }

  /** The default `numSegments`, `(range.endInclusive - range.start + 1).toInt()`. */
  function DefaultNumSegments(range: FloatRange): (n: int)
    ensures !range.IsEmpty() ==>
      n >= 1 && n as real <= range.endInclusive - range.start + 1.0 < n as real + 1.0
    ensures n == 0 <==> -2.0 < range.endInclusive - range.start < 0.0
  {
    ToInt(range.endInclusive - range.start + 1.0)
  }

  /**
   * The window: `segments = numSegments + 1` ticks each side of the current
   * value, truncated with `toInt()` and kept within the truncated range.
   * It holds every in-range integer within `segments` of the value, and
   * nothing as far as `segments + 1` from it.
   */
  function VisibleWindow(currentValue: real, numSegments: int, range: FloatRange): (w: Window)
    ensures w.start >= ToInt(range.start) && w.end <= ToInt(range.endInclusive)
    ensures forall i {:trigger w.Contains(i)} :: w.Contains(i) ==>
      currentValue - (numSegments + 1) as real - 1.0 < i as real < currentValue + (numSegments + 1) as real + 1.0
    ensures forall i {:trigger w.Contains(i)} ::
      ToInt(range.start) <= i <= ToInt(range.endInclusive)
      && currentValue - (numSegments + 1) as real <= i as real <= currentValue + (numSegments + 1) as real
      ==> w.Contains(i)
  {
    var segments := numSegments + 1;
    Window(Max(ToInt(currentValue - segments as real), ToInt(range.start)),
           Min(ToInt(currentValue + segments as real), ToInt(range.endInclusive)))
  }

  /** At position 10 with 5 segments (so 6 each side), the window on `[0, 40]` is `4..16`. */
  lemma WindowExample()
    ensures VisibleWindow(10.0, 5, FloatRange(0.0, 40.0)) == Window(4, 16)
  {
    ToIntOfInt(4);
    ToIntOfInt(16);
  }

  /** Tick colour classes, as `uiConfig` names its colours. */
  datatype TickColor = HighlightItem | Bar | SelectedTick | OvervalueSelected | OvervalueUnselected

  /** What one tick of the strip is drawn with. */
  datatype TickVisual = TickVisual(index: int, offsetX: real, alpha: real, color: TickColor)

  /** Everything one frame of the strip reads. */
  datatype TickFrame = TickFrame(
    currentValue: real,          // linearTickValueState.currentValue
    sliderValue: real,           // sliderValueState.floatValue, the tapped value
    allowDrag: bool,
    coefficients: CoefficientTable,
    additionalTick: bool,        // sliderConfig.additionalTick
    configRangeEnd: real,        // sliderConfig.range.endInclusive
    segmentWidthPx: real,
    additionalTickWidthPx: real,
    maxOffset: real,             // constraints.maxWidth / 2
    ui: UiConfig,
    window: Window)

  /** The coefficient: `1f` when dragging, else the slope looked up at the tapped value. */
  function Coefficient(f: TickFrame): (c: real)
    ensures f.allowDrag ==> c == 1.0
    ensures !f.allowDrag && NoneContains(f.coefficients, f.sliderValue) ==> c == 1.0
  {
    if f.allowDrag then 1.0 else CoefficientCalculator(f.sliderValue, f.coefficients)
  }

  /** The last tick of the window stands for the extra tick when that is shown. */
  predicate IsExtraTick(f: TickFrame, i: int) {
    i == f.window.end && f.additionalTick
  }

  /** `offsetX`: distance from the position in tick widths, pushed out by the extra width on the extra tick. */
  function OffsetX(f: TickFrame, i: int): (o: real)
    ensures f.segmentWidthPx > 0.0 && f.additionalTickWidthPx >= 0.0 ==>
      && (i as real > f.currentValue ==> o > 0.0)
      && (i as real == f.currentValue ==> o >= 0.0)
      && (i as real < f.currentValue && !IsExtraTick(f, i) ==> o < 0.0)
  {
    var d := i as real - f.currentValue;
    SignOfScaled(d, f.segmentWidthPx);
    d * f.segmentWidthPx + (if IsExtraTick(f, i) then f.additionalTickWidthPx else 0.0)
  }

  lemma SignOfScaled(d: real, w: real)
    ensures w > 0.0 ==> (d > 0.0 ==> d * w > 0.0) && (d == 0.0 ==> d * w == 0.0) && (d < 0.0 ==> d * w < 0.0)
  {
    if w > 0.0 && d < 0.0 {
      assert d * w == -((-d) * w);
    }
  }

  /** `alpha = 1 - (1 - minAlpha) * |offsetX / maxOffset|`, with no lower clamp. */
  function AlphaAt(offsetX: real, maxOffset: real, minAlpha: real): (a: real)
    requires maxOffset != 0.0
    ensures minAlpha <= 1.0 && Abs(offsetX) <= Abs(maxOffset) ==> minAlpha <= a <= 1.0
  {
    AbsQuotientAtMostOne(offsetX, maxOffset);
    Faded(1.0 - minAlpha, Abs(offsetX / maxOffset))
  }

  /** Full opacity less `d` times the fraction `t` of the half-width. */
  function Faded(d: real, t: real): (a: real)
    requires t >= 0.0
    ensures d >= 0.0 && t <= 1.0 ==> 1.0 - d <= a <= 1.0
  {
    FadeWithin(d, t);
    1.0 - d * t
  }

  lemma AbsQuotientAtMostOne(a: real, b: real)
    requires b != 0.0
    ensures Abs(a) <= Abs(b) ==> Abs(a / b) <= 1.0
  {
    if Abs(a) <= Abs(b) {
      AbsDiv(a, b);
      QuotientAtMostOne(Abs(a), Abs(b));
    }
  }

  lemma FadeWithin(d: real, t: real)
    requires t >= 0.0
    ensures d >= 0.0 && t <= 1.0 ==> 0.0 <= d * t <= d
  {
    if d >= 0.0 && t <= 1.0 {
      ScaleWithin(d, t);
    }
  }

  /** Tapped mode: tick `i` is selected when `i * coef <= roundToInt(sliderValue * coef)`. */
  predicate Selected(f: TickFrame, i: int) {
    SelectedAt(i, f.sliderValue, Coefficient(f))
  }

  predicate SelectedAt(i: int, sliderValue: real, coefficient: real) {
    (i as real) * coefficient <= RoundToInt(sliderValue * coefficient) as real
  }

  /** Drag mode: tick `i` is reached when its truncation is at most the position's; the extra tick only at the range's end. */
  predicate DragReached(f: TickFrame, i: int) {
    && TruncatedAtMost(i, f.currentValue, Coefficient(f))
    && (IsExtraTick(f, i) ==> f.currentValue >= f.configRangeEnd)
  }

  /** `(i * coef).toInt() <= (currentValue * coef).toInt()`. */
  predicate TruncatedAtMost(i: int, currentValue: real, coefficient: real) {
    ToInt(i as real * coefficient) <= ToInt(currentValue * coefficient)
  }

  /** Whether tick `i` adds one to the haptic counter. */
  predicate Reached(f: TickFrame, i: int) {
    if f.allowDrag then DragReached(f, i) else Selected(f, i)
  }

  /** The bar colour of tick `i`; `%` by a zero `step` throws. */
  function Color(f: TickFrame, i: int): (c: TickColor)
    requires f.ui.step != 0
    ensures f.allowDrag ==> (c == HighlightItem <==> i % f.ui.step == 0) && (c == HighlightItem || c == Bar)
    ensures !f.allowDrag ==> ((c == SelectedTick || c == OvervalueSelected) <==> Selected(f, i))
    ensures !f.allowDrag ==> (c == OvervalueSelected <==> Selected(f, i) && i > f.ui.overvalueIndex)
    ensures !f.allowDrag ==> (c == OvervalueUnselected <==> !Selected(f, i) && i > f.ui.overvalueIndex)
    ensures !f.allowDrag && !Selected(f, i) && i <= f.ui.overvalueIndex ==>
      (c == HighlightItem <==> i % f.ui.step == 0) && (c == HighlightItem || c == Bar)
  {
    if f.allowDrag then
      if i % f.ui.step == 0 then HighlightItem else Bar
    else if Selected(f, i) then
      if i > f.ui.overvalueIndex then OvervalueSelected else SelectedTick
    else if i > f.ui.overvalueIndex then OvervalueUnselected
    else if i % f.ui.step == 0 then HighlightItem
    else Bar
  }

  function Tick(f: TickFrame, i: int): TickVisual
    requires f.maxOffset != 0.0 && f.ui.step != 0
  {
    TickVisual(i, OffsetX(f, i), AlphaAt(OffsetX(f, i), f.maxOffset, f.ui.minAlphaAnim), Color(f, i))
  }

  /** The number of reached ticks among `lo, ..., hi - 1`. */
  function CountReached(f: TickFrame, lo: int, hi: int): (r: nat)
    ensures r <= Max(hi - lo, 0)
    decreases hi - lo
  {
    if hi <= lo then 0 else CountReached(f, lo, hi - 1) + (if Reached(f, hi - 1) then 1 else 0)
  }

  /** `currentHapticValue` after the loop: the window's start plus the reached ticks in it. */
  function HapticCount(f: TickFrame): (h: int)
    ensures f.window.start <= h <= Max(f.window.end + 1, f.window.start)
  {
    f.window.start + CountReached(f, f.window.start, f.window.end + 1)
  }

  /** One visual per index of the window, in order, each the visual of its tick. */
  predicate LaidOut(f: TickFrame, ticks: seq<TickVisual>)
    requires f.maxOffset != 0.0 && f.ui.step != 0
  {
    && |ticks| == (if f.window.end < f.window.start then 0 else f.window.end - f.window.start + 1)
    && forall k :: 0 <= k < |ticks| ==> ticks[k] == Tick(f, f.window.start + k)
  }

  /** The `for (i in start..end)` loop: one visual per tick, counting reached ticks as it goes. */
  method LayoutTicks(f: TickFrame) returns (ticks: seq<TickVisual>, currentHapticValue: int)
    requires f.maxOffset != 0.0 && f.ui.step != 0
    ensures LaidOut(f, ticks)
    ensures currentHapticValue == HapticCount(f)
  {
    var start, end := f.window.start, f.window.end;
    ticks := [];
    currentHapticValue := start;
    var i := start;
    while i <= end
      invariant start <= i <= Max(end + 1, start)
      invariant |ticks| == i - start
      invariant forall k :: 0 <= k < |ticks| ==> ticks[k] == Tick(f, start + k)
      invariant currentHapticValue == start + CountReached(f, start, i)
    {
      var tick, reached := DrawTick(f, i);
      if reached {
        currentHapticValue := currentHapticValue + 1;
      }
      ticks := ticks + [tick];
      i := i + 1;
    }
  }

  /** The body of the loop for tick `i`: its visual, and whether it adds one to the haptic counter. */
  method DrawTick(f: TickFrame, i: int) returns (tick: TickVisual, reached: bool)
    requires f.maxOffset != 0.0 && f.ui.step != 0
    ensures tick == Tick(f, i)
    ensures reached == Reached(f, i)
  {
    var offsetX := (i as real - f.currentValue) * f.segmentWidthPx
                   + (if i == f.window.end && f.additionalTick then f.additionalTickWidthPx else 0.0);
    var alpha := 1.0 - (1.0 - f.ui.minAlphaAnim) * Abs(offsetX / f.maxOffset);
    assert offsetX == OffsetX(f, i);
    assert alpha == AlphaAt(offsetX, f.maxOffset, f.ui.minAlphaAnim);
    var coefficient := if f.allowDrag then 1.0 else CoefficientCalculator(f.sliderValue, f.coefficients);
    assert coefficient == Coefficient(f);
    var color, selected := PickColor(f, i, coefficient);
    var dragged := DragCounts(f, i, coefficient);
    reached := selected || dragged;
    tick := TickVisual(i, offsetX, alpha, color);
  }

  /** The colour branch of the loop body; in tapped mode a selected tick is counted. */
  method PickColor(f: TickFrame, i: int, coefficient: real) returns (color: TickColor, selected: bool)
    requires f.ui.step != 0 && coefficient == Coefficient(f)
    ensures color == Color(f, i)
    ensures selected == (!f.allowDrag && Selected(f, i))
  {
    selected := false;
    if f.allowDrag {
      color := if i % f.ui.step == 0 then HighlightItem else Bar;
    } else {
      if SelectedAt(i, f.sliderValue, coefficient) {
        selected := true;
        color := if i > f.ui.overvalueIndex then OvervalueSelected else SelectedTick;
      } else if i > f.ui.overvalueIndex {
        color := OvervalueUnselected;
      } else if i % f.ui.step == 0 {
        color := HighlightItem;
      } else {
        color := Bar;
      }
    }
  }

  /** The drag branch of the loop body: the extra tick counts only once the position reaches the range's end. */
  method DragCounts(f: TickFrame, i: int, coefficient: real) returns (counts: bool)
    requires coefficient == Coefficient(f)
    ensures counts == (f.allowDrag && DragReached(f, i))
  {
    counts := false;
    if f.allowDrag && TruncatedAtMost(i, f.currentValue, coefficient) {
      if i == f.window.end && f.additionalTick {
        if f.currentValue >= f.configRangeEnd {
          counts := true;
        }
      } else {
        counts := true;
      }
    }
  }

  /** A tick at the position itself, other than the extra tick, sits at offset 0. */
  lemma OffsetZeroAtPosition(f: TickFrame, i: int)
    requires i as real == f.currentValue && !IsExtraTick(f, i)
    ensures OffsetX(f, i) == 0.0
  {
  }

  /** With positive tick widths, offsets grow strictly with the index across the window. */
  lemma OffsetIncreasing(f: TickFrame, i: int, j: int)
    requires f.segmentWidthPx > 0.0 && f.additionalTickWidthPx >= 0.0
    requires i < j <= f.window.end
    ensures OffsetX(f, i) < OffsetX(f, j)
  {
    StrictScale(i as real - f.currentValue, j as real - f.currentValue, f.segmentWidthPx);
    assert OffsetX(f, i) == (i as real - f.currentValue) * f.segmentWidthPx;
    assert OffsetX(f, j) >= (j as real - f.currentValue) * f.segmentWidthPx;
    assert (i as real - f.currentValue) * f.segmentWidthPx < (j as real - f.currentValue) * f.segmentWidthPx;
  }

  lemma StrictScale(a: real, b: real, w: real)
    requires w > 0.0 && a < b
    ensures a * w < b * w
  {
    PositiveProduct(b - a, w);
    assert b * w - a * w == (b - a) * w;
  }

  /** A tick is fully opaque at offset 0, and never more than opaque when `minAlpha <= 1`. */
  lemma AlphaBounds(offsetX: real, maxOffset: real, minAlpha: real)
    requires maxOffset != 0.0
    ensures AlphaAt(0.0, maxOffset, minAlpha) == 1.0
    ensures minAlpha <= 1.0 ==> AlphaAt(offsetX, maxOffset, minAlpha) <= 1.0
  {
    assert 0.0 / maxOffset == 0.0;
    if minAlpha <= 1.0 {
      NonNegativeProduct(1.0 - minAlpha, Abs(offsetX / maxOffset));
    }
  }

  /** Ticks fade as they move away from the position, when `minAlpha <= 1`. */
  lemma AlphaFades(o1: real, o2: real, maxOffset: real, minAlpha: real)
    requires maxOffset != 0.0 && minAlpha <= 1.0
    requires Abs(o1) <= Abs(o2)
    ensures AlphaAt(o2, maxOffset, minAlpha) <= AlphaAt(o1, maxOffset, minAlpha)
  {
    var m := Abs(maxOffset);
    AbsDiv(o1, maxOffset);
    AbsDiv(o2, maxOffset);
    DivMonotone(Abs(o1), Abs(o2), m);
    FadedMonotone(1.0 - minAlpha, Abs(o1 / maxOffset), Abs(o2 / maxOffset));
  }

  lemma FadedMonotone(d: real, t1: real, t2: real)
    requires d >= 0.0 && 0.0 <= t1 <= t2
    ensures Faded(d, t2) <= Faded(d, t1)
  {
    ScaleMonotone(d, t1, t2);
    assert Faded(d, t1) == 1.0 - d * t1 && Faded(d, t2) == 1.0 - d * t2;
  }

  /** Alpha has no floor at `minAlpha`: three half-widths out, `minAlpha = 0.1` gives -1.7. */
  lemma AlphaHasNoFloor()
    ensures AlphaAt(3.0, 1.0, 0.1) == -1.7
  {
  }

  /**
   * Dragging, the ticks below `hi` that are reached are exactly those up
   * to the truncated position (the extra tick aside).
   */
  lemma {:induction false} DragCountClosedForm(f: TickFrame, lo: int, hi: int)
    requires f.allowDrag
    requires f.additionalTick ==> hi <= f.window.end
    ensures CountReached(f, lo, hi) == if hi <= lo then 0 else Max(0, Min(ToInt(f.currentValue) + 1, hi) - lo)
    decreases hi - lo
  {
    if hi > lo {
      DragCountClosedForm(f, lo, hi - 1);
      ToIntOfInt(hi - 1);
      assert (hi - 1) as real * 1.0 == (hi - 1) as real;
      assert f.currentValue * 1.0 == f.currentValue;
      assert Reached(f, hi - 1) <==> hi - 1 <= ToInt(f.currentValue);
    }
  }

  /**
   * Dragging with the position's tick in the window (and short of the extra
   * tick), the haptic counter is the truncated position plus one: it changes
   * exactly when the position crosses onto another tick.
   */
  lemma DragHapticCount(f: TickFrame)
    requires f.allowDrag
    requires f.window.Contains(ToInt(f.currentValue))
    requires f.additionalTick ==> ToInt(f.currentValue) < f.window.end
    ensures HapticCount(f) == ToInt(f.currentValue) + 1
  {
    var s, e := f.window.start, f.window.end;
    if f.additionalTick {
      DragCountClosedForm(f, s, e);
      ToIntOfInt(e);
      assert e as real * 1.0 == e as real;
      assert f.currentValue * 1.0 == f.currentValue;
      assert !Reached(f, e);
    } else {
      DragCountClosedForm(f, s, e + 1);
    }
  }

  /**
   * Tapped mode with a non-negative coefficient: the selected ticks form a
   * prefix of the index order.
   */
  lemma SelectionIsPrefix(f: TickFrame, i: int, j: int)
    requires !f.allowDrag && Coefficient(f) >= 0.0
    requires j <= i && Selected(f, i)
    ensures Selected(f, j)
  {
    SelectedAtBelow(i, j, f.sliderValue, Coefficient(f));
  }

  lemma SelectedAtBelow(i: int, j: int, sliderValue: real, coefficient: real)
    requires coefficient >= 0.0 && j <= i && SelectedAt(i, sliderValue, coefficient)
    ensures SelectedAt(j, sliderValue, coefficient)
  {
    ScaleMonotone(coefficient, j as real, i as real);
  }

  /** The pulse decision: a changed count, both haptic switches on, and not the end-bounce case. */
  predicate HapticFires(current: int, previous: int, stateAllowHaptic: bool, configAllowHaptic: bool,
                        windowEnd: int, currentValue: real) {
    && current != previous
    && stateAllowHaptic
    && configAllowHaptic
    && !(previous == windowEnd + 1 && currentValue >= (windowEnd - 1) as real)
  }

  /**
   * Dragging from one tick onto another (both in their windows, neither the
   * extra tick, and not the end-bounce case) fires a pulse when the first
   * frame's count was recorded.
   */
  lemma CrossingATickFires(f: TickFrame, g: TickFrame)
    requires f.allowDrag && g.allowDrag
    requires f.window.Contains(ToInt(f.currentValue)) && g.window.Contains(ToInt(g.currentValue))
    requires f.additionalTick ==> ToInt(f.currentValue) < f.window.end
    requires g.additionalTick ==> ToInt(g.currentValue) < g.window.end
    requires ToInt(f.currentValue) != ToInt(g.currentValue)
    requires !(HapticCount(f) == g.window.end + 1 && g.currentValue >= (g.window.end - 1) as real)
    ensures HapticFires(HapticCount(g), HapticCount(f), true, true, g.window.end, g.currentValue)
  {
    DragHapticCount(f);
    DragHapticCount(g);
  }

  /** `previousHapticValue`, remembered across frames and starting at 0. */
  class HapticMemory {
    var previous: int

    constructor ()
      ensures previous == 0
    {
      previous := 0;
    }

    /** Decide the pulse; only a pulse records the new count. */
    method Decide(current: int, stateAllowHaptic: bool, configAllowHaptic: bool, windowEnd: int, currentValue: real)
      returns (fired: bool)
      modifies this
      ensures fired == HapticFires(current, old(previous), stateAllowHaptic, configAllowHaptic, windowEnd, currentValue)
      ensures previous == if fired then current else old(previous)
    {
      fired := current != previous && stateAllowHaptic && configAllowHaptic
               && !(previous == windowEnd + 1 && currentValue >= (windowEnd - 1) as real);
      if fired {
        previous := current;
      }
    }
  }

  /** What one composition feeds the pulse decision besides the recorded count. */
  datatype HapticInput = HapticInput(count: int, stateAllowHaptic: bool, configAllowHaptic: bool,
                                     windowEnd: int, currentValue: real)

  /**
   * Successive compositions, as successive `HapticMemory.Decide` calls see
   * them: each decides against the count recorded so far and records its own
   * count only when it pulses.
   */
  function Replay(previous: int, frames: seq<HapticInput>): (pulses: seq<bool>)
    ensures |pulses| == |frames|
    decreases |frames|
  {
    if |frames| == 0 then []
    else
      var h := frames[0];
      var fires := HapticFires(h.count, previous, h.stateAllowHaptic, h.configAllowHaptic, h.windowEnd, h.currentValue);
      [fires] + Replay(if fires then h.count else previous, frames[1..])
  }

  /** Once the recorded count is the one every later composition sees, no composition pulses. */
  lemma {:induction false} SettledStaysQuiet(previous: int, frames: seq<HapticInput>)
    requires forall k :: 0 <= k < |frames| ==> frames[k].count == previous
    ensures forall k :: 0 <= k < |frames| ==> !Replay(previous, frames)[k]
    decreases |frames|
  {
    if |frames| > 0 {
      var rest := frames[1..];
      assert forall k :: 0 <= k < |rest| ==> rest[k] == frames[k + 1];
      SettledStaysQuiet(previous, rest);
      var p := Replay(previous, frames);
      assert p == [false] + Replay(previous, rest);
      assert forall k :: 1 <= k < |p| ==> p[k] == Replay(previous, rest)[k - 1];
    }
  }

  /**
   * Pulses are edge-triggered: while the count stays the same, at most one
   * of the successive compositions pulses.
   */
  lemma {:induction false} SteadyCountPulsesOnce(previous: int, frames: seq<HapticInput>, count: int)
    requires forall k :: 0 <= k < |frames| ==> frames[k].count == count
    ensures var p := Replay(previous, frames);
      forall i, j :: 0 <= i < j < |p| && p[i] ==> !p[j]
    decreases |frames|
  {
    if |frames| > 0 {
      var rest := frames[1..];
      var h := frames[0];
      var fires := HapticFires(h.count, previous, h.stateAllowHaptic, h.configAllowHaptic, h.windowEnd, h.currentValue);
      var p := Replay(previous, frames);
      var q := Replay(if fires then count else previous, rest);
      assert p == [fires] + q;
      assert forall k :: 0 <= k < |rest| ==> rest[k] == frames[k + 1];
      if fires {
        SettledStaysQuiet(count, rest);
        assert q == Replay(count, rest);
        assert forall k :: 1 <= k < |p| ==> !p[k] by {
          forall k | 1 <= k < |p| ensures !p[k] {
            assert p[k] == q[k - 1] == Replay(count, rest)[k - 1];
          }
        }
      } else {
        SteadyCountPulsesOnce(previous, rest, count);
        assert q == Replay(previous, rest);
        forall i, j | 0 <= i < j < |p| && p[i] ensures !p[j] {
          assert i >= 1;
          assert p[i] == q[i - 1] && p[j] == q[j - 1];
          assert 0 <= i - 1 < j - 1 < |q| && q[i - 1];
        }
      }
    }
  }

  /** The frame one composition of the strip sees. */
  function FrameOf(cfg: Configurator, stateRange: FloatRange, currentValue: real, sliderValue: real,
                   maxWidthPx: real, tickOffsetPx: real, additionalTickWidthPx: real): (f: TickFrame)
    requires cfg.sliderConfig.allowDrag || DefaultNumSegments(stateRange) != 0
    ensures f.window == VisibleWindow(currentValue, DefaultNumSegments(stateRange), stateRange)
    ensures f.maxOffset == maxWidthPx / 2.0 && f.ui == cfg.sliderConfig.uiConfig
  {
    var c := cfg.sliderConfig;
    var numSegments := DefaultNumSegments(stateRange);
    TickFrame(currentValue, sliderValue, c.allowDrag, c.coefficients, c.additionalTick, c.range.endInclusive,
              if c.allowDrag then tickOffsetPx else maxWidthPx / numSegments as real,
              additionalTickWidthPx, maxWidthPx / 2.0, c.uiConfig,
              VisibleWindow(currentValue, numSegments, stateRange))
  }

  /** The label under tick `i`: every `step`-th tick shows its display value, rounded as the preset formats it. */
  function TickLabel(cfg: Configurator, i: int): (shown: Option<real>)
    requires cfg.sliderConfig.uiConfig.step != 0
    requires i % cfg.sliderConfig.uiConfig.step == 0 ==> ValueDefined(cfg.sliderConfig.ranges, i as real)
    ensures shown.Some? <==> i % cfg.sliderConfig.uiConfig.step == 0
    ensures shown.Some? && cfg.preset == TypeLinearAdditional ==>
      Abs(shown.value - ValueCalculator(i as real, cfg.sliderConfig.ranges)) <= 0.005
    ensures shown.Some? && cfg.preset != TypeLinearAdditional ==>
      shown.value - 0.5 <= ValueCalculator(i as real, cfg.sliderConfig.ranges) < shown.value + 0.5
      && shown.value == shown.value.Floor as real
  {
    if i % cfg.sliderConfig.uiConfig.step == 0 then
      var v := ValueCalculator(i as real, cfg.sliderConfig.ranges);
      RoundDecimalsError(v, 2);
      assert Pow10(2) == 100.0;
      Some(if cfg.preset == TypeLinearAdditional then RoundDecimals(v, 2) else RoundToInt(v) as real)
    else None
  }

  /** The value under the draggable slider's thumb, rounded to 2 decimals for the extra-tick preset and 1 otherwise. */
  function ScrolledValue(cfg: Configurator, currentValue: real): (shown: real)
    requires ValueDefined(cfg.sliderConfig.ranges, currentValue)
    ensures Abs(shown - ValueCalculator(currentValue, cfg.sliderConfig.ranges))
            <= if cfg.preset == TypeLinearAdditional then 0.005 else 0.05
  {
    var decimals := if cfg.preset == TypeLinearAdditional then 2 else 1;
    RoundDecimalsError(ValueCalculator(currentValue, cfg.sliderConfig.ranges), decimals);
    assert Pow10(1) == 10.0 && Pow10(2) == 100.0;
    RoundDecimals(ValueCalculator(currentValue, cfg.sliderConfig.ranges), decimals)
  }

  /** `sliderValueTextState`: the displayed value under `value`, rounded with `roundToInt()`. */
  function ValueText(cfg: Configurator, value: real): (shown: int)
    requires ValueDefined(cfg.sliderConfig.ranges, value)
    ensures shown as real - 0.5 <= ValueCalculator(value, cfg.sliderConfig.ranges) < shown as real + 0.5
  {
    RoundToInt(ValueCalculator(value, cfg.sliderConfig.ranges))
  }

  /**
   * One composition of the private `LinearTickSlider` body: lay out the
   * window, decide the haptic pulse, arm haptics for `TypeOverConfig` after
   * the first frame, and publish the displayed value.
   */
  method ComposeTicks(state: LinearTickSliderStateImpl, memory: HapticMemory, cfg: Configurator,
                      sliderValue: real, maxWidthPx: real, tickOffsetPx: real, additionalTickWidthPx: real)
    returns (ticks: seq<TickVisual>, pulse: bool, valueText: int)
    requires cfg.sliderConfig.allowDrag || DefaultNumSegments(state.range) != 0
    requires maxWidthPx != 0.0 && cfg.sliderConfig.uiConfig.step != 0
    requires ValueDefined(cfg.sliderConfig.ranges, if cfg.sliderConfig.allowDrag then state.position else sliderValue)
    modifies memory, state`allowHaptic
    ensures var f := FrameOf(cfg, state.range, old(state.position), sliderValue, maxWidthPx, tickOffsetPx, additionalTickWidthPx);
      && LaidOut(f, ticks)
      && pulse == HapticFires(HapticCount(f), old(memory.previous), old(state.allowHaptic),
                              cfg.sliderConfig.allowHaptic, f.window.end, old(state.position))
      && memory.previous == (if pulse then HapticCount(f) else old(memory.previous))
    ensures state.allowHaptic == (old(state.allowHaptic) || cfg.preset == TypeOver)
    ensures state.position == old(state.position)
    ensures valueText == ValueText(cfg, if cfg.sliderConfig.allowDrag then state.position else sliderValue)
  {
    var currentValue := state.CurrentValue();
    var f := FrameOf(cfg, state.range, currentValue, sliderValue, maxWidthPx, tickOffsetPx, additionalTickWidthPx);
    var count;
    ticks, count := LayoutTicks(f);
    pulse := memory.Decide(count, state.allowHaptic, cfg.sliderConfig.allowHaptic, f.window.end, currentValue);
    if cfg.preset == TypeOver {
      state.allowHaptic := true;
    }
    var value := if cfg.sliderConfig.allowDrag then currentValue else sliderValue;
    valueText := ValueText(cfg, value);
  }
}
