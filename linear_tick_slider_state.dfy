/**
 * The slider's motion state (LinearTickSliderState.kt): one animated
 * position that `snapTo` writes immediately (clamped to a drag envelope),
 * that `decayTo` animates to a resting target chosen by the snapping policy,
 * and that `stop` freezes; plus the saver that stores the state as a list.
 */
module LinearTickSliderState {
  import opened KotlinMath

  /**
   * The envelope `snapTo` clamps into: `[start - 0.5, end + 0.5]`, widened
   * to `[start - 0.5, 2 * end + 0.5]` when the extra tick is shown.
   */
  function DragEnvelope(range: FloatRange, additionalTick: bool): (e: FloatRange)
    ensures e.start == range.start - 0.5
    ensures range.endInclusive + 0.5 <= e.endInclusive <==> !additionalTick || range.endInclusive >= 0.0
    ensures !range.IsEmpty() && (!additionalTick || range.endInclusive >= 0.0) ==> !e.IsEmpty()
  {
    if additionalTick then FloatRange(range.start - 0.5, range.endInclusive * 2.0 + 0.5)
    else FloatRange(range.start - 0.5, range.endInclusive + 0.5)
  }

  /** The position `snapTo(value)` writes; `coerceIn` throws on an empty envelope. */
  function SnapPosition(range: FloatRange, additionalTick: bool, value: real): (p: real)
    requires !DragEnvelope(range, additionalTick).IsEmpty()
    ensures DragEnvelope(range, additionalTick).Contains(p)
    ensures DragEnvelope(range, additionalTick).Contains(value) ==> p == value
    ensures value < DragEnvelope(range, additionalTick).start ==> p == DragEnvelope(range, additionalTick).start
    ensures value > DragEnvelope(range, additionalTick).endInclusive ==>
      p == DragEnvelope(range, additionalTick).endInclusive
  {
    CoerceInRange(value, DragEnvelope(range, additionalTick))
  }

  /**
   * A drag that stays on the slider's own range is not clamped: every value of
   * a well-formed range (with a non-negative end when the extra tick is shown)
   * is a fixed point of `snapTo`.
   */
  lemma SnapKeepsRange(range: FloatRange, additionalTick: bool, value: real)
    requires range.Contains(value) && (!additionalTick || range.endInclusive >= 0.0)
    ensures !DragEnvelope(range, additionalTick).IsEmpty()
    ensures SnapPosition(range, additionalTick, value) == value
  {
  }

  /** Snapping to a position already snapped to changes nothing. */
  lemma SnapIdempotent(range: FloatRange, additionalTick: bool, value: real)
    requires !DragEnvelope(range, additionalTick).IsEmpty()
    ensures SnapPosition(range, additionalTick, SnapPosition(range, additionalTick, value))
            == SnapPosition(range, additionalTick, value)
  {
  }

  /** `intRange = range.start.toInt()..range.endInclusive.toInt()`. */
  function IntRangeOf(range: FloatRange): (r: IntRange)
    ensures r.first == ToInt(range.start) && r.last == ToInt(range.endInclusive)
    ensures range.start <= range.endInclusive ==> r.first <= r.last
  {
    IntRange(ToInt(range.start), ToInt(range.endInclusive))
  }

  /** The last regular tick before the extra one: `range.endInclusive.toInt() - 1`. */
  function LastRegularTick(range: FloatRange): (t: real)
    ensures t < range.endInclusive
  {
    (ToInt(range.endInclusive) - 1) as real
  }

  /** A snapping fling with the extra tick shown that ends past the last regular tick. */
  predicate InExtraTickCell(range: FloatRange, allowSnap: bool, additionalTick: bool, value: real) {
    allowSnap && value > LastRegularTick(range) && additionalTick
  }

  /** When `decayTo(_, value)` does not throw: every `coerceIn` it reaches has a non-empty bound. */
  predicate DecayDefined(range: FloatRange, allowSnap: bool, additionalTick: bool, value: real) {
    if allowSnap then
      InExtraTickCell(range, allowSnap, additionalTick, value) || IntRangeOf(range).first <= IntRangeOf(range).last
    else if additionalTick then
      !DragEnvelope(range, true).IsEmpty()
    else
      !range.IsEmpty()
  }

  /** The resting target `decayTo(velocity, value)` animates to. */
  function DecayTarget(range: FloatRange, allowSnap: bool, additionalTick: bool, value: real): (t: real)
    requires DecayDefined(range, allowSnap, additionalTick, value)
    ensures InExtraTickCell(range, allowSnap, additionalTick, value) ==>
      t == range.endInclusive || t == LastRegularTick(range)
    ensures allowSnap && !InExtraTickCell(range, allowSnap, additionalTick, value) ==>
      exists n :: IntRangeOf(range).Contains(n) && t == n as real
    ensures !allowSnap && additionalTick ==> DragEnvelope(range, true).Contains(t)
    ensures !allowSnap && additionalTick && DragEnvelope(range, true).Contains(value) ==> t == value
    ensures !allowSnap && additionalTick && value < DragEnvelope(range, true).start ==>
      t == DragEnvelope(range, true).start
    ensures !allowSnap && additionalTick && value > DragEnvelope(range, true).endInclusive ==>
      t == DragEnvelope(range, true).endInclusive
    ensures !allowSnap && !additionalTick ==> range.Contains(t)
    ensures !allowSnap && !additionalTick && range.Contains(value) ==> t == value
    ensures !allowSnap && !additionalTick && value < range.start ==> t == range.start
    ensures !allowSnap && !additionalTick && value > range.endInclusive ==> t == range.endInclusive
  {
    if allowSnap then
      if InExtraTickCell(range, allowSnap, additionalTick, value) then
        if value > range.endInclusive - (range.endInclusive - LastRegularTick(range)) / 2.0 then
          range.endInclusive
        else
          LastRegularTick(range)
      else
        CoerceInInt(RoundToInt(value), IntRangeOf(range)) as real
    else if additionalTick then
      CoerceInRange(value, DragEnvelope(range, true))
    else
      CoerceInRange(value, range)
  }

  /**
   * Snapping outside the extra tick's cell rests on `roundToInt(value)`
   * clamped into the integer range: the nearest tick (ties upward) when
   * that tick exists.
   */
  lemma SnapTargetIsNearestTick(range: FloatRange, allowSnap: bool, additionalTick: bool, value: real)
    requires allowSnap && !InExtraTickCell(range, allowSnap, additionalTick, value)
    requires DecayDefined(range, allowSnap, additionalTick, value)
    ensures var t := DecayTarget(range, allowSnap, additionalTick, value);
      && t == CoerceInInt(RoundToInt(value), IntRangeOf(range)) as real
      && (IntRangeOf(range).Contains(RoundToInt(value)) ==> t - 0.5 <= value < t + 0.5)
  {
  }

  /**
   * In the extra tick's cell the target is whichever of `range.endInclusive`
   * and the last regular tick is nearer the ballistic value; a value exactly
   * half-way settles on the regular tick.
   */
  lemma ExtraTickTargetIsNearer(range: FloatRange, allowSnap: bool, additionalTick: bool, value: real)
    requires InExtraTickCell(range, allowSnap, additionalTick, value)
    ensures var t := DecayTarget(range, allowSnap, additionalTick, value);
      && (t == range.endInclusive <==> Abs(value - range.endInclusive) < value - LastRegularTick(range))
      && (t == LastRegularTick(range) <==> !(Abs(value - range.endInclusive) < value - LastRegularTick(range)))
  {
  }

  /** Fling examples: on `[0, 15]` a snapping fling to 7.3 rests on 7; on `[0, 42]` with the extra tick, 41.9 rests on 42. */
  lemma DecayExamples()
    ensures DecayTarget(FloatRange(0.0, 15.0), true, false, 7.3) == 7.0
    ensures DecayTarget(FloatRange(0.0, 42.0), true, true, 41.9) == 42.0
    ensures DecayTarget(FloatRange(0.0, 42.0), true, true, 41.4) == 41.0
  {
  }

  /** A saved list entry: the saver stores floats and booleans in a `List<Any>`. */
  datatype SavedItem = FloatItem(f: real) | BoolItem(b: bool) | OtherItem

  /** The fields the saver keeps. */
  datatype SavedState = SavedState(
    currentValue: real, start: real, endInclusive: real, allowSnap: bool, additionalTick: bool)

  /** `save`: `listOf(currentValue, range.start, range.endInclusive, allowSnap, additionalTick)`. */
  function Encode(s: SavedState): (items: seq<SavedItem>)
    ensures |items| == 5
  {
    [FloatItem(s.currentValue), FloatItem(s.start), FloatItem(s.endInclusive),
     BoolItem(s.allowSnap), BoolItem(s.additionalTick)]
  }

  /**
   * The casts in `restore`: a missing entry, or one of the wrong type, makes
   * `checkNotNull` or `as` throw, modelled as `None`; entries after the
   * fifth are ignored.
   */
  function Decode(items: seq<SavedItem>): (r: Option<SavedState>)
    ensures r.Some? ==> |items| >= 5 && Encode(r.value) == items[..5]
  {
    if |items| >= 5 && items[0].FloatItem? && items[1].FloatItem? && items[2].FloatItem?
       && items[3].BoolItem? && items[4].BoolItem?
    then Some(SavedState(items[0].f, items[1].f, items[2].f, items[3].b, items[4].b))
    else None
  }

  /** Restoring what was saved gives back every saved field. */
  lemma DecodeEncode(s: SavedState)
    ensures Decode(Encode(s)) == Some(s)
  {
  }

  /** `LinearTickSliderStateImpl`: the position is `animatedly.value`. */
  class LinearTickSliderStateImpl {
    var position: real
    const range: FloatRange
    const allowSnap: bool
    const additionalTick: bool
    var allowHaptic: bool
    const intRange: IntRange := IntRangeOf(range)

    constructor (currentValue: real, range: FloatRange, allowSnap: bool, additionalTick: bool, allowHaptic: bool)
      ensures position == currentValue && this.range == range
      ensures this.allowSnap == allowSnap && this.additionalTick == additionalTick
      ensures this.allowHaptic == allowHaptic
      ensures intRange == IntRangeOf(range)
    {
      position := currentValue;
      this.range := range;
      this.allowSnap := allowSnap;
      this.additionalTick := additionalTick;
      this.allowHaptic := allowHaptic;
    }

    function CurrentValue(): real
      reads this
    {
      position
    }

    /** `stop()` halts the animation; the position stays wherever it was. */
    method Stop()
      ensures position == old(position)
    {
    }

    /** `snapTo(value)`: an immediate write of the value clamped to the drag envelope. */
    method SnapTo(value: real)
      requires !DragEnvelope(range, additionalTick).IsEmpty()
      modifies this`position
      ensures position == SnapPosition(range, additionalTick, value)
      ensures DragEnvelope(range, additionalTick).Contains(position)
    {
      position := CoerceInRange(value, DragEnvelope(range, additionalTick));
    }

    /**
     * `decayTo(velocity, value)` run to completion: the animation ends on the
     * target. The velocity shapes only the trajectory, which is not modelled.
     */
    method DecayTo(velocity: real, value: real)
      requires DecayDefined(range, allowSnap, additionalTick, value)
      modifies this`position
      ensures position == DecayTarget(range, allowSnap, additionalTick, value)
    {
      var target: real;
      if allowSnap {
        if InExtraTickCell(range, allowSnap, additionalTick, value) {
          var lastTick := LastRegularTick(range);
          if value > range.endInclusive - (range.endInclusive - lastTick) / 2.0 {
            target := range.endInclusive;
          } else {
            target := lastTick;
          }
        } else {
          target := CoerceInInt(RoundToInt(value), intRange) as real;
        }
      } else {
        if additionalTick {
          target := CoerceInRange(value, DragEnvelope(range, true));
        } else {
          target := CoerceInRange(value, range);
        }
      }
      position := target;
    }

    /** `Saver.save`. */
    function Save(): (items: seq<SavedItem>)
      reads this
      ensures Decode(items) == Some(SavedState(position, range.start, range.endInclusive, allowSnap, additionalTick))
    {
      Encode(SavedState(position, range.start, range.endInclusive, allowSnap, additionalTick))
    }

    /** `Saver.restore`: a fresh state from a saved list, with `allowHaptic` back at its default `false`. */
    static method Restore(items: seq<SavedItem>) returns (r: Option<LinearTickSliderStateImpl>)
      ensures r.Some? <==> Decode(items).Some?
      ensures r.Some? ==> fresh(r.value) && !r.value.allowHaptic
      ensures r.Some? ==> r.value.Save() == items[..5]
    {
      var d := Decode(items);
      if d.None? {
        return None;
      }
      var s := d.value;
      var state := new LinearTickSliderStateImpl(s.currentValue, FloatRange(s.start, s.endInclusive),
                                                 s.allowSnap, s.additionalTick, false);
      return Some(state);
    }
  }

  /** Saving then restoring keeps the position, range and flags, and re-disarms haptics. */
  method SaveRestore(s: LinearTickSliderStateImpl) returns (t: LinearTickSliderStateImpl)
    ensures fresh(t)
    ensures t.position == s.position && t.range == s.range
    ensures t.allowSnap == s.allowSnap && t.additionalTick == s.additionalTick
    ensures !t.allowHaptic
  {
    DecodeEncode(SavedState(s.position, s.range.start, s.range.endInclusive, s.allowSnap, s.additionalTick));
    var r := LinearTickSliderStateImpl.Restore(s.Save());
    t := r.value;
  }
}
