/**
 * The handful of Kotlin numeric and range primitives the slider relies on,
 * written out over exact reals: `Float.toInt()`, `Float.roundToInt()`,
 * `kotlin.math.round` (half to even), `coerceIn` on floats and on ints, and
 * the closed ranges built with `a..b`.
 */
module KotlinMath {

  datatype Option<T> = None | Some(value: T) {
    /** A Kotlin default argument: the value passed, or the default when none was. */
    function GetOr(default: T): T {
      if Some? then value else default
    }
  }

  /** A `ClosedFloatingPointRange<Float>` built as `start..endInclusive`; it may be empty. */
  datatype FloatRange = FloatRange(start: real, endInclusive: real) {
    /** `range.contains(x)`: both bounds are inclusive. */
    predicate Contains(x: real) {
      start <= x <= endInclusive
    }

    predicate IsEmpty() {
      start > endInclusive
    }
  }

  /** An `IntRange` built as `first..last`; it may be empty. */
  datatype IntRange = IntRange(first: int, last: int) {
    predicate Contains(n: int) {
      first <= n <= last
    }
  }

  function Abs(x: real): (r: real)
    ensures r >= 0.0 && (r == x || r == -x)
  {
    if x < 0.0 then -x else x
  }

  function Max(a: int, b: int): (r: int)
    ensures r >= a && r >= b && (r == a || r == b)
  {
    if a < b then b else a
  }

  function Min(a: int, b: int): (r: int)
    ensures r <= a && r <= b && (r == a || r == b)
  {
    if a < b then a else b
  }

  /** `Float.toInt()`: truncation toward zero. */
  function ToInt(x: real): (n: int)
    ensures 0.0 <= x ==> n as real <= x < n as real + 1.0
    ensures x < 0.0 ==> n as real - 1.0 < x <= n as real
  {
    if x >= 0.0 then x.Floor else -((-x).Floor)
  }

  /** `Float.roundToInt()`: nearest integer, ties toward positive infinity. */
  function RoundToInt(x: real): (n: int)
    ensures n as real - 0.5 <= x < n as real + 0.5
  {
    (x + 0.5).Floor
  }

  /** `kotlin.math.round(Float)`: nearest integer, ties to the even neighbour. */
  function RoundHalfEven(x: real): (n: int)
    ensures Abs(x - n as real) <= 0.5
    ensures Abs(x - n as real) == 0.5 ==> n % 2 == 0
  {
    var f := x.Floor;
    var d := x - f as real;
    if d < 0.5 then f
    else if d > 0.5 then f + 1
    else if f % 2 == 0 then f
    else f + 1
  }

  /** `Float.coerceIn(lo, hi)`; Kotlin throws when `lo > hi`. */
  function CoerceIn(x: real, lo: real, hi: real): (r: real)
    requires lo <= hi
    ensures lo <= r <= hi
    ensures lo <= x <= hi ==> r == x
    ensures x < lo ==> r == lo
    ensures x > hi ==> r == hi
  {
    if x < lo then lo else if x > hi then hi else x
  }

  /** `Float.coerceIn(range)`; Kotlin throws when the range is empty. */
  function CoerceInRange(x: real, range: FloatRange): (r: real)
    requires !range.IsEmpty()
    ensures range.Contains(r)
    ensures range.Contains(x) ==> r == x
    ensures x < range.start ==> r == range.start
    ensures x > range.endInclusive ==> r == range.endInclusive
  {
    CoerceIn(x, range.start, range.endInclusive)
  }

  /** `Int.coerceIn(range)`; Kotlin throws when the range is empty. */
  function CoerceInInt(n: int, range: IntRange): (r: int)
    requires range.first <= range.last
    ensures range.Contains(r)
    ensures range.Contains(n) ==> r == n
    ensures n < range.first ==> r == range.first
    ensures n > range.last ==> r == range.last
  {
    if n < range.first then range.first else if n > range.last then range.last else n
  }

  /** Truncating an integral value gives that integer back. */
  lemma ToIntOfInt(n: int)
    ensures ToInt(n as real) == n
  {
  }

  /** Truncation is monotone; this is what keeps `toInt` ranges non-empty. */
  lemma ToIntMonotone(x: real, y: real)
    requires x <= y
    ensures ToInt(x) <= ToInt(y)
  {
  }

  /** Truncation never overshoots an integer bound on the side it approaches. */
  lemma ToIntBelowIntAbove(x: real, i: int)
    requires x <= i as real
    ensures ToInt(x) <= i
  {
  }

  lemma ToIntAboveIntBelow(x: real, i: int)
    requires i as real <= x
    ensures i <= ToInt(x)
  {
  }

  /** Scaling by a non-negative factor keeps order. */
  lemma ScaleMonotone(d: real, f1: real, f2: real)
    requires d >= 0.0 && f1 <= f2
    ensures d * f1 <= d * f2
  {
    assert d * f2 - d * f1 == d * (f2 - f1);
  }

  lemma ScaleWithin(d: real, f: real)
    requires d >= 0.0 && 0.0 <= f <= 1.0
    ensures 0.0 <= d * f <= d
  {
    ScaleMonotone(d, 0.0, f);
    ScaleMonotone(d, f, 1.0);
  }
}
