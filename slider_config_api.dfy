/**
 * The piecewise lookup shared by every slider preset (SliderConfigApi.kt):
 * a table is a list of pairs whose first component is a closed range;
 * `valueCalculator` applies the function of the first range containing the
 * input, clamping the input into the table's span and retrying when no range
 * contains it, and `coefficientCalculator` returns the constant of the first
 * containing range, or 1 when there is none.
 */
module SliderConfigApi {
  import opened KotlinMath

  /** A value table: each range carries the function that maps it to displayed values. */
  type ValueTable = seq<(FloatRange, real -> real)>

  /** A coefficient table: each range carries a constant local slope. */
  type CoefficientTable = seq<(FloatRange, real)>

  /** Entry `i` is the first one of the table whose range contains `x`. */
  ghost predicate IsFirstContaining<T>(table: seq<(FloatRange, T)>, x: real, i: int) {
    && 0 <= i < |table|
    && table[i].0.Contains(x)
    && forall j :: 0 <= j < i ==> !table[j].0.Contains(x)
  }

  /** No entry of the table contains `x`. */
  ghost predicate NoneContains<T>(table: seq<(FloatRange, T)>, x: real) {
    forall j :: 0 <= j < |table| ==> !table[j].0.Contains(x)
  }

  /** `List.find { it.first.contains(x) }`, reporting the index of the entry found. */
  function Find<T>(table: seq<(FloatRange, T)>, x: real): (r: Option<nat>)
    ensures r.Some? ==> IsFirstContaining(table, x, r.value)
    ensures r.None? <==> NoneContains(table, x)
  {
    if |table| == 0 then None
    else if table[0].0.Contains(x) then Some(0)
    else match Find(table[1..], x)
      case None => None
      case Some(k) => Some(k + 1)
  }

  /** The span `[first.start, last.endInclusive]` the retry clamps into; `first()` and `last()` throw on an empty list. */
  function Span<T>(table: seq<(FloatRange, T)>): (s: FloatRange)
    requires |table| > 0
  {
    FloatRange(table[0].0.start, table[|table| - 1].0.endInclusive)
  }

  /** The input of the retry: `x.coerceIn(first.start, last.endInclusive)`. */
  function Clamped<T>(table: seq<(FloatRange, T)>, x: real): (y: real)
    requires |table| > 0 && !Span(table).IsEmpty()
    ensures Span(table).Contains(y)
    ensures Span(table).Contains(x) ==> y == x
  {
    CoerceIn(x, table[0].0.start, table[|table| - 1].0.endInclusive)
  }

  /**
   * When `valueCalculator(x, table)` returns at all: `x` is found directly;
   * or else the table is non-empty (`first()` throws otherwise), its span is
   * a valid `coerceIn` bound (`coerceIn` throws otherwise), and the clamped
   * value is found (otherwise the clamped value, a fixed point of the clamp,
   * is retried forever).
   */
  predicate ValueDefined(table: ValueTable, x: real) {
    || Find(table, x).Some?
    || (&& |table| > 0
        && !Span(table).IsEmpty()
        && Find(table, Clamped(table, x)).Some?)
  }

  /** `valueCalculator`: find-or-clamp-and-retry. The measure shows the retry happens at most once. */
  function ValueCalculator(x: real, table: ValueTable): (r: real)
    requires ValueDefined(table, x)
    ensures forall i {:trigger IsFirstContaining(table, x, i)} ::
      IsFirstContaining(table, x, i) ==> r == table[i].1(x)
    ensures NoneContains(table, x) ==>
      forall i {:trigger IsFirstContaining(table, Clamped(table, x), i)} ::
        IsFirstContaining(table, Clamped(table, x), i) ==> r == table[i].1(Clamped(table, x))
    decreases if Find(table, x).Some? then 0 else 1
  {
    match Find(table, x)
    case Some(i) => FirstContainingUnique(table, x, i); table[i].1(x)
    case None => ValueCalculator(Clamped(table, x), table)
  }

  /** `coefficientCalculator`: find-or-1, with no clamping. */
  function CoefficientCalculator(x: real, table: CoefficientTable): (r: real)
    ensures forall i {:trigger IsFirstContaining(table, x, i)} ::
      IsFirstContaining(table, x, i) ==> r == table[i].1
    ensures NoneContains(table, x) ==> r == 1.0
  {
    match Find(table, x)
    case Some(i) => FirstContainingUnique(table, x, i); table[i].1
    case None => 1.0
  }

  /** At most one entry is the first to contain a value. */
  lemma FirstContainingUnique<T>(table: seq<(FloatRange, T)>, x: real, i: int)
    requires IsFirstContaining(table, x, i)
    ensures forall k :: IsFirstContaining(table, x, k) ==> k == i
  {
  }

  /**
   * A table laid out as the presets lay theirs out: non-empty, every range
   * well formed, and each range starting where the previous one ends.
   */
  ghost predicate Contiguous<T>(table: seq<(FloatRange, T)>) {
    && |table| > 0
    && (forall i :: 0 <= i < |table| ==> table[i].0.start <= table[i].0.endInclusive)
    && (forall i :: 0 <= i < |table| - 1 ==> table[i].0.endInclusive == table[i + 1].0.start)
  }

  /** Every point of a contiguous table's span lies in some range. */
  lemma {:induction false} ContiguousCovers<T>(table: seq<(FloatRange, T)>, y: real)
    requires Contiguous(table)
    requires Span(table).Contains(y)
    ensures Find(table, y).Some?
    decreases |table|
  {
    if y > table[0].0.endInclusive {
      var rest := table[1..];
      assert |table| > 1;
      assert Contiguous(rest) by {
        forall i | 0 <= i < |rest| - 1
          ensures rest[i].0.endInclusive == rest[i + 1].0.start
        {
          assert rest[i] == table[i + 1] && rest[i + 1] == table[i + 2];
        }
      }
      ContiguousCovers(rest, y);
      assert table[0].0.start <= table[0].0.endInclusive;
      assert !table[0].0.Contains(y);
    }
  }

  /** A contiguous table's span runs from its first start to its last end and holds every entry's range. */
  lemma SpanHoldsEntries<T>(table: seq<(FloatRange, T)>, i: int)
    requires Contiguous(table)
    requires 0 <= i < |table|
    ensures !Span(table).IsEmpty()
    ensures Span(table).start <= table[i].0.start && table[i].0.endInclusive <= Span(table).endInclusive
  {
    SpanOrdered(table, 0, i);
    SpanOrdered(table, i, |table| - 1);
  }

  /** A contiguous table defines `valueCalculator` everywhere: the retry always lands on an entry. */
  lemma ContiguousValueDefined(table: ValueTable, x: real)
    requires Contiguous(table)
    ensures ValueDefined(table, x)
  {
    assert table[0].0.start <= table[|table| - 1].0.endInclusive by {
      SpanOrdered(table, 0, |table| - 1);
    }
    ContiguousCovers(table, Clamped(table, x));
  }

  /** In a contiguous table, ranges earlier in the list lie to the left of later ones. */
  lemma {:induction false} SpanOrdered<T>(table: seq<(FloatRange, T)>, i: int, j: int)
    requires Contiguous(table)
    requires 0 <= i <= j < |table|
    ensures table[i].0.start <= table[j].0.start <= table[j].0.endInclusive
    ensures table[i].0.endInclusive <= table[j].0.endInclusive
    decreases j - i
  {
    if i < j {
      SpanOrdered(table, i + 1, j);
    }
  }

  /** Below a contiguous table the result is the first entry's function at the table's start. */
  lemma BelowTable(table: ValueTable, x: real)
    requires Contiguous(table)
    requires x < table[0].0.start
    ensures ValueDefined(table, x)
    ensures ValueCalculator(x, table) == table[0].1(table[0].0.start)
  {
    ContiguousValueDefined(table, x);
    forall j | 0 <= j < |table| ensures !table[j].0.Contains(x) {
      SpanOrdered(table, 0, j);
    }
    assert IsFirstContaining(table, Clamped(table, x), 0);
  }

  /**
   * Above a contiguous table whose last range is not a single point, the
   * result is the last entry's function at the table's end.
   */
  lemma AboveTable(table: ValueTable, x: real)
    requires Contiguous(table)
    requires table[|table| - 1].0.start < table[|table| - 1].0.endInclusive
    requires x > table[|table| - 1].0.endInclusive
    ensures ValueDefined(table, x)
    ensures ValueCalculator(x, table) == table[|table| - 1].1(table[|table| - 1].0.endInclusive)
  {
    ContiguousValueDefined(table, x);
    var n := |table|;
    var e := table[n - 1].0.endInclusive;
    forall j | 0 <= j < n ensures !table[j].0.Contains(x) {
      SpanOrdered(table, j, n - 1);
    }
    forall j | 0 <= j < n - 1 ensures !table[j].0.Contains(e) {
      SpanOrdered(table, j, n - 2);
    }
    assert Clamped(table, x) == e;
    assert IsFirstContaining(table, e, n - 1);
  }

  /**
   * A value found directly needs no valid span: on `[50,20], [20,30]`, whose
   * span is empty, 25 is found in the second entry and mapped at once.
   */
  lemma FoundWithoutSpan()
    ensures var table: ValueTable := [(FloatRange(50.0, 20.0), x => x), (FloatRange(20.0, 30.0), x => 2.0 * x)];
      && Span(table).IsEmpty()
      && ValueDefined(table, 25.0)
      && ValueCalculator(25.0, table) == 50.0
  {
    var table: ValueTable := [(FloatRange(50.0, 20.0), x => x), (FloatRange(20.0, 30.0), x => 2.0 * x)];
    assert IsFirstContaining(table, 25.0, 1);
  }

  /**
   * A gap makes the retry diverge: when the clamped value lies in no range,
   * clamping it again gives the same value, so the source's recursive call
   * repeats itself without end. Shown on the table `[0,1], [2,3]` at 1.5.
   */
  lemma GappedTableRetriesForever()
    ensures var table: ValueTable := [(FloatRange(0.0, 1.0), x => x), (FloatRange(2.0, 3.0), x => x)];
      && Clamped(table, 1.5) == 1.5
      && Find(table, 1.5).None?
      && !ValueDefined(table, 1.5)
  {
    var table: ValueTable := [(FloatRange(0.0, 1.0), x => x), (FloatRange(2.0, 3.0), x => x)];
    assert !table[0].0.Contains(1.5) && !table[1].0.Contains(1.5);
  }
}
