/**
 * RangeFilter<T>: three independent optional bounds of a range.  T is an
 * ordered value type; its values are modelled as integers.
 */
module RangeFilter {
  import opened Wrappers
  import opened Types
  import opened Expressions

  class RangeFilter {
    var minValue: Option<int>
    var maxValue: Option<int>
    var exactValue: Option<int>

    /** The default constructor: no bound is set. */
    constructor Unbounded()
      ensures minValue.None? && maxValue.None? && exactValue.None?
    {
      minValue, maxValue, exactValue := None, None, None;
    }

    /** The exact-value constructor sets only ExactValue. */
    constructor Exact(exact: Option<int>)
      ensures exactValue == exact && minValue.None? && maxValue.None?
    {
      minValue, maxValue, exactValue := None, None, exact;
    }

    /** The (min, max) constructor sets both bounds, in no required order, and leaves ExactValue unset. */
    constructor Between(min: Option<int>, max: Option<int>)
      ensures minValue == min && maxValue == max && exactValue.None?
    {
      minValue, maxValue, exactValue := min, max, None;
    }

    method SetMinValue(v: Option<int>)
      modifies this
      ensures minValue == v && maxValue == old(maxValue) && exactValue == old(exactValue)
    {
      minValue := v;
    }

    method SetMaxValue(v: Option<int>)
      modifies this
      ensures maxValue == v && minValue == old(minValue) && exactValue == old(exactValue)
    {
      maxValue := v;
    }

    method SetExactValue(v: Option<int>)
      modifies this
      ensures exactValue == v && minValue == old(minValue) && maxValue == old(maxValue)
    {
      exactValue := v;
    }

    /** The object as the engine's expressions read it: a record of three nullable numbers. */
    function AsValue(): (r: Value)
      reads this
      ensures r.Object? && MinValueName in r.fields && MaxValueName in r.fields && ExactValueName in r.fields
      ensures BoundValue(r.fields[MinValueName]) == minValue
      ensures BoundValue(r.fields[MaxValueName]) == maxValue
      ensures BoundValue(r.fields[ExactValueName]) == exactValue
    {
      RangeValue(minValue, maxValue, exactValue)
    }
  }

  /** A nullable bound as a value. */
  function NullableNum(v: Option<int>): (r: Value)
    ensures BoundValue(r) == v
    ensures r.Null? <==> v.None?
  {
    if v.Some? then Num(v.value) else Null
  }

  /** The bound a value denotes. */
  function BoundValue(v: Value): Option<int> {
    if v.Num? then Some(v.n) else None
  }

  /** The record value of a range filter with the given bounds. */
  function RangeValue(min: Option<int>, max: Option<int>, exact: Option<int>): (r: Value)
    ensures r.Object? && r.fields.Keys == {MinValueName, MaxValueName, ExactValueName}
    ensures BoundValue(r.fields[MinValueName]) == min && (r.fields[MinValueName].Null? <==> min.None?)
    ensures BoundValue(r.fields[MaxValueName]) == max && (r.fields[MaxValueName].Null? <==> max.None?)
    ensures BoundValue(r.fields[ExactValueName]) == exact && (r.fields[ExactValueName].Null? <==> exact.None?)
  {
    Object(map[MinValueName := NullableNum(min), MaxValueName := NullableNum(max), ExactValueName := NullableNum(exact)])
  }
}
