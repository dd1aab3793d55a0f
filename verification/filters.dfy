/**
 * The search filters the compiler produces (EPiServer Find's TermFilter, RangeFilter,
 * PrefixFilter, ExistsFilter, NotFilter, AndFilter and OrFilter), as plain values.
 */
module Filters {
  import opened Outcomes
  import opened Values

  /** A FieldFilterValue: what a TermFilter compares its field with. `NullValue` is a null FieldFilterValue. */
  datatype TermValue =
    | TextValue(s: string)
    | IntValue(i: Int32)
    | DoubleValue(d: DoubleBits)
    | BoolValue(b: bool)
    | DateTimeValue(ticks: Ticks)
    | EnumValue(member: EnumMember)
    | NullValue

  /** The bounds of a RangeFilter<int> or a RangeFilter<DateTime>. */
  datatype Bounds =
    | IntBounds(intFrom: Int32, intTo: Int32)
    | DateBounds(dateFrom: Ticks, dateTo: Ticks)

  /**
   * A filter. `NoFilter` is the null reference, which WhereVisitor both returns
   * and inserts into enclosing filters. A Prefix field or value may be null (`None`).
   * IncludeLower and IncludeUpper are `None` while unset.
   */
  datatype Filter =
    | NoFilter
    | Term(field: string, value: TermValue)
    | Range(rangeField: string, bounds: Bounds, includeLower: Option<bool>, includeUpper: Option<bool>)
    | Prefix(prefixField: Option<string>, prefix: Option<string>)
    | Exists(existsField: string)
    | NotFilter(filter: Filter)
    | AndFilter(conjuncts: seq<Filter>)
    | OrFilter(disjuncts: seq<Filter>)

  /**
   * Whether an integer range admits the field value `x`. An unset inclusion flag
   * counts as inclusive, the search backend's default for range filters.
   */
  predicate AdmitsInt(b: Bounds, includeLower: Option<bool>, includeUpper: Option<bool>, x: Int32)
    requires b.IntBounds?
  {
    && (if includeLower == Some(false) then b.intFrom < x else b.intFrom <= x)
    && (if includeUpper == Some(false) then x < b.intTo else x <= b.intTo)
  }

  /** Whether a date range admits the field value `x`, with the same reading of unset flags. */
  predicate AdmitsDate(b: Bounds, includeLower: Option<bool>, includeUpper: Option<bool>, x: Ticks)
    requires b.DateBounds?
  {
    && (if includeLower == Some(false) then b.dateFrom < x else b.dateFrom <= x)
    && (if includeUpper == Some(false) then x < b.dateTo else x <= b.dateTo)
  }
}
