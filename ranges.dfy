/** The `Range` value class: two validated numeric bounds and an inclusive membership test. */
module Ranges {
  import opened Wrappers
  import opened Js

  /** A constructed range. The constructor does not check `start <= end`. */
  datatype Range = Range(start: real, end: real)

  const InvalidStart := TypeError("無効な引数: \"start\"")
  const InvalidEnd := TypeError("無効な引数: \"end\"")

  /**
   * `new Range(start, end)`: each bound must be a truthy number, so `0` and
   * `NaN` are refused along with every non-number; `start` is checked first.
   */
  function NewRange(start: Value, end: Value): (r: Result<Range, Error>)
    ensures r.Ok? <==> start.Number? && start.x != 0.0 && end.Number? && end.x != 0.0
    ensures r.Ok? ==> r.value.start == start.x && r.value.end == end.x
    ensures !(start.Number? && start.x != 0.0) ==> r == Err(InvalidStart)
    ensures start.Number? && start.x != 0.0 && !(end.Number? && end.x != 0.0) ==> r == Err(InvalidEnd)
  {
    if !Truthy(start) || !start.Number? then Err(InvalidStart)
    else if !Truthy(end) || !end.Number? then Err(InvalidEnd)
    else Ok(Range(start.x, end.x))
  }

  /** `range.isContains(value)`. */
  predicate IsContains(r: Range, value: real) {
    value >= r.start && value <= r.end
  }

  /** A range starting at zero cannot be built, although zero is a valid bound value. */
  lemma ZeroStartRejected(end: Value)
    ensures NewRange(Number(0.0), end) == Err(InvalidStart)
  {
  }

  /** A range whose start lies past its end contains nothing. */
  lemma InvertedRangeIsEmpty(start: Value, end: Value, value: real)
    requires NewRange(start, end).Ok?
    requires start.x > end.x
    ensures !IsContains(NewRange(start, end).value, value)
  {
  }

  /** The integers from `lo` to `hi`, both included. */
  function Ints(lo: int, hi: int): (s: set<int>)
    ensures forall n :: n in s <==> lo <= n <= hi
    ensures |s| == if lo <= hi then hi - lo + 1 else 0
    decreases hi - lo
  {
    if lo > hi then {} else {lo} + Ints(lo + 1, hi)
  }

  /**
   * A range built on whole-number bounds contains exactly the integers from
   * `start` to `end`, `end - start + 1` of them, or none when `start > end`.
   */
  lemma ContainedIntegers(start: int, end: int)
    requires NewRange(Number(start as real), Number(end as real)).Ok?
    ensures forall n: int :: IsContains(NewRange(Number(start as real), Number(end as real)).value, n as real) <==> n in Ints(start, end)
    ensures |Ints(start, end)| == if start <= end then end - start + 1 else 0
  {
  }
}
