/**
 Half-open intervals over a total order. The source compares endpoints only through a three-way
 comparison; the integers stand for its endpoints here and nothing but their order is used.
 */
module Interval {
  import opened Numbers

  type Point = int

  function ComparePoints(a: Point, b: Point): int {
    if a < b then -1 else if a > b then 1 else 0
  }

  datatype Interval = Interval(begin: Point, end: Point)

  /** An interval with its payload. */
  datatype IntervalValue = IntervalValue(ivl: Interval, val: int)

  predicate NonEmpty(iv: Interval) {
    iv.begin < iv.end
  }

  /** Compare: negative when left of the other, positive when right of it, zero in between. */
  function Compare(iv: Interval, other: Interval): int {
    var beginToBegin := ComparePoints(iv.begin, other.begin);
    var beginToEnd := ComparePoints(iv.begin, other.end);
    var endToBegin := ComparePoints(iv.end, other.begin);
    if beginToBegin < 0 && endToBegin <= 0 then -1
    else if beginToEnd >= 0 then 1
    else 0
  }

  predicate Has(a: Interval, x: Point) {
    a.begin <= x < a.end
  }

  /** Some point lies in both intervals. */
  ghost predicate Overlap(a: Interval, b: Interval) {
    exists x :: Has(a, x) && Has(b, x)
  }

  /** On non-empty intervals Compare is zero exactly on overlap, and its sign is the side otherwise. */
  lemma CompareIsOverlap(a: Interval, b: Interval)
    requires NonEmpty(a) && NonEmpty(b)
    ensures Compare(a, b) == 0 <==> Overlap(a, b)
    ensures Compare(a, b) < 0 <==> a.end <= b.begin
    ensures Compare(a, b) > 0 <==> b.end <= a.begin
  {
    var x := if a.begin <= b.begin then b.begin else a.begin;
    if Compare(a, b) == 0 {
      assert Has(a, x) && Has(b, x);
    }
  }

  // ---------- Int64Comparable ----------

  function CompareInt64(a: int, b: int): int {
    var cmp := Wrap64(a - b);
    if cmp < 0 then -1 else if cmp > 0 then 1 else 0
  }

  /** Comparing 64-bit integers by subtraction is their order exactly while the difference fits. */
  lemma CompareInt64IsOrderExactly(a: int, b: int)
    requires Int64(a) && Int64(b)
    ensures CompareInt64(a, b) == ComparePoints(a, b) <==> Int64(a - b)
  {
  }
}
