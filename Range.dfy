/** The half-open integer interval `[start, end)` of Range.cs. */
module Ranges {

  datatype Range = Range(start: int, end: int) {

    /** `length`; its setter is `WithLength`. */
    function Length(): int { end - start }

    /** `last`: the final element of a nonempty range; its setter is `WithLast`. */
    function Last(): int { end - 1 }

    /** `first` is an alias of `start`; its setter is `WithFirst`. */
    function First(): int { start }

    /** The `length` setter keeps `start` and moves `end`. */
    function WithLength(value: int): (r: Range)
      ensures r.start == start && r.Length() == value
    {
      Range(start, start + value)
    }

    /** The `last` setter keeps `start` and moves `end`. */
    function WithLast(value: int): (r: Range)
      ensures r.start == start && r.Last() == value
    {
      Range(start, value + 1)
    }

    /** The `first` setter keeps `end` and moves `start`. */
    function WithFirst(value: int): (r: Range)
      ensures r.First() == value && r.end == end
    {
      Range(value, end)
    }

    function Map(f: int -> int): Range {
      Range(f(start), f(end))
    }

    /** The integer `x` lies in `[start, end)`. */
    predicate Has(x: int) {
      start <= x < end
    }

    predicate Contains(r: Range) {
      r.start >= start && r.end <= end
    }

    /** As written in the source: a disjunction, so it also holds for many
        disjoint pairs (see `IntersectsDisjointWitness`). */
    predicate Intersects(r: Range) {
      r.start < end || r.end > start
    }

    /** The conjunction the name `Intersects` promises. */
    predicate Overlaps(r: Range) {
      r.start < end && r.end > start
    }

    /** `operator +`. */
    function Plus(i: int): (r: Range)
      ensures r.Length() == Length() && r.First() == First() + i
    {
      Range(start + i, end + i)
    }

    /** `operator -`. */
    function Minus(i: int): (r: Range)
      ensures r.Length() == Length() && r.First() == First() - i
    {
      Range(start - i, end - i)
    }
  }

  /** Some integer lies in both ranges. */
  ghost predicate CommonPoint(a: Range, b: Range) {
    exists x :: a.Has(x) && b.Has(x)
  }

  function Union(r1: Range, r2: Range): (r: Range)
    ensures r.Contains(r1) && r.Contains(r2)
    ensures forall c: Range :: c.Contains(r1) && c.Contains(r2) ==> c.Contains(r)
  {
    Range(if r1.start <= r2.start then r1.start else r2.start,
          if r1.end >= r2.end then r1.end else r2.end)
  }

  function Intersection(r1: Range, r2: Range): (r: Range)
    ensures r1.Contains(r) && r2.Contains(r)
    ensures forall c: Range :: r1.Contains(c) && r2.Contains(c) ==> r.Contains(c)
  {
    Range(if r1.start >= r2.start then r1.start else r2.start,
          if r1.end <= r2.end then r1.end else r2.end)
  }

  /** Every range contains itself, and containment is transitive. */
  lemma ContainsPreorder(a: Range, b: Range, c: Range)
    ensures a.Contains(a)
    ensures a.Contains(b) && b.Contains(c) ==> a.Contains(c)
  {
  }

  /** `Map` with a translation is the same as `operator +`. */
  lemma MapShiftIsPlus(r: Range, i: int)
    ensures r.Map(x => x + i) == r.Plus(i)
    ensures r.Map(x => x - i) == r.Minus(i)
  {
  }

  /** `Intersects` (as written) holds whenever the ranges genuinely share a point. */
  lemma CommonPointIntersects(a: Range, b: Range)
    requires CommonPoint(a, b)
    ensures a.Intersects(b) && a.Overlaps(b)
  {
  }

  /** `Intersects` (as written) also holds for the disjoint ranges [0,2) and [5,7). */
  lemma IntersectsDisjointWitness()
    ensures Range(0, 2).Intersects(Range(5, 7))
    ensures !CommonPoint(Range(0, 2), Range(5, 7))
  {
  }

  /** For nonempty ranges, `Overlaps` is exactly "the ranges share a point". */
  lemma OverlapsIffCommonPoint(a: Range, b: Range)
    requires a.start < a.end && b.start < b.end
    ensures a.Overlaps(b) <==> CommonPoint(a, b)
  {
    if a.Overlaps(b) {
      var x := if a.start >= b.start then a.start else b.start;
      assert a.Has(x) && b.Has(x);
    }
  }

  /** For ranges of nonnegative length, `Intersects` (as written) is false
      exactly when both ranges are empty and start at the same point. */
  lemma NotIntersectsIff(a: Range, b: Range)
    requires a.Length() >= 0 && b.Length() >= 0
    ensures !a.Intersects(b) <==> a.start == a.end == b.start == b.end
  {
  }
}
