/** `ReadOnlyListSlice<T>` of Slice.cs: a read-only window `range` onto a list. */
module Slices {
  import opened Ranges

  datatype ListSlice<T> = ListSlice(wrapped: seq<T>, range: Range) {

    /** `Count` is the length of the window. */
    function Count(): int { range.Length() }

    /** The indexer reads through to the wrapped list; like the source it
        checks only the wrapped list's bounds. */
    function Get(index: int): T
      requires 0 <= index + range.start < |wrapped|
    {
      wrapped[index + range.start]
    }

    /** The window lies inside the wrapped list, so enumerating it cannot fail. */
    predicate Enumerable() {
      range.start >= range.end || (0 <= range.start && range.end <= |wrapped|)
    }

    /** What the enumerator yields, in order. */
    function Elements(): (r: seq<T>)
      requires Enumerable()
      ensures |r| == if Count() > 0 then Count() else 0
      ensures forall k :: 0 <= k < |r| ==> 0 <= k + range.start < |wrapped| && r[k] == Get(k)
    {
      if range.start >= range.end then [] else wrapped[range.start..range.end]
    }
  }

  /** `Slice(list, range)`. */
  function Slice<T>(list: seq<T>, range: Range): (v: ListSlice<T>)
    ensures v.wrapped == list && v.range == range
  {
    ListSlice(list, range)
  }

  /** `Slice(list, start, len)`: the window of `len` elements from `start`. */
  function SliceAt<T>(list: seq<T>, start: int, len: int): (v: ListSlice<T>)
    ensures v.wrapped == list && v.range.start == start && v.range.end == start + len
    ensures v.Count() == len
  {
    ListSlice(list, Range(start, start).WithLength(len))
  }

  /** A window inside the list enumerates exactly that part of the list. */
  lemma ElementsAreSubsequence<T>(list: seq<T>, start: int, end: int)
    requires 0 <= start <= end <= |list|
    ensures Slice(list, Range(start, end)).Elements() == list[start..end]
  {
  }
}
