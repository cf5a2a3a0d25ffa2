/** The ordinal `string.IndexOf(value, startIndex)` and
    `string.LastIndexOf(value, startIndex)` searches `Patcher.ApplyOffset`
    runs over line-encoded text, as searches of one sequence in another. */
module TextSearch {

  /** `s` holds `v` at position `i`. */
  predicate Occurs<T(==)>(s: seq<T>, v: seq<T>, i: int) {
    0 <= i && i + |v| <= |s| && s[i..i + |v|] == v
  }

  /** `IndexOf(v, start)`: the first position at or after `start` holding
      `v`, or -1 when there is none. */
  function IndexOf<T(==)>(s: seq<T>, v: seq<T>, start: nat): (r: int)
    requires start <= |s|
    ensures r == -1 || (start <= r && Occurs(s, v, r))
    ensures forall i :: start <= i && (r == -1 || i < r) ==> !Occurs(s, v, i)
    decreases |s| - start
  {
    if Occurs(s, v, start) then start
    else if start == |s| then -1
    else IndexOf(s, v, start + 1)
  }

  /** `LastIndexOf(v, start)`: the last position whose occurrence of `v`
      ends at or before `start`, or -1; an empty `v` is found at `start`.
      `start` is a position of `s`, or 0 in an empty `s`. */
  function LastIndexOf<T(==)>(s: seq<T>, v: seq<T>, start: nat): (r: int)
    requires start < |s| || start == 0
    ensures v == [] ==> r == start
    ensures v != [] ==> r == -1 || (r + |v| <= start + 1 && Occurs(s, v, r))
    ensures v != [] ==> forall i :: r < i && i + |v| <= start + 1 ==> !Occurs(s, v, i)
  {
    if v == [] then start else LastFrom(s, v, start + 1 - |v|)
  }

  /** The last position at or before `hi` holding `v`, or -1. */
  function LastFrom<T(==)>(s: seq<T>, v: seq<T>, hi: int): (r: int)
    ensures r == -1 || (r <= hi && Occurs(s, v, r))
    ensures forall i :: r < i <= hi ==> !Occurs(s, v, i)
    decreases if hi < 0 then 0 else hi + 1
  {
    if hi < 0 then -1
    else if Occurs(s, v, hi) then hi
    else LastFrom(s, v, hi - 1)
  }
}
