/** The `Patch` class of Patch.cs: a hunk whose fields its methods update in place.
    Each method is proved against the value semantics in `Hunks` and `HunkSplit`. */
module Patches {
  import opened Text
  import opened Ranges
  import opened Slices
  import opened Hunks
  import opened HunkSplit

  class Patch {
    var diffs: seq<Diff>
    var start1: int
    var start2: int
    var length1: int
    var length2: int

    /** The value this patch holds. */
    function Value(): Hunk
      reads this
    {
      Hunk(diffs, start1, start2, length1, length2)
    }

    /** `new Patch()`: no diffs, all integers zero. */
    constructor ()
      ensures Value() == Hunk([], 0, 0, 0, 0)
    {
      diffs := [];
      start1, start2, length1, length2 := 0, 0, 0, 0;
    }

    /** The copy constructor. The new patch is a separate object holding an
        equal value; diffs are values here, so the copied list is
        independent of the original. */
    constructor Copy(patch: Patch)
      ensures Value() == patch.Value()
    {
      diffs := patch.diffs;
      start1, start2 := patch.start1, patch.start2;
      length1, length2 := patch.length1, patch.length2;
    }

    /** `ContextLines`: one line per non-INSERT diff. */
    function ContextLines(): (r: seq<Line>)
      reads this
      ensures r == ContextOf(diffs)
      ensures |r| == |diffs| - CountOp(diffs, Insert)
    {
      ContextCount(diffs);
      ContextOf(diffs)
    }

    /** `PatchedLines`: one line per non-DELETE diff. */
    function PatchedLines(): (r: seq<Line>)
      reads this
      ensures r == PatchedOf(diffs)
      ensures |r| == |diffs| - CountOp(diffs, Delete)
    {
      ContextCount(diffs);
      PatchedOf(diffs)
    }

    function Range1(): (r: Range)
      reads this
      ensures r.start == start1 && r.Length() == length1
    {
      Value().Range1()
    }

    function Range2(): (r: Range)
      reads this
      ensures r.start == start2 && r.Length() == length2
    {
      Value().Range2()
    }

    /** Both lengths start at the number of diffs; each DELETE takes one
        from `length2`, each INSERT one from `length1`. */
    method RecalculateLength()
      modifies this
      ensures Value() == WithLengths(old(diffs), old(start1), old(start2))
      ensures length1 == |diffs| - CountOp(diffs, Insert) && length2 == |diffs| - CountOp(diffs, Delete)
    {
      length1 := |diffs|;
      length2 := |diffs|;
      for i := 0 to |diffs|
        invariant diffs == old(diffs) && start1 == old(start1) && start2 == old(start2)
        invariant length1 == |diffs| - CountOp(diffs[..i], Insert)
        invariant length2 == |diffs| - CountOp(diffs[..i], Delete)
      {
        assert diffs[..i + 1][..i] == diffs[..i];
        if diffs[i].op == Delete {
          length2 := length2 - 1;
        } else if diffs[i].op == Insert {
          length1 := length1 - 1;
        }
      }
      assert diffs[..|diffs|] == diffs;
      ContextCount(diffs);
    }

    /** Keeps at most `numContextLines` EQUAL diffs at each end; a patch
        without a change loses all its diffs. */
    method Trim(numContextLines: nat)
      modifies this
      ensures Value() == TrimHunk(old(Value()), numContextLines)
    {
      ghost var h := Value();
      var start := SkipLeadingEquals(diffs);
      LeadingEqualsSpec(diffs);
      if start == |diffs| {
        length1, length2 := 0, 0;
        diffs := [];
        return;
      }

      var extra := start - numContextLines;
      if extra > 0 {
        diffs := diffs[extra..];
        start1 := start1 + extra;
        start2 := start2 + extra;
        length1 := length1 - extra;
        length2 := length2 - extra;
      }
      ghost var a := if extra > 0 then extra else 0;
      assert diffs == h.diffs[a..];
      assert diffs[start - a].op != Equal;

      var end := SkipTrailingEquals(diffs, start - a);
      extra := |diffs| - end - numContextLines;
      if extra > 0 {
        diffs := diffs[..|diffs| - extra];
        length1 := length1 - extra;
        length2 := length2 - extra;
      }
      ghost var b := if extra > 0 then extra else 0;
      TrimResult(h, numContextLines, a, b);
    }

    /** Splits the patch at every EQUAL run longer than `2 * numContextLines`
        into new patches; this patch is left as it is. */
    method Split(numContextLines: nat) returns (patches: seq<Patch>)
      ensures Values(patches) == SplitHunks(Value(), numContextLines)
      ensures forall k :: 0 <= k < |patches| ==> fresh(patches[k])
    {
      if |diffs| == 0 {
        return [];
      }
      var c := numContextLines;
      var ranges := CutRanges(diffs, c);
      SplitRangesValid(diffs, c);
      patches := BuildPieces(diffs, ranges, start1, start2);
    }

    /** `Combine` as written. Checks the ranges with `Range.Intersects`,
        pads with EQUAL lines of `lines1`, checks the distance in sequence
        2 and appends `patch2`. A thrown exception is returned as the
        fault, with the patch left as it was at the throw. */
    method Combine(patch2: Patch, lines1: seq<Line>) returns (fault: Option<Fault>)
      requires patch2 != this
      modifies this
      ensures Combined(Value(), fault) == CombineAsWritten(old(Value()), patch2.Value(), lines1)
    {
      if Range1().Intersects(patch2.Range1()) || Range2().Intersects(patch2.Range2()) {
        return Some(Overlap);
      }
      while start1 + length1 < patch2.start1
        invariant start1 == old(start1) && start2 == old(start2)
        invariant PadTo(Value(), patch2.start1, lines1) == PadTo(old(Value()), patch2.start1, lines1)
        decreases patch2.start1 - (start1 + length1)
      {
        if !(0 <= start1 + length1 < |lines1|) {
          return Some(IndexOutOfRange);
        }
        diffs := diffs + [Diff(Equal, lines1[start1 + length1])];
        length1 := length1 + 1;
        length2 := length2 + 1;
      }
      if start2 + length2 != patch2.start2 {
        return Some(UnequalDistance);
      }
      diffs := diffs + patch2.diffs;
      length1 := length1 + patch2.length1;
      length2 := length2 + patch2.length2;
      return None;
    }
  }

  /** `TrimHunk` in the terms of `Trim`'s own cuts: `a` EQUAL diffs off
      the front and then `b` off the back. */
  lemma TrimResult(h: Hunk, numContextLines: nat, a: nat, b: nat)
    requires LeadingEquals(h.diffs) < |h.diffs|
    requires a == FrontCut(h.diffs, numContextLines) && a <= |h.diffs|
    requires b == BackCut(h.diffs[a..], numContextLines) && b <= |h.diffs| - a
    ensures TrimHunk(h, numContextLines)
         == Hunk(h.diffs[a..][..|h.diffs| - a - b], h.start1 + a, h.start2 + a, h.length1 - a - b, h.length2 - a - b)
  {
  }

  /** The first loop of `Trim`: the index of the first change. */
  method SkipLeadingEquals(ds: seq<Diff>) returns (start: nat)
    ensures start == LeadingEquals(ds)
  {
    start := 0;
    while start < |ds| && ds[start].op == Equal
      invariant start <= |ds| && EqualBetween(ds, 0, start)
    {
      start := start + 1;
    }
    LeadingEqualsUnique(ds, start);
  }

  /** The second loop of `Trim`: it walks back over the trailing EQUAL run,
      which the change at `change` bounds. */
  method SkipTrailingEquals(ds: seq<Diff>, ghost change: nat) returns (end: nat)
    requires change < |ds| && ds[change].op != Equal
    ensures end == |ds| - TrailingEquals(ds)
  {
    end := |ds|;
    while ds[end - 1].op == Equal
      invariant change < end <= |ds| && EqualBetween(ds, end, |ds|)
      decreases end
    {
      end := end - 1;
    }
    TrailingEqualsUnique(ds, |ds| - end);
  }

  /** The first loop of `Split`: the ranges it cuts the diffs into. */
  method CutRanges(ds: seq<Diff>, numContextLines: nat) returns (ranges: seq<Range>)
    ensures ranges == SplitRanges(ds, numContextLines)
  {
    var c := numContextLines;
    ranges := [];
    var start := 0;
    var n := 0;
    for i := 0 to |ds|
      invariant n == RunBefore(ds, i) && 0 <= start <= i - n
      invariant ranges + SplitScan(ds, c, i, start, n) == SplitRanges(ds, c)
    {
      if ds[i].op == Equal {
        n := n + 1;
        continue;
      }
      if n > c * 2 {
        ranges := ranges + [Range(start, i - n + c)];
        start := i - c;
      }
      n := 0;
    }
    ranges := ranges + [Range(start, |ds|)];
  }

  /** The second loop of `Split`: one new patch per range, each starting
      past the previous one by the diffs skipped between their ranges. */
  method BuildPieces(ds: seq<Diff>, ranges: seq<Range>, start1: int, start2: int) returns (patches: seq<Patch>)
    requires ValidRanges(ranges, |ds|)
    ensures Holds(patches, HunksFrom(ds, ranges, start1, start2, 0))
    ensures forall k :: 0 <= k < |patches| ==> fresh(patches[k])
  {
    patches := [];
    ghost var goal := HunksFrom(ds, ranges, start1, start2, 0);
    var end1, end2 := start1, start2;
    var endDiffIndex := 0;
    for j := 0 to |ranges|
      invariant |patches| == j
      invariant forall k :: 0 <= k < j ==> patches[k].Value() == goal[k]
      invariant forall k :: 0 <= k < j ==> fresh(patches[k])
      invariant LoopEnds(goal, ranges, start1, start2, j, end1, end2, endDiffIndex)
    {
      var r := ranges[j];
      var skip := r.start - endDiffIndex;
      ElementsAreSubsequence(ds, r.start, r.end);
      var p := NewPiece(Slice(ds, r).Elements(), end1 + skip, end2 + skip);
      PieceAt(ds, ranges, start1, start2, goal, j, end1, end2, endDiffIndex);
      patches := patches + [p];
      end1 := p.start1 + p.length1;
      end2 := p.start2 + p.length2;
      endDiffIndex := r.end;
    }
    HoldsAll(patches, goal);
  }

  /** Where the loop of `BuildPieces` stands before range `j`: at the ends
      of the `j - 1`-th patch of `ps`, or at the starts before the first. */
  ghost predicate LoopEnds(ps: seq<Hunk>, ranges: seq<Range>, start1: int, start2: int,
                           j: int, end1: int, end2: int, endDiffIndex: int)
  {
    && 0 <= j <= |ranges| && |ps| == |ranges|
    && (j == 0 ==> end1 == start1 && end2 == start2 && endDiffIndex == 0)
    && (j > 0 ==>
          && end1 == ps[j - 1].start1 + ps[j - 1].length1
          && end2 == ps[j - 1].start2 + ps[j - 1].length2
          && endDiffIndex == ranges[j - 1].end)
  }

  /** The `j`-th patch `Split` builds is placed where the loop stands. */
  lemma PieceAt(ds: seq<Diff>, ranges: seq<Range>, start1: int, start2: int, ps: seq<Hunk>,
                j: nat, end1: int, end2: int, endDiffIndex: int)
    requires ValidRanges(ranges, |ds|) && j < |ranges|
    requires ps == HunksFrom(ds, ranges, start1, start2, 0)
    requires LoopEnds(ps, ranges, start1, start2, j, end1, end2, endDiffIndex)
    ensures ps[j] == WithLengths(ds[ranges[j].start..ranges[j].end],
                                 end1 + ranges[j].start - endDiffIndex, end2 + ranges[j].start - endDiffIndex)
    ensures LoopEnds(ps, ranges, start1, start2, j + 1, ps[j].start1 + ps[j].length1,
                     ps[j].start2 + ps[j].length2, ranges[j].end)
  {
    HunksFromShape(ds, ranges, start1, start2, 0);
    if j > 0 {
      HunksFromGap(ds, ranges, start1, start2, 0, j - 1);
    }
  }

  /** The patches of `ps` hold the hunks of `hs`, one for one. */
  ghost predicate Holds(ps: seq<Patch>, hs: seq<Hunk>)
    reads set k | 0 <= k < |ps| :: ps[k]
  {
    Values(ps) == hs
  }

  lemma HoldsAll(ps: seq<Patch>, hs: seq<Hunk>)
    requires |ps| == |hs| && forall k :: 0 <= k < |ps| ==> ps[k].Value() == hs[k]
    ensures Holds(ps, hs)
  {
  }

  /** One patch of `Split`: a fresh patch over `ds` at the given starts,
      its lengths recalculated. */
  method NewPiece(ds: seq<Diff>, start1: int, start2: int) returns (p: Patch)
    ensures fresh(p) && p.Value() == WithLengths(ds, start1, start2)
  {
    p := new Patch();
    p.diffs, p.start1, p.start2 := ds, start1, start2;
    p.RecalculateLength();
  }

  /** The values held by a list of patches. */
  function Values(ps: seq<Patch>): (hs: seq<Hunk>)
    reads set k | 0 <= k < |ps| :: ps[k]
    ensures |hs| == |ps|
    ensures forall k :: 0 <= k < |ps| ==> hs[k] == ps[k].Value()
  {
    if ps == [] then [] else Values(ps[..|ps| - 1]) + [ps[|ps| - 1].Value()]
  }
}
