/** The value semantics of `Patch.Split` and `Patch.Combine` (Patch.cs). */
module HunkSplit {
  import opened Text
  import opened Ranges
  import opened Hunks

  // ---------------------------------------------------------------- Split

  /** The change at `q` follows an EQUAL run longer than `2 * numContextLines`:
      `Split` cuts there. */
  predicate LongRunBefore(ds: seq<Diff>, numContextLines: nat, q: int) {
    0 <= q < |ds| && ds[q].op != Equal && RunBefore(ds, q) > 2 * numContextLines
  }

  /** The loop of Patch.cs that collects the ranges, from index `i`, with the
      current range starting at `start` and `n` EQUAL diffs counted so far. */
  function SplitScan(ds: seq<Diff>, numContextLines: nat, i: nat, start: int, n: nat): seq<Range>
    requires i <= |ds|
    decreases |ds| - i
  {
    if i == |ds| then [Range(start, |ds|)]
    else if ds[i].op == Equal then SplitScan(ds, numContextLines, i + 1, start, n + 1)
    else if n > numContextLines * 2 then
      [Range(start, i - n + numContextLines)] + SplitScan(ds, numContextLines, i + 1, i - numContextLines, 0)
    else SplitScan(ds, numContextLines, i + 1, start, 0)
  }

  /** The ranges `Split` slices the diff list into. */
  function SplitRanges(ds: seq<Diff>, numContextLines: nat): seq<Range> {
    SplitScan(ds, numContextLines, 0, 0, 0)
  }

  /** The cut between one range ending at `e` and the next starting at `s`
      is made for the change at `q`: the next range starts `numContextLines`
      before it, and the previous one ends `numContextLines` into the EQUAL
      run before it. */
  predicate CutFor(ds: seq<Diff>, numContextLines: nat, q: int, e: int, s: int) {
    LongRunBefore(ds, numContextLines, q)
    && s == q - numContextLines
    && e == q - RunBefore(ds, q) + numContextLines
  }

  /** Every range lies within the diff list. */
  predicate ValidRanges(rs: seq<Range>, count: nat) {
    forall k :: 0 <= k < |rs| ==> 0 <= rs[k].start <= rs[k].end <= count
  }

  /** `next` starts at a cut made for a change that lies inside it, and
      `prev` still holds the `numContextLines` diffs it keeps after it. */
  predicate CutBetween(ds: seq<Diff>, numContextLines: nat, prev: Range, next: Range) {
    && CutFor(ds, numContextLines, next.start + numContextLines, prev.end, next.start)
    && next.start + numContextLines < next.end
    && prev.start <= prev.end - numContextLines
  }

  /** Consecutive ranges are separated by cuts. */
  ghost predicate Cuts(ds: seq<Diff>, numContextLines: nat, rs: seq<Range>) {
    forall j, k :: 0 <= j < k < |rs| && k == j + 1 ==> CutBetween(ds, numContextLines, rs[j], rs[k])
  }

  /** Every change from index `i` on that follows a long EQUAL run has a cut. */
  ghost predicate CutsEvery(ds: seq<Diff>, numContextLines: nat, rs: seq<Range>, i: int) {
    forall q :: i <= q && LongRunBefore(ds, numContextLines, q) ==>
      exists k :: 0 < k < |rs| && rs[k].start + numContextLines == q
  }

  /** What `Split` computes: ranges covering the list from 0 to its end, cut
      exactly at the changes that follow a long EQUAL run. */
  ghost predicate SplitShape(ds: seq<Diff>, numContextLines: nat, rs: seq<Range>) {
    && |rs| >= 1
    && rs[0].start == 0
    && rs[|rs| - 1].end == |ds|
    && ValidRanges(rs, |ds|)
    && Cuts(ds, numContextLines, rs)
    && CutsEvery(ds, numContextLines, rs, 0)
  }

  lemma {:induction false} ScanShape(ds: seq<Diff>, c: nat, i: nat, start: int, n: nat)
    requires i <= |ds| && n == RunBefore(ds, i)
    requires 0 <= start <= i - n
    ensures var rs := SplitScan(ds, c, i, start, n);
      && |rs| >= 1
      && rs[0].start == start
      && (rs[0].end == |ds| || rs[0].end >= i - n + c)
      && rs[|rs| - 1].end == |ds|
      && ValidRanges(rs, |ds|)
      && Cuts(ds, c, rs)
    decreases |ds| - i
  {
    if i < |ds| {
      if ds[i].op == Equal {
        ScanShape(ds, c, i + 1, start, n + 1);
      } else if n > c * 2 {
        var rest := SplitScan(ds, c, i + 1, i - c, 0);
        ScanShape(ds, c, i + 1, i - c, 0);
        assert SplitScan(ds, c, i, start, n) == [Range(start, i - n + c)] + rest;
        assert CutFor(ds, c, i, i - n + c, i - c);
        ConsRange(ds, c, Range(start, i - n + c), rest);
      } else {
        ScanShape(ds, c, i + 1, start, 0);
      }
    }
  }

  /** A range cut off before a list of cut ranges extends it. */
  lemma ConsRange(ds: seq<Diff>, c: nat, r: Range, rest: seq<Range>)
    requires rest != [] && ValidRanges(rest, |ds|) && Cuts(ds, c, rest)
    requires 0 <= r.start <= r.end <= |ds| && CutBetween(ds, c, r, rest[0])
    ensures var rs := [r] + rest;
      rs[0] == r && rs[|rs| - 1] == rest[|rest| - 1] && ValidRanges(rs, |ds|) && Cuts(ds, c, rs)
  {
    var rs := [r] + rest;
    forall j, k | 0 <= j < k < |rs| && k == j + 1
      ensures CutBetween(ds, c, rs[j], rs[k])
    {
      if j > 0 { assert rs[k] == rest[k - 1] && rs[j] == rest[j - 1]; }
    }
  }

  lemma {:induction false} ScanComplete(ds: seq<Diff>, c: nat, i: nat, start: int, n: nat)
    requires i <= |ds| && n == RunBefore(ds, i)
    requires 0 <= start <= i - n
    ensures CutsEvery(ds, c, SplitScan(ds, c, i, start, n), i)
    decreases |ds| - i
  {
    var rs := SplitScan(ds, c, i, start, n);
    if i < |ds| {
      if ds[i].op == Equal {
        ScanComplete(ds, c, i + 1, start, n + 1);
      } else if n > c * 2 {
        var rest := SplitScan(ds, c, i + 1, i - c, 0);
        ScanShape(ds, c, i + 1, i - c, 0);
        ScanComplete(ds, c, i + 1, i - c, 0);
        assert rs == [Range(start, i - n + c)] + rest;
        forall q | i <= q && LongRunBefore(ds, c, q)
          ensures exists k :: 0 < k < |rs| && rs[k].start + c == q
        {
          if q == i {
            assert rs[1].start + c == q;
          } else {
            var k :| 0 < k < |rest| && rest[k].start + c == q;
            assert rs[k + 1].start + c == q;
          }
        }
      } else {
        ScanComplete(ds, c, i + 1, start, 0);
      }
    }
  }

  /** `SplitRanges` has the shape `SplitShape` describes. */
  lemma SplitRangesShape(ds: seq<Diff>, numContextLines: nat)
    ensures SplitShape(ds, numContextLines, SplitRanges(ds, numContextLines))
  {
    assert ds[..0] == [];
    ScanShape(ds, numContextLines, 0, 0, 0);
    ScanComplete(ds, numContextLines, 0, 0, 0);
  }

  /** At a cut at least one diff is dropped; the dropped diffs and the
      `numContextLines` kept on each side lie in one maximal EQUAL run,
      which a change ends. */
  lemma CutContext(ds: seq<Diff>, numContextLines: nat, prev: Range, next: Range)
    requires CutBetween(ds, numContextLines, prev, next)
    ensures prev.end < next.start
    ensures 0 <= prev.end - numContextLines && next.start + numContextLines < |ds|
    ensures EqualBetween(ds, prev.end - numContextLines, next.start + numContextLines)
    ensures ds[next.start + numContextLines].op != Equal
    ensures prev.end - numContextLines == 0 || ds[prev.end - numContextLines - 1].op != Equal
  {
    var q := next.start + numContextLines;
    RunBeforeSpec(ds, q);
  }

  /** Without a change after a long EQUAL run, `Split` keeps one range: the whole list. */
  lemma SplitRangesSingle(ds: seq<Diff>, numContextLines: nat)
    requires forall q :: !LongRunBefore(ds, numContextLines, q)
    ensures SplitRanges(ds, numContextLines) == [Range(0, |ds|)]
  {
    SplitRangesFirstCut(ds, numContextLines);
  }

  /** A second range exists only for a change after a long EQUAL run. */
  lemma SplitRangesFirstCut(ds: seq<Diff>, numContextLines: nat)
    ensures var rs := SplitRanges(ds, numContextLines);
      rs == [Range(0, |ds|)] || (|rs| > 1 && LongRunBefore(ds, numContextLines, rs[1].start + numContextLines))
  {
    var rs := SplitRanges(ds, numContextLines);
    SplitRangesShape(ds, numContextLines);
    if |rs| > 1 {
      assert CutBetween(ds, numContextLines, rs[0], rs[1]);
    }
  }

  /** The patches `Split` builds from the ranges, from running ends
      `end1`/`end2` and the diff index `endDiffIndex` where the previous range ended. */
  function HunksFrom(ds: seq<Diff>, rs: seq<Range>, end1: int, end2: int, endDiffIndex: int): (ps: seq<Hunk>)
    requires ValidRanges(rs, |ds|)
    ensures |ps| == |rs|
    decreases |rs|
  {
    if rs == [] then []
    else
      var skip := rs[0].start - endDiffIndex;
      var p := WithLengths(ds[rs[0].start..rs[0].end], end1 + skip, end2 + skip);
      [p] + HunksFrom(ds, rs[1..], p.start1 + p.length1, p.start2 + p.length2, rs[0].end)
  }

  /** One step of the loop over the ranges. */
  lemma HunksFromCons(ds: seq<Diff>, rs: seq<Range>, end1: int, end2: int, endDiffIndex: int, p: Hunk)
    requires ValidRanges(rs, |ds|) && rs != []
    requires p == WithLengths(ds[rs[0].start..rs[0].end], end1 + rs[0].start - endDiffIndex,
                              end2 + rs[0].start - endDiffIndex)
    ensures ValidRanges(rs[1..], |ds|)
    ensures HunksFrom(ds, rs, end1, end2, endDiffIndex)
         == [p] + HunksFrom(ds, rs[1..], p.start1 + p.length1, p.start2 + p.length2, rs[0].end)
  {
  }

  /** Consecutive hunks are as far apart in both sequences as the diffs
      skipped between their ranges. */
  ghost predicate Chained(ps: seq<Hunk>, rs: seq<Range>)
    requires |ps| == |rs|
  {
    forall j, k :: 0 <= j < k < |ps| && k == j + 1 ==>
      && ps[k].start1 == ps[j].start1 + ps[j].length1 + (rs[k].start - rs[j].end)
      && ps[k].start2 == ps[j].start2 + ps[j].length2 + (rs[k].start - rs[j].end)
  }

  lemma {:induction false} HunksFromShape(ds: seq<Diff>, rs: seq<Range>, end1: int, end2: int, endDiffIndex: int)
    requires ValidRanges(rs, |ds|)
    ensures var ps := HunksFrom(ds, rs, end1, end2, endDiffIndex);
      && (forall k :: 0 <= k < |ps| ==>
            ps[k] == WithLengths(ds[rs[k].start..rs[k].end], ps[k].start1, ps[k].start2))
      && (|rs| > 0 ==>
            ps[0].start1 == end1 + rs[0].start - endDiffIndex && ps[0].start2 == end2 + rs[0].start - endDiffIndex)
    decreases |rs|
  {
    if rs != [] {
      var skip := rs[0].start - endDiffIndex;
      var p := WithLengths(ds[rs[0].start..rs[0].end], end1 + skip, end2 + skip);
      HunksFromCons(ds, rs, end1, end2, endDiffIndex, p);
      var rest := HunksFrom(ds, rs[1..], p.start1 + p.length1, p.start2 + p.length2, rs[0].end);
      HunksFromShape(ds, rs[1..], p.start1 + p.length1, p.start2 + p.length2, rs[0].end);
      var ps := [p] + rest;
      forall k | 0 < k < |ps|
        ensures ps[k] == WithLengths(ds[rs[k].start..rs[k].end], ps[k].start1, ps[k].start2)
      {
        assert ps[k] == rest[k - 1] && rs[k] == rs[1..][k - 1];
      }
    }
  }

  lemma HunksFromChained(ds: seq<Diff>, rs: seq<Range>, end1: int, end2: int, endDiffIndex: int)
    requires ValidRanges(rs, |ds|)
    ensures Chained(HunksFrom(ds, rs, end1, end2, endDiffIndex), rs)
  {
    var ps := HunksFrom(ds, rs, end1, end2, endDiffIndex);
    forall j, k | 0 <= j < k < |ps| && k == j + 1
      ensures ps[k].start1 == ps[j].start1 + ps[j].length1 + (rs[k].start - rs[j].end)
      ensures ps[k].start2 == ps[j].start2 + ps[j].length2 + (rs[k].start - rs[j].end)
    {
      HunksFromGap(ds, rs, end1, end2, endDiffIndex, j);
    }
  }

  /** The gap between the `j`-th and the next hunk `HunksFrom` builds. */
  lemma {:induction false} HunksFromGap(ds: seq<Diff>, rs: seq<Range>, end1: int, end2: int, endDiffIndex: int, j: nat)
    requires ValidRanges(rs, |ds|) && j + 1 < |rs|
    ensures var ps := HunksFrom(ds, rs, end1, end2, endDiffIndex);
      && ps[j + 1].start1 == ps[j].start1 + ps[j].length1 + (rs[j + 1].start - rs[j].end)
      && ps[j + 1].start2 == ps[j].start2 + ps[j].length2 + (rs[j + 1].start - rs[j].end)
    decreases j
  {
    var skip := rs[0].start - endDiffIndex;
    var p := WithLengths(ds[rs[0].start..rs[0].end], end1 + skip, end2 + skip);
    HunksFromCons(ds, rs, end1, end2, endDiffIndex, p);
    var rest := HunksFrom(ds, rs[1..], p.start1 + p.length1, p.start2 + p.length2, rs[0].end);
    assert rs[1..][j] == rs[j + 1];
    if j == 0 {
      HunksFromShape(ds, rs[1..], p.start1 + p.length1, p.start2 + p.length2, rs[0].end);
    } else {
      HunksFromGap(ds, rs[1..], p.start1 + p.length1, p.start2 + p.length2, rs[0].end, j - 1);
      assert rs[1..][j - 1] == rs[j];
    }
  }

  lemma SplitRangesValid(ds: seq<Diff>, numContextLines: nat)
    ensures |SplitRanges(ds, numContextLines)| >= 1
    ensures ValidRanges(SplitRanges(ds, numContextLines), |ds|)
  {
    SplitRangesShape(ds, numContextLines);
  }

  /** The value `Split(numContextLines)` returns for a patch with value `h`. */
  function SplitHunks(h: Hunk, numContextLines: nat): (ps: seq<Hunk>)
    ensures h.diffs == [] <==> ps == []
  {
    if h.diffs == [] then []
    else
      SplitRangesValid(h.diffs, numContextLines);
      HunksFrom(h.diffs, SplitRanges(h.diffs, numContextLines), h.start1, h.start2, 0)
  }

  /** The shape of `Split`'s result: one hunk per range, each holding its
      slice of the diffs with recalculated lengths, the first at the
      original starts, the others past gaps equal in both sequences. */
  lemma SplitHunksShape(h: Hunk, numContextLines: nat)
    requires h.diffs != []
    ensures var ps := SplitHunks(h, numContextLines);
      var rs := SplitRanges(h.diffs, numContextLines);
      && SplitShape(h.diffs, numContextLines, rs)
      && |ps| == |rs|
      && (forall k :: 0 <= k < |ps| ==>
            ps[k] == WithLengths(h.diffs[rs[k].start..rs[k].end], ps[k].start1, ps[k].start2))
      && ps[0].start1 == h.start1 && ps[0].start2 == h.start2
      && Chained(ps, rs)
  {
    SplitRangesShape(h.diffs, numContextLines);
    HunksFromShape(h.diffs, SplitRanges(h.diffs, numContextLines), h.start1, h.start2, 0);
    HunksFromChained(h.diffs, SplitRanges(h.diffs, numContextLines), h.start1, h.start2, 0);
  }

  /** Consecutive outputs of `Split` never overlap: the second starts
      strictly after the first ends, by the same gap in both sequences. */
  lemma SplitNoOverlap(h: Hunk, numContextLines: nat, j: nat, k: nat)
    requires j < k < |SplitHunks(h, numContextLines)| && k == j + 1
    ensures var ps := SplitHunks(h, numContextLines);
      var gap := ps[k].start1 - (ps[j].start1 + ps[j].length1);
      && gap > 0
      && ps[k].start2 - (ps[j].start2 + ps[j].length2) == gap
      && !ps[j].Range1().Overlaps(ps[k].Range1())
      && !ps[j].Range2().Overlaps(ps[k].Range2())
  {
    var rs := SplitRanges(h.diffs, numContextLines);
    SplitHunksShape(h, numContextLines);
    assert CutBetween(h.diffs, numContextLines, rs[j], rs[k]);
    CutContext(h.diffs, numContextLines, rs[j], rs[k]);
  }

  /** Without a long internal EQUAL run, `Split` returns one patch holding
      all the diffs at the original starts; for a consistent patch it is
      the patch itself. */
  lemma SplitSingle(h: Hunk, numContextLines: nat)
    requires h.diffs != []
    requires forall q :: !LongRunBefore(h.diffs, numContextLines, q)
    ensures SplitHunks(h, numContextLines) == [WithLengths(h.diffs, h.start1, h.start2)]
    ensures Consistent(h) ==> SplitHunks(h, numContextLines) == [h]
  {
    SplitRangesSingle(h.diffs, numContextLines);
    var ds := h.diffs;
    var rs := SplitRanges(ds, numContextLines);
    assert rs[1..] == [];
    assert ds[0..|ds|] == ds;
    var p := WithLengths(ds, h.start1, h.start2);
    assert HunksFrom(ds, rs, h.start1, h.start2, 0) == [p] + HunksFrom(ds, [], p.start1 + p.length1, p.start2 + p.length2, |ds|);
  }

  // ---------------------------------------------------------------- Combine

  /** Why `Combine` throws: `ArgumentException` for overlapping patches or
      an unequal distance, `ArgumentOutOfRangeException` when padding
      reads outside `lines1`. */
  datatype Fault = Overlap | UnequalDistance | IndexOutOfRange

  /** The patch after `Combine`, and the exception it ended with, if any. */
  datatype Combined = Combined(hunk: Hunk, fault: Option<Fault>)

  /** The padding loop: EQUAL diffs for `lines1[start1 + length1 ..]`
      are appended until the patch reaches `target` in sequence 1. */
  function PadTo(h: Hunk, target: int, lines1: seq<Line>): (r: Combined)
    ensures r.hunk.start1 == h.start1 && r.hunk.start2 == h.start2
    ensures r.fault == None ==> r.hunk.start1 + r.hunk.length1 >= target
    ensures r.fault != None ==> r.fault == Some(IndexOutOfRange)
    decreases target - (h.start1 + h.length1)
  {
    var at := h.start1 + h.length1;
    if at >= target then Combined(h, None)
    else if !(0 <= at < |lines1|) then Combined(h, Some(IndexOutOfRange))
    else
      PadTo(h.(diffs := h.diffs + [Diff(Equal, lines1[at])], length1 := h.length1 + 1, length2 := h.length2 + 1),
            target, lines1)
  }

  /** Steps 2 to 4 of `Combine`: pad, check the distance in sequence 2, append. */
  function Append(h1: Hunk, h2: Hunk, lines1: seq<Line>): Combined {
    var padded := PadTo(h1, h2.start1, lines1);
    if padded.fault != None then padded
    else
      var h := padded.hunk;
      if h.start2 + h.length2 != h2.start2 then Combined(h, Some(UnequalDistance))
      else Combined(h.(diffs := h.diffs + h2.diffs, length1 := h.length1 + h2.length1,
                       length2 := h.length2 + h2.length2), None)
  }

  /** `Combine` as written, with the overlap test of `Range.Intersects`. */
  function CombineAsWritten(h1: Hunk, h2: Hunk, lines1: seq<Line>): Combined {
    if h1.Range1().Intersects(h2.Range1()) || h1.Range2().Intersects(h2.Range2()) then
      Combined(h1, Some(Overlap))
    else Append(h1, h2, lines1)
  }

  /** `Combine` with the overlap test its message describes. */
  function CombineIntended(h1: Hunk, h2: Hunk, lines1: seq<Line>): Combined {
    if h1.Range1().Overlaps(h2.Range1()) || h1.Range2().Overlaps(h2.Range2()) then
      Combined(h1, Some(Overlap))
    else Append(h1, h2, lines1)
  }

  /** As written, `Combine` of patches with nonnegative lengths rejects
      every pair as overlapping, except when all four ranges are empty, the
      two `Range1`s at one point and the two `Range2`s at another; then it
      only appends the diffs of the second. */
  lemma CombineAsWrittenOnlyEmpty(h1: Hunk, h2: Hunk, lines1: seq<Line>)
    requires h1.length1 >= 0 && h1.length2 >= 0 && h2.length1 >= 0 && h2.length2 >= 0
    ensures CombineAsWritten(h1, h2, lines1) ==
      if && h1.length1 == 0 && h2.length1 == 0 && h1.start1 == h2.start1
         && h1.length2 == 0 && h2.length2 == 0 && h1.start2 == h2.start2
      then Combined(h1.(diffs := h1.diffs + h2.diffs), None)
      else Combined(h1, Some(Overlap))
  {
    NotIntersectsIff(h1.Range1(), h2.Range1());
    NotIntersectsIff(h1.Range2(), h2.Range2());
  }

  // ---------------------------------------------------------------- Split, then Combine

  /** The patch's context is the text of `lines1` at its `Range1`. */
  predicate ContextMatches(h: Hunk, lines1: seq<Line>) {
    var ctx := ContextOf(h.diffs);
    0 <= h.start1 && h.start1 + |ctx| <= |lines1| && lines1[h.start1..h.start1 + |ctx|] == ctx
  }

  /** Combining a list of patches left to right, as repeated calls of the
      corrected `Combine` on the first patch do. */
  function CombineFrom(acc: Hunk, ps: seq<Hunk>, lines1: seq<Line>): Option<Hunk>
    decreases |ps|
  {
    if ps == [] then Some(acc)
    else
      var c := CombineIntended(acc, ps[0], lines1);
      if c.fault != None then None else CombineFrom(c.hunk, ps[1..], lines1)
  }

  function CombineAll(ps: seq<Hunk>, lines1: seq<Line>): Option<Hunk> {
    if ps == [] then None else CombineFrom(ps[0], ps[1..], lines1)
  }

  /** An EQUAL stretch adds one line to each side per diff. */
  lemma EqualRunLines(ds: seq<Diff>, a: nat, b: nat)
    requires a <= b <= |ds| && EqualBetween(ds, a, b)
    ensures |ContextOf(ds[..b])| == |ContextOf(ds[..a])| + (b - a)
    ensures |PatchedOf(ds[..b])| == |PatchedOf(ds[..a])| + (b - a)
  {
    var pre := ds[..b];
    SplitAt(pre, a);
    assert pre[..a] == ds[..a];
    assert pre[a..] == ds[a..b];
    assert AllEqual(ds[a..b]) by {
      forall k | 0 <= k < b - a ensures ds[a..b][k].op == Equal { assert ds[a..b][k] == ds[a + k]; }
    }
    AllEqualLines(ds[a..b]);
  }

  /** Padding a patch up to the end of an EQUAL run `gap` whose texts are
      the lines of `lines1` at its end appends exactly `gap`. */
  lemma {:induction false} PadEqualRun(h: Hunk, gap: seq<Diff>, lines1: seq<Line>)
    requires AllEqual(gap)
    requires 0 <= h.start1 + h.length1 && h.start1 + h.length1 + |gap| <= |lines1|
    requires forall k :: 0 <= k < |gap| ==> lines1[h.start1 + h.length1 + k] == gap[k].text
    ensures PadTo(h, h.start1 + h.length1 + |gap|, lines1)
         == Combined(h.(diffs := h.diffs + gap, length1 := h.length1 + |gap|, length2 := h.length2 + |gap|), None)
    decreases |gap|
  {
    if gap == [] {
      assert h.diffs + gap == h.diffs;
    } else {
      var at := h.start1 + h.length1;
      assert lines1[at] == gap[0].text;
      assert Diff(Equal, lines1[at]) == gap[0];
      var h' := h.(diffs := h.diffs + [gap[0]], length1 := h.length1 + 1, length2 := h.length2 + 1);
      var rest := gap[1..];
      forall k | 0 <= k < |rest| ensures lines1[h'.start1 + h'.length1 + k] == rest[k].text {
        assert rest[k] == gap[k + 1];
      }
      PadEqualRun(h', rest, lines1);
      assert h'.diffs + rest == h.diffs + gap;
    }
  }

  /** The corrected `Combine` of a patch with one that starts after an EQUAL
      run `gap` (the same distance in both sequences) inserts the run
      between them. */
  lemma JoinAcrossGap(h1: Hunk, gap: seq<Diff>, h2: Hunk, lines1: seq<Line>)
    requires h1.length1 >= 0 && h1.length2 >= 0
    requires AllEqual(gap)
    requires 0 <= h1.start1 + h1.length1 && h1.start1 + h1.length1 + |gap| <= |lines1|
    requires forall k :: 0 <= k < |gap| ==> lines1[h1.start1 + h1.length1 + k] == gap[k].text
    requires h2.start1 == h1.start1 + h1.length1 + |gap| && h2.start2 == h1.start2 + h1.length2 + |gap|
    ensures CombineIntended(h1, h2, lines1)
         == Combined(Hunk(h1.diffs + gap + h2.diffs, h1.start1, h1.start2,
                          h1.length1 + |gap| + h2.length1, h1.length2 + |gap| + h2.length2), None)
  {
    PadEqualRun(h1, gap, lines1);
  }

  /** Between `i` and `j` the texts of an EQUAL stretch are the lines of
      `lines1` where the patch holding `ds[..i]` ends. */
  lemma GapTexts(ds: seq<Diff>, i: nat, j: nat, s1: int, s2: int, lines1: seq<Line>)
    requires i <= j <= |ds| && EqualBetween(ds, i, j)
    requires ContextMatches(WithLengths(ds, s1, s2), lines1)
    ensures AllEqual(ds[i..j])
    ensures var h := WithLengths(ds[..i], s1, s2);
      && 0 <= h.start1 + h.length1 && h.start1 + h.length1 + |ds[i..j]| <= |lines1|
      && forall k :: 0 <= k < |ds[i..j]| ==> lines1[h.start1 + h.length1 + k] == ds[i..j][k].text
  {
    EqualRunLines(ds, i, j);
    SplitAt(ds, j);
    forall k | 0 <= k < j - i ensures ds[i..j][k].op == Equal { assert ds[i..j][k] == ds[i + k]; }
    forall k | 0 <= k < j - i ensures lines1[s1 + |ContextOf(ds[..i])| + k] == ds[i..j][k].text {
      assert ds[i..j][k] == ds[i + k];
      GapTextAt(ds, i, k, s1, s2, lines1);
    }
  }

  lemma GapTextAt(ds: seq<Diff>, i: nat, k: nat, s1: int, s2: int, lines1: seq<Line>)
    requires i + k < |ds| && EqualBetween(ds, i, i + k + 1)
    requires ContextMatches(WithLengths(ds, s1, s2), lines1)
    ensures 0 <= s1 + |ContextOf(ds[..i])| + k < |lines1|
    ensures lines1[s1 + |ContextOf(ds[..i])| + k] == ds[i + k].text
  {
    EqualRunLines(ds, i, i + k);
    ContextIndex(ds, i + k);
    var at := s1 + |ContextOf(ds[..i])| + k;
    assert lines1[s1..s1 + |ContextOf(ds)|][at - s1] == lines1[at];
  }

  /** A patch holding `ds[..i]`, the EQUAL diffs `ds[i..a]` and `ds[a..b]`,
      with those lengths, is the patch holding `ds[..b]`. */
  lemma Rejoin(ds: seq<Diff>, i: nat, a: nat, b: nat, s1: int, s2: int)
    requires i <= a <= b <= |ds| && EqualBetween(ds, i, a)
    ensures Hunk(ds[..i] + ds[i..a] + ds[a..b], s1, s2,
                 |ContextOf(ds[..i])| + (a - i) + |ContextOf(ds[a..b])|,
                 |PatchedOf(ds[..i])| + (a - i) + |PatchedOf(ds[a..b])|)
         == WithLengths(ds[..b], s1, s2)
  {
    EqualRunLines(ds, i, a);
    var pre := ds[..b];
    SplitAt(pre, a);
    assert pre[..a] == ds[..a] && pre[a..] == ds[a..b];
    assert |ContextOf(ds[..b])| == |ContextOf(ds[..a])| + |ContextOf(ds[a..b])|;
    assert |PatchedOf(ds[..b])| == |PatchedOf(ds[..a])| + |PatchedOf(ds[a..b])|;
    assert ds[..i] + ds[i..a] + ds[a..b] == ds[..b];
  }

  /** Consecutive ranges from `i` on are separated by EQUAL gaps, and the
      last one ends the list. */
  ghost predicate Gapped(ds: seq<Diff>, i: int, rs: seq<Range>)
    requires ValidRanges(rs, |ds|) && 0 <= i <= |ds|
  {
    && (rs == [] ==> i == |ds|)
    && (rs != [] ==> i <= rs[0].start && EqualBetween(ds, i, rs[0].start) && rs[|rs| - 1].end == |ds|)
    && (forall j, k :: 0 <= j < k < |rs| && k == j + 1 ==>
          rs[j].end <= rs[k].start && EqualBetween(ds, rs[j].end, rs[k].start))
  }

  lemma CombineFromFirst(acc: Hunk, ps: seq<Hunk>, lines1: seq<Line>, next: Hunk, final: Hunk)
    requires ps != [] && CombineIntended(acc, ps[0], lines1) == Combined(next, None)
    requires CombineFrom(next, ps[1..], lines1) == Some(final)
    ensures CombineFrom(acc, ps, lines1) == Some(final)
  {
  }

  /** Each hunk sits at the lines of its own diffs: its starts are where the
      context and the patched text of the diffs before its range end. */
  ghost predicate Placed(ds: seq<Diff>, rs: seq<Range>, ps: seq<Hunk>, s1: int, s2: int)
    requires ValidRanges(rs, |ds|)
  {
    |ps| == |rs| &&
    forall k :: 0 <= k < |ps| ==>
      ps[k] == WithLengths(ds[rs[k].start..rs[k].end], s1 + |ContextOf(ds[..rs[k].start])|,
                           s2 + |PatchedOf(ds[..rs[k].start])|)
  }

  /** Chained hunks over EQUAL gaps are placed, by induction on the index. */
  lemma {:induction false} ChainedPlacedAt(ds: seq<Diff>, rs: seq<Range>, ps: seq<Hunk>, s1: int, s2: int, k: nat)
    requires ValidRanges(rs, |ds|) && Gapped(ds, 0, rs) && |ps| == |rs| && Chained(ps, rs)
    requires forall j :: 0 <= j < |ps| ==>
      ps[j] == WithLengths(ds[rs[j].start..rs[j].end], ps[j].start1, ps[j].start2)
    requires |rs| > 0 ==> rs[0].start == 0 && ps[0].start1 == s1 && ps[0].start2 == s2
    requires k < |ps|
    ensures ps[k].start1 == s1 + |ContextOf(ds[..rs[k].start])|
    ensures ps[k].start2 == s2 + |PatchedOf(ds[..rs[k].start])|
  {
    if k == 0 {
      assert ds[..0] == [];
    } else {
      var j := k - 1;
      ChainedPlacedAt(ds, rs, ps, s1, s2, j);
      assert rs[j].end <= rs[k].start && EqualBetween(ds, rs[j].end, rs[k].start);
      Rejoin(ds, rs[j].start, rs[j].start, rs[j].end, s1, s2);
      assert ds[..rs[j].start] + ds[rs[j].start..rs[j].start] == ds[..rs[j].start];
      EqualRunLines(ds, rs[j].end, rs[k].start);
    }
  }

  lemma ChainedPlaced(ds: seq<Diff>, rs: seq<Range>, ps: seq<Hunk>, s1: int, s2: int)
    requires ValidRanges(rs, |ds|) && Gapped(ds, 0, rs) && |ps| == |rs| && Chained(ps, rs)
    requires forall j :: 0 <= j < |ps| ==>
      ps[j] == WithLengths(ds[rs[j].start..rs[j].end], ps[j].start1, ps[j].start2)
    requires |rs| > 0 ==> rs[0].start == 0 && ps[0].start1 == s1 && ps[0].start2 == s2
    ensures Placed(ds, rs, ps, s1, s2)
  {
    forall k | 0 <= k < |ps|
      ensures ps[k] == WithLengths(ds[rs[k].start..rs[k].end], s1 + |ContextOf(ds[..rs[k].start])|,
                                   s2 + |PatchedOf(ds[..rs[k].start])|)
    {
      ChainedPlacedAt(ds, rs, ps, s1, s2, k);
    }
  }

  lemma PlacedAt(ds: seq<Diff>, rs: seq<Range>, ps: seq<Hunk>, s1: int, s2: int, k: nat)
    requires ValidRanges(rs, |ds|) && Placed(ds, rs, ps, s1, s2) && k < |rs|
    ensures ps[k] == WithLengths(ds[rs[k].start..rs[k].end], s1 + |ContextOf(ds[..rs[k].start])|,
                                 s2 + |PatchedOf(ds[..rs[k].start])|)
  {
  }

  /** The patch rebuilt up to `e`, followed by an EQUAL gap up to `a` and the
      hunk placed over `ds[a..b]`, combines into the patch rebuilt up to `b`. */
  lemma CombineStep(ds: seq<Diff>, e: nat, a: nat, b: nat, p: Hunk, s1: int, s2: int, lines1: seq<Line>)
    requires e <= a <= b <= |ds| && EqualBetween(ds, e, a)
    requires p == WithLengths(ds[a..b], s1 + |ContextOf(ds[..a])|, s2 + |PatchedOf(ds[..a])|)
    requires ContextMatches(WithLengths(ds, s1, s2), lines1)
    ensures CombineIntended(WithLengths(ds[..e], s1, s2), p, lines1) == Combined(WithLengths(ds[..b], s1, s2), None)
  {
    var acc := WithLengths(ds[..e], s1, s2);
    var gap := ds[e..a];
    EqualRunLines(ds, e, a);
    GapTexts(ds, e, a, s1, s2, lines1);
    assert p.start1 == acc.start1 + acc.length1 + |gap| && p.start2 == acc.start2 + acc.length2 + |gap|;
    JoinAcrossGap(acc, gap, p, lines1);
    Rejoin(ds, e, a, b, s1, s2);
    assert Hunk(acc.diffs + gap + p.diffs, acc.start1, acc.start2,
                acc.length1 + |gap| + p.length1, acc.length2 + |gap| + p.length2)
        == Hunk(ds[..e] + ds[e..a] + ds[a..b], s1, s2,
                |ContextOf(ds[..e])| + (a - e) + |ContextOf(ds[a..b])|,
                |PatchedOf(ds[..e])| + (a - e) + |PatchedOf(ds[a..b])|);
  }

  /** Combining, from the `k`-th on, the placed hunks into the patch rebuilt
      up to the end of range `k - 1` rebuilds the whole patch. */
  lemma {:induction false} CombinePlaced(ds: seq<Diff>, rs: seq<Range>, ps: seq<Hunk>, k: nat,
                                         s1: int, s2: int, lines1: seq<Line>)
    requires ValidRanges(rs, |ds|) && Gapped(ds, 0, rs) && Placed(ds, rs, ps, s1, s2)
    requires 0 < k <= |rs|
    requires ContextMatches(WithLengths(ds, s1, s2), lines1)
    ensures CombineFrom(WithLengths(ds[..rs[k - 1].end], s1, s2), ps[k..], lines1) == Some(WithLengths(ds, s1, s2))
    decreases |rs| - k
  {
    var e := rs[k - 1].end;
    var acc := WithLengths(ds[..e], s1, s2);
    if k == |rs| {
      assert ds[..e] == ds;
      assert ps[k..] == [];
    } else {
      var next := WithLengths(ds[..rs[k].end], s1, s2);
      CombineAt(ds, rs, ps, k, s1, s2, lines1);
      CombinePlaced(ds, rs, ps, k + 1, s1, s2, lines1);
      assert ps[k..][0] == ps[k] && ps[k..][1..] == ps[k + 1..];
      CombineFromFirst(acc, ps[k..], lines1, next, WithLengths(ds, s1, s2));
    }
  }

  /** The `k`-th placed hunk combines onto the patch rebuilt up to the end
      of range `k - 1`, giving the patch rebuilt up to the end of range `k`. */
  lemma CombineAt(ds: seq<Diff>, rs: seq<Range>, ps: seq<Hunk>, k: nat, s1: int, s2: int, lines1: seq<Line>)
    requires ValidRanges(rs, |ds|) && Gapped(ds, 0, rs) && Placed(ds, rs, ps, s1, s2)
    requires 0 < k < |rs|
    requires ContextMatches(WithLengths(ds, s1, s2), lines1)
    ensures CombineIntended(WithLengths(ds[..rs[k - 1].end], s1, s2), ps[k], lines1)
         == Combined(WithLengths(ds[..rs[k].end], s1, s2), None)
  {
    assert rs[k - 1].end <= rs[k].start && EqualBetween(ds, rs[k - 1].end, rs[k].start);
    PlacedAt(ds, rs, ps, s1, s2, k);
    CombineStep(ds, rs[k - 1].end, rs[k].start, rs[k].end, ps[k], s1, s2, lines1);
  }

  /** Splitting a patch whose context matches `lines1` and combining the
      pieces back with the corrected `Combine` gives the original patch. */
  lemma SplitCombineRoundTrip(h: Hunk, numContextLines: nat, lines1: seq<Line>)
    requires Consistent(h) && h.diffs != [] && ContextMatches(h, lines1)
    ensures CombineAll(SplitHunks(h, numContextLines), lines1) == Some(h)
  {
    var ds := h.diffs;
    var c := numContextLines;
    var rs := SplitRanges(ds, c);
    SplitRangesShape(ds, c);
    assert Gapped(ds, 0, rs) by {
      forall j, k | 0 <= j < k < |rs| && k == j + 1
        ensures rs[j].end <= rs[k].start && EqualBetween(ds, rs[j].end, rs[k].start)
      {
        assert CutBetween(ds, c, rs[j], rs[k]);
        CutContext(ds, c, rs[j], rs[k]);
      }
    }
    var ps := SplitHunks(h, c);
    SplitHunksShape(h, c);
    ChainedPlaced(ds, rs, ps, h.start1, h.start2);
    assert ps[0] == WithLengths(ds[..rs[0].end], h.start1, h.start2) by {
      assert ds[rs[0].start..rs[0].end] == ds[..rs[0].end];
    }
    CombinePlaced(ds, rs, ps, 1, h.start1, h.start2, lines1);
  }
}
