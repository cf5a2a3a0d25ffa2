/** The diff rewrite of `Patcher.ApplyFuzzy` (Patcher.cs): a patch's diffs
    re-targeted at the lines a fuzzy match found. `m[i]` is the buffer
    line matched to the patch's `i`-th context line, negative when it has
    none. */
module FuzzyRewrites {
  import opened Text
  import opened Hunks
  import opened MatchPaths
  import opened MatchMatrices

  /** The number of INSERT diffs `ds` starts with. */
  function LeadingInserts(ds: seq<Diff>): (n: nat)
    ensures n <= |ds|
    ensures forall q :: 0 <= q < n ==> ds[q].op == Insert
    ensures n < |ds| ==> ds[n].op != Insert
  {
    if ds != [] && ds[0].op == Insert then 1 + LeadingInserts(ds[1..]) else 0
  }

  /** Buffer lines `lo .. hi - 1`, each as a diff of operation `op`. */
  function Filler(lines: seq<Line>, lo: nat, hi: nat, op: Operation): (r: seq<Diff>)
    requires lo <= hi <= |lines|
    ensures |r| == hi - lo
    decreases hi
  {
    if lo == hi then [] else Filler(lines, lo, hi - 1, op) + [Diff(op, lines[hi - 1])]
  }

  /** The operation of the lines filling a gap: DELETE when the diffs on
      both sides of the gap are deletions, EQUAL otherwise. */
  function GapOp(before: Operation, after: Operation): Operation {
    if before == Delete && after == Delete then Delete else Equal
  }

  /** Every entry of `m` is a buffer line or negative. */
  predicate InBuffer(m: seq<int>, lines: seq<Line>) {
    forall q :: 0 <= q < |m| ==> m[q] < |lines|
  }

  /** The buffer lines skipped between the matches `ploc` and `mloc`, as
      diffs of operation `op`: none unless both are matched and apart. */
  function Gap(lines: seq<Line>, ploc: int, mloc: int, op: Operation): seq<Diff>
    requires mloc < |lines|
  {
    if mloc >= 0 && ploc >= 0 && mloc - ploc > 1 then Filler(lines, ploc + 1, mloc, op) else []
  }

  /** A context diff of operation `op` re-targeted at line `mloc`, or
      dropped when `mloc` is negative. */
  function Kept(lines: seq<Line>, mloc: int, op: Operation): seq<Diff>
    requires mloc < |lines|
  {
    if mloc >= 0 then [Diff(op, lines[mloc])] else []
  }

  /** The rewrite loop from context line `i` on, over the diffs `ds` not yet
      visited: `ploc` is `m[i - 1]` (-1 at the start) and `before` the
      operation of the last context diff kept. Each context diff is preceded
      by the buffer lines skipped since the previous match, keeps its
      operation and takes the text of its matched line, or is dropped when
      unmatched; INSERT diffs stay as they are. */
  function Rewrite(ds: seq<Diff>, m: seq<int>, lines: seq<Line>, i: nat, ploc: int, before: Operation): seq<Diff>
    requires InBuffer(m, lines)
    decreases |ds|
  {
    if i >= |m| then ds
    else
      var n := LeadingInserts(ds);
      if n == |ds| then ds // no context diff left: excluded when `ds` holds `|m| - i` context lines
      else
        Gap(lines, ploc, m[i], GapOp(before, ds[0].op)) + ds[..n] + Kept(lines, m[i], ds[n].op)
        + Rewrite(ds[n + 1..], m, lines, i + 1, m[i], ds[n].op)
  }

  /** The lines skipped between the matches `ploc` and `mloc`. */
  function GapLines(lines: seq<Line>, ploc: int, mloc: int): seq<Line>
    requires mloc < |lines|
  {
    if mloc >= 0 && ploc >= 0 && mloc - ploc > 1 then lines[ploc + 1..mloc] else []
  }

  function KeptLines(lines: seq<Line>, mloc: int): seq<Line>
    requires mloc < |lines|
  {
    if mloc >= 0 then [lines[mloc]] else []
  }

  /** The context lines the rewrite produces from context line `i` on. */
  function Covered(m: seq<int>, lines: seq<Line>, i: nat, ploc: int): seq<Line>
    requires i <= |m| && InBuffer(m, lines)
    decreases |m| - i
  {
    if i == |m| then []
    else GapLines(lines, ploc, m[i]) + KeptLines(lines, m[i]) + Covered(m, lines, i + 1, m[i])
  }

  lemma {:induction false} ContextOfInserts(ds: seq<Diff>)
    requires forall q :: 0 <= q < |ds| ==> ds[q].op == Insert
    ensures ContextOf(ds) == []
  {
    if ds != [] {
      ContextOfInserts(ds[..|ds| - 1]);
    }
  }

  /** The first context diff of `ds` is the one after its leading inserts. */
  lemma {:induction false} PeelContext(ds: seq<Diff>, n: nat)
    requires |ContextOf(ds)| >= 1 && n == LeadingInserts(ds)
    ensures n < |ds| && ContextOf(ds) == [ds[n].text] + ContextOf(ds[n + 1..])
  {
    if n == |ds| {
      ContextOfInserts(ds);
      assert false;
    }
    ContextOfInserts(ds[..n]);
    ContextSplit(ds, n);
    var tail := ds[n..];
    ContextSplit(tail, 1);
    assert tail[..1] == [ds[n]] && tail[1..] == ds[n + 1..];
    assert ContextOf([ds[n]]) == [ds[n].text] by {
      assert [ds[n]][..0] == [];
    }
  }

  lemma {:induction false} ContextSplit(ds: seq<Diff>, k: nat)
    requires k <= |ds|
    ensures ContextOf(ds) == ContextOf(ds[..k]) + ContextOf(ds[k..])
  {
    ContextAppend(ds[..k], ds[k..]);
    assert ds[..k] + ds[k..] == ds;
  }

  /** Filler lines are context lines. */
  lemma {:induction false} FillerContext(lines: seq<Line>, lo: nat, hi: nat, op: Operation)
    requires lo <= hi <= |lines| && op != Insert
    ensures ContextOf(Filler(lines, lo, hi, op)) == lines[lo..hi]
    decreases hi
  {
    if lo < hi {
      FillerContext(lines, lo, hi - 1, op);
      FillerContextStep(lines, lo, hi, op);
    } else {
      assert Filler(lines, lo, hi, op) == [] && lines[lo..hi] == [];
      assert ContextOf([]) == [];
    }
  }

  lemma {:induction false} FillerContextStep(lines: seq<Line>, lo: nat, hi: nat, op: Operation)
    requires lo < hi <= |lines| && op != Insert
    requires ContextOf(Filler(lines, lo, hi - 1, op)) == lines[lo..hi - 1]
    ensures ContextOf(Filler(lines, lo, hi, op)) == lines[lo..hi]
  {
    assert Filler(lines, lo, hi, op) == Filler(lines, lo, hi - 1, op) + [Diff(op, lines[hi - 1])];
    SliceSnoc(lines, lo, hi - 1);
    SnocContext(Filler(lines, lo, hi - 1, op), Diff(op, lines[hi - 1]), Filler(lines, lo, hi, op), lines[lo..hi - 1], lines[lo..hi]);
  }

  lemma {:induction false} SnocContext(f: seq<Diff>, d: Diff, g: seq<Diff>, c: seq<Line>, e: seq<Line>)
    requires ContextOf(f) == c && d.op != Insert && g == f + [d] && e == c + [d.text]
    ensures ContextOf(g) == e
  {
    assert g[..|g| - 1] == f;
  }

  lemma {:induction false} SliceSnoc<T>(s: seq<T>, a: nat, b: nat)
    requires a <= b < |s|
    ensures s[a..b + 1] == s[a..b] + [s[b]]
  {
  }

  lemma {:induction false} Rejoin<T>(s: seq<T>, k: nat)
    requires k <= |s|
    ensures s[..k] + s[k..] == s
  {
  }

  /** The context lines of the rewritten diffs are the covered lines. */
  lemma {:induction false} RewriteContext(ds: seq<Diff>, m: seq<int>, lines: seq<Line>, i: nat, ploc: int, before: Operation)
    requires i <= |m| && |ContextOf(ds)| == |m| - i && InBuffer(m, lines)
    ensures ContextOf(Rewrite(ds, m, lines, i, ploc, before)) == Covered(m, lines, i, ploc)
    decreases |ds|
  {
    if i < |m| {
      var n := LeadingInserts(ds);
      PeelContext(ds, n);
      RewriteContext(ds[n + 1..], m, lines, i + 1, m[i], ds[n].op);
      RewriteContextAt(ds, m, lines, i, ploc, before);
    }
  }

  lemma {:induction false} RewriteContextAt(ds: seq<Diff>, m: seq<int>, lines: seq<Line>, i: nat, ploc: int, before: Operation)
    requires i < |m| && InBuffer(m, lines)
    requires var n := LeadingInserts(ds);
      n < |ds| && ContextOf(Rewrite(ds[n + 1..], m, lines, i + 1, m[i], ds[n].op)) == Covered(m, lines, i + 1, m[i])
    ensures ContextOf(Rewrite(ds, m, lines, i, ploc, before)) == Covered(m, lines, i, ploc)
  {
    var n := LeadingInserts(ds);
    var x, op := m[i], ds[n].op;
    RewriteContextStep(lines, ploc, x, GapOp(before, ds[0].op), ds[..n], op,
                       Rewrite(ds, m, lines, i, ploc, before), Rewrite(ds[n + 1..], m, lines, i + 1, x, op),
                       Covered(m, lines, i, ploc), Covered(m, lines, i + 1, x));
  }

  /** One step of `RewriteContext`, over the pieces of the rewritten diffs
      `r` and of the covered lines `c`. */
  lemma {:induction false} RewriteContextStep(lines: seq<Line>, ploc: int, x: int, op: Operation, ins: seq<Diff>, opn: Operation,
                                              r: seq<Diff>, rest: seq<Diff>, c: seq<Line>, crest: seq<Line>)
    requires x < |lines| && op != Insert && opn != Insert
    requires forall q :: 0 <= q < |ins| ==> ins[q].op == Insert
    requires r == Gap(lines, ploc, x, op) + ins + Kept(lines, x, opn) + rest
    requires c == GapLines(lines, ploc, x) + KeptLines(lines, x) + crest
    requires ContextOf(rest) == crest
    ensures ContextOf(r) == c
  {
    GapContext(lines, ploc, x, op);
    KeptContext(lines, x, opn);
    ContextOfInserts(ins);
    ContextAround(Gap(lines, ploc, x, op), ins, Kept(lines, x, opn), rest, GapLines(lines, ploc, x), KeptLines(lines, x), crest);
  }

  lemma {:induction false} GapContext(lines: seq<Line>, ploc: int, mloc: int, op: Operation)
    requires mloc < |lines| && op != Insert
    ensures ContextOf(Gap(lines, ploc, mloc, op)) == GapLines(lines, ploc, mloc)
  {
    if mloc >= 0 && ploc >= 0 && mloc - ploc > 1 {
      assert Gap(lines, ploc, mloc, op) == Filler(lines, ploc + 1, mloc, op);
      FillerContext(lines, ploc + 1, mloc, op);
    } else {
      assert Gap(lines, ploc, mloc, op) == [];
      assert ContextOf([]) == [];
    }
  }

  lemma {:induction false} KeptContext(lines: seq<Line>, mloc: int, op: Operation)
    requires mloc < |lines| && op != Insert
    ensures ContextOf(Kept(lines, mloc, op)) == KeptLines(lines, mloc)
  {
    if mloc >= 0 {
      var k := Kept(lines, mloc, op);
      assert k[..0] == [];
    }
  }

  /** Context lines around a run `b` of diffs with none. */
  lemma {:induction false} ContextAround(a: seq<Diff>, b: seq<Diff>, c: seq<Diff>, d: seq<Diff>, la: seq<Line>, lc: seq<Line>, ld: seq<Line>)
    requires ContextOf(a) == la && ContextOf(b) == [] && ContextOf(c) == lc && ContextOf(d) == ld
    ensures ContextOf(a + b + c + d) == la + lc + ld
  {
    ContextAppend(a, b);
    ContextAppend(a + b, c);
    ContextAppend(a + b + c, d);
    assert ContextOf(a) + ContextOf(b) == ContextOf(a);
  }

  // ------------------------------------------------------------ aligned matches

  /** From entry `i` on, each matched line continues the lines matched
      before it without a gap the rewrite leaves open: `ploc` is entry
      `i - 1` (-1 at the start) and `last` the last non-negative entry before
      `i` (-1 for none). A matched line lies past `last`, and directly after
      it when unmatched entries come between them. */
  predicate AlignedFrom(r: seq<int>, i: nat, ploc: int, last: int)
    requires i <= |r|
    decreases |r| - i
  {
    i == |r| ||
    (var x := r[i];
     && (x >= 0 ==> x > last && (ploc < 0 && last >= 0 ==> x == last + 1))
     && AlignedFrom(r, i + 1, x, if x >= 0 then x else last))
  }

  /** The last non-negative entry from `i` on, or `last` when there is none. */
  function LastMatched(r: seq<int>, i: nat, last: int): int
    requires i <= |r|
    decreases |r| - i
  {
    if i == |r| then last else LastMatched(r, i + 1, if r[i] >= 0 then r[i] else last)
  }

  /** The first non-negative entry from `i` on, or -1 when there is none. */
  function FirstMatched(r: seq<int>, i: nat): (x: int)
    requires i <= |r|
    ensures x >= -1
    decreases |r| - i
  {
    if i == |r| then -1 else if r[i] >= 0 then r[i] else FirstMatched(r, i + 1)
  }

  /** Where the run of covered lines from entry `i` on starts: after
      `last`, or at the first matched line when nothing was matched before
      (-1 when nothing is matched at all). */
  function RunStart(r: seq<int>, i: nat, last: int): int
    requires i <= |r|
  {
    if last >= 0 then last + 1 else FirstMatched(r, i)
  }

  /** Buffer lines `a .. l`, none when `a` is negative. */
  function Run(lines: seq<Line>, a: int, l: int): seq<Line>
    requires a >= 0 ==> a <= l + 1 <= |lines|
  {
    if a < 0 then [] else lines[a..l + 1]
  }

  /** The covered lines of an aligned match are one run of buffer lines,
      ending at the last matched line. */
  lemma {:induction false} CoveredSlice(r: seq<int>, lines: seq<Line>, i: nat, ploc: int, last: int)
    requires i <= |r| && InBuffer(r, lines) && -1 <= last < |lines|
    requires AlignedFrom(r, i, ploc, last) && (ploc >= 0 ==> ploc == last)
    ensures SliceOf(r, lines, i, ploc, last)
    decreases |r| - i
  {
    if i < |r| {
      var x := r[i];
      CoveredSlice(r, lines, i + 1, x, if x >= 0 then x else last);
      CoveredSliceStep(r, lines, i, ploc, last);
    }
  }

  /** The conclusion of `CoveredSlice`. */
  predicate SliceOf(r: seq<int>, lines: seq<Line>, i: nat, ploc: int, last: int)
    requires i <= |r| && InBuffer(r, lines)
  {
    && last <= LastMatched(r, i, last) < |lines|
    && (RunStart(r, i, last) >= 0 ==> RunStart(r, i, last) <= LastMatched(r, i, last) + 1)
    && Covered(r, lines, i, ploc) == Run(lines, RunStart(r, i, last), LastMatched(r, i, last))
  }

  lemma {:induction false} CoveredSliceStep(r: seq<int>, lines: seq<Line>, i: nat, ploc: int, last: int)
    requires i < |r| && InBuffer(r, lines) && -1 <= last < |lines|
    requires AlignedFrom(r, i, ploc, last) && (ploc >= 0 ==> ploc == last)
    requires SliceOf(r, lines, i + 1, r[i], if r[i] >= 0 then r[i] else last)
    ensures SliceOf(r, lines, i, ploc, last)
  {
    var x := r[i];
    var last' := if x >= 0 then x else last;
    var rest := Covered(r, lines, i + 1, x);
    var l := LastMatched(r, i + 1, last');
    assert Covered(r, lines, i, ploc) == GapLines(lines, ploc, x) + KeptLines(lines, x) + rest;
    assert LastMatched(r, i, last) == l;
    if x < 0 {
      assert RunStart(r, i, last) == RunStart(r, i + 1, last');
    } else {
      CoveredJoin(lines, ploc, last, x, l, rest);
    }
  }

  /** A matched line `x` joins the run after it to the run before it. */
  lemma {:induction false} CoveredJoin(lines: seq<Line>, ploc: int, last: int, x: nat, l: nat, rest: seq<Line>)
    requires -1 <= last < x <= l < |lines| && (ploc >= 0 ==> ploc == last)
    requires ploc < 0 && last >= 0 ==> x == last + 1
    requires rest == lines[x + 1..l + 1]
    ensures GapLines(lines, ploc, x) + KeptLines(lines, x) + rest == lines[if last >= 0 then last + 1 else x..l + 1]
  {
    var from := if last >= 0 then last + 1 else x;
    assert GapLines(lines, ploc, x) == lines[from..x];
    JoinRun(lines, from, x, l);
  }

  lemma {:induction false} JoinRun(lines: seq<Line>, a: nat, x: nat, l: nat)
    requires a <= x <= l < |lines|
    ensures lines[a..x] + [lines[x]] + lines[x + 1..l + 1] == lines[a..l + 1]
  {
  }

  /** The entries `a .. b - 1` are unmatched: after them the previous entry is -1. */
  lemma {:induction false} AlignedSkip(r: seq<int>, a: nat, b: nat, ploc: int, last: int)
    requires a < b <= |r| && forall q :: a <= q < b ==> r[q] == -1
    requires AlignedFrom(r, b, -1, last)
    ensures AlignedFrom(r, a, ploc, last)
    decreases b - a
  {
    if a + 1 < b {
      AlignedSkip(r, a + 1, b, -1, last);
    }
  }

  /** A trail of the best path continues the line of its node aligned. */
  lemma {:induction false} TrailAligned(g: Grid, n: nat, loc: int, i: nat, o: nat, r: seq<int>)
    requires Shaped(g, n) && i < n && o < |g| && |r| == n
    requires r[i] == loc + i + o && r[i + 1..] == Trail(g, n, loc, i, o)
    ensures AlignedFrom(r, i + 1, r[i], if r[i] >= 0 then r[i] else -1)
    decreases n - i
  {
    var nx := NextAt(g, n, i, o);
    if nx < 0 {
      TrailEnd(g, n, loc, i, o, r);
    } else {
      var d := OffsetsToPatternDistance(o, nx);
      TrailJump(g, n, loc, i, o, r);
      TrailAligned(g, n, loc, i + d, nx, r);
      AlignedJump(r, i, d, r[i], r[i + d]);
    }
  }

  /** A trail that matches nothing more leaves the rest unmatched. */
  lemma {:induction false} TrailEnd(g: Grid, n: nat, loc: int, i: nat, o: nat, r: seq<int>)
    requires Shaped(g, n) && i < n && o < |g| && |r| == n && NextAt(g, n, i, o) < 0
    requires r[i] == loc + i + o && r[i + 1..] == Trail(g, n, loc, i, o)
    ensures AlignedFrom(r, i + 1, r[i], if r[i] >= 0 then r[i] else -1)
  {
    var t := Trail(g, n, loc, i, o);
    forall q | i + 1 <= q < n
      ensures r[q] == -1
    {
      assert r[q] == t[q - (i + 1)];
    }
    if i + 1 < n {
      AlignedSkip(r, i + 1, n, r[i], if r[i] >= 0 then r[i] else -1);
    }
  }

  /** The next node of a trail, as entries of the path `r`. */
  lemma {:induction false} TrailJump(g: Grid, n: nat, loc: int, i: nat, o: nat, r: seq<int>)
    requires Shaped(g, n) && i < n && o < |g| && |r| == n && NextAt(g, n, i, o) >= 0
    requires r[i] == loc + i + o && r[i + 1..] == Trail(g, n, loc, i, o)
    ensures var nx := NextAt(g, n, i, o);
      var d := OffsetsToPatternDistance(o, nx);
      && d >= 1 && i + d < n && nx < |g|
      && r[i + d] == loc + (i + d) + nx && r[i + d + 1..] == Trail(g, n, loc, i + d, nx)
      && r[i + d] - r[i] >= 1 && (d > 1 ==> r[i + d] == r[i] + 1)
      && forall q :: i + 1 <= q < i + d ==> r[q] == -1
  {
    var nx := NextAt(g, n, i, o);
    var t := Trail(g, n, loc, i, o);
    var d := OffsetsToPatternDistance(o, nx);
    TrailStep(g, n, loc, i, o);
    assert r[i + d] == t[d - 1];
    assert r[i + d + 1..] == t[d..];
    forall q | i + 1 <= q < i + d
      ensures r[q] == -1
    {
      assert r[q] == t[q - (i + 1)];
    }
  }

  /** A jump of `d` entries from line `x` to line `y` keeps the match aligned. */
  lemma {:induction false} AlignedJump(r: seq<int>, i: nat, d: nat, x: int, y: int)
    requires d >= 1 && i + d < |r| && r[i] == x && r[i + d] == y
    requires y - x >= 1 && (d > 1 ==> y == x + 1)
    requires forall q :: i + 1 <= q < i + d ==> r[q] == -1
    requires AlignedFrom(r, i + d + 1, y, if y >= 0 then y else -1)
    ensures AlignedFrom(r, i + 1, x, if x >= 0 then x else -1)
  {
    var last := if x >= 0 then x else -1;
    assert AlignedFrom(r, i + d, if d > 1 then -1 else x, last);
    if d > 1 {
      AlignedSkip(r, i + 1, i + d, x, last);
    }
  }

  /** The best path of a window is aligned. */
  lemma {:induction false} PathAligned(g: Grid, n: nat, loc: int)
    requires Shaped(g, n) && n >= 1
    ensures AlignedFrom(PathOf(g, n, loc), 0, -1, -1)
  {
    var r := PathOf(g, n, loc);
    var f := First(g, n, |g|);
    assert r[1..] == Trail(g, n, loc, 0, f);
    TrailAligned(g, n, loc, 0, f, r);
  }

  // ------------------------------------------------------------ a matched line exists

  /** Nodes on search lines before the start of the search text score 0. */
  predicate DeadBefore(g: Grid, n: nat, loc: int)
    requires Shaped(g, n)
  {
    forall k, i :: 0 <= k < |g| && 0 <= i < n && loc + k + i < 0 ==> g[k][i] == 0.0
  }

  lemma {:induction false} GridAtBefore(pattern: seq<Line>, search: seq<Line>, maxOffset: nat, loc: int)
    ensures var g := GridAt(pattern, search, maxOffset, loc);
      Shaped(g, |pattern|) && DeadBefore(g, |pattern|, loc)
  {
    GridAtSpec(pattern, search, maxOffset, loc);
    var g := GridAt(pattern, search, maxOffset, loc);
    forall k, i | 0 <= k < |g| && 0 <= i < |pattern| && loc + k + i < 0
      ensures g[k][i] == 0.0
    {
      GridEntry(pattern, search, maxOffset, loc, k, i);
    }
  }

  /** A node before the start whose trail matches only lines before the
      start has sum 0. */
  lemma {:induction false} SumBefore(g: Grid, n: nat, loc: int, i: nat, o: nat)
    requires Shaped(g, n) && DeadBefore(g, n, loc) && i < n && o < |g| && loc + i + o < 0
    requires forall q :: 0 <= q < |Trail(g, n, loc, i, o)| ==> Trail(g, n, loc, i, o)[q] < 0
    ensures SumAt(g, n, i, o) == 0.0
    decreases n - i
  {
    if i < n - 1 {
      ScanSpec(g, n, i, o, |g|);
      var nx := NextAt(g, n, i, o);
      if nx >= 0 {
        var d := OffsetsToPatternDistance(o, nx);
        var t := Trail(g, n, loc, i, o);
        TrailStep(g, n, loc, i, o);
        var rest := Trail(g, n, loc, i + d, nx);
        forall q | 0 <= q < |rest|
          ensures rest[q] < 0
        {
          assert rest[q] == t[d + q];
        }
        assert t[d - 1] < 0;
        SumBefore(g, n, loc, i + d, nx);
      }
    }
  }

  /** A window of positive score matches some pattern line to a line of
      the search text. */
  lemma {:induction false} MatchedLineExists(pattern: seq<Line>, search: seq<Line>, maxOffset: nat, loc: int)
    requires |pattern| >= 1 && MatchScore(pattern, search, maxOffset, loc) > 0.0
    ensures FirstMatched(MatchPath(pattern, search, maxOffset, loc), 0) >= 0
  {
    var g := GridAt(pattern, search, maxOffset, loc);
    var n := |pattern|;
    GridAtBefore(pattern, search, maxOffset, loc);
    var r := PathOf(g, n, loc);
    var f := First(g, n, |g|);
    var t := Trail(g, n, loc, 0, f);
    assert r == MatchPath(pattern, search, maxOffset, loc);
    if FirstMatched(r, 0) < 0 {
      NoneMatched(r, 0);
      assert r[0] == loc + f;
      forall q | 0 <= q < |t|
        ensures t[q] < 0
      {
        assert t[q] == r[q + 1];
      }
      SumBefore(g, n, loc, 0, f);
    }
  }

  lemma {:induction false} NoneMatched(r: seq<int>, i: nat)
    requires i <= |r| && FirstMatched(r, i) < 0
    ensures forall q :: i <= q < |r| ==> r[q] < 0
    decreases |r| - i
  {
    if i < |r| {
      NoneMatched(r, i + 1);
    }
  }

  // ------------------------------------------------------------ the rewritten patch applies

  /** The rewritten diffs of a match that scores above 0 have as context a
      run of buffer lines starting at the first matched line: applying them
      there exactly cannot fail. */
  lemma {:induction false} FuzzyContext(pattern: seq<Line>, search: seq<Line>, maxOffset: nat, loc: int, ds: seq<Diff>, lines: seq<Line>)
    requires |pattern| >= 1 && MatchScore(pattern, search, maxOffset, loc) > 0.0 && |search| <= |lines|
    requires |ContextOf(ds)| == |pattern|
    ensures var m := MatchPath(pattern, search, maxOffset, loc);
      && InBuffer(m, lines)
      && var at := FirstMatched(m, 0);
      var c := ContextOf(Rewrite(ds, m, lines, 0, -1, Equal));
      && 0 <= at && at + |c| <= |lines| && c == lines[at..at + |c|]
  {
    var m := MatchPath(pattern, search, maxOffset, loc);
    MatchPathShape(pattern, search, maxOffset, loc);
    MatchedLineExists(pattern, search, maxOffset, loc);
    GridAtSpec(pattern, search, maxOffset, loc);
    PathAligned(GridAt(pattern, search, maxOffset, loc), |pattern|, loc);
    CoveredSlice(m, lines, 0, -1, -1);
    RewriteContext(ds, m, lines, 0, -1, Equal);
  }

  // ------------------------------------------------------------ the rewrite loop

  /** The loop of `ApplyFuzzy` that re-targets the diffs of the patch copy at
      the matched lines: `j` walks the diffs, `ploc` is the previous match. */
  method RewriteDiffs(diffs: seq<Diff>, m: seq<int>, lines: seq<Line>) returns (ds: seq<Diff>)
    requires |ContextOf(diffs)| == |m| && InBuffer(m, lines)
    ensures ds == Rewrite(diffs, m, lines, 0, -1, Equal)
  {
    ds := diffs;
    var i: nat, j: nat, ploc: int := 0, 0, -1;
    ghost var before := Equal;
    while i < |m|
      invariant i <= |m| && j <= |ds| && |ContextOf(ds[j..])| == |m| - i
      invariant ds[..j] + Rewrite(ds[j..], m, lines, i, ploc, before) == Rewrite(diffs, m, lines, 0, -1, Equal)
      invariant ploc >= 0 ==> j >= 1 && ds[j - 1].op == before
    {
      ds, j, before := RewriteOne(ds, j, m, lines, i, ploc, before);
      ploc, i := m[i], i + 1;
    }
    Rejoin(ds, j);
  }

  /** One pass of the loop: the gap filler, the leading inserts and the
      context diff of line `i`. */
  method RewriteOne(ds0: seq<Diff>, j0: nat, m: seq<int>, lines: seq<Line>, i: nat, ploc: int, ghost before: Operation)
      returns (ds: seq<Diff>, j: nat, ghost after: Operation)
    requires i < |m| && InBuffer(m, lines) && j0 <= |ds0| && |ContextOf(ds0[j0..])| == |m| - i
    requires ploc >= 0 ==> j0 >= 1 && ds0[j0 - 1].op == before
    ensures j <= |ds| && |ContextOf(ds[j..])| == |m| - (i + 1)
    ensures ds[..j] + Rewrite(ds[j..], m, lines, i + 1, m[i], after) == ds0[..j0] + Rewrite(ds0[j0..], m, lines, i, ploc, before)
    ensures m[i] >= 0 ==> j >= 1 && ds[j - 1].op == after
  {
    ghost var s := ds0[j0..];
    ghost var n := LeadingInserts(s);
    PeelContext(s, n);
    var mloc := m[i];
    assert ds0[j0] == s[0];
    ghost var gap := Gap(lines, ploc, mloc, GapOp(before, s[0].op));
    var ds1, j1 := GapPhase(ds0, j0, lines, ploc, mloc, before);
    ds, j := KeepPhase(ds1, j1, lines, mloc, ds0[..j0] + gap, s);
    after := s[n].op;
    PassDone(ds0, j0, m, lines, i, ploc, before, s, n, gap, Kept(lines, mloc, after), ds, j, after);
  }

  /** The state after one pass, in terms of the rewrite: `s` holds the
      diffs not yet visited before it, `gap` the filler, `kept` the context
      diff re-targeted. */
  lemma {:induction false} PassDone(ds0: seq<Diff>, j0: nat, m: seq<int>, lines: seq<Line>, i: nat, ploc: int, before: Operation,
                                    s: seq<Diff>, n: nat, gap: seq<Diff>, kept: seq<Diff>, ds: seq<Diff>, j: nat, after: Operation)
    requires i < |m| && InBuffer(m, lines) && j0 < |ds0| && |ContextOf(ds0[j0..])| == |m| - i
    requires s == ds0[j0..] && n == LeadingInserts(s) && n < |s| && after == s[n].op
    requires gap == Gap(lines, ploc, m[i], GapOp(before, s[0].op)) && kept == Kept(lines, m[i], after)
    requires ds == ds0[..j0] + gap + s[..n] + kept + s[n + 1..] && j == j0 + |gap| + n + |kept|
    ensures j <= |ds| && |ContextOf(ds[j..])| == |m| - (i + 1)
    ensures ds[..j] + Rewrite(ds[j..], m, lines, i + 1, m[i], after) == ds0[..j0] + Rewrite(ds0[j0..], m, lines, i, ploc, before)
    ensures m[i] >= 0 ==> j >= 1 && ds[j - 1].op == after
  {
    RewriteUnfold(s, m, lines, i, ploc, before);
    Advance(ds, j, ds0[..j0], gap, s[..n], kept, s[n + 1..],
            Rewrite(s, m, lines, i, ploc, before), Rewrite(s[n + 1..], m, lines, i + 1, m[i], after));
  }

  /** The diffs after one pass: everything up to the kept diff is done. */
  lemma {:induction false} Advance(ds: seq<Diff>, j: nat, done: seq<Diff>, gap: seq<Diff>, ins: seq<Diff>, kept: seq<Diff>,
                                   rest: seq<Diff>, r: seq<Diff>, rrest: seq<Diff>)
    requires ds == done + gap + ins + kept + rest && j == |done| + |gap| + |ins| + |kept|
    requires r == gap + ins + kept + rrest
    ensures j <= |ds| && ds[..j] + rrest == done + r && ds[j..] == rest
    ensures |kept| == 1 ==> j >= 1 && ds[j - 1] == kept[0]
  {
    Cut(ds, done + gap + ins + kept, rest, j);
  }

  /** The filler for the lines skipped since the previous match. */
  method GapPhase(ds0: seq<Diff>, j0: nat, lines: seq<Line>, ploc: int, mloc: int, ghost before: Operation) returns (ds: seq<Diff>, j: nat)
    requires j0 < |ds0| && mloc < |lines| && (ploc >= 0 ==> j0 >= 1 && ds0[j0 - 1].op == before)
    ensures var gap := Gap(lines, ploc, mloc, GapOp(before, ds0[j0].op));
      ds == ds0[..j0] + gap + ds0[j0..] && j == j0 + |gap|
  {
    if mloc >= 0 && ploc >= 0 && mloc - ploc > 1 {
      var op := if ds0[j0 - 1].op == Delete && ds0[j0].op == Delete then Delete else Equal;
      ds, j := InsertGap(ds0, j0, lines, ploc + 1, mloc, op);
    } else {
      ds, j := ds0, j0;
      assert ds0[..j0] + [] + ds0[j0..] == ds0;
    }
  }

  /** Skips the leading inserts, then re-targets the context diff at line
      `mloc` or removes it when `mloc` is negative. */
  method KeepPhase(ds0: seq<Diff>, j0: nat, lines: seq<Line>, mloc: int, ghost done: seq<Diff>, ghost s: seq<Diff>)
      returns (ds: seq<Diff>, j: nat)
    requires ds0 == done + s && j0 == |done| && |ContextOf(s)| >= 1 && mloc < |lines|
    ensures var n := LeadingInserts(s);
      && n < |s|
      && ds == done + s[..n] + Kept(lines, mloc, s[n].op) + s[n + 1..]
      && j == j0 + n + |Kept(lines, mloc, s[n].op)|
  {
    ghost var n := LeadingInserts(s);
    Cut(ds0, done, s, j0);
    var k := SkipInserts(ds0, j0);
    Pick(ds0, done, s, n, k);
    if mloc < 0 {
      ds := ds0[..k] + ds0[k + 1..];
      j := k;
    } else {
      ds := ds0[..k] + [Diff(ds0[k].op, lines[mloc])] + ds0[k + 1..];
      j := k + 1;
    }
  }

  /** `diffs.Insert(j++, ...)` for each buffer line `lo .. hi - 1`. */
  method InsertGap(ds0: seq<Diff>, j0: nat, lines: seq<Line>, lo: nat, hi: nat, op: Operation) returns (ds: seq<Diff>, j: nat)
    requires j0 <= |ds0| && lo <= hi <= |lines|
    ensures ds == ds0[..j0] + Filler(lines, lo, hi, op) + ds0[j0..] && j == j0 + (hi - lo)
  {
    ds, j := ds0, j0;
    var l := lo;
    while l < hi
      invariant lo <= l <= hi && j == j0 + (l - lo)
      invariant ds == ds0[..j0] + Filler(lines, lo, l, op) + ds0[j0..]
    {
      InsertInto(ds0[..j0], Filler(lines, lo, l, op), ds0[j0..], Diff(op, lines[l]));
      ds := ds[..j] + [Diff(op, lines[l])] + ds[j..];
      assert Filler(lines, lo, l + 1, op) == Filler(lines, lo, l, op) + [Diff(op, lines[l])];
      j, l := j + 1, l + 1;
    }
  }

  /** `while (diffs[j].op == Operation.INSERT) j++;` */
  method SkipInserts(ds: seq<Diff>, j: nat) returns (k: nat)
    requires j <= |ds| && |ContextOf(ds[j..])| >= 1
    ensures k == j + LeadingInserts(ds[j..]) && k < |ds|
  {
    ghost var n := LeadingInserts(ds[j..]);
    PeelContext(ds[j..], n);
    k := j;
    assert ds[k] == ds[j..][k - j];
    while ds[k].op == Insert
      invariant j <= k <= j + n && ds[k] == ds[j..][k - j]
      decreases j + n - k
    {
      k := k + 1;
      assert ds[k] == ds[j..][k - j];
    }
  }

  /** One step of the rewrite. */
  lemma {:induction false} RewriteUnfold(ds: seq<Diff>, m: seq<int>, lines: seq<Line>, i: nat, ploc: int, before: Operation)
    requires i < |m| && |ContextOf(ds)| == |m| - i && InBuffer(m, lines)
    ensures var n := LeadingInserts(ds);
      n < |ds| && |ContextOf(ds[n + 1..])| == |m| - (i + 1) &&
      Rewrite(ds, m, lines, i, ploc, before) ==
        Gap(lines, ploc, m[i], GapOp(before, ds[0].op)) + ds[..n] + Kept(lines, m[i], ds[n].op)
        + Rewrite(ds[n + 1..], m, lines, i + 1, m[i], ds[n].op)
  {
    PeelContext(ds, LeadingInserts(ds));
  }

  lemma {:induction false} InsertInto(a: seq<Diff>, f: seq<Diff>, b: seq<Diff>, d: Diff)
    ensures var ds := a + f + b;
      ds[..|a + f|] + [d] + ds[|a + f|..] == a + (f + [d]) + b
  {
    var ds := a + f + b;
    assert ds[..|a + f|] == a + f;
    assert ds[|a + f|..] == b;
  }

  /** Position `j` splits `ds` into `done` and `rest`. */
  lemma {:induction false} Cut(ds: seq<Diff>, done: seq<Diff>, rest: seq<Diff>, j: nat)
    requires ds == done + rest && j == |done|
    ensures ds[..j] == done && ds[j..] == rest
  {
    assert ds[..j] == done;
  }

  /** Position `k`, `n` diffs into `rest`, in `ds == done + rest`. */
  lemma {:induction false} Pick(ds: seq<Diff>, done: seq<Diff>, rest: seq<Diff>, n: nat, k: nat)
    requires ds == done + rest && k == |done| + n && n < |rest|
    ensures ds[..k] == done + rest[..n] && ds[k] == rest[n] && ds[k + 1..] == rest[n + 1..]
  {
    assert ds[..k] == done + rest[..n];
    assert ds[k + 1..] == rest[n + 1..];
  }
}
