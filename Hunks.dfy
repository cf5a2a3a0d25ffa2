/** The value model of a Patch.cs hunk: a list of line diffs located in both the
    original (sequence 1) and the patched (sequence 2) text. */
module Hunks {
  import opened Text
  import opened Ranges
  import opened Slices

  /** The diff record (defined in Diff.cs, which is not part of this model). */
  datatype Operation = Equal | Insert | Delete
  datatype Diff = Diff(op: Operation, text: Line)

  /** The value of a `Patch` object: its diffs and its four integers. */
  datatype Hunk = Hunk(diffs: seq<Diff>, start1: int, start2: int, length1: int, length2: int) {
    function Range1(): Range { Range(start1, start1).WithLength(length1) }
    function Range2(): Range { Range(start2, start2).WithLength(length2) }
  }

  /** `ContextLines`: the texts of the non-INSERT diffs, in order. */
  function ContextOf(ds: seq<Diff>): seq<Line>
  {
    if ds == [] then []
    else ContextOf(ds[..|ds| - 1]) + (if ds[|ds| - 1].op != Insert then [ds[|ds| - 1].text] else [])
  }

  /** `PatchedLines`: the texts of the non-DELETE diffs, in order. */
  function PatchedOf(ds: seq<Diff>): seq<Line>
  {
    if ds == [] then []
    else PatchedOf(ds[..|ds| - 1]) + (if ds[|ds| - 1].op != Delete then [ds[|ds| - 1].text] else [])
  }

  /** The invariant `RecalculateLength` establishes. */
  predicate Consistent(h: Hunk) {
    h.length1 == |ContextOf(h.diffs)| && h.length2 == |PatchedOf(h.diffs)|
  }

  /** A hunk at the given starts whose lengths are those `RecalculateLength` computes. */
  function WithLengths(ds: seq<Diff>, start1: int, start2: int): (h: Hunk)
    ensures Consistent(h) && h.diffs == ds && h.start1 == start1 && h.start2 == start2
  {
    Hunk(ds, start1, start2, |ContextOf(ds)|, |PatchedOf(ds)|)
  }

  predicate AllEqual(ds: seq<Diff>) {
    forall k :: 0 <= k < |ds| ==> ds[k].op == Equal
  }

  lemma {:induction false} ContextAppend(a: seq<Diff>, b: seq<Diff>)
    ensures ContextOf(a + b) == ContextOf(a) + ContextOf(b)
    ensures PatchedOf(a + b) == PatchedOf(a) + PatchedOf(b)
    decreases |b|
  {
    if b == [] {
      assert a + b == a;
    } else {
      var b' := b[..|b| - 1];
      assert (a + b)[..|a + b| - 1] == a + b';
      ContextAppend(a, b');
    }
  }

  /** An all-EQUAL run contributes each of its lines to both sides. */
  lemma {:induction false} AllEqualLines(ds: seq<Diff>)
    requires AllEqual(ds)
    ensures |ContextOf(ds)| == |ds| && |PatchedOf(ds)| == |ds|
    ensures forall k :: 0 <= k < |ds| ==> ContextOf(ds)[k] == ds[k].text
  {
    if ds != [] {
      AllEqualLines(ds[..|ds| - 1]);
    }
  }

  /** Splitting a diff list at `i` splits both line lists. */
  lemma SplitAt(ds: seq<Diff>, i: nat)
    requires i <= |ds|
    ensures ContextOf(ds) == ContextOf(ds[..i]) + ContextOf(ds[i..])
    ensures PatchedOf(ds) == PatchedOf(ds[..i]) + PatchedOf(ds[i..])
  {
    assert ds == ds[..i] + ds[i..];
    ContextAppend(ds[..i], ds[i..]);
  }

  /** The number of diffs in `ds` whose operation is `op`. */
  function CountOp(ds: seq<Diff>, op: Operation): (n: nat)
    ensures n <= |ds|
  {
    if ds == [] then 0
    else CountOp(ds[..|ds| - 1], op) + (if ds[|ds| - 1].op == op then 1 else 0)
  }

  /** The context holds one line per non-INSERT diff, the patched text one
      line per non-DELETE diff. */
  lemma {:induction false} ContextCount(ds: seq<Diff>)
    ensures |ContextOf(ds)| == |ds| - CountOp(ds, Insert)
    ensures |PatchedOf(ds)| == |ds| - CountOp(ds, Delete)
  {
    if ds != [] {
      ContextCount(ds[..|ds| - 1]);
    }
  }

  /** A non-INSERT diff at `k` contributes the context line right after
      the context of the diffs before it. */
  lemma ContextIndex(ds: seq<Diff>, k: nat)
    requires k < |ds| && ds[k].op != Insert
    ensures |ContextOf(ds[..k])| < |ContextOf(ds)|
    ensures ContextOf(ds)[|ContextOf(ds[..k])|] == ds[k].text
  {
    SplitAt(ds, k + 1);
    assert ds[..k + 1][..k] == ds[..k];
  }

  // ---------------------------------------------------------------- Trim

  /** The length of the EQUAL run that starts at index `i`. */
  function RunFrom(ds: seq<Diff>, i: nat): (n: nat)
    requires i <= |ds|
    ensures n <= |ds| - i
    decreases |ds| - i
  {
    if i == |ds| || ds[i].op != Equal then 0 else 1 + RunFrom(ds, i + 1)
  }

  /** The length of the EQUAL run that ends just before index `q`. */
  function RunBefore(ds: seq<Diff>, q: nat): (n: nat)
    requires q <= |ds|
    ensures n <= q
  {
    if q == 0 || ds[q - 1].op != Equal then 0 else 1 + RunBefore(ds, q - 1)
  }

  /** The number of EQUAL diffs at the front of `ds`. */
  function LeadingEquals(ds: seq<Diff>): nat {
    RunFrom(ds, 0)
  }

  /** The number of EQUAL diffs at the back of `ds`. */
  function TrailingEquals(ds: seq<Diff>): nat {
    RunBefore(ds, |ds|)
  }

  /** Every diff in `ds[lo..hi]` is EQUAL. */
  predicate EqualBetween(ds: seq<Diff>, lo: int, hi: int)
    requires 0 <= lo && hi <= |ds|
  {
    forall k :: lo <= k < hi ==> ds[k].op == Equal
  }

  /** `RunFrom` is the length of the maximal EQUAL run starting at `i`. */
  lemma {:induction false} RunFromSpec(ds: seq<Diff>, i: nat)
    requires i <= |ds|
    ensures EqualBetween(ds, i, i + RunFrom(ds, i))
    ensures i + RunFrom(ds, i) < |ds| ==> ds[i + RunFrom(ds, i)].op != Equal
    decreases |ds| - i
  {
    if i < |ds| && ds[i].op == Equal {
      RunFromSpec(ds, i + 1);
    }
  }

  lemma {:induction false} RunFromUnique(ds: seq<Diff>, i: nat, n: nat)
    requires i + n <= |ds| && EqualBetween(ds, i, i + n) && (i + n == |ds| || ds[i + n].op != Equal)
    ensures RunFrom(ds, i) == n
    decreases n
  {
    if n > 0 {
      RunFromUnique(ds, i + 1, n - 1);
    }
  }

  /** `RunBefore` is the length of the maximal EQUAL run ending before `q`. */
  lemma {:induction false} RunBeforeSpec(ds: seq<Diff>, q: nat)
    requires q <= |ds|
    ensures EqualBetween(ds, q - RunBefore(ds, q), q)
    ensures RunBefore(ds, q) < q ==> ds[q - RunBefore(ds, q) - 1].op != Equal
  {
    if q > 0 && ds[q - 1].op == Equal {
      RunBeforeSpec(ds, q - 1);
    }
  }

  lemma {:induction false} RunBeforeUnique(ds: seq<Diff>, q: nat, n: nat)
    requires n <= q <= |ds| && EqualBetween(ds, q - n, q) && (n == q || ds[q - n - 1].op != Equal)
    ensures RunBefore(ds, q) == n
  {
    if n > 0 {
      RunBeforeUnique(ds, q - 1, n - 1);
    }
  }

  /** `LeadingEquals` is the length of the maximal EQUAL prefix. */
  lemma LeadingEqualsSpec(ds: seq<Diff>)
    ensures LeadingEquals(ds) <= |ds|
    ensures EqualBetween(ds, 0, LeadingEquals(ds))
    ensures LeadingEquals(ds) < |ds| ==> ds[LeadingEquals(ds)].op != Equal
  {
    RunFromSpec(ds, 0);
  }

  lemma LeadingEqualsUnique(ds: seq<Diff>, n: nat)
    requires n <= |ds| && EqualBetween(ds, 0, n) && (n == |ds| || ds[n].op != Equal)
    ensures LeadingEquals(ds) == n
  {
    RunFromUnique(ds, 0, n);
  }

  /** `TrailingEquals` is the length of the maximal EQUAL suffix. */
  lemma TrailingEqualsSpec(ds: seq<Diff>)
    ensures TrailingEquals(ds) <= |ds|
    ensures EqualBetween(ds, |ds| - TrailingEquals(ds), |ds|)
    ensures TrailingEquals(ds) < |ds| ==> ds[|ds| - TrailingEquals(ds) - 1].op != Equal
  {
    RunBeforeSpec(ds, |ds|);
  }

  lemma TrailingEqualsUnique(ds: seq<Diff>, n: nat)
    requires n <= |ds| && EqualBetween(ds, |ds| - n, |ds|) && (n == |ds| || ds[|ds| - n - 1].op != Equal)
    ensures TrailingEquals(ds) == n
  {
    RunBeforeUnique(ds, |ds|, n);
  }

  /** How many leading diffs `Trim` removes. */
  function FrontCut(ds: seq<Diff>, numContextLines: nat): nat {
    if LeadingEquals(ds) > numContextLines then LeadingEquals(ds) - numContextLines else 0
  }

  /** How many trailing diffs `Trim` removes once the front is cut. */
  function BackCut(ds: seq<Diff>, numContextLines: nat): nat {
    if TrailingEquals(ds) > numContextLines then TrailingEquals(ds) - numContextLines else 0
  }

  /** The effect of `Trim(numContextLines)` on a hunk. */
  function TrimHunk(h: Hunk, numContextLines: nat): Hunk {
    if LeadingEquals(h.diffs) == |h.diffs| then
      h.(diffs := [], length1 := 0, length2 := 0)
    else
      var a := FrontCut(h.diffs, numContextLines);
      var h1 := Hunk(h.diffs[a..], h.start1 + a, h.start2 + a, h.length1 - a, h.length2 - a);
      var b := BackCut(h1.diffs, numContextLines);
      h1.(diffs := h1.diffs[..|h1.diffs| - b], length1 := h1.length1 - b, length2 := h1.length2 - b)
  }

  /** An all-EQUAL (or empty) hunk trims to the empty hunk at the same starts. */
  lemma TrimAllEqual(h: Hunk, numContextLines: nat)
    requires AllEqual(h.diffs)
    ensures TrimHunk(h, numContextLines) == Hunk([], h.start1, h.start2, 0, 0)
  {
    LeadingEqualsUnique(h.diffs, |h.diffs|);
  }

  /** Only a hunk without a change is treated as all-EQUAL by `Trim`. */
  lemma LeadingEqualsAll(ds: seq<Diff>)
    ensures LeadingEquals(ds) == |ds| <==> AllEqual(ds)
  {
    LeadingEqualsSpec(ds);
    if AllEqual(ds) { LeadingEqualsUnique(ds, |ds|); }
  }

  /** Where `Trim` cuts a diff list holding a change: before `a` and from
      `b` on, both cuts lying in the EQUAL runs at the ends. */
  lemma TrimCutBounds(ds: seq<Diff>, numContextLines: nat)
    requires !AllEqual(ds)
    ensures var a := FrontCut(ds, numContextLines);
      var b := |ds| - BackCut(ds[a..], numContextLines);
      && a <= LeadingEquals(ds) < b <= |ds|
      && EqualBetween(ds, 0, a) && EqualBetween(ds, b, |ds|)
      && |ds| - b <= TrailingEquals(ds[a..]) < |ds| - a
  {
    var n := numContextLines;
    var L := LeadingEquals(ds);
    LeadingEqualsSpec(ds);
    LeadingEqualsAll(ds);
    var a := FrontCut(ds, n);
    var ds1 := ds[a..];
    assert ds1[L - a] == ds[L];
    var T := TrailingEquals(ds1);
    TrailingEqualsSpec(ds1);
    var bc := BackCut(ds1, n);
    var b := |ds| - bc;
    assert EqualBetween(ds, b, |ds|) by {
      forall k | b <= k < |ds| ensures ds[k].op == Equal { assert ds[k] == ds1[k - a]; }
    }
  }

  /** At most `numContextLines` EQUAL diffs are left at each end of the kept slice. */
  lemma TrimCuts(ds: seq<Diff>, numContextLines: nat)
    requires !AllEqual(ds)
    ensures var a := FrontCut(ds, numContextLines);
      var b := |ds| - BackCut(ds[a..], numContextLines);
      && a < b
      && LeadingEquals(ds[a..b]) <= numContextLines
      && TrailingEquals(ds[a..b]) <= numContextLines
  {
    TrimCutBounds(ds, numContextLines);
    var a := FrontCut(ds, numContextLines);
    var ds1 := ds[a..];
    var bc := BackCut(ds1, numContextLines);
    LeadingPart(ds, a, |ds| - bc);
    TrailingPart(ds1, |ds1| - bc);
    assert ds1[..|ds1| - bc] == ds[a..|ds| - bc];
  }

  /** Cutting `a` diffs from the front of the leading EQUAL run, and keeping
      the first change, shortens that run by `a`. */
  lemma LeadingPart(ds: seq<Diff>, a: nat, b: nat)
    requires a <= LeadingEquals(ds) < b <= |ds|
    ensures LeadingEquals(ds[a..b]) == LeadingEquals(ds) - a
  {
    var L := LeadingEquals(ds);
    LeadingEqualsSpec(ds);
    var r := ds[a..b];
    assert EqualBetween(r, 0, L - a) by {
      forall k | 0 <= k < L - a ensures r[k].op == Equal { assert r[k] == ds[k + a]; }
    }
    assert r[L - a].op != Equal by { assert r[L - a] == ds[L]; }
    LeadingEqualsUnique(r, L - a);
  }

  /** Cutting the back of the trailing EQUAL run of a list that holds a
      change shortens that run by the amount cut. */
  lemma TrailingPart(ds: seq<Diff>, b: nat)
    requires |ds| - TrailingEquals(ds) <= b <= |ds|
    requires TrailingEquals(ds) < |ds|
    ensures TrailingEquals(ds[..b]) == TrailingEquals(ds) - (|ds| - b)
  {
    var T := TrailingEquals(ds);
    TrailingEqualsSpec(ds);
    var m := T - (|ds| - b);
    SuffixRun(ds, b, T);
    TrailingEqualsUnique(ds[..b], m);
  }

  /** The EQUAL run of length `t` closing `ds`, less what lies past `b`,
      closes `ds[..b]`. */
  lemma SuffixRun(ds: seq<Diff>, b: nat, t: nat)
    requires t < |ds| && |ds| - t <= b <= |ds|
    requires EqualBetween(ds, |ds| - t, |ds|) && ds[|ds| - t - 1].op != Equal
    ensures var r := ds[..b]; var m := t - (|ds| - b);
      EqualBetween(r, |r| - m, |r|) && r[|r| - m - 1].op != Equal
  {
    var r := ds[..b];
    var m := t - (|ds| - b);
    forall k | |r| - m <= k < |r| ensures r[k].op == Equal { assert r[k] == ds[k]; }
    assert r[|r| - m - 1] == ds[|ds| - t - 1];
  }

  /** What `Trim` keeps of a hunk that holds a change: the contiguous slice
      `diffs[a..b]`, where everything cut is EQUAL, at most `numContextLines`
      EQUAL diffs remain at either end, both starts move by `a`, and both
      lengths drop by the number of diffs removed. */
  lemma TrimShape(h: Hunk, numContextLines: nat)
    requires !AllEqual(h.diffs)
    ensures var r := TrimHunk(h, numContextLines);
      var a := FrontCut(h.diffs, numContextLines);
      var b := |h.diffs| - BackCut(h.diffs[a..], numContextLines);
      && 0 <= a < b <= |h.diffs|
      && r.diffs == h.diffs[a..b]
      && EqualBetween(h.diffs, 0, a) && EqualBetween(h.diffs, b, |h.diffs|)
      && LeadingEquals(r.diffs) <= numContextLines
      && TrailingEquals(r.diffs) <= numContextLines
      && r.start1 == h.start1 + a && r.start2 == h.start2 + a
      && r.length1 == h.length1 - (|h.diffs| - (b - a))
      && r.length2 == h.length2 - (|h.diffs| - (b - a))
  {
    var ds := h.diffs;
    TrimCutBounds(ds, numContextLines);
    TrimCuts(ds, numContextLines);
    LeadingEqualsAll(ds);
    var a := FrontCut(ds, numContextLines);
    var bc := BackCut(ds[a..], numContextLines);
    assert ds[a..][..|ds[a..]| - bc] == ds[a..|ds| - bc];
  }

  /** Trim removes only EQUAL diffs: every change survives. */
  lemma TrimKeepsChanges(h: Hunk, numContextLines: nat, k: nat)
    requires k < |h.diffs| && h.diffs[k].op != Equal
    ensures var a := FrontCut(h.diffs, numContextLines);
      var r := TrimHunk(h, numContextLines);
      a <= k < a + |r.diffs| && r.diffs[k - a] == h.diffs[k]
  {
    TrimShape(h, numContextLines);
  }

  /** Trim keeps the difference of the lengths, except when it empties an all-EQUAL hunk. */
  lemma TrimPreservesDelta(h: Hunk, numContextLines: nat)
    requires !AllEqual(h.diffs)
    ensures var r := TrimHunk(h, numContextLines);
      r.length1 - r.length2 == h.length1 - h.length2
  {
    TrimShape(h, numContextLines);
  }

  /** Trim keeps a consistent hunk consistent, and never makes it longer. */
  lemma TrimConsistent(h: Hunk, numContextLines: nat)
    requires Consistent(h)
    ensures var r := TrimHunk(h, numContextLines);
      Consistent(r) && r.length1 <= h.length1 && r.length2 <= h.length2
  {
    var ds := h.diffs;
    if AllEqual(ds) {
      TrimAllEqual(h, numContextLines);
    } else {
      TrimShape(h, numContextLines);
      var a := FrontCut(ds, numContextLines);
      var b := |ds| - BackCut(ds[a..], numContextLines);
      DropEqualEnds(ds, a, b);
    }
  }

  /** Dropping EQUAL diffs from both ends takes one line per dropped diff
      from each side. */
  lemma DropEqualEnds(ds: seq<Diff>, a: nat, b: nat)
    requires a <= b <= |ds| && EqualBetween(ds, 0, a) && EqualBetween(ds, b, |ds|)
    ensures |ContextOf(ds[a..b])| == |ContextOf(ds)| - (|ds| - (b - a))
    ensures |PatchedOf(ds[a..b])| == |PatchedOf(ds)| - (|ds| - (b - a))
  {
    var front, mid, back := ds[..a], ds[a..b], ds[b..];
    assert ds == front + mid + back;
    ContextAppend(front, mid);
    ContextAppend(front + mid, back);
    assert AllEqual(front) by {
      forall k | 0 <= k < |front| ensures front[k].op == Equal { assert front[k] == ds[k]; }
    }
    assert AllEqual(back) by {
      forall k | 0 <= k < |back| ensures back[k].op == Equal { assert back[k] == ds[b + k]; }
    }
    AllEqualLines(front);
    AllEqualLines(back);
  }

  /** Trimming twice is the same as trimming once. */
  lemma TrimIdempotent(h: Hunk, numContextLines: nat)
    ensures TrimHunk(TrimHunk(h, numContextLines), numContextLines) == TrimHunk(h, numContextLines)
  {
    var r := TrimHunk(h, numContextLines);
    if AllEqual(h.diffs) {
      TrimAllEqual(h, numContextLines);
      TrimAllEqual(r, numContextLines);
    } else {
      TrimShape(h, numContextLines);
      var k :| 0 <= k < |h.diffs| && h.diffs[k].op != Equal;
      TrimKeepsChanges(h, numContextLines, k);
      var a := FrontCut(h.diffs, numContextLines);
      assert !AllEqual(r.diffs) by { assert r.diffs[k - a].op != Equal; }
      LeadingEqualsAll(r.diffs);
      assert r.diffs[0..] == r.diffs;
      assert r.diffs[..|r.diffs| - 0] == r.diffs;
    }
  }
}
