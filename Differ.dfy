/** The static `MakePatches` pipeline of Differ.cs: a flat diff list becomes
    a patch at the start of both files, its lengths recalculated, trimmed
    to the context size and split at the long EQUAL runs. */
module Differ {
  import opened Text
  import opened Hunks
  import opened HunkSplit
  import opened Patches

  /** The number of context lines kept around each change by default. */
  const DefaultContext: nat := 3

  /** The hunk `MakePatches` trims: the whole diff list at line 0 of both
      files, trimmed to `numContextLines`. */
  function Trimmed(ds: seq<Diff>, numContextLines: nat): Hunk {
    TrimHunk(WithLengths(ds, 0, 0), numContextLines)
  }

  /** The values of the patches `MakePatches` returns. */
  function MakePatchesSpec(ds: seq<Diff>, numContextLines: nat): seq<Hunk> {
    var t := Trimmed(ds, numContextLines);
    if t.length1 == 0 then [] else SplitHunks(t, numContextLines)
  }

  /** Builds a patch over `diffs`, recalculates its lengths and trims it;
      a patch without context lines gives no patches, any other is split. */
  method MakePatches(diffs: seq<Diff>, numContextLines: nat := DefaultContext) returns (patches: seq<Patch>)
    ensures Values(patches) == MakePatchesSpec(diffs, numContextLines)
    ensures forall k :: 0 <= k < |patches| ==> fresh(patches[k])
  {
    var p := new Patch();
    p.diffs := diffs;
    p.RecalculateLength();
    p.Trim(numContextLines);
    if p.length1 == 0 {
      return [];
    }
    patches := p.Split(numContextLines);
  }

  predicate AllInsert(ds: seq<Diff>) {
    forall k :: 0 <= k < |ds| ==> ds[k].op == Insert
  }

  lemma {:induction false} AllInsertContext(ds: seq<Diff>)
    requires AllInsert(ds)
    ensures ContextOf(ds) == []
  {
    if ds != [] {
      AllInsertContext(ds[..|ds| - 1]);
    }
  }

  /** A diff list without changes, or made only of insertions, gives no
      patches, whatever the context size. */
  lemma MakePatchesNone(ds: seq<Diff>, numContextLines: nat)
    requires AllEqual(ds) || AllInsert(ds)
    ensures MakePatchesSpec(ds, numContextLines) == []
  {
    var h := WithLengths(ds, 0, 0);
    if AllEqual(ds) {
      TrimAllEqual(h, numContextLines);
    } else {
      AllInsertContext(ds);
      TrimConsistent(h, numContextLines);
    }
  }

  /** With at least one line of context, those are the only diff lists that
      give no patches: any other keeps a context line after trimming. */
  lemma MakePatchesEmpty(ds: seq<Diff>, numContextLines: nat)
    requires numContextLines > 0
    ensures MakePatchesSpec(ds, numContextLines) == [] <==> AllEqual(ds) || AllInsert(ds)
  {
    if AllEqual(ds) || AllInsert(ds) {
      MakePatchesNone(ds, numContextLines);
    } else {
      var h := WithLengths(ds, 0, 0);
      var t := Trimmed(ds, numContextLines);
      var a := FrontCut(ds, numContextLines);
      var k := KeptContext(ds, numContextLines);
      TrimShape(h, numContextLines);
      TrimConsistent(h, numContextLines);
      assert t.diffs[k - a] == ds[k];
      ContextIndex(t.diffs, k - a);
    }
  }

  /** An index whose diff is not an insertion and that `Trim` keeps. */
  lemma KeptContext(ds: seq<Diff>, numContextLines: nat) returns (k: nat)
    requires numContextLines > 0 && !AllEqual(ds) && !AllInsert(ds)
    ensures var a := FrontCut(ds, numContextLines);
      var b := |ds| - BackCut(ds[a..], numContextLines);
      a <= k < b && ds[k].op != Insert
  {
    var a, b := CutBounds(ds, numContextLines);
    var d :| 0 <= d < |ds| && ds[d].op != Insert;
    if ds[d].op == Delete {
      return d;
    }
    var c :| 0 <= c < |ds| && ds[c].op != Equal;
    var i := Boundary(ds, d, c);
    if ds[i].op == Equal {
      // The EQUAL diff right before a change is at most the last leading one.
      LeadingEqualsSpec(ds);
      k := i;
    } else {
      // The EQUAL diff right after a change is at most the first trailing one.
      var r := ds[a..];
      TrailingEqualsSpec(r);
      assert r[i - a] == ds[i];
      k := i + 1;
    }
  }

  /** The cuts of `Trim`: every change lies between them, and each cut leaves
      out at most the EQUAL diffs beyond `numContextLines` at its end. */
  lemma CutBounds(ds: seq<Diff>, numContextLines: nat) returns (a: nat, b: nat)
    requires !AllEqual(ds)
    ensures a == FrontCut(ds, numContextLines) && b == |ds| - BackCut(ds[a..], numContextLines)
    ensures a <= b <= |ds|
    ensures forall k :: 0 <= k < |ds| && ds[k].op != Equal ==> a <= k < b
    ensures a == 0 || a + numContextLines == LeadingEquals(ds)
    ensures b == |ds| || b == |ds| - TrailingEquals(ds[a..]) + numContextLines
  {
    var h := WithLengths(ds, 0, 0);
    TrimShape(h, numContextLines);
    a := FrontCut(ds, numContextLines);
    b := |ds| - BackCut(ds[a..], numContextLines);
    forall k | 0 <= k < |ds| && ds[k].op != Equal
      ensures a <= k < b
    {
      TrimKeepsChanges(h, numContextLines, k);
    }
  }

  /** Between an EQUAL diff and a change there is an EQUAL diff next to a change. */
  lemma {:induction false} Boundary(ds: seq<Diff>, e: nat, c: nat) returns (i: nat)
    requires e < |ds| && c < |ds| && ds[e].op == Equal && ds[c].op != Equal
    ensures i + 1 < |ds| && (ds[i].op == Equal) != (ds[i + 1].op == Equal)
    decreases if e < c then c - e else e - c
  {
    if e < c {
      if ds[e + 1].op != Equal {
        i := e;
      } else {
        i := Boundary(ds, e + 1, c);
      }
    } else {
      if ds[e - 1].op != Equal {
        i := e - 1;
      } else {
        i := Boundary(ds, e - 1, c);
      }
    }
  }

  /** The patches of a diff list made against `lines1` fit `lines1`, and
      combining them back gives the trimmed patch. */
  lemma MakePatchesRoundTrip(ds: seq<Diff>, numContextLines: nat, lines1: seq<Line>)
    requires ContextOf(ds) == lines1 && MakePatchesSpec(ds, numContextLines) != []
    ensures CombineAll(MakePatchesSpec(ds, numContextLines), lines1) == Some(Trimmed(ds, numContextLines))
  {
    var h := WithLengths(ds, 0, 0);
    TrimConsistent(h, numContextLines);
    if AllEqual(ds) {
      MakePatchesNone(ds, numContextLines);
    } else {
      TrimmedContext(ds, numContextLines);
      SplitCombineRoundTrip(Trimmed(ds, numContextLines), numContextLines, lines1);
    }
  }

  /** Trimming drops only leading EQUAL diffs from the front, so the trimmed
      patch's context sits at its new start in the original context. */
  lemma TrimmedContext(ds: seq<Diff>, numContextLines: nat)
    requires !AllEqual(ds)
    ensures ContextMatches(Trimmed(ds, numContextLines), ContextOf(ds))
  {
    var t := Trimmed(ds, numContextLines);
    var a, b := TrimmedSlice(ds, numContextLines);
    MiddleContext(ds, a, b);
    assert ContextOf(t.diffs) == ContextOf(ds[a..b]);
  }

  /** The trimmed patch holds `ds[a..b]` at line `a`, behind `a` EQUAL diffs. */
  lemma TrimmedSlice(ds: seq<Diff>, numContextLines: nat) returns (a: nat, b: nat)
    requires !AllEqual(ds)
    ensures var t := Trimmed(ds, numContextLines);
      && a <= b <= |ds| && EqualBetween(ds, 0, a)
      && t.diffs == ds[a..b] && t.start1 == a
  {
    TrimShape(WithLengths(ds, 0, 0), numContextLines);
    a := FrontCut(ds, numContextLines);
    b := |ds| - BackCut(ds[a..], numContextLines);
  }

  /** Behind `a` leading EQUAL diffs, the context of `ds[a..b]` starts at
      line `a` of the context of `ds`. */
  lemma MiddleContext(ds: seq<Diff>, a: nat, b: nat)
    requires a <= b <= |ds| && EqualBetween(ds, 0, a)
    ensures var ctx := ContextOf(ds[a..b]);
      a + |ctx| <= |ContextOf(ds)| && ContextOf(ds)[a..a + |ctx|] == ctx
  {
    var front, mid, back := ds[..a], ds[a..b], ds[b..];
    assert ds == front + mid + back;
    ContextAppend(front, mid);
    ContextAppend(front + mid, back);
    assert AllEqual(front);
    AllEqualLines(front);
  }

  /** Every patch `MakePatches` returns holds a stretch of the trimmed diffs
      with recalculated lengths, and consecutive ones never overlap. */
  lemma MakePatchesShape(ds: seq<Diff>, numContextLines: nat, k: nat)
    requires k < |MakePatchesSpec(ds, numContextLines)|
    ensures var ps := MakePatchesSpec(ds, numContextLines);
      && Consistent(ps[k])
      && (k + 1 < |ps| ==> ps[k].start1 + ps[k].length1 < ps[k + 1].start1)
  {
    var t := Trimmed(ds, numContextLines);
    SplitHunksShape(t, numContextLines);
    if k + 1 < |MakePatchesSpec(ds, numContextLines)| {
      SplitNoOverlap(t, numContextLines, k, k + 1);
    }
  }
}
