/** The `Patcher` class of Patcher.cs: a list of patches applied in order to
    the lines of a file, each patch tried exactly at its expected line, then
    (as the mode allows) at the nearest occurrence of its context, then at
    the best fuzzy match. Every method is proved to change the patcher's
    fields as the functions of PatcherSpec.dfy say, so what is proved there
    about those functions holds of the class. */
module Patchers {
  import opened Text
  import opened Hunks
  import opened TextSearch
  import opened CharRepresenters
  import opened MatchPaths
  import opened MatchMatrices
  import opened FuzzyRewrites
  import opened MatchSearch
  import opened PatchResults
  import opened PatcherSpecs

  /** `WorkingPatch.LinesToChars(rep)`: the context lines, then the patched
      lines, through the representer's line table. */
  method LinesToCharsPatch(w: Working, rep: CharRepresenter) returns (w': Working)
    requires rep.Valid()
    modifies rep
    ensures rep.Valid() && (rep.Lines(), w') == EncodeLm(old(rep.Lines()), w) && rep.Words() == old(rep.Words())
  {
    var c := rep.LinesToChars(ContextOf(w.hunk.diffs));
    var p := rep.LinesToChars(PatchedOf(w.hunk.diffs));
    w' := w.(lmContext := Some(c), lmPatched := Some(p));
  }

  /** `ss.Select(rep.WordsToChars).ToArray()`: each line through the word
      table, in order. */
  method WordsToCharsLines(rep: CharRepresenter, cls: CharClasses, ss: seq<Line>) returns (ws: seq<seq<Char16>>)
    requires rep.Valid()
    modifies rep
    ensures rep.Valid() && (rep.Words(), ws) == EncodeWordLines(old(rep.Words()), cls, ss)
    ensures rep.Lines() == old(rep.Lines())
  {
    ws := [];
    for i := 0 to |ss|
      invariant rep.Valid() && rep.Lines() == old(rep.Lines())
      invariant (rep.Words(), ws) == EncodeWordLines(old(rep.Words()), cls, ss[..i])
    {
      assert ss[..i + 1][..i] == ss[..i];
      var w := rep.WordsToChars(cls, ss[i]);
      ws := ws + [w];
    }
    assert ss[..|ss|] == ss;
  }

  /** `WorkingPatch.WordsToChars(rep)`: the context lines, then the patched
      lines, through the word table. */
  method WordsToCharsPatch(w: Working, rep: CharRepresenter, cls: CharClasses) returns (w': Working)
    requires rep.Valid()
    modifies rep
    ensures rep.Valid() && (rep.Words(), w') == EncodeWm(old(rep.Words()), cls, w) && rep.Lines() == old(rep.Lines())
  {
    var c := WordsToCharsLines(rep, cls, ContextOf(w.hunk.diffs));
    var p := WordsToCharsLines(rep, cls, PatchedOf(w.hunk.diffs));
    w' := w.(wmContext := Some(c), wmPatched := Some(p));
  }

  /** `foreach (var patch in patches) patch.LinesToChars(charRep)`. */
  method LinesToCharsPatches(ps: seq<Working>, rep: CharRepresenter) returns (ps': seq<Working>)
    requires rep.Valid()
    modifies rep
    ensures rep.Valid() && (rep.Lines(), ps') == EncodePatchesLm(old(rep.Lines()), ps) && rep.Words() == old(rep.Words())
  {
    ps' := [];
    for i := 0 to |ps|
      invariant rep.Valid() && rep.Words() == old(rep.Words())
      invariant (rep.Lines(), ps') == EncodePatchesLm(old(rep.Lines()), ps[..i])
    {
      EncodePatchesLmSnoc(old(rep.Lines()), ps, i);
      var w := LinesToCharsPatch(ps[i], rep);
      ps' := ps' + [w];
    }
    assert ps[..|ps|] == ps;
  }

  /** `foreach (var patch in patches) patch.WordsToChars(charRep)`. */
  method WordsToCharsPatches(ps: seq<Working>, rep: CharRepresenter, cls: CharClasses) returns (ps': seq<Working>)
    requires rep.Valid()
    modifies rep
    ensures rep.Valid() && (rep.Words(), ps') == EncodePatchesWm(old(rep.Words()), cls, ps) && rep.Lines() == old(rep.Lines())
  {
    ps' := [];
    for i := 0 to |ps|
      invariant rep.Valid() && rep.Lines() == old(rep.Lines())
      invariant (rep.Words(), ps') == EncodePatchesWm(old(rep.Words()), cls, ps[..i])
    {
      EncodePatchesWmSnoc(old(rep.Words()), cls, ps, i);
      var w := WordsToCharsPatch(ps[i], rep, cls);
      ps' := ps' + [w];
    }
    assert ps[..|ps|] == ps;
  }

  /** The patches, then the file, through the line table. */
  method LinesToCharsBoth(ps: seq<Working>, lines: seq<Line>, rep: CharRepresenter) returns (ps': seq<Working>, text: seq<Char16>)
    requires rep.Valid()
    modifies rep
    ensures rep.Valid() && rep.Words() == old(rep.Words())
    ensures var (t1, qs) := EncodePatchesLm(old(rep.Lines()), ps);
      (rep.Lines(), text) == Encode(t1, lines, false) && ps' == qs
  {
    ps' := LinesToCharsPatches(ps, rep);
    text := rep.LinesToChars(lines);
  }

  /** The patches, then the file, through the word table. */
  method WordsToCharsBoth(ps: seq<Working>, lines: seq<Line>, rep: CharRepresenter, cls: CharClasses)
    returns (ps': seq<Working>, wm: seq<seq<Char16>>)
    requires rep.Valid()
    modifies rep
    ensures rep.Valid() && rep.Lines() == old(rep.Lines())
    ensures var (t1, qs) := EncodePatchesWm(old(rep.Words()), cls, ps);
      (rep.Words(), wm) == EncodeWordLines(t1, cls, lines) && ps' == qs
  {
    ps' := WordsToCharsPatches(ps, rep, cls);
    wm := WordsToCharsLines(rep, cls, lines);
  }

  class Patcher {
    var patches: seq<Working>
    var lines: seq<Line>
    var applied: bool
    /** The offset the last patch was applied at (applied minus expected line). */
    var searchOffset: int
    /** The running total of `length2 - length1` over the applied patches. */
    var patchedDelta: int
    /** The end of the last patch applied; no offset search goes back past it. */
    var lastPatchedLine: int
    const charRep: CharRepresenter
    /** The character classes the representer's word splitting asks about. */
    const cls: CharClasses
    var maxMatchOffset: nat
    var lmText: Option<seq<Char16>>
    var wmLines: Option<seq<seq<Char16>>>

    /** The fields, with the representer's two tables. */
    function Snapshot(): State
      reads this, charRep
    {
      State(patches, lines, applied, searchOffset, patchedDelta, lastPatchedLine,
            charRep.Lines(), charRep.Words(), cls, maxMatchOffset, lmText, wmLines)
    }

    /** The shape every method keeps. */
    ghost predicate Shaped()
      reads this, charRep
    {
      charRep.Valid() && Wf(Snapshot())
    }

    /** The class invariant: the shape, and the encodings in step with the
        representer's tables. */
    ghost predicate Valid()
      reads this, charRep
    {
      charRep.Valid() && Synced(Snapshot())
    }

    /** `new Patcher(patches, lines, charRep)`: a working copy of each
        patch, a copy of the lines, and the given representer or a new one. */
    constructor (patches: seq<Hunk>, lines: seq<Line>, rep: CharRepresenter?, cls: CharClasses)
      requires rep != null ==> rep.Valid()
      requires forall k :: 0 <= k < |patches| ==> Consistent(patches[k])
      ensures Valid()
      ensures |this.patches| == |patches| && forall k :: 0 <= k < |patches| ==> this.patches[k] == Start(patches[k])
      ensures this.lines == lines && !applied && this.cls == cls && maxMatchOffset == DefaultMaxOffset
      ensures searchOffset == 0 && patchedDelta == 0 && lastPatchedLine == 0
      ensures lmText.None? && wmLines.None?
      ensures rep != null ==> charRep == rep
      ensures rep == null ==> fresh(charRep) && charRep.Lines() == InitialLines() && charRep.Words() == InitialWords()
    {
      var r: CharRepresenter;
      if rep == null {
        r := new CharRepresenter();
      } else {
        r := rep;
      }
      this.patches := seq(|patches|, k requires 0 <= k < |patches| => Start(patches[k]));
      this.lines := lines;
      applied := false;
      searchOffset := 0;
      patchedDelta := 0;
      lastPatchedLine := 0;
      charRep := r;
      this.cls := cls;
      maxMatchOffset := DefaultMaxOffset;
      lmText := None;
      wmLines := None;
    }

    /** `Patch(mode)`: throws on a second call; otherwise tries every patch
        in turn, EXACT first, then OFFSET and FUZZY as `mode` allows, and
        records a failure with the search offset in force when none applies. */
    method Patch(mode: Mode) returns (r: Option<Failure>)
      requires Valid()
      modifies this, charRep
      ensures Valid() && (r, Snapshot()) == PatchAll(old(Snapshot()), mode)
    {
      if applied {
        return Some(AlreadyApplied);
      }
      applied := true;
      r := PatchEach(mode);
    }

    /** The loop of `Patch(mode)`: every patch in turn, until one throws. */
    method PatchEach(mode: Mode) returns (r: Option<Failure>)
      requires Shaped()
      modifies this, charRep
      ensures charRep.Valid() && (r, Snapshot()) == PatchFrom(old(Snapshot()), mode, 0)
    {
      ghost var target := PatchFrom(Snapshot(), mode, 0);
      var k := 0;
      while k < |patches|
        invariant Shaped() && k <= |patches|
        invariant PatchFrom(Snapshot(), mode, k) == target
        decreases |patches| - k
      {
        var e := PatchStep(mode, k);
        if e.Thrown? {
          return Some(e.error);
        }
        k := k + 1;
      }
      PatchFromDone(Snapshot(), mode);
      return None;
    }

    /** One iteration of the loop of `Patch(mode)`: the `k`-th patch is
        tried, and the loop either ends with its exception or goes on from
        the next patch. */
    method PatchStep(mode: Mode, k: nat) returns (e: Outcome<bool>)
      requires Shaped() && k < |patches|
      modifies this, charRep
      ensures Shaped() && |patches| == old(|patches|)
      ensures PatchFrom(old(Snapshot()), mode, k) ==
        if e.Thrown? then (Some(e.error), Snapshot()) else PatchFrom(Snapshot(), mode, k + 1)
    {
      ghost var st := Snapshot();
      e := ApplyPatch(mode, k);
      PatchFromStep(st, mode, k, e, Snapshot());
    }

    /** The body of the loop of `Patch(mode)` for the `k`-th patch. */
    method ApplyPatch(mode: Mode, k: nat) returns (e: Outcome<bool>)
      requires Shaped() && k < |patches|
      modifies this, charRep
      ensures Shaped() && (e, Snapshot()) == TryPatch(old(Snapshot()), mode, k)
    {
      e := ApplyExact(k);
      if e == Done(false) {
        e := ApplyAfterExact(mode, k);
      }
    }

    /** Once EXACT failed: OFFSET when `mode` allows it, then the rest. */
    method ApplyAfterExact(mode: Mode, k: nat) returns (e: Outcome<bool>)
      requires Shaped() && k < |patches|
      modifies this, charRep
      ensures Shaped() && (e, Snapshot()) == AfterExact(old(Snapshot()), mode, k)
    {
      e := Done(false);
      if mode.Rank() >= 1 {
        e := ApplyOffset(k);
      }
      if e == Done(false) {
        e := ApplyAfterOffset(mode, k);
      }
    }

    /** Once OFFSET failed or was not allowed: FUZZY when `mode` allows it,
        and when that fails too the patch is marked failed with the search
        offset in force, which then drops by the patch's growth. */
    method ApplyAfterOffset(mode: Mode, k: nat) returns (e: Outcome<bool>)
      requires Shaped() && k < |patches|
      modifies this, charRep
      ensures Shaped() && (e, Snapshot()) == AfterOffset(old(Snapshot()), mode, k)
    {
      e := Done(false);
      if mode.Rank() >= 2 {
        e := ApplyFuzzy(k);
      }
      if e == Done(false) {
        FailPatchAt(k);
      }
    }

    /** `p.Fail()`, the search offset in force recorded on the result, and
        the offset lowered by the patch's growth. */
    method FailPatchAt(k: nat)
      requires Wf(Snapshot()) && k < |patches|
      modifies this
      ensures Snapshot() == FailPatch(old(Snapshot()), k)
    {
      var w := patches[k];
      patches := patches[k := FailAt(w, searchOffset)];
      searchOffset := searchOffset - (w.hunk.length2 - w.hunk.length1);
    }

    /** `ApplyExactAt(loc, patch)`: checks the context against the lines at
        `loc`, replaces them by the patched lines in the text and in both
        encodings, moves the offsets to this patch, and returns the patch
        at its applied position. */
    method ApplyExactAt(loc: int, w: Working) returns (r: Outcome<Hunk>)
      requires Wf(Snapshot()) && Fits(Snapshot(), w)
      modifies this
      ensures (r, Snapshot()) == ExactAt(old(Snapshot()), loc, w)
    {
      ghost var st := Snapshot();
      var n := w.hunk.length1;
      if loc < 0 || loc + n > |lines| {
        return Thrown(OutOfRange);
      }
      if ContextOf(w.hunk.diffs) != lines[loc..loc + n] {
        return Thrown(EngineFailure);
      }
      ExactAtWf(st, loc, w);
      ghost var post := ExactAt(st, loc, w);
      assert post.1 == st.(lines := Splice(st.lines, loc, n, PatchedOf(w.hunk.diffs)),
        lmText := post.1.lmText, wmLines := post.1.wmLines, searchOffset := loc - w.hunk.start2,
        patchedDelta := st.patchedDelta + w.hunk.length2 - w.hunk.length1, lastPatchedLine := loc + w.hunk.length2);
      lines := Splice(lines, loc, n, PatchedOf(w.hunk.diffs));
      if lmText.Some? {
        lmText := Some(Splice(lmText.value, loc, n, w.lmPatched.value));
      }
      if wmLines.Some? {
        wmLines := Some(Splice(wmLines.value, loc, n, w.wmPatched.value));
      }
      var placed := w.hunk;
      if placed.start2 != loc || placed.start1 != loc - patchedDelta {
        placed := placed.(start1 := loc - patchedDelta, start2 := loc);
      } else {
        PlacedInPlace(w.hunk, loc, patchedDelta);
      }
      searchOffset := loc - w.hunk.start2;
      patchedDelta := patchedDelta + w.hunk.length2 - w.hunk.length1;
      lastPatchedLine := loc + w.hunk.length2;
      assert lmText == post.1.lmText && wmLines == post.1.wmLines;
      return Done(placed);
    }

    /** `ApplyExact(patch)` for the `k`-th patch. */
    method ApplyExact(k: nat) returns (r: Outcome<bool>)
      requires Shaped() && k < |patches|
      modifies this
      ensures Shaped() && (r, Snapshot()) == TryExact(old(Snapshot()), k)
    {
      var w := patches[k];
      var loc := w.hunk.start2 + searchOffset;
      if loc + w.hunk.length1 > |lines| {
        return Done(false);
      }
      if loc < 0 {
        // `GetRange` rejects a negative index
        return Thrown(OutOfRange);
      }
      if ContextOf(w.hunk.diffs) != lines[loc..loc + w.hunk.length1] {
        return Done(false);
      }
      assert Fits(Snapshot(), w);
      var placed := ApplyExactAt(loc, w);
      patches := patches[k := Succeed(w, Exact, placed.value)];
      return Done(true);
    }

    /** `LinesToChars()`: every patch, then the file, through the line table. */
    method LinesToChars()
      requires Shaped()
      modifies this, charRep
      ensures Shaped() && Snapshot() == LinesToCharsAll(old(Snapshot()))
    {
      var ps, text := LinesToCharsBoth(patches, lines, charRep);
      patches, lmText := ps, Some(text);
    }

    /** `WordsToChars()`: every patch, then the file, through the word table. */
    method WordsToChars()
      requires Shaped()
      modifies this, charRep
      ensures Shaped() && Snapshot() == WordsToCharsAll(old(Snapshot()))
    {
      var ps, wm := WordsToCharsBoth(patches, lines, charRep, cls);
      patches, wmLines := ps, Some(wm);
    }

    /** `ApplyOffset(patch)` for the `k`-th patch. */
    method ApplyOffset(k: nat) returns (r: Outcome<bool>)
      requires Shaped() && k < |patches|
      modifies this, charRep
      ensures Shaped() && (r, Snapshot()) == TryOffset(old(Snapshot()), k)
    {
      if lmText.None? {
        LinesToChars();
      }
      r := OffsetAt(k);
    }

    /** The search of `ApplyOffset` once the line encodings exist. */
    method OffsetAt(k: nat) returns (r: Outcome<bool>)
      requires Wf(Snapshot()) && lmText.Some? && k < |patches|
      modifies this
      ensures (r, Snapshot()) == OffsetSearch(old(Snapshot()), k)
    {
      ghost var st := Snapshot();
      var w := patches[k];
      assert Fits(st, w);
      if w.hunk.length1 > |lines| {
        return Done(false);
      }
      var loc := w.hunk.start2 + searchOffset;
      if loc < 0 {
        loc := 0;
      } else if loc >= |lines| {
        loc := |lines| - 1;
      }
      assert loc == SearchStart(st, k);
      if loc < 0 {
        // `IndexOf` rejects the start -1 of an empty file
        return Thrown(OutOfRange);
      }
      var (forward, reverse) := Candidates(lmText.value, w.lmContext.value, loc, lastPatchedLine);
      if forward < 0 && reverse < 0 {
        return Done(false);
      }
      var found := Choose(forward, reverse, loc);
      r := OffsetApply(k, loc, found);
    }

    /** The end of `ApplyOffset`: the patch applied at the occurrence found,
        and its result recorded with the distance from the search start. */
    method OffsetApply(k: nat, loc: int, found: int) returns (r: Outcome<bool>)
      requires Wf(Snapshot()) && k < |patches| && Fits(Snapshot(), patches[k])
      modifies this
      ensures var w := old(patches[k]);
        var (p, st2) := ExactAt(old(Snapshot()), found, w);
        if p.Thrown? then (r, Snapshot()) == (Thrown(p.error), st2)
        else (r, Snapshot()) == (Done(true), st2.(patches := st2.patches[k := AddOffsetResult(Succeed(w, Offset, p.value), found - loc, |st2.lines|)]))
    {
      var w := patches[k];
      var placed := ApplyExactAt(found, w);
      if placed.Thrown? {
        return Thrown(placed.error);
      }
      patches := patches[k := AddOffsetResult(Succeed(w, Offset, placed.value), found - loc, |lines|)];
      return Done(true);
    }

    /** `ApplyFuzzy(patch)` for the `k`-th patch. */
    method ApplyFuzzy(k: nat) returns (r: Outcome<bool>)
      requires Shaped() && k < |patches|
      modifies this, charRep
      ensures Shaped() && (r, Snapshot()) == TryFuzzy(old(Snapshot()), k)
    {
      if wmLines.None? {
        WordsToChars();
      }
      r := FuzzyAt(k);
    }

    /** The search of `ApplyFuzzy` once the word encodings exist. */
    method FuzzyAt(k: nat) returns (r: Outcome<bool>)
      requires Shaped() && wmLines.Some? && k < |patches|
      modifies this, charRep
      ensures charRep.Valid() && (r, Snapshot()) == FuzzySearch(old(Snapshot()), k)
    {
      ghost var st := Snapshot();
      var w := patches[k];
      assert Fits(st, w);
      var loc := w.hunk.start2 + searchOffset;
      if loc + w.hunk.length1 > |wmLines.value| {
        loc := |wmLines.value| - w.hunk.length1;
      }
      assert loc == FuzzyStart(st, k);
      var pattern := w.wmContext.value;
      if |pattern| == 0 {
        // a matrix over no lines indexes a lane at -1
        return Thrown(IndexOutOfRange);
      }
      FuzzySearchSteps(st, k);
      var best, matchQuality := FindMatch(loc, pattern);
      ghost var spec := FindSpec(pattern, wmLines.value, maxMatchOffset, loc, OffsetWarnDistance(|pattern|, |lines|));
      if best.None? {
        assert spec.0.None?;
        assert FuzzySearch(st, k) == (Done(false), st);
        return Done(false);
      }
      r := ApplyFuzzyMatch(k, loc, spec.0.value, best.value, matchQuality);
      assert (r, Snapshot()) == FuzzySearch(st, k);
    }

    /** The rest of `ApplyFuzzy` once `FindMatch` returned the path `m` of
        the window at `at`: the copy of the patch re-targeted at the matched
        lines and encoded, then applied exactly at the first matched line. */
    method ApplyFuzzyMatch(k: nat, loc: int, ghost at: int, m: seq<int>, quality: real) returns (r: Outcome<bool>)
      requires Shaped() && wmLines.Some? && k < |patches| && Fits(Snapshot(), patches[k])
      requires |patches[k].wmContext.value| >= 1
      requires MatchScore(patches[k].wmContext.value, wmLines.value, maxMatchOffset, at) > 0.0
      requires m == MatchPath(patches[k].wmContext.value, wmLines.value, maxMatchOffset, at)
      modifies this, charRep
      ensures charRep.Valid() && (r, Snapshot()) == FuzzyApply(old(Snapshot()), k, loc, at, quality)
    {
      ghost var st := Snapshot();
      var fuzzy := FuzzyRewrite(k, at, m);
      ghost var st2 := Snapshot();
      FuzzyApplySteps(st, k, loc, at, quality, st2, fuzzy);
      r := FuzzyPlace(k, loc, FirstMatched(m, 0), fuzzy, quality);
    }

    /** The loop of `ApplyFuzzy` that builds a copy of the patch whose
        context lines are the matched lines of the file, then that copy's
        encodings. */
    method FuzzyRewrite(k: nat, ghost at: int, m: seq<int>) returns (fuzzy: Working)
      requires Shaped() && wmLines.Some? && k < |patches| && Fits(Snapshot(), patches[k])
      requires |patches[k].wmContext.value| >= 1
      requires MatchScore(patches[k].wmContext.value, wmLines.value, maxMatchOffset, at) > 0.0
      requires m == MatchPath(patches[k].wmContext.value, wmLines.value, maxMatchOffset, at)
      modifies charRep
      ensures charRep.Valid() && InBuffer(m, lines)
      ensures (Snapshot(), fuzzy) == EncodeFuzzy(old(Snapshot()), Rewritten(patches[k].hunk, m, lines))
    {
      ghost var st := Snapshot();
      var w := patches[k];
      FuzzyContext(w.wmContext.value, wmLines.value, maxMatchOffset, at, w.hunk.diffs, lines);
      MatchPathShape(w.wmContext.value, wmLines.value, maxMatchOffset, at);
      var diffs := RewriteDiffs(w.hunk.diffs, m, lines);
      fuzzy := Start(WithLengths(diffs, w.hunk.start1, w.hunk.start2));
      assert fuzzy.hunk == Rewritten(w.hunk, m, lines);
      fuzzy := WordsToCharsPatch(fuzzy, charRep, cls);
      if lmText.Some? {
        fuzzy := LinesToCharsPatch(fuzzy, charRep);
      }
    }

    /** The end of `ApplyFuzzy`: the re-targeted copy applied exactly at
        `first`, and the result recorded with the offset from the search
        start and the match quality. */
    method FuzzyPlace(k: nat, loc: int, first: int, fuzzy: Working, quality: real) returns (r: Outcome<bool>)
      requires Wf(Snapshot()) && k < |patches| && Fits(Snapshot(), fuzzy)
      modifies this
      ensures (r, Snapshot()) == FuzzyPlaced(old(Snapshot()), k, loc, first, fuzzy, quality)
    {
      var w := patches[k];
      var placed := ApplyExactAt(first, fuzzy);
      if placed.Thrown? {
        return Thrown(placed.error);
      }
      patches := patches[k := AddFuzzyResult(AddOffsetResult(Succeed(w, Fuzzy, placed.value), fuzzy.hunk.start2 - loc, |lines|), quality)];
      return Done(true);
    }

    /** `FindMatch(loc, wmContext, out bestScore)`: the path of the best
        window the two matrices reach from `loc`, `None` for none of quality
        `MinScore`, and the quality reported. */
    method FindMatch(loc: int, wmContext: seq<Line>) returns (bestMatch: Option<seq<int>>, bestScore: real)
      requires wmLines.Some? && |wmContext| >= 1
      ensures var (at, q) := FindSpec(wmContext, wmLines.value, maxMatchOffset, loc, OffsetWarnDistance(|wmContext|, |lines|));
        && bestScore == q
        && bestMatch == if at.Some? then Some(MatchPath(wmContext, wmLines.value, maxMatchOffset, at.value)) else None
    {
      var search := wmLines.value;
      bestScore := MinScore;
      bestMatch := None;
      ghost var at: Option<int> := None;
      var mmForward := new MatchMatrix(wmContext, search, maxMatchOffset);
      var score := mmForward.Initialize(loc);
      if score >= bestScore {
        bestScore := score;
        var p := mmForward.Path();
        bestMatch := Some(p);
        at := Some(loc);
      }
      var mmReverse := new MatchMatrix(wmContext, search, maxMatchOffset);
      var _ := mmReverse.Initialize(loc);
      var warnDist := OffsetWarnDistance(|wmContext|, |lines|);
      WarnDistancePositive(|wmContext|, |lines|);
      bestMatch, bestScore := SearchFrom(mmForward, mmReverse, warnDist, bestMatch, bestScore, at);
    }
  }

  /** The stepping loop of `FindMatch`: both matrices step apart until
      neither can, or until the best score plus the current penalty
      exceeds 1. */
  method SearchFrom(mmForward: MatchMatrix, mmReverse: MatchMatrix, warnDist: int,
                    bestMatch: Option<seq<int>>, bestScore: real, ghost at: Option<int>)
    returns (bestMatch': Option<seq<int>>, bestScore': real)
    requires Paired(mmForward, mmReverse, mmForward.pattern, mmForward.search, mmForward.maxOffset)
    requires Tracks(bestMatch, at, mmForward.pattern, mmForward.search, mmForward.maxOffset)
    requires warnDist > 0
    modifies mmForward, mmForward.matches, mmReverse, mmReverse.matches
    ensures var (a, q) := Search(mmForward.pattern, mmForward.search, mmForward.maxOffset, warnDist,
                                 old(mmForward.loc), old(mmReverse.loc), 0, bestScore, at);
      bestScore' == q && Tracks(bestMatch', a, mmForward.pattern, mmForward.search, mmForward.maxOffset)
  {
    ghost var pattern, search, m := mmForward.pattern, mmForward.search, mmForward.maxOffset;
    ghost var spec := Search(pattern, search, m, warnDist, mmForward.loc, mmReverse.loc, 0, bestScore, at);
    ghost var a := at;
    bestMatch', bestScore' := bestMatch, bestScore;
    var i: nat := 0;
    while mmForward.CanStepForward() || mmReverse.CanStepBackward()
      invariant Paired(mmForward, mmReverse, pattern, search, m)
      invariant Search(pattern, search, m, warnDist, mmForward.loc, mmReverse.loc, i, bestScore', a) == spec
      invariant Tracks(bestMatch', a, pattern, search, m)
      decreases Remaining(pattern, search, m, mmForward.loc, mmReverse.loc)
    {
      var penalty := MatchSearch.Penalty(i, warnDist);
      SearchRound(pattern, search, m, warnDist, mmForward.loc, mmReverse.loc, i, bestScore', a);
      bestMatch', bestScore', a := StepBoth(mmForward, mmReverse, penalty, bestMatch', bestScore', a);
      if bestScore' + penalty > 1.0 {
        return;
      }
      i := i + 1;
    }
    SearchDone(pattern, search, m, warnDist, mmForward.loc, mmReverse.loc, i, bestScore', a);
  }

  /** Two distinct matrices over the same pattern and search text, both
      solved at their windows. */
  ghost predicate Paired(f: MatchMatrix, r: MatchMatrix, pattern: seq<Line>, search: seq<Line>, m: nat)
    reads f, f.matches, r, r.matches
  {
    && f != r && f.matches != r.matches
    && f.pattern == pattern && f.search == search && f.maxOffset == m && f.Ready()
    && r.pattern == pattern && r.search == search && r.maxOffset == m && r.Ready()
  }

  /** `bestMatch` is the path of the window `at`, `null` while there is none. */
  predicate Tracks(bestMatch: Option<seq<int>>, at: Option<int>, pattern: seq<Line>, search: seq<Line>, m: nat)
    requires |pattern| >= 1
  {
    bestMatch == if at.Some? then Some(MatchPath(pattern, search, m, at.value)) else None
  }

  /** The body of the loop of `FindMatch`: the forward matrix steps and its
      window competes with the best so far, then the reverse one. */
  method StepBoth(mmForward: MatchMatrix, mmReverse: MatchMatrix, penalty: real,
                  bestMatch: Option<seq<int>>, bestScore: real, ghost at: Option<int>)
    returns (bestMatch': Option<seq<int>>, bestScore': real, ghost at': Option<int>)
    requires Paired(mmForward, mmReverse, mmForward.pattern, mmForward.search, mmForward.maxOffset)
    requires Tracks(bestMatch, at, mmForward.pattern, mmForward.search, mmForward.maxOffset)
    modifies mmForward, mmForward.matches, mmReverse, mmReverse.matches
    ensures Paired(mmForward, mmReverse, mmForward.pattern, mmForward.search, mmForward.maxOffset)
    ensures Tracks(bestMatch', at', mmForward.pattern, mmForward.search, mmForward.maxOffset)
    ensures (mmForward.loc, mmReverse.loc, bestScore', at') ==
      Round(mmForward.pattern, mmForward.search, mmForward.maxOffset, penalty, old(mmForward.loc), old(mmReverse.loc), bestScore, at)
  {
    var bm, bs, a := StepKeep(mmForward, true, penalty, bestMatch, bestScore, at);
    bestMatch', bestScore', at' := StepKeep(mmReverse, false, penalty, bm, bs, a);
  }

  /** One matrix steps, forward or back, and its new window replaces the best
      so far when its penalised score is strictly better. */
  method StepKeep(mm: MatchMatrix, forward: bool, penalty: real,
                  bestMatch: Option<seq<int>>, bestScore: real, ghost at: Option<int>)
    returns (bestMatch': Option<seq<int>>, bestScore': real, ghost at': Option<int>)
    requires mm.Ready() && |mm.pattern| >= 1
    requires Tracks(bestMatch, at, mm.pattern, mm.search, mm.maxOffset)
    modifies mm, mm.matches
    ensures mm.Ready() && Tracks(bestMatch', at', mm.pattern, mm.search, mm.maxOffset)
    ensures var (l, score) := if forward then Forward(mm.pattern, mm.search, mm.maxOffset, old(mm.loc))
                              else Backward(mm.pattern, mm.search, mm.maxOffset, old(mm.loc));
      mm.loc == l && (bestScore', at') == Keep(bestScore, at, score - penalty, l)
  {
    ghost var step := if forward then Forward(mm.pattern, mm.search, mm.maxOffset, mm.loc)
                      else Backward(mm.pattern, mm.search, mm.maxOffset, mm.loc);
    bestMatch', bestScore', at' := bestMatch, bestScore, at;
    var score;
    if forward {
      score := mm.StepForward();
    } else {
      score := mm.StepBackward();
    }
    assert (mm.loc, score) == step;
    score := score - penalty;
    if score > bestScore' {
      bestScore' := score;
      var p := mm.Path();
      bestMatch' := Some(p);
      at' := Some(mm.loc);
    }
  }
}
