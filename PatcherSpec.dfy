/** `Patcher` of Patcher.cs as a function of its state: how one call of
    `ApplyExactAt`, `ApplyExact`, `ApplyOffset`, `ApplyFuzzy` and
    `Patch(mode)` changes the lines, the encodings, the offsets and the
    results. The class in Patcher.dfy is proved to follow these. */
module PatcherSpecs {
  import opened Text
  import opened Hunks
  import opened TextSearch
  import opened CharRepresenters
  import opened MatchPaths
  import opened MatchMatrices
  import opened FuzzyRewrites
  import opened MatchSearch
  import opened PatchResults

  /** The fields of a `Patcher`, with the two tables of its `CharRepresenter`
      and the character classes its word splitting asks about. */
  datatype State = State(
    patches: seq<Working>, lines: seq<Line>, applied: bool,
    searchOffset: int, patchedDelta: int, lastPatchedLine: int,
    lineTable: Table, wordTable: Table, cls: CharClasses, maxMatchOffset: nat,
    lmText: Option<seq<Char16>>, wmLines: Option<seq<seq<Char16>>>)

  /** The line encodings of `w` are there, one code per line. */
  predicate LmReady(w: Working) {
    && w.lmContext.Some? && w.lmPatched.Some?
    && |w.lmContext.value| == |ContextOf(w.hunk.diffs)| && |w.lmPatched.value| == |PatchedOf(w.hunk.diffs)|
  }

  /** The word encodings of `w` are there, one entry per line. */
  predicate WmReady(w: Working) {
    && w.wmContext.Some? && w.wmPatched.Some?
    && |w.wmContext.value| == |ContextOf(w.hunk.diffs)| && |w.wmPatched.value| == |PatchedOf(w.hunk.diffs)|
  }

  /** `w` has the lengths `RecalculateLength` gives, and the encodings the
      patcher has built for its text it has built for `w` too. */
  predicate Fits(st: State, w: Working) {
    && Consistent(w.hunk)
    && (st.lmText.Some? ==> LmReady(w))
    && (st.wmLines.Some? ==> WmReady(w))
  }

  /** The shape the patcher keeps: the encoded texts have one entry per line
      and every patch fits. */
  predicate Wf(st: State) {
    && (st.lmText.Some? ==> |st.lmText.value| == |st.lines|)
    && (st.wmLines.Some? ==> |st.wmLines.value| == |st.lines|)
    && forall k :: 0 <= k < |st.patches| ==> Fits(st, st.patches[k])
  }

  /** The tables are ones the representer can hold, and the line encodings
      are the codes of their lines in the current line table. */
  ghost predicate Synced(st: State) {
    && Wf(st) && TableOk(st.lineTable, false) && TableOk(st.wordTable, true)
    && (st.lmText.Some? ==>
          && Coded(st.lineTable, st.lines, st.lmText.value, false)
          && forall k :: 0 <= k < |st.patches| ==> LmCoded(st.lineTable, st.patches[k]))
  }

  /** The patches keep their hunks, and all but the `k`-th their results;
      the settings and the applied flag stay. */
  ghost predicate Keeps(st: State, st': State, k: int) {
    && |st'.patches| == |st.patches|
    && (forall j :: 0 <= j < |st.patches| ==> st'.patches[j].hunk == st.patches[j].hunk)
    && (forall j :: 0 <= j < |st.patches| && j != k ==> st'.patches[j].result == st.patches[j].result)
    && st'.applied == st.applied && st'.cls == st.cls && st'.maxMatchOffset == st.maxMatchOffset
  }

  /** The settings and the applied flag stay. */
  ghost predicate SameSettings(st: State, st': State) {
    st'.applied == st.applied && st'.cls == st.cls && st'.maxMatchOffset == st.maxMatchOffset
  }

  /** `ps'` is `ps` with only the result of the `k`-th patch replaced. */
  predicate ResultAt(ps: seq<Working>, ps': seq<Working>, k: nat) {
    k < |ps| && |ps'| == |ps| && ps' == ps[k := ps[k].(result := ps'[k].result)]
  }

  /** A result recorded on one patch, the settings kept, is a `Keeps` step. */
  lemma ResultAtKeeps(st: State, st': State, k: nat)
    requires ResultAt(st.patches, st'.patches, k) && SameSettings(st, st')
    ensures Keeps(st, st', k)
  {
    forall j | 0 <= j < |st.patches|
      ensures st'.patches[j].hunk == st.patches[j].hunk
      ensures j != k ==> st'.patches[j].result == st.patches[j].result
    {
    }
  }

  /** Re-encoding every patch and then working on the `k`-th is a `Keeps`
      step for the `k`-th. */
  lemma KeepsTrans(st1: State, st2: State, st3: State, k: int)
    requires Keeps(st1, st2, -1) && Keeps(st2, st3, k)
    ensures Keeps(st1, st3, k)
  {
  }

  /** Recording a result on the `k`-th patch keeps the shape. */
  lemma RecordWf(st: State, k: nat, w: Working)
    requires Wf(st) && k < |st.patches| && w.(result := st.patches[k].result) == st.patches[k]
    ensures Wf(st.(patches := st.patches[k := w]))
    ensures ResultAt(st.patches, st.patches[k := w], k)
  {
    var st' := st.(patches := st.patches[k := w]);
    forall j | 0 <= j < |st'.patches|
      ensures Fits(st', st'.patches[j])
    {
      assert Fits(st, st.patches[j]);
    }
  }

  /** `w` carries a successful result of mode `mode`. */
  predicate Succeeded(w: Working, mode: Mode) {
    w.result.Some? && w.result.value.success && w.result.value.mode == mode
  }

  // ---------------------------------------------------------------- splicing

  /** `RemoveRange(at, n)` then `InsertRange(at, t)`, and the string form
      `Remove(at) + t + Substring(at + n)`: `t` replaces `n` entries at `at`
      and everything before and after stays. */
  function Splice<T>(s: seq<T>, at: nat, n: nat, t: seq<T>): (r: seq<T>)
    requires at + n <= |s|
    ensures |r| == |s| - n + |t|
    ensures r[..at] == s[..at] && r[at..at + |t|] == t && r[at + |t|..] == s[at + n..]
  {
    s[..at] + t + s[at + n..]
  }

  /** The patch `ApplyExactAt` returns: `h` moved to `start2 = loc` and
      `start1 = loc - patchedDelta`, everything else kept. */
  function Placed(h: Hunk, loc: int, patchedDelta: int): (r: Hunk)
    ensures r.diffs == h.diffs && r.length1 == h.length1 && r.length2 == h.length2
    ensures r.start2 == loc && r.start1 == loc - patchedDelta
  {
    h.(start1 := loc - patchedDelta, start2 := loc)
  }

  /** A patch already at its applied position is returned as it is. */
  lemma PlacedInPlace(h: Hunk, loc: int, patchedDelta: int)
    requires h.start2 == loc && h.start1 == loc - patchedDelta
    ensures Placed(h, loc, patchedDelta) == h
  {
  }

  // ---------------------------------------------------------------- ApplyExactAt

  /** `ApplyExactAt(loc, w)`: the context must be the file's lines at `loc`
      (an out-of-range `GetRange` or the engine-failure exception
      otherwise); then the patched lines replace them in the text and in
      both encodings, and the offsets move to this patch. */
  function ExactAt(st: State, loc: int, w: Working): (r: (Outcome<Hunk>, State))
    requires Wf(st) && Fits(st, w)
    ensures r.0.Done? <==>
      0 <= loc && loc + w.hunk.length1 <= |st.lines| && ContextOf(w.hunk.diffs) == st.lines[loc..loc + w.hunk.length1]
    ensures r.0 == Thrown(EngineFailure) ==> 0 <= loc && loc + w.hunk.length1 <= |st.lines|
    ensures r.0.Thrown? ==> r.1 == st
    ensures r.1.patches == st.patches && SameSettings(st, r.1)
    ensures r.1.lineTable == st.lineTable && r.1.wordTable == st.wordTable
    ensures r.0.Done? ==> r.0.value == Placed(w.hunk, loc, st.patchedDelta)
    ensures r.0.Done? ==> r.1 == st.(
      lines := Splice(st.lines, loc, w.hunk.length1, PatchedOf(w.hunk.diffs)),
      lmText := if st.lmText.Some? then Some(Splice(st.lmText.value, loc, w.hunk.length1, w.lmPatched.value)) else None,
      wmLines := if st.wmLines.Some? then Some(Splice(st.wmLines.value, loc, w.hunk.length1, w.wmPatched.value)) else None,
      searchOffset := loc - w.hunk.start2,
      patchedDelta := st.patchedDelta + w.hunk.length2 - w.hunk.length1,
      lastPatchedLine := loc + w.hunk.length2)
  {
    var n := w.hunk.length1;
    if loc < 0 || loc + n > |st.lines| then (Thrown(OutOfRange), st)
    else if ContextOf(w.hunk.diffs) != st.lines[loc..loc + n] then (Thrown(EngineFailure), st)
    else
      (Done(Placed(w.hunk, loc, st.patchedDelta)),
       st.(lines := Splice(st.lines, loc, n, PatchedOf(w.hunk.diffs)),
           lmText := if st.lmText.Some? then Some(Splice(st.lmText.value, loc, n, w.lmPatched.value)) else None,
           wmLines := if st.wmLines.Some? then Some(Splice(st.wmLines.value, loc, n, w.wmPatched.value)) else None,
           searchOffset := loc - w.hunk.start2,
           patchedDelta := st.patchedDelta + w.hunk.length2 - w.hunk.length1,
           lastPatchedLine := loc + w.hunk.length2))
  }

  /** A patch whose context is the file's lines at `loc` applies there. */
  lemma ExactAtDone(st: State, loc: int, w: Working)
    requires Wf(st) && Fits(st, w)
    requires 0 <= loc && loc + w.hunk.length1 <= |st.lines|
    requires ContextOf(w.hunk.diffs) == st.lines[loc..loc + w.hunk.length1]
    ensures ExactAt(st, loc, w).0.Done?
  {
  }

  /** A fitting patch keeps the patcher's shape when applied. */
  lemma ExactAtWf(st: State, loc: int, w: Working)
    requires Wf(st) && Fits(st, w)
    ensures Wf(ExactAt(st, loc, w).1)
  {
    var st' := ExactAt(st, loc, w).1;
    forall k | 0 <= k < |st'.patches|
      ensures Fits(st', st'.patches[k])
    {
      assert Fits(st, st.patches[k]);
    }
  }

  /** Splicing codes in step with lines keeps them in step. */
  lemma CodedSplice(t: Table, ss: seq<Line>, cs: seq<Char16>, at: nat, n: nat, xs: seq<Line>, ys: seq<Char16>)
    requires Coded(t, ss, cs, false) && Coded(t, xs, ys, false) && at + n <= |ss|
    ensures Coded(t, Splice(ss, at, n, xs), Splice(cs, at, n, ys), false)
  {
    var ss', cs' := Splice(ss, at, n, xs), Splice(cs, at, n, ys);
    forall i | 0 <= i < |ss'|
      ensures ss'[i] in t.index && cs'[i] == CodeOf(t, ss'[i], false)
    {
      if i < at {
        assert ss'[i] == ss[i] && cs'[i] == cs[i];
      } else if i < at + |xs| {
        assert ss'[i] == xs[i - at] && cs'[i] == ys[i - at];
      } else {
        assert ss'[i] == ss[i - |xs| + n] && cs'[i] == cs[i - |xs| + n];
      }
    }
  }

  /** Applying a patch whose line encodings are in step with the table keeps
      the patcher's encodings in step. */
  lemma ExactAtSynced(st: State, loc: int, w: Working)
    requires Synced(st) && Fits(st, w) && (st.lmText.Some? ==> LmCoded(st.lineTable, w))
    ensures Synced(ExactAt(st, loc, w).1)
  {
    ExactAtWf(st, loc, w);
    var (r, st') := ExactAt(st, loc, w);
    if r.Done? && st.lmText.Some? {
      CodedSplice(st.lineTable, st.lines, st.lmText.value, loc, w.hunk.length1,
                  PatchedOf(w.hunk.diffs), w.lmPatched.value);
      assert st'.patches == st.patches;
    }
  }

  // ---------------------------------------------------------------- ApplyExact

  /** The line the `k`-th patch is expected at: its `start2` moved by the
      offset the previous patch was found at. */
  function Expected(st: State, k: nat): int
    requires k < |st.patches|
  {
    st.patches[k].hunk.start2 + st.searchOffset
  }

  /** `ApplyExact`: the patch applies at the expected line exactly when its
      context is there; a negative expected line makes `GetRange` throw. */
  function TryExact(st: State, k: nat): (r: (Outcome<bool>, State))
    requires Wf(st) && k < |st.patches|
    ensures Wf(r.1) && SameSettings(st, r.1)
    ensures r.0 == Done(true) <==>
      var loc, n := Expected(st, k), st.patches[k].hunk.length1;
      0 <= loc && loc + n <= |st.lines| && ContextOf(st.patches[k].hunk.diffs) == st.lines[loc..loc + n]
    ensures r.0 == Thrown(OutOfRange) <==>
      Expected(st, k) < 0 && Expected(st, k) + st.patches[k].hunk.length1 <= |st.lines|
    ensures r.0 != Done(true) ==> r.1 == st
    ensures r.0 == Done(true) ==>
      && ResultAt(st.patches, r.1.patches, k)
      && r.1.patches[k] == Succeed(st.patches[k], Exact, Placed(st.patches[k].hunk, Expected(st, k), st.patchedDelta))
      && r.1.lines == Splice(st.lines, Expected(st, k), st.patches[k].hunk.length1, PatchedOf(st.patches[k].hunk.diffs))
  {
    var w := st.patches[k];
    var loc := Expected(st, k);
    if loc + w.hunk.length1 > |st.lines| then (Done(false), st)
    else if loc < 0 then (Thrown(OutOfRange), st)
    else if ContextOf(w.hunk.diffs) != st.lines[loc..loc + w.hunk.length1] then (Done(false), st)
    else
      ExactAtWf(st, loc, w);
      var (r, st1) := ExactAt(st, loc, w);
      RecordWf(st1, k, Succeed(w, Exact, r.value));
      (Done(true), st1.(patches := st1.patches[k := Succeed(w, Exact, r.value)]))
  }

  /** Recording a result on the `k`-th patch keeps the shape and the encodings. */
  lemma RecordSynced(st: State, k: nat, w: Working)
    requires Synced(st) && k < |st.patches| && w.(result := st.patches[k].result) == st.patches[k]
    ensures Synced(st.(patches := st.patches[k := w]))
  {
    var st' := st.(patches := st.patches[k := w]);
    assert w.hunk == st.patches[k].hunk && w.lmContext == st.patches[k].lmContext;
    forall j | 0 <= j < |st'.patches|
      ensures Fits(st', st'.patches[j]) && (st.lmText.Some? ==> LmCoded(st.lineTable, st'.patches[j]))
    {
      assert Fits(st, st.patches[j]);
    }
  }

  lemma TryExactSynced(st: State, k: nat)
    requires Synced(st) && k < |st.patches|
    ensures Synced(TryExact(st, k).1)
  {
    var w := st.patches[k];
    var loc := Expected(st, k);
    if 0 <= loc && loc + w.hunk.length1 <= |st.lines| && ContextOf(w.hunk.diffs) == st.lines[loc..loc + w.hunk.length1] {
      assert Fits(st, w);
      ExactAtSynced(st, loc, w);
      var (r, st1) := ExactAt(st, loc, w);
      RecordSynced(st1, k, Succeed(w, Exact, r.value));
    }
  }

  // ---------------------------------------------------------------- encoding all

  /** `WorkingPatch.LinesToChars` on each patch in turn. */
  function EncodePatchesLm(t: Table, ps: seq<Working>): (r: (Table, seq<Working>))
    ensures |r.1| == |ps|
    ensures forall j :: 0 <= j < |ps| ==>
      r.1[j].(lmContext := ps[j].lmContext, lmPatched := ps[j].lmPatched) == ps[j] && LmReady(r.1[j])
  {
    if ps == [] then (t, [])
    else
      var (t1, qs) := EncodePatchesLm(t, ps[..|ps| - 1]);
      var (t2, w) := EncodeLm(t1, ps[|ps| - 1]);
      (t2, qs + [w])
  }

  /** `WorkingPatch.WordsToChars` on each patch in turn. */
  function EncodePatchesWm(t: Table, cls: CharClasses, ps: seq<Working>): (r: (Table, seq<Working>))
    ensures |r.1| == |ps|
    ensures forall j :: 0 <= j < |ps| ==>
      r.1[j].(wmContext := ps[j].wmContext, wmPatched := ps[j].wmPatched) == ps[j] && WmReady(r.1[j])
  {
    if ps == [] then (t, [])
    else
      var (t1, qs) := EncodePatchesWm(t, cls, ps[..|ps| - 1]);
      var (t2, w) := EncodeWm(t1, cls, ps[|ps| - 1]);
      (t2, qs + [w])
  }

  /** Encoding one more patch: the first `i + 1` patches encode as the
      first `i`, then the next through the grown table. */
  lemma EncodePatchesLmSnoc(t: Table, ps: seq<Working>, i: nat)
    requires i < |ps|
    ensures var (t1, qs) := EncodePatchesLm(t, ps[..i]);
      EncodePatchesLm(t, ps[..i + 1]) == (EncodeLm(t1, ps[i]).0, qs + [EncodeLm(t1, ps[i]).1])
  {
    assert ps[..i + 1][..i] == ps[..i];
  }

  lemma EncodePatchesWmSnoc(t: Table, cls: CharClasses, ps: seq<Working>, i: nat)
    requires i < |ps|
    ensures var (t1, qs) := EncodePatchesWm(t, cls, ps[..i]);
      EncodePatchesWm(t, cls, ps[..i + 1]) == (EncodeWm(t1, cls, ps[i]).0, qs + [EncodeWm(t1, cls, ps[i]).1])
  {
    assert ps[..i + 1][..i] == ps[..i];
  }

  /** `Patcher.LinesToChars`: every patch, then the file, through the line table. */
  function LinesToCharsAll(st: State): (r: State)
    requires Wf(st)
    ensures Wf(r) && r.lmText.Some? && Keeps(st, r, -1)
    ensures r.(patches := st.patches, lineTable := st.lineTable, lmText := st.lmText) == st
  {
    var (t1, ps) := EncodePatchesLm(st.lineTable, st.patches);
    var (t2, text) := Encode(t1, st.lines, false);
    var r := st.(patches := ps, lineTable := t2, lmText := Some(text));
    assert forall j :: 0 <= j < |ps| ==> Fits(st, st.patches[j]) && ps[j].hunk == st.patches[j].hunk;
    r
  }

  /** `Patcher.WordsToChars`: every patch, then the file, through the word table. */
  function WordsToCharsAll(st: State): (r: State)
    requires Wf(st)
    ensures Wf(r) && r.wmLines.Some? && Keeps(st, r, -1)
    ensures r.(patches := st.patches, wordTable := st.wordTable, wmLines := st.wmLines) == st
  {
    var (t1, ps) := EncodePatchesWm(st.wordTable, st.cls, st.patches);
    var (t2, wm) := EncodeWordLines(t1, st.cls, st.lines);
    var r := st.(patches := ps, wordTable := t2, wmLines := Some(wm));
    assert forall j :: 0 <= j < |ps| ==> Fits(st, st.patches[j]) && ps[j].hunk == st.patches[j].hunk;
    r
  }

  lemma {:induction false} EncodePatchesLmSpec(t: Table, ps: seq<Working>)
    requires TableOk(t, false)
    ensures var (t', qs) := EncodePatchesLm(t, ps);
      && TableOk(t', false) && Extends(t, t')
      && forall j :: 0 <= j < |qs| ==> LmCoded(t', qs[j])
  {
    if ps != [] {
      var init := ps[..|ps| - 1];
      EncodePatchesLmSpec(t, init);
      var (t1, qs) := EncodePatchesLm(t, init);
      EncodeLmSpec(t1, ps[|ps| - 1]);
      var (t2, w) := EncodeLm(t1, ps[|ps| - 1]);
      ExtendsTrans(t, t1, t2);
      forall j | 0 <= j < |qs|
        ensures LmCoded(t2, qs[j])
      {
        CodedExtends(t1, t2, ContextOf(qs[j].hunk.diffs), qs[j].lmContext.value, false);
        CodedExtends(t1, t2, PatchedOf(qs[j].hunk.diffs), qs[j].lmPatched.value, false);
      }
      assert EncodePatchesLm(t, ps).1 == qs + [w];
    }
  }

  lemma {:induction false} EncodePatchesWmSpec(t: Table, cls: CharClasses, ps: seq<Working>)
    requires TableOk(t, true)
    ensures TableOk(EncodePatchesWm(t, cls, ps).0, true) && Extends(t, EncodePatchesWm(t, cls, ps).0)
  {
    if ps != [] {
      var init := ps[..|ps| - 1];
      EncodePatchesWmSpec(t, cls, init);
      var t1 := EncodePatchesWm(t, cls, init).0;
      var w := ps[|ps| - 1];
      EncodeWordLinesSpec(t1, cls, ContextOf(w.hunk.diffs));
      var t2 := EncodeWordLines(t1, cls, ContextOf(w.hunk.diffs)).0;
      EncodeWordLinesSpec(t2, cls, PatchedOf(w.hunk.diffs));
      ExtendsTrans(t, t1, t2);
      ExtendsTrans(t, t2, EncodeWordLines(t2, cls, PatchedOf(w.hunk.diffs)).0);
    }
  }

  /** Building the line encodings puts the file and every patch in step with
      the grown table. */
  lemma LinesToCharsSynced(st: State)
    requires Synced(st)
    ensures Synced(LinesToCharsAll(st)) && Extends(st.lineTable, LinesToCharsAll(st).lineTable)
  {
    EncodePatchesLmSpec(st.lineTable, st.patches);
    var (t1, ps) := EncodePatchesLm(st.lineTable, st.patches);
    EncodeSpec(t1, st.lines, false);
    var t2 := Encode(t1, st.lines, false).0;
    ExtendsTrans(st.lineTable, t1, t2);
    forall j | 0 <= j < |ps|
      ensures LmCoded(t2, ps[j])
    {
      CodedExtends(t1, t2, ContextOf(ps[j].hunk.diffs), ps[j].lmContext.value, false);
      CodedExtends(t1, t2, PatchedOf(ps[j].hunk.diffs), ps[j].lmPatched.value, false);
    }
  }

  /** Building the word encodings leaves the line encodings alone. */
  lemma WordsToCharsSynced(st: State)
    requires Synced(st)
    ensures Synced(WordsToCharsAll(st))
  {
    EncodePatchesWmSpec(st.wordTable, st.cls, st.patches);
    var t1 := EncodePatchesWm(st.wordTable, st.cls, st.patches).0;
    EncodeWordLinesSpec(t1, st.cls, st.lines);
    var r := WordsToCharsAll(st);
    if st.lmText.Some? {
      forall j | 0 <= j < |r.patches|
        ensures LmCoded(r.lineTable, r.patches[j])
      {
        assert LmCoded(st.lineTable, st.patches[j]);
      }
    }
  }

  // ---------------------------------------------------------------- ApplyOffset

  /** The start of the offset search: the expected line, clamped to the
      file (-1 for an empty file). */
  function SearchStart(st: State, k: nat): (loc: int)
    requires k < |st.patches|
    ensures |st.lines| > 0 ==> 0 <= loc < |st.lines|
    ensures 0 <= Expected(st, k) < |st.lines| ==> loc == Expected(st, k)
  {
    var loc := Expected(st, k);
    if loc < 0 then 0 else if loc >= |st.lines| then |st.lines| - 1 else loc
  }

  /** The occurrence `ApplyOffset` picks: `forward` when there is no
      `reverse`, or when `forward` exists and is strictly closer to `loc`;
      otherwise `reverse`, so ties go backwards. */
  function Choose(forward: int, reverse: int, loc: int): (found: int)
    ensures found == forward || found == reverse
    ensures reverse < 0 ==> found == forward
    ensures reverse >= 0 && forward < 0 ==> found == reverse
    ensures reverse >= 0 && forward >= 0 && forward - loc < loc - reverse ==> found == forward
    ensures reverse >= 0 && !(forward - loc < loc - reverse) ==> found == reverse
  {
    if reverse < 0 || (forward >= 0 && forward - loc < loc - reverse) then forward else reverse
  }

  /** The two candidate occurrences of the encoded context around the
      search start: `forward` at or after it, `reverse` ending at or before
      it but not before the last patched line (-1 when absent). */
  function Candidates(text: seq<Char16>, ctx: seq<Char16>, loc: nat, lastPatchedLine: int): (r: (int, int))
    requires loc < |text| || loc == 0
    ensures r.0 == -1 || (loc <= r.0 && Occurs(text, ctx, r.0))
    ensures r.1 == -1 || (lastPatchedLine <= r.1 && Occurs(text, ctx, r.1))
  {
    var forward := IndexOf(text, ctx, loc);
    var reverse := LastIndexOf(text, ctx, loc);
    assert ctx == [] ==> Occurs(text, ctx, loc);
    (forward, if reverse < lastPatchedLine then -1 else reverse)
  }

  /** `ApplyOffset`: builds the line encodings on first use, then searches. */
  function TryOffset(st: State, k: nat): (r: (Outcome<bool>, State))
    requires Wf(st) && k < |st.patches|
    ensures Wf(r.1) && |r.1.patches| == |st.patches| && r.1.lmText.Some?
  {
    var st1 := if st.lmText.None? then LinesToCharsAll(st) else st;
    OffsetSearch(st1, k)
  }

  /** The search of `ApplyOffset` once the line encodings exist: it gives
      up when the patch is longer than the file, and otherwise applies the
      patch at the chosen occurrence of its encoded context, recording how
      far that is from the search start. */
  function OffsetSearch(st: State, k: nat): (r: (Outcome<bool>, State))
    requires Wf(st) && st.lmText.Some? && k < |st.patches|
    ensures Wf(r.1) && |r.1.patches| == |st.patches| && r.1.lmText.Some?
  {
    var w := st.patches[k];
    assert Fits(st, w);
    if w.hunk.length1 > |st.lines| then (Done(false), st)
    else
      var loc := SearchStart(st, k);
      if loc < 0 then (Thrown(OutOfRange), st)
      else
        var (forward, reverse) := Candidates(st.lmText.value, w.lmContext.value, loc, st.lastPatchedLine);
        if forward < 0 && reverse < 0 then (Done(false), st)
        else
          var found := Choose(forward, reverse, loc);
          ExactAtWf(st, found, w);
          var (r, st2) := ExactAt(st, found, w);
          if r.Thrown? then (Thrown(r.error), st2)
          else
            var res := AddOffsetResult(Succeed(w, Offset, r.value), found - loc, |st2.lines|);
            RecordWf(st2, k, res);
            (Done(true), st2.(patches := st2.patches[k := res]))
  }

  /** What `ApplyOffset` does to the patch list: on success only the
      `k`-th patch gets a result, of mode OFFSET; otherwise nothing changes. */
  lemma OffsetSearchSpec(st: State, k: nat)
    requires Wf(st) && st.lmText.Some? && k < |st.patches|
    ensures var (r, st') := OffsetSearch(st, k);
      && SameSettings(st, st')
      && (r != Done(true) ==> st' == st)
      && (r == Done(true) ==> ResultAt(st.patches, st'.patches, k) && Succeeded(st'.patches[k], Offset))
  {
    var w := st.patches[k];
    assert Fits(st, w);
    if w.hunk.length1 <= |st.lines| {
      var loc := SearchStart(st, k);
      if loc >= 0 {
        var (forward, reverse) := Candidates(st.lmText.value, w.lmContext.value, loc, st.lastPatchedLine);
        if forward >= 0 || reverse >= 0 {
          var found := Choose(forward, reverse, loc);
          var (r, st2) := ExactAt(st, found, w);
          if r.Done? {
            RecordWf(st2, k, AddOffsetResult(Succeed(w, Offset, r.value), found - loc, |st2.lines|));
          }
        }
      }
    }
  }

  /** The result of a successful `ApplyOffset`: its offset is the distance
      from the search start to the line the patch was applied at, with a
      warning exactly beyond the warning distance. */
  lemma OffsetResult(st: State, k: nat)
    requires Wf(st) && st.lmText.Some? && k < |st.patches|
    requires OffsetSearch(st, k).0 == Done(true)
    ensures var st' := OffsetSearch(st, k).1;
      && st'.patches[k].result.Some? && st'.patches[k].result.value.appliedPatch.Some?
      && st'.patches[k].result.value.offset == st'.patches[k].result.value.appliedPatch.value.start2 - SearchStart(st, k)
      && (st'.patches[k].result.value.offsetWarning <==>
            st'.patches[k].result.value.offset > OffsetWarnDistance(st.patches[k].hunk.length1, |st'.lines|))
  {
    var w := st.patches[k];
    assert Fits(st, w);
    var loc := SearchStart(st, k);
    var (forward, reverse) := Candidates(st.lmText.value, w.lmContext.value, loc, st.lastPatchedLine);
    var found := Choose(forward, reverse, loc);
    var (r, st2) := ExactAt(st, found, w);
    assert r.value.start2 == found;
  }

  /** `ApplyOffset` gives a result to the `k`-th patch only, and on
      failure leaves the lines and the offset in force alone. */
  lemma TryOffsetSpec(st: State, k: nat)
    requires Wf(st) && k < |st.patches|
    ensures var (r, st') := TryOffset(st, k);
      && Keeps(st, st', k)
      && (r != Done(true) ==> st'.lines == st.lines && st'.searchOffset == st.searchOffset)
      && (r == Done(true) ==> Succeeded(st'.patches[k], Offset))
  {
    var st1 := if st.lmText.None? then LinesToCharsAll(st) else st;
    assert Keeps(st, st1, -1) && st1.lines == st.lines && st1.searchOffset == st.searchOffset;
    OffsetSearchSpec(st1, k);
    var (r, st') := OffsetSearch(st1, k);
    if r == Done(true) {
      ResultAtKeeps(st1, st', k);
      KeepsTrans(st, st1, st', k);
    }
  }

  /** Codes in step with lines stay in step on a window of both. */
  lemma CodedWindow(t: Table, ss: seq<Line>, cs: seq<Char16>, a: nat, b: nat)
    requires Coded(t, ss, cs, false) && a <= b <= |ss|
    ensures Coded(t, ss[a..b], cs[a..b], false)
  {
    forall i | 0 <= i < b - a
      ensures ss[a..b][i] in t.index && cs[a..b][i] == CodeOf(t, ss[a..b][i], false)
    {
      assert ss[a..b][i] == ss[a + i] && cs[a..b][i] == cs[a + i];
    }
  }

  /** Where the encoded context occurs in the encoded file, the context
      lines are the file's lines, as long as no line code has wrapped past
      16 bits. */
  lemma OccursIsContext(st: State, w: Working, found: int)
    requires Synced(st) && st.lmText.Some? && Fits(st, w) && LmCoded(st.lineTable, w)
    requires |st.lineTable.codes| <= 0x1_0000 && Occurs(st.lmText.value, w.lmContext.value, found)
    ensures found + w.hunk.length1 <= |st.lines|
    ensures ContextOf(w.hunk.diffs) == st.lines[found..found + w.hunk.length1]
  {
    var text, ctx := st.lmText.value, w.lmContext.value;
    CodedWindow(st.lineTable, st.lines, text, found, found + |ctx|);
    CodedMatch(st.lineTable, st.lines[found..found + |ctx|], text[found..found + |ctx|], ContextOf(w.hunk.diffs), ctx);
  }

  /** `ApplyOffset` never trips the engine-failure check while no line code
      has wrapped, and throws only on an empty file: the occurrence it
      picks holds the patch's context lines. */
  lemma OffsetNoEngineFailure(st: State, k: nat)
    requires Synced(st) && k < |st.patches|
    requires |TryOffset(st, k).1.lineTable.codes| <= 0x1_0000
    ensures TryOffset(st, k).0.Done? || (TryOffset(st, k).0 == Thrown(OutOfRange) && st.lines == [])
  {
    if st.lmText.None? {
      LinesToCharsSynced(st);
    }
    var st1 := if st.lmText.None? then LinesToCharsAll(st) else st;
    SearchNoEngineFailure(st1, k);
  }

  lemma SearchNoEngineFailure(st: State, k: nat)
    requires Synced(st) && st.lmText.Some? && k < |st.patches|
    requires |st.lineTable.codes| <= 0x1_0000
    ensures OffsetSearch(st, k).0.Done? || (OffsetSearch(st, k).0 == Thrown(OutOfRange) && st.lines == [])
  {
    var w := st.patches[k];
    assert Fits(st, w) && LmCoded(st.lineTable, w);
    if w.hunk.length1 <= |st.lines| {
      var loc := SearchStart(st, k);
      if loc >= 0 {
        var (forward, reverse) := Candidates(st.lmText.value, w.lmContext.value, loc, st.lastPatchedLine);
        if forward >= 0 || reverse >= 0 {
          var found := Choose(forward, reverse, loc);
          OccursIsContext(st, w, found);
        }
      }
    }
  }

  lemma TryOffsetSynced(st: State, k: nat)
    requires Synced(st) && k < |st.patches|
    ensures Synced(TryOffset(st, k).1)
  {
    if st.lmText.None? {
      LinesToCharsSynced(st);
    }
    var st1 := if st.lmText.None? then LinesToCharsAll(st) else st;
    SearchSynced(st1, k);
  }

  lemma SearchSynced(st: State, k: nat)
    requires Synced(st) && st.lmText.Some? && k < |st.patches|
    ensures Synced(OffsetSearch(st, k).1)
  {
    var w := st.patches[k];
    assert Fits(st, w) && LmCoded(st.lineTable, w);
    if w.hunk.length1 <= |st.lines| {
      var loc := SearchStart(st, k);
      if loc >= 0 {
        var (forward, reverse) := Candidates(st.lmText.value, w.lmContext.value, loc, st.lastPatchedLine);
        if forward >= 0 || reverse >= 0 {
          var found := Choose(forward, reverse, loc);
          ExactAtSynced(st, found, w);
          var (r, st2) := ExactAt(st, found, w);
          if r.Done? {
            RecordSynced(st2, k, AddOffsetResult(Succeed(w, Offset, r.value), found - loc, |st2.lines|));
          }
        }
      }
    }
  }

  // ---------------------------------------------------------------- ApplyFuzzy

  /** Where the fuzzy search starts: the expected line, moved back so the
      patch ends at the end of the file when it would run past it. */
  function FuzzyStart(st: State, k: nat): int
    requires st.wmLines.Some? && k < |st.patches|
  {
    var loc := Expected(st, k);
    if loc + st.patches[k].hunk.length1 > |st.wmLines.value| then |st.wmLines.value| - st.patches[k].hunk.length1 else loc
  }

  /** The copy of the patch the rewrite loop builds from the match `m`, its
      lengths recalculated. */
  function Rewritten(h: Hunk, m: seq<int>, lines: seq<Line>): (r: Hunk)
    requires InBuffer(m, lines)
    ensures Consistent(r) && r.start1 == h.start1 && r.start2 == h.start2
  {
    WithLengths(Rewrite(h.diffs, m, lines, 0, -1, Equal), h.start1, h.start2)
  }

  /** The rewritten patch with its encodings: words always (the word
      encodings exist here), lines when the line encodings have been built;
      and the state with the grown tables. */
  function EncodeFuzzy(st: State, h: Hunk): (r: (State, Working))
    requires Wf(st) && st.wmLines.Some? && Consistent(h)
    ensures Wf(r.0) && Fits(r.0, r.1) && r.1.hunk == h && r.1.result.None?
    ensures r.0 == st.(wordTable := r.0.wordTable, lineTable := r.0.lineTable)
  {
    var (tw, fw) := EncodeWm(st.wordTable, st.cls, Start(h));
    var (tl, fw') := if st.lmText.Some? then EncodeLm(st.lineTable, fw) else (st.lineTable, fw);
    var st' := st.(wordTable := tw, lineTable := tl);
    assert forall j :: 0 <= j < |st.patches| ==> Fits(st, st.patches[j]);
    (st', fw')
  }

  /** `ApplyFuzzy`: builds the word encodings on first use, then searches. */
  function TryFuzzy(st: State, k: nat): (r: (Outcome<bool>, State))
    requires Wf(st) && k < |st.patches|
    ensures Wf(r.1) && |r.1.patches| == |st.patches| && r.1.wmLines.Some?
  {
    var st1 := if st.wmLines.None? then WordsToCharsAll(st) else st;
    FuzzySearch(st1, k)
  }

  /** The search of `ApplyFuzzy` once the word encodings exist: `FindMatch`
      over the word-encoded lines (a patch without context lines makes the
      matrix index a lane at -1); on a match, the rewritten patch is applied
      at the first matched line, and the result records the mode, the
      offset `start2 - loc` and the match quality. */
  function FuzzySearch(st: State, k: nat): (r: (Outcome<bool>, State))
    requires Wf(st) && st.wmLines.Some? && k < |st.patches|
    ensures Wf(r.1) && |r.1.patches| == |st.patches| && r.1.wmLines.Some?
  {
    var w := st.patches[k];
    assert Fits(st, w);
    var loc := FuzzyStart(st, k);
    var pattern := w.wmContext.value;
    if |pattern| == 0 then (Thrown(IndexOutOfRange), st)
    else
      WarnDistancePositive(|pattern|, |st.lines|);
      var (at, q) := FindSpec(pattern, st.wmLines.value, st.maxMatchOffset, loc, OffsetWarnDistance(|pattern|, |st.lines|));
      if at.None? then (Done(false), st)
      else
        FindSpecQuality(pattern, st.wmLines.value, st.maxMatchOffset, loc, OffsetWarnDistance(|pattern|, |st.lines|));
        FuzzyApply(st, k, loc, at.value, q)
  }

  /** The rest of `ApplyFuzzy` once `FindMatch` found the window at `at`
      with quality `q`: rewrite, encode, apply, record. */
  function FuzzyApply(st: State, k: nat, loc: int, at: int, q: real): (r: (Outcome<bool>, State))
    requires Wf(st) && st.wmLines.Some? && k < |st.patches| && Fits(st, st.patches[k])
    requires |st.patches[k].wmContext.value| >= 1
    requires MatchScore(st.patches[k].wmContext.value, st.wmLines.value, st.maxMatchOffset, at) > 0.0
    ensures Wf(r.1) && |r.1.patches| == |st.patches| && r.1.wmLines.Some?
  {
    var w := st.patches[k];
    var pattern := w.wmContext.value;
    FuzzyContext(pattern, st.wmLines.value, st.maxMatchOffset, at, w.hunk.diffs, st.lines);
    var m := MatchPath(pattern, st.wmLines.value, st.maxMatchOffset, at);
    var h := Rewritten(w.hunk, m, st.lines);
    var (st2, fw) := EncodeFuzzy(st, h);
    FuzzyPlaced(st2, k, loc, FirstMatched(m, 0), fw, q)
  }

  /** The end of `ApplyFuzzy`: the encoded copy `fw` applied exactly at the
      first matched line `first`, and the `k`-th patch's result recording
      the offset `start2 - loc` and the quality `q`. */
  function FuzzyPlaced(st: State, k: nat, loc: int, first: int, fw: Working, q: real): (r: (Outcome<bool>, State))
    requires Wf(st) && k < |st.patches| && Fits(st, fw)
    ensures Wf(r.1) && |r.1.patches| == |st.patches| && r.1.wmLines.Some? == st.wmLines.Some?
  {
    ExactAtWf(st, first, fw);
    var (r, st3) := ExactAt(st, first, fw);
    if r.Thrown? then (Thrown(r.error), st3)
    else
      var res := AddFuzzyResult(AddOffsetResult(Succeed(st.patches[k], Fuzzy, r.value), fw.hunk.start2 - loc, |st3.lines|), q);
      RecordWf(st3, k, res);
      (Done(true), st3.(patches := st3.patches[k := res]))
  }

  /** `FuzzySearch` step by step, for a patch with context lines. */
  lemma FuzzySearchSteps(st: State, k: nat)
    requires Wf(st) && st.wmLines.Some? && k < |st.patches| && Fits(st, st.patches[k])
    requires |st.patches[k].wmContext.value| >= 1
    ensures OffsetWarnDistance(|st.patches[k].wmContext.value|, |st.lines|) > 0
    ensures var pattern := st.patches[k].wmContext.value;
      var loc := FuzzyStart(st, k);
      var (at, q) := FindSpec(pattern, st.wmLines.value, st.maxMatchOffset, loc, OffsetWarnDistance(|pattern|, |st.lines|));
      && (at.None? ==> FuzzySearch(st, k) == (Done(false), st))
      && (at.Some? ==> MatchScore(pattern, st.wmLines.value, st.maxMatchOffset, at.value) > 0.0
                       && FuzzySearch(st, k) == FuzzyApply(st, k, loc, at.value, q))
  {
    var pattern := st.patches[k].wmContext.value;
    WarnDistancePositive(|pattern|, |st.lines|);
    FindSpecQuality(pattern, st.wmLines.value, st.maxMatchOffset, FuzzyStart(st, k), OffsetWarnDistance(|pattern|, |st.lines|));
  }

  /** `FuzzyApply` step by step, once the rewritten patch is encoded into
      `fw` with the tables of `st2`. */
  lemma FuzzyApplySteps(st: State, k: nat, loc: int, at: int, q: real, st2: State, fw: Working)
    requires Wf(st) && st.wmLines.Some? && k < |st.patches| && Fits(st, st.patches[k])
    requires |st.patches[k].wmContext.value| >= 1
    requires MatchScore(st.patches[k].wmContext.value, st.wmLines.value, st.maxMatchOffset, at) > 0.0
    requires var m := MatchPath(st.patches[k].wmContext.value, st.wmLines.value, st.maxMatchOffset, at);
      InBuffer(m, st.lines) && (st2, fw) == EncodeFuzzy(st, Rewritten(st.patches[k].hunk, m, st.lines))
    ensures Wf(st2) && Fits(st2, fw) && st2.patches == st.patches
    ensures var m := MatchPath(st.patches[k].wmContext.value, st.wmLines.value, st.maxMatchOffset, at);
      FuzzyApply(st, k, loc, at, q) == FuzzyPlaced(st2, k, loc, FirstMatched(m, 0), fw, q)
  {
  }

  /** What the rest of `ApplyFuzzy` does to the patch list: on success
      only the `k`-th patch gets a result, of mode FUZZY, with the quality
      `q` and the offset `start2 - loc`; otherwise only the tables grow. */
  lemma FuzzyApplySpec(st: State, k: nat, loc: int, at: int, q: real)
    requires Wf(st) && st.wmLines.Some? && k < |st.patches| && Fits(st, st.patches[k])
    requires |st.patches[k].wmContext.value| >= 1
    requires MatchScore(st.patches[k].wmContext.value, st.wmLines.value, st.maxMatchOffset, at) > 0.0
    ensures var (r, st') := FuzzyApply(st, k, loc, at, q);
      && SameSettings(st, st')
      && (r != Done(true) ==> st' == st.(lineTable := st'.lineTable, wordTable := st'.wordTable))
      && (r == Done(true) ==>
            && ResultAt(st.patches, st'.patches, k) && Succeeded(st'.patches[k], Fuzzy)
            && st'.patches[k].result.value.fuzzyQuality == q
            && st'.patches[k].result.value.offset == st.patches[k].hunk.start2 - loc)
  {
    var w := st.patches[k];
    var pattern := w.wmContext.value;
    FuzzyContext(pattern, st.wmLines.value, st.maxMatchOffset, at, w.hunk.diffs, st.lines);
    var m := MatchPath(pattern, st.wmLines.value, st.maxMatchOffset, at);
    var h := Rewritten(w.hunk, m, st.lines);
    var (st2, fw) := EncodeFuzzy(st, h);
    var (r, st3) := ExactAt(st2, FirstMatched(m, 0), fw);
    if r.Done? {
      RecordWf(st3, k, AddFuzzyResult(AddOffsetResult(Succeed(w, Fuzzy, r.value), h.start2 - loc, |st3.lines|), q));
    }
  }

  /** The search of `ApplyFuzzy` gives a result to the `k`-th patch only,
      and on failure changes nothing but the tables. */
  lemma FuzzySearchSpec(st: State, k: nat)
    requires Wf(st) && st.wmLines.Some? && k < |st.patches|
    ensures var (r, st') := FuzzySearch(st, k);
      && SameSettings(st, st')
      && (r != Done(true) ==> st' == st.(lineTable := st'.lineTable, wordTable := st'.wordTable))
      && (r == Done(true) ==> ResultAt(st.patches, st'.patches, k) && Succeeded(st'.patches[k], Fuzzy))
  {
    var w := st.patches[k];
    assert Fits(st, w);
    var loc := FuzzyStart(st, k);
    var pattern := w.wmContext.value;
    if |pattern| > 0 {
      WarnDistancePositive(|pattern|, |st.lines|);
      var (at, q) := FindSpec(pattern, st.wmLines.value, st.maxMatchOffset, loc, OffsetWarnDistance(|pattern|, |st.lines|));
      if at.Some? {
        FindSpecQuality(pattern, st.wmLines.value, st.maxMatchOffset, loc, OffsetWarnDistance(|pattern|, |st.lines|));
        FuzzyApplySpec(st, k, loc, at.value, q);
      }
    }
  }

  /** `ApplyFuzzy` gives a result to the `k`-th patch only, and on
      failure leaves the lines and the offset in force alone. */
  lemma TryFuzzySpec(st: State, k: nat)
    requires Wf(st) && k < |st.patches|
    ensures var (r, st') := TryFuzzy(st, k);
      && Keeps(st, st', k)
      && (r != Done(true) ==> st'.lines == st.lines && st'.searchOffset == st.searchOffset)
      && (r == Done(true) ==> Succeeded(st'.patches[k], Fuzzy))
  {
    var st1 := if st.wmLines.None? then WordsToCharsAll(st) else st;
    assert Keeps(st, st1, -1) && st1.lines == st.lines && st1.searchOffset == st.searchOffset;
    FuzzySearchSpec(st1, k);
    var (r, st') := FuzzySearch(st1, k);
    if r == Done(true) {
      ResultAtKeeps(st1, st', k);
      KeepsTrans(st, st1, st', k);
    }
  }

  /** Once a match is found, applying the rewritten patch cannot fail: its
      context is the run of file lines from the first matched line. */
  lemma FuzzyApplyDone(st: State, k: nat, loc: int, at: int, q: real)
    requires Wf(st) && st.wmLines.Some? && k < |st.patches| && Fits(st, st.patches[k])
    requires |st.patches[k].wmContext.value| >= 1
    requires MatchScore(st.patches[k].wmContext.value, st.wmLines.value, st.maxMatchOffset, at) > 0.0
    ensures FuzzyApply(st, k, loc, at, q).0 == Done(true)
  {
    var w := st.patches[k];
    var pattern := w.wmContext.value;
    FuzzyContext(pattern, st.wmLines.value, st.maxMatchOffset, at, w.hunk.diffs, st.lines);
    var m := MatchPath(pattern, st.wmLines.value, st.maxMatchOffset, at);
    var h := Rewritten(w.hunk, m, st.lines);
    EncodeFuzzyApplies(st, h, Rewrite(w.hunk.diffs, m, st.lines, 0, -1, Equal), FirstMatched(m, 0));
  }

  /** A consistent patch whose context is the file's lines at `loc`
      applies there once encoded. */
  lemma EncodeFuzzyApplies(st: State, h: Hunk, ds: seq<Diff>, loc: int)
    requires Wf(st) && st.wmLines.Some? && Consistent(h) && h.diffs == ds
    requires 0 <= loc && loc + |ContextOf(ds)| <= |st.lines|
    requires ContextOf(ds) == st.lines[loc..loc + |ContextOf(ds)|]
    ensures ExactAt(EncodeFuzzy(st, h).0, loc, EncodeFuzzy(st, h).1).0.Done?
  {
    var (st2, fw) := EncodeFuzzy(st, h);
    assert st2.lines == st.lines;
    assert fw.hunk == h;
    assert Wf(st2);
    assert Fits(st2, fw);
    assert h.length1 == |ContextOf(ds)|;
    assert ContextOf(fw.hunk.diffs) == ContextOf(ds);
    assert st2.lines[loc..loc + fw.hunk.length1] == st.lines[loc..loc + |ContextOf(ds)|];
    ExactAtDone(st2, loc, fw);
  }

  /** So `ApplyFuzzy` throws only for a patch without context lines. */
  lemma FuzzyNoEngineFailure(st: State, k: nat)
    requires Wf(st) && st.wmLines.Some? && k < |st.patches|
    ensures FuzzySearch(st, k).0.Done? || (FuzzySearch(st, k).0 == Thrown(IndexOutOfRange) && st.patches[k].hunk.length1 == 0)
  {
    var w := st.patches[k];
    assert Fits(st, w);
    var wm := st.wmLines.value;
    var loc := FuzzyStart(st, k);
    var pattern := w.wmContext.value;
    if |pattern| > 0 {
      WarnDistancePositive(|pattern|, |st.lines|);
      var (at, q) := FindSpec(pattern, wm, st.maxMatchOffset, loc, OffsetWarnDistance(|pattern|, |st.lines|));
      if at.Some? {
        FindSpecQuality(pattern, wm, st.maxMatchOffset, loc, OffsetWarnDistance(|pattern|, |st.lines|));
        FuzzyApplyDone(st, k, loc, at.value, q);
      }
    }
  }

  /** A fuzzy success: the quality recorded is at least `MinScore`, and the
      offset recorded is `start2 - loc` for the search start `loc`, the
      rewritten copy keeping the patch's `start2` wherever it was applied. */
  lemma FuzzyResult(st: State, k: nat)
    requires Wf(st) && st.wmLines.Some? && k < |st.patches|
    requires FuzzySearch(st, k).0 == Done(true)
    ensures var res := FuzzySearch(st, k).1.patches[k].result;
      && res.Some? && res.value.success && res.value.mode == Fuzzy
      && res.value.fuzzyQuality >= MinScore
      && res.value.offset == st.patches[k].hunk.start2 - FuzzyStart(st, k)
  {
    var w := st.patches[k];
    assert Fits(st, w);
    var pattern := w.wmContext.value;
    var loc := FuzzyStart(st, k);
    WarnDistancePositive(|pattern|, |st.lines|);
    FindSpecQuality(pattern, st.wmLines.value, st.maxMatchOffset, loc, OffsetWarnDistance(|pattern|, |st.lines|));
    var (at, q) := FindSpec(pattern, st.wmLines.value, st.maxMatchOffset, loc, OffsetWarnDistance(|pattern|, |st.lines|));
    FuzzyApplySpec(st, k, loc, at.value, q);
  }

  lemma TryFuzzySynced(st: State, k: nat)
    requires Synced(st) && k < |st.patches|
    ensures Synced(TryFuzzy(st, k).1)
  {
    if st.wmLines.None? {
      WordsToCharsSynced(st);
    }
    var st1 := if st.wmLines.None? then WordsToCharsAll(st) else st;
    FuzzySynced(st1, k);
  }

  /** Encoding the rewritten patch grows the tables and leaves every
      existing encoding in step with them. */
  lemma EncodeFuzzySynced(st: State, h: Hunk)
    requires Synced(st) && st.wmLines.Some? && Consistent(h)
    ensures var (st', fw) := EncodeFuzzy(st, h);
      Synced(st') && (st'.lmText.Some? ==> LmCoded(st'.lineTable, fw))
  {
    var (tw, fw) := EncodeWm(st.wordTable, st.cls, Start(h));
    EncodeWordLinesSpec(st.wordTable, st.cls, ContextOf(h.diffs));
    var t1 := EncodeWordLines(st.wordTable, st.cls, ContextOf(h.diffs)).0;
    EncodeWordLinesSpec(t1, st.cls, PatchedOf(h.diffs));
    if st.lmText.Some? {
      EncodeLmSpec(st.lineTable, fw);
      var tl := EncodeLm(st.lineTable, fw).0;
      CodedExtends(st.lineTable, tl, st.lines, st.lmText.value, false);
      forall j | 0 <= j < |st.patches|
        ensures LmCoded(tl, st.patches[j])
      {
        var p := st.patches[j];
        assert LmCoded(st.lineTable, p);
        CodedExtends(st.lineTable, tl, ContextOf(p.hunk.diffs), p.lmContext.value, false);
        CodedExtends(st.lineTable, tl, PatchedOf(p.hunk.diffs), p.lmPatched.value, false);
      }
    }
  }

  lemma FuzzyApplySynced(st: State, k: nat, loc: int, at: int, q: real)
    requires Synced(st) && st.wmLines.Some? && k < |st.patches| && Fits(st, st.patches[k])
    requires |st.patches[k].wmContext.value| >= 1
    requires MatchScore(st.patches[k].wmContext.value, st.wmLines.value, st.maxMatchOffset, at) > 0.0
    ensures Synced(FuzzyApply(st, k, loc, at, q).1)
  {
    var w := st.patches[k];
    var pattern := w.wmContext.value;
    FuzzyContext(pattern, st.wmLines.value, st.maxMatchOffset, at, w.hunk.diffs, st.lines);
    var m := MatchPath(pattern, st.wmLines.value, st.maxMatchOffset, at);
    var h := Rewritten(w.hunk, m, st.lines);
    EncodeFuzzySynced(st, h);
    var (st2, fw) := EncodeFuzzy(st, h);
    ExactAtSynced(st2, FirstMatched(m, 0), fw);
    var (r, st3) := ExactAt(st2, FirstMatched(m, 0), fw);
    if r.Done? {
      RecordSynced(st3, k, AddFuzzyResult(AddOffsetResult(Succeed(w, Fuzzy, r.value), h.start2 - loc, |st3.lines|), q));
    }
  }

  lemma FuzzySynced(st: State, k: nat)
    requires Synced(st) && st.wmLines.Some? && k < |st.patches|
    ensures Synced(FuzzySearch(st, k).1)
  {
    var w := st.patches[k];
    assert Fits(st, w);
    var wm := st.wmLines.value;
    var loc := FuzzyStart(st, k);
    var pattern := w.wmContext.value;
    if |pattern| > 0 {
      WarnDistancePositive(|pattern|, |st.lines|);
      var (at, q) := FindSpec(pattern, wm, st.maxMatchOffset, loc, OffsetWarnDistance(|pattern|, |st.lines|));
      if at.Some? {
        FindSpecQuality(pattern, wm, st.maxMatchOffset, loc, OffsetWarnDistance(|pattern|, |st.lines|));
        FuzzyApplySynced(st, k, loc, at.value, q);
      }
    }
  }

  // ---------------------------------------------------------------- Patch(mode)

  /** The failing branch of `Patch(mode)`: the result records the search
      offset in force, and the search offset drops by the patch's growth so
      later patches are expected where they would have been. */
  function FailPatch(st: State, k: nat): (r: State)
    requires Wf(st) && k < |st.patches|
    ensures Wf(r) && SameSettings(st, r) && ResultAt(st.patches, r.patches, k) && r.lines == st.lines
    ensures r.patches[k] == FailAt(st.patches[k], st.searchOffset)
    ensures r.searchOffset == st.searchOffset - (st.patches[k].hunk.length2 - st.patches[k].hunk.length1)
  {
    var w := st.patches[k];
    RecordWf(st, k, FailAt(w, st.searchOffset));
    st.(patches := st.patches[k := FailAt(w, st.searchOffset)],
        searchOffset := st.searchOffset - (w.hunk.length2 - w.hunk.length1))
  }

  /** One patch of `Patch(mode)`: EXACT, then the other modes `mode`
      allows; an exception ends the attempt. */
  function TryPatch(st: State, mode: Mode, k: nat): (r: (Outcome<bool>, State))
    requires Wf(st) && k < |st.patches|
    ensures Wf(r.1) && |r.1.patches| == |st.patches|
  {
    var (e, s1) := TryExact(st, k);
    if e != Done(false) then (e, s1) else AfterExact(s1, mode, k)
  }

  /** Once EXACT failed: OFFSET when `mode` allows it, then the rest. */
  function AfterExact(st: State, mode: Mode, k: nat): (r: (Outcome<bool>, State))
    requires Wf(st) && k < |st.patches|
    ensures Wf(r.1) && |r.1.patches| == |st.patches|
  {
    var (o, s2) := if mode.Rank() >= 1 then TryOffset(st, k) else (Done(false), st);
    if o != Done(false) then (o, s2) else AfterOffset(s2, mode, k)
  }

  /** Once OFFSET failed or was not allowed: FUZZY when `mode` allows it,
      and the failure bookkeeping when that fails too. */
  function AfterOffset(st: State, mode: Mode, k: nat): (r: (Outcome<bool>, State))
    requires Wf(st) && k < |st.patches|
    ensures Wf(r.1) && |r.1.patches| == |st.patches|
  {
    var (f, s3) := if mode.Rank() >= 2 then TryFuzzy(st, k) else (Done(false), st);
    if f != Done(false) then (f, s3) else (Done(false), FailPatch(s3, k))
  }

  /** What an attempt on the `k`-th patch promises: that patch gets a
      result and no other does; a success is of a mode `mode` allows; a
      failure leaves the lines alone, records the search offset in force
      and lowers it by the patch's growth. */
  ghost predicate Attempted(st: State, mode: Mode, k: nat, r: Outcome<bool>, st': State)
    requires k < |st.patches|
  {
    var w := st.patches[k];
    && Keeps(st, st', k)
    && (r.Done? ==> st'.patches[k].result.Some?)
    && (r == Done(true) ==>
          st'.patches[k].result.value.success && st'.patches[k].result.value.mode.Rank() <= mode.Rank())
    && (r == Done(false) ==>
          && st'.lines == st.lines
          && st'.searchOffset == st.searchOffset - (w.hunk.length2 - w.hunk.length1)
          && !st'.patches[k].result.value.success
          && st'.patches[k].result.value.searchOffset == st.searchOffset)
  }

  /** The failure bookkeeping, after attempts that kept the lines and the
      offset in force, is a failed attempt. */
  lemma FailPatchSpec(st0: State, st: State, mode: Mode, k: nat)
    requires Wf(st) && k < |st0.patches| && Keeps(st0, st, k)
    requires st.lines == st0.lines && st.searchOffset == st0.searchOffset
    ensures Attempted(st0, mode, k, Done(false), FailPatch(st, k))
  {
    var s4 := FailPatch(st, k);
    ResultAtKeeps(st, s4, k);
    assert s4.patches[k] == FailAt(st.patches[k], st.searchOffset);
  }

  lemma AfterOffsetSpec(st: State, mode: Mode, k: nat)
    requires Wf(st) && k < |st.patches|
    ensures Attempted(st, mode, k, AfterOffset(st, mode, k).0, AfterOffset(st, mode, k).1)
  {
    if mode.Rank() >= 2 {
      TryFuzzySpec(st, k);
      var (f, s3) := TryFuzzy(st, k);
      if f == Done(false) {
        FailPatchSpec(st, s3, mode, k);
      }
    } else {
      FailPatchSpec(st, st, mode, k);
    }
  }

  /** An attempt after a failed one that kept the lines and the offset in
      force counts as an attempt from the start. */
  lemma AttemptedAfter(st0: State, st: State, mode: Mode, k: nat, r: Outcome<bool>, st': State)
    requires k < |st0.patches| && Keeps(st0, st, k) && st.lines == st0.lines && st.searchOffset == st0.searchOffset
    requires Attempted(st, mode, k, r, st')
    ensures Attempted(st0, mode, k, r, st')
  {
  }

  lemma AfterExactSpec(st: State, mode: Mode, k: nat)
    requires Wf(st) && k < |st.patches|
    ensures Attempted(st, mode, k, AfterExact(st, mode, k).0, AfterExact(st, mode, k).1)
  {
    if mode.Rank() >= 1 {
      TryOffsetSpec(st, k);
      var (o, s2) := TryOffset(st, k);
      if o == Done(false) {
        AfterOffsetSpec(s2, mode, k);
        AttemptedAfter(st, s2, mode, k, AfterOffset(s2, mode, k).0, AfterOffset(s2, mode, k).1);
      }
    } else {
      AfterOffsetSpec(st, mode, k);
    }
  }

  /** One patch of `Patch(mode)` gives that patch a result and no other:
      a success of a mode `mode` allows, or a failure that leaves the lines
      alone, records the search offset in force, and lowers it by the
      patch's growth. */
  lemma TryPatchSpec(st: State, mode: Mode, k: nat)
    requires Wf(st) && k < |st.patches|
    ensures Attempted(st, mode, k, TryPatch(st, mode, k).0, TryPatch(st, mode, k).1)
  {
    var (e, s1) := TryExact(st, k);
    if e == Done(true) {
      ResultAtKeeps(st, s1, k);
    } else if e == Done(false) {
      AfterExactSpec(s1, mode, k);
    }
  }

  /** The loop of `Patch(mode)` from the `k`-th patch on: stops at the first
      exception, which it returns. It leaves the patches' hunks and the
      results of the patches before `k` alone, keeps the encodings in step
      with the tables, and, when no exception ends it, gives every later
      patch a result. */
  function PatchFrom(st: State, mode: Mode, k: nat): (r: (Option<Failure>, State))
    requires Wf(st) && k <= |st.patches|
    ensures Wf(r.1) && |r.1.patches| == |st.patches| && r.1.applied == st.applied
    ensures forall j :: 0 <= j < |st.patches| ==> r.1.patches[j].hunk == st.patches[j].hunk
    ensures forall j :: 0 <= j < k ==> r.1.patches[j].result == st.patches[j].result
    ensures r.0.None? ==> forall j :: k <= j < |st.patches| ==> r.1.patches[j].result.Some?
    ensures Synced(st) ==> Synced(r.1)
    decreases |st.patches| - k
  {
    if k == |st.patches| then (None, st)
    else
      TryPatchSpec(st, mode, k);
      TryPatchKeepsSync(st, mode, k);
      var (r, st1) := TryPatch(st, mode, k);
      if r.Thrown? then (Some(r.error), st1)
      else
        var (e2, st2) := PatchFrom(st1, mode, k + 1);
        ResultsStep(st.patches, st1.patches, st2.patches, k, e2.None?);
        (e2, st2)
  }

  /** One iteration of the loop: once the `k`-th patch was tried with the
      outcome `e`, the loop ends with its exception or goes on from the next
      patch. */
  lemma PatchFromStep(st: State, mode: Mode, k: nat, e: Outcome<bool>, st1: State)
    requires Wf(st) && k < |st.patches| && (e, st1) == TryPatch(st, mode, k)
    ensures Wf(st1) && k + 1 <= |st1.patches|
    ensures PatchFrom(st, mode, k) == if e.Thrown? then (Some(e.error), st1) else PatchFrom(st1, mode, k + 1)
  {
  }

  /** Past the last patch the loop ends without an exception. */
  lemma PatchFromDone(st: State, mode: Mode)
    requires Wf(st)
    ensures PatchFrom(st, mode, |st.patches|) == (None, st)
  {
  }

  /** One patch of the loop: a result on patch `k`, the others kept. */
  lemma ResultsStep(ps: seq<Working>, ps1: seq<Working>, ps2: seq<Working>, k: nat, ok: bool)
    requires |ps1| == |ps| == |ps2| && k < |ps| && ps1[k].result.Some?
    requires forall j :: 0 <= j < |ps| ==> ps1[j].hunk == ps[j].hunk && ps2[j].hunk == ps1[j].hunk
    requires forall j :: 0 <= j < |ps| && j != k ==> ps1[j].result == ps[j].result
    requires forall j :: 0 <= j < k + 1 ==> ps2[j].result == ps1[j].result
    requires ok ==> forall j :: k + 1 <= j < |ps| ==> ps2[j].result.Some?
    ensures forall j :: 0 <= j < |ps| ==> ps2[j].hunk == ps[j].hunk
    ensures forall j :: 0 <= j < k ==> ps2[j].result == ps[j].result
    ensures ok ==> forall j :: k <= j < |ps| ==> ps2[j].result.Some?
  {
  }

  /** `Patch(mode)`: a second call throws and changes nothing; the first
      marks the patcher applied and runs every patch in order. */
  function PatchAll(st: State, mode: Mode): (r: (Option<Failure>, State))
    requires Wf(st)
    ensures Wf(r.1) && r.1.applied && |r.1.patches| == |st.patches|
    ensures st.applied ==> r == (Some(AlreadyApplied), st)
    ensures !st.applied && r.0.None? ==> forall j :: 0 <= j < |r.1.patches| ==> r.1.patches[j].result.Some?
    ensures Synced(st) ==> Synced(r.1)
  {
    if st.applied then (Some(AlreadyApplied), st)
    else PatchFrom(st.(applied := true), mode, 0)
  }

  lemma FailPatchSynced(st: State, k: nat)
    requires Synced(st) && k < |st.patches|
    ensures Synced(FailPatch(st, k))
  {
    RecordSynced(st, k, FailAt(st.patches[k], st.searchOffset));
    var s1 := st.(patches := st.patches[k := FailAt(st.patches[k], st.searchOffset)]);
    assert FailPatch(st, k) == s1.(searchOffset := FailPatch(st, k).searchOffset);
  }

  lemma AfterOffsetSynced(st: State, mode: Mode, k: nat)
    requires Synced(st) && k < |st.patches|
    ensures Synced(AfterOffset(st, mode, k).1)
  {
    if mode.Rank() >= 2 {
      TryFuzzySynced(st, k);
      var (f, s3) := TryFuzzy(st, k);
      if f == Done(false) {
        FailPatchSynced(s3, k);
      }
    } else {
      FailPatchSynced(st, k);
    }
  }

  lemma AfterExactSynced(st: State, mode: Mode, k: nat)
    requires Synced(st) && k < |st.patches|
    ensures Synced(AfterExact(st, mode, k).1)
  {
    if mode.Rank() >= 1 {
      TryOffsetSynced(st, k);
      var (o, s2) := TryOffset(st, k);
      if o == Done(false) {
        AfterOffsetSynced(s2, mode, k);
      }
    } else {
      AfterOffsetSynced(st, mode, k);
    }
  }

  lemma TryPatchSynced(st: State, mode: Mode, k: nat)
    requires Synced(st) && k < |st.patches|
    ensures Synced(TryPatch(st, mode, k).1)
  {
    TryExactSynced(st, k);
    var (e, s1) := TryExact(st, k);
    if e == Done(false) {
      AfterExactSynced(s1, mode, k);
    }
  }

  lemma TryPatchKeepsSync(st: State, mode: Mode, k: nat)
    requires Wf(st) && k < |st.patches|
    ensures Synced(st) ==> Synced(TryPatch(st, mode, k).1)
  {
    if Synced(st) {
      TryPatchSynced(st, mode, k);
    }
  }
}
