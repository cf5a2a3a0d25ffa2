/** The records of Patcher.cs: `Patcher.Mode`, `Patcher.Result`, the
    exceptions a run can end in, and the bookkeeping a `WorkingPatch` does
    on its result and on its encoded lines. */
module PatchResults {
  import opened Text
  import opened Hunks
  import opened CharRepresenters

  /** How far a patch may be searched for; the modes are tried in this order. */
  datatype Mode = Exact | Offset | Fuzzy {
    /** The enum's underlying value, which `mode >= Mode.OFFSET` compares. */
    function Rank(): (n: nat)
      ensures n <= 2 && (n == 0 <==> this == Exact) && (n == 2 <==> this == Fuzzy)
    {
      match this
      case Exact => 0
      case Offset => 1
      case Fuzzy => 2
    }
  }

  /** The exceptions that can end `Patch(mode)` early: a second call, the
      context check of `ApplyExactAt`, an out-of-range `GetRange` or
      `IndexOf` argument, and the lane index of a matrix over no lines. */
  datatype Failure = AlreadyApplied | EngineFailure | OutOfRange | IndexOutOfRange

  /** A value, or the exception thrown instead. */
  datatype Outcome<T> = Done(value: T) | Thrown(error: Failure)

  /** `Patcher.Result`; `patch` is the patch the result belongs to. */
  datatype Result = Result(patch: Hunk, success: bool, mode: Mode, searchOffset: int,
                           appliedPatch: Option<Hunk>, offset: int, offsetWarning: bool,
                           fuzzyQuality: real)

  /** `WorkingPatch`: a patch with its result and its context and patched
      lines in line and word encodings, each absent until computed. */
  datatype Working = Working(hunk: Hunk, result: Option<Result>,
                             lmContext: Option<seq<Char16>>, lmPatched: Option<seq<Char16>>,
                             wmContext: Option<seq<seq<Char16>>>, wmPatched: Option<seq<seq<Char16>>>)

  /** `new WorkingPatch(patch)`: a copy of the patch with nothing computed. */
  function Start(h: Hunk): (w: Working)
    ensures w.hunk == h && w.result.None?
    ensures w.lmContext.None? && w.lmPatched.None? && w.wmContext.None? && w.wmPatched.None?
  {
    Working(h, None, None, None, None, None)
  }

  /** `OffsetWarnDistance`: the larger of ten times the patch length and a
      tenth of the file length (integer division). */
  function OffsetWarnDistance(patchLength: int, fileLength: nat): (d: int)
    ensures d >= patchLength * 10 && d >= fileLength / 10
    ensures d == patchLength * 10 || d == fileLength / 10
  {
    if patchLength * 10 >= fileLength / 10 then patchLength * 10 else fileLength / 10
  }

  /** The distance is never negative for a real patch, so an offset back
      towards the start of the file never warns. */
  lemma NegativeOffsetNoWarning(patchLength: nat, fileLength: nat, offset: int)
    requires offset <= 0
    ensures !(offset > OffsetWarnDistance(patchLength, fileLength))
  {
  }

  /** A patch of at least one line searched in a file has a distance of at
      least ten, which `FindMatch` divides by. */
  lemma WarnDistancePositive(patchLength: int, fileLength: nat)
    requires patchLength >= 1
    ensures OffsetWarnDistance(patchLength, fileLength) >= 10
  {
  }

  /** `Fail()`: an unsuccessful result for the patch, every other field at
      its default. */
  function Fail(w: Working): (r: Working)
    ensures r.(result := w.result) == w
    ensures r.result.Some? && !r.result.value.success && r.result.value.patch == w.hunk
    ensures r.result.value.appliedPatch.None?
  {
    w.(result := Some(Result(w.hunk, false, Exact, 0, None, 0, false, 0.0)))
  }

  /** The failing branch of `Patch(mode)`: `Fail()`, then the search offset
      in force is recorded on the result. */
  function FailAt(w: Working, searchOffset: int): (r: Working)
    ensures r.(result := w.result) == w
    ensures r.result.Some? && !r.result.value.success && r.result.value.searchOffset == searchOffset
  {
    var f := Fail(w);
    f.(result := Some(f.result.value.(searchOffset := searchOffset)))
  }

  /** `Succeed(mode, appliedPatch)`: a fresh successful result. */
  function Succeed(w: Working, mode: Mode, applied: Hunk): (r: Working)
    ensures r.(result := w.result) == w
    ensures r.result.Some? && r.result.value.success && r.result.value.mode == mode
    ensures r.result.value.appliedPatch == Some(applied) && r.result.value.patch == w.hunk
    ensures r.result.value.offset == 0 && !r.result.value.offsetWarning
  {
    w.(result := Some(Result(w.hunk, true, mode, 0, Some(applied), 0, false, 0.0)))
  }

  /** `AddOffsetResult`: the offset, and a warning exactly when it exceeds
      the warning distance for this patch's `length1`. */
  function AddOffsetResult(w: Working, offset: int, fileLength: nat): (r: Working)
    requires w.result.Some?
    ensures r.(result := w.result) == w && r.result.Some?
    ensures r.result.value.(offset := w.result.value.offset, offsetWarning := w.result.value.offsetWarning) == w.result.value
    ensures r.result.value.offset == offset
    ensures r.result.value.offsetWarning <==> offset > OffsetWarnDistance(w.hunk.length1, fileLength)
  {
    w.(result := Some(w.result.value.(offset := offset,
                                      offsetWarning := offset > OffsetWarnDistance(w.hunk.length1, fileLength))))
  }

  /** `AddFuzzyResult`: the match quality. */
  function AddFuzzyResult(w: Working, quality: real): (r: Working)
    requires w.result.Some?
    ensures r.(result := w.result) == w && r.result.Some?
    ensures r.result.value == w.result.value.(fuzzyQuality := quality)
  {
    w.(result := Some(w.result.value.(fuzzyQuality := quality)))
  }

  // ---------------------------------------------------------------- encodings

  /** `WorkingPatch.LinesToChars`: the context lines, then the patched lines,
      through the line table. */
  function EncodeLm(t: Table, w: Working): (r: (Table, Working))
    ensures r.1.(lmContext := w.lmContext, lmPatched := w.lmPatched) == w
    ensures r.1.lmContext.Some? && r.1.lmPatched.Some?
    ensures |r.1.lmContext.value| == |ContextOf(w.hunk.diffs)| && |r.1.lmPatched.value| == |PatchedOf(w.hunk.diffs)|
  {
    var (t1, c) := Encode(t, ContextOf(w.hunk.diffs), false);
    var (t2, p) := Encode(t1, PatchedOf(w.hunk.diffs), false);
    (t2, w.(lmContext := Some(c), lmPatched := Some(p)))
  }

  /** `lines.Select(rep.WordsToChars)`: every line through the word table,
      in order. */
  function EncodeWordLines(t: Table, cls: CharClasses, ss: seq<Line>): (r: (Table, seq<seq<Char16>>))
    ensures |r.1| == |ss|
  {
    if ss == [] then (t, [])
    else
      var (t1, ws) := EncodeWordLines(t, cls, ss[..|ss| - 1]);
      var (t2, w) := Encode(t1, LineWords(cls, ss[|ss| - 1]), true);
      (t2, ws + [w])
  }

  /** `WorkingPatch.WordsToChars`: the context lines, then the patched lines,
      through the word table. */
  function EncodeWm(t: Table, cls: CharClasses, w: Working): (r: (Table, Working))
    ensures r.1.(wmContext := w.wmContext, wmPatched := w.wmPatched) == w
    ensures r.1.wmContext.Some? && r.1.wmPatched.Some?
    ensures |r.1.wmContext.value| == |ContextOf(w.hunk.diffs)| && |r.1.wmPatched.value| == |PatchedOf(w.hunk.diffs)|
  {
    var (t1, c) := EncodeWordLines(t, cls, ContextOf(w.hunk.diffs));
    var (t2, p) := EncodeWordLines(t1, cls, PatchedOf(w.hunk.diffs));
    (t2, w.(wmContext := Some(c), wmPatched := Some(p)))
  }

  /** Word encoding keeps the table one the representer can hold, and only
      grows it. */
  lemma {:induction false} EncodeWordLinesSpec(t: Table, cls: CharClasses, ss: seq<Line>)
    requires TableOk(t, true)
    ensures TableOk(EncodeWordLines(t, cls, ss).0, true) && Extends(t, EncodeWordLines(t, cls, ss).0)
  {
    if ss != [] {
      var init := ss[..|ss| - 1];
      EncodeWordLinesSpec(t, cls, init);
      var t1 := EncodeWordLines(t, cls, init).0;
      EncodeSpec(t1, LineWords(cls, ss[|ss| - 1]), true);
      ExtendsTrans(t, t1, Encode(t1, LineWords(cls, ss[|ss| - 1]), true).0);
    }
  }

  lemma ExtendsTrans(t1: Table, t2: Table, t3: Table)
    requires Extends(t1, t2) && Extends(t2, t3)
    ensures Extends(t1, t3)
  {
  }

  /** The codes of strings already in a table stay valid in any table that
      extends it. */
  lemma CodedExtends(t: Table, t': Table, ss: seq<Line>, cs: seq<Char16>, word: bool)
    requires Coded(t, ss, cs, word) && Extends(t, t')
    ensures Coded(t', ss, cs, word)
  {
    forall i | 0 <= i < |ss|
      ensures ((word && OwnCode(ss[i])) || ss[i] in t'.index) && cs[i] == CodeOf(t', ss[i], word)
    {
      assert ((word && OwnCode(ss[i])) || ss[i] in t.index) && cs[i] == CodeOf(t, ss[i], word);
    }
  }

  /** The line encodings of `w` are its lines' codes in `t`. */
  predicate LmCoded(t: Table, w: Working) {
    && w.lmContext.Some? && w.lmPatched.Some?
    && Coded(t, ContextOf(w.hunk.diffs), w.lmContext.value, false)
    && Coded(t, PatchedOf(w.hunk.diffs), w.lmPatched.value, false)
  }

  /** Line encoding a patch files both its line lists in the grown table. */
  lemma EncodeLmSpec(t: Table, w: Working)
    requires TableOk(t, false)
    ensures TableOk(EncodeLm(t, w).0, false) && Extends(t, EncodeLm(t, w).0)
    ensures LmCoded(EncodeLm(t, w).0, EncodeLm(t, w).1)
  {
    var (t1, c) := Encode(t, ContextOf(w.hunk.diffs), false);
    EncodeSpec(t, ContextOf(w.hunk.diffs), false);
    EncodeSpec(t1, PatchedOf(w.hunk.diffs), false);
    var t2 := Encode(t1, PatchedOf(w.hunk.diffs), false).0;
    CodedExtends(t1, t2, ContextOf(w.hunk.diffs), c, false);
    ExtendsTrans(t, t1, t2);
  }

  /** Line codes that settle anything: once the encodings are in step with
      the table, and no code has wrapped, equal codes mean equal lines. */
  lemma CodedMatch(t: Table, ss: seq<Line>, cs: seq<Char16>, xs: seq<Line>, ys: seq<Char16>)
    requires TableOk(t, false) && |t.codes| <= 0x1_0000
    requires Coded(t, ss, cs, false) && Coded(t, xs, ys, false)
    ensures cs == ys ==> ss == xs
  {
    if cs == ys {
      forall i | 0 <= i < |ss|
        ensures ss[i] == xs[i]
      {
        TableInjective(t, 1, ss[i], xs[i]);
      }
    }
  }
}
