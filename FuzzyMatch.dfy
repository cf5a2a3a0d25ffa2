/** `FuzzyLineMatcher.Match` of FuzzyLineMatcher.cs: slides a match matrix
    across the search text and keeps the best-scoring window's path, matching
    each pattern line to at most one search line, in order. */
module FuzzyMatching {
  import opened Text
  import opened LineSimilarity
  import opened MatchPaths
  import opened MatchMatrices

  /** The identity matching, used when the two texts are of equal length or
      no window scores above 0. */
  function Identity(n: nat): (r: seq<int>)
    ensures |r| == n && forall q :: 0 <= q < n ==> r[q] == q
  {
    seq(n, q => q)
  }

  /** The window start `Match` settles on after scanning the windows
      `-m .. hi`: a later window replaces the best so far only when its
      score is strictly higher. */
  function BestLoc(pattern: seq<Line>, search: seq<Line>, m: nat, hi: int): int
    requires |pattern| >= 1 && -(m as int) <= hi
    decreases hi + m
  {
    if hi == -(m as int) then hi
    else
      var b := BestLoc(pattern, search, m, hi - 1);
      if MatchScore(pattern, search, m, hi) > MatchScore(pattern, search, m, b) then hi else b
  }

  /** One more window: it is chosen only when it beats the best so far. */
  lemma BestLocStep(pattern: seq<Line>, search: seq<Line>, m: nat, lo: int, hi: int)
    requires |pattern| >= 1 && -(m as int) <= lo && hi == lo + 1
    ensures BestLoc(pattern, search, m, hi) ==
      if MatchScore(pattern, search, m, hi) > MatchScore(pattern, search, m, BestLoc(pattern, search, m, lo)) then hi
      else BestLoc(pattern, search, m, lo)
  {
  }

  /** The chosen window is the first of those scanned with the highest score. */
  lemma {:induction false} BestLocSpec(pattern: seq<Line>, search: seq<Line>, m: nat, hi: int)
    requires |pattern| >= 1 && -(m as int) <= hi
    ensures -(m as int) <= BestLoc(pattern, search, m, hi) <= hi
    ensures forall l :: -(m as int) <= l <= hi ==>
      MatchScore(pattern, search, m, l) <= MatchScore(pattern, search, m, BestLoc(pattern, search, m, hi))
    ensures forall l :: -(m as int) <= l < BestLoc(pattern, search, m, hi) ==>
      MatchScore(pattern, search, m, l) < MatchScore(pattern, search, m, BestLoc(pattern, search, m, hi))
    decreases hi + m
  {
    if hi > -(m as int) {
      BestLocSpec(pattern, search, m, hi - 1);
    }
  }

  /** `Match` for a search text at least as long as the pattern. */
  function MatchForward(pattern: seq<Line>, search: seq<Line>, m: nat): (r: seq<int>)
    requires |search| >= |pattern|
    ensures |r| == |pattern| && Increasing(r)
    ensures forall q :: 0 <= q < |r| ==> r[q] < |search|
  {
    if |pattern| == 0 then []
    else if |pattern| == |search| then Identity(|pattern|)
    else
      var b := BestLoc(pattern, search, m, |search| - |pattern| + m);
      if MatchScore(pattern, search, m, b) == 0.0 then Identity(|pattern|)
      else
        MatchScoreRange(pattern, search, m, b);
        MatchPathShape(pattern, search, m, b);
        MatchPath(pattern, search, m, b)
  }

  /** The matching `Match` returns: for the shorter text, the forward match
      against the longer one turned around. */
  function MatchSpec(pattern: seq<Line>, search: seq<Line>, m: nat): seq<int> {
    if |search| < |pattern| then Invert(MatchForward(search, pattern, m), |pattern|)
    else MatchForward(pattern, search, m)
  }

  /** The result of the inversion loop after its first `c` iterations: every
      matched entry `r[c']` records `c'` at position `r[c']`. */
  function InvertUpTo(r: seq<int>, n: nat, c: nat): (v: seq<int>)
    requires c <= |r| && forall q :: 0 <= q < |r| ==> r[q] < n
    ensures |v| == n
  {
    if c == 0 then Fill(n)
    else
      var v := InvertUpTo(r, n, c - 1);
      if r[c - 1] >= 0 then v[r[c - 1] := c - 1] else v
  }

  function Invert(r: seq<int>, n: nat): seq<int>
    requires forall q :: 0 <= q < |r| ==> r[q] < n
  {
    InvertUpTo(r, n, |r|)
  }

  /** After `c` iterations, each entry is -1 or an earlier index matched to
      it, and each earlier matched index is recorded. */
  lemma {:induction false} InvertUpToSpec(r: seq<int>, n: nat, c: nat)
    requires c <= |r| && Increasing(r) && forall q :: 0 <= q < |r| ==> r[q] < n
    ensures forall p :: 0 <= p < n ==>
      (InvertUpTo(r, n, c)[p] == -1 || (0 <= InvertUpTo(r, n, c)[p] < c && r[InvertUpTo(r, n, c)[p]] == p))
    ensures forall q :: 0 <= q < c && r[q] >= 0 ==> InvertUpTo(r, n, c)[r[q]] == q
  {
    if c > 0 {
      InvertUpToSpec(r, n, c - 1);
      var v := InvertUpTo(r, n, c - 1);
      if r[c - 1] >= 0 {
        forall q | 0 <= q < c - 1 && r[q] >= 0
          ensures r[q] != r[c - 1]
        {
          assert r[q] < r[c - 1];
        }
      }
    }
  }

  /** Inverting an increasing matching gives an increasing matching back:
      pattern line `p` is matched to `c` exactly when `c` was matched to `p`. */
  lemma InvertSpec(r: seq<int>, n: nat)
    requires Increasing(r) && forall q :: 0 <= q < |r| ==> r[q] < n
    ensures |Invert(r, n)| == n && Increasing(Invert(r, n))
    ensures forall p :: 0 <= p < n ==> Invert(r, n)[p] < |r|
    ensures forall p :: 0 <= p < n && Invert(r, n)[p] >= 0 ==> r[Invert(r, n)[p]] == p
    ensures forall q :: 0 <= q < |r| && r[q] >= 0 ==> Invert(r, n)[r[q]] == q
  {
    InvertUpToSpec(r, n, |r|);
    var v := Invert(r, n);
    forall p, p' | 0 <= p < p' < n && v[p] >= 0 && v[p'] >= 0
      ensures v[p] < v[p']
    {
      assert r[v[p]] == p && r[v[p']] == p';
    }
  }

  /** Whatever the lengths, `Match` returns one entry per pattern line, each
      below the search text's length, and the matched entries increase. */
  lemma MatchShape(pattern: seq<Line>, search: seq<Line>, m: nat)
    ensures |MatchSpec(pattern, search, m)| == |pattern|
    ensures Increasing(MatchSpec(pattern, search, m))
    ensures forall q :: 0 <= q < |pattern| ==> MatchSpec(pattern, search, m)[q] < |search|
  {
    if |search| < |pattern| {
      InvertSpec(MatchForward(search, pattern, m), |pattern|);
    }
  }

  class FuzzyLineMatcher {
    var maxOffset: nat

    constructor (maxOffset: nat := DefaultMaxOffset)
      ensures this.maxOffset == maxOffset
    {
      this.maxOffset := maxOffset;
    }

    method Match(pattern: seq<Line>, search: seq<Line>) returns (r: seq<int>)
      ensures r == MatchSpec(pattern, search, maxOffset)
      decreases if |search| < |pattern| then 1 else 0
    {
      if |search| < |pattern| {
        var rMatch := Match(search, pattern);
        assert rMatch == MatchForward(search, pattern, maxOffset);
        r := InvertMatch(rMatch, |pattern|);
      } else {
        r := MatchLonger(pattern, search, maxOffset);
      }
    }

    /** `Match` once the search text is at least as long as the pattern. */
    static method MatchLonger(pattern: seq<Line>, search: seq<Line>, m: nat) returns (r: seq<int>)
      requires |search| >= |pattern|
      ensures r == MatchForward(pattern, search, m)
    {
      if |pattern| == 0 {
        return [];
      }
      if |pattern| == |search| {
        return Identity(|pattern|);
      }
      var bestScore, bestMatch := ScanWindows(pattern, search, m);
      if bestScore == 0.0 {
        return Identity(|pattern|);
      }
      return bestMatch;
    }

    /** The sliding loop of `Match`: the score and path of the best window,
      the first of the highest score from `-m` to the last window. */
    static method ScanWindows(pattern: seq<Line>, search: seq<Line>, m: nat) returns (bestScore: real, bestMatch: seq<int>)
      requires 1 <= |pattern| < |search|
      ensures bestScore == MatchScore(pattern, search, m, BestLoc(pattern, search, m, |search| - |pattern| + m))
      ensures bestMatch == MatchPath(pattern, search, m, BestLoc(pattern, search, m, |search| - |pattern| + m))
    {
      var mm := new MatchMatrix(pattern, search, m);
      bestScore := mm.Initialize(-(m as int));
      bestMatch := mm.Path();
      while mm.CanStepForward()
        invariant fresh(mm) && fresh(mm.matches)
        invariant Tracking(mm, pattern, search, m, bestScore, bestMatch)
        decreases |search| - |pattern| + m - mm.loc
      {
        bestScore, bestMatch := Advance(mm, pattern, search, m, bestScore, bestMatch);
      }
      TrackingDone(mm, pattern, search, m, bestScore, bestMatch);
    }

    static lemma TrackingDone(mm: MatchMatrix, pattern: seq<Line>, search: seq<Line>, m: nat,
                              bestScore: real, bestMatch: seq<int>)
      requires Tracking(mm, pattern, search, m, bestScore, bestMatch) && !mm.CanStepForward()
      ensures bestScore == MatchScore(pattern, search, m, BestLoc(pattern, search, m, |search| - |pattern| + m))
      ensures bestMatch == MatchPath(pattern, search, m, BestLoc(pattern, search, m, |search| - |pattern| + m))
    {
    }

    /** The loop invariant of `ScanWindows`: the matrix is solved at a window
      not past the last, and the best score and path so far are those of
      `BestLoc` over the windows up to it. */
    static ghost predicate Tracking(mm: MatchMatrix, pattern: seq<Line>, search: seq<Line>, m: nat,
                                    bestScore: real, bestMatch: seq<int>)
      reads mm, mm.matches
    {
      && mm.pattern == pattern && mm.search == search && mm.maxOffset == m && mm.Ready()
      && -(m as int) <= mm.loc <= |search| - |pattern| + m
      && bestScore == MatchScore(pattern, search, m, BestLoc(pattern, search, m, mm.loc))
      && bestMatch == MatchPath(pattern, search, m, BestLoc(pattern, search, m, mm.loc))
    }

    /** One iteration of the sliding loop: step the window forward and keep
      its score and path when the score beats the best so far. */
    static method Advance(mm: MatchMatrix, pattern: seq<Line>, search: seq<Line>, m: nat,
                          bestScore: real, bestMatch: seq<int>) returns (score': real, match': seq<int>)
      requires Tracking(mm, pattern, search, m, bestScore, bestMatch) && mm.CanStepForward()
      modifies mm, mm.matches
      ensures Tracking(mm, pattern, search, m, score', match') && mm.loc == old(mm.loc) + 1
    {
      score', match' := bestScore, bestMatch;
      ghost var lo := mm.loc;
      var score := mm.StepForward();
      BestLocStep(pattern, search, m, lo, mm.loc);
      if score > bestScore {
        score' := score;
        match' := mm.Path();
      }
    }

    /** The inversion loop of `Match`: search line `rMatch[c]` gets `c`. */
    static method InvertMatch(rMatch: seq<int>, n: nat) returns (r: seq<int>)
      requires forall q :: 0 <= q < |rMatch| ==> rMatch[q] < n
      ensures r == Invert(rMatch, n)
    {
      var nMatch := new int[n];
      for i := 0 to n
        invariant forall q :: 0 <= q < i ==> nMatch[q] == -1
      {
        nMatch[i] := -1;
      }
      assert nMatch[..] == InvertUpTo(rMatch, n, 0);
      for i := 0 to |rMatch|
        invariant nMatch[..] == InvertUpTo(rMatch, n, i)
      {
        if rMatch[i] >= 0 {
          nMatch[rMatch[i]] := i;
        }
      }
      r := nMatch[..];
    }
  }
}
