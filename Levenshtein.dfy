/** `FuzzyLineMatcher.LevenshteinDistance` and `FuzzyLineMatcher.MatchLines`
    of FuzzyLineMatcher.cs: the edit distance of two lines, computed a row
    at a time, and the similarity score built on it. */
module LineSimilarity {
  import opened Text

  function Min(a: int, b: int): int { if a <= b then a else b }
  function Max(a: int, b: int): int { if a >= b then a else b }
  function RMax(a: real, b: real): real { if a >= b then a else b }

  /** The edit distance of `s[..i]` and `t[..j]`: the fewest deletions,
      insertions and substitutions turning one into the other. */
  function Lev(s: Line, t: Line, i: nat, j: nat): nat
    requires i <= |s| && j <= |t|
    decreases i + j
  {
    if i == 0 then j
    else if j == 0 then i
    else Step(Lev(s, t, i - 1, j), Lev(s, t, i, j - 1), Lev(s, t, i - 1, j - 1), s[i - 1] == t[j - 1])
  }

  /** One cell of the table from the cells above, to the left and diagonally
      before it: delete, insert or substitute, whichever is cheapest. */
  function Step(up: nat, left: nat, diag: nat, same: bool): nat {
    Min(up + 1, Min(left + 1, diag + (if same then 0 else 1)))
  }

  /** A cell costs at most one more than the diagonal, and at least the
      cheapest of its three sources. */
  lemma StepRange(up: nat, left: nat, diag: nat, same: bool)
    ensures Step(up, left, diag, same) <= diag + 1
    ensures Step(up, left, diag, same) >= Min(up + 1, Min(left + 1, diag))
  {
  }

  lemma LevCell(s: Line, t: Line, i: nat, j: nat)
    requires i < |s| && j < |t|
    ensures Lev(s, t, i + 1, j + 1) == Step(Lev(s, t, i, j + 1), Lev(s, t, i + 1, j), Lev(s, t, i, j), s[i] == t[j])
  {
  }

  function EditDistance(s: Line, t: Line): nat {
    Lev(s, t, |s|, |t|)
  }

  /** The two-row dynamic programme: `v1` holds row `i` of the table, `v0`
      the row before it, and the arrays swap roles for each row. */
  method LevenshteinDistance(s: Line, t: Line) returns (d: int)
    ensures d == EditDistance(s, t)
  {
    if s == t {
      LevSame(s, t, |s|);
      return 0;
    }
    if |s| == 0 {
      return |t|;
    }
    if |t| == 0 {
      return |s|;
    }
    var v0 := new int[|t| + 1];
    var v1 := new int[|t| + 1];
    for i := 0 to v1.Length
      invariant forall k :: 0 <= k < i ==> v1[k] == k
    {
      v1[i] := i;
    }
    for i := 0 to |s|
      invariant fresh(v0) && fresh(v1)
      invariant v0 != v1 && v0.Length == v1.Length == |t| + 1
      invariant forall k :: 0 <= k <= |t| ==> v1[k] == Lev(s, t, i, k)
    {
      v0, v1 := v1, v0;
      NextRow(s, t, i, v0, v1);
    }
    return v1[|t|];
  }

  /** Fills `v1` with row `i + 1` of the table from row `i` in `v0`. */
  method NextRow(s: Line, t: Line, i: nat, v0: array<int>, v1: array<int>)
    requires i < |s| && v0 != v1 && v0.Length == v1.Length == |t| + 1
    requires forall k :: 0 <= k <= |t| ==> v0[k] == Lev(s, t, i, k)
    modifies v1
    ensures forall k :: 0 <= k <= |t| ==> v1[k] == Lev(s, t, i + 1, k)
  {
    v1[0] := i + 1;
    for j := 0 to |t|
      invariant forall k :: 0 <= k <= j ==> v1[k] == Lev(s, t, i + 1, k)
    {
      var up, left, diag := v0[j + 1], v1[j], v0[j];
      var del := up + 1;
      var ins := left + 1;
      var subs := diag + (if s[i] == t[j] then 0 else 1);
      LevCell(s, t, i, j);
      assert Min(del, Min(ins, subs)) == Lev(s, t, i + 1, j + 1);
      v1[j + 1] := Min(del, Min(ins, subs));
    }
  }

  lemma {:induction false} LevSame(s: Line, t: Line, i: nat)
    requires i <= |s| && i <= |t| && s[..i] == t[..i]
    ensures Lev(s, t, i, i) == 0
  {
    if i > 0 {
      assert s[..i - 1] == s[..i][..i - 1] && t[..i - 1] == t[..i][..i - 1];
      assert s[i - 1] == s[..i][i - 1];
      assert t[i - 1] == t[..i][i - 1];
      LevSame(s, t, i - 1);
    }
  }

  /** Only equal prefixes are at distance 0. */
  lemma {:induction false} LevZero(s: Line, t: Line, i: nat, j: nat)
    requires i <= |s| && j <= |t| && Lev(s, t, i, j) == 0
    ensures i == j && s[..i] == t[..j]
    decreases i + j
  {
    if i > 0 && j > 0 {
      LevZero(s, t, i - 1, j - 1);
      assert s[..i] == s[..i - 1] + [s[i - 1]];
      assert t[..j] == t[..j - 1] + [t[j - 1]];
    }
  }

  /** Swapping the sources above and to the left leaves a cell unchanged. */
  lemma StepSwap(up: nat, left: nat, diag: nat, same: bool, same': bool)
    requires same == same'
    ensures Step(up, left, diag, same) == Step(left, up, diag, same')
  {
  }

  /** The distance is symmetric. */
  lemma {:induction false} LevSymmetric(s: Line, t: Line, i: nat, j: nat)
    requires i <= |s| && j <= |t|
    ensures Lev(s, t, i, j) == Lev(t, s, j, i)
    decreases i + j
  {
    if i > 0 && j > 0 {
      LevSymmetric(s, t, i - 1, j);
      LevSymmetric(s, t, i, j - 1);
      LevSymmetric(s, t, i - 1, j - 1);
      SymCell(s, t, i, j);
    }
  }

  lemma SymCell(s: Line, t: Line, i: nat, j: nat)
    requires 0 < i <= |s| && 0 < j <= |t|
    requires Lev(s, t, i - 1, j) == Lev(t, s, j, i - 1)
    requires Lev(s, t, i, j - 1) == Lev(t, s, j - 1, i)
    requires Lev(s, t, i - 1, j - 1) == Lev(t, s, j - 1, i - 1)
    ensures Lev(s, t, i, j) == Lev(t, s, j, i)
  {
    LevCell(s, t, i - 1, j - 1);
    LevCell(t, s, j - 1, i - 1);
    StepSwap(Lev(s, t, i - 1, j), Lev(s, t, i, j - 1), Lev(s, t, i - 1, j - 1), s[i - 1] == t[j - 1], t[j - 1] == s[i - 1]);
  }

  /** The distance is at most the longer prefix. */
  lemma {:induction false} LevUpper(s: Line, t: Line, i: nat, j: nat)
    requires i <= |s| && j <= |t|
    ensures Lev(s, t, i, j) <= Max(i, j)
    decreases i + j
  {
    if i > 0 && j > 0 {
      LevUpper(s, t, i - 1, j - 1);
      LevCell(s, t, i - 1, j - 1);
      StepRange(Lev(s, t, i - 1, j), Lev(s, t, i, j - 1), Lev(s, t, i - 1, j - 1), s[i - 1] == t[j - 1]);
    }
  }

  /** The distance is at least the difference of the prefix lengths. */
  lemma {:induction false} LevLower(s: Line, t: Line, i: nat, j: nat)
    requires i <= |s| && j <= |t|
    ensures Lev(s, t, i, j) >= i - j && Lev(s, t, i, j) >= j - i
    decreases i + j
  {
    if i > 0 && j > 0 {
      LevLower(s, t, i - 1, j);
      LevLower(s, t, i, j - 1);
      LevLower(s, t, i - 1, j - 1);
      LevCell(s, t, i - 1, j - 1);
      StepRange(Lev(s, t, i - 1, j), Lev(s, t, i, j - 1), Lev(s, t, i - 1, j - 1), s[i - 1] == t[j - 1]);
    }
  }

  /** The distance is 0 exactly for equal lines, symmetric, and between the
      difference and the larger of the lengths. */
  lemma EditDistanceSpec(s: Line, t: Line)
    ensures EditDistance(s, t) == 0 <==> s == t
    ensures EditDistance(s, t) == EditDistance(t, s)
    ensures EditDistance(s, t) <= Max(|s|, |t|)
    ensures EditDistance(s, t) >= |s| - |t| && EditDistance(s, t) >= |t| - |s|
  {
    if s == t {
      LevSame(s, t, |s|);
    }
    if EditDistance(s, t) == 0 {
      LevZero(s, t, |s|, |t|);
      assert s == s[..|s|] && t == t[..|t|];
    }
    LevSymmetric(s, t, |s|, |t|);
    LevUpper(s, t, |s|, |t|);
    LevLower(s, t, |s|, |t|);
  }

  /** `MatchLines`: 1 for equal lines; otherwise 1 less the distance over
      half the longer length, and never below 0. */
  function Similarity(s: Line, t: Line): real {
    var d := EditDistance(s, t);
    if d == 0 then 1.0
    else
      var max := Max(|s|, |t|) as real / 2.0;
      RMax(0.0, 1.0 - d as real / max)
  }

  method MatchLines(s: Line, t: Line) returns (r: real)
    ensures r == Similarity(s, t)
  {
    var d := LevenshteinDistance(s, t);
    if d == 0 {
      return 1.0;
    }
    var max := Max(|s|, |t|) as real / 2.0;
    return RMax(0.0, 1.0 - d as real / max);
  }

  /** The score lies in [0, 1] and is 1 exactly for equal lines. */
  lemma SimilaritySpec(s: Line, t: Line)
    ensures 0.0 <= Similarity(s, t) <= 1.0
    ensures Similarity(s, t) == 1.0 <==> s == t
  {
    EditDistanceSpec(s, t);
  }
}
