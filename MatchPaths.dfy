/** The best fuzzy alignment of a pattern against a window of a search text,
    as `MatchMatrix.Recalculate` and `MatchMatrix.Path` of FuzzyLineMatcher.cs
    compute it. Lane `k` of the window holds the pattern shifted `loc + k`
    lines into the search text; a path visits pattern lines in order,
    moving to a later lane (skipping search lines, at a penalty of 0.5 per
    line) or an earlier lane (skipping pattern lines). */
module MatchPaths {
  import opened Text
  import opened LineSimilarity

  /** How far successive path nodes may drift apart by default. */
  const DefaultMaxOffset: nat := 5

  /** One node of the match matrix: its line score, the best path sum from
      it onwards, and the lane of the next node on that path (-1 for none). */
  datatype Node = Node(score: real, sum: real, next: int)

  /** The number of pattern lines between successive path nodes in lanes `i`
      and `j`: a step never skips both pattern and search lines, and always
      moves to a later search line. */
  function OffsetsToPatternDistance(i: int, j: int): (d: int)
    ensures d >= 1 && d + j - i >= 1
    ensures d == 1 || d + j - i == 1
  {
    if j >= i then 1 else 1 + i - j
  }

  /** Line scores, one row per lane, one column per pattern line. */
  type Grid = seq<seq<real>>

  predicate Shaped(g: Grid, n: nat) {
    |g| >= 1 && forall k :: 0 <= k < |g| ==> |g[k]| == n
  }

  /** Every score lies between 0 and 1. */
  predicate Unit(g: Grid) {
    forall k, i :: 0 <= k < |g| && 0 <= i < |g[k]| ==> 0.0 <= g[k][i] <= 1.0
  }

  /** Nodes on search lines at or past `last` score 0. */
  predicate Dead(g: Grid, n: nat, loc: int, last: int)
    requires Shaped(g, n)
  {
    forall k, i :: 0 <= k < |g| && 0 <= i < n && loc + k + i >= last ==> g[k][i] == 0.0
  }

  /** The penalty for moving from lane `j` to a later lane `k`. */
  function Penalty(j: int, k: int): real {
    if k > j then 0.5 * (k - j) as real else 0.0
  }

  /** The best path sum from the node of pattern line `i` in lane `j`. */
  function SumAt(g: Grid, n: nat, i: nat, j: nat): real
    requires Shaped(g, n) && i < n && j < |g|
    decreases n - i, |g| + 1
  {
    if i == n - 1 then g[j][i] else Scan(g, n, i, j, |g|).1 + g[j][i]
  }

  /** The successor of node (`i`, `j`) among lanes `0 .. kk - 1` and its
      penalised sum: the first candidate of strictly greatest, positive
      sum, or `(-1, 0)`. */
  function Scan(g: Grid, n: nat, i: nat, j: nat, kk: nat): (int, real)
    requires Shaped(g, n) && i < n && j < |g| && kk <= |g|
    decreases n - i, kk
  {
    if kk == 0 then (-1, 0.0)
    else
      var best := Scan(g, n, i, j, kk - 1);
      var k := kk - 1;
      var l := i + OffsetsToPatternDistance(j, k);
      if l >= n then best
      else
        var s := SumAt(g, n, l, k) - Penalty(j, k);
        if s > best.1 then (k, s) else best
  }

  /** The lane of the next node after (`i`, `j`) on the best path; -1
      ends the path, any other lane lies inside the pattern. */
  function NextAt(g: Grid, n: nat, i: nat, j: nat): (r: int)
    requires Shaped(g, n) && i < n && j < |g|
    ensures r == -1 || (0 <= r < |g| && i + OffsetsToPatternDistance(j, r) < n)
  {
    if i == n - 1 then -1
    else
      ScanSpec(g, n, i, j, |g|);
      Scan(g, n, i, j, |g|).0
  }

  /** The candidate of pattern line `i + OffsetsToPatternDistance(j, k)` in lane `k`. */
  predicate Candidate(n: nat, i: nat, j: nat, k: int) {
    0 <= k && i + OffsetsToPatternDistance(j, k) < n
  }

  /** The penalised sum of candidate lane `k` after node (`i`, `j`). */
  function Offer(g: Grid, n: nat, i: nat, j: nat, k: nat): real
    requires Shaped(g, n) && i < n && j < |g| && k < |g| && Candidate(n, i, j, k)
  {
    SumAt(g, n, i + OffsetsToPatternDistance(j, k), k) - Penalty(j, k)
  }

  /** `Scan` picks the first candidate of greatest penalised sum, and only
      one whose sum is positive. */
  lemma {:induction false} ScanSpec(g: Grid, n: nat, i: nat, j: nat, kk: nat)
    requires Shaped(g, n) && i < n && j < |g| && kk <= |g|
    ensures var (mk, ms) := Scan(g, n, i, j, kk);
      && ms >= 0.0
      && (mk == -1 ==> ms == 0.0)
      && (mk != -1 ==> 0 <= mk < kk && Candidate(n, i, j, mk) && ms == Offer(g, n, i, j, mk) && ms > 0.0)
      && (forall k :: 0 <= k < kk && Candidate(n, i, j, k) ==> Offer(g, n, i, j, k) <= ms)
      && (forall k :: 0 <= k < mk && Candidate(n, i, j, k) ==> Offer(g, n, i, j, k) < ms)
    decreases kk
  {
    if kk > 0 {
      ScanSpec(g, n, i, j, kk - 1);
    }
  }

  /** The first lane among `0 .. kk - 1` whose head node has the greatest sum. */
  function First(g: Grid, n: nat, kk: nat): (f: nat)
    requires Shaped(g, n) && n >= 1 && 1 <= kk <= |g|
    ensures f < kk
  {
    if kk == 1 then 0
    else
      var f := First(g, n, kk - 1);
      if SumAt(g, n, 0, kk - 1) > SumAt(g, n, 0, f) then kk - 1 else f
  }

  /** `First` is a lane of greatest head sum, and every lane before it
      scores strictly less. */
  lemma {:induction false} FirstSpec(g: Grid, n: nat, kk: nat)
    requires Shaped(g, n) && n >= 1 && 1 <= kk <= |g|
    ensures var f := First(g, n, kk);
      && (forall k :: 0 <= k < kk ==> SumAt(g, n, 0, k) <= SumAt(g, n, 0, f))
      && (forall k :: 0 <= k < f ==> SumAt(g, n, 0, k) < SumAt(g, n, 0, f))
  {
    if kk > 1 {
      FirstSpec(g, n, kk - 1);
    }
  }

  /** The score of the best path: its sum over the pattern length. */
  function Score(g: Grid, n: nat): real
    requires Shaped(g, n) && n >= 1
  {
    SumAt(g, n, 0, First(g, n, |g|)) / n as real
  }

  /** With scores in [0, 1], a path sum from pattern line `i` lies between 0
      and the number of pattern lines left. */
  lemma {:induction false} SumRange(g: Grid, n: nat, i: nat, j: nat)
    requires Shaped(g, n) && Unit(g) && i < n && j < |g|
    ensures 0.0 <= SumAt(g, n, i, j) <= (n - i) as real
    decreases n - i
  {
    if i < n - 1 {
      ScanSpec(g, n, i, j, |g|);
      var mk := Scan(g, n, i, j, |g|).0;
      if mk != -1 {
        SumRange(g, n, i + OffsetsToPatternDistance(j, mk), mk);
      }
    }
  }

  /** The score of the best path lies in [0, 1]. */
  lemma ScoreRange(g: Grid, n: nat)
    requires Shaped(g, n) && Unit(g) && n >= 1
    ensures 0.0 <= Score(g, n) <= 1.0
  {
    SumRange(g, n, 0, First(g, n, |g|));
  }

  /** A node past the end of the search text has sum 0 and no successor:
      every path from it stays past the end. */
  lemma {:induction false} SumBeyond(g: Grid, n: nat, loc: int, last: int, i: nat, j: nat)
    requires Shaped(g, n) && Dead(g, n, loc, last) && i < n && j < |g| && loc + j + i >= last
    ensures SumAt(g, n, i, j) == 0.0 && NextAt(g, n, i, j) == -1
    decreases n - i
  {
    if i < n - 1 {
      ScanSpec(g, n, i, j, |g|);
      var mk := Scan(g, n, i, j, |g|).0;
      if mk != -1 {
        SumBeyond(g, n, loc, last, i + OffsetsToPatternDistance(j, mk), mk);
      }
    }
  }

  /** `c` unmatched pattern lines. */
  function Fill(c: nat): (r: seq<int>)
    ensures |r| == c && forall q :: 0 <= q < c ==> r[q] == -1
  {
    seq(c, _ => -1)
  }

  /** The search lines matched to pattern lines `i + 1 ..` on the best path
      from node (`i`, `o`): -1 for a skipped pattern line. */
  function Trail(g: Grid, n: nat, loc: int, i: nat, o: nat): (r: seq<int>)
    requires Shaped(g, n) && i < n && o < |g|
    ensures |r| == n - 1 - i
    decreases n - i
  {
    var nx := NextAt(g, n, i, o);
    if nx < 0 then Fill(n - 1 - i)
    else
      var d := OffsetsToPatternDistance(o, nx);
      Fill(d - 1) + [loc + i + d + nx] + Trail(g, n, loc, i + d, nx)
  }

  /** The best path of the window at `loc`, as the search line matched to each
      pattern line (-1 for an unmatched one). */
  function PathOf(g: Grid, n: nat, loc: int): (r: seq<int>)
    requires Shaped(g, n) && n >= 1
  {
    var f := First(g, n, |g|);
    [loc + f] + Trail(g, n, loc, 0, f)
  }

  /** Matched search lines (the ones that are not negative) strictly increase. */
  predicate Increasing(r: seq<int>) {
    forall p, q :: 0 <= p < q < |r| && r[p] >= 0 && r[q] >= 0 ==> r[p] < r[q]
  }

  /** One step of a trail: the skipped pattern lines, the next node's search
      line, and the trail from that node. */
  lemma TrailStep(g: Grid, n: nat, loc: int, i: nat, o: nat)
    requires Shaped(g, n) && i < n && o < |g| && NextAt(g, n, i, o) >= 0
    ensures var nx := NextAt(g, n, i, o);
      var d := OffsetsToPatternDistance(o, nx);
      var t := Trail(g, n, loc, i, o);
      && i + d < n
      && (forall q :: 0 <= q < d - 1 ==> t[q] == -1)
      && t[d - 1] == loc + i + d + nx
      && t[d..] == Trail(g, n, loc, i + d, nx)
  {
    var nx := NextAt(g, n, i, o);
    var d := OffsetsToPatternDistance(o, nx);
    var t := Trail(g, n, loc, i, o);
    assert t == Fill(d - 1) + [loc + i + d + nx] + Trail(g, n, loc, i + d, nx);
  }

  /** The search lines of a trail are unmatched or past the line of its
      node (`loc + i + o`). */
  lemma {:induction false} TrailAbove(g: Grid, n: nat, loc: int, i: nat, o: nat)
    requires Shaped(g, n) && i < n && o < |g|
    ensures forall q :: 0 <= q < n - 1 - i ==>
      Trail(g, n, loc, i, o)[q] == -1 || Trail(g, n, loc, i, o)[q] > loc + i + o
    decreases n - i
  {
    var nx := NextAt(g, n, i, o);
    if nx >= 0 {
      var d := OffsetsToPatternDistance(o, nx);
      var t := Trail(g, n, loc, i, o);
      var rest := Trail(g, n, loc, i + d, nx);
      TrailStep(g, n, loc, i, o);
      TrailAbove(g, n, loc, i + d, nx);
      forall q | d <= q < |t|
        ensures t[q] == -1 || t[q] > loc + i + o
      {
        assert t[q] == rest[q - d];
      }
    }
  }

  /** The matched search lines of a trail strictly increase. */
  lemma {:induction false} TrailIncreasing(g: Grid, n: nat, loc: int, i: nat, o: nat)
    requires Shaped(g, n) && i < n && o < |g|
    ensures Increasing(Trail(g, n, loc, i, o))
    decreases n - i
  {
    var nx := NextAt(g, n, i, o);
    if nx >= 0 {
      var d := OffsetsToPatternDistance(o, nx);
      var t := Trail(g, n, loc, i, o);
      var rest := Trail(g, n, loc, i + d, nx);
      TrailStep(g, n, loc, i, o);
      TrailAbove(g, n, loc, i + d, nx);
      TrailIncreasing(g, n, loc, i + d, nx);
      forall p, q | 0 <= p < q < |t| && t[p] >= 0 && t[q] >= 0
        ensures t[p] < t[q]
      {
        IncreasingStep(t, rest, d, p, q);
      }
    }
  }

  /** A pair of matched lines of `t`, whose tail past `d` is `rest`, behind
      `d - 1` unmatched lines and a node line below everything matched after it. */
  lemma IncreasingStep(t: seq<int>, rest: seq<int>, d: nat, p: nat, q: nat)
    requires 1 <= d <= |t| && t[d..] == rest && Increasing(rest)
    requires forall x :: 0 <= x < d - 1 ==> t[x] == -1
    requires forall x :: 0 <= x < |rest| ==> rest[x] == -1 || rest[x] > t[d - 1]
    requires p < q < |t| && t[p] >= 0 && t[q] >= 0
    ensures t[p] < t[q]
  {
    assert t[q] == rest[q - d];
    if p >= d {
      assert t[p] == rest[p - d];
    }
  }

  /** A trail with no node past the end: every successor chosen has a
      positive sum, so it lies before `last`. */
  lemma {:induction false} TrailBelow(g: Grid, n: nat, loc: int, last: int, i: nat, o: nat)
    requires Shaped(g, n) && Dead(g, n, loc, last) && last >= 0 && i < n && o < |g|
    ensures forall q :: 0 <= q < |Trail(g, n, loc, i, o)| ==> Trail(g, n, loc, i, o)[q] < last
    decreases n - i
  {
    var nx := NextAt(g, n, i, o);
    if nx >= 0 {
      var d := OffsetsToPatternDistance(o, nx);
      var t := Trail(g, n, loc, i, o);
      var rest := Trail(g, n, loc, i + d, nx);
      TrailStep(g, n, loc, i, o);
      TrailBelow(g, n, loc, last, i + d, nx);
      ScanSpec(g, n, i, o, |g|);
      if loc + nx + (i + d) >= last {
        SumBeyond(g, n, loc, last, i + d, nx);
      }
      forall q | 0 <= q < |t|
        ensures t[q] < last
      {
        if q >= d {
          assert t[q] == rest[q - d];
        }
      }
    }
  }

  /** The best path has one entry per pattern line, its matched search lines
      strictly increase, and when its sum is positive none of them lies past
      the end of the search text. */
  lemma PathShape(g: Grid, n: nat, loc: int, last: int)
    requires Shaped(g, n) && n >= 1
    ensures var p := PathOf(g, n, loc);
      && |p| == n && p[0] == loc + First(g, n, |g|) && Increasing(p)
      && (Dead(g, n, loc, last) && last >= 0 && SumAt(g, n, 0, First(g, n, |g|)) > 0.0 ==>
            forall q :: 0 <= q < n ==> p[q] < last)
  {
    var f := First(g, n, |g|);
    var p := PathOf(g, n, loc);
    var t := Trail(g, n, loc, 0, f);
    TrailAbove(g, n, loc, 0, f);
    TrailIncreasing(g, n, loc, 0, f);
    forall a, b | 0 <= a < b < |p| && p[a] >= 0 && p[b] >= 0
      ensures p[a] < p[b]
    {
      assert p[0] == loc + f && p[1..] == t;
      IncreasingStep(p, t, 1, a, b);
    }
    if Dead(g, n, loc, last) && last >= 0 && SumAt(g, n, 0, f) > 0.0 {
      TrailBelow(g, n, loc, last, 0, f);
      if loc + f >= last {
        SumBeyond(g, n, loc, last, 0, f);
      }
      forall q | 0 <= q < n
        ensures p[q] < last
      {
        if q > 0 {
          assert p[q] == t[q - 1];
        }
      }
    }
  }
}
