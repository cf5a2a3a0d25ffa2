/** `MatchMatrix` of FuzzyLineMatcher.cs: the window of `maxOffset + 1` lanes
    over which the best alignment of a pattern against a search text is
    recalculated as the window slides along the search text. */
module MatchMatrices {
  import opened Text
  import opened LineSimilarity
  import opened MatchPaths

  /** The score of pattern line `i` against search line `l`: 0 outside the
      search text. */
  function LineScore(pattern: seq<Line>, search: seq<Line>, l: int, i: nat): real
    requires i < |pattern|
  {
    if l < 0 || l >= |search| then 0.0 else Similarity(pattern[i], search[l])
  }

  /** The scores of a lane holding the pattern from search line `at` on. */
  function LaneAt(pattern: seq<Line>, search: seq<Line>, at: int): seq<real> {
    seq(|pattern|, i requires 0 <= i < |pattern| => LineScore(pattern, search, at + i, i))
  }

  /** The scores of the window at `loc`: lane `k` starts at search line `loc + k`. */
  function GridAt(pattern: seq<Line>, search: seq<Line>, maxOffset: nat, loc: int): Grid {
    seq(maxOffset + 1, k => LaneAt(pattern, search, loc + k))
  }

  lemma GridEntry(pattern: seq<Line>, search: seq<Line>, maxOffset: nat, loc: int, k: nat, i: nat)
    requires k <= maxOffset && i < |pattern|
    ensures |GridAt(pattern, search, maxOffset, loc)| == maxOffset + 1
    ensures |GridAt(pattern, search, maxOffset, loc)[k]| == |pattern|
    ensures GridAt(pattern, search, maxOffset, loc)[k][i] == LineScore(pattern, search, loc + k + i, i)
  {
    var lane := GridAt(pattern, search, maxOffset, loc)[k];
    assert lane == LaneAt(pattern, search, loc + k);
    assert lane[i] == LineScore(pattern, search, loc + k + i, i);
  }

  /** The window's scores form a grid with scores in [0, 1], and every node
      past the end of the search text scores 0. */
  lemma GridAtSpec(pattern: seq<Line>, search: seq<Line>, maxOffset: nat, loc: int)
    ensures var g := GridAt(pattern, search, maxOffset, loc);
      && Shaped(g, |pattern|) && Unit(g) && Dead(g, |pattern|, loc, |search|)
  {
    var g := GridAt(pattern, search, maxOffset, loc);
    forall k | 0 <= k < |g|
      ensures |g[k]| == |pattern|
    {
      assert g[k] == LaneAt(pattern, search, loc + k);
    }
    forall k, i | 0 <= k < |g| && 0 <= i < |g[k]|
      ensures 0.0 <= g[k][i] <= 1.0
      ensures loc + k + i >= |search| ==> g[k][i] == 0.0
    {
      GridEntry(pattern, search, maxOffset, loc, k, i);
      var l := loc + k + i;
      if 0 <= l < |search| {
        SimilaritySpec(pattern[i], search[l]);
      }
    }
  }

  /** The score of the best path of the window at `loc`. */
  function MatchScore(pattern: seq<Line>, search: seq<Line>, maxOffset: nat, loc: int): real
    requires |pattern| >= 1
  {
    GridAtSpec(pattern, search, maxOffset, loc);
    Score(GridAt(pattern, search, maxOffset, loc), |pattern|)
  }

  /** The best path of the window at `loc`. */
  function MatchPath(pattern: seq<Line>, search: seq<Line>, maxOffset: nat, loc: int): seq<int>
    requires |pattern| >= 1
  {
    GridAtSpec(pattern, search, maxOffset, loc);
    PathOf(GridAt(pattern, search, maxOffset, loc), |pattern|, loc)
  }

  /** A window's score lies in [0, 1]. */
  lemma MatchScoreRange(pattern: seq<Line>, search: seq<Line>, maxOffset: nat, loc: int)
    requires |pattern| >= 1
    ensures 0.0 <= MatchScore(pattern, search, maxOffset, loc) <= 1.0
  {
    GridAtSpec(pattern, search, maxOffset, loc);
    ScoreRange(GridAt(pattern, search, maxOffset, loc), |pattern|);
  }

  /** A window's best path matches each pattern line to at most one search
      line, in increasing order, and a path of positive score matches no
      line past the end of the search text. */
  lemma MatchPathShape(pattern: seq<Line>, search: seq<Line>, maxOffset: nat, loc: int)
    requires |pattern| >= 1
    ensures var p := MatchPath(pattern, search, maxOffset, loc);
      && |p| == |pattern| && Increasing(p)
      && (MatchScore(pattern, search, maxOffset, loc) > 0.0 ==> forall q :: 0 <= q < |p| ==> p[q] < |search|)
  {
    var g := GridAt(pattern, search, maxOffset, loc);
    GridAtSpec(pattern, search, maxOffset, loc);
    PathShape(g, |pattern|, loc, |search|);
  }

  /** The node a solved window holds at pattern line `i` of lane `k`. */
  function Solution(g: Grid, n: nat, k: nat, i: nat): Node
    requires Shaped(g, n) && k < |g| && i < n
  {
    Node(g[k][i], SumAt(g, n, i, k), NextAt(g, n, i, k))
  }

  /** Every node of `lanes` carries its score in `g`. */
  ghost predicate Scored(lanes: seq<seq<Node>>, n: nat, g: Grid) {
    && Shaped(g, n) && |lanes| == |g|
    && (forall k :: 0 <= k < |lanes| ==> |lanes[k]| == n)
    && (forall k, i :: 0 <= k < |lanes| && 0 <= i < n ==> lanes[k][i].score == g[k][i])
  }

  /** The nodes of pattern lines `from ..` also carry their best paths. */
  ghost predicate SolvedFrom(lanes: seq<seq<Node>>, n: nat, g: Grid, from: int) {
    && Scored(lanes, n, g)
    && (forall k, i :: 0 <= k < |lanes| && from <= i < n && 0 <= i ==> lanes[k][i] == Solution(g, n, k, i))
  }

  /** Every node of `lanes` carries its score in `g` and its best path. */
  ghost predicate Solved(lanes: seq<seq<Node>>, n: nat, g: Grid) {
    SolvedFrom(lanes, n, g, 0)
  }

  /** Pattern lines past `i` are solved, and so is line `i` in lanes before `j`. */
  ghost predicate RowUpTo(lanes: seq<seq<Node>>, n: nat, g: Grid, i: nat, j: nat) {
    && SolvedFrom(lanes, n, g, i + 1)
    && (forall k :: 0 <= k < j && k < |lanes| && i < n ==> lanes[k][i] == Solution(g, n, k, i))
  }

  /** Solving the node of line `i` in lane `j` extends the solved part of a row. */
  lemma RowStep(lanes: seq<seq<Node>>, n: nat, g: Grid, i: nat, j: nat)
    requires RowUpTo(lanes, n, g, i, j) && j < |lanes| && i < n
    ensures RowUpTo(lanes[j := lanes[j][i := Solution(g, n, j, i)]], n, g, i, j + 1)
  {
  }

  /** A row solved in every lane extends the solved lines by one. */
  lemma RowDone(lanes: seq<seq<Node>>, n: nat, g: Grid, i: nat)
    requires RowUpTo(lanes, n, g, i, |lanes|)
    ensures SolvedFrom(lanes, n, g, i)
  {
  }

  /** `StraightMatch.Update`: rescores a lane for the pattern starting at
      search line `loc`, keeping each node's sum and successor. */
  method Update(nodes: seq<Node>, loc: int, pattern: seq<Line>, search: seq<Line>) returns (r: seq<Node>)
    requires |nodes| == |pattern|
    ensures |r| == |nodes|
    ensures forall i :: 0 <= i < |r| ==> r[i] == nodes[i].(score := LaneAt(pattern, search, loc)[i])
  {
    r := nodes;
    for i := 0 to |pattern|
      invariant |r| == |nodes|
      invariant forall p :: 0 <= p < i ==> r[p] == nodes[p].(score := LaneAt(pattern, search, loc)[p])
      invariant forall p :: i <= p < |r| ==> r[p] == nodes[p]
    {
      assert LaneAt(pattern, search, loc)[i] == LineScore(pattern, search, loc + i, i);
      var l := i + loc;
      if l < 0 || l >= |search| {
        r := r[i := r[i].(score := 0.0)];
      } else {
        var s := MatchLines(pattern[i], search[l]);
        r := r[i := r[i].(score := s)];
      }
    }
  }

  class MatchMatrix {
    const pattern: seq<Line>
    const search: seq<Line>
    /** The largest offset between lanes of successive path nodes. */
    const maxOffset: nat
    /** The search line at which lane 0 starts pattern line 0. */
    var loc: int
    /** The lanes, lane `k` offset by `k` lines from `loc`. */
    const matches: array<seq<Node>>
    /** The lane of the first node of the best path. */
    var firstNode: int

    ghost predicate Valid()
      reads matches
    {
      matches.Length == maxOffset + 1 && forall k :: 0 <= k < matches.Length ==> |matches[k]| == |pattern|
    }

    /** The scores the lanes hold once the window is at `loc`. */
    function Window(): Grid
      reads this
    {
      GridAt(pattern, search, maxOffset, loc)
    }

    /** The window at `loc` is scored and solved, as after `Initialize`. */
    ghost predicate Ready()
      reads this, matches
    {
      && Valid() && |pattern| >= 1
      && Solved(matches[..], |pattern|, Window())
      && firstNode == First(Window(), |pattern|, maxOffset + 1)
    }

    constructor (pattern: seq<Line>, search: seq<Line>, maxOffset: nat := DefaultMaxOffset)
      ensures this.pattern == pattern && this.search == search && this.maxOffset == maxOffset
      ensures Valid() && fresh(matches)
    {
      this.pattern := pattern;
      this.search := search;
      this.maxOffset := maxOffset;
      matches := new seq<Node>[maxOffset + 1];
      new;
      for i := 0 to maxOffset + 1
        invariant forall k :: 0 <= k < i ==> |matches[k]| == |pattern|
      {
        matches[i] := seq(|pattern|, _ => Node(0.0, 0.0, 0));
      }
    }

    /** Scores every lane for the window at `loc` and solves it. */
    method Initialize(loc: int) returns (r: real)
      requires Valid() && |pattern| >= 1
      modifies this, matches
      ensures Ready() && this.loc == loc
      ensures r == MatchScore(pattern, search, maxOffset, loc)
    {
      this.loc := loc;
      ghost var g := Window();
      GridAtSpec(pattern, search, maxOffset, loc);
      for i := 0 to maxOffset + 1
        invariant Valid() && this.loc == loc
        invariant forall k, p :: 0 <= k < i && 0 <= p < |pattern| ==> matches[k][p].score == g[k][p]
      {
        var nodes := Update(matches[i], loc + i, pattern, search);
        assert g[i] == LaneAt(pattern, search, loc + i);
        matches[i] := nodes;
      }
      assert Scored(matches[..], |pattern|, g);
      r := Recalculate(g);
    }

    predicate CanStepForward()
      reads this
    {
      loc < |search| - |pattern| + maxOffset
    }

    predicate CanStepBackward()
      reads this
    {
      loc > -(maxOffset as int)
    }

    /** Slides the window one line forward, reusing the lanes it shares with
      the old window: the result is the window `Initialize(loc + 1)` gives. */
    method StepForward() returns (r: real)
      requires Ready()
      modifies this, matches
      ensures Ready()
      ensures old(CanStepForward()) ==> loc == old(loc) + 1 && r == MatchScore(pattern, search, maxOffset, loc)
      ensures !old(CanStepForward()) ==> r == 0.0 && unchanged(this, matches)
    {
      if !CanStepForward() {
        return 0.0;
      }
      SlideForward();
      GridAtSpec(pattern, search, maxOffset, loc);
      r := Recalculate(Window());
    }

    /** Slides the window one line back, reusing the lanes it shares with
      the old window: the result is the window `Initialize(loc - 1)` gives. */
    method StepBackward() returns (r: real)
      requires Ready()
      modifies this, matches
      ensures Ready()
      ensures old(CanStepBackward()) ==> loc == old(loc) - 1 && r == MatchScore(pattern, search, maxOffset, loc)
      ensures !old(CanStepBackward()) ==> r == 0.0 && unchanged(this, matches)
    {
      if !CanStepBackward() {
        return 0.0;
      }
      SlideBackward();
      GridAtSpec(pattern, search, maxOffset, loc);
      r := Recalculate(Window());
    }

    /** The rescoring half of `StepForward`: the lanes hold the scores of the
      window one line further on. */
    method SlideForward()
      requires Ready()
      modifies this`loc, matches
      ensures Valid() && loc == old(loc) + 1
      ensures Scored(matches[..], |pattern|, Window())
    {
      ghost var before := matches[..];
      assert Scored(before, |pattern|, GridAt(pattern, search, maxOffset, loc));
      var at := loc + 1 + maxOffset;
      var nodes := Update(matches[0], at, pattern, search);
      ShiftDown(nodes);
      ShiftedForward(pattern, search, maxOffset, loc, before, matches[..], nodes);
      loc := loc + 1;
    }

    /** The rescoring half of `StepBackward`. */
    method SlideBackward()
      requires Ready()
      modifies this`loc, matches
      ensures Valid() && loc == old(loc) - 1
      ensures Scored(matches[..], |pattern|, Window())
    {
      ghost var before := matches[..];
      assert Scored(before, |pattern|, GridAt(pattern, search, maxOffset, loc));
      var at := loc - 1;
      var nodes := Update(matches[maxOffset], at, pattern, search);
      ShiftUp(nodes);
      ShiftedBackward(pattern, search, maxOffset, loc, before, matches[..], nodes);
      loc := loc - 1;
    }

    /** The lane move of `StepForward`: every lane but the first moves down
      one, and the freed last lane takes `lane`. */
    method ShiftDown(lane: seq<Node>)
      requires Valid() && |lane| == |pattern|
      modifies matches
      ensures Valid()
      ensures matches[..] == old(matches[..])[1..] + [lane]
    {
      ghost var before := matches[..];
      for i := 1 to maxOffset + 1
        invariant forall k :: 0 <= k < i - 1 ==> matches[k] == before[k + 1]
        invariant forall k :: i - 1 <= k <= maxOffset ==> matches[k] == before[k]
      {
        matches[i - 1] := matches[i];
      }
      matches[maxOffset] := lane;
      assert matches[..] == before[1..] + [lane];
    }

    /** The lane move of `StepBackward`: every lane but the last moves up
      one, and the freed first lane takes `lane`. */
    method ShiftUp(lane: seq<Node>)
      requires Valid() && |lane| == |pattern|
      modifies matches
      ensures Valid()
      ensures matches[..] == [lane] + old(matches[..])[..maxOffset]
    {
      ghost var before := matches[..];
      var i := maxOffset;
      while i > 0
        invariant 0 <= i <= maxOffset
        invariant forall k :: i < k <= maxOffset ==> matches[k] == before[k - 1]
        invariant forall k :: 0 <= k <= i ==> matches[k] == before[k]
      {
        matches[i] := matches[i - 1];
        i := i - 1;
      }
      matches[0] := lane;
      assert matches[..] == [lane] + before[..maxOffset];
    }

    /** Solves the window for the scores `g` the lanes hold: every node gets
      its best path sum and successor, and `firstNode` the best head. */
    method Recalculate(ghost g: Grid) returns (r: real)
      requires Valid() && |pattern| >= 1 && |g| == maxOffset + 1 && Scored(matches[..], |pattern|, g)
      modifies this`firstNode, matches
      ensures Valid() && Solved(matches[..], |pattern|, g) && firstNode == First(g, |pattern|, maxOffset + 1)
      ensures r == Score(g, |pattern|)
    {
      var n := |pattern|;
      SolveTails(g);
      var i := n - 2;
      while i >= 0
        invariant -1 <= i <= n - 2 && Valid() && SolvedFrom(matches[..], n, g, i + 1)
      {
        SolveRow(g, i);
        i := i - 1;
      }
      var maxsum;
      firstNode, maxsum := BestHead(g);
      r := matches[firstNode][0].sum / n as real;
    }

    /** The tail nodes of `Recalculate`: the last pattern line's node in every
      lane ends its path, with sum = score. */
    method SolveTails(ghost g: Grid)
      requires Valid() && |pattern| >= 1 && |g| == maxOffset + 1 && Scored(matches[..], |pattern|, g)
      modifies matches
      ensures Valid() && SolvedFrom(matches[..], |pattern|, g, |pattern| - 1)
    {
      var n := |pattern|;
      for j := 0 to maxOffset + 1
        invariant Valid() && RowUpTo(matches[..], n, g, n - 1, j)
      {
        var node := matches[j][n - 1];
        ghost var before := matches[..];
        matches[j] := matches[j][n - 1 := node.(sum := node.score, next := -1)];
        assert matches[..] == before[j := before[j][n - 1 := Solution(g, n, j, n - 1)]];
        RowStep(before, n, g, n - 1, j);
      }
      RowDone(matches[..], n, g, n - 1);
    }

    /** The head scan of `Recalculate`: the first lane whose head node has
      the greatest sum, and that sum. */
    method BestHead(ghost g: Grid) returns (first: nat, maxsum: real)
      requires Valid() && |pattern| >= 1 && |g| == maxOffset + 1 && Solved(matches[..], |pattern|, g)
      ensures first == First(g, |pattern|, |g|) && maxsum == SumAt(g, |pattern|, 0, first)
      ensures maxsum == matches[first][0].sum
    {
      first := 0;
      maxsum := matches[0][0].sum;
      for k := 1 to maxOffset + 1
        invariant first == First(g, |pattern|, k) && maxsum == SumAt(g, |pattern|, 0, first)
      {
        var sum := matches[k][0].sum;
        if sum > maxsum {
          first := k;
          maxsum := sum;
        }
      }
    }

    /** One row of `Recalculate`: the nodes of pattern line `i` in every lane,
      once every later line is solved. */
    method SolveRow(ghost g: Grid, i: nat)
      requires Valid() && i < |pattern| - 1 && |g| == maxOffset + 1 && SolvedFrom(matches[..], |pattern|, g, i + 1)
      modifies matches
      ensures Valid() && SolvedFrom(matches[..], |pattern|, g, i)
    {
      for j := 0 to maxOffset + 1
        invariant Valid() && RowUpTo(matches[..], |pattern|, g, i, j)
      {
        var maxk, maxsum := BestNext(g, i, j);
        var node := matches[j][i];
        ghost var before := matches[..];
        matches[j] := matches[j][i := node.(sum := maxsum + node.score, next := maxk)];
        assert matches[..] == before[j := before[j][i := Solution(g, |pattern|, j, i)]];
        RowStep(before, |pattern|, g, i, j);
      }
      RowDone(matches[..], |pattern|, g, i);
    }

    /** The inner scan of `Recalculate` for the node of pattern line `i` in
      lane `j`, once every later pattern line is solved. */
    method BestNext(ghost g: Grid, i: nat, j: nat) returns (maxk: int, maxsum: real)
      requires Valid() && Shaped(g, |pattern|) && |g| == maxOffset + 1 && i < |pattern| - 1 && j <= maxOffset
      requires SolvedFrom(matches[..], |pattern|, g, i + 1)
      ensures (maxk, maxsum) == Scan(g, |pattern|, i, j, |g|)
      ensures maxsum + g[j][i] == SumAt(g, |pattern|, i, j) && maxk == NextAt(g, |pattern|, i, j)
    {
      maxk, maxsum := -1, 0.0;
      for k := 0 to maxOffset + 1
        invariant (maxk, maxsum) == Scan(g, |pattern|, i, j, k)
      {
        var l := i + OffsetsToPatternDistance(j, k);
        if l < |pattern| {
          var sum := matches[k][l].sum;
          if k > j {
            sum := sum - 0.5 * (k - j) as real;
          }
          if sum > maxsum {
            maxk := k;
            maxsum := sum;
          }
        }
      }
    }

    /** `Path`: the search line matched to each pattern line on the best
      path, -1 for an unmatched one. */
    method Path() returns (path: seq<int>)
      requires Ready()
      ensures path == MatchPath(pattern, search, maxOffset, loc)
    {
      path := TracePath(matches[..], |pattern|, loc, firstNode, Window());
    }
  }

  /** Every node of `lanes` points to the successor on its best path in `g`. */
  ghost predicate Linked(lanes: seq<seq<Node>>, n: nat, g: Grid) {
    && Shaped(g, n) && |lanes| == |g|
    && (forall k :: 0 <= k < |lanes| ==> |lanes[k]| == n)
    && (forall k, i :: 0 <= k < |lanes| && 0 <= i < n ==> lanes[k][i].next == NextAt(g, n, i, k))
  }

  /** The walk of `Path` along the successors from the head node in lane
      `first`, filling skipped and trailing pattern lines with -1. */
  method TracePath(lanes: seq<seq<Node>>, n: nat, loc: int, first: nat, ghost g: Grid) returns (path: seq<int>)
    requires n >= 1 && Linked(lanes, n, g) && first == First(g, n, |g|)
    ensures path == PathOf(g, n, loc)
  {
    ghost var want := PathOf(g, n, loc);
    var p := new int[n];
    var offset := first;
    var node := lanes[first][0];
    p[0] := loc + offset;
    var i := 0;
    while node.next >= 0
      invariant 0 <= i < n && 0 <= offset < |lanes|
      invariant node == lanes[offset][i]
      invariant forall q :: 0 <= q <= i ==> p[q] == want[q]
      invariant want[i + 1..] == Trail(g, n, loc, i, offset)
      decreases n - i
    {
      var next := node.next;
      var delta := OffsetsToPatternDistance(offset, next);
      var j := i + delta;
      Hop(want, g, n, loc, i, offset, next, j);
      SkipLines(p, i, delta - 1);
      i, offset := j, next;
      node := lanes[offset][i];
      p[i] := loc + i + offset;
    }
    TrailEnd(want, g, n, loc, i, offset);
    SkipLines(p, i, n - 1 - i);
    path := p[..];
  }

  /** The inner loop of `Path`: marks the `count` pattern lines after `i` unmatched. */
  method SkipLines(p: array<int>, i: nat, count: nat)
    requires i + count < p.Length
    modifies p
    ensures forall q :: 0 <= q < p.Length ==> p[q] == if i < q <= i + count then -1 else old(p[q])
  {
    var delta := count + 1;
    var j := i;
    while delta > 1
      invariant 1 <= delta <= count + 1 && j == i + count + 1 - delta
      invariant forall q :: 0 <= q < p.Length ==> p[q] == if i < q <= j then -1 else old(p[q])
    {
      delta := delta - 1;
      j := j + 1;
      p[j] := -1;
    }
  }

  /** Where the node of line `i` has no successor, every later entry of
      `want` is unmatched. */
  lemma TrailEnd(want: seq<int>, g: Grid, n: nat, loc: int, i: nat, o: nat)
    requires Shaped(g, n) && i < n && o < |g| && NextAt(g, n, i, o) < 0
    requires i < |want| && want[i + 1..] == Trail(g, n, loc, i, o)
    ensures forall q :: i < q < |want| ==> want[q] == -1
  {
    forall q | i < q < |want|
      ensures want[q] == -1
    {
      assert want[q] == Trail(g, n, loc, i, o)[q - i - 1];
    }
  }

  /** One hop of `Path`: from the node of line `i` in lane `o` to its
      successor in lane `next`, `delta` lines on. */
  lemma Hop(want: seq<int>, g: Grid, n: nat, loc: int, i: nat, o: nat, next: int, j: int)
    requires Shaped(g, n) && i < n && o < |g| && |want| == n
    requires want[i + 1..] == Trail(g, n, loc, i, o)
    requires next == NextAt(g, n, i, o) && next >= 0 && j == i + OffsetsToPatternDistance(o, next)
    ensures i < j < n && 0 <= next < |g|
    ensures forall q :: i < q < j ==> want[q] == -1
    ensures want[j] == loc + j + next
    ensures want[j + 1..] == Trail(g, n, loc, j, next)
  {
    TrailStep(g, n, loc, i, o);
    Unroll(want, Trail(g, n, loc, i, o), i, j - i);
  }

  /** Where `want[i + 1..]` is a trail whose first `d - 1` entries are
      unmatched, so are the entries of `want` after `i`, up to `i + d`. */
  lemma Unroll(want: seq<int>, t: seq<int>, i: nat, d: nat)
    requires 1 <= d && i + d < |want| && want[i + 1..] == t
    requires forall q :: 0 <= q < d - 1 ==> t[q] == -1
    ensures forall q :: i < q < i + d ==> want[q] == -1
    ensures want[i + d] == t[d - 1] && want[i + d + 1..] == t[d..]
  {
    forall q | i < q < i + d
      ensures want[q] == -1
    {
      assert want[q] == t[q - i - 1];
    }
    assert want[i + d] == t[d - 1];
  }

  /** Moving the window forward: the kept lanes move down one and the new
    last lane holds the scores of the line after the old window. */
  lemma ShiftedForward(pattern: seq<Line>, search: seq<Line>, maxOffset: nat, loc: int,
                       before: seq<seq<Node>>, after: seq<seq<Node>>, lane: seq<Node>)
    requires Scored(before, |pattern|, GridAt(pattern, search, maxOffset, loc))
    requires after == before[1..] + [lane]
    requires |lane| == |pattern|
    requires forall i :: 0 <= i < |lane| ==> lane[i].score == LaneAt(pattern, search, loc + 1 + maxOffset)[i]
    ensures Scored(after, |pattern|, GridAt(pattern, search, maxOffset, loc + 1))
  {
    GridAtSpec(pattern, search, maxOffset, loc + 1);
    forall k, i | 0 <= k <= maxOffset && 0 <= i < |pattern|
      ensures after[k][i].score == GridAt(pattern, search, maxOffset, loc + 1)[k][i]
    {
      GridEntry(pattern, search, maxOffset, loc + 1, k, i);
      if k < maxOffset {
        assert after[k] == before[k + 1];
        GridEntry(pattern, search, maxOffset, loc, k + 1, i);
      } else {
        assert after[k] == lane;
        assert LaneAt(pattern, search, loc + 1 + maxOffset)[i] == LineScore(pattern, search, loc + 1 + maxOffset + i, i);
      }
    }
  }

  /** Moving the window back: the kept lanes move up one and the new first
    lane holds the scores of the line before the old window. */
  lemma ShiftedBackward(pattern: seq<Line>, search: seq<Line>, maxOffset: nat, loc: int,
                        before: seq<seq<Node>>, after: seq<seq<Node>>, lane: seq<Node>)
    requires Scored(before, |pattern|, GridAt(pattern, search, maxOffset, loc))
    requires after == [lane] + before[..maxOffset]
    requires |lane| == |pattern|
    requires forall i :: 0 <= i < |lane| ==> lane[i].score == LaneAt(pattern, search, loc - 1)[i]
    ensures Scored(after, |pattern|, GridAt(pattern, search, maxOffset, loc - 1))
  {
    GridAtSpec(pattern, search, maxOffset, loc - 1);
    forall k, i | 0 <= k <= maxOffset && 0 <= i < |pattern|
      ensures after[k][i].score == GridAt(pattern, search, maxOffset, loc - 1)[k][i]
    {
      GridEntry(pattern, search, maxOffset, loc - 1, k, i);
      if k > 0 {
        assert after[k] == before[k - 1];
        GridEntry(pattern, search, maxOffset, loc, k - 1, i);
      } else {
        assert after[k] == lane;
        assert LaneAt(pattern, search, loc - 1)[i] == LineScore(pattern, search, loc - 1 + i, i);
      }
    }
  }
}
