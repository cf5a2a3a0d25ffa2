/** The search `Patcher.FindMatch` of Patcher.cs runs: two match matrices
    start at the expected window and step apart, one forward and one back,
    and the best window seen wins, each window's score reduced by a penalty
    once the search has gone past the warning distance. */
module MatchSearch {
  import opened Text
  import opened MatchMatrices

  /** `MinScore`: a match below this quality is unacceptably bad. */
  const MinScore: real := 0.5

  /** The penalty at iteration `i`: nothing within the warning distance,
      then a tenth of the score per warning distance travelled. */
  function Penalty(i: nat, warnDist: int): (p: real)
    requires warnDist > 0
    ensures 0.0 <= p
    ensures i < warnDist <==> p == 0.0
  {
    if i < warnDist then 0.0 else 0.1 * (i as real) / (warnDist as real)
  }

  /** The last window start the forward matrix can reach. */
  function Last(pattern: seq<Line>, search: seq<Line>, maxOffset: nat): int {
    |search| - |pattern| + maxOffset
  }

  /** `StepForward`: the new window start and its score, or the old start
      and 0 when the matrix cannot step. */
  function Forward(pattern: seq<Line>, search: seq<Line>, maxOffset: nat, l: int): (int, real)
    requires |pattern| >= 1
  {
    if l < Last(pattern, search, maxOffset) then (l + 1, MatchScore(pattern, search, maxOffset, l + 1))
    else (l, 0.0)
  }

  /** `StepBackward`, likewise towards `-maxOffset`. */
  function Backward(pattern: seq<Line>, search: seq<Line>, maxOffset: nat, l: int): (int, real)
    requires |pattern| >= 1
  {
    if l > -(maxOffset as int) then (l - 1, MatchScore(pattern, search, maxOffset, l - 1))
    else (l, 0.0)
  }

  /** A candidate replaces the best so far only when strictly better. */
  function Keep(best: real, at: Option<int>, score: real, l: int): (real, Option<int>) {
    if score > best then (score, Some(l)) else (best, at)
  }

  /** How far the two matrices still have to go: the loop's variant. */
  function Remaining(pattern: seq<Line>, search: seq<Line>, maxOffset: nat, fl: int, rl: int): nat {
    (if fl < Last(pattern, search, maxOffset) then Last(pattern, search, maxOffset) - fl else 0)
    + (if rl > -(maxOffset as int) then rl + maxOffset else 0)
  }

  /** One iteration of the loop at penalty `penalty`: both matrices step
      and each new window competes with the best so far; the result is the
      two new window starts and the new best. */
  function Round(pattern: seq<Line>, search: seq<Line>, maxOffset: nat, penalty: real,
                 fl: int, rl: int, best: real, at: Option<int>): (int, int, real, Option<int>)
    requires |pattern| >= 1
  {
    var (fl', sf) := Forward(pattern, search, maxOffset, fl);
    var (b1, a1) := Keep(best, at, sf - penalty, fl');
    var (rl', sr) := Backward(pattern, search, maxOffset, rl);
    var (b2, a2) := Keep(b1, a1, sr - penalty, rl');
    (fl', rl', b2, a2)
  }

  /** The stepping loop of `FindMatch` from iteration `i`, the forward
      matrix at `fl` and the reverse one at `rl`: the window start of the
      best match (`None` while nothing has reached `MinScore`) and its
      penalised score. It stops when neither matrix can step, or as soon as
      the best score plus the current penalty exceeds 1. */
  function Search(pattern: seq<Line>, search: seq<Line>, maxOffset: nat, warnDist: int,
                  fl: int, rl: int, i: nat, best: real, at: Option<int>): (Option<int>, real)
    requires |pattern| >= 1 && warnDist > 0
    decreases Remaining(pattern, search, maxOffset, fl, rl)
  {
    if !(fl < Last(pattern, search, maxOffset) || rl > -(maxOffset as int)) then (at, best)
    else
      var penalty := Penalty(i, warnDist);
      var (fl', rl', b, a) := Round(pattern, search, maxOffset, penalty, fl, rl, best, at);
      if b + penalty > 1.0 then (a, b)
      else Search(pattern, search, maxOffset, warnDist, fl', rl', i + 1, b, a)
  }

  /** `FindMatch(loc, pattern)` over `search`: the start of the window whose
      path is returned (`None` for `null`) and the quality reported. The
      window at `loc` is taken when its score is at least `MinScore`. */
  function FindSpec(pattern: seq<Line>, search: seq<Line>, maxOffset: nat, loc: int, warnDist: int): (Option<int>, real)
    requires |pattern| >= 1 && warnDist > 0
  {
    var s := MatchScore(pattern, search, maxOffset, loc);
    var (best, at) := if s >= MinScore then (s, Some(loc)) else (MinScore, None);
    Search(pattern, search, maxOffset, warnDist, loc, loc, 0, best, at)
  }

  /** What the loop keeps: a quality of at least `MinScore`, exactly
      `MinScore` while nothing was found, and otherwise a window whose own
      score is at least the quality (the penalty only lowers it). */
  predicate Bounded(pattern: seq<Line>, search: seq<Line>, maxOffset: nat, best: real, at: Option<int>)
    requires |pattern| >= 1
  {
    && best >= MinScore
    && (at.None? ==> best == MinScore)
    && (at.Some? ==> MatchScore(pattern, search, maxOffset, at.value) >= best)
  }

  /** One candidate keeps the bound: its penalised score is at most its own. */
  lemma KeepBounded(pattern: seq<Line>, search: seq<Line>, maxOffset: nat, best: real, at: Option<int>,
                    l: int, score: real, penalty: real)
    requires |pattern| >= 1 && Bounded(pattern, search, maxOffset, best, at) && penalty >= 0.0
    requires score <= MatchScore(pattern, search, maxOffset, l)
    ensures var (b, a) := Keep(best, at, score - penalty, l);
      Bounded(pattern, search, maxOffset, b, a)
  {
  }

  /** A round keeps the bound. */
  lemma RoundBounded(pattern: seq<Line>, search: seq<Line>, maxOffset: nat, penalty: real,
                     fl: int, rl: int, best: real, at: Option<int>)
    requires |pattern| >= 1 && Bounded(pattern, search, maxOffset, best, at) && penalty >= 0.0
    ensures var (_, _, b, a) := Round(pattern, search, maxOffset, penalty, fl, rl, best, at);
      Bounded(pattern, search, maxOffset, b, a)
  {
    var (fl', sf) := Forward(pattern, search, maxOffset, fl);
    MatchScoreRange(pattern, search, maxOffset, fl');
    KeepBounded(pattern, search, maxOffset, best, at, fl', sf, penalty);
    var (b1, a1) := Keep(best, at, sf - penalty, fl');
    var (rl', sr) := Backward(pattern, search, maxOffset, rl);
    MatchScoreRange(pattern, search, maxOffset, rl');
    KeepBounded(pattern, search, maxOffset, b1, a1, rl', sr, penalty);
  }

  lemma {:induction false} SearchBounded(pattern: seq<Line>, search: seq<Line>, maxOffset: nat, warnDist: int,
                                         fl: int, rl: int, i: nat, best: real, at: Option<int>)
    requires |pattern| >= 1 && warnDist > 0 && Bounded(pattern, search, maxOffset, best, at)
    ensures var (a, b) := Search(pattern, search, maxOffset, warnDist, fl, rl, i, best, at);
      Bounded(pattern, search, maxOffset, b, a)
    decreases Remaining(pattern, search, maxOffset, fl, rl)
  {
    if fl < Last(pattern, search, maxOffset) || rl > -(maxOffset as int) {
      var penalty := Penalty(i, warnDist);
      RoundBounded(pattern, search, maxOffset, penalty, fl, rl, best, at);
      var (fl', rl', b, a) := Round(pattern, search, maxOffset, penalty, fl, rl, best, at);
      if b + penalty <= 1.0 {
        SearchBounded(pattern, search, maxOffset, warnDist, fl', rl', i + 1, b, a);
      }
    }
  }

  /** `FindMatch` reports a quality of at least `MinScore`; it returns a
      path exactly when some window reached it, and that window's own score
      is at least the quality reported, so in particular positive. */
  lemma FindSpecQuality(pattern: seq<Line>, search: seq<Line>, maxOffset: nat, loc: int, warnDist: int)
    requires |pattern| >= 1 && warnDist > 0
    ensures var (at, q) := FindSpec(pattern, search, maxOffset, loc, warnDist);
      && q >= MinScore
      && (at.None? ==> q == MinScore)
      && (at.Some? ==> MatchScore(pattern, search, maxOffset, at.value) >= q > 0.0)
  {
    var s := MatchScore(pattern, search, maxOffset, loc);
    var (best, at) := if s >= MinScore then (s, Some(loc)) else (MinScore, None);
    SearchBounded(pattern, search, maxOffset, warnDist, loc, loc, 0, best, at);
  }

  /** One round of the search, while a matrix can still step: it brings
      both matrices nearer their ends, and either ends the search with its
      best or leaves the rest of the search to do. */
  lemma SearchRound(pattern: seq<Line>, search: seq<Line>, maxOffset: nat, warnDist: int,
                    fl: int, rl: int, i: nat, best: real, at: Option<int>)
    requires |pattern| >= 1 && warnDist > 0
    requires fl < Last(pattern, search, maxOffset) || rl > -(maxOffset as int)
    ensures var penalty := Penalty(i, warnDist);
      var (fl', rl', b, a) := Round(pattern, search, maxOffset, penalty, fl, rl, best, at);
      && Remaining(pattern, search, maxOffset, fl', rl') < Remaining(pattern, search, maxOffset, fl, rl)
      && Search(pattern, search, maxOffset, warnDist, fl, rl, i, best, at) ==
         if b + penalty > 1.0 then (a, b) else Search(pattern, search, maxOffset, warnDist, fl', rl', i + 1, b, a)
  {
  }

  /** Once neither matrix can step, the search ends with what it has. */
  lemma SearchDone(pattern: seq<Line>, search: seq<Line>, maxOffset: nat, warnDist: int,
                   fl: int, rl: int, i: nat, best: real, at: Option<int>)
    requires |pattern| >= 1 && warnDist > 0
    requires fl >= Last(pattern, search, maxOffset) && rl <= -(maxOffset as int)
    ensures Search(pattern, search, maxOffset, warnDist, fl, rl, i, best, at) == (at, best)
  {
  }
}
