/**
 * The computer's move selector (src/game/ai.ts): three difficulty levels over the
 * rules engine.
 *
 * - easy: a random empty cell;
 * - medium: win, else block, else the centre, else a random empty corner, else
 *   the lowest empty cell;
 * - hard: minimax with alpha-beta pruning and flat terminal scores +10 / -10 / 0.
 *
 * `Math.random()` is a parameter `rnd` in [0, 1); the search's `-Infinity` and
 * `Infinity` are the integers `NegInf` and `PosInf`, which lie below and above
 * every score the search can produce, so every comparison comes out the same.
 */
module Ai {
  import opened Options
  import opened Rules

  const NegInf: int := -11
  const PosInf: int := 11

  /** The scores of a finished game for the AI: loss, draw, win. */
  predicate IsOutcome(s: int) {
    s == -10 || s == 0 || s == 10
  }

  /** What the search returns: `{ score, move }`, with `move` null on a finished board. */
  datatype SearchResult = SearchResult(score: int, move: Option<nat>)

  function Max(a: int, b: int): int { if a >= b then a else b }
  function Min(a: int, b: int): int { if a <= b then a else b }

  /** `Math.floor(rnd * n)` for a value `rnd` of `Math.random()`: an index into a list of length `n`. */
  function Pick(rnd: real, n: nat): (k: int)
    requires 0.0 <= rnd < 1.0
    ensures n > 0 ==> 0 <= k < n
  {
    assert n > 0 ==> rnd * n as real < n as real by {
      if n > 0 {
        assert (1.0 - rnd) * n as real > 0.0;
      }
    }
    (rnd * n as real).Floor
  }

  /** Every index below `n` is drawn by some value of `Math.random()`. */
  lemma PickReaches(k: nat, n: nat)
    requires k < n
    ensures exists rnd: real :: 0.0 <= rnd < 1.0 && Pick(rnd, n) == k
  {
    var rnd := k as real / n as real;
    assert rnd * n as real == k as real;
    assert Pick(rnd, n) == k;
  }

  // ---------------------------------------------------------------------------
  // easy

  /** `chooseMoveEasy`: a random element of the empty indices, or null when there is none. */
  function ChooseMoveEasy(b: Board, rnd: real): (r: Option<nat>)
    requires 0.0 <= rnd < 1.0
    ensures r.None? <==> IsFull(b)
    ensures r.Some? ==> IsEmptyAt(b, r.value)
  {
    FullIffNoEmpties(b);
    var empties := EmptyIndices(b);
    EmptiesExactly(b);
    if |empties| == 0 then None
    else Some(empties[Pick(rnd, |empties|)])
  }

  /** Every empty cell is the easy move for some value of `Math.random()`. */
  lemma EasyReachesEveryEmpty(b: Board, i: int)
    requires IsEmptyAt(b, i)
    ensures exists rnd: real :: 0.0 <= rnd < 1.0 && ChooseMoveEasy(b, rnd) == Some(i)
  {
    var empties := EmptyIndices(b);
    EmptiesExactly(b);
    assert i in empties;
    var k :| 0 <= k < |empties| && empties[k] == i;
    PickReaches(k, |empties|);
    var rnd :| 0.0 <= rnd < 1.0 && Pick(rnd, |empties|) == k;
    assert ChooseMoveEasy(b, rnd) == Some(i);
  }

  // ---------------------------------------------------------------------------
  // medium

  /** `calculateWinner(withMove(board, i, m)) === m`: playing `m` at `i` wins for `m`. */
  predicate WinsAt(b: Board, i: int, m: Mark): (r: bool)
    ensures r && CalculateWinner(b) != Some(m) ==> IsEmptyAt(b, i)
  {
    CalculateWinner(Place(b, i, m)) == Some(m)
  }

  /** Some empty cell wins for `m` when `m` is played there. */
  ghost predicate HasWinningCell(b: Board, m: Mark) {
    exists i :: IsEmptyAt(b, i) && WinsAt(b, i, m)
  }

  /** The first element of `es` at which playing `m` wins: the early return of the scans in `chooseMoveMedium`. */
  function FirstWinning(b: Board, es: seq<nat>, m: Mark): (r: Option<nat>)
    ensures r.None? <==> forall x :: x in es ==> !WinsAt(b, x, m)
    ensures r.Some? ==> r.value in es && WinsAt(b, r.value, m)
    ensures r.Some? && StrictlyIncreasing(es) ==> forall x :: x in es && x < r.value ==> !WinsAt(b, x, m)
  {
    if es == [] then None
    else if WinsAt(b, es[0], m) then Some(es[0])
    else
      var r := FirstWinning(b, es[1..], m);
      assert r.Some? && StrictlyIncreasing(es) ==> forall x :: x in es && x < r.value ==> !WinsAt(b, x, m) by {
        if r.Some? && StrictlyIncreasing(es) {
          assert StrictlyIncreasing(es[1..]);
          forall x | x in es && x < r.value ensures !WinsAt(b, x, m) {
            if x != es[0] {
              assert x in es[1..];
            }
          }
        }
      }
      r
  }

  /** The corners, in the order `[0, 2, 6, 8]` in which they are filtered. */
  const Corners: seq<nat> := [0, 2, 6, 8]

  /** `cs.filter((i) => board[i] === null)`. */
  function EmptyAmong(b: Board, cs: seq<nat>): (r: seq<nat>)
    ensures forall x :: x in r <==> x in cs && IsEmptyAt(b, x)
    ensures r == [] <==> forall x :: x in cs ==> !IsEmptyAt(b, x)
  {
    if cs == [] then []
    else (if IsEmptyAt(b, cs[0]) then [cs[0]] else []) + EmptyAmong(b, cs[1..])
  }

  /** What `chooseMoveMedium` returns, with `rnd` the value `Math.random()` gives at the corner step. */
  function MediumChoice(b: Board, ai: Mark, rnd: real): (r: Option<nat>)
    requires 0.0 <= rnd < 1.0
    ensures r.None? <==> IsFull(b)
    ensures r.Some? ==> IsEmptyAt(b, r.value)
  {
    FullIffNoEmpties(b);
    var empties := EmptyIndices(b);
    EmptiesExactly(b);
    if |empties| == 0 then None
    else if FirstWinning(b, empties, ai).Some? then FirstWinning(b, empties, ai)
    else if FirstWinning(b, empties, Other(ai)).Some? then FirstWinning(b, empties, Other(ai))
    else if IsEmptyAt(b, 4) then Some(4)
    else
      var corners := EmptyAmong(b, Corners);
      if |corners| > 0 then Some(corners[Pick(rnd, |corners|)])
      else
        assert empties[0] in empties;
        Some(empties[0])
  }

  /**
   * One of the two early-return scans of `chooseMoveMedium`: try `m` on each
   * cell of `empties` in order and return the first that wins for `m`.
   */
  method ScanForWin(board: Board, empties: seq<nat>, m: Mark) returns (r: Option<nat>)
    ensures r == FirstWinning(board, empties, m)
  {
    var k := 0;
    while k < |empties|
      invariant 0 <= k <= |empties|
      invariant FirstWinning(board, empties, m) == FirstWinning(board, empties[k..], m)
    {
      var next := WithMove(board, empties[k], m);
      if CalculateWinner(next) == Some(m) {
        return Some(empties[k]);
      }
      assert empties[k..][1..] == empties[k + 1..];
      k := k + 1;
    }
    return None;
  }

  /** `chooseMoveMedium`: win, else block, else centre, else a random empty corner, else the lowest empty cell. */
  method ChooseMoveMedium(board: Board, ai: Mark, rnd: real) returns (r: Option<nat>)
    requires 0.0 <= rnd < 1.0
    ensures r == MediumChoice(board, ai, rnd)
  {
    var human := Other(ai);
    var empties := GetEmptyIndices(board);
    if |empties| == 0 {
      return None;
    }

    var win := ScanForWin(board, empties, ai);
    if win.Some? {
      return win;
    }
    var block := ScanForWin(board, empties, human);
    if block.Some? {
      return block;
    }

    if 4 < |board| && board[4] == Empty {
      return Some(4);
    }

    var corners := EmptyAmong(board, Corners);
    if |corners| > 0 {
      return Some(corners[Pick(rnd, |corners|)]);
    }

    return Some(empties[0]);
  }

  /** Medium takes an immediate win when there is one, at the lowest winning cell. */
  lemma MediumTakesWin(b: Board, ai: Mark, rnd: real, i: int)
    requires 0.0 <= rnd < 1.0
    requires IsEmptyAt(b, i) && WinsAt(b, i, ai)
    ensures var r := MediumChoice(b, ai, rnd);
            r.Some? && IsEmptyAt(b, r.value) && WinsAt(b, r.value, ai) && r.value <= i
  {
    var empties := EmptyIndices(b);
    EmptiesExactly(b);
    assert i in empties;
  }

  /** Unable to win, medium blocks the opponent's immediate win, at the lowest such cell. */
  lemma MediumBlocks(b: Board, ai: Mark, rnd: real, i: int)
    requires 0.0 <= rnd < 1.0
    requires !HasWinningCell(b, ai)
    requires IsEmptyAt(b, i) && WinsAt(b, i, Other(ai))
    ensures var r := MediumChoice(b, ai, rnd);
            r.Some? && IsEmptyAt(b, r.value) && WinsAt(b, r.value, Other(ai)) && r.value <= i
  {
    var empties := EmptyIndices(b);
    EmptiesExactly(b);
    assert i in empties;
    assert FirstWinning(b, empties, ai).None? by {
      forall x | x in empties ensures !WinsAt(b, x, ai) {
        assert IsEmptyAt(b, x);
      }
    }
  }

  /** With nothing to win or block, medium plays the centre if it is empty. */
  lemma MediumTakesCentre(b: Board, ai: Mark, rnd: real)
    requires 0.0 <= rnd < 1.0
    requires !HasWinningCell(b, ai) && !HasWinningCell(b, Other(ai))
    requires IsEmptyAt(b, 4)
    ensures MediumChoice(b, ai, rnd) == Some(4)
  {
    var empties := EmptyIndices(b);
    EmptiesExactly(b);
    assert 4 in empties;
    NothingToWin(b, empties, ai);
    NothingToWin(b, empties, Other(ai));
  }

  lemma NothingToWin(b: Board, empties: seq<nat>, m: Mark)
    requires empties == EmptyIndices(b)
    requires !HasWinningCell(b, m)
    ensures FirstWinning(b, empties, m).None?
  {
    EmptiesExactly(b);
    forall x | x in empties ensures !WinsAt(b, x, m) {
      assert IsEmptyAt(b, x);
    }
  }

  /**
   * With nothing to win or block and the centre taken, medium plays an empty
   * corner, and each empty corner is played for some value of `Math.random()`.
   */
  lemma MediumTakesCorner(b: Board, ai: Mark, rnd: real, c: nat)
    requires 0.0 <= rnd < 1.0
    requires !HasWinningCell(b, ai) && !HasWinningCell(b, Other(ai))
    requires !IsEmptyAt(b, 4)
    requires c in Corners && IsEmptyAt(b, c)
    ensures var r := MediumChoice(b, ai, rnd);
            r.Some? && r.value in Corners && IsEmptyAt(b, r.value)
    ensures exists rnd': real :: 0.0 <= rnd' < 1.0 && MediumChoice(b, ai, rnd') == Some(c)
  {
    var empties := EmptyIndices(b);
    EmptiesExactly(b);
    assert c in empties;
    NothingToWin(b, empties, ai);
    NothingToWin(b, empties, Other(ai));
    var corners := EmptyAmong(b, Corners);
    assert c in corners;
    var k :| 0 <= k < |corners| && corners[k] == c;
    PickReaches(k, |corners|);
    var rnd' :| 0.0 <= rnd' < 1.0 && Pick(rnd', |corners|) == k;
    assert MediumChoice(b, ai, rnd') == Some(c);
  }

  /** With nothing to win or block and centre and corners taken, medium plays the lowest empty cell. */
  lemma MediumTakesLowestEmpty(b: Board, ai: Mark, rnd: real)
    requires 0.0 <= rnd < 1.0
    requires !HasWinningCell(b, ai) && !HasWinningCell(b, Other(ai))
    requires !IsEmptyAt(b, 4) && forall c :: c in Corners ==> !IsEmptyAt(b, c)
    requires !IsFull(b)
    ensures var r := MediumChoice(b, ai, rnd);
            r.Some? && IsEmptyAt(b, r.value) && forall j :: 0 <= j < r.value ==> !IsEmptyAt(b, j)
  {
    var empties := EmptyIndices(b);
    EmptiesExactly(b);
    FullIffNoEmpties(b);
    NothingToWin(b, empties, ai);
    NothingToWin(b, empties, Other(ai));
    assert EmptyAmong(b, Corners) == [];
    forall j | 0 <= j < empties[0] ensures j !in empties {
    }
  }

  // ---------------------------------------------------------------------------
  // hard

  /** Whether a child's score replaces the best so far: strictly greater for the maximiser, strictly smaller otherwise. */
  predicate Improves(isMax: bool, score: int, best: int) {
    if isMax then score > best else score < best
  }

  /**
   * The search loop without pruning after the first `k` moves of `es`, whose
   * child values are `vals`: the best value so far and its move, replaced only
   * by a strictly better value.
   */
  function Fold(vals: seq<int>, isMax: bool, es: seq<nat>, k: nat): (r: SearchResult)
    requires k <= |es| == |vals|
    ensures r.move.Some? ==> r.move.value in es
  {
    if k == 0 then SearchResult(if isMax then NegInf else PosInf, None)
    else
      var acc := Fold(vals, isMax, es, k - 1);
      assert es[k - 1] in es;
      if Improves(isMax, vals[k - 1], acc.score) then SearchResult(vals[k - 1], Some(es[k - 1])) else acc
  }

  /**
   * Exhaustive minimax without pruning: the value of board `b` for `ai` with
   * `cur` to move, and the move the search loop keeps.  This is the reference
   * the pruned search is proved against.
   */
  function FullMinimax(b: Board, ai: Mark, cur: Mark): (r: SearchResult)
    decreases |EmptyIndices(b)|, 2
    ensures IsOutcome(r.score)
    ensures r.move.None? <==> CalculateWinner(b).Some? || IsFull(b)
    ensures r.move.Some? ==> IsEmptyAt(b, r.move.value)
  {
    var winner := CalculateWinner(b);
    if winner == Some(ai) then SearchResult(10, None)
    else if winner.Some? then SearchResult(-10, None)
    else
      FullIffNoEmpties(b);
      EmptiesExactly(b);
      var empties := EmptyIndices(b);
      if |empties| == 0 then SearchResult(0, None)
      else
        var vals := ChildValues(b, ai, cur, empties);
        FoldOutcome(vals, cur == ai, empties, |empties|);
        Fold(vals, cur == ai, empties, |empties|)
  }

  /** The exhaustive values of the children for the moves `es`, in order. */
  function ChildValues(b: Board, ai: Mark, cur: Mark, es: seq<nat>): (vals: seq<int>)
    decreases |EmptyIndices(b)|, 1, |es|
    ensures |vals| == |es|
    ensures forall p :: 0 <= p < |vals| ==> IsOutcome(vals[p])
  {
    if es == [] then [] else [ChildValue(b, ai, cur, es[0])] + ChildValues(b, ai, cur, es[1..])
  }

  lemma {:induction false} ChildValuesAt(b: Board, ai: Mark, cur: Mark, es: seq<nat>, p: nat)
    requires p < |es|
    ensures ChildValues(b, ai, cur, es)[p] == ChildValue(b, ai, cur, es[p])
    decreases p
  {
    if p > 0 {
      ChildValuesAt(b, ai, cur, es[1..], p - 1);
    }
  }

  /**
   * The exhaustive value of the board after `cur` plays at the empty cell `i`,
   * with the other mark to move (a draw for a cell that is not empty, which the
   * search never asks about).
   */
  function ChildValue(b: Board, ai: Mark, cur: Mark, i: nat): (t: int)
    decreases |EmptyIndices(b)|, 0
    ensures IsOutcome(t)
  {
    if IsEmptyAt(b, i) then
      EmptiesShrink(b, i, cur);
      FullMinimax(Place(b, i, cur), ai, Other(cur)).score
    else 0
  }

  /** The search loop over outcomes keeps an outcome once it has seen a move. */
  lemma {:induction false} FoldOutcome(vals: seq<int>, isMax: bool, es: seq<nat>, k: nat)
    requires k <= |es| == |vals|
    requires forall p :: 0 <= p < |vals| ==> IsOutcome(vals[p])
    ensures k > 0 ==> IsOutcome(Fold(vals, isMax, es, k).score) && Fold(vals, isMax, es, k).move.Some?
  {
    if k > 1 {
      FoldOutcome(vals, isMax, es, k - 1);
    }
  }

  /** On a board still in play, the exhaustive search is the search loop over every empty cell. */
  lemma InPlayValue(b: Board, ai: Mark, cur: Mark)
    requires CalculateWinner(b).None? && !IsFull(b)
    ensures var es := EmptyIndices(b);
            FullMinimax(b, ai, cur) == Fold(ChildValues(b, ai, cur, es), cur == ai, es, |es|)
  {
    FullIffNoEmpties(b);
  }

  /**
   * The fail-soft relation between a score `v` returned for the window
   * (`alpha`, `beta`) and the exact value `t`: a score below `beta` is an upper
   * bound, a score above `alpha` a lower bound, so one strictly inside is exact.
   */
  predicate FailSoft(alpha: int, beta: int, v: int, t: int) {
    (v < beta ==> t <= v) && (v > alpha ==> t >= v)
  }

  /**
   * `minimax`: recursive alpha-beta search.  A finished board scores +10, -10 or
   * 0 with no move; otherwise the search loop over the empty cells decides.
   * The score is fail-soft against the exhaustive search, and with a window
   * wider than every score (the default `-Infinity`, `Infinity`) score and move
   * both equal the exhaustive search's.
   */
  method Minimax(board: Board, ai: Mark, current: Mark, alpha0: int, beta0: int) returns (res: SearchResult)
    decreases |EmptyIndices(board)|, 2
    ensures CalculateWinner(board) == Some(ai) ==> res == SearchResult(10, None)
    ensures CalculateWinner(board).Some? && CalculateWinner(board) != Some(ai) ==> res == SearchResult(-10, None)
    ensures CalculateWinner(board).None? && IsFull(board) ==> res == SearchResult(0, None)
    ensures CalculateWinner(board).None? && !IsFull(board) ==> res.move.Some? && IsEmptyAt(board, res.move.value)
    ensures IsOutcome(res.score)
    ensures alpha0 < beta0 ==> FailSoft(alpha0, beta0, res.score, FullMinimax(board, ai, current).score)
    ensures alpha0 < -10 && 10 < beta0 ==> res == FullMinimax(board, ai, current)
  {
    var winner := CalculateWinner(board);
    if winner == Some(ai) {
      return SearchResult(10, None);
    }
    if winner.Some? && winner != Some(ai) {
      return SearchResult(-10, None);
    }

    var empties := GetEmptyIndices(board);
    FullIffNoEmpties(board);
    if |empties| == 0 {
      return SearchResult(0, None);
    }
    InPlayValue(board, ai, current);
    res := SearchMoves(board, ai, current, empties, alpha0, beta0);
  }

  /**
   * The loop of `minimax` over the empty cells `empties`: it keeps `bestScore`,
   * `bestMove`, `alpha` and `beta`, and leaves early once `beta <= alpha`.
   * Its result is fail-soft against the loop without pruning, and equal to it
   * for a window wider than every score.
   */
  method SearchMoves(board: Board, ai: Mark, current: Mark, empties: seq<nat>, alpha0: int, beta0: int)
    returns (res: SearchResult)
    requires forall p :: 0 <= p < |empties| ==> IsEmptyAt(board, empties[p])
    requires |empties| > 0
    decreases |EmptyIndices(board)|, 1
    ensures IsOutcome(res.score) && res.move.Some? && res.move.value in empties
    ensures alpha0 < beta0 ==>
              FailSoft(alpha0, beta0, res.score,
                       Fold(ChildValues(board, ai, current, empties), current == ai, empties, |empties|).score)
    ensures alpha0 < -10 && 10 < beta0 ==>
              res == Fold(ChildValues(board, ai, current, empties), current == ai, empties, |empties|)
  {
    var isMax := current == ai;
    var bestMove: Option<nat> := None;
    var bestScore := if isMax then NegInf else PosInf;
    var alpha, beta := alpha0, beta0;
    ghost var vals := ChildValues(board, ai, current, empties);

    var k := 0;
    while k < |empties|
      invariant 0 <= k <= |empties|
      invariant k == 0 ==> bestMove == None && alpha == alpha0 && beta == beta0 &&
                           bestScore == (if isMax then NegInf else PosInf)
      invariant k > 0 ==> IsOutcome(bestScore) && bestMove.Some? && bestMove.value in empties && alpha < beta
      invariant isMax ==> beta == beta0 && (k > 0 ==> alpha == Max(alpha0, bestScore))
      invariant !isMax ==> alpha == alpha0 && (k > 0 ==> beta == Min(beta0, bestScore))
      invariant alpha0 < beta0 ==> FailSoft(alpha0, beta0, bestScore, Fold(vals, isMax, empties, k).score)
      invariant alpha0 < -10 && 10 < beta0 ==> SearchResult(bestScore, bestMove) == Fold(vals, isMax, empties, k)
    {
      var i := empties[k];
      var score := SearchChild(board, ai, current, empties, k, alpha, beta);
      ghost var before := Fold(vals, isMax, empties, k);
      LoopStep(isMax, alpha0, beta0, alpha, beta, k, bestScore, bestMove, before, score, vals[k], i);

      if isMax {
        if score > bestScore {
          bestScore := score;
          bestMove := Some(i);
        }
        alpha := Max(alpha, bestScore);
      } else {
        if score < bestScore {
          bestScore := score;
          bestMove := Some(i);
        }
        beta := Min(beta, bestScore);
      }
      k := k + 1;
      if beta <= alpha {
        if alpha0 < beta0 {
          FoldPrefix(vals, isMax, empties, k, |empties|);
          Cutoff(isMax, alpha0, beta0, alpha, beta, bestScore,
                 Fold(vals, isMax, empties, k).score, Fold(vals, isMax, empties, |empties|).score);
        }
        break;
      }
    }
    res := SearchResult(bestScore, bestMove);
  }

  /**
   * One child of the search loop: `minimax(withMove(board, i, current), ai,
   * other, alpha, beta).score` for the cell `i = empties[k]`.  The score is
   * fail-soft against the child's exhaustive value (entry `k` of
   * `ChildValues`), and exact for a window wider than every score.
   */
  method SearchChild(board: Board, ai: Mark, current: Mark, empties: seq<nat>, k: nat, alpha: int, beta: int)
    returns (score: int)
    requires k < |empties| && IsEmptyAt(board, empties[k])
    decreases |EmptyIndices(board)|, 0
    ensures IsOutcome(score)
    ensures alpha < beta ==> FailSoft(alpha, beta, score, ChildValues(board, ai, current, empties)[k])
    ensures alpha < -10 && 10 < beta ==> score == ChildValues(board, ai, current, empties)[k]
  {
    var i := empties[k];
    var next := WithMove(board, i, current);
    EmptiesShrink(board, i, current);
    var child := Minimax(next, ai, Other(current), alpha, beta);
    ChildValuesAt(board, ai, current, empties, k);
    score := child.score;
  }

  /**
   * One turn of the loop of `minimax` keeps its invariants: `bestScore` and
   * `bestMove` after the child scored `v` (exact value `t`) are fail-soft
   * against, and for a wide window equal to, the loop without pruning after the
   * same child; the window keeps its shape, and a wide window is never cut.
   */
  lemma LoopStep(isMax: bool, alpha0: int, beta0: int, alpha: int, beta: int, k: nat,
                 best: int, move: Option<nat>, spec: SearchResult, v: int, t: int, i: nat)
    requires k == 0 ==> move == None && alpha == alpha0 && beta == beta0 &&
                        best == (if isMax then NegInf else PosInf) && spec.score == best
    requires k > 0 ==> IsOutcome(best) && move.Some? && alpha < beta
    requires isMax ==> beta == beta0 && (k > 0 ==> alpha == Max(alpha0, best))
    requires !isMax ==> alpha == alpha0 && (k > 0 ==> beta == Min(beta0, best))
    requires alpha0 < beta0 ==> FailSoft(alpha0, beta0, best, spec.score)
    requires alpha0 < -10 && 10 < beta0 ==> SearchResult(best, move) == spec
    requires IsOutcome(v)
    requires alpha < beta ==> FailSoft(alpha, beta, v, t)
    requires alpha < -10 && 10 < beta ==> v == t
    ensures var best' := if Improves(isMax, v, best) then v else best;
            var move' := if Improves(isMax, v, best) then Some(i) else move;
            var alpha' := if isMax then Max(alpha, best') else alpha;
            var beta' := if isMax then beta else Min(beta, best');
            var spec' := if Improves(isMax, t, spec.score) then SearchResult(t, Some(i)) else spec;
            IsOutcome(best') &&
            (isMax ==> beta' == beta0 && alpha' == Max(alpha0, best')) &&
            (!isMax ==> alpha' == alpha0 && beta' == Min(beta0, best')) &&
            (alpha0 < beta0 ==> FailSoft(alpha0, beta0, best', spec'.score)) &&
            (alpha0 < -10 && 10 < beta0 ==> SearchResult(best', move') == spec' && alpha' < beta')
  {
    if alpha0 < beta0 {
      WindowStep(isMax, alpha0, beta0, alpha, beta, best, spec.score, v, t);
    }
    if alpha0 < -10 && 10 < beta0 {
      WideStep(isMax, alpha0, beta0, alpha, beta, best, v, t);
    }
  }

  /** After a cut-off, the fail-soft relation to the fold of a prefix carries over to the whole fold. */
  lemma Cutoff(isMax: bool, alpha0: int, beta0: int, alpha: int, beta: int, best: int, spec: int, full: int)
    requires alpha0 < beta0 && beta <= alpha
    requires isMax ==> beta == beta0 && alpha <= Max(alpha0, best) && spec <= full
    requires !isMax ==> alpha == alpha0 && beta >= Min(beta0, best) && spec >= full
    requires FailSoft(alpha0, beta0, best, spec)
    ensures FailSoft(alpha0, beta0, best, full)
  {
  }

  /**
   * One turn of the search loop keeps its fail-soft relation to the exhaustive
   * fold: `bestScore` against the fold's value, given the child's relation for
   * the window (`alpha`, `beta`) it was searched with.
   */
  lemma WindowStep(isMax: bool, alpha0: int, beta0: int, alpha: int, beta: int,
                   best: int, spec: int, v: int, t: int)
    requires alpha0 < beta0 && alpha < beta
    requires isMax ==> beta == beta0 && alpha <= Max(alpha0, best)
    requires !isMax ==> alpha == alpha0 && beta >= Min(beta0, best)
    requires FailSoft(alpha0, beta0, best, spec)
    requires FailSoft(alpha, beta, v, t)
    ensures FailSoft(alpha0, beta0, if Improves(isMax, v, best) then v else best,
                                    if Improves(isMax, t, spec) then t else spec)
  {
  }

  /**
   * With a window wider than every score, one turn of the search loop replaces
   * `bestScore` exactly when the exhaustive fold does, and with the same value.
   */
  lemma WideStep(isMax: bool, alpha0: int, beta0: int, alpha: int, beta: int, best: int, v: int, t: int)
    requires alpha0 < -10 && 10 < beta0
    requires isMax ==> beta == beta0 && alpha <= Max(alpha0, best)
    requires !isMax ==> alpha == alpha0 && beta >= Min(beta0, best)
    requires -11 <= best <= 11
    requires -10 <= v <= 10 && FailSoft(alpha, beta, v, t)
    ensures Improves(isMax, v, best) == Improves(isMax, t, best)
    ensures Improves(isMax, v, best) ==> v == t
  {
  }

  /** The maximiser's best over the first `k` moves never beats its best over the first `n >= k` (and dually). */
  lemma {:induction false} FoldPrefix(vals: seq<int>, isMax: bool, es: seq<nat>, k: nat, n: nat)
    requires k <= n <= |es| == |vals|
    ensures isMax ==> Fold(vals, isMax, es, k).score <= Fold(vals, isMax, es, n).score
    ensures !isMax ==> Fold(vals, isMax, es, k).score >= Fold(vals, isMax, es, n).score
    decreases n
  {
    if k < n {
      FoldPrefix(vals, isMax, es, k, n - 1);
    }
  }

  /**
   * The search loop keeps the first move, in the order given, whose value is
   * best: `es[j]` is the move kept, no value among the first `k` is better, and
   * none before position `j` is as good.
   */
  lemma {:induction false} FoldIsFirstBest(vals: seq<int>, isMax: bool, es: seq<nat>, k: nat) returns (j: nat)
    requires 0 < k <= |es| == |vals|
    requires forall p :: 0 <= p < |vals| ==> IsOutcome(vals[p])
    ensures var r := Fold(vals, isMax, es, k);
            j < k && r == SearchResult(vals[j], Some(es[j])) &&
            (forall p :: 0 <= p < k ==> !Improves(isMax, vals[p], r.score)) &&
            (forall p :: 0 <= p < j ==> vals[p] != r.score)
    decreases k
  {
    if k == 1 {
      j := 0;
    } else {
      var j0 := FoldIsFirstBest(vals, isMax, es, k - 1);
      if Improves(isMax, vals[k - 1], Fold(vals, isMax, es, k - 1).score) {
        j := k - 1;
      } else {
        j := j0;
      }
    }
  }

  /**
   * Over strictly increasing cells, the fold's move is the lowest cell whose
   * value is best: no value beats the fold's score, and no lower cell reaches it.
   */
  lemma FoldPicksFirstBest(vals: seq<int>, isMax: bool, es: seq<nat>)
    requires 0 < |es| == |vals| && StrictlyIncreasing(es)
    requires forall p :: 0 <= p < |vals| ==> IsOutcome(vals[p])
    ensures var r := Fold(vals, isMax, es, |es|);
            r.move.Some? &&
            (forall p :: 0 <= p < |es| && es[p] == r.move.value ==> vals[p] == r.score) &&
            (forall p :: 0 <= p < |es| ==> !Improves(isMax, vals[p], r.score)) &&
            (forall p :: 0 <= p < |es| && es[p] < r.move.value ==> vals[p] != r.score)
  {
    var j := FoldIsFirstBest(vals, isMax, es, |es|);
  }

  /** Each empty cell has a position in `EmptyIndices`, where `ChildValues` holds its value. */
  lemma EmptyCellValue(b: Board, ai: Mark, cur: Mark, i: int) returns (p: nat)
    requires IsEmptyAt(b, i)
    ensures p < |EmptyIndices(b)| && EmptyIndices(b)[p] == i
    ensures p < |ChildValues(b, ai, cur, EmptyIndices(b))|
    ensures ChildValues(b, ai, cur, EmptyIndices(b))[p] == ChildValue(b, ai, cur, i)
  {
    EmptiesExactly(b);
    p :| 0 <= p < |EmptyIndices(b)| && EmptyIndices(b)[p] == i;
    ChildValuesAt(b, ai, cur, EmptyIndices(b), p);
  }

  /**
   * On a board still in play, the exhaustive search returns the lowest empty cell
   * whose value is best for the side to move: no empty cell is better for it
   * (greater for `ai`, smaller for the opponent), and no lower one is as good.
   */
  lemma MinimaxMoveIsFirstBest(b: Board, ai: Mark, cur: Mark)
    requires CalculateWinner(b).None? && !IsFull(b)
    ensures var r := FullMinimax(b, ai, cur);
            r.move.Some? && IsEmptyAt(b, r.move.value) &&
            ChildValue(b, ai, cur, r.move.value) == r.score &&
            (forall i :: IsEmptyAt(b, i) ==> !Improves(cur == ai, ChildValue(b, ai, cur, i), r.score)) &&
            (forall i :: IsEmptyAt(b, i) && i < r.move.value ==> ChildValue(b, ai, cur, i) != r.score)
  {
    FullIffNoEmpties(b);
    EmptiesExactly(b);
    var empties := EmptyIndices(b);
    var vals := ChildValues(b, ai, cur, empties);
    InPlayValue(b, ai, cur);
    FoldPicksFirstBest(vals, cur == ai, empties);
    var r := FullMinimax(b, ai, cur);
    forall i | IsEmptyAt(b, i)
      ensures !Improves(cur == ai, ChildValue(b, ai, cur, i), r.score)
      ensures i <= r.move.value ==> (ChildValue(b, ai, cur, i) == r.score <==> i == r.move.value)
    {
      var p := EmptyCellValue(b, ai, cur, i);
    }
    var q := EmptyCellValue(b, ai, cur, r.move.value);
  }

  /** `chooseMoveHard`: the search from the current board, with the side to move from `currentTurn`. */
  method ChooseMoveHard(board: Board, ai: Mark) returns (r: Option<nat>)
    ensures r == FullMinimax(board, ai, Turn(board)).move
    ensures r.None? <==> CalculateWinner(board).Some? || IsFull(board)
    ensures r.Some? ==> IsEmptyAt(board, r.value)
  {
    var turn := CurrentTurn(board);
    var result := Minimax(board, ai, turn, NegInf, PosInf);
    r := result.move;
  }

  /**
   * When it is the AI's turn on a board still in play, the hard move is worth as
   * much to the AI as any empty cell, so an immediate win is never thrown away.
   */
  lemma HardMoveIsBestForAi(b: Board, ai: Mark, i: int)
    requires Turn(b) == ai && CalculateWinner(b).None? && !IsFull(b)
    requires IsEmptyAt(b, i)
    ensures var m := FullMinimax(b, ai, Turn(b)).move;
            m.Some? && IsEmptyAt(b, m.value) && ChildValue(b, ai, ai, i) <= ChildValue(b, ai, ai, m.value)
    ensures WinsAt(b, i, ai) ==> ChildValue(b, ai, ai, FullMinimax(b, ai, Turn(b)).move.value) == 10
  {
    MinimaxMoveIsFirstBest(b, ai, ai);
    if WinsAt(b, i, ai) {
      EmptiesShrink(b, i, ai);
      assert ChildValue(b, ai, ai, i) == 10;
    }
  }

  /**
   * `selectAiMove`: dispatch on the level; a level other than "easy", "medium" or
   * "hard" is played as "medium".
   */
  method SelectAiMove(board: Board, ai: Mark, level: string, rnd: real) returns (r: Option<nat>)
    requires 0.0 <= rnd < 1.0
    ensures level == "easy" ==> r == ChooseMoveEasy(board, rnd)
    ensures level == "hard" ==> r == FullMinimax(board, ai, Turn(board)).move
    ensures level != "easy" && level != "hard" ==> r == MediumChoice(board, ai, rnd)
    ensures level != "hard" ==> (r.None? <==> IsFull(board))
    ensures r.Some? ==> IsEmptyAt(board, r.value)
  {
    if level == "easy" {
      r := ChooseMoveEasy(board, rnd);
    } else if level == "medium" {
      r := ChooseMoveMedium(board, ai, rnd);
    } else if level == "hard" {
      r := ChooseMoveHard(board, ai);
    } else {
      r := ChooseMoveMedium(board, ai, rnd);
    }
  }
}
