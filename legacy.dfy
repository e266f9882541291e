/**
 * The inline copy of the game logic inside the UI component (src/TicTacToe.tsx,
 * lines 6-115), which predates src/game/rules.ts and src/game/ai.ts.
 *
 * Its `WIN_LINES` and `getEmptyIndices` are the same as the rules engine's and
 * are used from there (`WinLines`, `GetEmptyIndices`).  Its `calculateWinner`
 * walks the table of lines directly and is proved to agree with the rules
 * engine's.  `makeMove` writes the mark without looking at the cell.  The three
 * levels are named "Easy", "Medium" and "Hard"; the hard level runs the search
 * with "X" to move whatever the board says, which is where it differs from the
 * move selector of src/game/ai.ts (see `HardMissesWin`).
 */
module Legacy {
  import opened Options
  import opened Rules
  import opened Ai

  /** `type Level = "Easy" | "Medium" | "Hard"`. */
  datatype Level = Easy | Medium | Hard

  /** `calculateWinner`'s loop over `const [a, b, c] of WIN_LINES`, over the lines still to visit. */
  function WinnerAmong(b: Board, lines: seq<Line>): (r: Option<Mark>)
    ensures r.Some? ==> exists j :: 0 <= j < |lines| && Uniform(b, lines[j], r.value)
  {
    if lines == [] then None
    else if Complete(b, lines[0]) then Some(b[lines[0].a].mark)
    else WinnerAmong(b, lines[1..])
  }

  /** Walking the rest of the table from entry `k` finds what the rules engine's scan from `k` finds. */
  lemma {:induction false} WinnerAmongAgrees(b: Board, k: nat)
    requires k <= |WinLines|
    ensures WinnerAmong(b, WinLines[k..]) == WinnerFrom(b, k)
    decreases |WinLines| - k
  {
    if k < |WinLines| {
      WinnerAmongAgrees(b, k + 1);
      assert WinLines[k..][1..] == WinLines[k + 1..];
    }
  }

  /** `calculateWinner`: the same winner as the rules engine's, on every board. */
  function CalculateWinner(b: Board): (r: Option<Mark>)
    ensures r == Rules.CalculateWinner(b)
  {
    WinnerAmongAgrees(b, 0);
    assert WinLines[0..] == WinLines;
    WinnerAmong(b, WinLines)
  }

  /**
   * `makeMove`: copies the board and writes the mark at `idx`, whatever the cell
   * holds.  On an empty cell this is the rules engine's move.
   */
  method MakeMove(board: Board, idx: int, mark: Mark) returns (next: Board)
    requires 0 <= idx < |board|
    ensures |next| == |board| && next[idx] == Filled(mark)
    ensures forall j :: 0 <= j < |board| && j != idx ==> next[j] == board[j]
    ensures IsEmptyAt(board, idx) ==> next == Place(board, idx, mark)
  {
    var copy := new Cell[|board|](j requires 0 <= j < |board| => board[j]);
    copy[idx] := Filled(mark);
    next := copy[..];
  }

  /**
   * `randomMove`: `empties[Math.floor(Math.random() * empties.length)]`, which is
   * `undefined` (here `None`) when there is no empty cell.  It picks exactly what
   * the easy level of the move selector picks.
   */
  method RandomMove(board: Board, rnd: real) returns (r: Option<nat>)
    requires 0.0 <= rnd < 1.0
    ensures r == ChooseMoveEasy(board, rnd)
    ensures r.None? <==> IsFull(board)
  {
    var empties := GetEmptyIndices(board);
    var k := Pick(rnd, |empties|);
    if 0 <= k < |empties| {
      r := Some(empties[k]);
    } else {
      r := None;
    }
    FullIffNoEmpties(board);
  }

  /**
   * One of the two early-return scans of `heuristicMove`: the first cell of
   * `empties` where `makeMove` with `m` gives `m` the win.
   */
  method ScanForWin(board: Board, empties: seq<nat>, m: Mark) returns (r: Option<nat>)
    requires forall p :: 0 <= p < |empties| ==> IsEmptyAt(board, empties[p])
    ensures r == FirstWinning(board, empties, m)
  {
    var k := 0;
    while k < |empties|
      invariant 0 <= k <= |empties|
      invariant FirstWinning(board, empties, m) == FirstWinning(board, empties[k..], m)
    {
      var next := MakeMove(board, empties[k], m);
      if CalculateWinner(next) == Some(m) {
        return Some(empties[k]);
      }
      assert empties[k..][1..] == empties[k + 1..];
      k := k + 1;
    }
    return None;
  }

  /**
   * The medium choice read in the order of `heuristicMove`, which has no early
   * exit for a full board: on a full board every step falls through to
   * `empties[0]`, which is `undefined`.
   */
  lemma MediumWithoutEarlyExit(b: Board, ai: Mark, rnd: real)
    requires 0.0 <= rnd < 1.0
    ensures var es := EmptyIndices(b);
            var corners := EmptyAmong(b, Corners);
            MediumChoice(b, ai, rnd) ==
              if FirstWinning(b, es, ai).Some? then FirstWinning(b, es, ai)
              else if FirstWinning(b, es, Other(ai)).Some? then FirstWinning(b, es, Other(ai))
              else if IsEmptyAt(b, 4) then Some(4)
              else if |corners| > 0 then Some(corners[Pick(rnd, |corners|)])
              else if |es| > 0 then Some(es[0])
              else None
  {
    FullIffNoEmpties(b);
  }

  /**
   * `heuristicMove`: win, else block, else centre, else a random empty corner,
   * else `empties[0]`.  It has no early exit for a full board, where every step
   * falls through to `empties[0]`, which is `undefined`; so it chooses exactly
   * what the medium level of the move selector chooses.
   */
  method HeuristicMove(board: Board, ai: Mark, rnd: real) returns (r: Option<nat>)
    requires 0.0 <= rnd < 1.0
    ensures r == MediumChoice(board, ai, rnd)
  {
    var human := Other(ai);
    var empties := GetEmptyIndices(board);
    MediumWithoutEarlyExit(board, ai, rnd);

    var win := ScanForWin(board, empties, ai);
    if win.Some? {
      return win;
    }
    var block := ScanForWin(board, empties, human);
    if block.Some? {
      return block;
    }

    if 4 < |board| && board[4] == Empty {
      return Some(4);
    }

    var corners := EmptyAmong(board, Corners);
    if |corners| > 0 {
      return Some(corners[Pick(rnd, |corners|)]);
    }

    if |empties| > 0 {
      return Some(empties[0]);
    }
    return None;
  }

  /**
   * `minimax` of the component: the same alpha-beta search as the move
   * selector's, with `makeMove` for the child boards.  It is proved against the
   * same exhaustive search: fail-soft for any window, and score and move equal
   * to the exhaustive search's for a window wider than every score.
   */
  method Minimax(board: Board, ai: Mark, current: Mark, alpha0: int, beta0: int) returns (res: SearchResult)
    decreases |EmptyIndices(board)|, 2
    ensures Rules.CalculateWinner(board) == Some(ai) ==> res == SearchResult(10, None)
    ensures Rules.CalculateWinner(board).Some? && Rules.CalculateWinner(board) != Some(ai) ==>
              res == SearchResult(-10, None)
    ensures Rules.CalculateWinner(board).None? && IsFull(board) ==> res == SearchResult(0, None)
    ensures Rules.CalculateWinner(board).None? && !IsFull(board) ==> res.move.Some? && IsEmptyAt(board, res.move.value)
    ensures IsOutcome(res.score)
    ensures alpha0 < beta0 ==> FailSoft(alpha0, beta0, res.score, FullMinimax(board, ai, current).score)
    ensures alpha0 < -10 && 10 < beta0 ==> res == FullMinimax(board, ai, current)
  {
    var winner := CalculateWinner(board);
    if winner == Some(ai) {
      return SearchResult(10, None);
    }
    if winner.Some? && winner != Some(ai) {
      return SearchResult(-10, None);
    }

    var empties := GetEmptyIndices(board);
    FullIffNoEmpties(board);
    if |empties| == 0 {
      return SearchResult(0, None);
    }
    InPlayValue(board, ai, current);
    res := SearchMoves(board, ai, current, empties, alpha0, beta0);
  }

  /** The loop of the component's `minimax` over the empty cells, with the early exit once `beta <= alpha`. */
  method SearchMoves(board: Board, ai: Mark, current: Mark, empties: seq<nat>, alpha0: int, beta0: int)
    returns (res: SearchResult)
    requires forall p :: 0 <= p < |empties| ==> IsEmptyAt(board, empties[p])
    requires |empties| > 0
    decreases |EmptyIndices(board)|, 1
    ensures IsOutcome(res.score) && res.move.Some? && res.move.value in empties
    ensures alpha0 < beta0 ==>
              FailSoft(alpha0, beta0, res.score,
                       Fold(ChildValues(board, ai, current, empties), current == ai, empties, |empties|).score)
    ensures alpha0 < -10 && 10 < beta0 ==>
              res == Fold(ChildValues(board, ai, current, empties), current == ai, empties, |empties|)
  {
    var isMax := current == ai;
    var bestMove: Option<nat> := None;
    var bestScore := if isMax then NegInf else PosInf;
    var alpha, beta := alpha0, beta0;
    ghost var vals := ChildValues(board, ai, current, empties);

    var k := 0;
    while k < |empties|
      invariant 0 <= k <= |empties|
      invariant k == 0 ==> bestMove == None && alpha == alpha0 && beta == beta0 &&
                           bestScore == (if isMax then NegInf else PosInf)
      invariant k > 0 ==> IsOutcome(bestScore) && bestMove.Some? && bestMove.value in empties && alpha < beta
      invariant isMax ==> beta == beta0 && (k > 0 ==> alpha == Max(alpha0, bestScore))
      invariant !isMax ==> alpha == alpha0 && (k > 0 ==> beta == Min(beta0, bestScore))
      invariant alpha0 < beta0 ==> FailSoft(alpha0, beta0, bestScore, Fold(vals, isMax, empties, k).score)
      invariant alpha0 < -10 && 10 < beta0 ==> SearchResult(bestScore, bestMove) == Fold(vals, isMax, empties, k)
    {
      var i := empties[k];
      var score := SearchChild(board, ai, current, empties, k, alpha, beta);
      ghost var before := Fold(vals, isMax, empties, k);
      LoopStep(isMax, alpha0, beta0, alpha, beta, k, bestScore, bestMove, before, score, vals[k], i);

      if isMax {
        if score > bestScore {
          bestScore := score;
          bestMove := Some(i);
        }
        alpha := Max(alpha, bestScore);
      } else {
        if score < bestScore {
          bestScore := score;
          bestMove := Some(i);
        }
        beta := Min(beta, bestScore);
      }
      k := k + 1;
      if beta <= alpha {
        if alpha0 < beta0 {
          FoldPrefix(vals, isMax, empties, k, |empties|);
          Cutoff(isMax, alpha0, beta0, alpha, beta, bestScore,
                 Fold(vals, isMax, empties, k).score, Fold(vals, isMax, empties, |empties|).score);
        }
        break;
      }
    }
    res := SearchResult(bestScore, bestMove);
  }

  /**
   * One child of the component's search loop: `minimax(makeMove(board, i,
   * current), ai, other, alpha, beta).score` for the cell `i = empties[k]`,
   * fail-soft against entry `k` of `ChildValues` and exact for a wide window.
   */
  method SearchChild(board: Board, ai: Mark, current: Mark, empties: seq<nat>, k: nat, alpha: int, beta: int)
    returns (score: int)
    requires k < |empties| && IsEmptyAt(board, empties[k])
    decreases |EmptyIndices(board)|, 0
    ensures IsOutcome(score)
    ensures alpha < beta ==> FailSoft(alpha, beta, score, ChildValues(board, ai, current, empties)[k])
    ensures alpha < -10 && 10 < beta ==> score == ChildValues(board, ai, current, empties)[k]
  {
    var i := empties[k];
    var next := MakeMove(board, i, current);
    EmptiesShrink(board, i, current);
    var child := Minimax(next, ai, Other(current), alpha, beta);
    ChildValuesAt(board, ai, current, empties, k);
    score := child.score;
  }

  /**
   * `bestMove`: "Easy" plays `randomMove`, "Medium" plays `heuristicMove`, and
   * "Hard" runs `minimax(board, ai, "X")` and falls back to `heuristicMove` when
   * the search returns no move.  The search is told that "X" moves next,
   * whichever side is actually to move.
   */
  method BestMove(board: Board, ai: Mark, level: Level, rnd: real) returns (r: Option<nat>)
    requires 0.0 <= rnd < 1.0
    ensures level == Easy ==> r == ChooseMoveEasy(board, rnd)
    ensures level == Medium ==> r == MediumChoice(board, ai, rnd)
    ensures level == Hard && FullMinimax(board, ai, X).move.Some? ==> r == FullMinimax(board, ai, X).move
    ensures level == Hard && FullMinimax(board, ai, X).move.None? ==> r == MediumChoice(board, ai, rnd)
    ensures r.None? <==> IsFull(board)
    ensures r.Some? ==> IsEmptyAt(board, r.value)
  {
    if level == Easy {
      r := RandomMove(board, rnd);
      return;
    }
    if level == Medium {
      r := HeuristicMove(board, ai, rnd);
      return;
    }
    var result := Minimax(board, ai, X, NegInf, PosInf);
    if result.move.Some? {
      r := result.move;
    } else {
      r := HeuristicMove(board, ai, rnd);
    }
  }

  /** What cell `i` adds to the list of empty cells. */
  function EmptySlot(b: Board, i: nat): seq<nat>
    requires i < |b|
  {
    if b[i] == Empty then [i] else []
  }

  /** What cell `i` adds to the count of `m`. */
  function MarkSlot(b: Board, i: nat, m: Mark): nat
    requires i < |b|
  {
    if b[i] == Filled(m) then 1 else 0
  }

  /** The empty cells of a nine-cell board, cell by cell. */
  lemma NineEmpties(b: Board)
    requires |b| == 9
    ensures EmptyIndices(b) ==
              EmptySlot(b, 0) + EmptySlot(b, 1) + EmptySlot(b, 2) +
              EmptySlot(b, 3) + EmptySlot(b, 4) + EmptySlot(b, 5) +
              EmptySlot(b, 6) + EmptySlot(b, 7) + EmptySlot(b, 8)
  {
    assert EmptyIndicesBelow(b, 1) == EmptySlot(b, 0);
    assert EmptyIndicesBelow(b, 2) == EmptySlot(b, 0) + EmptySlot(b, 1);
    assert EmptyIndicesBelow(b, 3) == EmptySlot(b, 0) + EmptySlot(b, 1) + EmptySlot(b, 2);
    assert EmptyIndicesBelow(b, 4) ==
           EmptySlot(b, 0) + EmptySlot(b, 1) + EmptySlot(b, 2) +
           EmptySlot(b, 3);
    assert EmptyIndicesBelow(b, 5) ==
           EmptySlot(b, 0) + EmptySlot(b, 1) + EmptySlot(b, 2) +
           EmptySlot(b, 3) + EmptySlot(b, 4);
    assert EmptyIndicesBelow(b, 6) ==
           EmptySlot(b, 0) + EmptySlot(b, 1) + EmptySlot(b, 2) +
           EmptySlot(b, 3) + EmptySlot(b, 4) + EmptySlot(b, 5);
    assert EmptyIndicesBelow(b, 7) ==
           EmptySlot(b, 0) + EmptySlot(b, 1) + EmptySlot(b, 2) +
           EmptySlot(b, 3) + EmptySlot(b, 4) + EmptySlot(b, 5) +
           EmptySlot(b, 6);
    assert EmptyIndicesBelow(b, 8) ==
           EmptySlot(b, 0) + EmptySlot(b, 1) + EmptySlot(b, 2) +
           EmptySlot(b, 3) + EmptySlot(b, 4) + EmptySlot(b, 5) +
           EmptySlot(b, 6) + EmptySlot(b, 7);
    assert EmptyIndicesBelow(b, 9) ==
           EmptySlot(b, 0) + EmptySlot(b, 1) + EmptySlot(b, 2) +
           EmptySlot(b, 3) + EmptySlot(b, 4) + EmptySlot(b, 5) +
           EmptySlot(b, 6) + EmptySlot(b, 7) + EmptySlot(b, 8);
  }

  /** The count of a mark on a nine-cell board, cell by cell. */
  lemma NineCount(b: Board, m: Mark)
    requires |b| == 9
    ensures Count(b, m) ==
              MarkSlot(b, 0, m) + MarkSlot(b, 1, m) + MarkSlot(b, 2, m) +
              MarkSlot(b, 3, m) + MarkSlot(b, 4, m) + MarkSlot(b, 5, m) +
              MarkSlot(b, 6, m) + MarkSlot(b, 7, m) + MarkSlot(b, 8, m)
  {
    assert CountBelow(b, 1, m) == MarkSlot(b, 0, m);
    assert CountBelow(b, 2, m) == MarkSlot(b, 0, m) + MarkSlot(b, 1, m);
    assert CountBelow(b, 3, m) == MarkSlot(b, 0, m) + MarkSlot(b, 1, m) + MarkSlot(b, 2, m);
    assert CountBelow(b, 4, m) ==
           MarkSlot(b, 0, m) + MarkSlot(b, 1, m) + MarkSlot(b, 2, m) +
           MarkSlot(b, 3, m);
    assert CountBelow(b, 5, m) ==
           MarkSlot(b, 0, m) + MarkSlot(b, 1, m) + MarkSlot(b, 2, m) +
           MarkSlot(b, 3, m) + MarkSlot(b, 4, m);
    assert CountBelow(b, 6, m) ==
           MarkSlot(b, 0, m) + MarkSlot(b, 1, m) + MarkSlot(b, 2, m) +
           MarkSlot(b, 3, m) + MarkSlot(b, 4, m) + MarkSlot(b, 5, m);
    assert CountBelow(b, 7, m) ==
           MarkSlot(b, 0, m) + MarkSlot(b, 1, m) + MarkSlot(b, 2, m) +
           MarkSlot(b, 3, m) + MarkSlot(b, 4, m) + MarkSlot(b, 5, m) +
           MarkSlot(b, 6, m);
    assert CountBelow(b, 8, m) ==
           MarkSlot(b, 0, m) + MarkSlot(b, 1, m) + MarkSlot(b, 2, m) +
           MarkSlot(b, 3, m) + MarkSlot(b, 4, m) + MarkSlot(b, 5, m) +
           MarkSlot(b, 6, m) + MarkSlot(b, 7, m);
    assert CountBelow(b, 9, m) ==
           MarkSlot(b, 0, m) + MarkSlot(b, 1, m) + MarkSlot(b, 2, m) +
           MarkSlot(b, 3, m) + MarkSlot(b, 4, m) + MarkSlot(b, 5, m) +
           MarkSlot(b, 6, m) + MarkSlot(b, 7, m) + MarkSlot(b, 8, m);
  }

  /**
   * A position with O to move: X threatens the top row at cell 2, and O wins at
   * once by completing the middle row at cell 5.
   */
  const Trap: Board := [Filled(X), Filled(X), Empty, Filled(O), Filled(O), Empty, Filled(X), Filled(O), Filled(X)]

  /**
   * On `Trap` with the computer playing "O", the hard level of the component
   * searches as if X were to move: it finds X's best cell, 2, and the computer
   * plays "O" there, which does not win, while cell 5 would.  The move
   * selector, which asks `currentTurn`, plays 5.
   */
  lemma HardMissesWin()
    ensures Turn(Trap) == O && Rules.CalculateWinner(Trap).None? && !IsFull(Trap)
    ensures WinsAt(Trap, 5, O) && !WinsAt(Trap, 2, O)
    ensures FullMinimax(Trap, O, X).move == Some(2)
    ensures FullMinimax(Trap, O, Turn(Trap)).move == Some(5)
  {
    NineCount(Trap, X);
    NineCount(Trap, O);
    assert Rules.CalculateWinner(Place(Trap, 5, O)) == Some(O);
    assert Rules.CalculateWinner(Place(Trap, 2, O)).None?;
    TrapSearch(X);
    TrapSearch(O);
    TrapChildren();
    assert Fold([-10, 0], false, [2, 5], 1) == SearchResult(-10, Some(2));
    assert Fold([0, 10], true, [2, 5], 1) == SearchResult(0, Some(2));
  }

  /** The exhaustive search on `Trap` for the computer playing "O", with `m` to move: the loop over cells 2 and 5. */
  lemma TrapSearch(m: Mark)
    ensures Rules.CalculateWinner(Trap).None? && !IsFull(Trap)
    ensures FullMinimax(Trap, O, m) ==
              Fold([ChildValue(Trap, O, m, 2), ChildValue(Trap, O, m, 5)], m == O, [2, 5], 2)
  {
    NineEmpties(Trap);
    assert Rules.CalculateWinner(Trap).None?;
    assert IsEmptyAt(Trap, 2);
    var es := EmptyIndices(Trap);
    assert es == [2, 5];
    InPlayValue(Trap, O, m);
    var vals := ChildValues(Trap, O, m, es);
    ChildValuesAt(Trap, O, m, es, 0);
    ChildValuesAt(Trap, O, m, es, 1);
    assert vals == [ChildValue(Trap, O, m, 2), ChildValue(Trap, O, m, 5)];
  }

  /** `Trap` with both of its empty cells filled: no line is complete, so the game is drawn. */
  const DrawnTrap: Board := [Filled(X), Filled(X), Filled(O), Filled(O), Filled(O), Filled(X), Filled(X), Filled(O), Filled(X)]

  /** The exhaustive values of the four children of `Trap` for the computer playing "O". */
  lemma TrapChildren()
    ensures ChildValue(Trap, O, X, 2) == -10 && ChildValue(Trap, O, X, 5) == 0
    ensures ChildValue(Trap, O, O, 2) == 0 && ChildValue(Trap, O, O, 5) == 10
  {
    assert Rules.CalculateWinner(Place(Trap, 2, X)) == Some(X);
    assert Rules.CalculateWinner(Place(Trap, 5, O)) == Some(O);
    assert Place(Trap, 5, X) == DrawnTrap[2 := Empty];
    assert Place(Trap, 2, O) == DrawnTrap[5 := Empty];
    LastCellDraws(2, O);
    LastCellDraws(5, X);
  }

  /**
   * `DrawnTrap` with cell `i` (2 or 5) still empty and `m`, the mark that fills
   * it, to move: the position is worth 0 to "O".
   */
  lemma LastCellDraws(i: nat, m: Mark)
    requires i == 2 || i == 5
    requires DrawnTrap[i] == Filled(m)
    ensures FullMinimax(DrawnTrap[i := Empty], O, m).score == 0
  {
    var b := DrawnTrap[i := Empty];
    NineEmpties(b);
    NineEmpties(DrawnTrap);
    assert Rules.CalculateWinner(b).None?;
    assert Rules.CalculateWinner(DrawnTrap).None?;
    assert EmptyIndices(b) == [i];
    assert Place(b, i, m) == DrawnTrap;
    InPlayValue(b, O, m);
    ChildValuesAt(b, O, m, [i], 0);
  }
}
