/**
 * The rules engine of the game (src/game/rules.ts): boards, marks, the table of
 * winning lines, winner detection, the winning-line lookup, fullness, the list of
 * empty cells, whose turn it is, and copy-on-write move application.
 *
 * A board is an array of cells indexed row-major (0, 1, 2 is the top row).  The
 * game always uses nine cells, but the source's type admits any length, so the
 * model does too: reading past the end yields JavaScript's `undefined`, which is
 * neither `null` nor a mark, and the predicates below treat such a read that way.
 */
module Rules {
  import opened Options

  /** A player's symbol: "X" or "O". */
  datatype Mark = X | O

  /** A cell: `null` (Empty) or one of the marks. */
  datatype Cell = Empty | Filled(mark: Mark)

  type Board = seq<Cell>

  /** A winning combination: three cell indices. */
  datatype Line = Line(a: nat, b: nat, c: nat)

  /** The fixed table of winning lines, in scanning order: rows, columns, diagonals. */
  const WinLines: seq<Line> := [
    Line(0, 1, 2), Line(3, 4, 5), Line(6, 7, 8),
    Line(0, 3, 6), Line(1, 4, 7), Line(2, 5, 8),
    Line(0, 4, 8), Line(2, 4, 6)
  ]

  /** The board a new game starts from: nine empty cells. */
  const EmptyBoard: Board := seq(9, _ => Empty)

  /** The opponent's mark (`m === "X" ? "O" : "X"`). */
  function Other(m: Mark): (r: Mark)
    ensures r != m
  {
    if m == X then O else X
  }

  /** `board[i] === null`: false for an index outside the board. */
  predicate IsEmptyAt(b: Board, i: int) {
    0 <= i < |b| && b[i] == Empty
  }

  /** All three cells of line `l` exist and hold mark `m`. */
  predicate Uniform(b: Board, l: Line, m: Mark) {
    l.a < |b| && l.b < |b| && l.c < |b| &&
    b[l.a] == Filled(m) && b[l.b] == Filled(m) && b[l.c] == Filled(m)
  }

  /** The scan's test `v && v === board[b] && v === board[c]` with `v = board[a]`. */
  predicate Complete(b: Board, l: Line) {
    l.a < |b| && b[l.a].Filled? && Uniform(b, l, b[l.a].mark)
  }

  /** Line number `k` is uniformly `m`, and no line from `from` up to it is complete. */
  predicate UniformAfter(b: Board, from: int, k: int, m: Mark) {
    0 <= from <= k < |WinLines| && Uniform(b, WinLines[k], m) &&
    forall j :: from <= j < k ==> !Complete(b, WinLines[j])
  }

  /** Line number `k` is uniformly `m`, and no line before it in the table is complete. */
  predicate FirstUniform(b: Board, k: int, m: Mark) {
    UniformAfter(b, 0, k, m)
  }

  /** No line of the table is complete. */
  predicate NoCompleteLine(b: Board) {
    forall k :: 0 <= k < |WinLines| ==> !Complete(b, WinLines[k])
  }

  /** The scan of `calculateWinner` from table entry `k` on. */
  function WinnerFrom(b: Board, k: nat): Option<Mark>
    requires k <= |WinLines|
    decreases |WinLines| - k
  {
    if k == |WinLines| then None
    else if Complete(b, WinLines[k]) then Some(b[WinLines[k].a].mark)
    else WinnerFrom(b, k + 1)
  }

  /** `calculateWinner`: the mark of the first complete line in table order, if any. */
  function CalculateWinner(b: Board): Option<Mark> {
    WinnerFrom(b, 0)
  }

  /** The scan of `findWinningLine` from table entry `k` on. */
  function LineFrom(b: Board, k: nat): (r: Option<Line>)
    requires k <= |WinLines|
    decreases |WinLines| - k
    ensures r.Some? ==> r.value in WinLines[k..] && Complete(b, r.value)
  {
    if k == |WinLines| then None
    else if Complete(b, WinLines[k]) then Some(WinLines[k])
    else LineFrom(b, k + 1)
  }

  /** `findWinningLine`: the first complete line in table order, if any. */
  function FindWinningLine(b: Board): (r: Option<Line>)
    ensures r.Some? ==> r.value in WinLines && Complete(b, r.value)
  {
    LineFrom(b, 0)
  }

  /** `isFull`: every cell holds a mark. */
  predicate IsFull(b: Board): (r: bool)
    ensures r <==> EmptyIndices(b) == []
  {
    NoEmptyCell(b);
    forall i :: 0 <= i < |b| ==> b[i] != Empty
  }

  /** A board has no empty cell exactly when its list of empty indices is empty. */
  lemma NoEmptyCell(b: Board)
    ensures (forall i :: 0 <= i < |b| ==> b[i] != Empty) <==> EmptyIndices(b) == []
  {
    EmptiesExactly(b);
    if exists i :: 0 <= i < |b| && b[i] == Empty {
      var i :| 0 <= i < |b| && b[i] == Empty;
      assert IsEmptyAt(b, i) && i in EmptyIndices(b);
    }
    if EmptyIndices(b) != [] {
      assert EmptyIndices(b)[0] in EmptyIndices(b);
    }
  }

  predicate StrictlyIncreasing(s: seq<int>) {
    forall i, j :: 0 <= i < j < |s| ==> s[i] < s[j]
  }

  /** The empty indices below `n`, in ascending order. */
  function EmptyIndicesBelow(b: Board, n: nat): seq<nat>
    requires n <= |b|
  {
    if n == 0 then []
    else EmptyIndicesBelow(b, n - 1) + (if b[n - 1] == Empty then [n - 1] else [])
  }

  /** What `getEmptyIndices` returns. */
  function EmptyIndices(b: Board): seq<nat> {
    EmptyIndicesBelow(b, |b|)
  }

  /** The empty indices below `n` are exactly the empty cells below `n`, each listed once, in ascending order. */
  lemma {:induction false} EmptiesBelowExactly(b: Board, n: nat)
    requires n <= |b|
    ensures forall x :: x in EmptyIndicesBelow(b, n) <==> 0 <= x < n && b[x] == Empty
    ensures StrictlyIncreasing(EmptyIndicesBelow(b, n))
  {
    if n > 0 {
      EmptiesBelowExactly(b, n - 1);
      var r := EmptyIndicesBelow(b, n - 1);
      forall i | 0 <= i < |r| ensures r[i] < n - 1 {
        assert r[i] in r;
      }
    }
  }

  /** `getEmptyIndices` lists exactly the empty cells, in ascending order. */
  lemma EmptiesExactly(b: Board)
    ensures forall x :: x in EmptyIndices(b) <==> IsEmptyAt(b, x)
    ensures StrictlyIncreasing(EmptyIndices(b))
  {
    EmptiesBelowExactly(b, |b|);
  }

  /** `getEmptyIndices`: collects the empty indices by pushing them in a loop. */
  method GetEmptyIndices(board: Board) returns (out: seq<nat>)
    ensures out == EmptyIndices(board)
    ensures forall i :: i in out <==> IsEmptyAt(board, i)
    ensures StrictlyIncreasing(out)
  {
    out := [];
    var i := 0;
    while i < |board|
      invariant 0 <= i <= |board|
      invariant out == EmptyIndicesBelow(board, i)
    {
      if board[i] == Empty {
        out := out + [i];
      }
      i := i + 1;
    }
    EmptiesExactly(board);
  }

  /** The number of cells below `n` holding `m`. */
  function CountBelow(b: Board, n: nat, m: Mark): nat
    requires n <= |b|
  {
    if n == 0 then 0
    else CountBelow(b, n - 1, m) + (if b[n - 1] == Filled(m) then 1 else 0)
  }

  function Count(b: Board, m: Mark): nat {
    CountBelow(b, |b|, m)
  }

  /** Whose turn it is: X always starts, so X moves exactly when the counts are equal. */
  function Turn(b: Board): (r: Mark)
    ensures Legal(b) ==> (r == O <==> Count(b, X) == Count(b, O) + 1)
  {
    if Count(b, X) == Count(b, O) then X else O
  }

  /** A position reachable by alternating play from the empty board, as far as counts go. */
  predicate Legal(b: Board) {
    Count(b, X) == Count(b, O) || Count(b, X) == Count(b, O) + 1
  }

  /** `currentTurn`: counts both marks in one loop, then compares the counts. */
  method CurrentTurn(board: Board) returns (r: Mark)
    ensures r == X <==> Count(board, X) == Count(board, O)
    ensures r == Turn(board)
  {
    var x, o := 0, 0;
    var i := 0;
    while i < |board|
      invariant 0 <= i <= |board|
      invariant x == CountBelow(board, i, X) && o == CountBelow(board, i, O)
    {
      var c := board[i];
      if c == Filled(X) {
        x := x + 1;
      } else if c == Filled(O) {
        o := o + 1;
      }
      i := i + 1;
    }
    r := if x == o then X else O;
  }

  /** The board `withMove` returns: `m` placed at `idx` when that cell is empty, else the board itself. */
  function Place(b: Board, idx: int, m: Mark): (r: Board)
    ensures |r| == |b| && !IsEmptyAt(r, idx)
    ensures r == b || IsEmptyAt(b, idx)
  {
    if IsEmptyAt(b, idx) then b[idx := Filled(m)] else b
  }

  /**
   * `withMove`: returns the board unchanged when the cell is occupied or outside
   * the board; otherwise copies it and writes the mark into the copy.
   */
  method WithMove(board: Board, idx: int, mark: Mark) returns (next: Board)
    ensures next == Place(board, idx, mark)
    ensures !IsEmptyAt(board, idx) ==> next == board
    ensures IsEmptyAt(board, idx) ==>
              |next| == |board| && next[idx] == Filled(mark) &&
              forall j :: 0 <= j < |board| && j != idx ==> next[j] == board[j]
  {
    if !(0 <= idx < |board|) || board[idx] != Empty {
      return board;
    }
    var copy := new Cell[|board|](j requires 0 <= j < |board| => board[j]);
    copy[idx] := Filled(mark);
    next := copy[..];
  }

  // ---------------------------------------------------------------------------
  // Properties of the rules

  lemma {:induction false} WinnerFromFinds(b: Board, k: nat)
    requires k <= |WinLines|
    ensures WinnerFrom(b, k).None? <==> forall j :: k <= j < |WinLines| ==> !Complete(b, WinLines[j])
    ensures WinnerFrom(b, k).Some? ==> exists j :: UniformAfter(b, k, j, WinnerFrom(b, k).value)
    decreases |WinLines| - k
  {
    if k < |WinLines| {
      if Complete(b, WinLines[k]) {
        assert UniformAfter(b, k, k, WinnerFrom(b, k).value);
      } else {
        WinnerFromFinds(b, k + 1);
        if WinnerFrom(b, k).Some? {
          var j :| UniformAfter(b, k + 1, j, WinnerFrom(b, k).value);
          assert UniformAfter(b, k, j, WinnerFrom(b, k).value);
        }
      }
    }
  }

  /**
   * `calculateWinner` finds no winner exactly when no line is complete, and finds
   * `m` exactly when the first complete line in table order is uniformly `m`.
   */
  lemma WinnerCharacterised(b: Board, m: Mark)
    ensures CalculateWinner(b).None? <==> NoCompleteLine(b)
    ensures CalculateWinner(b) == Some(m) <==> exists k :: FirstUniform(b, k, m)
  {
    WinnerFromFinds(b, 0);
    var r := CalculateWinner(b);
    if r.Some? {
      var k :| UniformAfter(b, 0, k, r.value);
      assert FirstUniform(b, k, r.value);
    }
    if k :| FirstUniform(b, k, m) {
      assert Complete(b, WinLines[k]);
      var k' :| UniformAfter(b, 0, k', r.value);
      if k < k' {
        assert false;
      } else if k' < k {
        assert false;
      }
      assert b[WinLines[k].a] == Filled(m);
    }
  }

  lemma {:induction false} ScansAgree(b: Board, k: nat)
    requires k <= |WinLines|
    ensures LineFrom(b, k).None? <==> WinnerFrom(b, k).None?
    ensures LineFrom(b, k).Some? ==> LineFrom(b, k).value in WinLines[k..] &&
                                     Uniform(b, LineFrom(b, k).value, WinnerFrom(b, k).value)
    decreases |WinLines| - k
  {
    if k < |WinLines| && !Complete(b, WinLines[k]) {
      ScansAgree(b, k + 1);
      if LineFrom(b, k).Some? {
        var p :| 0 <= p < |WinLines[k + 1..]| && WinLines[k + 1..][p] == LineFrom(b, k).value;
        assert WinLines[k..][p + 1] == LineFrom(b, k).value;
      }
    }
  }

  /**
   * `findWinningLine` finds a line exactly when `calculateWinner` finds a winner;
   * the line is an entry of the table and all three of its cells hold the winner.
   */
  lemma WinningLineAgrees(b: Board)
    ensures FindWinningLine(b).None? <==> CalculateWinner(b).None?
    ensures FindWinningLine(b).Some? ==> FindWinningLine(b).value in WinLines &&
                                         Uniform(b, FindWinningLine(b).value, CalculateWinner(b).value)
  {
    ScansAgree(b, 0);
  }

  /** `isFull` holds exactly when there is no empty index. */
  lemma FullIffNoEmpties(b: Board)
    ensures IsFull(b) <==> EmptyIndices(b) == []
    ensures IsFull(b) <==> forall i :: !IsEmptyAt(b, i)
  {
    EmptiesExactly(b);
    if !IsFull(b) {
      var i :| 0 <= i < |b| && b[i] == Empty;
      assert IsEmptyAt(b, i) && i in EmptyIndices(b);
    }
    if EmptyIndices(b) != [] {
      assert EmptyIndices(b)[0] in EmptyIndices(b);
    }
  }

  lemma {:induction false} EmptiesBelowAfterPlace(b: Board, i: nat, m: Mark, n: nat)
    requires IsEmptyAt(b, i) && n <= |b|
    ensures |EmptyIndicesBelow(Place(b, i, m), n)| == |EmptyIndicesBelow(b, n)| - (if i < n then 1 else 0)
  {
    if n > 0 {
      EmptiesBelowAfterPlace(b, i, m, n - 1);
    }
  }

  /** Placing a mark on an empty cell leaves exactly one empty cell fewer. */
  lemma EmptiesShrink(b: Board, i: int, m: Mark)
    requires IsEmptyAt(b, i)
    ensures |EmptyIndices(Place(b, i, m))| == |EmptyIndices(b)| - 1
  {
    EmptiesBelowAfterPlace(b, i, m, |b|);
  }

  lemma {:induction false} CountBelowAfterPlace(b: Board, i: nat, m: Mark, n: nat, c: Mark)
    requires IsEmptyAt(b, i) && n <= |b|
    ensures CountBelow(Place(b, i, m), n, c) == CountBelow(b, n, c) + (if i < n && c == m then 1 else 0)
  {
    if n > 0 {
      CountBelowAfterPlace(b, i, m, n - 1, c);
    }
  }

  /** Placing `m` on an empty cell adds one `m` and leaves the other mark's count alone. */
  lemma CountAfterPlace(b: Board, i: int, m: Mark)
    requires IsEmptyAt(b, i)
    ensures Count(Place(b, i, m), m) == Count(b, m) + 1
    ensures Count(Place(b, i, m), Other(m)) == Count(b, Other(m))
  {
    CountBelowAfterPlace(b, i, m, |b|, m);
    CountBelowAfterPlace(b, i, m, |b|, Other(m));
  }

  /** On a legal position, playing the side to move on an empty cell hands the turn to the other side. */
  lemma TurnAlternates(b: Board, i: int)
    requires Legal(b) && IsEmptyAt(b, i)
    ensures Turn(Place(b, i, Turn(b))) == Other(Turn(b))
    ensures Legal(Place(b, i, Turn(b)))
  {
    CountAfterPlace(b, i, Turn(b));
  }

  lemma {:induction false} CountBelowOfEmptyBoard(n: nat, m: Mark)
    requires n <= 9
    ensures CountBelow(EmptyBoard, n, m) == 0
  {
    if n > 0 {
      CountBelowOfEmptyBoard(n - 1, m);
    }
  }

  /** A new game has no winner, is not full, has every cell empty, and X to move. */
  lemma EmptyBoardOpens()
    ensures CalculateWinner(EmptyBoard) == None
    ensures !IsFull(EmptyBoard)
    ensures forall i :: IsEmptyAt(EmptyBoard, i) <==> 0 <= i < 9
    ensures Turn(EmptyBoard) == X
  {
    CountBelowOfEmptyBoard(9, X);
    CountBelowOfEmptyBoard(9, O);
    assert EmptyBoard[0] == Empty;
  }

  /** Two moves on distinct empty cells set exactly those two cells. */
  lemma TwoMoves(b: Board, i: int, j: int)
    requires IsEmptyAt(b, i) && IsEmptyAt(b, j) && i != j
    ensures var r := Place(Place(b, i, X), j, O);
            |r| == |b| && r[i] == Filled(X) && r[j] == Filled(O) &&
            forall k :: 0 <= k < |b| && k != i && k != j ==> r[k] == b[k]
  {
  }
}
