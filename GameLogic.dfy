/** The win/draw evaluator: scans the board for a run of `len` identical
    marks and reports the first one found, a draw, or an ongoing game.
    The grid size and the run length are parameters. */
module GameLogic {
  import opened Types

  /** A direction to step in: rows and columns moved per step. */
  datatype Dir = Dir(dr: int, dc: int)

  /** The directions in the order they are tried: horizontal, vertical,
      diagonal down-right, diagonal down-left. */
  const DIRECTIONS: seq<Dir> := [Dir(0, 1), Dir(1, 0), Dir(1, 1), Dir(1, -1)]

  predicate InGrid(size: nat, r: int, c: int)
  {
    0 <= r < size && 0 <= c < size
  }

  /** Row-major indexing stays inside a board of size * size cells. */
  lemma CellIndexInRange(size: nat, r: int, c: int)
    requires InGrid(size, r, c)
    ensures 0 <= r * size + c < size * size
  {
    assert 0 <= r * size;
    assert (r + 1) * size <= size * size by {
      MulMonotone(r + 1, size, size);
    }
  }

  /** The cell at row r and column c: the board's cell r * size + c. */
  function GetCell(board: Board, size: nat, r: int, c: int): (cell: Cell)
    requires |board| == size * size
    requires InGrid(size, r, c)
    ensures 0 <= r * size + c < |board| && cell == board[r * size + c]
  {
    CellIndexInRange(size, r, c);
    board[r * size + c]
  }

  /** Row-major indexing reaches every cell: board index i is the cell at
      row i / size and column i % size. */
  lemma CellOfIndex(board: Board, size: nat, i: nat)
    requires |board| == size * size && i < |board|
    ensures InGrid(size, i / size, i % size)
    ensures GetCell(board, size, i / size, i % size) == board[i]
  {
    var q, m := i / size, i % size;
    assert i == q * size + m;
    if q >= size {
      MulMonotone(size, q, size);
      assert false;
    }
  }

  /** A candidate run: a start cell and an index into DIRECTIONS. */
  datatype Run = Run(row: nat, col: nat, d: nat)

  predicate IsCandidate(size: nat, run: Run)
  {
    InGrid(size, run.row, run.col) && run.d < |DIRECTIONS|
  }

  /** Step k from the start of the run lies on the grid and holds the
      start cell's value. */
  predicate StepMatches(board: Board, size: nat, run: Run, k: int)
    requires |board| == size * size
    requires IsCandidate(size, run)
  {
    var dir := DIRECTIONS[run.d];
    var nr := run.row + dir.dr * k;
    var nc := run.col + dir.dc * k;
    InGrid(size, nr, nc) && GetCell(board, size, nr, nc) == GetCell(board, size, run.row, run.col)
  }

  /** `len` cells from the start, stepping in the run's direction, all lie
      on the grid and all hold the same mark. */
  predicate IsRun(board: Board, size: nat, len: nat, run: Run)
    requires |board| == size * size
  {
    && IsCandidate(size, run)
    && GetCell(board, size, run.row, run.col).Some?
    && forall k :: 0 <= k < len ==> StepMatches(board, size, run, k)
  }

  /** The board indices of the first n cells of a run. */
  function Line(size: nat, n: nat, run: Run): (line: seq<int>)
    requires run.d < |DIRECTIONS|
    ensures |line| == n
  {
    var dir := DIRECTIONS[run.d];
    seq(n, k => (run.row + dir.dr * k) * size + (run.col + dir.dc * k))
  }

  /** Scan order: row first, then column, then direction. */
  predicate Precedes(a: Run, b: Run)
  {
    a.row < b.row || (a.row == b.row && (a.col < b.col || (a.col == b.col && a.d < b.d)))
  }

  /** The first run at or after (r, c, d) in scan order. */
  function ScanFrom(board: Board, size: nat, len: nat, r: nat, c: nat, d: nat): (res: Option<Run>)
    requires |board| == size * size
    ensures res.Some? ==> IsRun(board, size, len, res.value) && !Precedes(res.value, Run(r, c, d))
    decreases size - r, size - c, |DIRECTIONS| - d
  {
    if r >= size then None
    else if c >= size then ScanFrom(board, size, len, r + 1, 0, 0)
    else if d >= |DIRECTIONS| then ScanFrom(board, size, len, r, c + 1, 0)
    else if IsRun(board, size, len, Run(r, c, d)) then Some(Run(r, c, d))
    else ScanFrom(board, size, len, r, c, d + 1)
  }

  /** The meaning of checkWin: the first run in scan order as winner and
      line; otherwise a draw when no cell is empty, else an ongoing game. */
  function Evaluate(board: Board, size: nat, len: nat): (res: WinResult)
    requires |board| == size * size
    ensures res.winner.Some? <==> res.line.Some?
    ensures !(res.winner.Some? && res.isDraw)
    ensures res.line.Some? ==> |res.line.value| == len
  {
    match ScanFrom(board, size, len, 0, 0, 0)
    case Some(run) => WinResult(GetCell(board, size, run.row, run.col), Some(Line(size, len, run)), false)
    case None => WinResult(None, None, None !in board)
  }

  /** The evaluator itself, with the loops, the early exits and the line
      built step by step as in the source. */
  method CheckWin(board: Board, size: nat, len: nat) returns (result: WinResult)
    requires |board| == size * size
    requires 1 <= len
    ensures result == Evaluate(board, size, len)
  {
    ghost var first := ScanFrom(board, size, len, 0, 0, 0);
    for r := 0 to size
      invariant ScanFrom(board, size, len, r, 0, 0) == first
    {
      for c := 0 to size
        invariant ScanFrom(board, size, len, r, c, 0) == first
      {
        var current := GetCell(board, size, r, c);
        if current.None? {
          assert ScanFrom(board, size, len, r, c, 0) == ScanFrom(board, size, len, r, c + 1, 0) by {
            NoRunFromEmpty(board, size, len, r, c);
          }
          continue;
        }
        for d := 0 to |DIRECTIONS|
          invariant ScanFrom(board, size, len, r, c, d) == first
        {
          var dir := DIRECTIONS[d];
          ghost var run := Run(r, c, d);
          var lineIndices := [r * size + c];
          var matched := true;
          var k := 1;
          while k < len
            invariant 1 <= k <= len
            invariant lineIndices == Line(size, k, run)
            invariant forall j :: 0 <= j < k ==> StepMatches(board, size, run, j)
          {
            var nr := r + dir.dr * k;
            var nc := c + dir.dc * k;
            if nr < 0 || nr >= size || nc < 0 || nc >= size {
              assert !StepMatches(board, size, run, k);
              matched := false;
              break;
            }
            if GetCell(board, size, nr, nc) != current {
              assert !StepMatches(board, size, run, k);
              matched := false;
              break;
            }
            lineIndices := lineIndices + [nr * size + nc];
            k := k + 1;
          }
          if matched {
            assert IsRun(board, size, len, run);
            return WinResult(current, Some(lineIndices), false);
          }
          assert !IsRun(board, size, len, run);
        }
      }
    }
    if None !in board {
      return WinResult(None, None, true);
    }
    return WinResult(None, None, false);
  }

  /** An empty cell starts no run in any direction. */
  lemma NoRunFromEmpty(board: Board, size: nat, len: nat, r: nat, c: nat)
    requires |board| == size * size
    requires InGrid(size, r, c) && GetCell(board, size, r, c).None?
    ensures ScanFrom(board, size, len, r, c, 0) == ScanFrom(board, size, len, r, c + 1, 0)
  {
    assert ScanFrom(board, size, len, r, c, 0) == ScanFrom(board, size, len, r, c, 1);
    assert ScanFrom(board, size, len, r, c, 1) == ScanFrom(board, size, len, r, c, 2);
    assert ScanFrom(board, size, len, r, c, 2) == ScanFrom(board, size, len, r, c, 3);
    assert ScanFrom(board, size, len, r, c, 3) == ScanFrom(board, size, len, r, c, 4);
  }

  /** Any run at or after the scan start is found, and nothing after it is
      reported in its place: the scan returns the earliest run. */
  lemma {:induction false} ScanFindsEarliest(board: Board, size: nat, len: nat, r: nat, c: nat, d: nat, q: Run)
    requires |board| == size * size
    requires IsRun(board, size, len, q) && !Precedes(q, Run(r, c, d))
    ensures ScanFrom(board, size, len, r, c, d).Some?
    ensures !Precedes(q, ScanFrom(board, size, len, r, c, d).value)
    decreases size - r, size - c, |DIRECTIONS| - d
  {
    if r < size {
      if c >= size {
        ScanFindsEarliest(board, size, len, r + 1, 0, 0, q);
      } else if d >= |DIRECTIONS| {
        ScanFindsEarliest(board, size, len, r, c + 1, 0, q);
      } else if !IsRun(board, size, len, Run(r, c, d)) {
        ScanFindsEarliest(board, size, len, r, c, d + 1, q);
      }
    }
  }

  /** The run that wins: a run no other run precedes in scan order. */
  ghost predicate IsFirstRun(board: Board, size: nat, len: nat, run: Run)
    requires |board| == size * size
  {
    IsRun(board, size, len, run) && forall q :: IsRun(board, size, len, q) ==> !Precedes(q, run)
  }

  /** A winner is reported exactly when some run exists; it is then the
      mark of the first run in scan order (lowest row, then lowest column,
      then horizontal, vertical, down-right, down-left), the line is that
      run's cells, and the game is not a draw. */
  lemma EvaluateWinner(board: Board, size: nat, len: nat)
    requires |board| == size * size
    ensures var res := Evaluate(board, size, len);
      && (res.winner.Some? <==> exists q :: IsRun(board, size, len, q))
      && (res.winner.Some? ==>
            exists run :: && IsFirstRun(board, size, len, run)
                          && res.winner == GetCell(board, size, run.row, run.col)
                          && res.line == Some(Line(size, len, run))
                          && !res.isDraw)
  {
    var scan := ScanFrom(board, size, len, 0, 0, 0);
    forall q | IsRun(board, size, len, q)
      ensures scan.Some? && !Precedes(q, scan.value)
    {
      ScanFindsEarliest(board, size, len, 0, 0, 0, q);
    }
    if scan.Some? {
      assert IsFirstRun(board, size, len, scan.value);
    }
  }

  /** Without any run the result has no winner and no line, and it is a
      draw exactly when no cell is empty. */
  lemma EvaluateNoRun(board: Board, size: nat, len: nat)
    requires |board| == size * size
    requires forall q :: !IsRun(board, size, len, q)
    ensures Evaluate(board, size, len) == WinResult(None, None, None !in board)
  {
    if ScanFrom(board, size, len, 0, 0, 0).Some? {
      assert false;
    }
  }

  /** The cells of a run: step k is start + k * (dr * size + dc), its row
      and column stay on the grid (a run never wraps past an edge), its
      index lies on the board, and it holds the start's mark. */
  lemma RunLine(board: Board, size: nat, len: nat, run: Run)
    requires |board| == size * size
    requires IsRun(board, size, len, run)
    ensures var dir := DIRECTIONS[run.d];
      forall k :: 0 <= k < len ==>
        && Line(size, len, run)[k] == (run.row * size + run.col) + k * (dir.dr * size + dir.dc)
        && InGrid(size, run.row + dir.dr * k, run.col + dir.dc * k)
        && 0 <= Line(size, len, run)[k] < size * size
        && board[Line(size, len, run)[k]] == GetCell(board, size, run.row, run.col)
  {
    var dir := DIRECTIONS[run.d];
    forall k | 0 <= k < len
      ensures Line(size, len, run)[k] == (run.row * size + run.col) + k * (dir.dr * size + dir.dc)
      ensures InGrid(size, run.row + dir.dr * k, run.col + dir.dc * k)
      ensures 0 <= Line(size, len, run)[k] < size * size
      ensures board[Line(size, len, run)[k]] == GetCell(board, size, run.row, run.col)
    {
      assert StepMatches(board, size, run, k);
      CellIndexInRange(size, run.row + dir.dr * k, run.col + dir.dc * k);
      StepIndex(size, run.row, run.col, dir.dr, dir.dc, k);
    }
  }

  lemma StepIndex(size: int, row: int, col: int, dr: int, dc: int, k: int)
    ensures (row + dr * k) * size + (col + dc * k) == (row * size + col) + k * (dr * size + dc)
  {
  }

  /** A reported line has exactly `len` indices, each on the board and each
      holding the winning mark, which is a real mark. */
  lemma WinningLineCells(board: Board, size: nat, len: nat)
    requires |board| == size * size
    requires Evaluate(board, size, len).winner.Some?
    ensures var res := Evaluate(board, size, len);
      && res.line.Some? && |res.line.value| == len
      && forall k :: 0 <= k < len ==>
           0 <= res.line.value[k] < size * size && board[res.line.value[k]] == res.winner
  {
    var run := ScanFrom(board, size, len, 0, 0, 0).value;
    RunLine(board, size, len, run);
  }

  /** A board with no marks is an ongoing game. */
  lemma EmptyBoardOngoing(size: nat, len: nat)
    requires 0 < size
    ensures Evaluate(seq(size * size, _ => None), size, len) == NO_RESULT
  {
    var board: Board := seq(size * size, _ => None);
    forall q | IsCandidate(size, q) ensures GetCell(board, size, q.row, q.col).None? {
      CellIndexInRange(size, q.row, q.col);
    }
    EvaluateNoRun(board, size, len);
    CellIndexInRange(size, 0, 0);
    assert board[0] == None;
  }

  /** Four X marks at indices 0..3 of an otherwise empty 5x5 board win for X
      with the line [0, 1, 2, 3]. */
  lemma TopRowWins()
    ensures var board := INITIAL_BOARD[0 := Some(X)][1 := Some(X)][2 := Some(X)][3 := Some(X)];
      Evaluate(board, GRID_SIZE, WIN_LENGTH) == WinResult(Some(X), Some([0, 1, 2, 3]), false)
  {
    var board := INITIAL_BOARD[0 := Some(X)][1 := Some(X)][2 := Some(X)][3 := Some(X)];
    var run := Run(0, 0, 0);
    forall k | 0 <= k < WIN_LENGTH
      ensures StepMatches(board, GRID_SIZE, run, k)
    {
    }
    assert IsRun(board, GRID_SIZE, WIN_LENGTH, run);
    assert Line(GRID_SIZE, WIN_LENGTH, run) == [0, 1, 2, 3];
  }

  /** Four X marks at consecutive indices 3..6 of an otherwise empty 5x5
      board sit in two rows; they are no run, and the game goes on. */
  lemma WrappedRowIsNoWin()
    ensures var board := INITIAL_BOARD[3 := Some(X)][4 := Some(X)][5 := Some(X)][6 := Some(X)];
      Evaluate(board, GRID_SIZE, WIN_LENGTH) == NO_RESULT
  {
    var board := INITIAL_BOARD[3 := Some(X)][4 := Some(X)][5 := Some(X)][6 := Some(X)];
    forall q | IsCandidate(GRID_SIZE, q) && GetCell(board, GRID_SIZE, q.row, q.col).Some?
      ensures !StepMatches(board, GRID_SIZE, q, 1) || !StepMatches(board, GRID_SIZE, q, 2)
    {
    }
    EvaluateNoRun(board, GRID_SIZE, WIN_LENGTH);
    assert board[0] == None;
  }
}
