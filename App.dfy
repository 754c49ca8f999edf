/** The game session: the board, the turn counter, the match status and the
    last win result, changed by a click on a cell and by a reset. A click
    and the status/win update that follows it form one step here. */
module App {
  import opened Types
  import GameLogic

  /** The number of cells that hold a mark. */
  function Occupied(board: Board): (n: nat)
    ensures n <= |board|
  {
    if board == [] then 0
    else (if board[0].Some? then 1 else 0) + Occupied(board[1..])
  }

  /** A board counts no marks exactly when every cell is empty. */
  lemma {:induction false} OccupiedZero(board: Board)
    ensures Occupied(board) == 0 <==> forall i :: 0 <= i < |board| ==> board[i].None?
  {
    if board != [] {
      OccupiedZero(board[1..]);
      assert forall i :: 1 <= i < |board| ==> board[i] == board[1..][i - 1];
    }
  }

  /** Writing a mark into an empty cell adds one to the count. */
  lemma {:induction false} OccupiedPlace(board: Board, index: nat, m: Mark)
    requires index < |board| && board[index].None?
    ensures Occupied(board[index := Some(m)]) == Occupied(board) + 1
  {
    var placed := board[index := Some(m)];
    if index > 0 {
      assert placed[1..] == board[1..][index - 1 := Some(m)];
      OccupiedPlace(board[1..], index - 1, m);
    } else {
      assert placed[1..] == board[1..];
    }
  }

  /** A board with an empty cell holds fewer marks than cells. */
  lemma {:induction false} OccupiedBelow(board: Board, index: nat)
    requires index < |board|
    ensures board[index].None? ==> Occupied(board) < |board|
  {
    if index > 0 {
      OccupiedBelow(board[1..], index - 1);
    }
  }

  /** True when the result ends the match: a winner or a draw. */
  predicate IsOver(result: WinResult)
  {
    result.winner.Some? || result.isDraw
  }

  class Game {
    var board: Board
    var turnIndex: nat
    var status: GameStatus
    var winResult: WinResult

    /** The session invariant: the board keeps its size, the counter counts
        the marks, an idle match has none, the stored result is always the
        evaluation of the board, and the match is finished exactly when that
        result is a winner or a draw. */
    ghost predicate Valid()
      reads this
    {
      && |board| == GRID_SIZE * GRID_SIZE
      && Occupied(board) == turnIndex
      && (status == Idle ==> turnIndex == 0)
      && winResult == GameLogic.Evaluate(board, GRID_SIZE, WIN_LENGTH)
      && (status == Finished <==> IsOver(winResult))
    }

    /** A fresh session: empty board, first player to move, idle. */
    constructor ()
      ensures Valid()
      ensures board == INITIAL_BOARD && turnIndex == 0 && status == Idle && winResult == NO_RESULT
    {
      board := INITIAL_BOARD;
      turnIndex := 0;
      status := Idle;
      winResult := NO_RESULT;
      new;
      OccupiedZero(INITIAL_BOARD);
      GameLogic.EmptyBoardOngoing(GRID_SIZE, WIN_LENGTH);
    }

    /** The player whose turn it is, derived from the turn counter. */
    function CurrentPlayer(): (p: Player)
      reads this
      ensures p in PLAYERS && p.id == turnIndex % 3
    {
      PLAYERS[turnIndex % 3]
    }

    /** A click on the cell is acted on exactly when the cell is empty and
        the match is not finished. In a valid session the board then holds
        fewer than 25 marks and the stored result is the cleared one. */
    predicate Accepts(index: nat): (ok: bool)
      reads this
      requires index < |board|
      ensures ok <==> board[index].None? && status != Finished
      ensures Valid() && ok ==> turnIndex < |board| && winResult == NO_RESULT
    {
      OccupiedBelow(board, index);
      board[index].None? && status != Finished
    }

    /** A click on a cell. A click on an occupied cell or after the match
        has finished changes nothing. Otherwise the current player's mark is
        written at the index, the turn counter goes up by one, the match is
        playing, and it is finished with the new board's result when that is
        a winner or a draw. */
    method Click(index: nat)
      requires Valid()
      requires index < |board|
      modifies this
      ensures Valid()
      ensures !old(Accepts(index)) ==>
        board == old(board) && turnIndex == old(turnIndex) && status == old(status) && winResult == old(winResult)
      ensures old(Accepts(index)) ==>
        && board == old(board)[index := Some(old(CurrentPlayer()).symbol)]
        && turnIndex == old(turnIndex) + 1
        && winResult == GameLogic.Evaluate(board, GRID_SIZE, WIN_LENGTH)
        && status == (if IsOver(winResult) then Finished else Playing)
    {
      if board[index].Some? || status == Finished {
        return;
      }
      var symbol := CurrentPlayer().symbol;
      OccupiedPlace(board, index, symbol);
      board := board[index := Some(symbol)];
      turnIndex := turnIndex + 1;

      if status == Idle && exists i :: 0 <= i < |board| && board[i].Some? {
        status := Playing;
      }
      assert board[index].Some?;
      var result := GameLogic.CheckWin(board, GRID_SIZE, WIN_LENGTH);
      if result.winner.Some? || result.isDraw {
        winResult := result;
        status := Finished;
      }
    }

    /** Start over: empty board, counter at zero, playing, result cleared. */
    method Reset()
      modifies this
      ensures Valid()
      ensures board == INITIAL_BOARD && turnIndex == 0 && status == Playing && winResult == NO_RESULT
    {
      board := INITIAL_BOARD;
      turnIndex := 0;
      status := Playing;
      winResult := NO_RESULT;
      OccupiedZero(INITIAL_BOARD);
      GameLogic.EmptyBoardOngoing(GRID_SIZE, WIN_LENGTH);
    }
  }
}
