/** The game's declarations: player marks, players, board, win result and
    match status, and the two constants of the grid. */
module Types {

  datatype Option<+T> = None | Some(value: T)

  /** The three player marks. */
  datatype Mark = X | O | Triangle

  /** The text a mark is shown as: a non-empty string with no space and no
      line break, other than the empty-cell dot. The triangle's text is the
      three characters U+00E2 U+2013 U+00B2, the UTF-8 bytes of the
      character U+25B2 read as Windows-1252, exactly as the declaration
      spells it. */
  function Symbol(m: Mark): (s: string)
    ensures 1 <= |s| && ' ' !in s && '\n' !in s && s != "."
  {
    match m
    case X => "X"
    case O => "O"
    case Triangle => "\U{00E2}\U{2013}\U{00B2}"
  }

  /** No two marks share a symbol. */
  lemma SymbolsDistinct(m1: Mark, m2: Mark)
    ensures Symbol(m1) == Symbol(m2) ==> m1 == m2
  {
  }

  /** A player; the colour classes used for display are not modelled. */
  datatype Player = Player(id: nat, name: string, symbol: Mark)

  const PLAYERS: seq<Player> := [
    Player(0, "Player 1", X),
    Player(1, "Player 2", O),
    Player(2, "Player 3", Triangle)
  ]

  const GRID_SIZE: nat := 5
  const WIN_LENGTH: nat := 4

  /** A cell is empty (None) or holds a mark; the board lists the cells
      row by row, cell (r, c) at index r * GRID_SIZE + c. */
  type Cell = Option<Mark>
  type Board = seq<Cell>

  const INITIAL_BOARD: Board := seq(GRID_SIZE * GRID_SIZE, _ => None)

  lemma MulMonotone(a: nat, b: nat, n: nat)
    requires a <= b
    ensures a * n <= b * n
  {
  }

  /** Row r of a size * size board lies inside it. */
  lemma RowInRange(size: nat, r: nat)
    requires r < size
    ensures r * size + size == (r + 1) * size <= size * size
  {
    MulMonotone(r + 1, size, size);
  }

  datatype WinResult = WinResult(winner: Option<Mark>, line: Option<seq<int>>, isDraw: bool)

  /** The result of a board that is neither won nor drawn. */
  const NO_RESULT: WinResult := WinResult(None, None, false)

  datatype GameStatus = Idle | Playing | Finished
}
