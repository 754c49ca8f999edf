/** The part of the hint request that runs before the model is asked: the
    missing-key guard and the board drawn as text, one line per row, cells
    separated by single spaces, an empty cell shown as a dot. */
module GeminiService {
  import opened Types

  /** The text of one cell: its mark's symbol, or "." when empty. */
  function CellText(cell: Cell): (s: string)
    ensures 1 <= |s| && ' ' !in s && '\n' !in s
    ensures s == "." <==> cell.None?
  {
    match cell
    case None => "."
    case Some(m) => Symbol(m)
  }

  /** `parts` joined with `sep` between neighbours. */
  function Join(sep: char, parts: seq<string>): string
  {
    if |parts| == 0 then ""
    else if |parts| == 1 then parts[0]
    else parts[0] + [sep] + Join(sep, parts[1..])
  }

  /** The pieces of `s` between occurrences of `sep` (never an empty list:
      the empty string splits into one empty piece). */
  function Split(s: string, sep: char): (parts: seq<string>)
    ensures |parts| >= 1
  {
    if s == [] then [""]
    else
      var rest := Split(s[1..], sep);
      if s[0] == sep then [""] + rest
      else [[s[0]] + rest[0]] + rest[1..]
  }

  /** A string without the separator is a single piece. */
  lemma {:induction false} SplitWithoutSep(s: string, sep: char)
    requires sep !in s
    ensures Split(s, sep) == [s]
  {
    if s != [] {
      assert sep !in s[1..];
      SplitWithoutSep(s[1..], sep);
      assert [s[0]] + s[1..] == s;
    }
  }

  /** Splitting "p<sep>rest" gives p, then the pieces of rest. */
  lemma {:induction false} SplitAfterPiece(p: string, sep: char, rest: string)
    requires sep !in p
    ensures Split(p + [sep] + rest, sep) == [p] + Split(rest, sep)
  {
    if p == [] {
      assert [] + [sep] + rest == [sep] + rest;
      assert ([sep] + rest)[1..] == rest;
    } else {
      assert (p + [sep] + rest)[1..] == p[1..] + [sep] + rest;
      assert sep !in p[1..];
      SplitAfterPiece(p[1..], sep, rest);
      assert [p[0]] + p[1..] == p;
    }
  }

  /** Splitting undoes joining when no piece holds the separator. */
  lemma {:induction false} SplitJoin(sep: char, parts: seq<string>)
    requires |parts| >= 1
    requires forall i :: 0 <= i < |parts| ==> sep !in parts[i]
    ensures Split(Join(sep, parts), sep) == parts
  {
    if |parts| == 1 {
      SplitWithoutSep(parts[0], sep);
    } else {
      SplitJoin(sep, parts[1..]);
      SplitAfterPiece(parts[0], sep, Join(sep, parts[1..]));
      assert [parts[0]] + parts[1..] == parts;
    }
  }

  /** A joined string holds the separator only between pieces. */
  lemma {:induction false} JoinWithout(sep: char, parts: seq<string>, other: char)
    requires other != sep
    requires forall i :: 0 <= i < |parts| ==> other !in parts[i]
    ensures other !in Join(sep, parts)
  {
    if |parts| > 1 {
      JoinWithout(sep, parts[1..], other);
    }
  }

  /** The cells of row r, left to right. */
  function RowCells(board: Board, size: nat, r: nat): (cells: seq<Cell>)
    requires |board| == size * size && r < size
    ensures |cells| == size
  {
    RowInRange(size, r);
    var start := r * size;
    board[start..start + size]
  }

  /** Cell c of row r is the board's cell r * size + c. */
  lemma RowCellAt(board: Board, size: nat, r: nat, c: nat)
    requires |board| == size * size && r < size && c < size
    ensures r * size + c < |board|
    ensures RowCells(board, size, r)[c] == board[r * size + c]
  {
    RowInRange(size, r);
  }

  /** The texts of a list of cells, in order. */
  function CellTexts(cells: seq<Cell>): (texts: seq<string>)
    ensures |texts| == |cells|
  {
    seq(|cells|, i requires 0 <= i < |cells| => CellText(cells[i]))
  }

  /** Row r as text: its cells' texts separated by single spaces. */
  function RowText(board: Board, size: nat, r: nat): string
    requires |board| == size * size && r < size
  {
    Join(' ', CellTexts(RowCells(board, size, r)))
  }

  /** The text of every row, top to bottom. */
  function RowTexts(board: Board, size: nat): (rows: seq<string>)
    requires |board| == size * size
    ensures |rows| == size
  {
    seq(size, r requires 0 <= r < size => RowText(board, size, r))
  }

  /** The board as text: the rows joined by line breaks. */
  function BoardText(board: Board, size: nat): string
    requires |board| == size * size
  {
    Join('\n', RowTexts(board, size))
  }

  /** The loop that builds the board's text row by row. */
  method SerializeBoard(board: Board, size: nat) returns (boardString: string)
    requires |board| == size * size
    ensures boardString == BoardText(board, size)
  {
    var boardVisual: seq<string> := [];
    for r := 0 to size
      invariant boardVisual == RowTexts(board, size)[..r]
    {
      var row := Join(' ', CellTexts(RowCells(board, size, r)));
      boardVisual := boardVisual + [row];
    }
    assert boardVisual == RowTexts(board, size);
    boardString := Join('\n', boardVisual);
  }

  /** What the hint request does before asking the model: without a key it
      answers with a fixed message; with one it goes on with the board's
      text. */
  datatype HintStep = Answer(text: string) | AskModel(boardString: string)

  const MISSING_KEY_MESSAGE: string := "API Key missing. Cannot fetch hint."

  /** The key guard and the board serialisation of the hint request; the
      presence of the key is a parameter. */
  method GetGeminiHint(apiKeyPresent: bool, board: Board) returns (step: HintStep)
    requires |board| == GRID_SIZE * GRID_SIZE
    ensures !apiKeyPresent ==> step == Answer(MISSING_KEY_MESSAGE)
    ensures apiKeyPresent ==> step == AskModel(BoardText(board, GRID_SIZE))
  {
    if !apiKeyPresent {
      return Answer(MISSING_KEY_MESSAGE);
    }
    var boardString := SerializeBoard(board, GRID_SIZE);
    return AskModel(boardString);
  }

  // Reading the text back.

  /** The cell a token stands for, if any. */
  function ParseCell(token: string): Option<Cell>
  {
    if token == "." then Some(None)
    else if token == Symbol(X) then Some(Some(X))
    else if token == Symbol(O) then Some(Some(O))
    else if token == Symbol(Triangle) then Some(Some(Triangle))
    else None
  }

  /** The cells a list of tokens stands for, if every token is one. */
  function ParseCells(tokens: seq<string>): Option<seq<Cell>>
  {
    if tokens == [] then Some([])
    else
      match (ParseCell(tokens[0]), ParseCells(tokens[1..]))
      case (Some(cell), Some(rest)) => Some([cell] + rest)
      case _ => None
  }

  /** The cells of a list of lines, each of exactly `size` tokens, in order. */
  function ParseRows(lines: seq<string>, size: nat): Option<Board>
  {
    if lines == [] then Some([])
    else
      var tokens := Split(lines[0], ' ');
      if |tokens| != size then None
      else
        match (ParseCells(tokens), ParseRows(lines[1..], size))
        case (Some(cells), Some(rest)) => Some(cells + rest)
        case _ => None
  }

  /** The board a text of `size` lines stands for, if any. */
  function ParseBoard(text: string, size: nat): Option<Board>
  {
    var lines := Split(text, '\n');
    if |lines| != size then None else ParseRows(lines, size)
  }

  /** Each cell's text reads back as that cell. */
  lemma CellTextRoundTrip(cell: Cell)
    ensures ParseCell(CellText(cell)) == Some(cell)
  {
  }

  lemma {:induction false} ParseCellTexts(cells: seq<Cell>)
    ensures ParseCells(CellTexts(cells)) == Some(cells)
  {
    if cells != [] {
      assert CellTexts(cells)[1..] == CellTexts(cells[1..]);
      ParseCellTexts(cells[1..]);
      CellTextRoundTrip(cells[0]);
      assert [cells[0]] + cells[1..] == cells;
    }
  }

  /** A row's text splits at its spaces into exactly `size` tokens, the
      texts of the row's cells in index order. */
  lemma RowTokens(board: Board, size: nat, r: nat)
    requires |board| == size * size && r < size
    ensures Split(RowText(board, size, r), ' ') == CellTexts(RowCells(board, size, r))
  {
    var texts := CellTexts(RowCells(board, size, r));
    forall i | 0 <= i < |texts| ensures ' ' !in texts[i] {
      assert texts[i] == CellText(RowCells(board, size, r)[i]);
    }
    SplitJoin(' ', texts);
  }

  /** The board's text splits at its line breaks into exactly `size` lines,
      line r being the text of row r. */
  lemma BoardLines(board: Board, size: nat)
    requires |board| == size * size && 0 < size
    ensures Split(BoardText(board, size), '\n') == RowTexts(board, size)
  {
    var rows := RowTexts(board, size);
    forall r | 0 <= r < size ensures '\n' !in rows[r] {
      var texts := CellTexts(RowCells(board, size, r));
      forall i | 0 <= i < |texts| ensures '\n' !in texts[i] {
        assert texts[i] == CellText(RowCells(board, size, r)[i]);
      }
      JoinWithout(' ', texts, '\n');
    }
    SplitJoin('\n', rows);
  }

  /** The cells from row i on are row i followed by the cells from row i + 1 on. */
  lemma RowsFrom(board: Board, size: nat, i: nat)
    requires |board| == size * size && i < size
    ensures i * size <= (i + 1) * size <= |board|
    ensures board[i * size..] == RowCells(board, size, i) + board[(i + 1) * size..]
  {
    RowInRange(size, i);
  }

  /** Reading back rows i.. of the text gives the cells from row i on. */
  lemma {:induction false} ParseRowsFrom(board: Board, size: nat, i: nat)
    requires |board| == size * size && 0 < size && i <= size
    ensures i * size <= |board|
    ensures ParseRows(RowTexts(board, size)[i..], size) == Some(board[i * size..])
    decreases size - i
  {
    MulMonotone(i, size, size);
    var lines := RowTexts(board, size)[i..];
    if i == size {
      assert lines == [];
      assert board[i * size..] == [];
    } else {
      RowTokens(board, size, i);
      ParseCellTexts(RowCells(board, size, i));
      assert lines[1..] == RowTexts(board, size)[i + 1..];
      ParseRowsFrom(board, size, i + 1);
      RowsFrom(board, size, i);
    }
  }

  /** The text determines the board: reading it back gives the board again. */
  lemma ParseBoardText(board: Board, size: nat)
    requires |board| == size * size && 0 < size
    ensures ParseBoard(BoardText(board, size), size) == Some(board)
  {
    BoardLines(board, size);
    ParseRowsFrom(board, size, 0);
    assert RowTexts(board, size)[0..] == RowTexts(board, size);
  }
}
