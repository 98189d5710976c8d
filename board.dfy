/**
 The 3x3 tic-tac-toe board as a value: its cells, the two marks, placing a
 mark, and the two read-only judgements the engine makes about a board
 (`CheckWin`, which scans the eight lines in a fixed order, and `IsDraw`,
 which only asks whether every cell is filled).
 */
module Board {
  import opened Options

  datatype Player = X | O

  /** The mark that moves after `p`. */
  function Other(p: Player): (q: Player)
    ensures q != p
  {
    match p
    case X => O
    case O => X
  }

  /** A cell is empty (`None`) or holds one player's mark. */
  type Cell = Option<Player>

  /** Row and column indices; anything else would make the Rust code panic. */
  type Idx = i: int | 0 <= i < 3

  /** Three rows of three cells each. */
  type Grid = g: seq<seq<Cell>> | |g| == 3 && forall i :: 0 <= i < 3 ==> |g[i]| == 3
    witness [[None, None, None], [None, None, None], [None, None, None]]

  const EmptyGrid: Grid := [[None, None, None], [None, None, None], [None, None, None]]

  /** Write `Some(p)` into one cell, as `board[row][col] = Some(p)` does. */
  function Place(b: Grid, row: Idx, col: Idx, p: Player): Grid
  {
    b[row := b[row][col := Some(p)]]
  }

  /** `Place` writes `p` into (row, col) and leaves the other eight cells as they were. */
  lemma PlaceFrame(b: Grid, row: Idx, col: Idx, p: Player)
    ensures Place(b, row, col, p)[row][col] == Some(p)
    ensures forall i: Idx, j: Idx :: (i != row || j != col) ==> Place(b, row, col, p)[i][j] == b[i][j]
  {
  }

  /** The cell at row-major position `k` (0 is the top-left, 8 the bottom-right). */
  function CellAt(b: Grid, k: int): Cell
    requires 0 <= k < 9
  {
    b[k / 3][k % 3]
  }

  /** The nine cells in row-major order. */
  function Cells(b: Grid): (s: seq<Cell>)
    ensures |s| == 9
    ensures forall k :: 0 <= k < 9 ==> s[k] == CellAt(b, k)
  {
    b[0] + b[1] + b[2]
  }

  /** Number of empty cells. */
  function EmptyCount(b: Grid): nat
  {
    multiset(Cells(b))[None]
  }

  /** Number of cells holding `p`'s mark. */
  function MarkCount(b: Grid, p: Player): nat
  {
    multiset(Cells(b))[Some(p)]
  }

  lemma {:induction false} CountAtMostLength(s: seq<Cell>, x: Cell)
    ensures multiset(s)[x] <= |s|
  {
    if s != [] {
      assert s == [s[0]] + s[1..];
      CountAtMostLength(s[1..], x);
    }
  }

  lemma EmptyCountAtMostNine(b: Grid)
    ensures EmptyCount(b) <= 9
  {
    CountAtMostLength(Cells(b), None);
  }

  /** In row-major order, `Place` changes only position 3 * row + col. */
  lemma CellsOfPlace(b: Grid, row: Idx, col: Idx, p: Player)
    ensures Cells(Place(b, row, col, p)) == Cells(b)[3 * row + col := Some(p)]
  {
    var t := Cells(Place(b, row, col, p));
    var u := Cells(b)[3 * row + col := Some(p)];
    forall k | 0 <= k < 9 ensures t[k] == u[k] {
      assert k / 3 == row && k % 3 == col <==> k == 3 * row + col;
    }
  }

  /** Overwriting an empty entry of a cell sequence with `v` moves one count from `None` to `v`. */
  lemma CountsAfterFill(s: seq<Cell>, k: int, v: Cell, w: Cell)
    requires 0 <= k < |s| && s[k] == None && v != None && w != None && w != v
    ensures multiset(s[k := v])[None] == multiset(s)[None] - 1
    ensures multiset(s[k := v])[v] == multiset(s)[v] + 1
    ensures multiset(s[k := v])[w] == multiset(s)[w]
  {
    assert multiset(s[k := v]) == multiset(s) - multiset{None} + multiset{v};
  }

  /** Filling an empty cell removes exactly one empty cell and adds one mark of its player. */
  lemma PlaceCounts(b: Grid, row: Idx, col: Idx, p: Player)
    requires b[row][col] == None
    ensures EmptyCount(Place(b, row, col, p)) == EmptyCount(b) - 1
    ensures MarkCount(Place(b, row, col, p), p) == MarkCount(b, p) + 1
    ensures MarkCount(Place(b, row, col, p), Other(p)) == MarkCount(b, Other(p))
  {
    CellsOfPlace(b, row, col, p);
    assert Cells(b)[3 * row + col] == None;
    CountsAfterFill(Cells(b), 3 * row + col, Some(p), Some(Other(p)));
  }

  /**
   `IsDraw` is `game_state.rs`'s "every cell is `Some`" test. It does not look at
   lines: a full board with a completed line is also reported as a draw.
   */
  predicate IsDraw(b: Grid)
  {
    forall i: Idx, j: Idx :: b[i][j].Some?
  }

  /** A board is a draw exactly when it has no empty cell left. */
  lemma DrawIffNoEmptyCell(b: Grid)
    ensures IsDraw(b) <==> EmptyCount(b) == 0
  {
    if IsDraw(b) {
      forall k | 0 <= k < 9 ensures Cells(b)[k] != None {
        assert Cells(b)[k] == b[k / 3][k % 3];
      }
      assert None !in Cells(b);
    } else {
      var i: Idx, j: Idx :| b[i][j] == None;
      assert Cells(b)[3 * i + j] == None;
    }
  }

  /** A line of the board: three positions, each a (row, column) pair. */
  datatype Line = Line(r0: Idx, c0: Idx, r1: Idx, c1: Idx, r2: Idx, c2: Idx)

  /** The eight lines in the order `check_win` in `game_state.rs` scans them: rows top to bottom,
      columns left to right, the main diagonal, the anti-diagonal. */
  const Lines: seq<Line> := [
    Line(0, 0, 0, 1, 0, 2), Line(1, 0, 1, 1, 1, 2), Line(2, 0, 2, 1, 2, 2),
    Line(0, 0, 1, 0, 2, 0), Line(0, 1, 1, 1, 2, 1), Line(0, 2, 1, 2, 2, 2),
    Line(0, 0, 1, 1, 2, 2), Line(0, 2, 1, 1, 2, 0)
  ]

  /** `p` holds all three cells of `l`. */
  predicate Owns(b: Grid, l: Line, p: Player)
  {
    b[l.r0][l.c0] == Some(p) && b[l.r1][l.c1] == Some(p) && b[l.r2][l.c2] == Some(p)
  }

  /** Some player holds all three cells of `l`. */
  predicate Complete(b: Grid, l: Line)
  {
    Owns(b, l, X) || Owns(b, l, O)
  }

  /** Line `i` is complete and no line scanned before it is. */
  predicate FirstComplete(b: Grid, i: int, from: int)
    requires 0 <= from <= i < |Lines|
  {
    Complete(b, Lines[i]) && forall j :: from <= j < i ==> !Complete(b, Lines[j])
  }

  /** The winner of one line: its three cells all hold the same player's mark. */
  function LineWinner(a: Cell, b: Cell, c: Cell): (r: Option<Player>)
    ensures r == Some(X) <==> a == b == c == Some(X)
    ensures r == Some(O) <==> a == b == c == Some(O)
  {
    if a.Some? && b.Some? && c.Some? && a.value == b.value && b.value == c.value
    then Some(a.value)
    else None
  }

  /** The row scan: rows `row`..2, top to bottom, stopping at the first complete one. */
  function CheckRows(b: Grid, row: nat): (r: Option<Player>)
    requires row <= 3
    ensures r.None? <==> forall i :: row <= i < 3 ==> !Complete(b, Lines[i])
    ensures r.Some? ==> exists i :: row <= i < 3 && Owns(b, Lines[i], r.value) && FirstComplete(b, i, row)
    decreases 3 - row
  {
    if row == 3 then None
    else
      assert Lines[row] == Line(row, 0, row, 1, row, 2);
      match LineWinner(b[row][0], b[row][1], b[row][2])
      case Some(p) => Some(p)
      case None => CheckRows(b, row + 1)
  }

  /** The column scan: columns `col`..2, left to right, stopping at the first complete one. */
  function CheckColumns(b: Grid, col: nat): (r: Option<Player>)
    requires col <= 3
    ensures r.None? <==> forall i :: 3 + col <= i < 6 ==> !Complete(b, Lines[i])
    ensures r.Some? ==> exists i :: 3 + col <= i < 6 && Owns(b, Lines[i], r.value) && FirstComplete(b, i, 3 + col)
    decreases 3 - col
  {
    if col == 3 then None
    else
      assert Lines[3 + col] == Line(0, col, 1, col, 2, col);
      match LineWinner(b[0][col], b[1][col], b[2][col])
      case Some(p) => Some(p)
      case None => CheckColumns(b, col + 1)
  }

  /** `check_win` in `game_state.rs`: rows, then columns, then the two diagonals, first hit wins. */
  function CheckWin(b: Grid): Option<Player>
  {
    var rows := CheckRows(b, 0);
    if rows.Some? then rows
    else
      var cols := CheckColumns(b, 0);
      if cols.Some? then cols
      else
        var main := LineWinner(b[0][0], b[1][1], b[2][2]);
        if main.Some? then main
        else LineWinner(b[0][2], b[1][1], b[2][0])
  }

  /**
   `CheckWin` reports a winner exactly when some line is complete, and the
   winner it reports owns the first complete line in scan order.
   */
  lemma CheckWinFirstLine(b: Grid)
    ensures CheckWin(b).None? <==> forall i :: 0 <= i < |Lines| ==> !Complete(b, Lines[i])
    ensures CheckWin(b).Some? ==>
      exists i :: 0 <= i < |Lines| && Owns(b, Lines[i], CheckWin(b).value) && FirstComplete(b, i, 0)
  {
    var rows := CheckRows(b, 0);
    var cols := CheckColumns(b, 0);
    if rows.None? {
      assert forall i :: 0 <= i < 3 ==> !Complete(b, Lines[i]);
      if cols.None? {
        assert forall i :: 0 <= i < 6 ==> !Complete(b, Lines[i]);
        var main := LineWinner(b[0][0], b[1][1], b[2][2]);
        var anti := LineWinner(b[0][2], b[1][1], b[2][0]);
        assert main.Some? ==> Owns(b, Lines[6], main.value) && FirstComplete(b, 6, 0);
        assert main.None? && anti.Some? ==> Owns(b, Lines[7], anti.value) && FirstComplete(b, 7, 0);
      }
    }
  }

  /** When only `p` owns complete lines, the scan order does not matter: `CheckWin` reports `p`. */
  lemma CheckWinSoleOwner(b: Grid, p: Player)
    requires exists i :: 0 <= i < |Lines| && Owns(b, Lines[i], p)
    requires forall i :: 0 <= i < |Lines| ==> !Owns(b, Lines[i], Other(p))
    ensures CheckWin(b) == Some(p)
  {
    CheckWinFirstLine(b);
    if CheckWin(b).Some? {
      var i :| 0 <= i < |Lines| && Owns(b, Lines[i], CheckWin(b).value) && FirstComplete(b, i, 0);
      assert CheckWin(b).value != Other(p);
    }
  }

  /** A full board whose top row is X's: `IsDraw` holds although `CheckWin` reports X. */
  const FullWithXRow: Grid := [[Some(X), Some(X), Some(X)], [Some(O), Some(O), Some(X)], [Some(X), Some(O), Some(O)]]

  lemma DrawIgnoresLines()
    ensures IsDraw(FullWithXRow) && CheckWin(FullWithXRow) == Some(X)
  {
  }

  /**
   The turn rule: X moves first and the marks alternate, so X is to move when
   both players have the same number of marks, O when X has one more.
   */
  predicate TurnConsistent(b: Grid, toMove: Player)
  {
    (toMove == X && MarkCount(b, X) == MarkCount(b, O)) ||
    (toMove == O && MarkCount(b, X) == MarkCount(b, O) + 1)
  }

  /** Placing the mover's mark on an empty cell and passing the turn keeps the turn rule. */
  lemma PlaceKeepsTurn(b: Grid, row: Idx, col: Idx, toMove: Player)
    requires TurnConsistent(b, toMove)
    requires b[row][col] == None
    ensures TurnConsistent(Place(b, row, col, toMove), Other(toMove))
  {
    PlaceCounts(b, row, col, toMove);
  }

  lemma {:induction false} CountOfConstant(s: seq<Cell>, x: Cell)
    requires forall k :: 0 <= k < |s| ==> s[k] == x
    ensures multiset(s)[x] == |s|
  {
    if s != [] {
      assert s == [s[0]] + s[1..];
      CountOfConstant(s[1..], x);
    }
  }

  /** The empty board: nine empty cells, no winner, not a draw, X to move. */
  lemma EmptyGridFacts()
    ensures EmptyCount(EmptyGrid) == 9
    ensures CheckWin(EmptyGrid) == None && !IsDraw(EmptyGrid)
    ensures TurnConsistent(EmptyGrid, X)
  {
    assert forall i: Idx, j: Idx :: EmptyGrid[i][j] == None;
    var s := Cells(EmptyGrid);
    CountOfConstant(s, None);
    assert Some(X) !in multiset(s) && Some(O) !in multiset(s);
    assert !IsDraw(EmptyGrid) by { assert EmptyGrid[0][0] == None; }
  }

}
