/**
 The search engine's specification. `MinimaxScore` is the score that the
 Rust `minimax` in `game_state.rs` computes, written as a recursive function over the board
 value: terminal tests first (an X line, an O line, a full board), then the
 children in row-major order, each child being the board with one more mark.
 `IsBestMove` is what `best_move` promises of the cell it returns.
 */
module Search {
  import opened Options
  import opened Board

  /** `i32::MIN` and `i32::MAX`, the seeds of the running best scores in `game_state.rs`. */
  const I32Min: int := -0x8000_0000
  const I32Max: int := 0x7fff_ffff

  function Max(a: int, b: int): (m: int)
    ensures m >= a && m >= b && (m == a || m == b)
  {
    if a >= b then a else b
  }

  function Min(a: int, b: int): (m: int)
    ensures m <= a && m <= b && (m == a || m == b)
  {
    if a <= b then a else b
  }

  /** The mark placed by the maximizing side (O) or the minimizing side (X). */
  function Mover(isMaximizing: bool): Player
  {
    if isMaximizing then O else X
  }

  /** The seed of the running best score on each side. */
  function Seed(isMaximizing: bool): int
  {
    if isMaximizing then I32Min else I32Max
  }

  /** The running best score after one more child: the larger for O, the smaller for X. */
  function Better(isMaximizing: bool, acc: int, s: int): int
  {
    if isMaximizing then Max(acc, s) else Min(acc, s)
  }

  /** The score of board `b` reached `depth` plies below the root of a search. */
  function MinimaxScore(b: Grid, depth: int, isMaximizing: bool): int
    decreases EmptyCount(b), 1, 0, 0
  {
    match CheckWin(b)
    case Some(X) => -10 + depth
    case Some(O) => 10 - depth
    case None =>
      if IsDraw(b) then 0
      else ChildScan(b, depth, isMaximizing, 0, 0, Seed(isMaximizing))
  }

  /**
   The nested loops over the children of `b`: the cells from (row, col) on in
   row-major order, with `acc` the best score of the cells before it. Every
   empty cell receives the mover's mark and is scored one ply deeper, for the
   other side.
   */
  function ChildScan(b: Grid, depth: int, isMaximizing: bool, row: nat, col: nat, acc: int): int
    requires row <= 3 && col <= 3
    decreases EmptyCount(b), 0, 3 - row, 3 - col
  {
    if row == 3 then acc
    else if col == 3 then ChildScan(b, depth, isMaximizing, row + 1, 0, acc)
    else if b[row][col] == None then
      PlaceCounts(b, row, col, Mover(isMaximizing));
      var s := MinimaxScore(Place(b, row, col, Mover(isMaximizing)), depth + 1, !isMaximizing);
      ChildScan(b, depth, isMaximizing, row, col + 1, Better(isMaximizing, acc, s))
    else
      ChildScan(b, depth, isMaximizing, row, col + 1, acc)
  }

  /** One turn of the child loop at an empty cell. */
  lemma ChildScanPlaced(b: Grid, depth: int, isMaximizing: bool, row: Idx, col: Idx, acc: int)
    requires b[row][col] == None
    ensures ChildScan(b, depth, isMaximizing, row, col, acc)
         == ChildScan(b, depth, isMaximizing, row, col + 1,
              Better(isMaximizing, acc, MinimaxScore(Place(b, row, col, Mover(isMaximizing)), depth + 1, !isMaximizing)))
  {
  }

  /** Some cell at (row, col) or after it in row-major order is empty. */
  predicate EmptyFrom(b: Grid, row: int, col: int)
  {
    exists i: Idx, j: Idx :: 3 * i + j >= 3 * row + col && b[i][j] == None
  }

  /**
   Scores stay within [-10 + depth, 10 - depth] as long as the game cannot
   run past depth 9, so the `i32` seeds are never returned.
   */
  lemma {:induction false} MinimaxInRange(b: Grid, depth: int, isMaximizing: bool)
    requires 0 <= depth && depth + EmptyCount(b) <= 9
    ensures -10 + depth <= MinimaxScore(b, depth, isMaximizing) <= 10 - depth
    decreases EmptyCount(b), 1, 0, 0, 0
  {
    if CheckWin(b) == None && !IsDraw(b) {
      assert EmptyFrom(b, 0, 0);
      ChildScanInRange(b, depth, isMaximizing, 0, 0, Seed(isMaximizing));
    }
  }

  /**
   The child loop returns a score in the children's range [-9 + depth, 9 - depth]
   when it starts from a score in that range, or from the seed with an empty
   cell still ahead.
   */
  lemma {:induction false} ChildScanInRange(b: Grid, depth: int, isMaximizing: bool, row: nat, col: nat, acc: int)
    requires 0 <= depth && depth + EmptyCount(b) <= 9
    requires row <= 3 && col <= 3
    requires (-9 + depth <= acc <= 9 - depth) || (acc == Seed(isMaximizing) && EmptyFrom(b, row, col))
    ensures -9 + depth <= ChildScan(b, depth, isMaximizing, row, col, acc) <= 9 - depth
    decreases EmptyCount(b), 0, 3 - row, 3 - col, 1
  {
    if row == 3 {
      assert !EmptyFrom(b, row, col);
    } else if col == 3 {
      assert EmptyFrom(b, row, col) == EmptyFrom(b, row + 1, 0);
      ChildScanInRange(b, depth, isMaximizing, row + 1, 0, acc);
    } else if b[row][col] == None {
      PlacedChildInRange(b, depth, isMaximizing, row, col, acc);
    } else {
      SkippedCellInRange(b, depth, isMaximizing, row, col, acc);
    }
  }

  /** The step of `ChildScanInRange` at an empty cell: the child's score is in range. */
  lemma {:induction false} PlacedChildInRange(b: Grid, depth: int, isMaximizing: bool, row: Idx, col: Idx, acc: int)
    requires 0 <= depth && depth + EmptyCount(b) <= 9
    requires b[row][col] == None
    requires (-9 + depth <= acc <= 9 - depth) || acc == Seed(isMaximizing)
    ensures -9 + depth <= ChildScan(b, depth, isMaximizing, row, col, acc) <= 9 - depth
    decreases EmptyCount(b), 0, 3 - row, 3 - col, 0
  {
    var p := Mover(isMaximizing);
    var b' := Place(b, row, col, p);
    var s := MinimaxScore(b', depth + 1, !isMaximizing);
    assert -9 + depth <= s <= 9 - depth by {
      PlaceCounts(b, row, col, p);
      MinimaxInRange(b', depth + 1, !isMaximizing);
    }
    ChildScanPlaced(b, depth, isMaximizing, row, col, acc);
    ChildScanInRange(b, depth, isMaximizing, row, col + 1, Better(isMaximizing, acc, s));
  }

  /** The step of `ChildScanInRange` at a filled cell: an empty cell is still ahead if there was one. */
  lemma {:induction false} SkippedCellInRange(b: Grid, depth: int, isMaximizing: bool, row: Idx, col: Idx, acc: int)
    requires 0 <= depth && depth + EmptyCount(b) <= 9
    requires b[row][col] != None
    requires (-9 + depth <= acc <= 9 - depth) || (acc == Seed(isMaximizing) && EmptyFrom(b, row, col))
    ensures -9 + depth <= ChildScan(b, depth, isMaximizing, row, col, acc) <= 9 - depth
    decreases EmptyCount(b), 0, 3 - row, 3 - col, 0
  {
    if !(-9 + depth <= acc <= 9 - depth) {
      var i: Idx, j: Idx :| 3 * i + j >= 3 * row + col && b[i][j] == None;
      assert 3 * i + j >= 3 * row + col + 1;
    }
    ChildScanInRange(b, depth, isMaximizing, row, col + 1, acc);
  }

  /** `minimax` tests for a win before the full board: a full board with X's row scores as X's win. */
  lemma WinCheckedBeforeDraw(depth: int, isMaximizing: bool)
    ensures MinimaxScore(FullWithXRow, depth, isMaximizing) == -10 + depth
  {
    DrawIgnoresLines();
  }

  /** The score `best_move` gives cell (row, col): O placed there, then X to reply at depth 0. */
  function MoveScore(b: Grid, row: Idx, col: Idx): int
  {
    MinimaxScore(Place(b, row, col, O), 0, false)
  }

  /** Move scores lie in [-10, 10]. */
  lemma MoveScoreInRange(b: Grid, row: Idx, col: Idx)
    requires b[row][col] == None
    ensures -10 <= MoveScore(b, row, col) <= 10
  {
    PlaceCounts(b, row, col, O);
    EmptyCountAtMostNine(b);
    MinimaxInRange(Place(b, row, col, O), 0, false);
  }

  /** A move scores the full 10 exactly when it completes a line that `CheckWin` reports for O. */
  lemma MoveScoreTenIffWin(b: Grid, row: Idx, col: Idx)
    requires b[row][col] == None
    ensures MoveScore(b, row, col) == 10 <==> CheckWin(Place(b, row, col, O)) == Some(O)
  {
    var b' := Place(b, row, col, O);
    if CheckWin(b') == None && !IsDraw(b') {
      PlaceCounts(b, row, col, O);
      EmptyCountAtMostNine(b);
      UndecidedInRange(b', 0, false);
    }
  }

  /** A board with no winner and an empty cell scores strictly inside [-10 + depth, 10 - depth]. */
  lemma UndecidedInRange(b: Grid, depth: int, isMaximizing: bool)
    requires CheckWin(b) == None && !IsDraw(b)
    requires 0 <= depth && depth + EmptyCount(b) <= 9
    ensures -9 + depth <= MinimaxScore(b, depth, isMaximizing) <= 9 - depth
  {
    assert EmptyFrom(b, 0, 0);
    ChildScanInRange(b, depth, isMaximizing, 0, 0, Seed(isMaximizing));
  }

  /** The score of the child of `b` where the side to move (O when maximizing, X otherwise) marks (i, j). */
  function ChildScore(b: Grid, depth: int, isMaximizing: bool, i: Idx, j: Idx): int
  {
    MinimaxScore(Place(b, i, j, Mover(isMaximizing)), depth + 1, !isMaximizing)
  }

  /** `r` is at least as good as `s` for the side to move: no smaller for O, no larger for X. */
  predicate AtLeastAsGood(isMaximizing: bool, r: int, s: int)
  {
    if isMaximizing then r >= s else r <= s
  }

  /**
   The child loop with the child scores given by `f`: from (row, col) on, the
   running best `acc` is combined with `f` at every empty cell. The result is
   at least as good as `acc` and as every such cell's score, and it is `acc`
   or one of those scores.
   */
  function ScanBest(b: Grid, f: (Idx, Idx) -> int, isMaximizing: bool, row: nat, col: nat, acc: int): (r: int)
    requires row <= 3 && col <= 3
    ensures AtLeastAsGood(isMaximizing, r, acc)
    ensures forall i: Idx, j: Idx :: 3 * i + j >= 3 * row + col && b[i][j] == None ==> AtLeastAsGood(isMaximizing, r, f(i, j))
    ensures r == acc || exists i: Idx, j: Idx :: 3 * i + j >= 3 * row + col && b[i][j] == None && r == f(i, j)
    decreases 3 - row, 3 - col
  {
    if row == 3 then acc
    else if col == 3 then ScanBest(b, f, isMaximizing, row + 1, 0, acc)
    else if b[row][col] == None then ScanBest(b, f, isMaximizing, row, col + 1, Better(isMaximizing, acc, f(row, col)))
    else ScanBest(b, f, isMaximizing, row, col + 1, acc)
  }

  /** `ChildScan` is `ScanBest` for `f` giving the children's minimax scores. */
  lemma {:induction false} ChildScanIsScanBest(b: Grid, depth: int, isMaximizing: bool, f: (Idx, Idx) -> int, row: nat, col: nat, acc: int)
    requires forall i: Idx, j: Idx :: f(i, j) == ChildScore(b, depth, isMaximizing, i, j)
    requires row <= 3 && col <= 3
    ensures ChildScan(b, depth, isMaximizing, row, col, acc) == ScanBest(b, f, isMaximizing, row, col, acc)
    decreases 3 - row, 3 - col
  {
    if row == 3 {
    } else if col == 3 {
      ChildScanIsScanBest(b, depth, isMaximizing, f, row + 1, 0, acc);
    } else if b[row][col] == None {
      ChildScanPlaced(b, depth, isMaximizing, row, col, acc);
      ChildScanIsScanBest(b, depth, isMaximizing, f, row, col + 1, Better(isMaximizing, acc, f(row, col)));
    } else {
      ChildScanIsScanBest(b, depth, isMaximizing, f, row, col + 1, acc);
    }
  }

  /** On an undecided board the score is the child loop over the children's scores. */
  lemma NodeIsScanBest(b: Grid, depth: int, isMaximizing: bool, f: (Idx, Idx) -> int)
    requires forall i: Idx, j: Idx :: f(i, j) == ChildScore(b, depth, isMaximizing, i, j)
    requires CheckWin(b) == None && !IsDraw(b)
    ensures MinimaxScore(b, depth, isMaximizing) == ScanBest(b, f, isMaximizing, 0, 0, Seed(isMaximizing))
  {
    ChildScanIsScanBest(b, depth, isMaximizing, f, 0, 0, Seed(isMaximizing));
  }

  /** Within the depth bound, a board with an empty cell has a child scoring in [-9 + depth, 9 - depth]. */
  lemma SomeChildInRange(b: Grid, depth: int, isMaximizing: bool) returns (i: Idx, j: Idx)
    requires !IsDraw(b) && 0 <= depth && depth + EmptyCount(b) <= 9
    ensures b[i][j] == None && -9 + depth <= ChildScore(b, depth, isMaximizing, i, j) <= 9 - depth
  {
    i, j :| b[i][j] == None;
    var c := Place(b, i, j, Mover(isMaximizing));
    PlaceCounts(b, i, j, Mover(isMaximizing));
    MinimaxInRange(c, depth + 1, !isMaximizing);
    assert ChildScore(b, depth, isMaximizing, i, j) == MinimaxScore(c, depth + 1, !isMaximizing);
  }

  /** When the child loop's answer is not its starting value, it is the score of an empty cell. */
  lemma ScanBestWitness(b: Grid, f: (Idx, Idx) -> int, isMaximizing: bool) returns (i: Idx, j: Idx)
    requires ScanBest(b, f, isMaximizing, 0, 0, Seed(isMaximizing)) != Seed(isMaximizing)
    ensures b[i][j] == None && ScanBest(b, f, isMaximizing, 0, 0, Seed(isMaximizing)) == f(i, j)
  {
    i, j :| 3 * i + j >= 0 && b[i][j] == None && ScanBest(b, f, isMaximizing, 0, 0, Seed(isMaximizing)) == f(i, j);
  }

  /**
   On an undecided board with O to move, the score is the largest child
   score: no child where O plays scores more, and within the depth bound
   some child reaches it (so the `i32::MIN` seed is never the answer).
   */
  lemma MaxNodeIsLargestChild(b: Grid, depth: int)
    requires CheckWin(b) == None && !IsDraw(b)
    ensures forall i: Idx, j: Idx :: b[i][j] == None ==> MinimaxScore(b, depth, true) >= ChildScore(b, depth, true, i, j)
    ensures 0 <= depth && depth + EmptyCount(b) <= 9 ==>
              exists i: Idx, j: Idx :: b[i][j] == None && MinimaxScore(b, depth, true) == ChildScore(b, depth, true, i, j)
  {
    var f := (i: Idx, j: Idx) => ChildScore(b, depth, true, i, j);
    var r := ScanBest(b, f, true, 0, 0, I32Min);
    NodeIsScanBest(b, depth, true, f);
    forall i: Idx, j: Idx | b[i][j] == None
      ensures r >= ChildScore(b, depth, true, i, j)
    {
      assert AtLeastAsGood(true, r, f(i, j));
    }
    if 0 <= depth && depth + EmptyCount(b) <= 9 {
      var i, j := SomeChildInRange(b, depth, true);
      assert AtLeastAsGood(true, r, f(i, j));
      var i', j' := ScanBestWitness(b, f, true);
      assert MinimaxScore(b, depth, true) == ChildScore(b, depth, true, i', j');
    }
  }

  /**
   On an undecided board with X to move, the score is the smallest child
   score: no child where X plays scores less, and within the depth bound
   some child reaches it (so the `i32::MAX` seed is never the answer).
   */
  lemma MinNodeIsSmallestChild(b: Grid, depth: int)
    requires CheckWin(b) == None && !IsDraw(b)
    ensures forall i: Idx, j: Idx :: b[i][j] == None ==> MinimaxScore(b, depth, false) <= ChildScore(b, depth, false, i, j)
    ensures 0 <= depth && depth + EmptyCount(b) <= 9 ==>
              exists i: Idx, j: Idx :: b[i][j] == None && MinimaxScore(b, depth, false) == ChildScore(b, depth, false, i, j)
  {
    var f := (i: Idx, j: Idx) => ChildScore(b, depth, false, i, j);
    var r := ScanBest(b, f, false, 0, 0, I32Max);
    NodeIsScanBest(b, depth, false, f);
    forall i: Idx, j: Idx | b[i][j] == None
      ensures r <= ChildScore(b, depth, false, i, j)
    {
      assert AtLeastAsGood(false, r, f(i, j));
    }
    if 0 <= depth && depth + EmptyCount(b) <= 9 {
      var i, j := SomeChildInRange(b, depth, false);
      assert AtLeastAsGood(false, r, f(i, j));
      var i', j' := ScanBestWitness(b, f, false);
      assert MinimaxScore(b, depth, false) == ChildScore(b, depth, false, i', j');
    }
  }

  /**
   What `best_move` promises of (row, col): the cell is empty, no empty cell
   scores more, and every empty cell before it in row-major order scores
   strictly less (`best_move` in `game_state.rs` keeps a new best only on a strict `>`).
   */
  predicate IsBestMove(b: Grid, row: Idx, col: Idx)
  {
    && b[row][col] == None
    && (forall i: Idx, j: Idx :: b[i][j] == None ==> MoveScore(b, i, j) <= MoveScore(b, row, col))
    && (forall i: Idx, j: Idx :: 3 * i + j < 3 * row + col && b[i][j] == None ==>
          MoveScore(b, i, j) < MoveScore(b, row, col))
  }

  /** At most one cell is the best move: the tie-break makes the choice deterministic. */
  lemma BestMoveUnique(b: Grid, r1: Idx, c1: Idx, r2: Idx, c2: Idx)
    requires IsBestMove(b, r1, c1) && IsBestMove(b, r2, c2)
    ensures r1 == r2 && c1 == c2
  {
  }

  /**
   When O can complete a line that `CheckWin` reports for O, the best move is
   the first such cell in row-major order.
   */
  lemma ImmediateWinIsBest(b: Grid, row: Idx, col: Idx)
    requires b[row][col] == None && CheckWin(Place(b, row, col, O)) == Some(O)
    requires forall i: Idx, j: Idx :: 3 * i + j < 3 * row + col && b[i][j] == None ==>
               CheckWin(Place(b, i, j, O)) != Some(O)
    ensures IsBestMove(b, row, col)
  {
    MoveScoreTenIffWin(b, row, col);
    forall i: Idx, j: Idx | b[i][j] == None
      ensures MoveScore(b, i, j) <= MoveScore(b, row, col)
      ensures 3 * i + j < 3 * row + col ==> MoveScore(b, i, j) < MoveScore(b, row, col)
    {
      MoveScoreInRange(b, i, j);
      MoveScoreTenIffWin(b, i, j);
    }
  }

  /**
   A move that leaves X an immediate win loses: if O plays (r, c), nobody has
   won yet, and X then completes a line at (xr, xc), the move scores at most -9.
   */
  lemma FailingToBlockLoses(b: Grid, r: Idx, c: Idx, xr: Idx, xc: Idx)
    requires b[r][c] == None && b[xr][xc] == None && (xr, xc) != (r, c)
    requires CheckWin(Place(b, r, c, O)) == None
    requires CheckWin(Place(Place(b, r, c, O), xr, xc, X)) == Some(X)
    ensures MoveScore(b, r, c) <= -9
  {
    var b' := Place(b, r, c, O);
    PlaceFrame(b, r, c, O);
    assert b'[xr][xc] == None;
    assert !IsDraw(b');
    MinNodeIsSmallestChild(b', 0);
    assert MinimaxScore(b', 0, false) <= ChildScore(b', 0, false, xr, xc);
  }

  /** X holds (0, 0) and (0, 1), O holds (1, 0), and O is to move. */
  const XThreatensTopRow: Grid := [[Some(X), Some(X), None], [Some(O), None, None], [None, None, None]]

  /** The board after O blocks at (0, 2). */
  const BlockedTopRow: Grid := [[Some(X), Some(X), Some(O)], [Some(O), None, None], [None, None, None]]

  /** After the block nobody has won and cells are still empty. */
  lemma BlockedTopRowFacts()
    ensures Place(XThreatensTopRow, 0, 2, O) == BlockedTopRow
    ensures CheckWin(BlockedTopRow) == None && !IsDraw(BlockedTopRow)
  {
    var t := Place(XThreatensTopRow, 0, 2, O);
    assert t[0] == BlockedTopRow[0] && t[1] == BlockedTopRow[1] && t[2] == BlockedTopRow[2];
    assert BlockedTopRow[1][1] == None;
  }

  /** After the block, no reply by X wins at once, and the board is not yet full. */
  lemma NoReplyWinsAfterBlock(i: Idx, j: Idx)
    requires BlockedTopRow[i][j] == None
    ensures CheckWin(Place(BlockedTopRow, i, j, X)) == None && !IsDraw(Place(BlockedTopRow, i, j, X))
  {
    var c := Place(BlockedTopRow, i, j, X);
    if i == 1 && j == 1 {
      assert c[1] == [Some(O), Some(X), None] && c[2] == [None, None, None];
    } else if i == 1 && j == 2 {
      assert c[1] == [Some(O), None, Some(X)] && c[2] == [None, None, None];
    } else if i == 2 && j == 0 {
      assert c[1] == [Some(O), None, None] && c[2] == [Some(X), None, None];
    } else if i == 2 && j == 1 {
      assert c[1] == [Some(O), None, None] && c[2] == [None, Some(X), None];
    } else {
      assert c[1] == [Some(O), None, None] && c[2] == [None, None, Some(X)];
    }
    assert c[0] == [Some(X), Some(X), Some(O)];
    assert CheckWin(c) == None;
    assert c[1][1] == None || c[1][2] == None;
  }

  /** Blocking at (0, 2) leaves X no immediate win, so the block scores at least -8. */
  lemma BlockScoresAtLeastMinusEight()
    ensures MoveScore(XThreatensTopRow, 0, 2) >= -8
  {
    var t := BlockedTopRow;
    BlockedTopRowFacts();
    EmptyCountAtMostNine(t);
    MinNodeIsSmallestChild(t, 0);
    var i: Idx, j: Idx :| t[i][j] == None && MinimaxScore(t, 0, false) == ChildScore(t, 0, false, i, j);
    NoReplyWinsAfterBlock(i, j);
    PlaceCounts(t, i, j, X);
    UndecidedInRange(Place(t, i, j, X), 1, true);
  }

  /** Any other first move by O leaves X the top row: it scores at most -9. */
  lemma NotBlockingLoses(i: Idx, j: Idx)
    requires XThreatensTopRow[i][j] == None && (i, j) != (0, 2)
    ensures MoveScore(XThreatensTopRow, i, j) <= -9
  {
    var s := XThreatensTopRow;
    var m := Place(s, i, j, O);
    if i == 1 && j == 1 {
      assert m[0] == [Some(X), Some(X), None];
      assert m[1] == [Some(O), Some(O), None];
      assert m[2] == [None, None, None];
    } else if i == 1 && j == 2 {
      assert m[0] == [Some(X), Some(X), None];
      assert m[1] == [Some(O), None, Some(O)];
      assert m[2] == [None, None, None];
    } else if i == 2 && j == 0 {
      assert m[0] == [Some(X), Some(X), None];
      assert m[1] == [Some(O), None, None];
      assert m[2] == [Some(O), None, None];
    } else if i == 2 && j == 1 {
      assert m[0] == [Some(X), Some(X), None];
      assert m[1] == [Some(O), None, None];
      assert m[2] == [None, Some(O), None];
    } else {
      assert m[0] == [Some(X), Some(X), None];
      assert m[1] == [Some(O), None, None];
      assert m[2] == [None, None, Some(O)];
    }
    assert CheckWin(m) == None;
    assert Place(m, 0, 2, X)[0] == [Some(X), Some(X), Some(X)];
    assert CheckWin(Place(m, 0, 2, X)) == Some(X);
    FailingToBlockLoses(s, i, j, 0, 2);
  }

  /** With X threatening the top row, O's best move is the block at (0, 2). */
  lemma BlockOpenRowIsBest()
    ensures IsBestMove(XThreatensTopRow, 0, 2)
  {
    assert forall i: Idx, j: Idx :: 3 * i + j < 2 ==> XThreatensTopRow[i][j] != None;
    BlockScoresAtLeastMinusEight();
    forall i: Idx, j: Idx | XThreatensTopRow[i][j] == None
      ensures MoveScore(XThreatensTopRow, i, j) <= MoveScore(XThreatensTopRow, 0, 2)
    {
      if (i, j) != (0, 2) {
        NotBlockingLoses(i, j);
      }
    }
  }

}
