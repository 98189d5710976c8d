/**
 The live game: a `GameState` object holding the board and the player to
 move. `MakeMove` and `CleanBoard` update it in place; `Minimax` and
 `BestMove` only read it, exploring futures on clones of it.
 */
module Game {
  import opened Options
  import opened Board
  import opened Search

  class GameState {
    var board: Grid
    var currentPlayer: Player

    /** The default game: an empty board with X to move. */
    constructor ()
      ensures board == EmptyGrid && currentPlayer == X
      ensures TurnConsistent(board, currentPlayer)
    {
      board := EmptyGrid;
      currentPlayer := X;
      EmptyGridFacts();
    }

    /** A copy of `other`, as `self.clone()` makes. */
    constructor Clone(other: GameState)
      ensures board == other.board && currentPlayer == other.currentPlayer
    {
      board := other.board;
      currentPlayer := other.currentPlayer;
    }

    /**
     Marks (row, col) for the player to move and passes the turn when the cell
     is empty; leaves everything as it was and answers false otherwise.
     */
    method MakeMove(row: Idx, col: Idx) returns (ok: bool)
      modifies this
      ensures ok <==> old(board)[row][col] == None
      ensures ok ==> board == Place(old(board), row, col, old(currentPlayer))
      ensures ok ==> currentPlayer == Other(old(currentPlayer))
      ensures !ok ==> board == old(board) && currentPlayer == old(currentPlayer)
      ensures ok ==> EmptyCount(board) == old(EmptyCount(board)) - 1
      ensures old(TurnConsistent(board, currentPlayer)) ==> TurnConsistent(board, currentPlayer)
    {
      if board[row][col] == None {
        ghost var before := board;
        board := Place(board, row, col, currentPlayer);
        PlaceCounts(before, row, col, currentPlayer);
        if TurnConsistent(before, currentPlayer) {
          PlaceKeepsTurn(before, row, col, currentPlayer);
        }
        currentPlayer := match currentPlayer
          case X => O
          case O => X;
        ok := true;
      } else {
        ok := false;
      }
    }

    /** Back to the empty board with X to move. */
    method CleanBoard()
      modifies this
      ensures board == EmptyGrid && currentPlayer == X
      ensures TurnConsistent(board, currentPlayer) && CheckWin(board) == None && !IsDraw(board)
    {
      board := EmptyGrid;
      currentPlayer := X;
      EmptyGridFacts();
    }

    /**
     The minimax score of this board: terminal tests first, then nested loops
     over the cells that recurse on a clone with one more mark.
     */
    method Minimax(depth: int, isMaximizing: bool) returns (score: int)
      ensures score == MinimaxScore(board, depth, isMaximizing)
      decreases EmptyCount(board)
    {
      var winner := CheckWin(board);
      if winner.Some? {
        return match winner.value
          case X => -10 + depth
          case O => 10 - depth;
      }
      if IsDraw(board) {
        return 0;
      }
      if isMaximizing {
        var best := I32Min;
        for row := 0 to 3
          invariant ChildScan(board, depth, true, row, 0, best) == ChildScan(board, depth, true, 0, 0, I32Min)
        {
          for col := 0 to 3
            invariant ChildScan(board, depth, true, row, col, best) == ChildScan(board, depth, true, 0, 0, I32Min)
          {
            if board[row][col] == None {
              var copy := new GameState.Clone(this);
              copy.board := Place(copy.board, row, col, O);
              PlaceCounts(board, row, col, O);
              var s := copy.Minimax(depth + 1, false);
              best := Max(best, s);
            }
          }
        }
        score := best;
      } else {
        var best := I32Max;
        for row := 0 to 3
          invariant ChildScan(board, depth, false, row, 0, best) == ChildScan(board, depth, false, 0, 0, I32Max)
        {
          for col := 0 to 3
            invariant ChildScan(board, depth, false, row, col, best) == ChildScan(board, depth, false, 0, 0, I32Max)
          {
            if board[row][col] == None {
              var copy := new GameState.Clone(this);
              copy.board := Place(copy.board, row, col, X);
              PlaceCounts(board, row, col, X);
              var s := copy.Minimax(depth + 1, true);
              best := Min(best, s);
            }
          }
        }
        score := best;
      }
    }

    /**
     The cell where O should play: `None` exactly on a full board, otherwise
     the first cell in row-major order with the highest move score.
     */
    method BestMove() returns (m: Option<(Idx, Idx)>)
      ensures m == None <==> IsDraw(board)
      ensures m.Some? ==> IsBestMove(board, m.value.0, m.value.1)
    {
      var bestScore := I32Min;
      var best: Option<(Idx, Idx)> := None;
      ghost var b := board;
      ghost var f := (i: Idx, j: Idx) => MoveScore(b, i, j);
      for row := 0 to 3
        invariant BestMoveState(board, f, best, bestScore, 3 * row)
      {
        for col := 0 to 3
          invariant BestMoveState(board, f, best, bestScore, 3 * row + col)
        {
          if board[row][col] == None {
            var copy := new GameState.Clone(this);
            copy.board := Place(copy.board, row, col, O);
            var score := copy.Minimax(0, false);
            MoveScoreInRange(board, row, col);
            assert score == f(row, col);
            BestMoveConsider(board, f, best, bestScore, row, col);
            if score > bestScore {
              bestScore := score;
              best := Some((row, col));
            }
          } else {
            BestMoveSkip(board, f, best, bestScore, row, col);
          }
        }
      }
      BestMoveStateDone(board, f, best, bestScore);
      m := best;
    }
  }

  /**
   The running state of `BestMove` after the first `k` cells in row-major
   order, for cell scores `f`: no move yet and the seed score while those
   cells are all filled; otherwise (row, col) is an empty cell before `k`
   with score `score`, no empty cell before `k` scores more, and every empty
   cell before (row, col) scores less.
   */
  ghost predicate BestMoveState(b: Grid, f: (Idx, Idx) -> int, best: Option<(Idx, Idx)>, score: int, k: int)
  {
    match best
    case None =>
      score == I32Min && forall i: Idx, j: Idx :: 3 * i + j < k ==> b[i][j] != None
    case Some((row, col)) =>
      && 3 * row + col < k
      && b[row][col] == None
      && score == f(row, col)
      && (forall i: Idx, j: Idx :: 3 * i + j < k && b[i][j] == None ==> f(i, j) <= score)
      && (forall i: Idx, j: Idx :: 3 * i + j < 3 * row + col && b[i][j] == None ==> f(i, j) < score)
  }

  /** One turn of `BestMove`'s loops at a filled cell: nothing changes. */
  lemma BestMoveSkip(b: Grid, f: (Idx, Idx) -> int, best: Option<(Idx, Idx)>, score: int, row: Idx, col: Idx)
    requires BestMoveState(b, f, best, score, 3 * row + col)
    requires b[row][col] != None
    ensures BestMoveState(b, f, best, score, 3 * row + col + 1)
  {
  }

  /** One turn of `BestMove`'s loops at an empty cell: only a strictly better score takes over. */
  lemma BestMoveConsider(b: Grid, f: (Idx, Idx) -> int, best: Option<(Idx, Idx)>, score: int, row: Idx, col: Idx)
    requires BestMoveState(b, f, best, score, 3 * row + col)
    requires b[row][col] == None && f(row, col) > I32Min
    ensures f(row, col) > score ==> BestMoveState(b, f, Some((row, col)), f(row, col), 3 * row + col + 1)
    ensures f(row, col) <= score ==> BestMoveState(b, f, best, score, 3 * row + col + 1)
  {
    var k := 3 * row + col;
    if best.Some? {
      var (r, c) := best.value;
      assert forall i: Idx, j: Idx :: 3 * i + j < k + 1 && b[i][j] == None ==> f(i, j) <= score || (i == row && j == col);
    }
  }

  /** After all nine cells, with the move scores for `f`, the running state is what `BestMove` promises. */
  lemma BestMoveStateDone(b: Grid, f: (Idx, Idx) -> int, best: Option<(Idx, Idx)>, score: int)
    requires forall i: Idx, j: Idx :: f(i, j) == MoveScore(b, i, j)
    requires BestMoveState(b, f, best, score, 9)
    ensures best == None <==> IsDraw(b)
    ensures best.Some? ==> IsBestMove(b, best.value.0, best.value.1)
  {
  }

}
