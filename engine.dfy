/** The board engine: a 7x7 array of cells, the selected position, the move
    history and the move counter, updated in place by clicks, undo and
    reset. A ghost snapshot `cells` mirrors the array; `Valid()` ties it to
    the starting layout with the history replayed, which is what makes the
    undo and peg-conservation properties provable. */
module Engine {
  import opened Wrappers
  import opened Position
  import opened Rules

  datatype GameState = InProgress | Win | PerfectWin | GameOver

  /** What a click did; only PegSelected carries a payload, the selected
      peg's destinations. */
  datatype ClickResult = PegSelected(validMoves: seq<int>) | MoveMade | InvalidMove | Deselected

  class GameEngine {
    /** Never reassigned: only its cells are written. */
    const board: array2<Cell>
    var selectedPosition: Option<int>
    var moveHistory: seq<Move>
    var moveCount: int
    /** The array's contents as a snapshot. */
    ghost var cells: Grid

    ghost predicate Mirrors()
      reads this`cells, board
    {
      && board.Length0 == BoardSize && board.Length1 == BoardSize && Shaped(cells)
      && forall r, c :: 0 <= r < BoardSize && 0 <= c < BoardSize ==> board[r, c] == cells[r][c]
    }

    /** The board is the starting layout with the history replayed, every
        move of which was legal when made; the counter counts the history. */
    ghost predicate Consistent()
      reads this`cells, this`moveHistory, this`moveCount, board
    {
      && Mirrors()
      && Replayed(cells, moveHistory)
      && moveCount == |moveHistory|
    }

    /** A selection, when present, is a position holding a peg. */
    ghost predicate SelectionIsPeg()
      reads this`selectedPosition, this`cells
      requires Shaped(cells)
    {
      selectedPosition.Some? ==>
        0 <= selectedPosition.value < TotalCells &&
        cells[Row(selectedPosition.value)][Col(selectedPosition.value)] == Peg
    }

    ghost predicate Valid()
      reads this`cells, this`moveHistory, this`moveCount, this`selectedPosition, board
    {
      Consistent() && SelectionIsPeg()
    }

    /** A fresh engine holds the starting layout, no history and no
        selection. */
    constructor ()
      ensures Valid() && fresh(board)
      ensures cells == Initial() && moveHistory == [] && moveCount == 0 && selectedPosition == None
    {
      board := new Cell[BoardSize, BoardSize]((r, c) => Invalid);
      cells := Initial();
      moveHistory := [];
      moveCount := 0;
      selectedPosition := None;
      new;
      InitializeBoard();
    }

    /** Writes the starting layout cell by cell and clears the history, the
        counter and the selection. */
    method InitializeBoard()
      requires board.Length0 == BoardSize && board.Length1 == BoardSize
      modifies this, board
      ensures Valid()
      ensures cells == Initial() && moveHistory == [] && moveCount == 0 && selectedPosition == None
    {
      for row := 0 to BoardSize
        modifies board
        invariant forall r, c :: 0 <= r < row && 0 <= c < BoardSize ==> board[r, c] == InitialCell(r, c)
      {
        for col := 0 to BoardSize
          modifies board
          invariant forall r, c :: 0 <= r < row && 0 <= c < BoardSize ==> board[r, c] == InitialCell(r, c)
          invariant forall c :: 0 <= c < col ==> board[row, c] == InitialCell(row, c)
        {
          board[row, col] := InitialCell(row, col);
        }
      }
      cells := Initial();
      moveCount := 0;
      moveHistory := [];
      selectedPosition := None;
      InitialFacts();
    }

    /** `resetGame`: back to the starting layout, in place. */
    method ResetGame()
      requires Valid()
      modifies this, board
      ensures Valid()
      ensures cells == Initial() && moveHistory == [] && moveCount == 0 && selectedPosition == None
    {
      InitializeBoard();
    }

    /** Writes one cell of the array and its mirror. */
    method SetCell(row: int, col: int, x: Cell)
      requires Mirrors() && OnGrid(row, col)
      modifies this`cells, board
      ensures Mirrors() && cells == Set(old(cells), row, col, x)
      ensures selectedPosition == old(selectedPosition) && moveHistory == old(moveHistory)
      ensures moveCount == old(moveCount)
    {
      board[row, col] := x;
      cells := Set(cells, row, col, x);
    }

    /** Writes three cells in turn, as a jump and its undo do. */
    method SetThreeCells(row1: int, col1: int, x1: Cell, row2: int, col2: int, x2: Cell,
                         row3: int, col3: int, x3: Cell)
      requires Mirrors() && OnGrid(row1, col1) && OnGrid(row2, col2) && OnGrid(row3, col3)
      modifies this`cells, board
      ensures Mirrors() && cells == Set(Set(Set(old(cells), row1, col1, x1), row2, col2, x2), row3, col3, x3)
      ensures selectedPosition == old(selectedPosition) && moveHistory == old(moveHistory)
      ensures moveCount == old(moveCount)
    {
      SetCell(row1, col1, x1);
      SetCell(row2, col2, x2);
      SetCell(row3, col3, x3);
    }

    /** `isValidMove`, read from the array: agrees with the rule on the
        snapshot. */
    method IsValidMove(fromRow: int, fromCol: int, toRow: int, toCol: int) returns (ok: bool)
      requires Mirrors() && OnGrid(fromRow, fromCol)
      ensures ok == Rules.IsValidMove(cells, fromRow, fromCol, toRow, toCol)
    {
      if !(OnGrid(toRow, toCol) && board[toRow, toCol] != Invalid) || board[toRow, toCol] != Empty {
        return false;
      }
      if board[fromRow, fromCol] != Peg {
        return false;
      }
      var rowDiff, colDiff := Abs(toRow - fromRow), Abs(toCol - fromCol);
      if !((rowDiff == 2 && colDiff == 0) || (rowDiff == 0 && colDiff == 2)) {
        return false;
      }
      var middleRow, middleCol := Mid(fromRow, toRow), Mid(fromCol, toCol);
      return board[middleRow, middleCol] == Peg;
    }

    /** `getValidMovesFor`: tries up, down, left, right and collects the
        legal destinations; by `ValidMovesForSpec` these are exactly the
        legal jumps, in that order. */
    method GetValidMovesFor(row: int, col: int) returns (validMoves: seq<int>)
      requires Mirrors() && OnGrid(row, col)
      ensures validMoves == ValidMovesFor(cells, row, col)
      ensures |validMoves| <= 4
      ensures forall t :: t in validMoves <==> 0 <= t < TotalCells && Rules.IsValidMove(cells, row, col, Row(t), Col(t))
    {
      validMoves := [];
      for i := 0 to |Directions|
        invariant validMoves == MovesUpTo(cells, row, col, i)
      {
        var d := Directions[i];
        var newRow, newCol := row + d.0, col + d.1;
        var legal := IsValidMove(row, col, newRow, newCol);
        MovesUpToStep(cells, row, col, i, d, legal);
        if legal {
          validMoves := validMoves + [RowColToPosition(newRow, newCol)];
        }
      }
      assert |validMoves| <= 4 && forall t :: t in validMoves <==> 0 <= t < TotalCells && Rules.IsValidMove(cells, row, col, Row(t), Col(t)) by {
        ValidMovesForSpec(cells, row, col);
      }
    }

    /** `makeMove`: records the jump and writes its three cells. */
    method MakeMove(fromRow: int, fromCol: int, toRow: int, toCol: int)
      requires Consistent() && OnGrid(fromRow, fromCol)
      requires Rules.IsValidMove(cells, fromRow, fromCol, toRow, toCol)
      modifies this`cells, this`moveHistory, this`moveCount, board
      ensures selectedPosition == old(selectedPosition)
      ensures Consistent()
      ensures moveHistory == old(moveHistory) + [MoveOf(fromRow, fromCol, toRow, toCol)]
      ensures cells == Apply(old(cells), MoveOf(fromRow, fromCol, toRow, toCol))
      ensures Count(cells, Peg) == Count(old(cells), Peg) - 1
    {
      var middleRow, middleCol := Mid(fromRow, toRow), Mid(fromCol, toCol);
      // The record holds the three positions `row * 7 + col`.
      var move := MoveOf(fromRow, fromCol, toRow, toCol);
      PlayableJump(moveHistory, cells, fromRow, fromCol, toRow, toCol);
      moveHistory := moveHistory + [move];

      SetThreeCells(fromRow, fromCol, Empty, toRow, toCol, Peg, middleRow, middleCol, Empty);

      moveCount := moveCount + 1;
    }

    /** `handleCellClick`, with its precedence: an off-grid or Invalid cell is
        refused; a peg other than the selection is selected; the selection
        itself is deselected; an empty cell reached by a legal jump from the
        selection receives that jump; anything else is refused, and a refused
        jump keeps the selection. */
    method HandleCellClick(position: int) returns (result: ClickResult)
      requires Valid()
      modifies this, board
      ensures Valid()
      ensures !Rules.IsValidPosition(old(cells), Row(position), Col(position)) ==>
        && result == InvalidMove
        && cells == old(cells) && moveHistory == old(moveHistory) && selectedPosition == old(selectedPosition)
      ensures (Rules.IsValidPosition(old(cells), Row(position), Col(position)) &&
               old(cells)[Row(position)][Col(position)] == Peg && old(selectedPosition) != Some(position)) ==>
        && result == PegSelected(ValidMovesFor(old(cells), Row(position), Col(position)))
        && selectedPosition == Some(position)
        && cells == old(cells) && moveHistory == old(moveHistory)
      ensures (Rules.IsValidPosition(old(cells), Row(position), Col(position)) &&
               old(selectedPosition) == Some(position)) ==>
        && result == Deselected && selectedPosition == None
        && cells == old(cells) && moveHistory == old(moveHistory)
      ensures (Rules.IsValidPosition(old(cells), Row(position), Col(position)) &&
               old(cells)[Row(position)][Col(position)] != Peg && old(selectedPosition) != Some(position)) ==>
        if && old(cells)[Row(position)][Col(position)] == Empty && old(selectedPosition).Some?
           && Rules.IsValidMove(old(cells), Row(old(selectedPosition).value), Col(old(selectedPosition).value),
                                Row(position), Col(position))
        then
          var m := MoveOf(Row(old(selectedPosition).value), Col(old(selectedPosition).value),
                          Row(position), Col(position));
          && result == MoveMade && selectedPosition == None
          && cells == Apply(old(cells), m) && moveHistory == old(moveHistory) + [m]
          && Count(cells, Peg) == Count(old(cells), Peg) - 1
        else
          && result == InvalidMove
          && cells == old(cells) && moveHistory == old(moveHistory) && selectedPosition == old(selectedPosition)
    {
      var (row, col) := PositionToRowCol(position);
      if !(OnGrid(row, col) && board[row, col] != Invalid) {
        return InvalidMove;
      }
      var cellType := board[row, col];
      if cellType == Peg && selectedPosition != Some(position) {
        selectedPosition := Some(position);
        var validMoves := GetValidMovesFor(row, col);
        return PegSelected(validMoves);
      } else if selectedPosition == Some(position) {
        selectedPosition := None;
        return Deselected;
      } else if cellType == Empty && selectedPosition.Some? {
        var (selectedRow, selectedCol) := PositionToRowCol(selectedPosition.value);
        var legal := IsValidMove(selectedRow, selectedCol, row, col);
        if legal {
          MakeMove(selectedRow, selectedCol, row, col);
          selectedPosition := None;
          return MoveMade;
        } else {
          return InvalidMove;
        }
      } else {
        return InvalidMove;
      }
    }

    /** `undoMove`: with an empty history nothing changes and the answer is
        false; otherwise the last move is popped, its three cells are written
        back, the counter drops and the selection is cleared. The board is
        then the one the popped move was made on. */
    method UndoMove() returns (undone: bool)
      requires Valid()
      modifies this, board
      ensures Valid()
      ensures undone == (|old(moveHistory)| > 0)
      ensures !undone ==>
        cells == old(cells) && moveHistory == old(moveHistory) && selectedPosition == old(selectedPosition)
      ensures undone ==> moveHistory == old(moveHistory)[..|old(moveHistory)| - 1]
      ensures undone ==> moveCount == old(moveCount) - 1 && selectedPosition == None
      ensures undone ==>
        var last := old(moveHistory)[|old(moveHistory)| - 1];
        InRange(last) && cells == Undo(old(cells), last)
    {
      if |moveHistory| == 0 {
        return false;
      }
      // The counter and the selection are independent of the cells, so
      // clearing them before the writes leaves the same final state.
      moveCount := moveCount - 1;
      selectedPosition := None;
      assert Mirrors();
      var lastMove := moveHistory[|moveHistory| - 1];
      ghost var g := cells;
      PlayableUndoWrites(moveHistory, cells);
      moveHistory := moveHistory[..|moveHistory| - 1];
      var (fromRow, fromCol) := PositionToRowCol(lastMove.from);
      var (toRow, toCol) := PositionToRowCol(lastMove.to);
      var (capturedRow, capturedCol) := PositionToRowCol(lastMove.captured);
      SetThreeCells(fromRow, fromCol, Peg, toRow, toCol, Empty, capturedRow, capturedCol, Peg);
      assert cells == Undo(g, lastMove);
      return true;
    }

    /** `getRemainingPegsCount`: counts the pegs row by row. */
    method GetRemainingPegsCount() returns (count: int)
      requires Mirrors()
      ensures count == Count(cells, Peg)
    {
      count := 0;
      for row := 0 to BoardSize
        invariant count == Count(cells[..row], Peg)
      {
        for col := 0 to BoardSize
          invariant count == Count(cells[..row], Peg) + RowCount(cells[row][..col], Peg)
        {
          if board[row, col] == Peg {
            count := count + 1;
          }
          assert cells[row][..col + 1][..col] == cells[row][..col];
        }
        assert cells[row][..BoardSize] == cells[row];
        assert cells[..row + 1][..row] == cells[..row];
      }
      assert cells[..BoardSize] == cells;
    }

    /** `hasValidMoves`: scans the board for a peg that can jump. */
    method HasValidMoves() returns (found: bool)
      requires Mirrors()
      ensures found == HasMove(cells)
    {
      for row := 0 to BoardSize
        invariant forall r, c :: 0 <= r < row && 0 <= c < BoardSize ==> !Movable(cells, r, c)
      {
        for col := 0 to BoardSize
          invariant forall r, c :: 0 <= r < row && 0 <= c < BoardSize ==> !Movable(cells, r, c)
          invariant forall c :: 0 <= c < col ==> !Movable(cells, row, c)
        {
          if board[row, col] == Peg {
            var validMoves := GetValidMovesFor(row, col);
            if validMoves != [] {
              assert Movable(cells, row, col);
              return true;
            }
          }
        }
      }
      return false;
    }

    /** `getHint`: the first peg in row-major order that can jump, with its
        first destination; none exactly when no peg can jump. */
    method GetHint() returns (hint: Option<Move>)
      requires Mirrors()
      ensures hint.None? <==> !HasMove(cells)
      ensures hint.Some? ==> IsHint(cells, hint.value)
    {
      for row := 0 to BoardSize
        invariant forall r, c :: 0 <= r < row && 0 <= c < BoardSize ==> !Movable(cells, r, c)
      {
        for col := 0 to BoardSize
          invariant forall r, c :: 0 <= r < row && 0 <= c < BoardSize ==> !Movable(cells, r, c)
          invariant forall c :: 0 <= c < col ==> !Movable(cells, row, c)
        {
          if board[row, col] == Peg {
            var validMoves := GetValidMovesFor(row, col);
            if validMoves != [] {
              FirstMovableIsHint(cells, row, col);
              return Some(Move(RowColToPosition(row, col), validMoves[0], -1));
            }
          }
        }
      }
      return None;
    }

    /** `getGameState`: one peg left is a win, a perfect one when it sits on
        the centre; otherwise the game goes on while some peg can jump. */
    method GetGameState() returns (state: GameState)
      requires Mirrors()
      ensures state == PerfectWin <==> Count(cells, Peg) == 1 && cells[3][3] == Peg
      ensures state == Win <==> Count(cells, Peg) == 1 && cells[3][3] != Peg
      ensures state == InProgress <==> Count(cells, Peg) != 1 && HasMove(cells)
      ensures state == GameOver <==> Count(cells, Peg) != 1 && !HasMove(cells)
    {
      var remainingPegs := GetRemainingPegsCount();
      if remainingPegs == 1 {
        state := if board[3, 3] == Peg then PerfectWin else Win;
      } else {
        var movable := HasValidMoves();
        state := if movable then InProgress else GameOver;
      }
    }

    /** `getBoard`, as an immutable snapshot of the array. */
    method GetBoard() returns (snapshot: Grid)
      requires Mirrors()
      ensures snapshot == cells
    {
      var b := board;
      snapshot := seq(BoardSize, r requires 0 <= r < b.Length0 reads b =>
                    seq(BoardSize, c requires 0 <= c < b.Length1 reads b => b[r, c]));
      assert forall r :: 0 <= r < BoardSize ==> snapshot[r] == cells[r];
    }

    /** `getMoveCount`: the number of moves in the history, which is also
        the number of pegs taken off. */
    function GetMoveCount(): (n: int)
      reads this, board
      requires Valid()
      ensures n == |moveHistory| && n + Count(cells, Peg) == 32
    {
      ReplayInvariants(moveHistory);
      moveCount
    }

    /** `canUndo`: some move was made, i.e. some peg is missing. */
    function CanUndo(): (b: bool)
      reads this, board
      requires Valid()
      ensures b <==> moveCount > 0
      ensures b <==> Count(cells, Peg) < 32
    {
      ReplayInvariants(moveHistory);
      |moveHistory| > 0
    }
  }

  /** A click that makes a move, followed by `undoMove`, gives back the board,
      the history and the counter from before the click, with no selection. */
  method ClickThenUndo(engine: GameEngine, position: int) returns (result: ClickResult, undone: bool)
    requires engine.Valid()
    modifies engine, engine.board
    ensures engine.Valid()
    ensures result == MoveMade ==>
      && undone
      && engine.cells == old(engine.cells) && engine.moveHistory == old(engine.moveHistory)
      && engine.moveCount == old(engine.moveCount) && engine.selectedPosition == None
  {
    result := engine.HandleCellClick(position);
    undone := false;
    if result == MoveMade {
      undone := engine.UndoMove();
      assert engine.moveHistory == old(engine.moveHistory);
    }
  }
}
