/** The rules of the board, stated on immutable snapshots: the cross-shaped
    layout, jump legality, the destinations of one peg, executing and undoing
    a jump, peg counts and the replay of a move history. The engine class
    keeps its array equal to one of these snapshots. */
module Rules {
  import opened Position

  datatype Cell = Invalid | Empty | Peg

  /** A jump, by position. In a hint `captured` is the sentinel -1. */
  datatype Move = Move(from: int, to: int, captured: int)

  /** A snapshot of the board, indexed `g[row][col]`. */
  type Grid = seq<seq<Cell>>

  predicate Shaped(g: Grid) {
    |g| == BoardSize && forall r :: 0 <= r < |g| ==> |g[r]| == BoardSize
  }

  /** The four 2x2 corner blocks that are not part of the board. */
  predicate IsCorner(row: int, col: int) {
    (row < 2 || row > 4) && (col < 2 || col > 4)
  }

  /** The starting value of one cell. */
  function InitialCell(row: int, col: int): Cell {
    if IsCorner(row, col) then Invalid
    else if row == 3 && col == 3 then Empty
    else Peg
  }

  /** The starting layout. */
  function Initial(): (g: Grid)
    ensures Shaped(g)
  {
    seq(BoardSize, r => seq(BoardSize, c => InitialCell(r, c)))
  }

  /** The Invalid cells are exactly the corner blocks. */
  ghost predicate Layout(g: Grid) {
    Shaped(g) &&
    forall r, c :: OnGrid(r, c) ==> (g[r][c] == Invalid <==> IsCorner(r, c))
  }

  function Abs(x: int): nat {
    if x < 0 then -x else x
  }

  /** On the grid and part of the board. */
  predicate IsValidPosition(g: Grid, row: int, col: int)
    requires Shaped(g)
  {
    OnGrid(row, col) && g[row][col] != Invalid
  }

  /** Midpoint coordinate of a jump, with Kotlin's division. */
  function Mid(a: int, b: int): int {
    KDiv(a + b, 2)
  }

  /** A jump from (fromRow, fromCol) to (toRow, toCol) is legal: the
      destination is a playable empty cell, the source holds a peg, the jump
      is two cells along one axis and the cell jumped over holds a peg. */
  predicate IsValidMove(g: Grid, fromRow: int, fromCol: int, toRow: int, toCol: int)
    requires Shaped(g) && OnGrid(fromRow, fromCol)
  {
    if !IsValidPosition(g, toRow, toCol) || g[toRow][toCol] != Empty then false
    else if g[fromRow][fromCol] != Peg then false
    else
      var rowDiff, colDiff := Abs(toRow - fromRow), Abs(toCol - fromCol);
      if !((rowDiff == 2 && colDiff == 0) || (rowDiff == 0 && colDiff == 2)) then false
      else g[Mid(fromRow, toRow)][Mid(fromCol, toCol)] == Peg
  }

  /** Jump offsets in the order they are tried: up, down, left, right. */
  const Directions: seq<(int, int)> := [(-2, 0), (2, 0), (0, -2), (0, 2)]

  /** One cell in the direction of `e`. */
  function Step(e: int): int {
    if e < 0 then -1 else if e > 0 then 1 else 0
  }

  /** A jump along direction `d`: on the grid, into an empty cell, over the
      peg one step along `d`, from a peg. This is an independent reading of
      the rule. */
  predicate JumpsAlong(g: Grid, row: int, col: int, d: (int, int))
    requires Shaped(g) && OnGrid(row, col)
  {
    && OnGrid(row + d.0, col + d.1)
    && g[row][col] == Peg
    && g[row + d.0][col + d.1] == Empty
    && OnGrid(row + Step(d.0), col + Step(d.1))
    && g[row + Step(d.0)][col + Step(d.1)] == Peg
  }

  /** `isValidMove` holds exactly for the four straight two-cell jumps of
      `Directions` over a peg into an empty cell; in particular it never
      holds for a diagonal or for any other distance. */
  lemma IsValidMoveByDirection(g: Grid, fromRow: int, fromCol: int, toRow: int, toCol: int)
    requires Shaped(g) && OnGrid(fromRow, fromCol)
    ensures IsValidMove(g, fromRow, fromCol, toRow, toCol) <==>
      exists d :: d in Directions && toRow == fromRow + d.0 &&
        toCol == fromCol + d.1 && JumpsAlong(g, fromRow, fromCol, d)
    ensures IsValidMove(g, fromRow, fromCol, toRow, toCol) ==>
      (toRow == fromRow) != (toCol == fromCol) && Abs(toRow - fromRow) + Abs(toCol - fromCol) == 2
  {
    if IsValidMove(g, fromRow, fromCol, toRow, toCol) {
      var d := (toRow - fromRow, toCol - fromCol);
      ValidJumpShape(g, fromRow, fromCol, toRow, toCol);
      ValidJumpHasDirection(g, fromRow, fromCol, toRow, toCol);
      assert d in Directions && toRow == fromRow + d.0 && toCol == fromCol + d.1 && JumpsAlong(g, fromRow, fromCol, d);
    }
    if exists d :: d in Directions && toRow == fromRow + d.0 &&
        toCol == fromCol + d.1 && JumpsAlong(g, fromRow, fromCol, d) {
      var d :| d in Directions && toRow == fromRow + d.0 &&
        toCol == fromCol + d.1 && JumpsAlong(g, fromRow, fromCol, d);
      DirectionIsValidJump(g, fromRow, fromCol, d);
    }
  }

  /** What a legal jump is made of, read off the rule: a straight two-cell
      offset, an empty board cell, a peg at the source and in the middle. */
  lemma ValidJumpShape(g: Grid, fromRow: int, fromCol: int, toRow: int, toCol: int)
    requires Shaped(g) && OnGrid(fromRow, fromCol)
    requires IsValidMove(g, fromRow, fromCol, toRow, toCol)
    ensures var dr, dc := toRow - fromRow, toCol - fromCol;
      (dr == -2 || dr == 0 || dr == 2) && (dc == -2 || dc == 0 || dc == 2) && (dr == 0) != (dc == 0)
    ensures OnGrid(toRow, toCol) && g[toRow][toCol] == Empty && g[fromRow][fromCol] == Peg
    ensures var mr, mc := fromRow + Step(toRow - fromRow), fromCol + Step(toCol - fromCol);
      OnGrid(mr, mc) && g[mr][mc] == Peg
  {
    var dr, dc := toRow - fromRow, toCol - fromCol;
    assert (dr == -2 || dr == 0 || dr == 2) && (dc == -2 || dc == 0 || dc == 2);
    MidOfStep(fromRow, toRow, dr);
    MidOfStep(fromCol, toCol, dc);
  }

  lemma ValidJumpHasDirection(g: Grid, fromRow: int, fromCol: int, toRow: int, toCol: int)
    requires Shaped(g) && OnGrid(fromRow, fromCol)
    requires IsValidMove(g, fromRow, fromCol, toRow, toCol)
    ensures var d := (toRow - fromRow, toCol - fromCol);
      d in Directions && JumpsAlong(g, fromRow, fromCol, d)
  {
    ValidJumpShape(g, fromRow, fromCol, toRow, toCol);
    ShapeHasDirection(g, fromRow, fromCol, toRow - fromRow, toCol - fromCol);
  }

  /** A jump of the shape `ValidJumpShape` describes is one of `Directions`. */
  lemma ShapeHasDirection(g: Grid, fromRow: int, fromCol: int, dr: int, dc: int)
    requires Shaped(g) && OnGrid(fromRow, fromCol)
    requires (dr == -2 || dr == 0 || dr == 2) && (dc == -2 || dc == 0 || dc == 2) && (dr == 0) != (dc == 0)
    requires OnGrid(fromRow + dr, fromCol + dc) && g[fromRow + dr][fromCol + dc] == Empty
    requires g[fromRow][fromCol] == Peg
    requires OnGrid(fromRow + Step(dr), fromCol + Step(dc))
    requires g[fromRow + Step(dr)][fromCol + Step(dc)] == Peg
    ensures (dr, dc) in Directions && JumpsAlong(g, fromRow, fromCol, (dr, dc))
  {
    if dr == -2 {
      assert (dr, dc) == Directions[0];
    } else if dr == 2 {
      assert (dr, dc) == Directions[1];
    } else if dc == -2 {
      assert (dr, dc) == Directions[2];
    } else {
      assert (dr, dc) == Directions[3];
    }
  }

  lemma DirectionIsValidJump(g: Grid, fromRow: int, fromCol: int, d: (int, int))
    requires Shaped(g) && OnGrid(fromRow, fromCol)
    requires d in Directions && JumpsAlong(g, fromRow, fromCol, d)
    ensures IsValidMove(g, fromRow, fromCol, fromRow + d.0, fromCol + d.1)
  {
    DirectionShape(d);
    MidOfStep(fromRow, fromRow + d.0, d.0);
    MidOfStep(fromCol, fromCol + d.1, d.1);
  }

  /** Each direction moves two cells along exactly one axis. */
  lemma DirectionShape(d: (int, int))
    requires d in Directions
    ensures (d.0 == 0 && Abs(d.1) == 2) || (Abs(d.0) == 2 && d.1 == 0)
    ensures (d.0 == -2 || d.0 == 0 || d.0 == 2) && (d.1 == -2 || d.1 == 0 || d.1 == 2)
  {
    assert d == Directions[0] || d == Directions[1] || d == Directions[2] || d == Directions[3];
  }

  /** The cell halfway along a step of -2, 0 or 2 is one step along it. */
  lemma MidOfStep(a: int, b: int, e: int)
    requires e == -2 || e == 0 || e == 2
    requires b == a + e
    ensures Mid(a, b) == a + Step(e)
  {
    if a + a + e >= 0 {
      assert (a + a + e) / 2 == a + Step(e);
    } else {
      assert (-(a + a + e)) / 2 == -(a + Step(e));
    }
  }

  /** The destination along `d`, as a position, when that jump is legal. */
  function MoveAlong(g: Grid, row: int, col: int, d: (int, int)): seq<int>
    requires Shaped(g) && OnGrid(row, col)
  {
    if IsValidMove(g, row, col, row + d.0, col + d.1)
    then [RowColToPosition(row + d.0, col + d.1)] else []
  }

  /** The destinations reached from (row, col) along the first `n`
      directions, in order, as positions. */
  function MovesUpTo(g: Grid, row: int, col: int, n: nat): seq<int>
    requires Shaped(g) && OnGrid(row, col) && n <= |Directions|
  {
    if n == 0 then [] else MovesUpTo(g, row, col, n - 1) + MoveAlong(g, row, col, Directions[n - 1])
  }

  /** One more direction tried: the destination along it is appended
      exactly when the jump is legal. */
  lemma MovesUpToStep(g: Grid, row: int, col: int, n: nat, d: (int, int), legal: bool)
    requires Shaped(g) && OnGrid(row, col) && n < |Directions| && d == Directions[n]
    requires legal == IsValidMove(g, row, col, row + d.0, col + d.1)
    ensures MovesUpTo(g, row, col, n + 1) == MovesUpTo(g, row, col, n) +
      (if legal then [RowColToPosition(row + d.0, col + d.1)] else [])
  {
    assert MovesUpTo(g, row, col, n + 1) == MovesUpTo(g, row, col, n) + MoveAlong(g, row, col, d);
  }

  /** `getValidMovesFor(row, col)`. */
  function ValidMovesFor(g: Grid, row: int, col: int): seq<int>
    requires Shaped(g) && OnGrid(row, col)
  {
    MovesUpTo(g, row, col, |Directions|)
  }

  /** Rank of a destination in the fixed order up, down, left, right. */
  function DirectionRank(row: int, col: int, position: int): int {
    if position == RowColToPosition(row - 2, col) then 0
    else if position == RowColToPosition(row + 2, col) then 1
    else if position == RowColToPosition(row, col - 2) then 2
    else 3
  }

  /** Listed in strictly increasing direction rank. */
  predicate Ranked(row: int, col: int, s: seq<int>) {
    forall i, j :: 0 <= i < j < |s| ==> DirectionRank(row, col, s[i]) < DirectionRank(row, col, s[j])
  }

  lemma ValidMovesForUnfold(g: Grid, row: int, col: int)
    requires Shaped(g) && OnGrid(row, col)
    ensures ValidMovesFor(g, row, col) ==
      MoveAlong(g, row, col, (-2, 0)) + MoveAlong(g, row, col, (2, 0)) +
      MoveAlong(g, row, col, (0, -2)) + MoveAlong(g, row, col, (0, 2))
  {
    assert Directions[0] == (-2, 0) && Directions[1] == (2, 0) && Directions[2] == (0, -2) && Directions[3] == (0, 2);
    assert MovesUpTo(g, row, col, 1) == MoveAlong(g, row, col, (-2, 0));
    assert MovesUpTo(g, row, col, 2) == MovesUpTo(g, row, col, 1) + MoveAlong(g, row, col, (2, 0));
    assert MovesUpTo(g, row, col, 3) == MovesUpTo(g, row, col, 2) + MoveAlong(g, row, col, (0, -2));
  }

  lemma RankedSnoc(row: int, col: int, s: seq<int>, t: seq<int>, k: int)
    requires Ranked(row, col, s) && |t| <= 1
    requires forall x :: x in s ==> DirectionRank(row, col, x) < k
    requires forall y :: y in t ==> DirectionRank(row, col, y) == k
    ensures Ranked(row, col, s + t)
    ensures forall x :: x in s + t ==> DirectionRank(row, col, x) <= k
  {
    var u := s + t;
    forall i, j | 0 <= i < j < |u| ensures DirectionRank(row, col, u[i]) < DirectionRank(row, col, u[j]) {
      if j >= |s| {
        assert u[i] in s && u[j] in t;
      }
    }
  }

  /** The destinations of one peg are exactly the legal jumps from it, at
      most four, listed in the order up, down, left, right (hence
      distinct). */
  lemma ValidMovesForSpec(g: Grid, row: int, col: int)
    requires Shaped(g) && OnGrid(row, col)
    ensures |ValidMovesFor(g, row, col)| <= 4
    ensures forall t :: t in ValidMovesFor(g, row, col) <==>
      0 <= t < TotalCells && IsValidMove(g, row, col, Row(t), Col(t))
    ensures Ranked(row, col, ValidMovesFor(g, row, col))
  {
    ValidMovesForUnfold(g, row, col);
    ValidMovesForMembers(g, row, col);
    var a, b := MoveAlong(g, row, col, (-2, 0)), MoveAlong(g, row, col, (2, 0));
    var c, d := MoveAlong(g, row, col, (0, -2)), MoveAlong(g, row, col, (0, 2));
    RankedSnoc(row, col, [], a, 0);
    RankedSnoc(row, col, a, b, 1);
    RankedSnoc(row, col, a + b, c, 2);
    RankedSnoc(row, col, a + b + c, d, 3);
  }

  lemma ValidMovesForMembers(g: Grid, row: int, col: int)
    requires Shaped(g) && OnGrid(row, col)
    ensures forall t :: t in ValidMovesFor(g, row, col) <==>
      0 <= t < TotalCells && IsValidMove(g, row, col, Row(t), Col(t))
  {
    forall t
      ensures t in ValidMovesFor(g, row, col) <==>
        0 <= t < TotalCells && IsValidMove(g, row, col, Row(t), Col(t))
    {
      DestinationListedIff(g, row, col, t);
    }
  }

  lemma DestinationListedIff(g: Grid, row: int, col: int, t: int)
    requires Shaped(g) && OnGrid(row, col)
    ensures t in ValidMovesFor(g, row, col) <==>
      0 <= t < TotalCells && IsValidMove(g, row, col, Row(t), Col(t))
  {
    ValidMovesForUnfold(g, row, col);
    if t in ValidMovesFor(g, row, col) {
      if t in MoveAlong(g, row, col, (-2, 0)) {
        ListedDestinationLegal(g, row, col, (-2, 0), t);
      } else if t in MoveAlong(g, row, col, (2, 0)) {
        ListedDestinationLegal(g, row, col, (2, 0), t);
      } else if t in MoveAlong(g, row, col, (0, -2)) {
        ListedDestinationLegal(g, row, col, (0, -2), t);
      } else {
        ListedDestinationLegal(g, row, col, (0, 2), t);
      }
    }
    if 0 <= t < TotalCells && IsValidMove(g, row, col, Row(t), Col(t)) {
      LegalDestinationListed(g, row, col, t);
    }
  }

  lemma ListedDestinationLegal(g: Grid, row: int, col: int, d: (int, int), t: int)
    requires Shaped(g) && OnGrid(row, col) && t in MoveAlong(g, row, col, d)
    ensures 0 <= t < TotalCells && IsValidMove(g, row, col, Row(t), Col(t))
  {
    assert IsValidMove(g, row, col, row + d.0, col + d.1);
    assert OnGrid(row + d.0, col + d.1);
    assert t == RowColToPosition(row + d.0, col + d.1);
  }

  lemma LegalDestinationListed(g: Grid, row: int, col: int, t: int)
    requires Shaped(g) && OnGrid(row, col)
    requires 0 <= t < TotalCells && IsValidMove(g, row, col, Row(t), Col(t))
    ensures var d := (Row(t) - row, Col(t) - col);
      d in Directions && t in MoveAlong(g, row, col, d)
  {
    var rc := PositionToRowCol(t);
    ValidJumpHasDirection(g, row, col, Row(t), Col(t));
  }

  /** A peg with at least one legal jump. */
  predicate Movable(g: Grid, row: int, col: int)
    requires Shaped(g) && OnGrid(row, col)
  {
    g[row][col] == Peg && ValidMovesFor(g, row, col) != []
  }

  /** Some peg on the board can jump (`hasValidMoves`). */
  ghost predicate HasMove(g: Grid)
    requires Shaped(g)
  {
    exists r, c :: OnGrid(r, c) && Movable(g, r, c)
  }

  /** Row-major order of cells: (r, c) is visited before (r', c'). */
  predicate Before(r: int, c: int, r': int, c': int) {
    r < r' || (r == r' && c < c')
  }

  /** `m` is the hint for `g`: it starts at the first peg in row-major order
      that can jump, goes to that peg's first destination in the order up,
      down, left, right, and carries the sentinel -1 as `captured`. */
  ghost predicate IsHint(g: Grid, m: Move)
    requires Shaped(g)
  {
    && 0 <= m.from < TotalCells
    && Movable(g, Row(m.from), Col(m.from))
    && m.to == ValidMovesFor(g, Row(m.from), Col(m.from))[0]
    && m.captured == -1
    && forall r, c :: OnGrid(r, c) && Before(r, c, Row(m.from), Col(m.from)) ==> !Movable(g, r, c)
  }

  /** The first movable peg in row-major order yields the hint. */
  lemma FirstMovableIsHint(g: Grid, row: int, col: int)
    requires Shaped(g) && OnGrid(row, col) && Movable(g, row, col)
    requires forall r, c :: 0 <= r < row && 0 <= c < BoardSize ==> !Movable(g, r, c)
    requires forall c :: 0 <= c < col ==> !Movable(g, row, c)
    ensures HasMove(g)
    ensures IsHint(g, Move(RowColToPosition(row, col), ValidMovesFor(g, row, col)[0], -1))
  {
    var from := RowColToPosition(row, col);
    assert Row(from) == row && Col(from) == col;
  }

  /** A board has at most one hint, so asking twice gives the same move. */
  lemma HintIsUnique(g: Grid, m1: Move, m2: Move)
    requires Shaped(g) && IsHint(g, m1) && IsHint(g, m2)
    ensures m1 == m2
  {
    var r1, c1, r2, c2 := Row(m1.from), Col(m1.from), Row(m2.from), Col(m2.from);
    assert !Before(r1, c1, r2, c2) && !Before(r2, c2, r1, c1);
    var _ := PositionToRowCol(m1.from);
    var _ := PositionToRowCol(m2.from);
  }

  /** The snapshot with one cell replaced. */
  function Set(g: Grid, row: int, col: int, x: Cell): (g': Grid)
    requires Shaped(g) && OnGrid(row, col)
    ensures Shaped(g')
    ensures g'[row][col] == x
  {
    g[row := g[row][col := x]]
  }

  /** Positions of a move all denote cells of the grid. */
  predicate InRange(m: Move) {
    0 <= m.from < TotalCells && 0 <= m.to < TotalCells && 0 <= m.captured < TotalCells
  }

  /** `makeMove`'s three writes: from -> Empty, to -> Peg, captured -> Empty. */
  function Apply(g: Grid, m: Move): (g': Grid)
    requires Shaped(g) && InRange(m)
    ensures Shaped(g')
  {
    var rc1 := PositionToRowCol(m.from);
    var rc2 := PositionToRowCol(m.to);
    var rc3 := PositionToRowCol(m.captured);
    Set(Set(Set(g, rc1.0, rc1.1, Empty), rc2.0, rc2.1, Peg), rc3.0, rc3.1, Empty)
  }

  /** `undoMove`'s three writes: from -> Peg, to -> Empty, captured -> Peg. */
  function Undo(g: Grid, m: Move): (g': Grid)
    requires Shaped(g) && InRange(m)
    ensures Shaped(g')
  {
    var rc1 := PositionToRowCol(m.from);
    var rc2 := PositionToRowCol(m.to);
    var rc3 := PositionToRowCol(m.captured);
    Set(Set(Set(g, rc1.0, rc1.1, Peg), rc2.0, rc2.1, Empty), rc3.0, rc3.1, Peg)
  }

  /** The record `makeMove` appends for a jump. */
  function MoveOf(fromRow: int, fromCol: int, toRow: int, toCol: int): Move {
    Move(RowColToPosition(fromRow, fromCol), RowColToPosition(toRow, toCol),
         RowColToPosition(Mid(fromRow, toRow), Mid(fromCol, toCol)))
  }

  /** `m` is the record of a legal jump on `g`. */
  predicate LegalMove(g: Grid, m: Move)
    requires Shaped(g)
  {
    && 0 <= m.from < TotalCells && 0 <= m.to < TotalCells
    && IsValidMove(g, Row(m.from), Col(m.from), Row(m.to), Col(m.to))
    && m == MoveOf(Row(m.from), Col(m.from), Row(m.to), Col(m.to))
  }

  /** The record of a legal jump is a legal move whose positions are all on
      the grid and decode back to the jump's cells. */
  lemma MoveOfLegal(g: Grid, fromRow: int, fromCol: int, toRow: int, toCol: int)
    requires Shaped(g) && OnGrid(fromRow, fromCol)
    requires IsValidMove(g, fromRow, fromCol, toRow, toCol)
    ensures InRange(MoveOf(fromRow, fromCol, toRow, toCol))
    ensures LegalMove(g, MoveOf(fromRow, fromCol, toRow, toCol))
    ensures PositionToRowCol(MoveOf(fromRow, fromCol, toRow, toCol).captured) ==
      (Mid(fromRow, toRow), Mid(fromCol, toCol))
  {
    IsValidMoveByDirection(g, fromRow, fromCol, toRow, toCol);
    var m := MoveOf(fromRow, fromCol, toRow, toCol);
    assert OnGrid(Mid(fromRow, toRow), Mid(fromCol, toCol));
    assert Row(m.from) == fromRow && Col(m.from) == fromCol;
    assert Row(m.to) == toRow && Col(m.to) == toCol;
  }

  /** `makeMove`'s writes, by row and column, are those of `Apply` on the
      record of the jump. */
  lemma ApplyMoveOf(g: Grid, fromRow: int, fromCol: int, toRow: int, toCol: int)
    requires Shaped(g) && OnGrid(fromRow, fromCol)
    requires IsValidMove(g, fromRow, fromCol, toRow, toCol)
    ensures InRange(MoveOf(fromRow, fromCol, toRow, toCol))
    ensures OnGrid(toRow, toCol) && OnGrid(Mid(fromRow, toRow), Mid(fromCol, toCol))
    ensures Apply(g, MoveOf(fromRow, fromCol, toRow, toCol)) ==
      Set(Set(Set(g, fromRow, fromCol, Empty), toRow, toCol, Peg), Mid(fromRow, toRow), Mid(fromCol, toCol), Empty)
  {
    MoveOfLegal(g, fromRow, fromCol, toRow, toCol);
  }

  /** One legal jump from a board reached by legal play: `makeMove`'s three
      writes give the board reached by the history with the jump appended,
      which keeps the layout and has one peg fewer. */
  lemma PlayableJump(h: seq<Move>, g: Grid, fromRow: int, fromCol: int, toRow: int, toCol: int)
    requires Replayed(g, h) && OnGrid(fromRow, fromCol)
    requires IsValidMove(g, fromRow, fromCol, toRow, toCol)
    ensures InRange(MoveOf(fromRow, fromCol, toRow, toCol))
    ensures OnGrid(toRow, toCol) && OnGrid(Mid(fromRow, toRow), Mid(fromCol, toCol))
    ensures var m := MoveOf(fromRow, fromCol, toRow, toCol);
      && Replayed(Apply(g, m), h + [m])
      && Apply(g, m) == Set(Set(Set(g, fromRow, fromCol, Empty), toRow, toCol, Peg),
                            Mid(fromRow, toRow), Mid(fromCol, toCol), Empty)
      && Count(Apply(g, m), Peg) == Count(g, Peg) - 1
  {
    var m := MoveOf(fromRow, fromCol, toRow, toCol);
    ReplayInvariants(h);
    MoveOfLegal(g, fromRow, fromCol, toRow, toCol);
    ApplyMoveOf(g, fromRow, fromCol, toRow, toCol);
    ApplyPegCount(g, m);
    ApplyKeepsLayout(g, m);
    PlayablePush(Initial(), h, m);
  }

  /** Taking the last move off a playable history: the rest is playable, the
      last move was legal on the board the rest reaches, and undoing it gives
      back that board with one more peg. */
  lemma PlayablePop(h: seq<Move>)
    requires Playable(Initial(), h) && h != []
    ensures var p, last := h[..|h| - 1], h[|h| - 1];
      && Playable(Initial(), p) && InRange(last)
      && LegalMove(Replay(Initial(), p), last)
      && Replay(Initial(), h) == Apply(Replay(Initial(), p), last)
      && Undo(Replay(Initial(), h), last) == Replay(Initial(), p)
      && Layout(Replay(Initial(), p))
      && Count(Replay(Initial(), h), Peg) + 1 == Count(Replay(Initial(), p), Peg)
  {
    var p, last := h[..|h| - 1], h[|h| - 1];
    UndoAfterApply(Replay(Initial(), p), last);
    ApplyPegCount(Replay(Initial(), p), last);
    ReplayInvariants(p);
  }

  /** `undoMove`'s three writes on the board a playable history reaches
      give the board reached by the history without its last move. */
  lemma PlayableUndoWrites(h: seq<Move>, g: Grid)
    requires Replayed(g, h) && h != []
    ensures var p, last := h[..|h| - 1], h[|h| - 1];
      var f, t, k := PositionToRowCol(last.from), PositionToRowCol(last.to), PositionToRowCol(last.captured);
      && InRange(last)
      && OnGrid(f.0, f.1) && OnGrid(t.0, t.1) && OnGrid(k.0, k.1)
      && Replayed(Set(Set(Set(g, f.0, f.1, Peg), t.0, t.1, Empty), k.0, k.1, Peg), p)
  {
    PlayablePop(h);
  }

  /** Executing a legal jump changes exactly three cells: the source and the
      jumped-over cell become Empty, the destination becomes Peg. */
  lemma ApplyChangesThreeCells(g: Grid, m: Move)
    requires Shaped(g) && LegalMove(g, m)
    ensures InRange(m)
    ensures var f, t, k := PositionToRowCol(m.from), PositionToRowCol(m.to), PositionToRowCol(m.captured);
      && f != t && f != k && t != k
      && g[f.0][f.1] == Peg && g[k.0][k.1] == Peg && g[t.0][t.1] == Empty
      && Apply(g, m)[f.0][f.1] == Empty && Apply(g, m)[k.0][k.1] == Empty
      && Apply(g, m)[t.0][t.1] == Peg
      && forall r, c :: OnGrid(r, c) && (r, c) != f && (r, c) != t && (r, c) != k ==>
           Apply(g, m)[r][c] == g[r][c]
  {
    var fr, fc, tr, tc := Row(m.from), Col(m.from), Row(m.to), Col(m.to);
    var _ := PositionToRowCol(m.from);
    MoveOfLegal(g, fr, fc, tr, tc);
  }

  /** Undoing a legal jump right after executing it gives back the exact
      board it was executed on. */
  lemma {:induction false} UndoAfterApply(g: Grid, m: Move)
    requires Shaped(g) && LegalMove(g, m)
    ensures InRange(m) && Undo(Apply(g, m), m) == g
  {
    ApplyChangesThreeCells(g, m);
    var u := Undo(Apply(g, m), m);
    forall r | 0 <= r < BoardSize ensures u[r] == g[r] {
      assert forall c :: 0 <= c < BoardSize ==> u[r][c] == g[r][c];
    }
  }

  /** Indicator: 1 for a cell holding `x`, else 0. */
  function Ind(y: Cell, x: Cell): nat {
    if y == x then 1 else 0
  }

  /** Number of cells of one row equal to `x`. */
  function RowCount(s: seq<Cell>, x: Cell): nat {
    if s == [] then 0 else RowCount(s[..|s| - 1], x) + Ind(s[|s| - 1], x)
  }

  /** Number of cells of the board equal to `x`, row by row. */
  function Count(g: Grid, x: Cell): nat {
    if g == [] then 0 else Count(g[..|g| - 1], x) + RowCount(g[|g| - 1], x)
  }

  /** A row count is the multiplicity of `x` in the row. */
  lemma {:induction false} RowCountMultiset(s: seq<Cell>, x: Cell)
    ensures RowCount(s, x) == multiset(s)[x]
  {
    if s != [] {
      var n := |s| - 1;
      RowCountMultiset(s[..n], x);
      assert s == s[..n] + [s[n]];
    }
  }

  lemma {:induction false} RowCountUpdate(s: seq<Cell>, i: int, y: Cell, x: Cell)
    requires 0 <= i < |s|
    ensures RowCount(s[i := y], x) == RowCount(s, x) - Ind(s[i], x) + Ind(y, x)
  {
    var n := |s| - 1;
    if i == n {
      assert s[i := y][..n] == s[..n];
    } else {
      assert s[i := y][..n] == s[..n][i := y];
      RowCountUpdate(s[..n], i, y, x);
    }
  }

  lemma {:induction false} CountUpdate(g: Grid, i: int, row: seq<Cell>, x: Cell)
    requires 0 <= i < |g|
    ensures Count(g[i := row], x) == Count(g, x) - RowCount(g[i], x) + RowCount(row, x)
  {
    var n := |g| - 1;
    if i == n {
      assert g[i := row][..n] == g[..n];
    } else {
      assert g[i := row][..n] == g[..n][i := row];
      CountUpdate(g[..n], i, row, x);
    }
  }

  /** Replacing one cell changes each count by the indicator difference. */
  lemma CountSet(g: Grid, row: int, col: int, y: Cell, x: Cell)
    requires Shaped(g) && OnGrid(row, col)
    ensures Count(Set(g, row, col, y), x) == Count(g, x) - Ind(g[row][col], x) + Ind(y, x)
  {
    RowCountUpdate(g[row], col, y, x);
    CountUpdate(g, row, g[row][col := y], x);
  }

  /** A legal jump removes exactly one peg. */
  lemma ApplyPegCount(g: Grid, m: Move)
    requires Shaped(g) && LegalMove(g, m)
    ensures InRange(m) && Count(Apply(g, m), Peg) == Count(g, Peg) - 1
  {
    ApplyChangesThreeCells(g, m);
    var f, t, k := PositionToRowCol(m.from), PositionToRowCol(m.to), PositionToRowCol(m.captured);
    var g1 := Set(g, f.0, f.1, Empty);
    var g2 := Set(g1, t.0, t.1, Peg);
    CountSet(g, f.0, f.1, Empty, Peg);
    CountSet(g1, t.0, t.1, Peg, Peg);
    CountSet(g2, k.0, k.1, Empty, Peg);
  }

  /** A legal jump keeps the Invalid cells where they were. */
  lemma ApplyKeepsLayout(g: Grid, m: Move)
    requires Layout(g) && LegalMove(g, m)
    ensures InRange(m) && Layout(Apply(g, m))
  {
    ApplyChangesThreeCells(g, m);
  }

  /** Every cell of the board is Invalid, Empty or Peg, so the three counts
      add up to the 49 cells. */
  lemma {:induction false} CountsPartition(g: Grid)
    requires Shaped(g)
    ensures Count(g, Invalid) + Count(g, Empty) + Count(g, Peg) == TotalCells
  {
    forall r | 0 <= r < BoardSize
      ensures RowCount(g[r], Invalid) + RowCount(g[r], Empty) + RowCount(g[r], Peg) == BoardSize
    {
      RowPartition(g[r]);
    }
    GridPartition(g);
  }

  lemma {:induction false} RowPartition(s: seq<Cell>)
    ensures RowCount(s, Invalid) + RowCount(s, Empty) + RowCount(s, Peg) == |s|
  {
    if s != [] {
      RowPartition(s[..|s| - 1]);
    }
  }

  /** Rows of seven cells each make seven cells per row across the board. */
  lemma {:induction false} GridPartition(g: Grid)
    requires forall r :: 0 <= r < |g| ==> RowCount(g[r], Invalid) + RowCount(g[r], Empty) + RowCount(g[r], Peg) == 7
    ensures Count(g, Invalid) + Count(g, Empty) + Count(g, Peg) == 7 * |g|
  {
    if g != [] {
      var front, last := g[..|g| - 1], g[|g| - 1];
      forall r | 0 <= r < |front|
        ensures RowCount(front[r], Invalid) + RowCount(front[r], Empty) + RowCount(front[r], Peg) == 7
      {
        assert front[r] == g[r];
      }
      GridPartition(front);
      assert Count(g, Invalid) == Count(front, Invalid) + RowCount(last, Invalid);
      assert Count(g, Empty) == Count(front, Empty) + RowCount(last, Empty);
      assert Count(g, Peg) == Count(front, Peg) + RowCount(last, Peg);
    }
  }

  const CornerRow: seq<Cell> := [Invalid, Invalid, Peg, Peg, Peg, Invalid, Invalid]
  const FullRow: seq<Cell> := [Peg, Peg, Peg, Peg, Peg, Peg, Peg]
  const CenterRow: seq<Cell> := [Peg, Peg, Peg, Empty, Peg, Peg, Peg]

  /** The starting layout row by row. */
  lemma InitialRows()
    ensures Initial() == [CornerRow, CornerRow, FullRow, CenterRow, FullRow, CornerRow, CornerRow]
  {
    var g := Initial();
    var rows := [CornerRow, CornerRow, FullRow, CenterRow, FullRow, CornerRow, CornerRow];
    forall r | 0 <= r < BoardSize ensures g[r] == rows[r] {
    }
  }

  lemma CountSnoc(g: Grid, row: seq<Cell>, x: Cell)
    ensures Count(g + [row], x) == Count(g, x) + RowCount(row, x)
  {
    assert (g + [row])[..|g|] == g;
  }

  lemma InitialCount(x: Cell)
    ensures Count(Initial(), x) ==
      4 * RowCount(CornerRow, x) + 2 * RowCount(FullRow, x) + RowCount(CenterRow, x)
  {
    InitialRows();
    var e: Grid := [];
    var g1 := e + [CornerRow];
    var g2 := g1 + [CornerRow];
    var g3 := g2 + [FullRow];
    var g4 := g3 + [CenterRow];
    var g5 := g4 + [FullRow];
    var g6 := g5 + [CornerRow];
    var g7 := g6 + [CornerRow];
    CountSnoc(e, CornerRow, x);
    CountSnoc(g1, CornerRow, x);
    CountSnoc(g2, FullRow, x);
    CountSnoc(g3, CenterRow, x);
    CountSnoc(g4, FullRow, x);
    CountSnoc(g5, CornerRow, x);
    CountSnoc(g6, CornerRow, x);
    assert g7 == Initial();
  }

  lemma CornerRowCounts()
    ensures RowCount(CornerRow, Invalid) == 4 && RowCount(CornerRow, Empty) == 0 && RowCount(CornerRow, Peg) == 3
  {
    RowCountMultiset(CornerRow, Invalid);
    RowCountMultiset(CornerRow, Empty);
    RowCountMultiset(CornerRow, Peg);
  }

  lemma FullRowCounts()
    ensures RowCount(FullRow, Invalid) == 0 && RowCount(FullRow, Empty) == 0 && RowCount(FullRow, Peg) == 7
  {
    RowCountMultiset(FullRow, Invalid);
    RowCountMultiset(FullRow, Empty);
    RowCountMultiset(FullRow, Peg);
  }

  lemma CenterRowCounts()
    ensures RowCount(CenterRow, Invalid) == 0 && RowCount(CenterRow, Empty) == 1 && RowCount(CenterRow, Peg) == 6
  {
    RowCountMultiset(CenterRow, Invalid);
    RowCountMultiset(CenterRow, Empty);
    RowCountMultiset(CenterRow, Peg);
  }

  /** The starting layout: 16 Invalid corner cells, one Empty cell at the
      centre (position 24) and 32 pegs. */
  lemma InitialFacts()
    ensures Layout(Initial())
    ensures Initial()[3][3] == Empty && Row(CenterPosition) == 3 && Col(CenterPosition) == 3
    ensures forall r, c :: OnGrid(r, c) && (r, c) != (3, 3) && !IsCorner(r, c) ==> Initial()[r][c] == Peg
    ensures Count(Initial(), Invalid) == 16
    ensures Count(Initial(), Empty) == 1
    ensures Count(Initial(), Peg) == 32
  {
    InitialCount(Invalid);
    InitialCount(Empty);
    InitialCount(Peg);
    CornerRowCounts();
    FullRowCounts();
    CenterRowCounts();
  }

  /** Every recorded move is in range. */
  predicate AllInRange(h: seq<Move>) {
    forall i :: 0 <= i < |h| ==> InRange(h[i])
  }

  /** The board reached from `g` by executing the moves of `h` in order. */
  function Replay(g: Grid, h: seq<Move>): (g': Grid)
    requires Shaped(g) && AllInRange(h)
    ensures Shaped(g')
  {
    if h == [] then g else Apply(Replay(g, h[..|h| - 1]), h[|h| - 1])
  }

  /** Every move of `h` was legal on the board it was executed on. */
  ghost predicate Playable(g: Grid, h: seq<Move>) {
    Shaped(g) && AllInRange(h) &&
    (h == [] || (Playable(g, h[..|h| - 1]) && LegalMove(Replay(g, h[..|h| - 1]), h[|h| - 1])))
  }

  /** `g` is the starting layout with the legally played history `h`
      replayed, and it keeps the corner layout. */
  ghost predicate Replayed(g: Grid, h: seq<Move>) {
    Playable(Initial(), h) && g == Replay(Initial(), h) && Layout(g)
  }

  /** Appending a legal move to a playable history keeps it playable and
      executes that move. */
  lemma PlayablePush(g: Grid, h: seq<Move>, m: Move)
    requires Playable(g, h) && LegalMove(Replay(g, h), m)
    ensures Playable(g, h + [m]) && Replay(g, h + [m]) == Apply(Replay(g, h), m)
  {
    var h' := h + [m];
    MoveOfLegal(Replay(g, h), Row(m.from), Col(m.from), Row(m.to), Col(m.to));
    assert h'[..|h'| - 1] == h && h'[|h'| - 1] == m;
    assert AllInRange(h');
  }

  /** Every board reached by legal play from the start keeps the corner
      layout and holds 32 pegs minus one per move, so it never has more than
      32 moves behind it. */
  lemma {:induction false} ReplayInvariants(h: seq<Move>)
    requires Playable(Initial(), h)
    ensures Layout(Replay(Initial(), h))
    ensures Count(Replay(Initial(), h), Peg) + |h| == 32
  {
    if h == [] {
      InitialFacts();
    } else {
      var p := h[..|h| - 1];
      ReplayInvariants(p);
      ApplyKeepsLayout(Replay(Initial(), p), h[|h| - 1]);
      ApplyPegCount(Replay(Initial(), p), h[|h| - 1]);
    }
  }

  /** A row holding a peg has a positive peg count. */
  lemma {:induction false} RowCountPositive(s: seq<Cell>, i: int, x: Cell)
    requires 0 <= i < |s| && s[i] == x
    ensures RowCount(s, x) >= 1
  {
    if i < |s| - 1 {
      RowCountPositive(s[..|s| - 1], i, x);
    }
  }

  lemma {:induction false} CountPositive(g: Grid, r: int, c: int, x: Cell)
    requires 0 <= r < |g| && 0 <= c < |g[r]| && g[r][c] == x
    ensures Count(g, x) >= 1
  {
    if r < |g| - 1 {
      CountPositive(g[..|g| - 1], r, c, x);
    } else {
      RowCountPositive(g[r], c, x);
    }
  }

  /** A legal jump needs two pegs, so a board with a single peg left has no
      legal move: WIN and PERFECT_WIN are terminal. */
  lemma SinglePegIsStuck(g: Grid)
    requires Shaped(g) && Count(g, Peg) == 1
    ensures !HasMove(g)
  {
    if HasMove(g) {
      var r, c :| OnGrid(r, c) && Movable(g, r, c);
      ValidMovesForSpec(g, r, c);
      var t := ValidMovesFor(g, r, c)[0];
      var rc := PositionToRowCol(t);
      var m := MoveOf(r, c, rc.0, rc.1);
      MoveOfLegal(g, r, c, rc.0, rc.1);
      ApplyPegCount(g, m);
      ApplyChangesThreeCells(g, m);
      var t' := PositionToRowCol(m.to);
      CountPositive(Apply(g, m), t'.0, t'.1, Peg);
      assert false;
    }
  }
}
