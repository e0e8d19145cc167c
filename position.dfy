/** Cell positions of the 7x7 board: the `row*7+col` encoding used by the
    engine and Kotlin's truncating integer division. */
module Position {

  const BoardSize := 7
  const TotalCells := BoardSize * BoardSize
  /** Position of the centre cell (3,3). */
  const CenterPosition := 24

  /** Kotlin's `a / b` on `Int`: the quotient truncated toward zero
      (Dafny's own `/` is Euclidean). */
  function KDiv(a: int, b: int): int
    requires b > 0
  {
    if a >= 0 then a / b else -((-a) / b)
  }

  /** Kotlin's `a % b` on `Int`: the remainder takes the sign of `a`. */
  function KRem(a: int, b: int): int
    requires b > 0
  {
    a - b * KDiv(a, b)
  }

  /** Truncating division and remainder agree with Euclidean ones on
      non-negative operands, and the remainder never has the opposite sign
      of the dividend. */
  lemma KotlinDivision(a: int, b: int)
    requires b > 0
    ensures a == b * KDiv(a, b) + KRem(a, b)
    ensures a >= 0 ==> KDiv(a, b) == a / b && KRem(a, b) == a % b
    ensures a < 0 ==> -b < KRem(a, b) <= 0 && KDiv(a, b) <= 0
  {
    if a < 0 {
      var q := (-a) / b;
      assert -a == b * q + (-a) % b;
      assert KRem(a, b) == -((-a) % b);
    }
  }

  predicate OnGrid(row: int, col: int) {
    0 <= row < BoardSize && 0 <= col < BoardSize
  }

  /** `positionToRowCol(position).first` */
  function Row(position: int): (row: int)
    ensures 0 <= position < TotalCells ==> 0 <= row < BoardSize
  {
    KDiv(position, BoardSize)
  }

  /** `positionToRowCol(position).second` */
  function Col(position: int): (col: int)
    ensures 0 <= position < TotalCells ==> 0 <= col < BoardSize
  {
    KRem(position, BoardSize)
  }

  /** Decoding a position lands on the grid exactly when the position is in
      [0, 49); every negative position (Kotlin truncates, so -1 gives row 0 and
      column -1) and every position of 49 or more lands off the grid. */
  function PositionToRowCol(position: int): (rc: (int, int))
    ensures OnGrid(rc.0, rc.1) <==> 0 <= position < TotalCells
    ensures OnGrid(rc.0, rc.1) ==> RowColToPosition(rc.0, rc.1) == position
  {
    KotlinDivision(position, BoardSize);
    (Row(position), Col(position))
  }

  /** Encoding an on-grid cell gives a position in [0, 49) that decodes back
      to the same row and column. */
  function RowColToPosition(row: int, col: int): (position: int)
    ensures OnGrid(row, col) ==> 0 <= position < TotalCells
    ensures OnGrid(row, col) ==> Row(position) == row && Col(position) == col
  {
    row * BoardSize + col
  }
}
