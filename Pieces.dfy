/** Tetromino shapes: the seven-shape catalog, the colour palette and the
    quarter-turn the engine applies to the falling piece. */
module Pieces {

  /** A shape is a matrix of cells, listed row by row; `true` marks a filled cell. */
  type Shape = seq<seq<bool>>

  /** Colours are abstract ids 1..NumColors; 0 is reserved for an empty grid cell. */
  const NumColors: int := 7

  predicate IsColor(c: int) {
    1 <= c <= NumColors
  }

  /** A piece is a shape together with the colour it paints into the grid. */
  datatype Piece = Piece(shape: Shape, color: int)

  /** The catalog, in the order I, O, T, S, Z, L, J. */
  const IShape: Shape := [[true, true, true, true]]
  const OShape: Shape := [[true, true], [true, true]]
  const TShape: Shape := [[false, true, false], [true, true, true]]
  const SShape: Shape := [[true, true, false], [false, true, true]]
  const ZShape: Shape := [[false, true, true], [true, true, false]]
  const LShape: Shape := [[true, true, true], [true, false, false]]
  const JShape: Shape := [[true, true, true], [false, false, true]]

  const Shapes: seq<Shape> := [IShape, OShape, TShape, SShape, ZShape, LShape, JShape]

  /** A matrix the rotation can read: a non-empty first row, and every row as long as it. */
  predicate Rect(s: Shape) {
    |s| > 0 && |s[0]| > 0 && forall i :: 0 <= i < |s| ==> |s[i]| == |s[0]|
  }

  /** The (row, column) positions of the filled cells of a shape. */
  function FilledCells(s: Shape): set<(int, int)> {
    set y: int, x: int | 0 <= y < |s| && 0 <= x < |s[y]| && s[y][x] :: (y, x)
  }

  /** A tetromino: a rectangular matrix with exactly four filled cells. */
  predicate Tetromino(s: Shape) {
    Rect(s) && |FilledCells(s)| == 4
  }

  /** Quarter turn of an R x C matrix into a C x R matrix: row i of the result
      is column C-1-i of the original, read from top to bottom. */
  function Rotate(s: Shape): (r: Shape)
    requires Rect(s)
    ensures Rect(r)
    ensures |r| == |s[0]| && |r[0]| == |s|
  {
    seq(|s[0]|, i requires 0 <= i < |s[0]| =>
      seq(|s|, j requires 0 <= j < |s| => s[j][|s[0]| - 1 - i]))
  }

  /** Where the quarter turn sends the filled cell at (row, column) `p` of a
      matrix with `cols` columns. */
  function Turn(cols: int, p: (int, int)): (int, int) {
    (cols - 1 - p.1, p.0)
  }

  function Turned(cells: set<(int, int)>, cols: int): set<(int, int)> {
    set p | p in cells :: Turn(cols, p)
  }

  /** Rotation moves every filled cell by Turn, and creates or loses none. */
  lemma RotateFilledCells(s: Shape)
    requires Rect(s)
    ensures FilledCells(Rotate(s)) == Turned(FilledCells(s), |s[0]|)
  {
    var r, c := Rotate(s), |s[0]|;
    forall q | q in FilledCells(r) ensures q in Turned(FilledCells(s), c) {
      var i, j := q.0, q.1;
      assert r[i][j] == s[j][c - 1 - i];
      assert (j, c - 1 - i) in FilledCells(s);
      assert Turn(c, (j, c - 1 - i)) == q;
    }
    forall q | q in Turned(FilledCells(s), c) ensures q in FilledCells(r) {
      var p :| p in FilledCells(s) && q == Turn(c, p);
      assert r[c - 1 - p.1][p.0] == s[p.0][p.1];
    }
  }

  /** Turn is one-to-one, so it keeps the number of cells. */
  lemma {:induction false} TurnedSize(cells: set<(int, int)>, cols: int)
    ensures |Turned(cells, cols)| == |cells|
    decreases |cells|
  {
    if cells != {} {
      var p :| p in cells;
      var rest := cells - {p};
      TurnedSize(rest, cols);
      assert Turned(cells, cols) == Turned(rest, cols) + {Turn(cols, p)};
      assert Turn(cols, p) !in Turned(rest, cols);
    }
  }

  /** Rotation keeps the number of filled cells. */
  lemma RotatePreservesFilledCount(s: Shape)
    requires Rect(s)
    ensures |FilledCells(Rotate(s))| == |FilledCells(s)|
  {
    RotateFilledCells(s);
    TurnedSize(FilledCells(s), |s[0]|);
  }

  /** A rotated tetromino is still a tetromino. */
  lemma RotatePreservesTetromino(s: Shape)
    requires Tetromino(s)
    ensures Tetromino(Rotate(s))
  {
    RotatePreservesFilledCount(s);
  }

  /** Four quarter turns give back the original matrix, cell for cell. */
  lemma RotateFourTimes(s: Shape)
    requires Rect(s)
    ensures Rotate(Rotate(Rotate(Rotate(s)))) == s
  {
    var rows, cols := |s|, |s[0]|;
    var r1 := Rotate(s);
    var r2 := Rotate(r1);
    var r3 := Rotate(r2);
    var r4 := Rotate(r3);
    forall i | 0 <= i < rows ensures r4[i] == s[i] {
      forall j | 0 <= j < cols ensures r4[i][j] == s[i][j] {
        calc {
          r4[i][j];
          r3[j][rows - 1 - i];
          r2[rows - 1 - i][cols - 1 - j];
          r1[cols - 1 - j][i];
          s[i][j];
        }
      }
    }
  }

  // The catalog shapes one by one, each a tetromino within a 2 x 4 box.
  lemma IShape4() ensures Tetromino(IShape) && |IShape| <= 2 && |IShape[0]| <= 4 {
    assert FilledCells(IShape) == {(0, 0), (0, 1), (0, 2), (0, 3)};
  }
  lemma OShape4() ensures Tetromino(OShape) && |OShape| <= 2 && |OShape[0]| <= 4 {
    assert FilledCells(OShape) == {(0, 0), (0, 1), (1, 0), (1, 1)};
  }
  lemma TShape4() ensures Tetromino(TShape) && |TShape| <= 2 && |TShape[0]| <= 4 {
    assert FilledCells(TShape) == {(0, 1), (1, 0), (1, 1), (1, 2)};
  }
  lemma SShape4() ensures Tetromino(SShape) && |SShape| <= 2 && |SShape[0]| <= 4 {
    assert FilledCells(SShape) == {(0, 0), (0, 1), (1, 1), (1, 2)};
  }
  lemma ZShape4() ensures Tetromino(ZShape) && |ZShape| <= 2 && |ZShape[0]| <= 4 {
    assert FilledCells(ZShape) == {(0, 1), (0, 2), (1, 0), (1, 1)};
  }
  lemma LShape4() ensures Tetromino(LShape) && |LShape| <= 2 && |LShape[0]| <= 4 {
    assert FilledCells(LShape) == {(0, 0), (0, 1), (0, 2), (1, 0)};
  }
  lemma JShape4() ensures Tetromino(JShape) && |JShape| <= 2 && |JShape[0]| <= 4 {
    assert FilledCells(JShape) == {(0, 0), (0, 1), (0, 2), (1, 2)};
  }

  /** Every catalog shape is a tetromino of at most two rows and four columns. */
  lemma CatalogShape(s: Shape)
    requires s in Shapes
    ensures Tetromino(s) && |s| <= 2 && |s[0]| <= 4
  {
    if s == IShape {
      IShape4();
    } else if s == OShape {
      OShape4();
    } else if s == TShape {
      TShape4();
    } else if s == SShape {
      SShape4();
    } else if s == ZShape {
      ZShape4();
    } else if s == LShape {
      LShape4();
    } else {
      JShape4();
    }
  }
}
