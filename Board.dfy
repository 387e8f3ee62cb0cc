/** The playing field: a fixed 20 x 10 grid of cells, the placement test for a
    shape at an anchor, painting a piece into the grid, and line clearing. */
module Board {
  import opened Pieces

  const Width: int := 10
  const Height: int := 20

  /** A grid is a list of rows, top row first; a cell is 0 (empty) or a colour id. */
  type Row = seq<int>
  type Grid = seq<Row>

  predicate IsCell(v: int) {
    0 <= v <= NumColors
  }

  predicate WellFormed(g: Grid) {
    |g| == Height &&
    forall y :: 0 <= y < |g| ==> |g[y]| == Width && forall x :: 0 <= x < |g[y]| ==> IsCell(g[y][x])
  }

  const EmptyRow: Row := seq(Width, _ => 0)

  function EmptyRows(k: nat): (rows: Grid)
    ensures |rows| == k
  {
    seq(k, _ => EmptyRow)
  }

  const EmptyGrid: Grid := EmptyRows(Height)

  // ---------------------------------------------------------------------
  // Placement test

  /** A filled shape cell may land on column cx, row cy: inside the side walls,
      above the floor, and on an empty cell unless it is still above the top row. */
  predicate Free(g: Grid, cx: int, cy: int)
    requires WellFormed(g)
  {
    0 <= cx < Width && cy < Height && (cy < 0 || g[cy][cx] == 0)
  }

  /** Every filled cell of `s`, with its top-left corner at column ax, row ay, is Free. */
  predicate Fits(g: Grid, s: Shape, ax: int, ay: int)
    requires WellFormed(g)
  {
    forall y, x :: 0 <= y < |s| && 0 <= x < |s[y]| && s[y][x] ==> Free(g, ax + x, ay + y)
  }

  /** Every filled cell of `s` at anchor (ax, ay) lies on the grid. */
  predicate InBounds(s: Shape, ax: int, ay: int) {
    forall y, x :: 0 <= y < |s| && 0 <= x < |s[y]| && s[y][x] ==>
      0 <= ax + x < Width && 0 <= ay + y < Height
  }

  /** A placement that fits and does not start above the top row is on the grid. */
  lemma FitsBelowTopInBounds(g: Grid, s: Shape, ax: int, ay: int)
    requires WellFormed(g) && Fits(g, s, ax, ay) && ay >= 0
    ensures InBounds(s, ax, ay)
  {
  }

  /** Every catalog shape fits at the spawn anchor (3, 0) of an empty grid. */
  lemma CatalogFitsAtSpawn(s: Shape)
    requires s in Shapes
    ensures WellFormed(EmptyGrid) && Fits(EmptyGrid, s, 3, 0) && InBounds(s, 3, 0)
  {
  }

  // ---------------------------------------------------------------------
  // Painting a piece into the grid

  /** The shape cell of `s` anchored at (ax, ay) that lands on column cx, row cy is filled. */
  predicate Covers(s: Shape, ax: int, ay: int, cx: int, cy: int) {
    0 <= cy - ay < |s| && 0 <= cx - ax < |s[cy - ay]| && s[cy - ay][cx - ax]
  }

  /** The grid after writing `color` into every cell the piece covers. */
  function Paint(g: Grid, s: Shape, color: int, ax: int, ay: int): (r: Grid)
    requires WellFormed(g) && IsColor(color)
    ensures WellFormed(r)
  {
    seq(Height, y requires 0 <= y < Height =>
      seq(Width, x requires 0 <= x < Width =>
        if Covers(s, ax, ay, x, y) then color else g[y][x]))
  }

  /** Painting sets exactly the cells under the piece's filled cells to its colour
      and leaves every other cell as it was. */
  lemma PaintCells(g: Grid, s: Shape, color: int, ax: int, ay: int)
    requires WellFormed(g) && IsColor(color)
    ensures forall y, x :: 0 <= y < Height && 0 <= x < Width ==>
      Paint(g, s, color, ax, ay)[y][x] == if (y - ay, x - ax) in FilledCells(s) then color else g[y][x]
  {
  }

  /** The occupied cells of a grid, as (row, column) pairs. */
  function Occupied(g: Grid): set<(int, int)>
    requires WellFormed(g)
  {
    set y: int, x: int | 0 <= y < Height && 0 <= x < Width && g[y][x] != 0 :: (y, x)
  }

  /** The grid cells a shape anchored at (ax, ay) covers. */
  function Footprint(s: Shape, ax: int, ay: int): set<(int, int)> {
    Translated(FilledCells(s), ax, ay)
  }

  /** Where the shape cell at (row, column) `p` lands with the anchor at (ax, ay). */
  function Place(ax: int, ay: int, p: (int, int)): (int, int) {
    (ay + p.0, ax + p.1)
  }

  function Translated(cells: set<(int, int)>, ax: int, ay: int): set<(int, int)> {
    set p | p in cells :: Place(ax, ay, p)
  }

  /** Painting an in-bounds piece adds exactly its footprint to the occupied cells. */
  lemma PaintOccupies(g: Grid, s: Shape, color: int, ax: int, ay: int)
    requires WellFormed(g) && IsColor(color) && InBounds(s, ax, ay)
    ensures Occupied(Paint(g, s, color, ax, ay)) == Occupied(g) + Footprint(s, ax, ay)
  {
    var r := Paint(g, s, color, ax, ay);
    PaintCells(g, s, color, ax, ay);
    forall q | q in Footprint(s, ax, ay) ensures q in Occupied(r) {
      var p :| p in FilledCells(s) && q == Place(ax, ay, p);
      assert r[q.0][q.1] == color;
    }
    forall q | q in Occupied(r) ensures q in Occupied(g) + Footprint(s, ax, ay) {
      if (q.0 - ay, q.1 - ax) in FilledCells(s) {
        assert q == Place(ax, ay, (q.0 - ay, q.1 - ax));
      }
    }
  }

  /** Translation is one-to-one, so a footprint has as many cells as its shape. */
  lemma {:induction false} TranslatedSize(cells: set<(int, int)>, ax: int, ay: int)
    ensures |Translated(cells, ax, ay)| == |cells|
    decreases |cells|
  {
    if cells != {} {
      var p :| p in cells;
      var rest := cells - {p};
      TranslatedSize(rest, ax, ay);
      assert Translated(cells, ax, ay) == Translated(rest, ax, ay) + {Place(ax, ay, p)};
      assert Place(ax, ay, p) !in Translated(rest, ax, ay);
    }
  }

  /** A tetromino that fits on the grid fills exactly four more cells when painted. */
  lemma PaintFittingTetromino(g: Grid, s: Shape, color: int, ax: int, ay: int)
    requires WellFormed(g) && IsColor(color) && Tetromino(s)
    requires Fits(g, s, ax, ay) && InBounds(s, ax, ay)
    ensures |Occupied(Paint(g, s, color, ax, ay))| == |Occupied(g)| + 4
  {
    PaintOccupies(g, s, color, ax, ay);
    TranslatedSize(FilledCells(s), ax, ay);
    forall q | q in Footprint(s, ax, ay) ensures q !in Occupied(g) {
      var p :| p in FilledCells(s) && q == Place(ax, ay, p);
      assert Free(g, ax + p.1, ay + p.0);
    }
    assert Occupied(g) * Footprint(s, ax, ay) == {};
  }

  // ---------------------------------------------------------------------
  // Line clearing

  /** A full row holds no empty cell. */
  predicate IsFull(row: Row) {
    forall x :: 0 <= x < |row| ==> row[x] != 0
  }

  /** The number of full rows. */
  function FullCount(g: Grid): (n: nat)
    ensures n <= |g|
  {
    if g == [] then 0 else (if IsFull(g[0]) then 1 else 0) + FullCount(g[1..])
  }

  /** The rows that are not full, in their original order. */
  function Survivors(g: Grid): (kept: Grid)
    ensures |kept| + FullCount(g) == |g|
  {
    if g == [] then [] else (if IsFull(g[0]) then [] else [g[0]]) + Survivors(g[1..])
  }

  /** A row survives exactly when it is a row of the grid and is not full. */
  lemma {:induction false} SurvivorsMembers(g: Grid)
    ensures forall row :: row in Survivors(g) <==> row in g && !IsFull(row)
  {
    if g != [] {
      SurvivorsMembers(g[1..]);
      assert g == [g[0]] + g[1..];
    }
  }

  /** The grid after line clearing: full rows removed, empty rows added on top. */
  function Cleared(g: Grid): Grid
    requires WellFormed(g)
  {
    EmptyRows(Height - |Survivors(g)|) + Survivors(g)
  }

  /** Filtering distributes over concatenation: rows are kept in their relative order. */
  lemma {:induction false} SurvivorsAppend(a: Grid, b: Grid)
    ensures Survivors(a + b) == Survivors(a) + Survivors(b)
  {
    if a != [] {
      assert (a + b)[1..] == a[1..] + b;
      SurvivorsAppend(a[1..], b);
    } else {
      assert a + b == b;
    }
  }

  lemma {:induction false} FullCountAppend(a: Grid, b: Grid)
    ensures FullCount(a + b) == FullCount(a) + FullCount(b)
  {
    if a != [] {
      assert (a + b)[1..] == a[1..] + b;
      FullCountAppend(a[1..], b);
    } else {
      assert a + b == b;
    }
  }

  /** A grid without full rows survives filtering unchanged. */
  lemma {:induction false} SurvivorsWithoutFull(g: Grid)
    requires FullCount(g) == 0
    ensures Survivors(g) == g
  {
    if g != [] {
      SurvivorsWithoutFull(g[1..]);
    }
  }

  lemma {:induction false} EmptyRowsNotFull(k: nat)
    ensures FullCount(EmptyRows(k)) == 0
  {
    if k > 0 {
      assert !IsFull(EmptyRows(k)[0]) by { assert EmptyRow[0] == 0; }
      assert EmptyRows(k)[1..] == EmptyRows(k - 1);
      EmptyRowsNotFull(k - 1);
    }
  }

  /** Line clearing keeps a 20 x 10 grid of cells. */
  lemma ClearedWellFormed(g: Grid)
    requires WellFormed(g)
    ensures WellFormed(Cleared(g))
  {
    var kept := Survivors(g);
    var c := Cleared(g);
    var k := Height - |kept|;
    SurvivorsMembers(g);
    forall y | 0 <= y < |c|
      ensures |c[y]| == Width && forall x :: 0 <= x < |c[y]| ==> IsCell(c[y][x])
    {
      if y >= k {
        assert c[y] == kept[y - k];
        assert c[y] in g;
      }
    }
  }

  /** Line clearing puts exactly FullCount(g) empty rows on top and the rows that
      were not full below them, in their original order. Its content is the identity
      Height - |Survivors(g)| == FullCount(g): the number of rows refilled is the
      number of full rows removed. */
  lemma ClearedLayout(g: Grid)
    requires WellFormed(g)
    ensures |Cleared(g)| == Height
    ensures Cleared(g)[..FullCount(g)] == EmptyRows(FullCount(g))
    ensures Cleared(g)[FullCount(g)..] == Survivors(g)
  {
  }

  /** Line clearing leaves no full row behind. */
  lemma ClearedNoFullRow(g: Grid)
    requires WellFormed(g)
    ensures FullCount(Cleared(g)) == 0
  {
    var kept := Survivors(g);
    var k := Height - |kept|;
    EmptyRowsNotFull(k);
    FullCountAppend(EmptyRows(k), kept);
    SurvivorsMembers(g);
    assert forall i :: 0 <= i < |kept| ==> kept[i] in kept;
    NoFullRowCount(kept);
  }

  /** A grid none of whose rows is full has FullCount 0. */
  lemma {:induction false} NoFullRowCount(g: Grid)
    requires forall i :: 0 <= i < |g| ==> !IsFull(g[i])
    ensures FullCount(g) == 0
  {
    if g != [] {
      NoFullRowCount(g[1..]);
    }
  }

  /** Clearing twice is clearing once: nothing is full after the first pass. */
  lemma ClearedIdempotent(g: Grid)
    requires WellFormed(g)
    ensures WellFormed(Cleared(g)) && FullCount(Cleared(g)) == 0
    ensures Cleared(Cleared(g)) == Cleared(g)
  {
    ClearedWellFormed(g);
    ClearedNoFullRow(g);
    SurvivorsWithoutFull(Cleared(g));
  }
}
