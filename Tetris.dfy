/** The game engine: its state as a value, the effect of each operation on that
    value, the invariants the operations keep, and the `Tetris` class whose
    methods update the engine's fields in place. */
module Game {
  import opened Pieces
  import opened Board

  /** The anchor (top-left corner of the shape's bounding box) of a freshly spawned piece. */
  const SpawnX: int := 3
  const SpawnY: int := 0

  /** Points added per cleared row. */
  const LinePoints: int := 100

  /** A score the engine can show: a sum of 100-point row clears. */
  predicate IsScore(n: int)
    decreases if n < 0 then 0 else n
  {
    n == 0 || (n >= LinePoints && IsScore(n - LinePoints))
  }

  /** The scores are exactly the non-negative multiples of 100. */
  lemma {:induction false} IsScoreMeans(n: int)
    ensures IsScore(n) <==> n >= 0 && n % LinePoints == 0
    decreases if n < 0 then 0 else n
  {
    if n >= LinePoints {
      IsScoreMeans(n - LinePoints);
    }
  }

  /** The whole engine state; `pieceX` is the anchor's column, `pieceY` its row. */
  datatype GameState = GameState(
    grid: Grid,
    score: int,
    current: Piece,
    next: Piece,
    pieceX: int,
    pieceY: int,
    gameOver: bool)

  /** A piece as drawn from the catalog and the palette. */
  predicate FromCatalog(p: Piece) {
    p.shape in Shapes && IsColor(p.color)
  }

  /** What every reachable state satisfies: a well-formed grid, a score that is a
      non-negative multiple of 100, a falling tetromino (possibly rotated), a look-ahead
      piece straight from the catalog, and an anchor never above the top row. */
  predicate Inv(s: GameState) {
    WellFormed(s.grid) &&
    IsScore(s.score) &&
    Tetromino(s.current.shape) && IsColor(s.current.color) &&
    FromCatalog(s.next) &&
    s.pieceY >= 0
  }

  // ---------------------------------------------------------------------
  // The operations, as functions of the state

  /** A new game: empty grid, score 0, both pieces drawn, anchor at the spawn point. */
  function Initial(first: Piece, second: Piece): GameState {
    GameState(EmptyGrid, 0, first, second, SpawnX, SpawnY, false)
  }

  /** Rotation replaces the falling piece's shape by its quarter turn, unchecked. */
  function Rotated(s: GameState): GameState
    requires Rect(s.current.shape)
  {
    s.(current := s.current.(shape := Rotate(s.current.shape)))
  }

  /** The anchor moved by (dx, dy). */
  function Shifted(s: GameState, dx: int, dy: int): GameState {
    s.(pieceX := s.pieceX + dx, pieceY := s.pieceY + dy)
  }

  /** The grid after writing the falling piece into it at its anchor. */
  function Painted(s: GameState): Grid
    requires WellFormed(s.grid) && IsColor(s.current.color)
  {
    Paint(s.grid, s.current.shape, s.current.color, s.pieceX, s.pieceY)
  }

  /** Locking, as a relation between the state before and the state after: the
      piece is painted at its anchor, full rows are cleared and scored at 100 each,
      the look-ahead piece is promoted to the spawn point, any catalog piece becomes
      the new look-ahead piece, and the game ends if the promoted piece does not fit
      where it spawns. */
  predicate LocksInto(s: GameState, t: GameState)
    requires WellFormed(s.grid) && IsColor(s.current.color)
  {
    var painted := Painted(s);
    ClearedWellFormed(painted);
    t.grid == Cleared(painted) &&
    t.score == s.score + FullCount(painted) * LinePoints &&
    t.current == s.next && FromCatalog(t.next) &&
    t.pieceX == SpawnX && t.pieceY == SpawnY &&
    t.gameOver == (s.gameOver || !Fits(t.grid, s.next.shape, SpawnX, SpawnY))
  }

  /** The precondition of a move: never upward, and a blocked downward step locks a
      piece that lies on the grid. */
  predicate CanMove(s: GameState, dx: int, dy: int) {
    WellFormed(s.grid) && IsColor(s.current.color) && dy >= 0 &&
    (dy > 0 && !Fits(s.grid, s.current.shape, s.pieceX + dx, s.pieceY + dy) ==>
      InBounds(s.current.shape, s.pieceX, s.pieceY))
  }

  /** A move shifts the anchor when the shifted piece fits; otherwise a downward
      move locks the piece where it is and any other move changes nothing. */
  predicate MovesInto(s: GameState, dx: int, dy: int, t: GameState)
    requires CanMove(s, dx, dy)
  {
    if Fits(s.grid, s.current.shape, s.pieceX + dx, s.pieceY + dy) then t == Shifted(s, dx, dy)
    else if dy > 0 then LocksInto(s, t)
    else t == s
  }

  // ---------------------------------------------------------------------
  // Properties of the operations

  /** A new game satisfies the invariant, is not over, and its first piece fits. */
  lemma InitialInv(first: Piece, second: Piece)
    requires FromCatalog(first) && FromCatalog(second)
    ensures Inv(Initial(first, second)) && !Initial(first, second).gameOver
    ensures Fits(EmptyGrid, first.shape, SpawnX, SpawnY)
  {
    CatalogShape(first.shape);
    CatalogFitsAtSpawn(first.shape);
  }

  /** Adding 100 per cleared row keeps a score a score, and never lowers it. */
  lemma {:induction false} ScoreStep(score: int, rows: nat)
    requires IsScore(score)
    ensures score + rows * LinePoints >= score && IsScore(score + rows * LinePoints)
  {
    if rows > 0 {
      ScoreStep(score, rows - 1);
      assert score + rows * LinePoints == (score + (rows - 1) * LinePoints) + LinePoints;
    }
  }

  /** Locking keeps the invariant, never lowers the score, leaves no full row, and
      spawns the new piece inside the grid; unless the game has ended, the new piece
      fits where it spawned. */
  lemma LockedInv(s: GameState, t: GameState)
    requires Inv(s) && LocksInto(s, t)
    ensures Inv(t) && t.score >= s.score
    ensures FullCount(t.grid) == 0
    ensures InBounds(t.current.shape, t.pieceX, t.pieceY)
    ensures !t.gameOver ==> Fits(t.grid, t.current.shape, t.pieceX, t.pieceY)
  {
    ClearedWellFormed(Painted(s));
    ClearedNoFullRow(Painted(s));
    CatalogShape(s.next.shape);
    CatalogFitsAtSpawn(s.next.shape);
    ScoreStep(s.score, FullCount(Painted(s)));
  }

  /** Locking is determined by the state up to the drawn look-ahead piece. */
  lemma LockedUnique(s: GameState, t: GameState, u: GameState)
    requires WellFormed(s.grid) && IsColor(s.current.color)
    requires LocksInto(s, t) && LocksInto(s, u) && t.next == u.next
    ensures t == u
  {
  }

  /** Rotation keeps the invariant, the anchor, the colour and everything else. */
  lemma RotatedInv(s: GameState)
    requires Inv(s)
    ensures Inv(Rotated(s))
    ensures Rotated(s).current.color == s.current.color
    ensures Rotated(s).(current := s.current) == s
  {
    RotatePreservesTetromino(s.current.shape);
  }

  /** Four rotations give back the same state. */
  lemma RotatedFourTimes(s: GameState)
    requires Inv(s)
    ensures Rotated(Rotated(Rotated(Rotated(s)))) == s
  {
    var s1 := Rotated(s);
    var s2 := Rotated(s1);
    var s3 := Rotated(s2);
    RotateFourTimes(s.current.shape);
    assert Rotated(s3).current.shape == s.current.shape;
  }

  /** Rotation is unchecked, so it can carry a piece that lies on the grid off it:
      a flat I piece resting on the floor turns upright through the floor. */
  lemma RotationCanLeaveGrid()
    ensures exists s :: Inv(s) && InBounds(s.current.shape, s.pieceX, s.pieceY) &&
                        !InBounds(Rotated(s).current.shape, s.pieceX, s.pieceY)
  {
    var i := Piece(IShape, 1);
    var s := GameState(EmptyGrid, 0, i, i, 3, 19, false);
    CatalogShape(IShape);
    CatalogFitsAtSpawn(IShape);
    assert InBounds(IShape, 3, 19);
    var r := Rotate(IShape);
    assert r[3][0] && 19 + 3 >= Height;
    assert Inv(s);
  }

  /** A move keeps the invariant and never lowers the score; a move that fits keeps
      the piece inside the grid, and only a blocked downward move can end the game. */
  lemma MovedInv(s: GameState, dx: int, dy: int, t: GameState)
    requires Inv(s) && CanMove(s, dx, dy) && MovesInto(s, dx, dy, t)
    ensures Inv(t) && t.score >= s.score
    ensures Fits(s.grid, s.current.shape, s.pieceX + dx, s.pieceY + dy) ==>
      InBounds(t.current.shape, t.pieceX, t.pieceY)
    ensures t.gameOver != s.gameOver ==>
      dy > 0 && !Fits(s.grid, s.current.shape, s.pieceX + dx, s.pieceY + dy)
  {
    if Fits(s.grid, s.current.shape, s.pieceX + dx, s.pieceY + dy) {
      FitsBelowTopInBounds(s.grid, s.current.shape, s.pieceX + dx, s.pieceY + dy);
    } else if dy > 0 {
      LockedInv(s, t);
    }
  }

  /** The game-over flag, once set, is never cleared: no operation resumes play. */
  lemma GameOverIsFinal(s: GameState, dx: int, dy: int, t: GameState)
    requires s.gameOver && Rect(s.current.shape)
    requires CanMove(s, dx, dy) && MovesInto(s, dx, dy, t)
    ensures Rotated(s).gameOver && t.gameOver
  {
  }

  // ---------------------------------------------------------------------
  // The engine object

  class Tetris {
    var grid: Grid
    var score: int
    var current: Piece
    var next: Piece
    var pieceX: int
    var pieceY: int
    var gameOver: bool

    /** The fields, as a state value. */
    function State(): GameState
      reads this
    {
      GameState(grid, score, current, next, pieceX, pieceY, gameOver)
    }

    ghost predicate Valid()
      reads this
    {
      Inv(State())
    }

    /** An empty grid, score 0, two freshly drawn pieces, the anchor at the spawn point. */
    constructor ()
      ensures Valid()
      ensures FromCatalog(current) && FromCatalog(next)
      ensures State() == Initial(current, next)
    {
      var first := NewPiece();
      var second := NewPiece();
      grid := EmptyGrid;
      score := 0;
      current := first;
      next := second;
      pieceX := SpawnX;
      pieceY := SpawnY;
      gameOver := false;
      new;
      InitialInv(current, next);
    }

    /** An arbitrary shape of the catalog in an arbitrary colour of the palette. */
    static method NewPiece() returns (p: Piece)
      ensures FromCatalog(p)
    {
      var k :| 0 <= k < |Shapes|;
      assert IsColor(1);
      var c :| IsColor(c);
      p := Piece(Shapes[k], c);
    }

    /** Turns the falling piece a quarter turn in place, without any validity check. */
    method RotatePiece()
      requires Valid()
      modifies this
      ensures Valid()
      ensures State() == Rotated(old(State()))
    {
      RotatedInv(State());
      current := current.(shape := Rotate(current.shape));
    }

    /** Whether the falling piece, shifted by (dx, dy), fits; reads the state only. */
    method IsValidPosition(dx: int, dy: int) returns (ok: bool)
      requires Valid()
      ensures ok == Fits(grid, current.shape, pieceX + dx, pieceY + dy)
    {
      var shape := current.shape;
      var y := 0;
      while y < |shape|
        invariant 0 <= y <= |shape|
        invariant forall yy, xx :: 0 <= yy < y && 0 <= xx < |shape[yy]| && shape[yy][xx] ==>
          Free(grid, pieceX + xx + dx, pieceY + yy + dy)
      {
        var x := 0;
        while x < |shape[y]|
          invariant 0 <= x <= |shape[y]|
          invariant forall yy, xx :: 0 <= yy < y && 0 <= xx < |shape[yy]| && shape[yy][xx] ==>
            Free(grid, pieceX + xx + dx, pieceY + yy + dy)
          invariant forall xx :: 0 <= xx < x && shape[y][xx] ==>
            Free(grid, pieceX + xx + dx, pieceY + y + dy)
        {
          if shape[y][x] {
            var newX := pieceX + x + dx;
            var newY := pieceY + y + dy;
            if newX < 0 || newX >= Width || newY >= Height || (newY >= 0 && grid[newY][newX] != 0) {
              assert !Free(grid, newX, newY);
              return false;
            }
          }
          x := x + 1;
        }
        y := y + 1;
      }
      return true;
    }

    /** Every field but the grid is as in `s`. */
    ghost predicate Unmoved(s: GameState)
      reads this
    {
      score == s.score && current == s.current && next == s.next &&
      pieceX == s.pieceX && pieceY == s.pieceY && gameOver == s.gameOver
    }

    /** Writes the piece's colour into every cell it covers, then clears lines, promotes
        the look-ahead piece to the spawn point, draws a new look-ahead piece, and ends
        the game if the promoted piece does not fit there. */
    method PlacePiece()
      requires Valid() && InBounds(current.shape, pieceX, pieceY)
      modifies this
      ensures Valid() && LocksInto(old(State()), State())
    {
      WritePiece();
      ClearLines();
      SpawnNext();
    }

    /** Promotes the look-ahead piece to the spawn point, draws a new look-ahead
        piece, and ends the game if the promoted piece does not fit there. */
    method SpawnNext()
      requires Valid()
      modifies this
      ensures Valid() && grid == old(grid) && score == old(score)
      ensures current == old(next) && FromCatalog(next)
      ensures pieceX == SpawnX && pieceY == SpawnY
      ensures gameOver == (old(gameOver) || !Fits(grid, current.shape, SpawnX, SpawnY))
    {
      current := next;
      next := NewPiece();
      pieceX := SpawnX;
      pieceY := SpawnY;
      CatalogShape(current.shape);
      var fits := IsValidPosition(0, 0);
      if !fits {
        gameOver := true;
      }
    }

    /** The nested loop that writes the falling piece's colour, cell by cell, into
        the grid at its anchor. */
    method WritePiece()
      requires Valid() && InBounds(current.shape, pieceX, pieceY)
      modifies this
      ensures Valid() && Unmoved(old(State()))
      ensures grid == Painted(old(State()))
    {
      ghost var before := State();
      var shape := current.shape;
      var color := current.color;
      var y := 0;
      while y < |shape|
        invariant 0 <= y <= |shape|
        invariant WellFormed(grid) && Unmoved(before)
        invariant forall r, c :: 0 <= r < Height && 0 <= c < Width ==>
          grid[r][c] == if Covers(shape, pieceX, pieceY, c, r) && r - pieceY < y
                        then color else before.grid[r][c]
      {
        var x := 0;
        while x < |shape[y]|
          invariant 0 <= x <= |shape[y]|
          invariant WellFormed(grid) && Unmoved(before)
          invariant forall r, c :: 0 <= r < Height && 0 <= c < Width ==>
            grid[r][c] == if Covers(shape, pieceX, pieceY, c, r) &&
                             (r - pieceY < y || (r - pieceY == y && c - pieceX < x))
                          then color else before.grid[r][c]
        {
          if shape[y][x] {
            grid := grid[pieceY + y := grid[pieceY + y][pieceX + x := color]];
          }
          x := x + 1;
        }
        y := y + 1;
      }
      var p := Painted(before);
      forall r | 0 <= r < Height ensures grid[r] == p[r] {
        forall c | 0 <= c < Width ensures grid[r][c] == p[r][c] {
        }
      }
    }

    /** Removes every full row, adds 100 points per removed row, and refills the
        top with as many empty rows. */
    method ClearLines()
      requires Valid()
      modifies this
      ensures Valid()
      ensures grid == Cleared(old(grid))
      ensures score == old(score) + FullCount(old(grid)) * LinePoints
      ensures current == old(current) && next == old(next)
      ensures pieceX == old(pieceX) && pieceY == old(pieceY) && gameOver == old(gameOver)
    {
      ClearedWellFormed(grid);
      ScoreStep(score, FullCount(grid));
      var kept := Survivors(grid);
      var cleared := Height - |kept|;
      score := score + cleared * LinePoints;
      grid := EmptyRows(cleared) + kept;
    }

    /** Shifts the anchor by (dx, dy) when the shifted piece fits; otherwise a
        downward move locks the piece and any other move is ignored. */
    method Move(dx: int, dy: int)
      requires Valid() && CanMove(State(), dx, dy)
      modifies this
      ensures Valid() && MovesInto(old(State()), dx, dy, State())
    {
      ghost var before := State();
      var ok := IsValidPosition(dx, dy);
      if ok {
        FitsBelowTopInBounds(grid, current.shape, pieceX + dx, pieceY + dy);
        pieceX := pieceX + dx;
        pieceY := pieceY + dy;
        assert State() == Shifted(before, dx, dy);
      } else if dy > 0 {
        PlacePiece();
        assert LocksInto(before, State());
      } else {
        assert State() == before;
      }
    }
  }
}
