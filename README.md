# Tetris engine in Dafny

This project models the game engine of a small Tetris program: the `Tetris` class
in `app.py`. Its state is a 20 x 10 grid of cells, a score, the falling piece, the
look-ahead piece, the anchor of the falling piece and a game-over flag. The model
covers the operations that change that state:

- a quarter turn of the falling piece;
- the placement test against walls, floor and stack;
- a move, which shifts the piece or locks it when a downward step is blocked;
- locking, which paints the piece, clears full rows and spawns the next piece;
- line clearing, which scores 100 points per removed row.

The project has three modules, one file each:

- `Pieces.dfy`: the seven-shape catalog, the colour ids and the quarter turn.
- `Board.dfy`: the grid. It defines the placement test (`Fits`), painting a piece
  (`Paint`) and line clearing (`Survivors`, `FullCount`, `Cleared`), with their
  lemmas.
- `Tetris.dfy` (module `Game`): the engine.
  - `GameState` holds the state as a value. The invariant `Inv` and the relations
    `LocksInto` and `MovesInto` say what each operation does to it.
  - The class `Tetris` has the source's fields and methods. Each method updates
    the fields in place and is proved against those definitions.

Colours are abstract ids 1..7; 0 marks an empty cell. `new_piece` draws at random.
Here it is an arbitrary choice from the catalog and the palette. For the same
reason, locking is a relation: the state after locking is fixed except for the
newly drawn look-ahead piece (`Game.LockedUnique`).

The engine's methods do not check the game-over flag; only the driver loop stops
on it (app.py:143). The model follows the code: `Move` and `RotatePiece` act the
same whether or not the game is over. Nothing in the class ignores calls after
game over, so the model does not either. It proves instead that no operation ever
clears the flag (`Game.GameOverIsFinal`).

Rotation is never checked against the grid, so the falling piece can end up partly
outside it. `Game.RotationCanLeaveGrid` exhibits one such case. A rule that every
filled cell of the falling piece stays on the grid does not hold for this code.
`place_piece` writes through the anchor unguarded. The model therefore requires the
piece to lie on the grid when it is locked (`InBounds` in `PlacePiece`, and in `CanMove` for a blocked downward move).

## Model

| member | source | states |
|---|---|---|
| Pieces.Rotate | app.py:55-59 | a quarter turn of an R x C rectangular shape is a C x R rectangular shape |
| Pieces.RotateFilledCells | app.py:55-59 | rotation sends the filled cell (y, x) of a shape with C columns to (C-1-x, y), and no other cell is filled |
| Pieces.RotatePreservesFilledCount | app.py:55-59 | rotation keeps the number of filled cells |
| Pieces.RotatePreservesTetromino | app.py:55-59 | a rotated tetromino is still a rectangular shape with four filled cells |
| Pieces.RotateFourTimes | app.py:55-59 | four quarter turns give back the original matrix |
| Pieces.CatalogShape | app.py:28-36 | each of the seven catalog shapes is a tetromino of at most 2 rows and 4 columns |
| Board.Fits | app.py:61-70 | the placement test: every filled cell, at the anchor, lies between the walls, above the floor, and on an empty cell or above the top row |
| Board.EmptyRows | app.py:89 | the refill block has exactly the requested number of rows |
| Board.FitsBelowTopInBounds | app.py:61-70 | a placement that passes the test with its anchor at or below the top row lies wholly inside the grid |
| Board.CatalogFitsAtSpawn | app.py:41-46 | every catalog shape fits the empty grid at the spawn anchor (3, 0) and lies inside it; the same fact keeps the spawn in `place_piece` (app.py:80-83) on the grid |
| Board.Paint | app.py:73-76 | painting a piece into a well-formed grid gives a well-formed grid |
| Board.PaintCells | app.py:73-76 | after painting, exactly the cells covered by a filled shape cell hold the piece's colour; every other cell is as before |
| Board.PaintOccupies | app.py:73-76 | the occupied cells after painting an in-bounds piece are the occupied cells before plus the piece's footprint |
| Board.PaintFittingTetromino | app.py:73-76 | painting a tetromino that passed the placement test occupies exactly four more cells |
| Board.IsFull | app.py:86 | a row is full when none of its cells is 0 |
| Board.FullCount | app.py:86-87 | the number of full rows, at most the number of rows |
| Board.Survivors | app.py:86 | the kept rows plus the full rows account for every row |
| Board.SurvivorsMembers | app.py:86 | a row is kept if and only if it is in the grid and not full |
| Board.SurvivorsAppend | app.py:86 | the filter works row by row over concatenation, so kept rows stay in their original order |
| Board.FullCountAppend | app.py:87 | the count of full rows is additive over concatenation |
| Board.SurvivorsWithoutFull | app.py:86 | a grid without full rows keeps every row |
| Board.EmptyRowsNotFull | app.py:89 | the refilled empty rows are never full |
| Board.NoFullRowCount | app.py:86-87 | a grid none of whose rows is full has no full rows to count |
| Board.Cleared | app.py:85-89 | the grid after clearing: as many empty rows as were removed, on top of the rows that were not full |
| Board.ClearedWellFormed | app.py:85-89 | clearing keeps 20 rows of 10 cells, each empty or a colour |
| Board.ClearedLayout | app.py:85-89 | after clearing, the top k rows are empty and the rest are the kept rows in order, where k is the number of full rows |
| Board.ClearedNoFullRow | app.py:85-89 | after clearing no row is full |
| Board.ClearedIdempotent | app.py:85-89 | clearing twice is clearing once; the second pass finds no full row and so adds no score |
| Game.IsScoreMeans | app.py:88 | the scores are exactly the non-negative multiples of 100 |
| Game.ScoreStep | app.py:88 | adding 100 per cleared row keeps the score a non-negative multiple of 100 and never lowers it |
| Game.Initial | app.py:40-47 | a new game: the empty grid, score 0, the two drawn pieces, the anchor at (3, 0), not over |
| Game.InitialInv | app.py:40-47 | a new game satisfies the invariant, is not over, and its first piece fits at the spawn anchor |
| Game.Rotated | app.py:54-59 | rotation replaces the falling piece's shape by its quarter turn and changes nothing else |
| Game.RotatedInv | app.py:54-59 | rotation keeps the invariant and changes nothing but the falling piece's shape; its colour and the anchor stay |
| Game.RotatedFourTimes | app.py:54-59 | four rotations give back the same engine state |
| Game.RotationCanLeaveGrid | app.py:54-59 | there is a state satisfying the invariant, with the piece on the grid, whose rotation puts a filled cell below the floor |
| Game.LocksInto | app.py:72-83 | locking: paint at the anchor, clear and score full rows, promote the look-ahead piece to (3, 0), draw any catalog piece, and set the flag when the promoted piece does not fit, never clearing it |
| Game.LockedInv | app.py:72-83 | locking keeps the invariant and never lowers the score; it leaves no full row and spawns the new piece inside the grid; unless the game ends, the new piece fits where it spawns |
| Game.LockedUnique | app.py:72-83 | the state after locking is determined by the state before, up to the drawn look-ahead piece |
| Game.MovesInto | app.py:91-96 | a move: shift the anchor when the shifted piece fits; otherwise lock when dy > 0, and change nothing when dy = 0 |
| Game.MovedInv | app.py:91-96 | a move keeps the invariant and never lowers the score; a fitting move keeps the piece inside the grid; only a blocked downward move can end the game |
| Game.GameOverIsFinal | app.py:82-83 | once set, the game-over flag survives rotation and every move |
| Game.Tetris.constructor | app.py:40-47 | a new engine has an empty grid, score 0, two catalog pieces, the anchor at (3, 0) and the game not over |
| Game.Tetris.NewPiece | app.py:49-52 | a drawn piece has a catalog shape and a palette colour |
| Game.Tetris.RotatePiece | app.py:54-59 | the falling piece's shape becomes its quarter turn, unchecked; everything else is unchanged |
| Game.Tetris.IsValidPosition | app.py:61-70 | the nested loop with early exit answers true exactly when every filled cell, shifted by (dx, dy), is inside the walls, above the floor, and on an empty cell or above the top row; it changes nothing |
| Game.Tetris.WritePiece | app.py:73-76 | the nested loop leaves the grid equal to the painted grid and every other field unchanged |
| Game.Tetris.ClearLines | app.py:85-89 | the grid becomes the cleared grid, the score grows by 100 per full row, and the other fields are unchanged |
| Game.Tetris.SpawnNext | app.py:78-83 | the look-ahead piece becomes the falling piece at (3, 0) and a catalog piece is drawn; the game-over flag is set when the promoted piece does not fit there, and is never cleared |
| Game.Tetris.PlacePiece | app.py:72-83 | paint, then clear, then spawn: the new state is related to the old by the locking relation, and the invariant holds |
| Game.Tetris.Move | app.py:91-96 | a fitting move adds (dx, dy) to the anchor and changes nothing else; a blocked sideways move changes nothing; a blocked downward move locks the piece at its unshifted anchor |

## Left out

- The user interface is not modelled: `main`, `render_game`, pygame drawing, event polling, Streamlit output and the frame clock (app.py:99-164). They hold no game rules.
- RGB colour values, `BLOCK_SIZE` and the background colours (app.py:11-25) are rendering details. Colours are the ids 1..7.
- Game.Tetris.NewPiece: the choice is arbitrary, not uniformly random; the model has no probabilities.
- Game.Tetris.PlacePiece: requires the falling piece to lie on the grid. The source then raises IndexError, or wraps round on a negative index, and the model excludes that behaviour.
- Game.Tetris.Move: requires dy >= 0, as every caller passes (-1, 0), (1, 0) or (0, 1). A blocked downward move requires the piece to lie on the grid, as for `PlacePiece`.
- Game.Tetris.IsValidPosition: the default arguments (0, 0) of the source are passed explicitly.
