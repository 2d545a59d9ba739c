# Retro terminal games — verified model

This project models the game logic of the four browser games of a retro
terminal web site, each as a Dafny module:

- **Tetris** (`tetris.dfy`, module `TetrisGame`). It covers the seven-piece catalog and the 20 x 10 grid. It models collision checking, moving, rotating, placing and hard-dropping the active piece, clearing full rows, and scoring with levels. It also covers the gravity interval and locking a piece on the game-loop tick.
- **Hangman** (`hangman.dfy`, module `HangmanGame`). It covers the word list, the masked word display and the win test. It models the guess rules: empty or overlong input, a non-letter, a repeated letter, a hit and a miss. It also covers the index of the gallows drawing.
- **Snake** (`snake.dfy`, module `SnakeGame`). It covers the 20 x 20 board and the steering rules. It models one movement tick: a wall or body collision, moving, or eating and growing. It also covers apple placement and resetting the game.
- **Tic-tac-toe** (`tictactoe.dfy`, module `TicTacToeGame`). It models the human move, the computer's move and its priority rule: win, block, centre, corner, then the first free cell. It also covers the winner test, the full-board test and restarting.

Each game object becomes a `class` whose fields the methods update, as the
game code does. Each method is proved against a specification function on
values (`Placed`, `Sweep`, `Guess`, `Step`, `Steer`, `BestMove`, …). The
lemmas next to each function state what the game promises.

Some inputs are parameters in the model:

- Randomness becomes a parameter: a catalog index for a new piece, a word index, a stream of apple draws, and a choice among free corners.
- A timer becomes a method the caller invokes: `GravityTick`/`Tick` in Tetris and `Tick` in Snake.
- The text in the guess box becomes the already upper-cased and trimmed `letter`.

## Model

| member | source | states |
|---|---|---|
| TetrisGame.RotateMatrix | src/scripts/tetris.ts:289-291 | the rotated matrix has the input's column count as rows and its row count as columns; cell (i, j) is the input's cell (rows-1-j, i), a clockwise quarter turn |
| TetrisGame.Reverse | src/scripts/tetris.ts:290 | the reversed row has the same length and element k is element len-1-k |
| TetrisGame.RotateKeepsShape | src/scripts/tetris.ts:282-291 | rotating a filled rectangle gives a filled rectangle with a block |
| TetrisGame.RotateTwice | src/scripts/tetris.ts:289-291 | two rotations are the half turn: cell (i, j) comes from (rows-1-i, cols-1-j) |
| TetrisGame.HalfTurnTwice | src/scripts/tetris.ts:289-291 | two half turns give back the original matrix |
| TetrisGame.RotateFourTimes | src/scripts/tetris.ts:282-291 | four rotations give back the original shape, so pressing rotate four times in free space restores the piece |
| TetrisGame.ColorIndex | src/scripts/tetris.ts:318-319 | findIndex on the colour: the first catalog index with that colour, or -1 when none has it |
| TetrisGame.FindColor | src/scripts/tetris.ts:318-319 | the first catalog index at or after `from` with the colour, or -1 |
| TetrisGame.ColorIndexOfCatalog | src/scripts/tetris.ts:33-80 | the catalog colours are distinct: the colour of entry k is found at k |
| TetrisGame.SpawnPiece | src/scripts/tetris.ts:147-154 | a new piece has a catalog entry's shape and colour at column 3, row 0 |
| TetrisGame.CatalogShapes | src/scripts/tetris.ts:33-80 | every catalog shape is a filled rectangle of at most 2 rows and 4 columns |
| TetrisGame.EmptyRow | src/scripts/tetris.ts:329 | the row inserted on top has 10 cells and is not full |
| TetrisGame.CreateGrid | src/scripts/tetris.ts:88-92 | 20 rows of 10 cells, all zero |
| TetrisGame.IsValidMove | src/scripts/tetris.ts:293-307 | true exactly when every filled cell of the shape lands in columns 0-9 and above row 20, and on an empty cell where the row is not negative |
| TetrisGame.Fits | src/scripts/tetris.ts:296-302 | the legality rule stated cell by cell: each filled cell is inside columns 0-9, above row 20, and on an empty cell unless above the top; `IsValidMove` is proved to agree with it in both directions |
| TetrisGame.ScanRows | src/scripts/tetris.ts:294-305 | the outer loop: rows from r on pass the collision test |
| TetrisGame.ScanCols | src/scripts/tetris.ts:295-304 | the inner loop: cells from c on in row r pass the collision test |
| TetrisGame.FitsInBounds | src/scripts/tetris.ts:293-307 | a piece that fits lies within the side walls and the floor |
| TetrisGame.SpawnIsSound | src/scripts/tetris.ts:147-154 | a new piece is a well-formed catalog piece inside the walls |
| TetrisGame.SpawnFitsEmptyGrid | src/scripts/tetris.ts:88-92 | every new piece fits at (3, 0) on a fresh grid |
| TetrisGame.OriginAboveFloor | src/scripts/tetris.ts:293-307 | a piece inside the walls has its origin above the floor, which bounds the drop loop |
| TetrisGame.PlacedBlocksItself | src/scripts/tetris.ts:309-323 | placing keeps the grid 20 x 10, writes only catalog numbers 1-7, and the piece no longer fits where it was placed |
| TetrisGame.PlacedCovered | src/scripts/tetris.ts:318-319 | a covered cell of the settled grid holds the piece's catalog number, its colour index plus one |
| TetrisGame.Upright | src/scripts/tetris.ts:282-291 | a filled column of four cells, one wide |
| TetrisGame.UprightIsTurnedI | src/scripts/tetris.ts:282-291 | the column is the I piece after one rotation |
| TetrisGame.FloorUpright | src/scripts/tetris.ts:271-280 | the example piece: the upright column with its top in row 16 at column 5, so it rests on the floor |
| TetrisGame.UprightCovers | src/scripts/tetris.ts:309-323 | an upright column with its top in row 16 covers rows 16-19 of its column and no cell in the columns beside it |
| TetrisGame.UprightBlocked | src/scripts/tetris.ts:271-280 | the example piece on an empty grid cannot move down, so movePiece(0, 1) settles it |
| TetrisGame.UprightMovesLeft | src/scripts/tetris.ts:271-276 | after it is settled, the same piece can still move one column left |
| TetrisGame.UprightWrittenTwiceAt | src/scripts/tetris.ts:309-323 | settling it again one column left fills row i of both columns 4 and 5 |
| TetrisGame.UprightWrittenTwice | src/scripts/tetris.ts:309-323 | after the second settle, rows 16-19 of both columns 4 and 5 hold the I piece's number |
| TetrisGame.SettledPieceStillMoves | src/scripts/tetris.ts:271-280 | as written, a piece settled by a blocked downward move is still active, moves sideways, and is written into the grid a second time |
| TetrisGame.Placed | src/scripts/tetris.ts:309-323 | placing keeps the grid 20 x 10 and leaves every cell the piece does not cover as it was |
| TetrisGame.DropRow | src/scripts/tetris.ts:328-329 | splice-and-unshift keeps the number of rows |
| TetrisGame.Sweep | src/scripts/tetris.ts:325-340 | the bottom-up clearing loop as written keeps the number of rows |
| TetrisGame.NonFullAppend | src/scripts/tetris.ts:325-340 | the non-full rows of a + b are those of a followed by those of b |
| TetrisGame.DropRowShape | src/scripts/tetris.ts:328-329 | removing a row and adding an empty one on top keeps the grid 20 x 10 |
| TetrisGame.NonFullSkip | src/scripts/tetris.ts:327-329 | a full row contributes nothing to the non-full rows |
| TetrisGame.DropRowNonFull | src/scripts/tetris.ts:328-329 | dropping a full row leaves the non-full rows in order, under one new empty row |
| TetrisGame.NonFullOfEmptyRow | src/scripts/tetris.ts:329 | the new empty row is kept as a non-full row |
| TetrisGame.AwardKeepsLevelRule | src/scripts/tetris.ts:330-337 | one cleared row keeps level minus lines/10 constant: the level rises on every tenth line |
| TetrisGame.AwardKeepsConsistent | src/scripts/tetris.ts:330-337 | one cleared row keeps at least 100 points per line and level = 1 + lines/10 |
| TetrisGame.Award | src/scripts/tetris.ts:330-337 | one cleared row: one more line, 100 × the current level more points, and the level rises by one exactly when the new line count is a multiple of 10, and stays otherwise |
| TetrisGame.SweepKeepsGrid | src/scripts/tetris.ts:325-340 | clearing keeps the grid 20 x 10 and never lowers the line count |
| TetrisGame.SweepRemovesOnlyFullRows | src/scripts/tetris.ts:325-340 | after clearing, the non-full rows are exactly the old non-full rows in order, under one empty row per counted line |
| TetrisGame.Survivors | src/scripts/tetris.ts:326-329 | the rows the as-written scan keeps; there are never more of them than rows scanned |
| TetrisGame.SurvivorsCons | src/scripts/tetris.ts:326-329 | a row that is not full on top of the scanned rows is always kept |
| TetrisGame.SurvivorsDropAt | src/scripts/tetris.ts:326-329 | at a full row with a row above it, the full row goes and the row above it is kept unchecked |
| TetrisGame.SurvivorsKeepAt | src/scripts/tetris.ts:326-329 | a row that is not full is kept |
| TetrisGame.AppendRow | src/scripts/tetris.ts:327 | one more row adds one to the full count if it is full and one non-full row otherwise |
| TetrisGame.SweepLayoutEnd | src/scripts/tetris.ts:325-340 | when the scan ends, nothing was counted and no row moved |
| TetrisGame.SweepLayoutDropTop | src/scripts/tetris.ts:326-331 | clearing a full top row leaves one empty row on top and counts one line |
| TetrisGame.SweepLayoutDrop | src/scripts/tetris.ts:326-331 | at a full row below the top, the layout from the next scan position on extends to this one |
| TetrisGame.SweepLayoutKeep | src/scripts/tetris.ts:326-327 | at a row that is not full, the layout from the next scan position on extends to this one |
| TetrisGame.SweepLayout | src/scripts/tetris.ts:325-340 | from any scan position, the as-written clear gives one empty row on top per counted line, then the surviving rows in their old order, then the rows below, untouched |
| TetrisGame.SweepKeepsSurvivors | src/scripts/tetris.ts:325-340 | over a whole grid, the as-written clear gives one empty row on top per counted line, then the surviving rows in order; a full row passed over stays where the survivors put it |
| TetrisGame.OneMoreEmptyRow | src/scripts/tetris.ts:328-329 | one more dropped row adds one more empty row on top |
| TetrisGame.EmptyRowsSnoc | src/scripts/tetris.ts:329 | n + 1 empty rows are n empty rows and one more |
| TetrisGame.SweepTally | src/scripts/tetris.ts:330-337 | over a whole clear, the score gain lies between 100·(old level) and 100·(new level) per cleared row, and the level rule is kept |
| TetrisGame.SweepNoFullRow | src/scripts/tetris.ts:325-340 | a grid with no full row is left as it is, and so are the counters |
| TetrisGame.FullRow | src/scripts/tetris.ts:327 | a row of 10 filled cells is full |
| TetrisGame.TwoFullRows | src/scripts/tetris.ts:325-340 | the example grid with two adjacent full bottom rows is a 20 x 10 grid |
| TetrisGame.AdjacentFullRowsAsWritten | src/scripts/tetris.ts:325-340 | as written, two adjacent full bottom rows give one line, and a full row is left at the bottom |
| TetrisGame.FullCount | src/scripts/tetris.ts:327 | the full rows and the non-full rows together are all the rows |
| TetrisGame.SweepAll | src/scripts/tetris.ts:325-340 | the corrected clear, which re-tests the row that moved down, keeps the number of rows |
| TetrisGame.FullCountAppend | src/scripts/tetris.ts:327 | full rows of a + b count as those of a plus those of b |
| TetrisGame.SweepAllClearsEveryFullRow | src/scripts/tetris.ts:325-340 | the corrected clear leaves no full row |
| TetrisGame.SweepAllCountsEveryFullRow | src/scripts/tetris.ts:330 | the corrected clear adds exactly one line per full row |
| TetrisGame.SweepAllLayoutDrop | src/scripts/tetris.ts:326-331 | corrected clear, at a full row: the layout after dropping it extends to the grid before |
| TetrisGame.SweepAllLayoutKeep | src/scripts/tetris.ts:326-327 | corrected clear, at a row that is not full: the layout from the row above extends to this one |
| TetrisGame.SweepAllLayout | src/scripts/tetris.ts:325-340 | from any scan position, the corrected clear gives one empty row on top per full row, then the non-full rows in their old order, then the rows below, untouched |
| TetrisGame.SweepAllKeepsRowOrder | src/scripts/tetris.ts:325-340 | the corrected clear of a whole grid is exactly as many empty rows as it had full rows, followed by its non-full rows in their old order |
| TetrisGame.DropRowFullCount | src/scripts/tetris.ts:328-329 | dropping a full row leaves one full row fewer up to it |
| TetrisGame.AdjacentFullRowsIntended | src/scripts/tetris.ts:325-340 | the corrected clear removes both adjacent full rows and counts two lines |
| TetrisGame.TwoFullRowsCount | src/scripts/tetris.ts:325-340 | the example grid has exactly two full rows |
| TetrisGame.NoFullCount | src/scripts/tetris.ts:327 | a grid with no full row has a full count of zero |
| TetrisGame.DropInterval | src/scripts/tetris.ts:369 | the gravity interval is max(100, 1000 - 50·level) |
| TetrisGame.StartInterval | src/scripts/tetris.ts:193 | the start-up period is at most 950 ms from level 1 on, and it equals the clamped period exactly up to level 18 |
| TetrisGame.IntervalFacts | src/scripts/tetris.ts:183-195 | the interval never grows with the level, and the start-up interval 1000 - 50·level equals it up to level 18 |
| TetrisGame.FallStep | src/scripts/tetris.ts:343-347 | one more row of free fall keeps every visited row free |
| TetrisGame.LandingIsUnique | src/scripts/tetris.ts:342-347 | a piece has exactly one landing row |
| TetrisGame.SpawnedIsSound | src/scripts/tetris.ts:147-154 | a promoted next piece is well-formed and inside the walls |
| TetrisGame.Tetris.constructor | src/scripts/tetris.ts:82-96 | empty grid, two new pieces, score 0, level 1, no lines |
| TetrisGame.Tetris.Restart | src/scripts/tetris.ts:387-401 | fresh grid, two new pieces, score 0, level 1, no lines, game running |
| TetrisGame.Tetris.MovePiece | src/scripts/tetris.ts:271-280 | shifts the piece when the target fits; a blocked downward move places the piece in the grid; anything else changes nothing |
| TetrisGame.Tetris.MoveDownOrLock | src/scripts/tetris.ts:271-280 | corrected movePiece(0, 1): a piece that can fall moves down; one that cannot is settled, rows are cleared and the next piece promoted at once, with game over exactly when that piece does not fit; while the game runs the active piece never overlaps the grid, and after game over nothing changes |
| TetrisGame.Tetris.GravityTick | src/scripts/tetris.ts:188-193 | the drop timer: movePiece(0, 1) while the game runs, nothing after game over |
| TetrisGame.Tetris.RotatePiece | src/scripts/tetris.ts:282-287 | takes the quarter-turned shape when it fits in place, otherwise keeps the piece |
| TetrisGame.Tetris.PlacePiece | src/scripts/tetris.ts:309-323 | the grid becomes Placed: the piece's catalog number in each covered cell at row 0 or lower, everything else kept |
| TetrisGame.Tetris.ClearLines | src/scripts/tetris.ts:325-340 | grid and counters become the clearing loop's result; the counters stay consistent |
| TetrisGame.Tetris.Lock | src/scripts/tetris.ts:199-203 | place, clear, promote the next piece, draw a new one |
| TetrisGame.Tetris.Tick | src/scripts/tetris.ts:197-208 | the game loop: nothing if the piece can fall or the game is over; otherwise lock and report game over exactly when the promoted piece does not fit |
| TetrisGame.Tetris.Fall | src/scripts/tetris.ts:343-347 | the drop loop moves the piece straight down to its landing row |
| TetrisGame.Tetris.DropPiece | src/scripts/tetris.ts:342-352 | the piece lands at its unique landing row, is placed, rows are cleared and the next piece is promoted |
| HangmanGame.WordsAreUpper | src/scripts/hangman.ts:3-14 | every listed word is non-empty and made of capitals and spaces, so toUpperCase keeps it |
| HangmanGame.CheckWin | src/scripts/hangman.ts:232-236 | won exactly when every character is a space or a guessed letter |
| HangmanGame.Cell | src/scripts/hangman.ts:111-114 | a space shows as " / "; any other character shows as itself when guessed and as '_' otherwise, one character wide |
| HangmanGame.WordDisplay | src/scripts/hangman.ts:108-116 | the display is empty exactly when the word is; its layout for every word, spaces included, is stated by `CellAt`, `SpaceAfter` and `DisplayLength` |
| HangmanGame.Offset | src/scripts/hangman.ts:108-116 | where character i's cell starts in the display: the widths of the earlier cells plus one separator each, so at least 2i |
| HangmanGame.OffsetShift | src/scripts/hangman.ts:115 | dropping the first character moves every later cell left by the first cell's width and one separator |
| HangmanGame.DisplayUnfold | src/scripts/hangman.ts:115 | the display of a word of two or more characters is its first cell, a space, and the display of the rest |
| HangmanGame.FirstCell | src/scripts/hangman.ts:108-116 | the display starts with the first character's cell |
| HangmanGame.CellAtStep | src/scripts/hangman.ts:108-116 | if cell i - 1 of the rest sits at its offset, cell i of the word sits at its offset |
| HangmanGame.CellAt | src/scripts/hangman.ts:108-116 | for every word and every character i, the display holds that character's cell (" / ", the letter or '_') at Offset(i) |
| HangmanGame.SpaceAfter | src/scripts/hangman.ts:115 | every cell but the last is followed by one space, the join separator |
| HangmanGame.DisplayLength | src/scripts/hangman.ts:108-116 | the display is as long as all cells plus one separator between each two, so the cells and separators fill it with nothing else |
| HangmanGame.DisplayBlankIffNotWon | src/scripts/hangman.ts:108-116 | an underscore shows exactly when the game is not won |
| HangmanGame.DisplayOfSpaceFreeWord | src/scripts/hangman.ts:108-116 | for a word without spaces: 2n-1 characters, the letter or '_' at even positions, spaces between |
| HangmanGame.ArtIndex | src/scripts/hangman.ts:178 | a drawing exists exactly for 0-6 wrong guesses, and it is the drawing at that index |
| HangmanGame.Misses | src/scripts/hangman.ts:207-216 | no more misses than guesses |
| HangmanGame.Guess | src/scripts/hangman.ts:181-230 | one guess never changes the word, adds at most one miss, and either keeps the guesses or appends the one-character input |
| HangmanGame.GuessEffect | src/scripts/hangman.ts:181-230 | the word never changes; a refused input changes nothing; an accepted one is a single fresh capital appended to the guesses |
| HangmanGame.GuessScoring | src/scripts/hangman.ts:202-226 | a hit keeps the count and reports Won exactly on a win; a miss adds one and reports Lost exactly at 6 or more |
| HangmanGame.MissesAppend | src/scripts/hangman.ts:205-216 | a new guess adds a miss exactly when it is not in the word |
| HangmanGame.GuessKeepsSound | src/scripts/hangman.ts:181-230 | guessing keeps a listed word, distinct capital guesses, and the count equal to the misses |
| HangmanGame.GuessAfterLossOverrunsArt | src/scripts/hangman.ts:181-230 | as written, a lost game takes another miss to 7, which has no drawing |
| HangmanGame.WonThenLost | src/scripts/hangman.ts:181-230 | as written, a won game with 5 misses reports a loss on a further miss |
| HangmanGame.GuardedGuess | src/scripts/hangman.ts:181-230 | corrected: a finished round ignores input; otherwise it behaves as makeGuess |
| HangmanGame.GuardedGuessKeepsArt | src/scripts/hangman.ts:118-179 | corrected: the count stays within 0-6, so a drawing always exists, and a won round stays as it is |
| HangmanGame.Hangman.constructor | src/scripts/hangman.ts:23-40 | the chosen word, no guesses, no misses |
| HangmanGame.Hangman.SelectWord | src/scripts/hangman.ts:34-40 | the chosen word, no guesses, no misses |
| HangmanGame.Hangman.MakeGuess | src/scripts/hangman.ts:181-230 | the state and reported outcome follow the guess rules, and the round stays consistent |
| SnakeGame.SteerNeverReverses | src/scripts/snake.ts:68-109 | steering keeps a legal velocity and never turns straight back |
| SnakeGame.SteerAccepts | src/scripts/snake.ts:68-109 | up/down change the velocity exactly when not moving vertically; left/right exactly when not moving horizontally |
| SnakeGame.Steer | src/scripts/snake.ts:68-109 | the new velocity is either the old one or one of the four unit directions |
| SnakeGame.NextHead | src/scripts/snake.ts:120 | standing still keeps the head in place; a legal non-zero velocity moves it to a different cell in the same row or column |
| SnakeGame.Step | src/scripts/snake.ts:118-146 | a crash exactly when the next head leaves the board or hits the body; growth exactly when it lands on the apple; otherwise the new head leads the old body, which keeps its length by losing its tail when it does not grow |
| SnakeGame.FirstFree | src/scripts/snake.ts:175-188 | the apple is the first draw not on the snake |
| SnakeGame.FirstFreeOnBoard | src/scripts/snake.ts:175-179 | with on-board draws the apple is on the board |
| SnakeGame.StepKeepsBodySound | src/scripts/snake.ts:118-146 | a crash happens exactly on a wall or body hit; otherwise the new head leads the old body, the body stays distinct and on the board, and it grows by one exactly on the apple |
| SnakeGame.StandingStillCrashes | src/scripts/snake.ts:59-66 | as written, a snake that is standing still runs into its own head on the first tick |
| SnakeGame.StepWhenSteered | src/scripts/snake.ts:118-146 | corrected: a snake standing still stays put, otherwise it moves as written |
| SnakeGame.StandingSnakeWaits | src/scripts/snake.ts:111-146 | corrected: the game waits for the first key press, and the body stays sound |
| SnakeGame.Snake.constructor | src/scripts/snake.ts:15-66 | one segment at (10, 10), standing still, score 0, apple at the first free draw |
| SnakeGame.Snake.OnSnake | src/scripts/snake.ts:182-187 | the loop over the segments finds exactly whether the point is on the snake |
| SnakeGame.Snake.PlaceApple | src/scripts/snake.ts:175-188 | redraws until a draw is off the snake: the apple is the first free draw |
| SnakeGame.Snake.ResetGame | src/scripts/snake.ts:59-66 | one segment at (10, 10), standing still, score 0, apple at the first free draw |
| SnakeGame.Snake.Restart | src/scripts/snake.ts:213-219 | reset and running again |
| SnakeGame.Snake.Turn | src/scripts/snake.ts:68-109 | the velocity follows the steering rule |
| SnakeGame.Snake.Tick | src/scripts/snake.ts:118-146 | a crash ends the game and changes nothing else; a move slides; eating grows, adds 10 points and moves the apple elsewhere; the score stays 10 per eaten apple |
| TicTacToeGame.CheckWinner | src/scripts/tictactoe.ts:191-204 | true exactly when one of the eight patterns holds the player's mark |
| TicTacToeGame.AnyComplete | src/scripts/tictactoe.ts:203 | some pattern from `from` on is complete |
| TicTacToeGame.WinnerHasThreeInARow | src/scripts/tictactoe.ts:191-204 | a winner has a full row, a full column or a full diagonal |
| TicTacToeGame.ThreeInARowIsWinner | src/scripts/tictactoe.ts:191-204 | a full row, a full column or a full diagonal is a win |
| TicTacToeGame.WinnerIffThreeInARow | src/scripts/tictactoe.ts:191-204 | the pattern list is exactly the rows, columns and diagonals |
| TicTacToeGame.IsBoardFull | src/scripts/tictactoe.ts:206-208 | full exactly when no cell is empty |
| TicTacToeGame.WinningCell | src/scripts/tictactoe.ts:147-149 | a winning cell is an empty cell of the board |
| TicTacToeGame.WinningCellMeans | src/scripts/tictactoe.ts:147-149 | a cell is winning exactly when it is empty and taking it gives the player a full row, column or diagonal |
| TicTacToeGame.FirstEmpty | src/scripts/tictactoe.ts:180-186 | the lowest empty cell from `from` on, or -1 when there is none |
| TicTacToeGame.FirstWinning | src/scripts/tictactoe.ts:145-167 | the lowest empty cell where the player's mark would win, or -1 when there is none |
| TicTacToeGame.AvailableCorners | src/scripts/tictactoe.ts:175-176 | exactly the listed corners that are empty |
| TicTacToeGame.BestMove | src/scripts/tictactoe.ts:142-189 | the chosen cell is empty, or -1 |
| TicTacToeGame.BestMoveNoneIffFull | src/scripts/tictactoe.ts:142-189 | no move exactly when the board is full |
| TicTacToeGame.BestMoveTakesWin | src/scripts/tictactoe.ts:145-155 | when O can win, it plays the lowest winning cell |
| TicTacToeGame.BestMoveBlocks | src/scripts/tictactoe.ts:157-167 | when O cannot win and X could, it blocks the lowest such cell |
| TicTacToeGame.BestMoveTakesCentre | src/scripts/tictactoe.ts:169-172 | with no win and no block, it takes a free centre |
| TicTacToeGame.BestMoveTakesCorner | src/scripts/tictactoe.ts:174-178 | otherwise, with a free corner, it plays a corner |
| TicTacToeGame.BestMoveFirstFree | src/scripts/tictactoe.ts:180-188 | otherwise it plays the lowest free cell |
| TicTacToeGame.TicTacToe.constructor | src/scripts/tictactoe.ts:5-13 | empty board, X to play, game running |
| TicTacToeGame.TicTacToe.Restart | src/scripts/tictactoe.ts:222-227 | empty board, X to play, game running |
| TicTacToeGame.TicTacToe.MakeMove | src/scripts/tictactoe.ts:92-117 | a move after the game ends, on a taken or missing cell, or out of turn changes nothing; otherwise X is placed, the game ends exactly on an X win or a full board, and else O is to move |
| TicTacToeGame.TicTacToe.FirstTrialWin | src/scripts/tictactoe.ts:145-155 | one trial loop: each trial mark is undone, so the board comes back unchanged, and it returns the lowest winning cell |
| TicTacToeGame.TicTacToe.GetBestMove | src/scripts/tictactoe.ts:142-189 | the board comes back unchanged, and the move is the priority rule's choice |
| TicTacToeGame.TicTacToe.AiMove | src/scripts/tictactoe.ts:119-140 | plays O on the chosen cell; it ends the game on an O win or a full board, otherwise hands the turn to X; with no free cell nothing changes |

## Left out

- Drawing is not modelled: canvases, HTML output, messages, colours on screen, hints, the gallows art strings, the score and level labels and the exit/view switching. None of it changes game state.
- Timers are not modelled as such. Each interval callback is a method the caller invokes: `Tetris.Tick`, `Tetris.GravityTick` and `Snake.Tick`. The 500 ms delay before the computer's move is a call to `AiMove`.
- Clearing a timer is modelled by the `over` flag; other interleavings of timer callbacks are not modelled. Tic-tac-toe `restart` can run while the delayed computer move is pending, so that move may land on the fresh board.
- TetrisGame.Tetris.GravityTick: states the intended stop after game over, not the timers the code actually keeps. `restart` clears the old drop timer (src/scripts/tetris.ts:389). Its `updateLevel` call (tetris.ts:399) then starts a new 950 ms drop timer (tetris.ts:363-370). `startGame` overwrites `dropTimer` with another one (tetris.ts:189) without clearing it. So each restart leaks one drop timer that `gameOver` (tetris.ts:376) never clears. After a restart, gravity keeps calling movePiece(0, 1) past game over. A hard drop after game over that completes a tenth line re-arms the drop timer through `updateLevel`.
- Randomness (`Math.random`) is not modelled; each random choice is a parameter. These are the catalog index of a new piece, the word index, the stream of apple draws and the index into the free corners.
- Keyboard listeners are never removed, so moves and steering after game over behave as in the code: `Tetris.MovePiece`, `RotatePiece`, `DropPiece`, `Snake.Turn` and `HangmanGame.Hangman.MakeGuess` are not guarded by the end of the game.
- The `toUpperCase().trim()` of the typed text is not modelled. `MakeGuess` receives the normalised text, and an empty text counts as "not one character", as in the code.
- SnakeGame.Snake.PlaceApple: requires that some draw in the given stream is off the snake. On a full board the code would recurse forever.
- SnakeGame.Snake.Tick: requires usable draws only when the next head is on the apple, which is the only time the code draws.
- The drop-timer periods are functions (`StartInterval`, `DropInterval`), not timers the model creates. The start-up period is 1000 - 50·level, which is 950 ms at level 1.
- Pieces are values. The code copies the catalog template with `...piece`, so its `shape` array is shared with the catalog; no operation writes into a shape, so the sharing has no effect.
- Integers are unbounded. The score and counters in the code are double-precision numbers that never get near their exact range in a game.
- TicTacToeGame.TicTacToe.MakeMove: the cell index comes from a `data-cell` attribute. The model takes any integer and, as the code does, refuses one that is not a cell.
- `TetrisGame.Tetris.MovePiece` with a blocked downward move only writes the piece into the grid, as the code does. Clearing rows and spawning the next piece happen on the next game-loop `Tick`. Until then the settled piece is still the active piece: it overlaps its own cells, can still move sideways into free cells, and is then written a second time (see Findings).
- Scoring adds 100 × the current level per cleared row, and the level can rise in the middle of a multi-row clear, as the code does. The total is therefore between 100 × (old level) and 100 × (new level) per row (`SweepTally`), not always 100 × level × rows.

## Findings

| source | as written | input that shows it | evidently intended | confidence | as-written member | corrected member |
|---|---|---|---|---|---|---|
| src/scripts/tetris.ts:326-329 | after removing full row y the loop moves on to y - 1, but the row that was at y - 1 has just moved down into y and is never checked | the two bottom rows full: one line is counted, and a full row stays at the bottom | every full row is cleared and counted in one pass | high, not executed | TetrisGame.AdjacentFullRowsAsWritten | TetrisGame.AdjacentFullRowsIntended |
| src/scripts/snake.ts:60-63 | the game starts with velocity (0, 0), and the first tick puts the head onto itself, a body collision | a fresh game with no key pressed before the first tick: game over | the snake waits until a direction is chosen | high, not executed | SnakeGame.StandingStillCrashes | SnakeGame.StandingSnakeWaits |
| src/scripts/hangman.ts:181-230 | guesses are still taken after a win or a loss | 6 misses, then another wrong letter: 7 misses, and getHangmanArt indexes past its 7 drawings (undefined); or a won word with 5 misses, then a wrong letter reports a loss | a finished round ignores further guesses | medium, not executed | HangmanGame.GuessAfterLossOverrunsArt | HangmanGame.GuardedGuessKeepsArt |
| src/scripts/tetris.ts:271-280 | a downward move that is blocked writes the piece into the grid but keeps it as the active piece until the next update, up to 50 ms later | an upright I resting on the floor of an empty grid at column 5, then ArrowLeft before the next update: it moves to column 4 and is written again, leaving two copies | a piece blocked below is settled and replaced by the next piece at once | medium, not executed | TetrisGame.SettledPieceStillMoves | TetrisGame.Tetris.MoveDownOrLock |

The game classes keep the code's behaviour. The corrected definitions
(`SweepAll`, `StepWhenSteered`, `GuardedGuess`, `MoveDownOrLock`) sit beside them with the
intended property proved.
