# Mario-Tetris field engine and score saving, modelled in Dafny

This project models the two core parts of a browser arcade game that crosses
Tetris with Mario:

- **The game field** (`src/components/GameField.tsx`). A 10 x 20 grid gets
  single-cell pieces of four kinds: mario, enemy, coin and tetris. A piece
  falls one row per gravity tick and either lands on the bottom row or stops
  on an occupied cell. The avatar moves left and right along the grid and
  jumps two rows, and each jump schedules a restoration that brings it back
  down. A piece that lands on the avatar has an effect: a coin adds 50 points
  and an enemy ends the game. Full rows are cleared from the bottom up, so
  one pass removes several stacked full rows. Each cleared row scores 100
  times the current level. The level is `floor(lines / 10) + 1`. The tick
  period is `max(100, 1000 - 50 * level)` ms.
- **The page** (`src/pages/Index.tsx`). `handleGameOver` records the final
  score. `saveScore` has these parts:
  - It refuses a name that is blank after `trim()`.
  - It builds an entry whose level is `floor(score / 1000) + 1`.
  - It appends the entry and sorts the board by score, highest first, with
    the stable `Array.prototype.sort`.
  - It keeps the first ten entries.

Layout:

- `wrappers.dfy`: the `Option` type.
- `game_field.dfy` (module `GameField`) models the field's pure logic as
  functions and lemmas:
  - piece creation, avatar moves and row clearing;
  - one tick as a transition `TickStep` on the `Game` value.

  The component state is the class `Engine`. Each of its methods is proved
  to move the state `State()` exactly as the matching function says. The
  `clearLines` loop is the method `ScanFullRows`, with the same splice,
  unshift and re-check of the same index. It is proved equal to
  `ClearedField`: the empty rows on top, then the rows that were not full,
  in their order.
- `index.dfy` (module `Index`) holds three parts:
  - `Trim`, using the ECMAScript whitespace set;
  - the stable descending sort as an insertion sort, proved sorted, a
    permutation and stable;
  - the leaderboard update `Ranked`, with its admission property on a full
    board.

  The page state is the class `App`.

Inputs that the source takes from the environment are parameters here:

- `Math.random()` is the parameter `choice` of `NewPiece`, `TickStep` and
  `Engine.Tick`.
- A run of the `setInterval` callback is a call of `Engine.Tick`.
- A run of the 300 ms `setTimeout` callback of a jump is a call of
  `Engine.RestoreAfterJump`. The field `pendingRestores` counts the
  callbacks that are scheduled but have not run yet.
- A key press is a call of `Engine.Move`.
- The game-over callback is the `Ended(finalScore)` event that a tick
  returns. The unmounting that follows is the flag `over` (`gameOver` in
  `Engine`).

### How the source's mutation is modelled

- **Landing writes into a shared row.** The tick copies only the outer grid
  array (`[...gameField]`) and then writes the landed piece into a row
  array. That row is shared with the current state. So `clearLines`, which
  reads the `gameField` of its closure, still sees the landed piece. The
  model states this effect directly: clearing works on the grid with the
  piece placed (`Engine.Land`, `LandStep`).
- **Game over skips clearing.** When an enemy hits the avatar, the placement
  and the emptied falling slot still take effect, but clearing is skipped.
  The reported score is the one held before the tick (`TickEnemyEndsGame`).
- **A new piece waits for the next tick.** After a landing, the next piece
  is spawned on the following tick (`TickSpawns`), as in the source, where
  the `else` branch at line 129 runs once `currentPiece` is `null`.

Two behaviours of the code are kept as they are:

- The spawn cell is never checked for occupancy, and no stacked-to-the-top
  condition ends the game. Only an enemy landing on the avatar does.
- Landing overwrites whatever the cell held. A piece spawned on an occupied
  top cell that cannot fall is written over the occupant (`Place`).
- Every piece spawns in column 5 (`x: Math.floor(FIELD_WIDTH / 2)`, line 47)
  and a tick only changes its row (line 107), so only column 5 ever fills.
  No row can become full, `clearLines` never removes a row, `linesCleared`
  stays 0, the level stays 1 and the period stays 950 ms; only a coin on the
  avatar changes the score. `TickStaysInSpawnColumn` and
  `InitialGameOnlySpawnColumn` prove this. The row clearing, scoring and
  level rules are still modelled and proved for arbitrary grids, as the code
  states them.

## Model

| member | source | states |
|---|---|---|
| GameField.IndexOf | src/components/GameField.tsx:44 | `indexOf` returns -1 exactly when the kind is absent; otherwise it returns the first index that holds the kind |
| GameField.NewPiece | src/components/GameField.tsx:40-52 | a new piece is at column floor(10/2) = 5 on row 0, inside the grid, and has the chosen kind and that kind's colour from the parallel list |
| GameField.Moved | src/components/GameField.tsx:56-68 | left and right move exactly one column, and at the wall (x = 0 for left, x = 9 for right) the move changes nothing; a jump keeps the column and lowers y by exactly 2 when y > 0, and changes nothing otherwise; a move never takes an avatar on an even row out of the playing area |
| GameField.Restored | src/components/GameField.tsx:69-71 | the jump callback keeps the column and moves down exactly two rows when that stays at or above row 18; otherwise it puts the avatar on row 18 |
| GameField.JumpThenRestore | src/components/GameField.tsx:66-71 | a jump followed by its restoration returns the avatar to where it was, whenever the jump could rise |
| GameField.JumpFromTopRow | src/components/GameField.tsx:66-71 | on row 0 a jump stays put, but its restoration still moves the avatar down to row 2 |
| GameField.StepsUndo | src/components/GameField.tsx:60-65 | away from the edges, a left step and a right step undo each other |
| GameField.JumpNeedsEvenRow | src/components/GameField.tsx:68 | the guard y > 0 alone would let an odd row 1 jump to -1; the avatar stays inside only because its rows stay even |
| GameField.IsFull | src/components/GameField.tsx:84 | `every(cell => cell !== null)`: a row is full when each of its cells holds a block; EmptyRowNotFull and NoFullRowUnchanged state its properties |
| GameField.EmptyRow | src/components/GameField.tsx:86 | `Array(FIELD_WIDTH).fill(null)`: the new top row; EmptyRowNotFull shows it has width 10 and is not full |
| GameField.TouchesAvatar | src/components/GameField.tsx:116 | the contact test: the landed piece is at the avatar's column and row; TickScores and TickEnemyEndsGame state its effect |
| GameField.InitialGame | src/components/GameField.tsx:30-38 | the initial `useState` values; InitialGameValid shows they meet the invariant |
| GameField.EmptyRowNotFull | src/components/GameField.tsx:84-86 | the row shifted in by `unshift` has width 10 and is not full |
| GameField.NonFullRowsShape | src/components/GameField.tsx:83-90 | the surviving rows plus the full rows account for every row, and every surviving row is an original row that is not full |
| GameField.NoFullRowUnchanged | src/components/GameField.tsx:83-90 | the count of full rows is 0 exactly when no row is full, and then the filter keeps every row |
| GameField.CountFullAppend | src/components/GameField.tsx:83-90 | counting and filtering full rows distribute over concatenation of grids |
| GameField.ClearedFieldShape | src/components/GameField.tsx:79-90 | after clearing the grid is still 20 x 10, the top CountFull rows are empty, below them are the non-full rows in order, and no full row remains |
| GameField.ClearedFieldIdempotent | src/components/GameField.tsx:79-90 | clearing an already cleared grid finds no full row and changes nothing |
| GameField.StackedFullRowsCleared | src/components/GameField.tsx:85-88 | two adjacent full bottom rows are both removed in one pass, because the same index is examined again |
| GameField.ScanRow | src/components/GameField.tsx:84-88 | one loop iteration keeps the scan invariant and decreases the measure; when row y is full it is spliced out, an empty row goes on top, the count grows by one and the same index is examined again; otherwise the grid and count are kept and the scan moves up one row |
| GameField.ScanFullRows | src/components/GameField.tsx:80-90 | the bottom-up splice and unshift loop returns exactly ClearedField of the grid and the number of full rows |
| GameField.LevelFor | src/components/GameField.tsx:97 | the level is at least 1, and (level - 1) * 10 <= lines < level * 10, so it is floor(lines / 10) + 1 |
| GameField.LevelNeverDecreases | src/components/GameField.tsx:95-97 | more cleared lines never give a lower level |
| GameField.TickInterval | src/components/GameField.tsx:132 | the period is never below 100 ms; it is exactly 100 ms from level 18 on, and 1000 - 50 * level ms for every level from 1 to 18 (950 ms at level 1) |
| GameField.TickIntervalNonIncreasing | src/components/GameField.tsx:132 | a higher level never gives a slower tick |
| GameField.ClearedField | src/components/GameField.tsx:79-90 | the grid after clearing has as many rows as before; its full characterization is ClearedFieldShape |
| GameField.CanFall | src/components/GameField.tsx:106 | a piece that can fall is above row 19 with an empty cell below it, and one row lower it is still inside the grid |
| GameField.AfterClear | src/components/GameField.tsx:92-98 | the clear step leaves the piece, the avatar and the game-over flag alone, and adds the number of full rows to the lines |
| GameField.LandStep | src/components/GameField.tsx:108-127 | landing always empties the falling slot and keeps the avatar; it reports Ended exactly when an enemy lands on the avatar, which is also when the game becomes over |
| GameField.TickStep | src/components/GameField.tsx:104-131 | a tick never moves the avatar; it reports Halted exactly when the game was already over, and the game is over afterwards exactly when it was before or the tick reported Ended |
| GameField.InitialGameValid | src/components/GameField.tsx:30-38 | the initial state meets the invariant: empty 20 x 10 grid, no piece, avatar at (4, 18), score 0, level 1, no lines |
| GameField.Place | src/components/GameField.tsx:110-111 | landing writes the piece into its own cell, keeps the grid 20 x 10, and leaves every other cell as it was |
| GameField.AfterClearValid | src/components/GameField.tsx:92-98 | the clear step keeps the invariant; lines grow by the number of full rows, and score grows by that number times 100 times the level held before |
| GameField.LandValid | src/components/GameField.tsx:108-127 | landing keeps the invariant, and neither the score nor the lines go down |
| GameField.TickKeepsInvariant | src/components/GameField.tsx:104-131 | every tick keeps the grid 20 x 10, the piece and the avatar inside it, the score and lines non-negative, and the level tied to the lines |
| GameField.TickMonotone | src/components/GameField.tsx:104-131 | the score, the lines cleared and the level never decrease over a tick |
| GameField.TickAfterGameOver | src/components/GameField.tsx:120-124 | once the game is over a tick changes nothing |
| GameField.TickSpawns | src/components/GameField.tsx:129-131 | with no falling piece, a tick spawns NewPiece(choice) and changes nothing else |
| GameField.TickFalls | src/components/GameField.tsx:105-107 | a piece above an empty cell moves down one row and nothing else changes, even when it passes the avatar |
| GameField.TickLands | src/components/GameField.tsx:108-127 | a piece that cannot fall leaves the falling slot; unless an enemy hits the avatar, the grid becomes the cleared grid with the piece written in; with no full row the piece stays in its cell; lines and level follow the number cleared |
| GameField.TickScores | src/components/GameField.tsx:116-127 | on landing the score grows by exactly 50 for a coin on the avatar, plus 100 times the old level per cleared row |
| GameField.TickEnemyEndsGame | src/components/GameField.tsx:110-124 | an enemy on the avatar reports the score held before the tick and ends the game; the enemy is written into the grid, the falling slot empties, no row is cleared, and nothing else changes |
| GameField.TickStaysInSpawnColumn | src/components/GameField.tsx:47 | while every occupied cell and the falling piece are in column 5, a tick keeps it so, clears no row, and leaves the lines and the level unchanged |
| GameField.InitialGameOnlySpawnColumn | src/components/GameField.tsx:30-33 | the initial state has nothing outside column 5, so TickStaysInSpawnColumn applies from the first tick on |
| GameField.Engine.constructor | src/components/GameField.tsx:30-38 | the component starts in the initial game state with no restorations pending |
| GameField.Engine.Move | src/components/GameField.tsx:54-77 | the avatar moves as Moved says, and a jump schedules one more restoration; after game over nothing changes |
| GameField.Engine.RestoreAfterJump | src/components/GameField.tsx:69-71 | a pending restoration runs once and moves the avatar as Restored says; after game over it changes nothing |
| GameField.Engine.ClearLines | src/components/GameField.tsx:79-99 | returns the number of full rows, and the new state is AfterClear of the old state, which keeps the invariant |
| GameField.Engine.Land | src/components/GameField.tsx:108-128 | the state after landing and the reported event are LandStep of the old state |
| GameField.Engine.Tick | src/components/GameField.tsx:104-132 | the state after one interval callback and its event are TickStep of the old state, and the invariant holds |
| Index.IsWhitespace | src/pages/Index.tsx:38 | the code points `trim()` removes: the ECMAScript WhiteSpace and LineTerminator set; LettersAndDigitsNotWhitespace shows no ASCII letter or digit is among them |
| Index.LettersAndDigitsNotWhitespace | src/pages/Index.tsx:38 | `trim()` never removes an ASCII letter or digit |
| Index.LeadingWhitespace | src/pages/Index.tsx:38 | the length of the whitespace prefix, followed by a character that is not whitespace |
| Index.TrailingWhitespace | src/pages/Index.tsx:38 | the length of the whitespace suffix, preceded by a character that is not whitespace |
| Index.Trim | src/pages/Index.tsx:38 | `trim()` is empty exactly when the name is all whitespace; otherwise it is the slice of the name that starts and ends with a character that is not whitespace, and only whitespace is cut off |
| Index.EntryLevel | src/pages/Index.tsx:43 | the entry level satisfies (level - 1) * 1000 <= score < level * 1000, so it is floor(score / 1000) + 1, and it is at least 1 for a non-negative score |
| Index.NewEntry | src/pages/Index.tsx:40-44 | the entry carries the trimmed name, the current score and that score's level |
| Index.Insert | src/pages/Index.tsx:45 | one insertion step of the sort adds exactly one entry; its order, contents and stability are InsertSorted, InsertPermutes and InsertStable |
| Index.SortByScore | src/pages/Index.tsx:45 | the sort keeps the number of entries; SortSortsByScore, SortPermutes and SortStable pin it down as the stable descending sort |
| Index.InsertStable | src/pages/Index.tsx:45 | inserting into a sorted board keeps, for every score, the order of the entries with that score, and puts the new one after its equals |
| Index.InsertPermutes | src/pages/Index.tsx:45 | inserting adds exactly the new entry to the multiset of entries |
| Index.InsertSorted | src/pages/Index.tsx:45 | inserting into a board sorted highest first keeps it sorted |
| Index.SortSortsByScore | src/pages/Index.tsx:45 | the sort puts the entries in order, highest score first |
| Index.SortPermutes | src/pages/Index.tsx:45 | the sorted board holds the same entries with the same multiplicities |
| Index.SortStable | src/pages/Index.tsx:45 | for every score, the entries with that score keep their input order |
| Index.SortSorted | src/pages/Index.tsx:45 | sorting a board that is already sorted changes nothing |
| Index.InsertPoint | src/pages/Index.tsx:45 | the insertion point lies after every entry that scores at least as much, and before the first entry that scores less |
| Index.InsertSplits | src/pages/Index.tsx:45 | inserting puts the new entry exactly at its insertion point, with the rest in order |
| Index.Ranked | src/pages/Index.tsx:45 | the saved board is sorted and has min(n + 1, 10) entries |
| Index.RankedEntries | src/pages/Index.tsx:45 | only old entries and the new one appear, none more often than before |
| Index.RankedStable | src/pages/Index.tsx:45 | the saved board is a prefix of the sorted board, and among equal scores the new entry comes after the old ones |
| Index.RankedKeepsEntryWhenRoom | src/pages/Index.tsx:45 | with fewer than ten entries, a new score is always kept |
| Index.RankedOnSortedBoard | src/pages/Index.tsx:45 | on a sorted board, appending and sorting puts the new entry after its equals |
| Index.RankedAdmitted | src/pages/Index.tsx:45 | on a full board, an entry that beats the tenth score goes in at its insertion point and the tenth entry drops out |
| Index.RankedRejected | src/pages/Index.tsx:45 | on a full board, an entry that only ties the tenth score, or scores lower, leaves the board unchanged |
| Index.RankedAdmission | src/pages/Index.tsx:45 | on a full board, the new entry gains a place exactly when it beats the tenth score; otherwise the board is unchanged |
| Index.InitialLeaderboard | src/pages/Index.tsx:23-29 | the starting board is sorted highest first and has at most ten entries |
| Index.App.constructor | src/pages/Index.tsx:20-29 | the page starts on the menu, with score 0, an empty name and the starting board |
| Index.App.HandleGameOver | src/pages/Index.tsx:31-35 | the page records the reported score and shows the game-over screen; the name and the board are untouched |
| Index.App.TypeName | src/pages/Index.tsx:272-273 | the name becomes the typed text, and nothing else changes |
| Index.App.SaveScore | src/pages/Index.tsx:37-49 | the save happens exactly when the trimmed name is non-empty, and a blank name changes nothing; on a save the board becomes Ranked of the old board and the new entry, the name is cleared and the leaderboard is shown |

## Left out

- Audio: `playSound`, `initAudioContext` and background music are side effects with no state the model reads. The `useAudio` hook is not part of this model.
- Rendering: the JSX, `BLOCK_SIZE`, the unused `PIPE_GREEN` colour, and the screens other than the state that `handleGameOver` and `saveScore` change.
- Keyboard wiring: the key-to-direction mapping, `preventDefault`, and Escape calling `onPause`. `Engine.Move` takes the direction directly. Pausing and remounting the field are not modelled.
- Timers: real time and the 300 ms delay are not modelled. The caller picks the order of `Tick`, `Move` and `RestoreAfterJump` calls. `TickInterval` gives only the period.
- Randomness: `Math.random()` is the parameter `choice`, so the uniform distribution is not modelled.
- React scheduling: batched `setState` calls, stale closures and the shared row arrays are modelled as one sequential state change per callback. Its visible effect, that clearing sees the placed piece, is stated explicitly.
- Numbers: JavaScript numbers are doubles, while the model uses unbounded integers. Scores stay far below 2^53, and no division rounds except the two `Math.floor` divisions by positive constants, which Dafny's `/` matches.
- Index.App.TypeName: the input's `maxLength={20}` is enforced by the browser and not modelled, so any text is accepted.
- Index.Trim: the whitespace set is the ECMAScript WhiteSpace and LineTerminator set with the space separators of current Unicode. A different engine's Unicode version could differ.
- The disabled state of the save button (`src/pages/Index.tsx:279`) is not a separate member. It uses the same guard as `SaveScore`.
