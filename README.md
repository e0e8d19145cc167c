# Peg solitaire (SoloTest): the board engine and its bookkeeping

This project models the core of an Android peg-solitaire game in Dafny and proves it.

**The board engine (`GameEngine`)** is an imperative class:

- its state is a 7x7 array of cells (Invalid, Empty, Peg) plus the selected position, the move history and the move counter;
- a click selects a peg, deselects it, makes a jump or is refused, in a fixed order of precedence;
- a jump goes two cells along one axis over a peg into an empty cell, and it is recorded and undoable;
- the engine gives a hint (the first movable peg in row-major order) and classifies the position as a perfect win, a win, in progress or game over.

**The proof of the engine** works as follows:

- A ghost snapshot mirrors the array.
- The class invariant says that the snapshot is the starting layout with the recorded history replayed, and that every replayed move was legal.
- From that invariant the project proves:
  - the Invalid corners never change;
  - the counter equals the history length;
  - pegs plus moves always make 32;
  - a selection is always a peg;
  - undoing restores the board a move was made on.

**The bookkeeping around a finished game** is modelled as functions over values:

- the score table;
- the `m:ss` clock text;
- the player-name check;
- the local history of the last twenty games, stored as `pegs,score,moves,date` lines with a count;
- the leaderboard reduction: each player's best result ranked by pegs and then time, the top ten of that ranking, and the day's top five.

The history is read and written by loops against a value that stands for the stored preferences.

Modules:

| module | models |
|---|---|
| `Wrappers` (wrappers.dfy) | nullable values (`Option`) and thrown exceptions (`Result`) |
| `Position` (position.dfy) | board constants, Kotlin's truncating `/` and `%`, the `row*7+col` encoding |
| `Rules` (rules.dfy) | the rules on immutable snapshots: layout, jump legality, destinations, hints, executing and undoing jumps, peg counts, history replay |
| `Engine` (engine.dfy) | the `GameEngine` class over an `array2`, proved against `Rules` |
| `Text` (text.dfy) | the Kotlin string operations used: `toString`, `toInt`, `split`, `padStart`, `trim` |
| `Scoring` (scoring.dfy) | the score table, the clock text, the name check |
| `History` (history.dfy) | encoding, loading and saving the game history |
| `Leaderboard` (leaderboard.dfy) | best result per player, ranking, the day's list |

## Model

| member | source | states |
|---|---|---|
| `Position.KotlinDivision` | app/src/main/java/com/stokmatik/solotest/GameEngine.kt:237-239 | `/` and `%` truncate toward zero: `a == b*q + r`, equal to the Euclidean ones for `a >= 0`, remainder in (-b, 0] for negative `a` |
| `Position.PositionToRowCol` | app/src/main/java/com/stokmatik/solotest/GameEngine.kt:237-239 | a position decodes onto the grid exactly when it lies in [0, 49), and then re-encodes to itself; every other position decodes off the grid |
| `Position.RowColToPosition` | app/src/main/java/com/stokmatik/solotest/GameEngine.kt:241-243 | an on-grid cell encodes into [0, 49) and decodes back to the same row and column |
| `Rules.InitialFacts` | app/src/main/java/com/stokmatik/solotest/GameEngine.kt:20-37 | the starting layout: Invalid exactly on the four corner blocks (16 cells), Empty at (3,3) = position 24, Peg everywhere else (32 pegs) |
| `Rules.IsValidMoveByDirection` | app/src/main/java/com/stokmatik/solotest/GameEngine.kt:101-125 | a jump is legal iff it goes along one of the four straight two-cell offsets from a peg over a peg into an empty board cell; never diagonal, never another distance |
| `Rules.ValidMovesForSpec` | app/src/main/java/com/stokmatik/solotest/GameEngine.kt:80-99 | a peg's destinations are exactly its legal jumps, at most four, in the order up, down, left, right (so distinct) |
| `Rules.FirstMovableIsHint` | app/src/main/java/com/stokmatik/solotest/GameEngine.kt:166-183 | the first peg in row-major order that can jump, with its first destination and captured -1, is the hint |
| `Rules.HintIsUnique` | app/src/main/java/com/stokmatik/solotest/GameEngine.kt:166-183 | a board has at most one hint |
| `Rules.MoveOfLegal` | app/src/main/java/com/stokmatik/solotest/GameEngine.kt:127-136 | the record of a legal jump has all three positions on the grid, is a legal move, and its captured position decodes to the midpoint |
| `Rules.ApplyChangesThreeCells` | app/src/main/java/com/stokmatik/solotest/GameEngine.kt:139-142 | a legal jump changes exactly three distinct cells: from and captured go from Peg to Empty, to goes from Empty to Peg; all others are unchanged |
| `Rules.ApplyPegCount` | app/src/main/java/com/stokmatik/solotest/GameEngine.kt:139-142 | a legal jump removes exactly one peg |
| `Rules.ApplyKeepsLayout` | app/src/main/java/com/stokmatik/solotest/GameEngine.kt:139-142 | a legal jump leaves the Invalid cells exactly on the corners |
| `Rules.UndoAfterApply` | app/src/main/java/com/stokmatik/solotest/GameEngine.kt:156-158 | undo's three writes right after a legal jump give back the exact board before it |
| `Rules.PlayablePush` | app/src/main/java/com/stokmatik/solotest/GameEngine.kt:137-142 | appending a legal jump to a legally played history keeps it legal, and the board replayed is the old one with the jump executed |
| `Rules.PlayableJump` | app/src/main/java/com/stokmatik/solotest/GameEngine.kt:127-145 | on a board reached by legal play, a legal jump's three writes give the board of the extended history, keep the layout and remove one peg |
| `Rules.PlayablePop` | app/src/main/java/com/stokmatik/solotest/GameEngine.kt:147-164 | the last move of a legally played history was legal on the board before it; undoing it gives that board back with one more peg |
| `Rules.PlayableUndoWrites` | app/src/main/java/com/stokmatik/solotest/GameEngine.kt:150-158 | undo's three writes, at the decoded positions of the last move, give the board of the history without that move |
| `Rules.CountsPartition` | app/src/main/java/com/stokmatik/solotest/GameEngine.kt:246-250 | every cell is Invalid, Empty or Peg: the three counts add up to 49 |
| `Rules.ReplayInvariants` | app/src/main/java/com/stokmatik/solotest/GameEngine.kt:137-144 | every board reached by legal play keeps the corner layout and has 32 pegs minus one per move |
| `Rules.SinglePegIsStuck` | app/src/main/java/com/stokmatik/solotest/GameEngine.kt:185-195 | with a single peg no jump is possible, so a win is final |
| `Engine.GameEngine.constructor` | app/src/main/java/com/stokmatik/solotest/GameEngine.kt:16-18 | a new engine is valid, with the starting layout, no history, counter 0 and no selection |
| `Engine.GameEngine.InitializeBoard` | app/src/main/java/com/stokmatik/solotest/GameEngine.kt:20-37 | writing the cells row by row gives the starting layout; history, counter and selection are cleared |
| `Engine.GameEngine.ResetGame` | app/src/main/java/com/stokmatik/solotest/GameEngine.kt:226-228 | reset restores the starting state in place and keeps the invariant |
| `Engine.GameEngine.IsValidMove` | app/src/main/java/com/stokmatik/solotest/GameEngine.kt:101-125 | the check read from the array agrees with the jump rule on the board |
| `Engine.GameEngine.GetValidMovesFor` | app/src/main/java/com/stokmatik/solotest/GameEngine.kt:80-99 | the loop over the four offsets returns exactly the legal destinations, in direction order, at most four |
| `Engine.GameEngine.MakeMove` | app/src/main/java/com/stokmatik/solotest/GameEngine.kt:127-145 | appends the jump's record, executes it on the board (one peg fewer) and keeps the invariant; the selection is untouched |
| `Engine.GameEngine.HandleCellClick` | app/src/main/java/com/stokmatik/solotest/GameEngine.kt:39-78 | the precedence: off-board refused with nothing changed; another peg selected with its destinations; the selection deselected; a legal jump from the selection made with the selection cleared; anything else refused with board, history and selection unchanged |
| `Engine.GameEngine.UndoMove` | app/src/main/java/com/stokmatik/solotest/GameEngine.kt:147-164 | with no history answers false and changes nothing; otherwise pops the last move, writes its three cells back, decrements the counter, clears the selection and answers true, keeping the invariant |
| `Engine.ClickThenUndo` | app/src/main/java/com/stokmatik/solotest/GameEngine.kt:147-164 | a click that made a move followed by undo gives back the board, history and counter from before the click |
| `Engine.GameEngine.GetRemainingPegsCount` | app/src/main/java/com/stokmatik/solotest/GameEngine.kt:210-220 | the nested counting loop returns the number of pegs on the board |
| `Engine.GameEngine.HasValidMoves` | app/src/main/java/com/stokmatik/solotest/GameEngine.kt:197-208 | the scan answers true exactly when some peg can jump |
| `Engine.GameEngine.GetHint` | app/src/main/java/com/stokmatik/solotest/GameEngine.kt:166-183 | no hint exactly when no peg can jump; otherwise the first movable peg in row-major order with its first destination and captured -1 |
| `Engine.GameEngine.GetGameState` | app/src/main/java/com/stokmatik/solotest/GameEngine.kt:185-195 | one peg gives PerfectWin iff it is on (3,3), else Win; otherwise InProgress iff some peg can jump, else GameOver |
| `Engine.GameEngine.GetBoard` | app/src/main/java/com/stokmatik/solotest/GameEngine.kt:222 | returns the board's current contents |
| `Engine.GameEngine.GetMoveCount` | app/src/main/java/com/stokmatik/solotest/GameEngine.kt:223 | the counter equals the history length, and it plus the pegs left is 32 |
| `Engine.GameEngine.CanUndo` | app/src/main/java/com/stokmatik/solotest/GameEngine.kt:224 | undo is possible iff a move was made, iff fewer than 32 pegs remain |
| `Text.ParseInt` | app/src/main/java/com/stokmatik/solotest/MainActivity.kt:902-904 | `toInt` yields only values inside `Int`'s range |
| `Text.ParseIntToString` | app/src/main/java/com/stokmatik/solotest/MainActivity.kt:902-904 | `toInt` reads back every `Int` written by `toString` |
| `Text.ParsedCharacters` | app/src/main/java/com/stokmatik/solotest/MainActivity.kt:902-904 | a string `toInt` accepts is a sign at most and then digits, so it holds no separator |
| `Text.IntToStringCharacters` | app/src/main/java/com/stokmatik/solotest/MainActivity.kt:858 | `toString` of an `Int` is non-empty and holds only digits and '-' |
| `Text.Split` | app/src/main/java/com/stokmatik/solotest/MainActivity.kt:900 | `split` always yields at least one part |
| `Text.SplitPartsFree` | app/src/main/java/com/stokmatik/solotest/MainActivity.kt:900 | no part of a split holds the separator |
| `Text.JoinSplit` | app/src/main/java/com/stokmatik/solotest/MainActivity.kt:900 | joining the parts of a split with the separator gives back the string |
| `Text.SplitJoin` | app/src/main/java/com/stokmatik/solotest/MainActivity.kt:858 | separator-free parts written with the separator between them split back into the same parts |
| `Text.PadStart` | app/src/main/java/com/stokmatik/solotest/MainActivity.kt:152 | `padStart` keeps the string as a suffix, fills only in front, and reaches the requested length |
| `Text.TrimSpec` | app/src/main/java/com/stokmatik/solotest/MainActivity.kt:1394 | `trim` returns a slice of the input with only whitespace outside it and no whitespace at either end |
| `Text.TrimIdempotent` | app/src/main/java/com/stokmatik/solotest/MainActivity.kt:1394 | trimming twice is trimming once |
| `Scoring.ScoreClosedForm` | app/src/main/java/com/stokmatik/solotest/MainActivity.kt:832-842 | the score table is 225 - 25p for 1 <= p <= 8 and 0 otherwise |
| `Scoring.ScoreBounds` | app/src/main/java/com/stokmatik/solotest/MainActivity.kt:621-631 | scores are multiples of 25 in [0, 200]; 200 exactly for one peg; positive exactly for one to eight pegs |
| `Scoring.ScoreNonIncreasing` | app/src/main/java/com/stokmatik/solotest/MainActivity.kt:567-569 | for one peg or more, leaving more pegs never scores more |
| `Scoring.PaddedSeconds` | app/src/main/java/com/stokmatik/solotest/MainActivity.kt:151-152 | seconds below 60 padded with '0' are exactly two characters, have no ':' and read back as the same number |
| `Scoring.TimeTextParts` | app/src/main/java/com/stokmatik/solotest/MainActivity.kt:150-152 | the clock text is the minutes, ':' and the padded seconds, the minutes holding no ':' |
| `Scoring.TimeTextRoundTrip` | app/src/main/java/com/stokmatik/solotest/MainActivity.kt:150-152 | for any non-negative time the text has a two-character seconds field and reads back as the same number of seconds |
| `Scoring.AcceptNameSpec` | app/src/main/java/com/stokmatik/solotest/MainActivity.kt:1394-1395 | a name is accepted iff its trimmed form has 1 to 20 characters; the stored name is that trimmed form, has no whitespace at either end, and is itself accepted unchanged |
| `History.DecodeEncode` | app/src/main/java/com/stokmatik/solotest/MainActivity.kt:857-858 | the line written for a record whose numbers fit in `Int` and whose date has no ',' is non-empty and is read back as that record |
| `History.DecodedWellFormed` | app/src/main/java/com/stokmatik/solotest/MainActivity.kt:898-906 | every record read from a line has numbers in `Int` range and a date without ',' |
| `History.GetGameHistory` | app/src/main/java/com/stokmatik/solotest/MainActivity.kt:891-911 | the loop reads lines `0 until count` in order, skips empty lines and lines without exactly four fields, and fails at the first number field `toInt` rejects |
| `History.FailureSticks` | app/src/main/java/com/stokmatik/solotest/MainActivity.kt:902-904 | once a line's number fails to parse, reading further lines keeps that failure |
| `History.CollectBounds` | app/src/main/java/com/stokmatik/solotest/MainActivity.kt:894-909 | a loaded history has at most one record per line read, each decoded from a line; a failure names a line read whose number field failed |
| `History.LoadedWellFormed` | app/src/main/java/com/stokmatik/solotest/MainActivity.kt:891-911 | a loaded history is no longer than the count and all its records are well-formed |
| `History.PushRecord` | app/src/main/java/com/stokmatik/solotest/MainActivity.kt:849-854 | the new record is first and the old list follows in order; past 20 entries only the last is dropped, so a list of 20 or fewer stays at 20 or fewer |
| `History.WrittenLookup` | app/src/main/java/com/stokmatik/solotest/MainActivity.kt:856-858 | writing the list puts record k's line under index k and keeps every other stored line |
| `History.PutRecords` | app/src/main/java/com/stokmatik/solotest/MainActivity.kt:856-858 | the `forEachIndexed` loop writes exactly the list's lines |
| `History.LoadStore` | app/src/main/java/com/stokmatik/solotest/MainActivity.kt:856-860 | a stored list of well-formed records reads back as exactly that list, whatever stale lines lie beyond the count |
| `History.SaveGameRecord` | app/src/main/java/com/stokmatik/solotest/MainActivity.kt:831-864 | saving fails exactly when reading the history fails, and then writes nothing; otherwise the new record with its table score is pushed and the list and its count are stored |
| `History.SaveThenLoad` | app/src/main/java/com/stokmatik/solotest/MainActivity.kt:847-860 | after a save the history reads back as the old history with the record pushed in front, so a history within 20 stays within 20 |
| `History.FinishedGameWellFormed` | app/src/main/java/com/stokmatik/solotest/MainActivity.kt:844-850 | a finished game's record (0-32 pegs, at most 31 moves, comma-free date) is well-formed |
| `Leaderboard.Names` | app/src/main/java/com/stokmatik/solotest/MainActivity.kt:1083 | the groups are exactly the players with results, each once |
| `Leaderboard.Group` | app/src/main/java/com/stokmatik/solotest/MainActivity.kt:1083 | a player's group holds exactly that player's results and is non-empty |
| `Leaderboard.MinBy` | app/src/main/java/com/stokmatik/solotest/MainActivity.kt:1084-1088 | `minWithOrNull` picks a result of the group that none beats by (pegs, time), the first such: every earlier result is strictly worse |
| `Leaderboard.LeadersSpec` | app/src/main/java/com/stokmatik/solotest/MainActivity.kt:1083-1089 | one entry per group: entry i belongs to player i, is one of the results, and no result of that player beats it |
| `Leaderboard.Insert` | app/src/main/java/com/stokmatik/solotest/MainActivity.kt:1090 | inserting adds exactly the one entry |
| `Leaderboard.InsertSorted` | app/src/main/java/com/stokmatik/solotest/MainActivity.kt:1090 | inserting into a sorted list keeps it sorted |
| `Leaderboard.SortByKey` | app/src/main/java/com/stokmatik/solotest/MainActivity.kt:1090 | `sortedWith` returns a permutation of its input sorted by (pegs, time) |
| `Leaderboard.Take` | app/src/main/java/com/stokmatik/solotest/MainActivity.kt:1104 | `take(n)` is the prefix of length min(n, size) |
| `Leaderboard.UniqueLeadersBest` | app/src/main/java/com/stokmatik/solotest/MainActivity.kt:1083-1090 | the all-time ranking is sorted, and each entry is a result that no result of the same player beats |
| `Leaderboard.UniqueLeadersCover` | app/src/main/java/com/stokmatik/solotest/MainActivity.kt:1083-1090 | every player with a result appears in the ranking |
| `Leaderboard.UniqueLeadersDistinct` | app/src/main/java/com/stokmatik/solotest/MainActivity.kt:1083-1090 | no player appears twice in the ranking |
| `Leaderboard.TopLeadersSpec` | app/src/main/java/com/stokmatik/solotest/MainActivity.kt:1171 | the all-time list shows at most ten entries, the start of the ranking, and exactly ten when there are that many |
| `Leaderboard.Today` | app/src/main/java/com/stokmatik/solotest/MainActivity.kt:1093-1102 | the filter keeps exactly the results whose day part, followed by '.' and the year, equals today |
| `Leaderboard.TodayLeadersShape` | app/src/main/java/com/stokmatik/solotest/MainActivity.kt:1093-1104 | the day's list holds min(5, day's results) results, all of the day and sorted by (pegs, time) |
| `Leaderboard.TodayLeadersBest` | app/src/main/java/com/stokmatik/solotest/MainActivity.kt:1093-1104 | the day's list is part of the day's results, and no result of the day left out beats one shown |

## Left out

- The Android user interface is not modelled: layouts, drawables, dialogs, toasts and the board views. GameBoardAdapter.kt is not part of this model; its highlight state is presentation only.
- The game timer (Handler and clock) is not modelled. The elapsed seconds are an input of the time text.
- Sound playback is not modelled.
- Preferences storage is not modelled as I/O. The stored count and lines are a value that saving reads and returns, and the key `game_i` is the index i. The asynchronous `apply` of the editor and a count stored with a non-integer type are not modelled. Storing the player name after the check is not modelled either.
- The database leaderboard is not modelled: neither the push on save nor reading the snapshot with its per-field defaults. The results are an input list of records.
- Dates are not generated. The history date and the "today" and year of the day's filter are inputs.
- The caller-side refusal to undo or hint in a finished game is not modelled. It is user-interface policy; the engine's own undo does not check the game state.
- The "Süre: " label in front of the clock text is not modelled.
- Float layout arithmetic is not modelled.
- `Engine.GameEngine.GetBoard`: returns a snapshot of the array, not the internal array itself. Changes a caller makes through the returned alias are not modelled.
- `Engine.GameEngine.UndoMove`: the counter and the selection are cleared before the three cell writes rather than after. No other code runs in between, so the final state is the same.
- `Engine.GameEngine.GetRemainingPegsCount`: requires only that the array mirrors the snapshot. The conservation law (pegs plus moves is 32) is stated by `GetMoveCount`, `CanUndo` and `Rules.ReplayInvariants` rather than by the count itself. The same narrower precondition applies to `HasValidMoves`, `GetHint`, `GetGameState` and `GetBoard`.
- `Leaderboard.SortByKey`: sorted and a permutation of its input are proved. That ties keep their input order, as Kotlin's stable sort guarantees, is built into the insertion but not stated.
- `Text.ParseInt`: accepts only the ASCII digits. Kotlin's `toInt` also accepts other Unicode decimal digits. Lines the app writes hold only ASCII digits.
- `Scoring.AcceptNameSpec`: lengths count characters (Unicode scalar values). Kotlin counts UTF-16 code units, so a name with characters outside the Basic Multilingual Plane can measure differently.
- `Scoring.TimeTextRoundTrip`: stated for non-negative times only. The game clock never runs negative; `TimeText` itself models Kotlin's truncating `/` and `%` for negative values too.
- The `try`/`catch` around the day part of a leaderboard date is not modelled: `split` always yields a first part, so the `catch` branch cannot run.
