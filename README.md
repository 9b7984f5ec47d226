# Tic-tac-toe engine and stopwatch counter, modelled in Dafny

This project models two of the browser widgets of the SkillCraft
repository and proves properties of them.

**Tic-tac-toe** (`tictactoe.dfy`, module `TicTacToe`, from
`SCT_WD_3/script.js`). The page's module-level state (`board`,
`currentPlayer`, `gameActive`, `gameMode`, the `disabled-cell` class and
`lastWinningCondition`) becomes the fields of class `Game`. The event
handlers are its methods `InitializeGame`, `ChangeMode` (the mode
selector), `HandleCellClick` (the cell listener) and
`ComputerTurnAfterDelay`, which is the body of the `setTimeout` callback
and runs `ComputerMove`. `SwitchPlayer` and `CheckGameResult` are internal
steps of `HandleCellClick` and `ComputerMove`; they carry no invariant of
their own, since between a mark and the result check the state is not yet
consistent. `Game.Valid()` is the invariant every handler keeps:
- while the game runs, no line is completed and some cell is free;
- once it has ended, the board is disabled and `lastWinningCondition` is
  the first completed line (or nothing, for a draw);
- X moves first, so X has as many marks as O or one more, and
  `currentPlayer` is the player to move while the game runs and the player
  who ended it afterwards.

The pure parts are functions:
- `Evaluate` is the verdict of `checkGameResult` as a value;
- `CheckWinForPlayer` is the `some` over the winning lines.

The computer's choice of cell (lines 117-151) is the method `SelectMove`.
It is specified by the relation `HeuristicChoice`: win now, else block,
else the centre, else a free corner, else any free cell. The two
`Math.random` picks are nondeterministic choices of a position in the
candidate list.

**Stopwatch** (`stopwatch.dfy`, module `Stopwatch`, from
`SkillCraft-Submitted/SCT_WD_2/script.js`). The counters, `isRunning`,
`lapCounter`, the lap list (newest first) and the four buttons' `disabled`
flags are the fields of class `Stopwatch`. `Tick` is `incrementTime`.
`Start`, `Pause`, `Reset` and `RecordLap` are the button handlers. The
formatters are functions over strings.

`decimal.dfy` (module `Decimal`) gives JavaScript's decimal rendering of a
non-negative integer below 10^21 (plain digits, no exponent) and the value
a digit string denotes. The formatters
rely on it.

Behaviour the model keeps as the code has it:
- `computerMove` tests with the literal marks `'O'` and `'X'` but places
  `currentPlayer`.
- Nothing cancels the pending `setTimeout`. If the board is reset during
  the 700 ms delay, the computer's move still lands on the new board, with
  X's mark when no click comes in between. The client method `StaleComputerMoveAfterReset` proves this
  run: X ends up in the centre and O is to move.
- `handleCellClick` rejects an index outside 0..8, because `board[index]`
  is then `undefined`, which is not `''`.

## Model

| member | source | states |
|---|---|---|
| `TicTacToe.Other` | SCT_WD_3/script.js:79 | the switch always gives the other player |
| `TicTacToe.OtherInvolution` | SCT_WD_3/script.js:79 | switching twice gives back the starting player |
| `TicTacToe.FirstCompletedFrom` | SCT_WD_3/script.js:88-95 | the result is a completed line (three equal non-empty cells), and no earlier line in enumeration order is completed; with no result, no line from k on is completed |
| `TicTacToe.Evaluate` | SCT_WD_3/script.js:88-110 | a win names the first completed line in enumeration order; the board is a draw exactly when no line is completed and no cell is empty; otherwise the game is in progress with a free cell and no completed line |
| `TicTacToe.SomeLineHeldMeans` | SCT_WD_3/script.js:163-166 | `checkWinForPlayer(b, p)` holds exactly when some winning line has all three cells equal to p |
| `TicTacToe.CompletedIsHeld` | SCT_WD_3/script.js:90 | a line passes the truthiness test of the result check exactly when X or O holds all three of its cells |
| `TicTacToe.WonIffSomePlayerWins` | SCT_WD_3/script.js:163-166 | the result check finds a win exactly when `checkWinForPlayer` holds for X or for O |
| `TicTacToe.WinnerIsMover` | SCT_WD_3/script.js:97-98 | on a board with no completed line, a move can only complete a line through the chosen cell, held by the mover, so the "Player … Wins!" message names the winner |
| `TicTacToe.CountAfterMark` | SCT_WD_3/script.js:57 | marking an empty cell adds one to the mover's count and leaves the other player's count alone |
| `TicTacToe.EmptyBoardFacts` | SCT_WD_3/script.js:33 | the reset board is in progress and holds no X and no O |
| `TicTacToe.AvailableFrom` | SCT_WD_3/script.js:117 | the list holds exactly the empty cells, in strictly ascending order |
| `TicTacToe.KeepAvailable` | SCT_WD_3/script.js:145 | the filtered corners are exactly the corners that are available |
| `TicTacToe.FirstWinFor` | SCT_WD_3/script.js:122-140 | returns the lowest free cell where the mark would complete a line, or -1 when no free cell does |
| `TicTacToe.SelectMove` | SCT_WD_3/script.js:117-151 | the chosen cell is empty and follows the priority order: the lowest cell where O wins at once, else the lowest cell that blocks X, else the centre, else a free corner, else any free cell |
| `TicTacToe.ChoiceIsDeterminedBeforeCorners` | SCT_WD_3/script.js:122-142 | when O can win, X threatens, or the centre is free, any two choices the policy allows are the same cell |
| `TicTacToe.EmptyBoardChoosesCentre` | SCT_WD_3/script.js:142 | on the empty board the policy takes the centre |
| `TicTacToe.BlocksTopRow` | SCT_WD_3/script.js:131-140 | with X on 0 and 1 and O on 3, the policy blocks at 2 |
| `TicTacToe.BlocksLeftColumn` | SCT_WD_3/script.js:131-140 | with X on 0 and 6 and O on the centre, the policy blocks at 3 |
| `TicTacToe.Game.constructor` | SCT_WD_3/script.js:10-15 | the initial state is an empty board, X to move, the game running in player-vs-player mode, and the board enabled |
| `TicTacToe.Game.InitializeGame` | SCT_WD_3/script.js:32-50 | after a reset the board is nine empty cells, X is to move, the game is running, the board is enabled and no winning line is kept; the mode is kept |
| `TicTacToe.Game.ChangeMode` | SCT_WD_3/script.js:211-214 | a mode change sets the mode and resets the game |
| `TicTacToe.Game.SwitchPlayer` | SCT_WD_3/script.js:78-81 | the current player becomes the other player |
| `TicTacToe.Game.CheckGameResult` | SCT_WD_3/script.js:84-111 | a completed line ends the game, disables the board and keeps the first such line; otherwise a full board ends the game as a draw; otherwise nothing changes |
| `TicTacToe.Game.HandleCellClick` | SCT_WD_3/script.js:53-75 | a click is accepted exactly when the game runs, the index is a cell, the cell is empty and the board is enabled; a rejected click changes nothing; an accepted one writes the current player's mark into that cell only, ends the game exactly when the new board is won or drawn, passes the turn only if the game goes on, disables the board when the computer is to answer, and keeps the invariant |
| `TicTacToe.Game.ComputerMove` | SCT_WD_3/script.js:114-160 | on an ended game nothing changes; otherwise exactly one cell that was empty, the one the policy chooses, gets the current player's mark; the game ends exactly when the new board is won or drawn, and the turn passes only if the game goes on |
| `TicTacToe.Game.ComputerTurnAfterDelay` | SCT_WD_3/script.js:67-70 | the delayed callback makes the computer's move and leaves the board enabled exactly when the game goes on |
| `Decimal.ToDecimal` | SkillCraft-Submitted/SCT_WD_2/script.js:30 | a number's text is digits only and denotes the number, with no leading zero |
| `Stopwatch.ClockAt` | SkillCraft-Submitted/SCT_WD_2/script.js:46-59 | every multiple of 10 ms has an in-range reading that stands for it |
| `Stopwatch.ClockAtElapsed` | SkillCraft-Submitted/SCT_WD_2/script.js:46-59 | an in-range reading is determined by the milliseconds it stands for |
| `Stopwatch.FormatTime` | SkillCraft-Submitted/SCT_WD_2/script.js:29-31 | the text is digits only and denotes n; it is exactly two characters below 100, and has no padding zero from 10 on |
| `Stopwatch.FormatMilliseconds` | SkillCraft-Submitted/SCT_WD_2/script.js:33-37 | the text is digits only and denotes n; it is exactly three characters below 1000, and has no padding zero from 100 on |
| `Stopwatch.LapStringFields` | SkillCraft-Submitted/SCT_WD_2/script.js:102 | below 100 hours the lap text is `HH:MM:SS.mmm`: twelve characters, separators at 2, 5 and 8, and fields that read back as the four counters |
| `Stopwatch.Stopwatch.constructor` | SkillCraft-Submitted/SCT_WD_2/script.js:20-27 | the counters start at zero, the stopwatch is stopped and there are no laps |
| `Stopwatch.Stopwatch.Tick` | SkillCraft-Submitted/SCT_WD_2/script.js:46-61 | the counters stay in range (milliseconds a multiple of 10 below 1000, seconds and minutes below 60), and the time they stand for grows by exactly 10 ms |
| `Stopwatch.Stopwatch.Start` | SkillCraft-Submitted/SCT_WD_2/script.js:63-72 | afterwards the stopwatch runs; when it already ran nothing changes; otherwise start is disabled and pause, reset and lap are enabled |
| `Stopwatch.Stopwatch.Pause` | SkillCraft-Submitted/SCT_WD_2/script.js:74-81 | afterwards the stopwatch is stopped; when it was already stopped nothing changes; otherwise start is enabled and pause disabled, and reset and lap are kept |
| `Stopwatch.Stopwatch.Reset` | SkillCraft-Submitted/SCT_WD_2/script.js:83-97 | the counters and the lap counter are zero, the lap list is empty and the stopwatch is stopped; start is enabled and pause, reset and lap are disabled |
| `Stopwatch.Stopwatch.RecordLap` | SkillCraft-Submitted/SCT_WD_2/script.js:99-114 | while running, the lap counter goes up by one and a lap with that number and the current `HH:MM:SS.mmm` text goes in front of the list; while stopped nothing changes |

## Left out

- Rendering is left out: cell text and CSS classes, status text, the lap `<li>` markup and the placeholder line, and the display spans.
  It is presentation only. The empty lap list stands for the placeholder.
- `drawWinningLine` and the resize handler are left out (SCT_WD_3/script.js:170-194, 217-221).
  They are floating-point geometry over layout offsets. The model keeps the line they draw, `lastWinningCondition`.
- Timer scheduling is left out: the 700 ms `setTimeout` and the 10 ms `setInterval` with `clearInterval`.
  `ComputerTurnAfterDelay` and `Tick` are what the timers run. Any interleaving of handlers is a sequence of method calls.
- `Math.random` is left out. The corner and fallback picks are nondeterministic choices of a position in the candidate list.
- The theme toggle, `localStorage` and the year span are left out. They are browser I/O.
- `SkillCraft-Submitted/SCT_WD_1/script.js` and `SkillCraft-Submitted/SCT_WD_4/script.js` are not part of this model. They are scroll effects and to-do CRUD over DOM nodes with no data model of their own.
- The ALTERNATIVE variants of both scripts are not part of this model.
- `parseInt` on the cell's `data-index` is left out. `HandleCellClick` takes the parsed integer.
- The buttons' initial `disabled` attributes come from the page markup, which is not part of this model.
  The `Stopwatch` constructor takes them as parameters.
- `Stopwatch.Stopwatch.Tick` states the new counters through the elapsed time and the range invariant, not field by field.
  `Stopwatch.ClockAtElapsed` shows that these two determine the counters.
- The stopwatch counters are unbounded naturals. JavaScript numbers are exact integers only below 2^53 and print as plain digits only below 10^21.
  Beyond those bounds `hours++` and the formatters' text differ from the model.
- `Stopwatch.FormatTime` and `Stopwatch.FormatMilliseconds` return a string. The source returns the number itself from 10 (or 100) on; the model takes it in the text form it is printed as.
- `TicTacToe.Game.ComputerMove`: the early return on an empty `available` list is kept, but it cannot be reached, because `Valid()` guarantees a free cell while the game runs.
