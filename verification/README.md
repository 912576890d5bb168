# Tic-tac-toe game reducer, modelled in Dafny

This project models the game logic of a React tic-tac-toe app that has a move-history browser. The app keeps an ordered history of board states and a step number pointing into it. Clicking a square validates the move and marks the square. It then detects a win (the first completed line of the eight in `LINES`) or a tie, records the move's row and column, re-tags the squares, truncates the history after the current step and appends the new state. Pressing a history button only moves the step number.

The repository contains the reducer twice:

- `src/Game.js` is a hooks component. Each entry carries `xIsNext` and a `CurrStatus` (PENDING, X_WON, O_WON, TIE).
- `src/index.js` is a class component. There the status is a string (`''`, `'X'`, `'O'`, `'T'`), `xIsNext` lives in component state, and each entry records the mark just played (`playerTurn`).

Both are modelled as pure transition functions over immutable datatypes. Both are proved to refine one abstract machine, and to agree with each other after any sequence of user actions.

Modules, one per file:

- `GameUtils` (`game_utils.dfy`): squares (`Cell`: Empty, X, O), nine-square boards, the `SquareType` and `CurrStatus` enumerations, the table `Lines`, and `CalculateWinner` as a first-match scan. Game.js fills empty squares with `''` and index.js with `null`. Both are falsy in the scan, and both are `Empty` here. `CalculateWinner` is a function of a board value, so it cannot modify its argument.
- `Rules` (`rules.dfy`): the abstract machine. It holds a sequence of boards and a cursor. A move is accepted only on an unfinished board and an empty square, and marks the square for the player whose turn the cursor's parity gives. The outcome of a board depends only on its squares: the mark on the first completed line, else Draw when the board is full, else InProgress. `ValidHistory` describes every history the game can produce. The lemmas about it are: board `k` holds `k` marks, a history has at most ten boards, board `k` is full exactly when `k` is 9, and a win always runs through the square just marked.
- `Moves` (`moves.dfy`): bookkeeping both components share, namely the recorded `[row, col]` of a move and the re-tagging of squares, together with the invariant the tags keep.
- `HooksGame` (`hooks_game.dfy`) models `src/Game.js`. `ClassGame` (`class_game.dfy`) models `src/index.js`, including its duplicate `calculateWinner` as a loop. Each module has an invariant over reachable states, a proof that each handler preserves it, and a proof that each handler performs the abstract move or jump (`Abs`). Reachable states are those `Run` produces from the initial state by a sequence of user actions.
- `Agreement` (`agreement.dfy`): after the same actions, both components hold the same boards and step number. Entry by entry they also hold the same tags, the same recorded locations, and statuses that name the same outcome.

Where the code and a plain description of the game differ, the model follows the code:

- **Tags.** The code never resets earlier `SELECTED` tags. It copies the previous `squareType` and overwrites only square `i` or the winning line. So in every reachable entry, every marked square off the winning line is tagged Selected, not only the last one (`Moves.TagsAgree`).
- **Tie test.** A tie is decided by the step count (`stepNumber === 8` in Game.js, truncated `history.length === 9` in index.js), not by scanning for a full board. `Rules.FullExactlyAtStepNine` proves the two tests agree on every reachable history.
- **Initial entry.** In index.js the initial entry already records `playerTurn: 'X'`, although nobody has played yet.

## Model

| member | source | states |
|---|---|---|
| GameUtils.CalculateWinner | src/GameUtils.mjs:1-19 | `calculateWinner` as the scan from position 0 of LINES; what it returns is stated by GameUtils.CalculateWinnerSpec. |
| GameUtils.CalculateWinnerSpec | src/GameUtils.mjs:1-19 | The result is None or one of the eight lines of LINES. A returned line has a marked first square and three equal squares. None is returned exactly when no line of LINES is complete. A returned line is the first complete one in LINES order. The empty board gives None. |
| GameUtils.ScanFrom | src/GameUtils.mjs:12-18 | The `for` loop of `calculateWinner` from position `k` on; what it returns is stated by GameUtils.ScanFromSpec. |
| GameUtils.ScanFromSpec | src/GameUtils.mjs:12-18 | The loop from position `k` of LINES on returns None exactly when no line from `k` on is complete. Otherwise it returns the first complete line at or after `k`. |
| GameUtils.MarkFor | src/Game.js:37 | The mark placed for `xIsNext` is never Empty, and it is X exactly when `xIsNext` holds. |
| Rules.Classify | src/Game.js:43-56 | A won board carries a winner mark (X or O) that fills some complete line of LINES. A board in progress is not full and has no complete line. |
| Rules.ClassifySpec | src/Game.js:43-56 | A win beats a tie: the outcome is a win exactly when the scan finds a line, and the winner is the mark on that line's first square. It is a draw exactly when the board is full and no line is complete. |
| Rules.Marks | src/Game.js:53 | The number of marked squares never exceeds the number of squares. |
| Rules.Move | src/Game.js:27-70 | The abstract move is a no-op on a finished board or an occupied square. Otherwise the history keeps its first `cursor+1` boards, gains exactly one board, and the cursor advances by one. The new board is the old one with empty square `i` given the mark for the cursor's parity. |
| Rules.Jump | src/Game.js:74 | A jump keeps the boards and sets the cursor to the chosen step. |
| Rules.MarksAfterMove | src/Game.js:36-37 | Marking an empty square adds exactly one mark. |
| Rules.AllMarkedIffMarksIsLength | src/Game.js:53-56 | The mark count equals the length exactly when every square is marked. |
| Rules.NoMarksIffAllEmpty | src/Game.js:16 | The mark count is 0 exactly when every square is empty. |
| Rules.FullIffNineMarks | src/Game.js:53-56 | A board is full exactly when it holds nine marks. |
| Rules.MarksCountSteps | src/Game.js:30-37 | In every producible history, board `k` holds exactly `k` marks. |
| Rules.HistoryAtMostTen | src/Game.js:30-33 | A producible history has at most ten entries. |
| Rules.FullExactlyAtStepNine | src/Game.js:53-56 | In a producible history, board `k` is full exactly when `k` is 9. So the step-count tie test means "board now full". |
| Rules.WinGoesThroughMove | src/Game.js:43-46 | If a move completes a line on a board that had none, the first complete line contains the square just marked, and its mark is the mover's. |
| Rules.ExtendValid | src/Game.js:27-70 | Truncating a producible history after an unfinished board and appending one legal move gives a producible history. |
| Rules.ExtendSteps | src/Game.js:60-66 | After truncation and a push, every step of the new history is a single move into an empty square by the player whose turn it is. |
| Rules.ExtendUnfinished | src/Game.js:30-33 | After truncation and a push, every board except the last is still in progress. |
| Rules.MovePreservesValid | src/Game.js:25-71 | The abstract move keeps the machine valid. |
| Rules.RunValid | src/Game.js:25-74 | Every machine reached from the start by clicks and jumps holds a producible history and a cursor inside it. |
| Rules.FinishedBoardIsFinal | src/Game.js:30-33 | A move from a finished board changes nothing. |
| Moves.Location | src/Game.js:38 | The recorded `[row, col]` lies in 0..2 × 0..2, and `3*row + col` is the square selected. |
| Moves.Retag | src/Game.js:39-52 | The new tags equal the previous ones except that the winning line becomes Win or, with no winner, square `i` becomes Selected. No earlier tag is reset. |
| Moves.TagsDetermined | src/Game.js:39-52 | Two tag sequences that agree with the same board are equal. |
| Moves.InitialTagsAgree | src/Game.js:16-17 | The all-UNSELECTED tags agree with the empty board. |
| Moves.RetagAgrees | src/Game.js:39-52 | Re-tagging after a move on a board without a winner keeps the tags in agreement: Unselected exactly on empty squares, Win exactly on the winning line, Selected on every other marked square. |
| Moves.LocationDetermined | src/Game.js:38 | After a single move, only one `[row, col]` names a square that went from empty to marked. |
| HooksGame.HandleSquareSelection | src/Game.js:25-71 | On a non-PENDING current entry or an occupied square, history and stepNumber are unchanged. Otherwise the history keeps entries `0..stepNumber`, gains exactly one entry, and stepNumber becomes old stepNumber + 1. The new board differs from the current one only at `i`, which holds X if `current.xIsNext` and O otherwise. A completed line gives X_WON or O_WON for the mover, and this beats a tie. With no winner the status is TIE exactly when stepNumber is 8, and PENDING otherwise. `xIsNext` is negated, `squareSelected` is `Location(i)`, and the tags are re-tagged. |
| HooksGame.JumpTo | src/Game.js:74 | `jumpTo` sets stepNumber and leaves the history untouched. |
| HooksGame.InitialRefines | src/Game.js:12-23 | The initial state satisfies the invariant and is the abstract start: one empty board, step 0. |
| HooksGame.Accepts | src/Game.js:30-33 | The guard of `handleSquareSelection`: the current entry is PENDING and square `i` is empty. HooksGame.AcceptsIffPlayable relates it to the abstract guard. |
| HooksGame.AcceptsIffPlayable | src/Game.js:30-33 | On a reachable state, the guard (PENDING and empty square) accepts exactly the moves the abstract machine accepts. |
| HooksGame.SelectRefines | src/Game.js:25-71 | On a reachable state, `handleSquareSelection` performs the abstract move on boards and step number. |
| HooksGame.PushRefines | src/Game.js:27-70 | Truncating and pushing the new entry performs the abstract move, given the guard equivalence and the turn parity. |
| HooksGame.ValidAfterSelect | src/Game.js:25-71 | The boards after a selection form a producible history. |
| HooksGame.PushedEntryShape | src/Game.js:36-66 | The pushed entry has the next turn's parity, a status that classifies its board, tags that agree with its board, and a location naming the square marked. |
| HooksGame.NewEntryOk | src/Game.js:36-66 | The entry pushed by an accepted move satisfies the entry invariant. |
| HooksGame.EntriesOfPush | src/Game.js:60-66 | Cutting the history after entry `stepNumber` and appending an entry that satisfies the entry invariant leaves every entry satisfying it. |
| HooksGame.SelectPreservesInv | src/Game.js:25-71 | `handleSquareSelection` preserves the invariant. |
| HooksGame.JumpRefines | src/Game.js:74 | `jumpTo` preserves the invariant and is the abstract jump. |
| HooksGame.RunRefines | src/Game.js:12-74 | Every reachable state of the hooks component keeps the invariant and is the abstract game after the same actions. |
| HooksGame.ReachableFacts | src/Game.js:51-56 | In a reachable state, entry `k` holds exactly `k` marks and there are at most ten entries. TIE is recorded exactly on a full board without a winner, and only in entry 9. |
| ClassGame.MarkText | src/index.js:156 | The stored text of a mark is one character, and that character is 'X' exactly for X. |
| ClassGame.GetNextPlayer | src/index.js:127-129 | `getNextPlayer` returns a mark, and it is X exactly when `xIsNext` holds. |
| ClassGame.HandleClick | src/index.js:136-185 | On a current status other than `''` or an occupied square, the state is unchanged. Otherwise the history keeps `stepNumber+1` entries and gains one, stepNumber becomes the truncated length, and `xIsNext` toggles. The new board differs only at `i`, which holds `getNextPlayer()`, and `playerTurn` is that mark. On a win the status is the mark placed. Otherwise it is 'T' exactly when the truncated length is 9, and `''` otherwise. `currentGameStatus` is the new status. |
| ClassGame.JumpTo | src/index.js:191-199 | `jumpTo` keeps the history, sets stepNumber, resets `xIsNext` to the step's parity, and shows `history[step].gameStatus`. |
| ClassGame.CalculateWinnerLoop | src/index.js:336-354 | The duplicate `calculateWinner` returns the same answer as the one in GameUtils.mjs. A returned line is complete and in LINES. None is returned exactly when no line is complete. |
| ClassGame.InitialRefines | src/index.js:108-121 | The constructor's state has one entry of nine empty squares, status `''`, step 0 and `xIsNext` true. It satisfies the invariant and is the abstract start. |
| ClassGame.NextPlayerFollowsParity | src/index.js:127-129 | On a reachable state, the next player is X exactly when stepNumber is even. |
| ClassGame.Accepts | src/index.js:141-144 | The guard of `handleClick`: the current status is `''` and square `i` is empty. ClassGame.AcceptsIffPlayable relates it to the abstract guard. |
| ClassGame.AcceptsIffPlayable | src/index.js:141-144 | On a reachable state, the guard accepts exactly the moves the abstract machine accepts. |
| ClassGame.ClickRefines | src/index.js:136-185 | On a reachable state, `handleClick` performs the abstract move. |
| ClassGame.PushRefines | src/index.js:137-180 | Truncating and concatenating the new entry performs the abstract move, given the guard equivalence and the parity of `xIsNext`. |
| ClassGame.ValidAfterClick | src/index.js:136-185 | The boards after a click form a producible history. |
| ClassGame.PushedEntryShape | src/index.js:146-167 | The pushed entry has a status string that classifies its board, tags that agree with its board, and a location naming the square marked. |
| ClassGame.NewEntryOk | src/index.js:146-180 | The entry pushed by an accepted click satisfies the entry invariant, including `playerTurn` being the mark of the turn's parity. |
| ClassGame.EntriesOfPush | src/index.js:171-180 | Cutting the history after entry `stepNumber` and appending an entry that satisfies the entry invariant leaves every entry satisfying it. |
| ClassGame.ClickPreservesInv | src/index.js:171-183 | `handleClick` preserves the invariant. In particular, toggling `xIsNext` keeps `xIsNext == (stepNumber % 2 == 0)`, and `currentGameStatus` is the current entry's status. |
| ClassGame.JumpRefines | src/index.js:191-199 | `jumpTo` preserves the invariant, because the parity reset restores the turn, and it is the abstract jump. |
| ClassGame.RunRefines | src/index.js:108-199 | Every reachable state of the class component keeps the invariant and is the abstract game after the same actions. |
| ClassGame.ReachableFacts | src/index.js:153-167 | In a reachable state, the mark played at step `k` is 'X' exactly when `k` is even. 'T' is recorded exactly on a full board without a winner, and only in entry 9. |
| Agreement.EncodeMatchesOutcome | src/index.js:153-167 | The string status of index.js names the same outcome as the CurrStatus of Game.js. |
| Agreement.EntriesAgree | src/index.js:136-185 | On reachable states with equal boards, entry `k` of both components has the same tags, the same location, and the same status up to encoding. |
| Agreement.BothComponentsAgree | src/index.js:136-199 | After any sequence of clicks and jumps, both components hold the same boards and step number. Entry by entry, their statuses, tags and locations agree, and the class component's `xIsNext` is the one stored in the hooks component's current entry. |

## Left out

- Rendering: the components under src/components, and `render`, `Board`, `Square`, `PreviousMoves`, `getMoveButton`, `getPrevMoves` and `getGameStatus` in src/index.js. These are JSX text, colours and CSS classes.
- Sort-order toggling: `handleSortMoves` and the `ascendingOrder` flag (src/index.js:280-286, src/components/GameInfo.js). The flag only changes display order and is not a field of `ClassGame.State`.
- React state machinery: `useState`/`setState` batching, functional updaters and DOM mounting. Each handler is one atomic transition, so the updater's `currentState.xIsNext` is the state's `xIsNext`.
- Out-of-range input: squares outside 0..8 and `jumpTo` steps outside the history are preconditions, because the view never produces them. In `Run` traces such actions are dropped.
- The index.js `calculateWinner` has its own literal `lines` table. `ClassGame.CalculateWinnerLoop` loops over `Lines`, which lists the same eight lines in the same order. `ClassGame.HandleClick` calls `GameUtils.CalculateWinner`, which that method is proved to equal.
- ClassGame.MarkText: states only the first character of the text, because both marks are one-character strings and that character tells them apart.
