# Tic-tac-toe game engine in Dafny

This project models the game-state engine behind the tic-tac-toe page
`src/app/page.tsx`. Two players, X and O, take turns marking the cells of a
3 x 3 board, and X always moves first. Each click on an empty cell places the
current player's mark. The new board is then checked against a fixed table of
eight winning lines. The game ends when a player completes a line, or in a
draw when the board is full with no line.

The model has three modules:

- `Rules` (`rules.dfy`): players, cells, the nine-cell board and the table of
  winning lines in the page's order. Win detection has two forms. `CheckWinner`
  is a loop over the table that returns at the first filled line, as the page
  runs it. `Winner` is the recursive scan the loop is proved against. The
  lemmas about them describe the answer without the scan, relate the table to
  the geometry of the grid, and count marks.
- `Game` (`game.dfy`): the game state as a value, the initial state, the
  status message the page derives, and the click handler as a function `Move`
  from one state to the next. `Play` applies a sequence of clicks. An invariant
  `Inv` holds in every state reachable from the initial one:
  - the stored winner and status agree with the board;
  - the players alternate;
  - only the winner holds a line.
- `Engine` (`engine.dfy`): the page's state as a class `GameEngine`. The board
  is a nine-cell array. The click handler `ApplyMove` copies the board into a
  new array, writes the mark and calls `CheckWinner`, then installs the new
  state. Its contract ties the new fields to `Move` and says the old array is
  not written. `PlayClicks` drives the engine with a sequence of clicks.

## Model

| member | source | states |
|---|---|---|
| Rules.CheckWinner | src/app/page.tsx:30-37 | the loop over the table returns exactly what the specification scan `Winner` gives for the board: the mark of the first filled line, or None |
| Rules.WinnerIsFirstFilledLine | src/app/page.tsx:31-34 | win detection answers p if and only if p holds some line of the table and every earlier line fails the test |
| Rules.WinnerFromFirstMatch | src/app/page.tsx:31-36 | the scan from line k answers p exactly when the first line from k on that passes the test is p's, and answers None exactly when no line from k on passes it |
| Rules.WinnerSound | src/app/page.tsx:32-33 | a player named by win detection holds three cells of some line of the table |
| Rules.WinnerNoneIffNoLine | src/app/page.tsx:31-36 | win detection answers None if and only if neither player holds a line |
| Rules.WinnerOfSingleHolder | src/app/page.tsx:6-15 | when only one player holds lines, win detection names that player, without relying on which line the scan meets first |
| Rules.EmptyBoardHasNoLine | src/app/page.tsx:28 | the initial board of nine empty cells holds no line, and win detection answers None on it |
| Rules.OnlyMoverCompletesLines | src/app/page.tsx:91-93 | marking one cell of a board without lines can only create lines of the player who marks it |
| Rules.LinesAreStraight | src/app/page.tsx:6-15 | every entry of the table is a row, a column or a diagonal of the 3 x 3 grid, and no entry is listed twice |
| Rules.StraightTriplesAreLines | src/app/page.tsx:6-15 | every row, column and diagonal of the grid is an entry of the table, so the table is complete |
| Rules.CountAfterMark | src/app/page.tsx:92 | marking an empty cell with p adds one p mark and leaves the count of the other mark unchanged |
| Rules.CountEmpty | src/app/page.tsx:28 | a board of empty cells holds no mark of either player |
| Game.Display | src/app/page.tsx:82-86 | the message reports a win if and only if there is a winner, a draw if and only if there is no winner and the board is full, and otherwise gives the current player's turn text |
| Game.DisplayMatchesStatus | src/app/page.tsx:82-86 | in a reachable state the kind of message equals the stored status, and a full board that holds a line is reported as won, not drawn |
| Game.InitialState | src/app/page.tsx:73-78 | the game starts with nine empty cells, X to move, no winner and status playing; this state satisfies the invariant and the page shows whose turn it is |
| Game.RejectedMoveIsNoOp | src/app/page.tsx:89 | a click after the game has ended, or on a marked cell, leaves the state unchanged |
| Game.AcceptedMoveMarksOneCell | src/app/page.tsx:91-92 | an accepted click puts the current player's mark on the clicked cell and changes no other cell |
| Game.AcceptedMoveOutcome | src/app/page.tsx:93 | with the completion of the update described in the first line of "Left out": after an accepted click the game is won if and only if a line is held, and the winner holds a line; it is drawn if and only if the board is full with no line; otherwise the turn passes to the other player |
| Game.WinnerIsMover | src/app/page.tsx:92-93 | from a state satisfying the invariant, a click that wins the game names the player who just moved as the winner |
| Game.MovePreservesInv | src/app/page.tsx:88-97 | a click from a state satisfying the invariant leads to a state satisfying it: stored winner and status agree with the board, the players alternate, and only the winner holds lines |
| Game.PlayPreservesInv | src/app/page.tsx:88-97 | any sequence of clicks keeps the invariant |
| Game.Reachable | src/app/page.tsx:73-97 | every state reached from the initial state by clicks satisfies the invariant |
| Game.GameOverIsFinal | src/app/page.tsx:89 | once the game is won or drawn, no sequence of clicks changes the state |
| Game.MarksAreNeverCleared | src/app/page.tsx:89-92 | a marked cell keeps its mark whatever is clicked later |
| Engine.GameEngine.constructor | src/app/page.tsx:73-78 | a new engine holds the initial state in a fresh array and satisfies the invariant |
| Engine.GameEngine.ApplyMove | src/app/page.tsx:88-97 | the click handler moves the fields to the state the move rule gives and keeps the invariant; an accepted click installs a fresh board array and leaves the previous array untouched, and a rejected click keeps the same array |
| Engine.CopyBoard | src/app/page.tsx:91 | the copy is a fresh array with the same cells as the board |
| Engine.PlayClicks | src/app/page.tsx:88-97 | an engine driven by a sequence of clicks ends in the state `Play` gives for those clicks from the initial state, and satisfies the invariant |

## Left out

- The state update after line 97 is not visible, because the file ends there. The model completes it this way. On a winner, the status becomes won and the player is kept. Otherwise, on a full board, the status becomes drawn and the player is kept. Otherwise the turn passes to the other player and the status stays playing.
- Resetting the game is not part of the visible source, so it is not modelled.
- The `Cell` component, the JSX markup, styling and accessibility labels (lines 39-70) are presentation and are not modelled.
- Engine.GameEngine.constructor: the engine allocates its own initial array, where the page installs the one module-level constant `INITIAL_BOARD` (line 28, installed at line 74) shared by every mount. Sharing is safe because the handler never writes the array it holds, which `ApplyMove` states as `old(board)[..] == old(board[..])`.
- React's `useState`, `useMemo` and `useCallback` are modelled as plain state. The page's re-rendering and memoization are left out.
- Clicks are assumed to be indexes 0 to 8, by the type `Index`; the call sites of the handler are not part of this model, and out-of-range indexes are not modelled.
- The page's `null` cell is the constructor `Empty`, and a JavaScript truthiness test on a cell is a test against `Empty`.
- Game.Display: the contract gives the exact text of the turn message only; the win and draw texts are fixed by the function's definition but not restated in its contract.
