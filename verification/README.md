# Tic-tac-toe game logic in Dafny

A model of the game core of a browser tic-tac-toe game
(`script/tictactoe.js`): the nine-cell board, the win and draw rules, the
computer player (minimax with alpha-beta pruning and the choice of the best
move), and the controller that takes turns, answers a human move with the
computer's reply, lets the computer play both sides, and restarts.

The game's closures over mutable state become immutable values:

- `GameBoard` (`game_board.dfy`): a board is a sequence of nine cells, each
  `Empty` or `Mark(X)` / `Mark(O)`. Writing at a negative index changes no
  cell, as such an array write does in the game.
- `GameLogic` (`game_logic.dfy`): the table of eight winning lines, the draw
  test, and `State` (board, running flag, recorded winner). `MakeMove`
  places a mark and records a win, else a draw on a full board. `Sound`
  states that the recorded outcome agrees with the board.
- `AiPlayer` (`ai_player.dfy`): the legal moves, alpha-beta minimax, and
  `FindBestMove`. Scores are 10, -10 or 0 from the point of view of the
  player to move at the root.
- `MinimaxReference` (`minimax_reference.dfy`): plain minimax without
  pruning. It proves that the pruned search with the full window returns
  the same value, and so that the best move is the lowest empty cell of
  maximal game value.
- `GameController` (`game_controller.dfy`): `Game` holds the state, the
  two players (X first) and the index of the player to move. Click
  handling (`Move`), the computer turn, `AiVsAi`, `Init` and `Restart` are
  here.

`Move` is modelled as written. The computer's reply is not guarded by the
running flag. If a human move against the computer wins on the last empty
cell, the reply runs on a full board at index -1. That changes no cell, but
it records a draw over the human's win (`GameController.ReplyOverwritesWin`).
The position `GameController.LastCellWin` shows every condition of that
lemma can be met. Against the minimax opponent a human cannot win, so in
play this path is not reached. The model does not prove that last point,
because it needs the value of the whole game tree. When a human's winning
move leaves empty cells, the reply still puts a computer mark on a finished
board; if that mark completes a line for the computer, its win replaces the
human's. `GameController.MoveKeepsSound` therefore excludes every human move
against the computer that ends the game.

## Model

| member | source | states |
|---|---|---|
| GameBoard.SetCellEffect | script/tictactoe.js:111-122 | a write changes only its target, which gets the mark whatever it held; an empty target stops being empty and the empty count drops by one; a negative index changes nothing and is never empty |
| GameBoard.Init | script/tictactoe.js:124-128 | every cell is empty afterwards |
| GameBoard.InitIsIdempotent | script/tictactoe.js:124-128 | clearing gives the empty board whatever the start, clearing twice equals clearing once, and nine cells are then empty |
| GameBoard.FillCountsDown | script/tictactoe.js:76-79 | marking an empty cell leaves exactly one empty cell fewer, the measure on which every recursive search call descends |
| GameBoard.FullIffNoEmptyCell | script/tictactoe.js:171-173 | the empty-cell count is zero exactly when no cell is empty |
| GameLogic.WinStateIffLine | script/tictactoe.js:175-187 | the table test holds exactly when the symbol owns a full row, column or diagonal of the 3x3 grid |
| GameLogic.WinStateCells | script/tictactoe.js:175-187 | the table test holds exactly when one of the eight listed cell triples is all the symbol |
| GameLogic.NoWinOnEmptyBoard | script/tictactoe.js:175-187 | nobody has won on the empty board |
| GameLogic.OneMarkWinsNothing | script/tictactoe.js:175-187 | a board with at most one mark is no win for anyone |
| GameLogic.MarkKeepsOtherLines | script/tictactoe.js:175-187 | writing one symbol never completes a line for the other |
| GameLogic.DrawIffFull | script/tictactoe.js:171-173 | the draw test holds exactly when no cell is empty |
| GameLogic.DrawTestIgnoresWinner | script/tictactoe.js:171-173 | a full board that X has won still passes the draw test |
| GameLogic.MakeMove | script/tictactoe.js:141-155 | only the target cell changes and gets the mark; a line for the mover ends the game as its win; otherwise a full board ends it as a draw; otherwise running flag and winner are kept; a running game has an empty cell |
| GameLogic.MakeMoveKeepsSound | script/tictactoe.js:141-155 | a move in a running game whose outcome agrees with the board leaves them in agreement |
| GameLogic.Reset | script/tictactoe.js:165-169 | running, no winner, every cell empty, and the outcome agrees with the board |
| AiPlayer.Opponent | script/tictactoe.js:46-51 | the opponent symbol differs from the player's |
| AiPlayer.EmptyFrom | script/tictactoe.js:32-40 | from a start cell on: exactly the empty cells, ascending, as many as are empty |
| AiPlayer.PossibleMoves | script/tictactoe.js:32-40 | a cell is listed exactly when it is empty; the list ascends; its length is the empty count; it is empty exactly when the draw test holds |
| AiPlayer.Minimax | script/tictactoe.js:65-105 | the search ends on every board and returns 10, -10 or 0 |
| AiPlayer.MaxLoop | script/tictactoe.js:74-87 | the maximizing loop ends and returns a score once one child has been searched |
| AiPlayer.MinLoop | script/tictactoe.js:88-102 | the minimizing loop ends and returns a score once one child has been searched |
| AiPlayer.BestLoop | script/tictactoe.js:53-62 | the root loop returns -1 on no moves, else the lowest move whose score is maximal among all moves |
| AiPlayer.FindBestMove | script/tictactoe.js:42-63 | -1 exactly on a full board; otherwise an empty cell whose score is maximal over all empty cells and strictly above every lower empty cell |
| AiPlayer.BestMoveOfLastCell | script/tictactoe.js:42-63 | with one empty cell left, that cell is the best move |
| AiPlayer.RandomAiMove | script/tictactoe.js:24-30 | the random move is an empty cell |
| MinimaxReference.Value | script/tictactoe.js:65-105 | plain minimax without pruning ends on every board and returns 10, -10 or 0 |
| MinimaxReference.MinimaxFailSoft | script/tictactoe.js:65-105 | for every window inside the sentinels, the pruned result equals the plain value when strictly inside the window, and bounds it from the correct side otherwise |
| MinimaxReference.MaxLoopFailSoft | script/tictactoe.js:74-87 | the maximizing loop, from any step where its invariant holds, bounds or equals the maximum of the plain values of the remaining children |
| MinimaxReference.MinLoopFailSoft | script/tictactoe.js:88-102 | the minimizing loop, likewise for the minimum |
| MinimaxReference.MinimaxIsPlainMinimax | script/tictactoe.js:56 | called with the full window, as the root does, the pruned search returns the plain minimax value |
| MinimaxReference.FindBestMoveMaximisesValue | script/tictactoe.js:42-63 | on a board that is not full, a cell is the best move exactly when it is the lowest empty cell of maximal plain minimax value |
| GameController.InitialIsValid | script/tictactoe.js:192-194 | the opening game (human X, computer O, X to move) is well formed and its outcome agrees with the board |
| GameController.ToggleCurrentPlayer | script/tictactoe.js:196-198 | the turn passes to the other player and stays 0 or 1; nothing else changes |
| GameController.SetPlayers | script/tictactoe.js:225-227 | X and O get the given player types; board, outcome and turn are kept |
| GameController.AiMove | script/tictactoe.js:200-204 | on a board that is not full the computer's mark lands on the cell the search chose; every other cell is unchanged; players and turn are kept, the game stays well formed, and no existing mark changes |
| GameController.AiMoveCounts | script/tictactoe.js:200-204 | with an empty cell left the computer fills exactly one; on a full board it changes no cell and the game is over |
| GameController.AiMoveKeepsSound | script/tictactoe.js:200-204 | a computer move in a running game keeps the outcome in agreement with the board |
| GameController.Move | script/tictactoe.js:229-252 | a marked cell or a finished game makes the click a no-op; no existing mark changes; against the computer the turn comes back to the human; a computer to move facing a human ignores the click |
| GameController.HumanMoveEffect | script/tictactoe.js:243-251 | the clicked cell gets the human's mark; one or two cells are filled; between two humans exactly one is and the turn passes |
| GameController.MoveKeepsSound | script/tictactoe.js:229-252 | the outcome stays in agreement with the board unless a human move against the computer ends the game |
| GameController.ReplyOverwritesWin | script/tictactoe.js:248-251 | a human's winning move on the last cell against the computer ends recorded as a draw, with the winning line still on the board |
| GameController.LastCellWinMeetsConditions | script/tictactoe.js:229-234 | a sound, well-formed running position exists that meets every condition of the previous row (whether play from the start reaches it is not shown) |
| GameController.AiTurn | script/tictactoe.js:208-209 | one computer turn in a running game fills exactly one cell, keeps existing marks and agreement, and passes the turn |
| GameController.AiVsAi | script/tictactoe.js:206-211 | the computer-only loop ends with the game over after at most as many rounds as there were empty cells (at most nine), keeps existing marks and agreement, and does nothing to a finished game |
| GameController.Init | script/tictactoe.js:213-223 | a human to move leaves the game as it is; a computer facing a human makes one turn; two computers finish the game; agreement is kept |
| GameController.OpeningAiTurn | script/tictactoe.js:216-218 | the computer's opening move on an empty board keeps the game running with eight empty cells and O to move |
| GameController.OpeningAiTurnPlaysX | script/tictactoe.js:216-218 | that opening move puts down no O |
| GameController.Restart | script/tictactoe.js:254-258 | the outcome agrees with the board; a human X gets the start position with X to move; a computer X facing a human has made one X move, O to move; two computers finish the game |

## Left out

- `displayController` (drawing, status messages, buttons) and the final
  `gameController.init()` call: they are browser I/O.
- `console.log` messages in `makeMove`: output only.
- `Player`'s closure accessors: a `Player` datatype with its two fields
  stands for them.
- `getBoard`, `getWinner` and `isGameRunning`: these are the fields of
  `State`.
- `-Infinity` and `+Infinity` in the search are stood for by -100 and 100.
  Every score lies in -10..10, so all comparisons come out the same.
- Player types are `Human` or `Ai`. The game compares type strings, and any
  other string would count as neither.
- `_randomInt` and `Math.random`: `AiPlayer.RandomAiMove` is a choice of some
  empty cell. It needs an empty cell to exist, because the game's loop never
  ends without one. The game never calls it.
- AiPlayer.FindBestMove: nothing is proved about which cell it picks on a
  concrete board with several empty cells (for example, that it takes an
  immediate win or blocks one). That needs the value of a game tree of up to
  nine plies.
- The commented-out guarded version of the reply in `move` is not modelled.
- GameController.Move: the state before the click must be well formed (two
  players, X first, a turn index of 0 or 1, and an empty cell left while
  the game runs). Every operation keeps that true; `MakeMove` alone
  ensures the last clause.
- GameBoard.SetCell: a write at index 9 or above, which would append to the
  game's array and give later loops a tenth cell, is modelled as changing
  nothing. No caller makes one: a click passes only an empty cell, and the
  computer passes an empty cell or -1.
