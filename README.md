# Tic-tac-toe game state and minimax engine in Dafny

This project models the core of a console tic-tac-toe game in which a human
plays 'X' and the computer plays 'O' with an exhaustive minimax search. The
core is the `TicTacToe` class: a nine-cell board in row-major order (cells
`' '`, `'X'`, `'O'`), the player whose turn it is, and the append-only list of
`"P:idx"` move tokens. The search scores positions +1 for an 'O' win, -1 for
an 'X' win and 0 for a draw. It explores every continuation on the game's own
board, placing a mark, recursing and erasing the mark again.

The model has four modules:

- `Wrappers` (Wrappers.dfy) holds `Option`, which stands for Python's `None`.
- `Board` (Board.dfy) holds the board rules as functions on the board's
  contents: the eight winning combinations, `Wins`, `IsFull`, the ascending
  list of empty cells `EmptyCells`, and the move token format.
- `Minimax` (Minimax.dfy) defines the specification of the search. `Score`
  is the minimax value. `Fold` is the running maximum or minimum over the
  moves, taken left to right. `BestMove` is the strict-`>` scan that picks
  the engine's move. The lemmas prove what these compute. The engine
  blocks a cell on which 'X' would complete a line only when the position
  is not already lost for 'O' (`BlocksThreat`). In a lost position every
  move has value -1, so the strict `>` keeps the lowest empty cell
  (`LostPlaysLowest`), and `DoesNotBlockLostThreat` gives a board on which
  the engine therefore leaves the threat open.
- `Game` (Game.dfy) holds the class `TicTacToe`. Its board is an
  `array<char>` updated in place. Its loop methods are proved against the
  functions above. Its invariant `Valid` records that the mark counts are
  those of a game 'X' opened and that the log matches the board. The order
  of the log entries comes from `MakeMove`'s postcondition, which appends
  the mover's entry and passes the turn, not from `Valid`.

How the model is written:

- `float('-inf')` and `float('inf')` become the integers `MinusInf` (-2) and
  `PlusInf` (2), which lie outside the possible scores.
- The three-line pattern "place a mark, call minimax, erase the mark" occurs
  three times in the source. It is one method here, `TryMove`.
- `minimax` is the method `Search`, named so that it is not confused with
  the module `Minimax`.
- `minimax` takes a `board` argument that is always the object's own board.
  The model uses that one array. The `depth` argument is never read, so it
  is dropped.
- `make_move` prints a message on failure. The model returns a
  `MoveResult` instead: `Placed`, `Occupied` or `OutOfRange`.
- `is_board_full` tests `' ' in cell`. Every cell is a one-character string,
  so this is modelled as `cell == ' '`.

The model follows the code in these points:

- `make_move` itself records the move in the log and passes the turn to the
  other player. These are not left to the caller.
- `get_best_move` has no precondition beyond the class invariant `Valid`.
  In particular the game need not be ongoing: it returns `None` on a full
  board, and it does not check first whether someone has already won.
- The move log holds strings of the form `X:4`, not (player, index) pairs.

## Model

| member | source | states |
|---|---|---|
| `Game.TicTacToe.constructor` | TicTacToe.py:2-8 | a new game has nine `' '` cells, 'X' to move, an empty move list, and satisfies the game invariant |
| `Game.TicTacToe.MakeMove` | TicTacToe.py:19-38 | on an empty cell in 0..8 it sets exactly that cell to the current player, appends `player:move` and toggles the player; on an occupied cell or an index of 9 or more, board, log and player are unchanged; the invariant (alphabet, X/O balance, as many log entries as marks, each naming a cell that holds its mark, no two naming the same cell) is preserved |
| `Board.Other` | TicTacToe.py:34 | the toggled player is a mark and differs from the current one |
| `Board.Token` | TicTacToe.py:32 | the logged token `P:idx` reads back as exactly the mark and index that produced it |
| `Game.TicTacToe.IsWinner` | TicTacToe.py:47-70 | the early-exit scan over the combinations returns true iff some combination is held entirely by the player; the board is not modified |
| `Board.WinsIffGeometry` | TicTacToe.py:57-61 | winning by the eight listed combinations is the same as holding a full row (index / 3), a full column (index % 3) or one of the two diagonals |
| `Game.TicTacToe.IsBoardFull` | TicTacToe.py:72-82 | returns true iff no cell is `' '` |
| `Game.TicTacToe.GetPossibleMoves` | TicTacToe.py:84-95 | returns the list of empty indices built by the ascending scan |
| `Board.EmptyCellsSpec` | TicTacToe.py:91-95 | the list of possible moves contains only empty indices on the board and every empty index, is strictly ascending, and is empty iff the board is full |
| `Minimax.Score` | TicTacToe.py:127-155 | the minimax value, with terminal tests in the order 'X' won (-1), 'O' won (+1), full board (0), always lies in {-1, 0, 1} |
| `Minimax.Fold` | TicTacToe.py:137-155 | the running max/min over a non-empty list of moves, started from the -inf/+inf sentinel, lies in {-1, 0, 1} |
| `Minimax.FoldIsExtreme` | TicTacToe.py:137-155 | the running max (min) bounds every child value from above (below) and equals one of them unless it is still the starting value |
| `Minimax.ScoreIsBestChild` | TicTacToe.py:137-155 | in a position that is not over, the value with 'O' to move is the maximum over all empty cells of the value after 'O' plays there, and with 'X' to move the minimum after 'X' plays there |
| `Game.TicTacToe.Search` | TicTacToe.py:115-155 | the search returns the minimax value of the board it was called on and leaves every cell exactly as it found it |
| `Game.TicTacToe.TryMove` | TicTacToe.py:141-143 | placing the side's mark on an empty cell, recursing and erasing the mark yields the child's value and restores the board |
| `Game.TicTacToe.GetBestMove` | TicTacToe.py:97-113 | returns the move chosen by the strict `>` scan over the empty cells of the board it was called on (`BestMove`), which when present is an empty cell in 0..8; the board and the game invariant are unchanged |
| `Minimax.BestFromSpec` | TicTacToe.py:104-113 | the strict `>` scan returns the first move of greatest value when some move beats the starting score, and otherwise keeps the initial choice |
| `Minimax.BestMoveSpec` | TicTacToe.py:104-113 | the engine's move is `None` iff no cell is empty; otherwise it is an empty cell whose value is maximal, and every empty cell with a lower index has a strictly smaller value |
| `Minimax.BestMoveAttainsScore` | TicTacToe.py:104-113 | in a position that is not over, the value of the chosen move equals the minimax value of the position with 'O' to move |
| `Minimax.ThreatLoses` | TicTacToe.py:127-155 | with 'X' to move in an open position and an empty cell on which 'X' completes a line, the minimax value is -1 |
| `Minimax.IgnoringThreatLoses` | TicTacToe.py:127-155 | if 'O' plays anywhere but on a cell where 'X' would complete a line, and that move does not win, the value of the move is -1 |
| `Minimax.ForkLoses` | TicTacToe.py:127-155 | with 'O' to move, no line 'O' can complete at once and two distinct cells on which 'X' would complete one, the minimax value is -1 |
| `Minimax.BlocksThreat` | TicTacToe.py:97-113 | in an open position where 'O' cannot complete a line at once, 'X' would complete one on cell `t`, and the minimax value for 'O' is not -1, the engine plays `t` |
| `Minimax.LostPlaysLowest` | TicTacToe.py:104-113 | in an open position of value -1 for 'O', the engine plays the lowest empty cell |
| `Minimax.DoesNotBlockLostThreat` | TicTacToe.py:97-113 | with 'X' on 0 and 4, 'O' on 1 and the rest empty, 'X' threatens cell 8 but the engine plays cell 2, since every move loses |
| `Minimax.CompletesTopRow` | TicTacToe.py:104-113 | with 'O' on cells 0 and 1, 'X' on cells 3 and 4 and the rest empty, the engine plays cell 2 |

## Left out

- `display_board` and the error messages printed by `make_move` are console
  output. A failed move is reported as a `MoveResult` with the state
  unchanged.
- `save_moves_to_file` writes the log to a file. The model keeps only the
  token format (`Token` and `ParseToken`), not the file or the
  space-separated join.
- `play_game` and the `__main__` block are left out. They are the
  interactive loop: input, integer parsing, `ValueError` handling and the
  end-of-game messages.
- Python's negative indexing is not modelled. `board[-1]` wraps around
  instead of raising `IndexError`, and `MakeMove` takes a `nat`, so only
  indices of 0 and above are modelled.
- The `depth` argument of `minimax` is incremented but never read, so it is
  left out.
- The model does not prove which move the engine plays after 'X' opens on
  cell 0, nor that self-play from the empty board ends in a draw. Both need
  the value of the whole game tree.
