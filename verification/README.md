# Hex game rules engine in Dafny

A model of the rules engine of a two-player Hex-style game played on a
rhombic board of hexagonal cells. The board is a `size` by `size` grid of
integer tags. Tag 0 is an empty cell. Tags 1 and 2 are cells owned by player 1
(green) and player 2 (blue). Tags 3 and 4 are the hover highlights shown for
the player to move. Player 2 wins by joining column 0 to column `size - 1`
through its own cells. Player 1 wins by joining row 0 to row `size - 1`.

The project has four modules, one per concern of the two source files:

- `Geometry` (`geometry.dfy`): integer points. It also holds the six
  neighbour offsets `MOVES` of the hex lattice, in the order the search tries
  them, the bounds test `inBounds` and the strict rectangle test `inRect`.
- `Search` (`search.dfy`): the connectivity search `DFS`. The method `Dfs`
  runs the loop of `DFS` over an explicit stack and a set of visited cells.
  `Step` is one turn of that loop and `FirstOpen` its inner loop over the six
  offsets. Ghost counters bound the number of pushes and loop turns.
  `Reachable` is the independent definition the result is proved against: a chain of lattice neighbours whose cells after the start are
  owned by the player. The grid is a value and is never modified.
- `Board` (`board.dfy`): the game state `Game(size, state, move)` and the
  operations of the game object that change it. These are `__init__`
  (`Init`), `reset`, `tick` (a pointer press: `Claim` applied by the
  row-major `Scan`), `highlight`, and the board-size buttons
  `upSize`/`dnSize`.
- `Win` (`win.dfy`): `checkWin`, specified by the ghost predicate `Wins`,
  and lemmas that relate the winner to the other operations.

The hexagon hit test `inHex` is floating-point geometry. It appears as a
parameter `hover: Point -> bool`, meaning "the pointer is over this cell".

## Model

| member | source | states |
|---|---|---|
| `Geometry.AdjacentSymmetric` | algs.py:62 | The six offsets come in opposite pairs and none is zero, so lattice adjacency is symmetric and never relates a cell to itself |
| `Geometry.InRectExcludesBorder` | algs.py:43-46 | `inRect` (`Geometry.InRect`) is strict: a point on any side of the rectangle is outside, and a rectangle without width or height contains nothing |
| `Search.InGridIsIndexable` | algs.py:48-50 | `inBounds(v, w, h)` (`Geometry.InBounds`) with `h` rows and `w` the width of row 0, as the search calls it, admits exactly rows `0..h-1` and columns `0..w-1`, each of them an existing grid entry |
| `Search.FirstOpen` | algs.py:69-75 | The inner loop yields the first offset, in `MOVES` order, whose cell is in bounds, unvisited and owned by the player, or none when no offset qualifies |
| `Search.Step` | algs.py:63-77 | One turn after a failed exit test marks the top visited. It then pushes exactly one cell, the first open neighbour (in bounds, unvisited, owned by the player, adjacent to the top), or pops when there is none. It keeps the stack a walk from the start and removes the pushed cell from the never-seen cells, so pushes are bounded and pops shrink the stack |
| `Search.Dfs` | algs.py:52-78 | Returns true iff some cell accepted by the exit test can be reached from the start through neighbour steps onto the player's cells. In particular it returns true whenever the start itself is accepted, whoever owns it. It pushes at most `h * w` cells and runs at most `2 * pushes + 1` loop turns |
| `Search.WalkStaysVisited` | algs.py:67-77 | Completeness: once every visited cell has no neighbour left to push, every walk from a visited start ends in a visited cell |
| `Search.CellCount` | algs.py:61 | The visited matrix covers `h * w` cells. `Search.Dfs` uses this count to bound its pushes |
| `Board.Init` | game.py:20-24 | A new game is a `size` by `size` board of empty cells with player 1 to move |
| `Board.Reset` | game.py:55-59 | A reset rebuilds an all-empty board at the current size with player 1 to move |
| `Board.ResetMatchesInit` | game.py:55-59 | A reset yields the same game as a fresh start at the same size, and resetting twice is resetting once |
| `Board.Claim` | game.py:76-81 | A cell tagged 1 or 2 is left alone and the turn does not pass. Any other cell becomes the mover's, the mover becomes `3 - move`, and no other cell changes |
| `Board.Scan` | game.py:73-81 | The row-major double loop from a given cell on changes only claimable cells under the pointer that it has yet to reach, turns each of them into a player's tag, and keeps the mover a player. Which player, and the final mover, are stated by `Board.ScanTag` and `Board.ScanTurns` |
| `Board.PendingZero` | game.py:76-77 | The count `Pending` of claimable cells under the pointer from a given cell on is zero iff no such cell lies ahead |
| `Board.PendingFrame` | game.py:73-77 | That count depends only on the tags of the cells ahead of the scan position |
| `Board.ScanTurns` | game.py:73-81 | The turn passes once per claim: after the scan, the mover is the one `Pending` alternations after the mover at the start |
| `Board.ScanTag` | game.py:73-81 | Claimable cells under the pointer are claimed by alternating players in row-major order: the cell preceded by `k` such cells from the scan position gets the mover at the start when `k` is even and the other player when `k` is odd |
| `Board.ScanIdle` | game.py:73-81 | A scan with no claimable cell under the pointer ahead leaves the game unchanged |
| `Board.Tick` | game.py:70-81 | A press never changes a cell tagged 1 or 2 or a cell away from the pointer. The claimable cells under the pointer go, in row-major order, to alternating players starting with the player to move, and the turn passes once per claim. `move` stays in {1,2}, and the press is a no-op when nothing under the pointer is claimable |
| `Board.TickSingleTarget` | game.py:76-81 | With the pointer over one cell, a press is exactly `Claim` of that cell: the cell becomes `move` and the turn passes, or nothing changes when a player owns it |
| `Board.ScanSingleTarget` | game.py:73-81 | With one cell under the pointer, the scan from any position claims that cell if the scan has yet to reach it, and otherwise leaves the game unchanged |
| `Board.Highlight` | game.py:83-92 | An empty cell under the pointer takes the tag `move + 2`, a tag above 2 away from the pointer is cleared to 0, tags 1 and 2 and every other cell stay as they were |
| `Board.HighlightIdempotent` | game.py:86-92 | Highlighting twice with the same pointer gives the same board as highlighting once |
| `Board.UpSize` | game.py:225-226 | The up button adds one to the size up to the maximum and sets a size at or above the maximum to the maximum. Board and mover are unchanged |
| `Board.DnSize` | game.py:228-229 | The down button takes one from the size down to the minimum and sets a size at or below the minimum to the minimum. Board and mover are unchanged |
| `Board.SizeButtonsKeepRange` | game.py:225-229 | Both buttons keep a size in `[minimum, maximum]`, and away from the bounds one press down undoes a press up and the reverse |
| `Win.CheckWin` | game.py:147-158 | Returns a value in {0,1,2}. It is 2 iff player 2 has a chain from an owned column-0 cell to column `size-1`; 1 iff player 2 has none and player 1 has a chain from an owned row-0 cell to row `size-1`; 0 iff neither has one |
| `Win.SearchEdge` | game.py:149-157 | Either loop of `checkWin` answers true iff some edge cell owned by the player reaches the opposite edge |
| `Win.SearchFrom` | game.py:150-151 | One loop turn searches only from an edge cell the player owns, and answers whether that cell reaches the opposite edge |
| `Win.ReachMonotone` | algs.py:71-72 | The search only looks at whether a cell equals the player, so a board on which the player owns at least the same cells reaches at least as far |
| `Win.WinsMonotone` | game.py:147-158 | A winning chain survives any change that keeps the player's cells |
| `Win.HighlightKeepsWinner` | game.py:89-92 | Hover tags 3 and 4 never count for either player, so after `highlight` each player has a winning chain exactly when it had one before |
| `Win.TickKeepsWinner` | game.py:76-80 | A press only claims cells no player owns, so it never takes a winning chain away |
| `Win.ResetHasNoWinner` | game.py:55-59 | Neither player has a winning chain on a new or reset board |
| `Win.FullRowWins` | game.py:149-152 | A row owned end to end by player 2 joins column 0 to the last column, so player 2 wins |
| `Win.FullColumnWins` | game.py:154-157 | A column owned end to end by player 1 joins row 0 to the last row, so player 1 wins |
| `Win.StaircaseWins` | game.py:149-157 | A staircase of neighbour steps from cell (0,0) to cell (size-1,size-1) touches all four edges, so it wins for whichever player owns it |

## Rules worth noting

- A press claims any cell under the pointer whose tag is not 1 or 2, so a
  cell showing hover tag 3 or 4 is claimed as well (game.py:76-77,
  `Board.Claim`).
- A staircase of neighbour steps from (0,0) to (size-1,size-1) joins
  column 0 to column size-1 and row 0 to row size-1, so it wins for
  whichever player owns it (`Win.StaircaseWins`).
- The game object accepts any size except 1. `__init__` (game.py:21) and
  `reset` (game.py:56) call `setTileSize`, which divides by `size - 1`
  (game.py:62), so a size-1 game raises a division-by-zero error. The size
  buttons keep the size within the configured bounds.

## Left out

- `inHex`, `triangleS`, `dist` and the near-integer snapping of `point`
  (algs.py:10-41) are floating-point geometry with `sqrt`, `hypot` and an
  epsilon. The hit test is the parameter `hover`.
- `coords`, `origin` and `showBounds_` compute the pixel layout in
  floating point with `int()` truncation. Only the hit test depends on
  them, and it is a parameter. `setTileSize` also computes pixel layout,
  but its division by `size - 1` is an error path, see the next line.
- Board.Init / Board.Reset: for size 1 the code raises a division-by-zero
  error in `setTileSize` (game.py:62) before building the board. The model
  has no tile size and returns a 1 by 1 empty game instead.
- `showGrid`, `shadow`, the screens (`startScreen`, `rulesScreen`,
  `settingsScreen`, `mainGameScreen`, `pauseScreen`, `GOScreen`),
  `loadData`, the `Button` class and the event loop of visual.py are
  rendering, file, audio and event I/O.
- The music and sound toggles of the settings screen only drive audio
  channels.
- consts.py is not part of this model. The bounds `MIN_BOARD_SIZE` and
  `MAX_BOARD_SIZE` are the parameters `minSize` and `maxSize` of the size
  buttons.
- Search.Dfs: requires a start cell inside the grid unless the exit test
  accepts it. The code would index its visited matrix with a negative
  coordinate, and Python wraps that index to the far end, which the model
  does not reproduce. It also requires at least one row and every row at
  least as wide as the first. The code fails on an empty grid or a short row.
