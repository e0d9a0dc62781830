# Minesweeper board engine in Dafny

This project models the board engine of a console Minesweeper game and proves
properties of the model. The engine has two classes:

- `Minesweeper` is a rows x columns board. Its `int` array `fields` holds -1 on
  a bomb and otherwise the number of bombs around the cell. Its `boolean` array
  `revealed` marks the cells shown. It also keeps a counter `revealedCount` and
  a game state `RUNNING` / `WON` / `LOST`.
- `Position` is an immutable (row, column) pair.

The model has four modules:

- `Positions` (`position.dfy`) models `Position` as a datatype. It covers the
  getters, by-value `equals` over the Java objects it can be handed, and
  `hashCode` as `Objects.hash(row, column)` in 32-bit arithmetic.
- `Board` (`board.dfy`) holds the board on values:
  - the cells of a board and the neighbour relation;
  - `Number`, the value a cell holds: -1 on a mine, otherwise the count of
    neighbouring mines;
  - the counting facts behind the win test;
  - the text `buildBoardString` produces, as functions (`Render`, `Line`,
    `RowText`, `SymbolChar`), with lemmas about its shape.
- `Flood` (`flood.dfy`) states what a flood fill leaves behind (`Flooded`):
  - a revealed 0 cell has no hidden on-board neighbour;
  - no mine and no off-board cell is revealed;
  - every newly revealed cell is reached from the start through revealed 0
    cells.

  It also states the loop invariant of the breadth-first queue (`FloodState`)
  with one lemma per loop step.
- `Game` (`minesweeper.dfy`) is the class `Minesweeper`:
  - `array2` fields `fields` and `revealed`, mutable `revealedCount` and
    `state`;
  - the ghost bomb set `Mines` and the ghost set of revealed cells `Shown`;
  - methods that mirror the source's loops, each proved against the
    functions of `Board` and `Flood`.

  The class invariant `Valid` combines two parts:
  - `Sound`: the arrays represent `Mines` and `Shown`, and `revealedCount` is
    the number of revealed non-mine cells;
  - `Consistent`: the state machine agrees with the revealed cells. The game
    is lost exactly when one mine is shown and won only when every safe cell is
    shown, and no revealed 0 cell has a hidden neighbour.

  Every public operation keeps `Valid`.

Exceptions become values:
- `Create` returns `Failure(TooManyBombs)`.
- `Reveal` returns `Fail(GameFinished)`, `Fail(OutOfBoard)` or
  `Fail(CellAlreadyRevealed)` and changes nothing.

## Model

| member | source | states |
|---|---|---|
| Positions.ConstructorStoresArguments | src/Position.java:7-18 | the getters return exactly the row and column the position was built with |
| Positions.Position.Equals | src/Position.java:20-30 | `equals` is true iff the other object is a position with the same row and column; null and other classes give false |
| Positions.EqualsReflexive | src/Position.java:21-24 | a position equals itself |
| Positions.EqualsSymmetric | src/Position.java:28-29 | `p.equals(q)` and `q.equals(p)` agree |
| Positions.EqualsRejectsNonPositions | src/Position.java:25-27 | null and objects of another class are never equal to a position |
| Positions.Position.HashCode | src/Position.java:33-36 | the hash is a 32-bit int congruent to `31 * (31 + row) + column` modulo 2^32 |
| Positions.Wrap32 | src/Position.java:35 | Java int wrap-around: the result is in the int range, congruent to the input, and the input itself when it fits |
| Positions.HashConsistentWithEquals | src/Position.java:33-36 | equal positions have equal hash codes, so a hash set of positions counts distinct cells |
| Game.Create | src/Minesweeper.java:13-26 | fails with TooManyBombs exactly when `bombs > rows * columns`; otherwise a fresh valid running board with nothing revealed and count 0, whose bombs are the distinct cells of a prefix of the random draws |
| Game.Minesweeper.constructor | src/Minesweeper.java:17-26 | the fields take the arguments, state is Running, nothing is revealed, the count is 0, the invariant holds, and the bombs are the distinct cells of a prefix of the random draws |
| Game.Minesweeper.GenerateBombs | src/Minesweeper.java:28-40 | rejection sampling stops with `bombs` distinct positions: the distinct cells of the shortest prefix of the draws that has `bombs` of them |
| Game.Minesweeper.AddNumberAdj | src/Minesweeper.java:42-55 | whatever order the bomb set is visited in, every cell ends with -1 on a bomb and otherwise the number of bombs among its on-board neighbours |
| Board.MinesAroundAdd | src/Minesweeper.java:43-53 | adding one bomb raises the count of exactly its neighbours by one, whichever bombs were added before |
| Board.RingIsNeighbourhood | src/Minesweeper.java:45-47 | the 3x3 loop minus the centre visits exactly the eight neighbours |
| Board.NumberRange | src/Minesweeper.java:42-55 | every cell value lies in -1..8 and is -1 exactly on a bomb |
| Game.Minesweeper.Reveal | src/Minesweeper.java:57-82 | the three errors leave everything unchanged; a mine loses the game and shows only that cell, uncounted; a numbered cell shows only itself and is counted; a 0 cell floods; after a safe reveal the state is Won exactly when the count is rows*columns-bombs, that is when every safe cell is shown; the invariant is kept |
| Game.Minesweeper.RevealCell | src/Minesweeper.java:68-81 | on a hidden cell of a running game: a mine loses the game and shows only that cell, uncounted; a numbered cell shows only itself and is counted; a 0 cell floods; after a safe reveal the state is Won exactly when the count is rows*columns-bombs, that is when every safe cell is shown; the invariant is kept |
| Game.LoseKeepsConsistent | src/Minesweeper.java:68-71 | showing a mine in a running game gives a consistent lost game |
| Game.NumberRevealClosed | src/Minesweeper.java:74-77 | showing a cell that is not 0 keeps revealed 0 cells closed |
| Game.FloodClosed | src/Minesweeper.java:72-73 | after a flood fill, revealed 0 cells are still closed |
| Game.SafeRevealKeepsConsistent | src/Minesweeper.java:72-81 | revealing safe cells, closed under 0 cells, gives a consistent game that is won exactly when every safe cell is shown |
| Game.Minesweeper.ShowCell | src/Minesweeper.java:96 | setting one `revealed` flag adds exactly that cell to the shown set and changes nothing else |
| Game.Minesweeper.RevealAdj | src/Minesweeper.java:84-109 | the flood fill ends having revealed the start and no mine or off-board cell; no revealed 0 cell has a hidden neighbour; each new cell is connected to the start through new 0 cells; the count rises by the number of cells newly revealed |
| Game.Minesweeper.RevealNext | src/Minesweeper.java:89-107 | one queue step keeps the flood invariant. The new queue is the old queue without its head, followed by the cells pushed. An already revealed head is dropped and nothing else changes. Otherwise exactly the head is revealed and counted, and if it shows 0 every hidden safe on-board neighbour is pushed, and nothing else is. Either nothing is revealed and the queue shrinks, or one cell is revealed (the lexicographic termination measure) |
| Game.Minesweeper.QueueNeighbours | src/Minesweeper.java:99-107 | the cells pushed are on-board, safe, hidden neighbours of the 0 cell. Every on-board neighbour is either already shown or pushed |
| Board.ZeroHasNoMineAround | src/Minesweeper.java:99-103 | a neighbour of a 0 cell is never a mine |
| Board.WithinCount | src/Minesweeper.java:88-108 | at most rows*columns cells can be revealed, which bounds the flood loop |
| Flood.FloodInit | src/Minesweeper.java:85-86 | a queue holding only the hidden safe start cell satisfies the flood invariant |
| Flood.FloodSkip | src/Minesweeper.java:93-95 | dropping an already revealed queue head keeps the flood invariant |
| Flood.FloodReveal | src/Minesweeper.java:96-107 | revealing the queue head and queuing its hidden safe neighbours, when it is 0, keeps the flood invariant |
| Flood.FloodDone | src/Minesweeper.java:88-108 | with the queue empty, the invariant gives the flood fill's closure and connectivity |
| Flood.ExtendOrder | src/Minesweeper.java:96-104 | revealing a neighbour of an earlier revealed 0 cell keeps the reveal order connected |
| Flood.PathFromOrder | src/Minesweeper.java:88-107 | each cell of a reveal order has a path of revealed 0 cells from the first cell |
| Flood.OrderConnects | src/Minesweeper.java:88-107 | every cell of a reveal order is connected to the start |
| Flood.CountAddSafe | src/Minesweeper.java:75-76 | revealing a hidden safe cell raises the number of revealed safe cells by one |
| Flood.CountAddMine | src/Minesweeper.java:68-71 | revealing a mine leaves the number of revealed safe cells unchanged |
| Flood.CountAfterFlood | src/Minesweeper.java:96-97 | after a flood fill of safe cells the count rises by the number of newly revealed cells |
| Game.Minesweeper.HasWon | src/Minesweeper.java:111-113 | `revealedCount == rows*columns - bombs` holds exactly when every safe cell is revealed |
| Board.WinByCount | src/Minesweeper.java:111-113 | the number of revealed safe cells reaches rows*columns minus the mines exactly when every safe cell is revealed |
| Board.CellsCount | src/Minesweeper.java:112 | a rows x columns board has rows*columns cells |
| Board.SafeCellsCount | src/Minesweeper.java:112 | the safe cells number rows*columns minus the mines |
| Game.AllSafeShownByCells | src/Minesweeper.java:111-113 | "every on-board non-mine cell is shown" is the same as "all cells minus the mines are shown" |
| Game.Minesweeper.IsInsideBoard | src/Minesweeper.java:114-116 | true exactly for the cells of the board |
| Board.InsideIsCell | src/Minesweeper.java:114-116 | a position is one of the board's cells iff it is inside the board |
| Game.Minesweeper.BuildBoardString | src/Minesweeper.java:118-140 | the nested loops build exactly the rendering of the board |
| Board.SymbolChar | src/Minesweeper.java:123-131 | a cell prints '-' iff it is hidden in a revealed-only view, '*' iff it is a shown mine, and a digit 0..8 iff it is a shown safe cell |
| Board.CellTextIsSymbol | src/Minesweeper.java:123-131 | since every value is in -1..8, each cell appends exactly one character |
| Board.RowTextShape | src/Minesweeper.java:122-136 | a row's text alternates cell symbols and commas, with no comma after the last cell |
| Board.LineShape | src/Minesweeper.java:121-137 | each line is "[", the row's symbols joined by ",", then "]\n", 2*columns+2 characters long |
| Board.TextLength | src/Minesweeper.java:118-140 | the rendering of k rows has k*(2*columns+2) characters |
| Board.LineInText | src/Minesweeper.java:120-138 | line i appears right after the first i lines in every longer rendering |
| Game.Minesweeper.Draw | src/Minesweeper.java:146-148 | draws the board showing only revealed cells |
| Game.Minesweeper.ToString | src/Minesweeper.java:150-154 | draws the board showing every cell |
| Board.DrawHidesUnrevealed | src/Minesweeper.java:146-148 | the drawn board depends only on the values of revealed cells |
| Board.InitialDrawIsBlank | src/Minesweeper.java:146-148 | before anything is revealed the drawn board has only brackets, '-', commas and line ends |

## Left out

- `src/Main.java`, the console loop (reading input, printing and re-prompting on exceptions), is not part of this model. It is I/O only.
- `java.util.Random` becomes the parameter `draws`, a finite sequence of positions. `Placeable` requires that the draws are on the board and hold `bombs` distinct cells, so rejection sampling ends. The source's loop ends only with probability 1.
- `HashSet` and `ArrayDeque` become a Dafny `set<Position>` and a `seq<Position>` queue; their internals are not modelled.
- `Positions.Position.Equals`: the `this == o` reference shortcut is not modelled separately. Positions are values, and the shortcut only answers true for the same object, whose fields agree.
- Exception message texts are not modelled. Each `IllegalArgumentException` becomes one constructor of `Error`.
- `Create`: the constructor's throw is modelled by `Create`, because a Dafny constructor cannot fail. The Dafny constructor models the rest of the constructor.
- `Create` and the constructor require `rows > 0`, `columns > 0`, `bombs >= 0` and `rows * columns` within the int range. Java int overflow of `rows*columns` and array allocation failure are not modelled.
- `GetState` is a plain accessor with nothing to state, so it has no row above.
- `Game.Minesweeper.RevealAdj` requires a hidden, safe, on-board start cell. That is what its only caller, `reveal`, guarantees.
- The part of `reveal` after its three guards is factored into `RevealCell`.
- The body of `revealAdj`'s loop is factored into `RevealNext`, with its neighbour loops in `QueueNeighbours`. The marking of one cell is factored into `ShowCell`. The statements are the source's, in the source's order.
- `Mines` and `Shown` are ghost state. The source keeps no bomb set after construction; `fields` and `revealed` hold the same information.
