/** The board engine: a rows x columns minefield whose cells are revealed
    one `Reveal` at a time, with flood fill from cells that show 0 and a
    Running / Won / Lost state machine. */
module Game {
  import opened Positions
  import opened Board
  import opened Flood

  datatype GameState = Running | Won | Lost

  /** The source's `IllegalArgumentException`s, one per message. */
  datatype Error = TooManyBombs | GameFinished | OutOfBoard | CellAlreadyRevealed

  datatype Outcome = Pass | Fail(error: Error)

  datatype Result<T> = Success(value: T) | Failure(error: Error)

  /** The distinct positions among the first `n` random draws. */
  function Drawn(draws: seq<Position>, n: int): set<Position>
    requires 0 <= n <= |draws|
  {
    set k | 0 <= k < n :: draws[k]
  }

  /** The constructor's guard: too many bombs is refused before anything is
      built; otherwise the board is built from the random draws. */
  method Create(rows: int, columns: int, bombs: int, draws: seq<Position>) returns (result: Result<Minesweeper>)
    requires rows > 0 && columns > 0 && bombs >= 0 && rows * columns <= MaxInt
    requires bombs <= rows * columns ==> Minesweeper.Placeable(rows, columns, bombs, draws)
    ensures result.Failure? <==> bombs > rows * columns
    ensures result.Failure? ==> result.error == TooManyBombs
    ensures result.Success? ==> var game := result.value;
      && fresh(game) && fresh(game.fields) && fresh(game.revealed) && game.Valid()
      && game.rows == rows && game.columns == columns && game.bombs == bombs
      && game.state == Running && game.revealedCount == 0 && game.Shown == {}
      && exists n :: 0 <= n <= |draws| && game.Mines == Drawn(draws, n)
  {
    if bombs > rows * columns {
      return Failure(TooManyBombs);
    }
    var game := new Minesweeper(rows, columns, bombs, draws);
    result := Success(game);
  }

  /** Every safe cell of the board is shown. */
  ghost predicate AllSafeShown(rows: int, columns: int, mines: set<Position>, shown: set<Position>) {
    forall p :: OnBoard(rows, columns, p) && p !in mines ==> p in shown
  }

  /** The game invariant on values: shown 0 cells have their neighbours
      shown, the game is lost exactly when a (single) mine is shown, won only
      when every safe cell is shown, and still running with every safe cell
      shown only on a board of mines where nothing was revealed. */
  ghost predicate Consistent(rows: int, columns: int, mines: set<Position>, shown: set<Position>, state: GameState) {
    && ZeroClosed(rows, columns, mines, shown)
    && (state == Lost <==> shown * mines != {})
    && |shown * mines| <= 1
    && (state == Won ==> AllSafeShown(rows, columns, mines, shown))
    && (state == Running && AllSafeShown(rows, columns, mines, shown) ==> shown == {})
  }

  /** "Every safe cell is shown", stated with the set of all cells. */
  lemma AllSafeShownByCells(rows: int, columns: int, mines: set<Position>, shown: set<Position>)
    ensures AllSafeShown(rows, columns, mines, shown) <==> Cells(rows, columns) - mines <= shown
  {
    forall p ensures p in Cells(rows, columns) <==> OnBoard(rows, columns, p) {
      InsideIsCell(rows, columns, p);
    }
  }

  /** Stepping on a mine of a running game loses it. */
  lemma {:induction false} LoseKeepsConsistent(rows: int, columns: int, mines: set<Position>,
                                               shown: set<Position>, p: Position)
    requires Consistent(rows, columns, mines, shown, Running)
    requires p in mines && p !in shown
    ensures Consistent(rows, columns, mines, shown + {p}, Lost)
  {
    assert shown * mines == {};
    assert (shown + {p}) * mines == {p};
    NumberRange(mines, p);
  }

  /** Revealing safe cells of a running game, closed under 0 cells, leaves
      it won when every safe cell is shown and running otherwise. */
  lemma {:induction false} SafeRevealKeepsConsistent(rows: int, columns: int, mines: set<Position>,
                                                     shown: set<Position>, shown': set<Position>)
    requires Consistent(rows, columns, mines, shown, Running)
    requires shown <= shown' && (shown' - shown) !! mines
    requires ZeroClosed(rows, columns, mines, shown')
    ensures Consistent(rows, columns, mines, shown',
                       if AllSafeShown(rows, columns, mines, shown') then Won else Running)
  {
    assert shown * mines == {};
    assert shown' * mines == {};
  }

  /** Revealing a cell that does not show 0 keeps shown 0 cells closed. */
  lemma NumberRevealClosed(rows: int, columns: int, mines: set<Position>, shown: set<Position>, p: Position)
    requires ZeroClosed(rows, columns, mines, shown) && Number(mines, p) != 0
    ensures ZeroClosed(rows, columns, mines, shown + {p})
  {
  }

  /** A flood fill keeps shown 0 cells closed. */
  lemma FloodClosed(rows: int, columns: int, mines: set<Position>, before: set<Position>,
                    after: set<Position>, start: Position)
    requires ZeroClosed(rows, columns, mines, before) && Flooded(rows, columns, mines, before, after, start)
    ensures ZeroClosed(rows, columns, mines, after)
  {
  }

  class Minesweeper {
    const fields: array2<int>
    const revealed: array2<bool>
    var revealedCount: int
    const rows: int
    const columns: int
    const bombs: int
    var state: GameState

    /** The bomb set the board was built from (not kept by the source). */
    ghost const Mines: set<Position>
    /** The cells whose `revealed` flag is set. */
    ghost var Shown: set<Position>

    /** The random draws hold `bombs` distinct positions, all on the board. */
    static predicate Placeable(rows: int, columns: int, bombs: int, draws: seq<Position>) {
      && (forall k :: 0 <= k < |draws| ==> OnBoard(rows, columns, draws[k]))
      && |Drawn(draws, |draws|)| >= bombs
    }

    /** The arrays have the board's shape and `Mines` is a set of `bombs`
        cells of the board. */
    ghost predicate Shape() {
      && rows > 0 && columns > 0
      && fields.Length0 == rows && fields.Length1 == columns
      && revealed.Length0 == rows && revealed.Length1 == columns
      && Within(rows, columns, Mines) && |Mines| == bombs
    }

    /** `fields` holds the adjacency numbers of `Mines`. */
    ghost predicate Numbers()
      reads fields
    {
      Shape() && forall r, c {:trigger fields[r, c]} :: 0 <= r < rows && 0 <= c < columns ==> fields[r, c] == Number(Mines, Position(r, c))
    }

    /** `revealed` is the indicator of `Shown`. */
    ghost predicate Marks()
      reads this, revealed
    {
      && Shape() && Within(rows, columns, Shown)
      && forall r, c {:trigger revealed[r, c]} :: 0 <= r < rows && 0 <= c < columns ==> (revealed[r, c] <==> Position(r, c) in Shown)
    }

    /** The board's representation: adjacency numbers in `fields`, the
        indicator of `Shown` in `revealed`, and `revealedCount` counting the
        shown cells that are not mines. */
    ghost predicate Sound()
      reads this, fields, revealed
    {
      Numbers() && Marks() && revealedCount == |Shown - Mines|
    }

    /** The class invariant: a sound representation of a consistent game. */
    ghost predicate Valid()
      reads this, fields, revealed
    {
      Sound() && Consistent(rows, columns, Mines, Shown, state)
    }

    constructor (rows: int, columns: int, bombs: int, draws: seq<Position>)
      requires rows > 0 && columns > 0 && 0 <= bombs <= rows * columns && rows * columns <= MaxInt
      requires Placeable(rows, columns, bombs, draws)
      ensures Valid()
      ensures fresh(fields) && fresh(revealed)
      ensures this.rows == rows && this.columns == columns && this.bombs == bombs
      ensures state == Running && revealedCount == 0 && Shown == {}
      ensures exists n :: 0 <= n <= |draws| && Mines == Drawn(draws, n)
    {
      this.rows := rows;
      this.columns := columns;
      this.bombs := bombs;
      state := Running;
      fields := new int[rows, columns]((r, c) => 0);
      revealed := new bool[rows, columns]((r, c) => false);
      revealedCount := 0;
      var setOfBombs := GenerateBombs(bombs, draws);
      Mines := setOfBombs;
      Shown := {};
      new;
      AddNumberAdj(setOfBombs);
      assert Shown * Mines == {};
    }

    /** Rejection sampling over the random draws: keep drawing until `bombs`
        distinct positions are collected. The result is the set of distinct
        positions among the shortest prefix of the draws that has `bombs` of
        them. */
    static method GenerateBombs(bombs: int, draws: seq<Position>) returns (setOfBombs: set<Position>)
      requires |Drawn(draws, |draws|)| >= bombs
      ensures |setOfBombs| == if bombs > 0 then bombs else 0
      ensures exists n :: 0 <= n <= |draws| && setOfBombs == Drawn(draws, n)
                          && forall m :: 0 <= m < n ==> |Drawn(draws, m)| < bombs
    {
      setOfBombs := {};
      var placed := 0;
      var next := 0;
      while placed < bombs
        invariant 0 <= next <= |draws|
        invariant setOfBombs == Drawn(draws, next)
        invariant placed == |setOfBombs| <= (if bombs > 0 then bombs else 0)
        invariant forall m :: 0 <= m < next ==> |Drawn(draws, m)| < bombs
        decreases |draws| - next
      {
        var p := draws[next];
        assert Drawn(draws, next + 1) == Drawn(draws, next) + {p};
        next := next + 1;
        if p !in setOfBombs {
          setOfBombs := setOfBombs + {p};
          placed := placed + 1;
        }
      }
    }

    /** Writes -1 at each bomb and counts it into every on-board cell of its
        3x3 neighbourhood that is not (yet) a bomb. Whatever order the set is
        visited in, every cell ends up holding its adjacency number. */
    method AddNumberAdj(setOfBombs: set<Position>)
      requires fields.Length0 == rows && fields.Length1 == columns
      requires Within(rows, columns, setOfBombs)
      requires forall r, c {:trigger fields[r, c]} :: 0 <= r < rows && 0 <= c < columns ==> fields[r, c] == 0
      modifies fields
      ensures forall r, c {:trigger fields[r, c]} :: 0 <= r < rows && 0 <= c < columns ==> fields[r, c] == Number(setOfBombs, Position(r, c))
    {
      var remaining := setOfBombs;
      ghost var done: set<Position> := {};
      while remaining != {}
        invariant remaining <= setOfBombs && done == setOfBombs - remaining
        invariant forall r, c {:trigger fields[r, c]} :: 0 <= r < rows && 0 <= c < columns ==> fields[r, c] == Number(done, Position(r, c))
        decreases remaining
      {
        var p :| p in remaining;
        fields[p.GetRow(), p.GetColumn()] := -1;
        var row := p.GetRow() - 1;
        while row <= p.GetRow() + 1
          invariant p.row - 1 <= row <= p.row + 2
          invariant forall r, c {:trigger fields[r, c]} :: 0 <= r < rows && 0 <= c < columns ==>
            fields[r, c] == Counted(done, p, Position(r, c), r < row)
        {
          var column := p.GetColumn() - 1;
          while column <= p.GetColumn() + 1
            invariant p.column - 1 <= column <= p.column + 2
            invariant forall r, c {:trigger fields[r, c]} :: 0 <= r < rows && 0 <= c < columns ==>
              fields[r, c] == Counted(done, p, Position(r, c), r < row || (r == row && c < column))
          {
            if column >= 0 && column < columns && row >= 0 && row < rows {
              if fields[row, column] != -1 {
                fields[row, column] := fields[row, column] + 1;
              }
            }
            column := column + 1;
          }
          row := row + 1;
        }
        forall x | x !in done + {p} {
          MinesAroundAdd(done, p, x);
        }
        remaining := remaining - {p};
        done := done + {p};
      }
      assert done == setOfBombs;
    }

    /** The value of cell `x` while bomb `p` is being added to `done`: bombs
        hold -1, other cells count the bombs of `done` around them, plus one
        for `p` once the neighbourhood loop has passed them. */
    static ghost function Counted(done: set<Position>, p: Position, x: Position, passed: bool): int {
      if x in done + {p} then -1
      else |MinesAround(done, x)| + (if passed && IsNeighbour(p, x) then 1 else 0)
    }

    method Reveal(row: int, column: int) returns (outcome: Outcome)
      requires Valid()
      modifies this, revealed
      ensures Valid()
      ensures old(state) != Running ==>
        outcome == Fail(GameFinished) && unchanged(this) && unchanged(revealed)
      ensures old(state) == Running && !OnBoard(rows, columns, Position(row, column)) ==>
        outcome == Fail(OutOfBoard) && unchanged(this) && unchanged(revealed)
      ensures old(state) == Running && OnBoard(rows, columns, Position(row, column)) && Position(row, column) in old(Shown) ==>
        outcome == Fail(CellAlreadyRevealed) && unchanged(this) && unchanged(revealed)
      ensures old(state) == Running && OnBoard(rows, columns, Position(row, column)) && Position(row, column) !in old(Shown) ==>
        outcome == Pass
      // a mine: the game is lost and only that cell is revealed, uncounted
      ensures outcome == Pass && Position(row, column) in Mines ==>
        && state == Lost && Shown == old(Shown) + {Position(row, column)}
        && revealedCount == old(revealedCount)
      // a numbered cell: only that cell is revealed
      ensures outcome == Pass && Number(Mines, Position(row, column)) > 0 ==>
        && Shown == old(Shown) + {Position(row, column)}
        && revealedCount == old(revealedCount) + 1
      // a 0 cell: flood fill
      ensures outcome == Pass && Number(Mines, Position(row, column)) == 0 ==>
        && Flooded(rows, columns, Mines, old(Shown), Shown, Position(row, column))
        && revealedCount == old(revealedCount) + |Shown - old(Shown)|
      // after a safe reveal the game is won exactly when the count says so,
      // that is when every safe cell is shown
      ensures outcome == Pass && Position(row, column) !in Mines ==>
        && state == (if revealedCount == rows * columns - bombs then Won else Running)
        && (state == Won <==> AllSafeShown(rows, columns, Mines, Shown))
    {
      if state != Running {
        return Fail(GameFinished);
      }
      if !IsInsideBoard(row, column) {
        return Fail(OutOfBoard);
      }
      if revealed[row, column] {
        return Fail(CellAlreadyRevealed);
      }
      RevealCell(row, column);
      outcome := Pass;
    }

    /** The part of `Reveal` after its guards: a hidden cell of a running
        game is revealed, and after a safe reveal the win is checked. */
    method RevealCell(row: int, column: int)
      requires Valid() && state == Running
      requires OnBoard(rows, columns, Position(row, column)) && Position(row, column) !in Shown
      modifies this, revealed
      ensures Valid()
      ensures Position(row, column) in Mines ==>
        && state == Lost && Shown == old(Shown) + {Position(row, column)}
        && revealedCount == old(revealedCount)
      ensures Number(Mines, Position(row, column)) > 0 ==>
        && Shown == old(Shown) + {Position(row, column)}
        && revealedCount == old(revealedCount) + 1
      ensures Number(Mines, Position(row, column)) == 0 ==>
        && Flooded(rows, columns, Mines, old(Shown), Shown, Position(row, column))
        && revealedCount == old(revealedCount) + |Shown - old(Shown)|
      ensures Position(row, column) !in Mines ==>
        && state == (if revealedCount == rows * columns - bombs then Won else Running)
        && (state == Won <==> AllSafeShown(rows, columns, Mines, Shown))
    {
      var p := Position(row, column);
      NumberRange(Mines, p);
      ghost var shown := Shown;
      if fields[row, column] == -1 {
        state := Lost;
        ShowCell(p);
        CountAddMine(Mines, shown, p);
        LoseKeepsConsistent(rows, columns, Mines, shown, p);
        return;
      } else if fields[row, column] == 0 {
        RevealAdj(row, column);
        FloodClosed(rows, columns, Mines, shown, Shown, p);
      } else {
        ShowCell(p);
        CountAddSafe(Mines, shown, p);
        revealedCount := revealedCount + 1;
        NumberRevealClosed(rows, columns, Mines, shown, p);
      }
      SafeRevealKeepsConsistent(rows, columns, Mines, shown, Shown);
      if HasWon() {
        state := Won;
      }
    }

    /** Marks the board cell `p` as revealed and nothing else. */
    method ShowCell(p: Position)
      requires Marks() && OnBoard(rows, columns, p)
      modifies this, revealed
      ensures Marks() && Shown == old(Shown) + {p}
      ensures revealedCount == old(revealedCount) && state == old(state)
    {
      revealed[p.row, p.column] := true;
      Shown := Shown + {p};
    }

    /** Breadth-first flood fill from a hidden safe cell, with an explicit
        queue: cells are taken from the front of the queue one at a time
        (see `RevealNext`) until it is empty. */
    method RevealAdj(startRow: int, startCol: int)
      requires Sound()
      requires OnBoard(rows, columns, Position(startRow, startCol))
      requires Position(startRow, startCol) !in Shown && Position(startRow, startCol) !in Mines
      modifies this, revealed
      ensures Sound() && state == old(state)
      ensures Flooded(rows, columns, Mines, old(Shown), Shown, Position(startRow, startCol))
      ensures revealedCount == old(revealedCount) + |Shown - old(Shown)|
    {
      var start := Position(startRow, startCol);
      var queue: seq<Position> := [start];
      ghost var order: seq<Position> := [];
      ghost var before := Shown;
      ghost var area := rows * columns;
      FloodInit(rows, columns, Mines, before, start);
      WithinCount(rows, columns, Shown);
      while queue != []
        invariant Sound() && state == old(state)
        invariant FloodState(rows, columns, Mines, before, Shown, order, queue, start)
        invariant |Shown| <= area
        decreases area - |Shown|, |queue|
      {
        ghost var pushed;
        queue, order, pushed := RevealNext(queue, order, before, start, area);
      }
      FloodDone(rows, columns, Mines, before, Shown, order, start);
      CountAfterFlood(Mines, before, Shown);
    }

    /** One turn of the flood fill's queue loop. The front cell is taken
        off the queue and skipped when it is off the board, already revealed
        or a mine; otherwise it is revealed and counted, and if it shows 0
        its hidden safe neighbours are queued. Either nothing is revealed
        and the queue shrinks, or exactly the front cell is revealed. */
    method RevealNext(queue: seq<Position>, ghost order: seq<Position>, ghost before: set<Position>,
                      ghost start: Position, ghost area: int)
      returns (queue': seq<Position>, ghost order': seq<Position>, ghost pushed: seq<Position>)
      requires Sound() && queue != [] && area == rows * columns
      requires FloodState(rows, columns, Mines, before, Shown, order, queue, start)
      modifies this, revealed
      ensures Sound() && state == old(state)
      ensures FloodState(rows, columns, Mines, before, Shown, order', queue', start)
      ensures |Shown| <= area
      ensures (Shown == old(Shown) && |queue'| < |queue|) || (|Shown| == |old(Shown)| + 1)
      ensures queue' == queue[1..] + pushed
      // an already revealed head is dropped and nothing else happens
      ensures queue[0] in old(Shown) ==>
        Shown == old(Shown) && revealedCount == old(revealedCount) && pushed == []
      // otherwise the head is revealed and counted, and the hidden safe
      // neighbours of a 0 head are queued behind the rest of the queue
      ensures queue[0] !in old(Shown) ==>
        && Shown == old(Shown) + {queue[0]} && revealedCount == old(revealedCount) + 1
        && Pushed(rows, columns, Mines, queue[0], Shown, pushed)
        && forall k :: 0 <= k < |pushed| ==> pushed[k] !in Shown
    {
      var pos := queue[0];
      queue' := queue[1..];
      pushed := [];
      var r, c := pos.GetRow(), pos.GetColumn();
      if !IsInsideBoard(r, c) || revealed[r, c] || fields[r, c] == -1 {
        FloodSkip(rows, columns, Mines, before, Shown, order, queue, start);
        order' := order;
        WithinCount(rows, columns, Shown);
        assert queue' == queue[1..] + pushed;
        return;
      }
      ghost var shown := Shown;
      ShowCell(pos);
      CountAddSafe(Mines, shown, pos);
      revealedCount := revealedCount + 1;
      WithinCount(rows, columns, Shown);
      order' := order + [pos];
      if fields[r, c] == 0 {
        var more := QueueNeighbours(pos);
        queue' := queue' + more;
        pushed := more;
      } else {
        assert queue' == queue' + pushed;
      }
      FloodReveal(rows, columns, Mines, before, shown, order, queue, start, pushed, Shown, order', queue');
    }

    /** The neighbour loops of the flood fill: every on-board neighbour of
        the 0 cell `pos` that is hidden and not a mine, in row-major order. */
    method QueueNeighbours(pos: Position) returns (pushed: seq<Position>)
      requires Sound() && pos in Shown && Number(Mines, pos) == 0
      ensures SafeCells(rows, columns, Mines, pushed)
      ensures forall k :: 0 <= k < |pushed| ==> IsNeighbour(pos, pushed[k]) && pushed[k] !in Shown
      ensures forall q :: IsNeighbour(pos, q) && OnBoard(rows, columns, q) ==> q in Shown || q in pushed
    {
      var r, c := pos.GetRow(), pos.GetColumn();
      pushed := [];
      var i := r - 1;
      while i <= r + 1
        invariant r - 1 <= i <= r + 2
        invariant SafeCells(rows, columns, Mines, pushed)
        invariant forall k :: 0 <= k < |pushed| ==> IsNeighbour(pos, pushed[k]) && pushed[k] !in Shown
        invariant forall q {:trigger IsNeighbour(pos, q)} :: IsNeighbour(pos, q) && OnBoard(rows, columns, q) && q.row < i ==> q in Shown || q in pushed
      {
        var j := c - 1;
        while j <= c + 1
          invariant c - 1 <= j <= c + 2
          invariant SafeCells(rows, columns, Mines, pushed)
          invariant forall k :: 0 <= k < |pushed| ==> IsNeighbour(pos, pushed[k]) && pushed[k] !in Shown
          invariant forall q {:trigger IsNeighbour(pos, q)} :: IsNeighbour(pos, q) && OnBoard(rows, columns, q) && (q.row < i || (q.row == i && q.column < j))
                      ==> q in Shown || q in pushed
        {
          if IsNeighbour(pos, Position(i, j)) {
            ZeroHasNoMineAround(Mines, pos, Position(i, j));
          }
          if IsInsideBoard(i, j) && !revealed[i, j] && fields[i, j] != -1 {
            pushed := pushed + [Position(i, j)];
          }
          j := j + 1;
        }
        i := i + 1;
      }
    }

    function HasWon(): (won: bool)
      reads this, fields, revealed
      requires Sound()
      ensures won <==> AllSafeShown(rows, columns, Mines, Shown)
    {
      WithinCells(rows, columns, Mines);
      WithinCells(rows, columns, Shown);
      WinByCount(rows, columns, Mines, Shown);
      AllSafeShownByCells(rows, columns, Mines, Shown);
      revealedCount == (rows * columns) - bombs
    }

    function IsInsideBoard(row: int, column: int): (inside: bool)
      ensures inside <==> OnBoard(rows, columns, Position(row, column))
    {
      row >= 0 && row < rows && column >= 0 && column < columns
    }

    /** The board as text, row by row; with `showOnlyRevealed`, hidden cells
        print as '-'. */
    method BuildBoardString(showOnlyRevealed: bool) returns (s: string)
      requires Numbers() && Marks()
      ensures s == Render(rows, columns, Mines, Shown, showOnlyRevealed)
    {
      var result := "";
      var i := 0;
      while i < rows
        invariant 0 <= i <= rows
        invariant result == Text(Mines, Shown, showOnlyRevealed, columns, i)
      {
        ghost var done := result;
        result := result + "[";
        var j := 0;
        while j < columns
          invariant 0 <= j <= columns
          invariant result == done + "[" + RowText(Mines, Shown, showOnlyRevealed, columns, i, j)
        {
          ghost var cell := CellText(Mines, Shown, showOnlyRevealed, Position(i, j));
          ghost var before := result;
          if !showOnlyRevealed || revealed[i, j] {
            if fields[i, j] == -1 {
              result := result + "*";
            } else {
              result := result + Decimal(fields[i, j]);
            }
          } else {
            result := result + "-";
          }
          assert result == before + cell;
          if j < columns - 1 {
            result := result + ",";
          }
          RowTextStep(Mines, Shown, showOnlyRevealed, columns, i, j, done + "[");
          j := j + 1;
        }
        result := result + "]\n";
        TextStep(Mines, Shown, showOnlyRevealed, columns, i);
        i := i + 1;
      }
      s := result;
    }

    function GetState(): GameState
      reads this
    {
      state
    }

    /** The player's view: only revealed cells are shown. */
    method Draw() returns (s: string)
      requires Valid()
      ensures s == Render(rows, columns, Mines, Shown, true)
    {
      s := BuildBoardString(true);
    }

    /** The full board, hidden cells included. */
    method ToString() returns (s: string)
      requires Valid()
      ensures s == Render(rows, columns, Mines, Shown, false)
    {
      s := BuildBoardString(false);
    }
  }
}
