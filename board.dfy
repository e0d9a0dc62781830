/** The value-level view of a Minesweeper board: which cells exist, what
    number each cell shows, and the text the board is rendered as. The
    class in module Game keeps its arrays equal to these definitions. */
module Board {
  import opened Positions

  /** Every cell of a rows x columns board. */
  function Cells(rows: int, columns: int): set<Position> {
    set r, c | 0 <= r < rows && 0 <= c < columns :: Position(r, c)
  }

  /** The cell `p` lies on a board of the given size. */
  predicate OnBoard(rows: int, columns: int, p: Position) {
    0 <= p.row < rows && 0 <= p.column < columns
  }

  /** Every cell of `s` lies on the board. */
  ghost predicate Within(rows: int, columns: int, s: set<Position>) {
    forall p :: p in s ==> OnBoard(rows, columns, p)
  }

  /** A position is one of the board's cells exactly when it lies inside it. */
  lemma InsideIsCell(rows: int, columns: int, p: Position)
    ensures p in Cells(rows, columns) <==> OnBoard(rows, columns, p)
  {
    if OnBoard(rows, columns, p) {
      assert p == Position(p.row, p.column);
    }
  }

  /** The sets of on-board cells are the subsets of `Cells`. */
  lemma WithinCells(rows: int, columns: int, s: set<Position>)
    ensures Within(rows, columns, s) <==> s <= Cells(rows, columns)
  {
    forall p | p in s ensures p in Cells(rows, columns) <==> OnBoard(rows, columns, p) {
      InsideIsCell(rows, columns, p);
    }
  }

  /** A set of on-board cells has at most rows * columns elements. */
  lemma WithinCount(rows: nat, columns: nat, s: set<Position>)
    requires Within(rows, columns, s)
    ensures |s| <= rows * columns
  {
    WithinCells(rows, columns, s);
    CellsCount(rows, columns);
    SubsetCardinality(s, Cells(rows, columns));
  }

  /** The cells of one row of the board. */
  function RowCells(row: int, columns: int): set<Position> {
    set c | 0 <= c < columns :: Position(row, c)
  }

  /** `q` is one of the up to eight cells around `p` (not `p` itself). */
  predicate IsNeighbour(p: Position, q: Position) {
    p != q && -1 <= p.row - q.row <= 1 && -1 <= p.column - q.column <= 1
  }

  /** The eight cells around `p`, before clipping at the board edges. */
  function Ring(p: Position): set<Position> {
    var (r, c) := (p.row, p.column);
    {Position(r - 1, c - 1), Position(r - 1, c), Position(r - 1, c + 1),
     Position(r, c - 1), Position(r, c + 1),
     Position(r + 1, c - 1), Position(r + 1, c), Position(r + 1, c + 1)}
  }

  /** The mines among the neighbours of `p`. */
  function MinesAround(mines: set<Position>, p: Position): set<Position> {
    set q | q in mines && IsNeighbour(q, p)
  }

  /** The value a cell holds: -1 for a mine, otherwise the number of
      neighbouring mines. Mines lie on the board, so counting them is the
      same as counting within the edge-clipped neighbourhood. */
  function Number(mines: set<Position>, p: Position): int {
    if p in mines then -1 else |MinesAround(mines, p)|
  }

  lemma {:induction false} RingIsNeighbourhood(p: Position)
    ensures forall q :: q in Ring(p) <==> IsNeighbour(p, q)
    ensures |Ring(p)| == 8
  {
    forall q | IsNeighbour(p, q)
      ensures q in Ring(p)
    {
      var dr, dc := q.row - p.row, q.column - p.column;
      assert dr in {-1, 0, 1} && dc in {-1, 0, 1};
    }
  }

  /** Every cell value lies in -1..8, and it is -1 exactly on a mine. */
  lemma {:induction false} NumberRange(mines: set<Position>, p: Position)
    ensures -1 <= Number(mines, p) <= 8
    ensures Number(mines, p) == -1 <==> p in mines
  {
    RingIsNeighbourhood(p);
    var around := MinesAround(mines, p);
    forall q | q in around ensures q in Ring(p) {
      assert IsNeighbour(p, q);
    }
    assert around <= Ring(p);
    SubsetCardinality(around, Ring(p));
  }

  lemma SubsetCardinality(a: set<Position>, b: set<Position>)
    requires a <= b
    ensures |a| <= |b|
    ensures |a| == |b| ==> a == b
  {
    assert b == a + (b - a);
    assert |b| == |a| + |b - a|;
    if |a| == |b| {
      assert |b - a| == 0;
      assert b - a == {};
    }
  }

  /** A cell showing 0 has no mine around it. */
  lemma ZeroHasNoMineAround(mines: set<Position>, p: Position, q: Position)
    requires Number(mines, p) == 0 && IsNeighbour(p, q)
    ensures q !in mines
  {
    assert q in mines ==> q in MinesAround(mines, p);
  }

  /** Adding one more mine `m` raises the count of every neighbour of `m` by
      one and leaves every other count alone, in whatever order mines are
      added. */
  lemma {:induction false} MinesAroundAdd(mines: set<Position>, m: Position, p: Position)
    requires m !in mines
    ensures |MinesAround(mines + {m}, p)| == |MinesAround(mines, p)| + (if IsNeighbour(m, p) then 1 else 0)
  {
    if IsNeighbour(m, p) {
      assert MinesAround(mines + {m}, p) == MinesAround(mines, p) + {m};
    } else {
      assert MinesAround(mines + {m}, p) == MinesAround(mines, p);
    }
  }

  lemma {:induction false} RowCellsCount(row: int, columns: nat)
    ensures |RowCells(row, columns)| == columns
  {
    if columns > 0 {
      RowCellsCount(row, columns - 1);
      assert RowCells(row, columns) == RowCells(row, columns - 1) + {Position(row, columns - 1)};
    } else {
      assert RowCells(row, columns) == {};
    }
  }

  /** A position is in row `row` of the board exactly when it lies in it. */
  lemma InRowCells(row: int, columns: int, p: Position)
    ensures p in RowCells(row, columns) <==> p.row == row && 0 <= p.column < columns
  {
    if p.row == row && 0 <= p.column < columns {
      assert p == Position(row, p.column);
    }
  }

  /** A rows x columns board has rows * columns cells. */
  lemma {:induction false} CellsCount(rows: nat, columns: nat)
    ensures |Cells(rows, columns)| == rows * columns
  {
    if rows > 0 {
      var top, last := Cells(rows - 1, columns), RowCells(rows - 1, columns);
      CellsCount(rows - 1, columns);
      RowCellsCount(rows - 1, columns);
      forall p ensures p in Cells(rows, columns) <==> p in top || p in last {
        InsideIsCell(rows, columns, p);
        InsideIsCell(rows - 1, columns, p);
        InRowCells(rows - 1, columns, p);
      }
      assert Cells(rows, columns) == top + last;
      assert top !! last;
      assert rows * columns == (rows - 1) * columns + columns;
    } else {
      assert Cells(rows, columns) == {};
    }
  }

  /** The safe cells number rows * columns minus the mines. */
  lemma SafeCellsCount(rows: nat, columns: nat, mines: set<Position>)
    requires mines <= Cells(rows, columns)
    ensures |Cells(rows, columns) - mines| == rows * columns - |mines|
  {
    CellsCount(rows, columns);
    var all := Cells(rows, columns);
    assert all == (all - mines) + mines;
  }

  /** Counting shown safe cells decides the win: the count reaches the number
      of safe cells exactly when every safe cell is shown. */
  lemma WinByCount(rows: nat, columns: nat, mines: set<Position>, shown: set<Position>)
    requires mines <= Cells(rows, columns) && shown <= Cells(rows, columns)
    ensures |shown - mines| == rows * columns - |mines| <==> Cells(rows, columns) - mines <= shown
  {
    var safe := Cells(rows, columns) - mines;
    SafeCellsCount(rows, columns, mines);
    assert shown - mines <= safe;
    SubsetCardinality(shown - mines, safe);
    if safe <= shown {
      assert shown - mines == safe;
    }
  }

  // ---------------------------------------------------------------------
  // Rendering

  /** The decimal digit for 0..9. */
  function DigitChar(d: int): (ch: char)
    requires 0 <= d <= 9
    ensures '0' <= ch <= '9'
    ensures ch as int - '0' as int == d
  {
    ('0' as int + d) as char
  }

  /** The decimal text of a non-negative number, most significant digit
      first and without leading zeros. */
  function Digits(n: nat): (s: string)
  {
    if n < 10 then [DigitChar(n)] else Digits(n / 10) + [DigitChar(n % 10)]
  }

  /** The text `StringBuilder.append(int)` adds for `n`. */
  function Decimal(n: int): string {
    if n < 0 then "-" + Digits(-n) else Digits(n)
  }

  /** The one character a cell is drawn as: hidden cells as '-' when only
      revealed cells are to be shown, mines as '*', other cells as their
      number. */
  function SymbolChar(mines: set<Position>, shown: set<Position>, showOnlyRevealed: bool, p: Position): (ch: char)
    ensures ch == '-' <==> showOnlyRevealed && p !in shown
    ensures ch == '*' <==> (!showOnlyRevealed || p in shown) && p in mines
    ensures '0' <= ch <= '8' <==> (!showOnlyRevealed || p in shown) && p !in mines
  {
    NumberRange(mines, p);
    if showOnlyRevealed && p !in shown then '-'
    else if p in mines then '*'
    else DigitChar(Number(mines, p))
  }

  /** The text appended for one cell, as the rendering loop produces it. */
  function CellText(mines: set<Position>, shown: set<Position>, showOnlyRevealed: bool, p: Position): string {
    if !showOnlyRevealed || p in shown then
      (if Number(mines, p) == -1 then "*" else Decimal(Number(mines, p)))
    else "-"
  }

  /** The first `j` cells of row `i`, each followed by a comma unless it is
      the last cell of the row. */
  function RowText(mines: set<Position>, shown: set<Position>, showOnlyRevealed: bool,
                   columns: int, i: int, j: int): string
    decreases j
  {
    if j <= 0 then ""
    else RowText(mines, shown, showOnlyRevealed, columns, i, j - 1)
         + CellText(mines, shown, showOnlyRevealed, Position(i, j - 1))
         + (if j - 1 < columns - 1 then "," else "")
  }

  /** Row `i` as one bracketed line. */
  function Line(mines: set<Position>, shown: set<Position>, showOnlyRevealed: bool, columns: int, i: int): string {
    "[" + RowText(mines, shown, showOnlyRevealed, columns, i, columns) + "]\n"
  }

  /** The first `k` lines of the board. */
  function Text(mines: set<Position>, shown: set<Position>, showOnlyRevealed: bool, columns: int, k: int): string
    decreases k
  {
    if k <= 0 then ""
    else Text(mines, shown, showOnlyRevealed, columns, k - 1) + Line(mines, shown, showOnlyRevealed, columns, k - 1)
  }

  /** The whole board as text. */
  function Render(rows: int, columns: int, mines: set<Position>, shown: set<Position>, showOnlyRevealed: bool): string {
    Text(mines, shown, showOnlyRevealed, columns, rows)
  }

  /** One more cell of row `i`: the cell's text and, unless it is the last
      of the row, a comma. */
  lemma RowTextStep(mines: set<Position>, shown: set<Position>, showOnlyRevealed: bool,
                    columns: int, i: int, j: nat, prefix: string)
    ensures prefix + RowText(mines, shown, showOnlyRevealed, columns, i, j)
              + CellText(mines, shown, showOnlyRevealed, Position(i, j)) + (if j < columns - 1 then "," else "")
            == prefix + RowText(mines, shown, showOnlyRevealed, columns, i, j + 1)
  {
    var r := RowText(mines, shown, showOnlyRevealed, columns, i, j);
    var cell := CellText(mines, shown, showOnlyRevealed, Position(i, j));
    var sep := if j < columns - 1 then "," else "";
    assert prefix + r + cell + sep == prefix + (r + cell + sep);
  }

  /** One more line: the bracketed row and a line end. */
  lemma TextStep(mines: set<Position>, shown: set<Position>, showOnlyRevealed: bool, columns: int, i: nat)
    ensures Text(mines, shown, showOnlyRevealed, columns, i) + "[" + RowText(mines, shown, showOnlyRevealed, columns, i, columns) + "]\n"
            == Text(mines, shown, showOnlyRevealed, columns, i + 1)
  {
    var t := Text(mines, shown, showOnlyRevealed, columns, i);
    var r := RowText(mines, shown, showOnlyRevealed, columns, i, columns);
    assert t + "[" + r + "]\n" == t + ("[" + r + "]\n");
  }

  /** Every cell value prints as the single character SymbolChar. */
  lemma CellTextIsSymbol(mines: set<Position>, shown: set<Position>, showOnlyRevealed: bool, p: Position)
    ensures CellText(mines, shown, showOnlyRevealed, p) == [SymbolChar(mines, shown, showOnlyRevealed, p)]
  {
    NumberRange(mines, p);
  }

  /** The first `j` cells of a row take two characters each (symbol and
      comma), except that the last cell of the row has no comma. */
  lemma {:induction false} RowTextShape(mines: set<Position>, shown: set<Position>, showOnlyRevealed: bool,
                                        columns: int, i: int, j: int)
    requires 0 <= j <= columns
    ensures var t := RowText(mines, shown, showOnlyRevealed, columns, i, j);
      && |t| == (if j == columns && j > 0 then 2 * j - 1 else 2 * j)
      && (forall k :: 0 <= k < j ==> t[2 * k] == SymbolChar(mines, shown, showOnlyRevealed, Position(i, k)))
      && (forall k :: 0 <= k < j && k < columns - 1 ==> t[2 * k + 1] == ',')
  {
    if j > 0 {
      RowTextShape(mines, shown, showOnlyRevealed, columns, i, j - 1);
      CellTextIsSymbol(mines, shown, showOnlyRevealed, Position(i, j - 1));
    }
  }

  /** Each line is "[" + the row's symbols joined by "," + "]\n". */
  lemma LineShape(mines: set<Position>, shown: set<Position>, showOnlyRevealed: bool, columns: int, i: int)
    requires columns > 0
    ensures var l := Line(mines, shown, showOnlyRevealed, columns, i);
      && |l| == 2 * columns + 2
      && l[0] == '[' && l[2 * columns] == ']' && l[2 * columns + 1] == '\n'
      && (forall k :: 0 <= k < columns ==> l[2 * k + 1] == SymbolChar(mines, shown, showOnlyRevealed, Position(i, k)))
      && (forall k :: 0 <= k < columns - 1 ==> l[2 * k + 2] == ',')
  {
    RowTextShape(mines, shown, showOnlyRevealed, columns, i, columns);
  }

  /** The rendering is `k` lines of width `w`. */
  lemma {:induction false} TextLength(mines: set<Position>, shown: set<Position>, showOnlyRevealed: bool,
                                      columns: int, k: nat, w: nat)
    requires columns > 0 && w == 2 * columns + 2
    ensures |Text(mines, shown, showOnlyRevealed, columns, k)| == k * w
  {
    if k > 0 {
      TextLength(mines, shown, showOnlyRevealed, columns, k - 1, w);
      var l := Line(mines, shown, showOnlyRevealed, columns, k - 1);
      var t := Text(mines, shown, showOnlyRevealed, columns, k - 1);
      assert |l| == w by {
        RowTextShape(mines, shown, showOnlyRevealed, columns, k - 1, columns);
      }
      assert Text(mines, shown, showOnlyRevealed, columns, k) == t + l;
      assert k * w == (k - 1) * w + w;
    }
  }

  /** Line `i` follows the first `i` lines in every longer rendering, so
      it starts at offset `i * (2 * columns + 2)`. */
  lemma {:induction false} LineInText(mines: set<Position>, shown: set<Position>, showOnlyRevealed: bool,
                                      columns: int, i: nat, k: nat)
    requires i < k
    ensures Text(mines, shown, showOnlyRevealed, columns, i) + Line(mines, shown, showOnlyRevealed, columns, i)
            <= Text(mines, shown, showOnlyRevealed, columns, k)
    decreases k
  {
    if i < k - 1 {
      LineInText(mines, shown, showOnlyRevealed, columns, i, k - 1);
      var a := Text(mines, shown, showOnlyRevealed, columns, i) + Line(mines, shown, showOnlyRevealed, columns, i);
      var prev := Text(mines, shown, showOnlyRevealed, columns, k - 1);
      PrefixOfAppend(a, prev, Line(mines, shown, showOnlyRevealed, columns, k - 1));
    }
  }

  lemma PrefixOfAppend(a: string, b: string, c: string)
    requires a <= b
    ensures a <= b + c
  {
    assert (b + c)[..|a|] == b[..|a|];
  }

  /** Drawing shows nothing about hidden cells: two minefields that agree on
      the values of the shown cells draw identically. */
  lemma {:induction false} DrawHidesUnrevealed(rows: nat, columns: int, mines1: set<Position>,
                                               mines2: set<Position>, shown: set<Position>)
    requires forall p :: p in shown ==> Number(mines1, p) == Number(mines2, p)
    ensures Render(rows, columns, mines1, shown, true) == Render(rows, columns, mines2, shown, true)
  {
    if rows > 0 {
      DrawHidesUnrevealed(rows - 1, columns, mines1, mines2, shown);
      RowTextHidesUnrevealed(columns, rows - 1, columns, mines1, mines2, shown);
    }
  }

  lemma {:induction false} RowTextHidesUnrevealed(columns: int, i: int, j: int, mines1: set<Position>,
                                                  mines2: set<Position>, shown: set<Position>)
    requires forall p :: p in shown ==> Number(mines1, p) == Number(mines2, p)
    ensures RowText(mines1, shown, true, columns, i, j) == RowText(mines2, shown, true, columns, i, j)
    decreases j
  {
    if j > 0 {
      RowTextHidesUnrevealed(columns, i, j - 1, mines1, mines2, shown);
    }
  }

  /** Before anything is revealed, the drawn board is all '-' apart from the
      brackets, commas and line ends. */
  lemma {:induction false} InitialDrawIsBlank(rows: nat, columns: int, mines: set<Position>)
    requires columns > 0
    ensures forall k :: 0 <= k < |Render(rows, columns, mines, {}, true)| ==>
      Render(rows, columns, mines, {}, true)[k] in {'[', '-', ',', ']', '\n'}
  {
    if rows > 0 {
      InitialDrawIsBlank(rows - 1, columns, mines);
      var l := Line(mines, {}, true, columns, rows - 1);
      LineShape(mines, {}, true, columns, rows - 1);
      forall k | 0 <= k < |l| ensures l[k] in {'[', '-', ',', ']', '\n'} {
        if 0 < k < 2 * columns {
          var m := (k - 1) / 2;
          if k == 2 * m + 1 {
            assert l[2 * m + 1] == SymbolChar(mines, {}, true, Position(rows - 1, m));
          } else {
            assert l[2 * m + 2] == ',';
          }
        }
      }
      var prev := Render(rows - 1, columns, mines, {}, true);
      assert Render(rows, columns, mines, {}, true) == prev + l;
    }
  }
}
