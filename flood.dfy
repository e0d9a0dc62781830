/** What a flood fill leaves behind: the cells it reveals are closed under
    "a revealed 0 cell has all its neighbours revealed", and each of them is
    reached from the start through revealed 0 cells. */
module Flood {
  import opened Positions
  import opened Board

  /** Every shown cell that shows 0 has all its on-board neighbours shown. */
  ghost predicate ZeroClosed(rows: int, columns: int, mines: set<Position>, shown: set<Position>) {
    forall p, q {:trigger IsNeighbour(p, q)} :: p in shown && IsNeighbour(p, q) && OnBoard(rows, columns, q) && Number(mines, p) == 0
      ==> q in shown
  }

  /** `path` walks from `from` to `to` over neighbouring cells of `region`,
      and every cell on it except the last shows 0. */
  ghost predicate ZeroPath(mines: set<Position>, region: set<Position>, path: seq<Position>,
                           from: Position, to: Position) {
    && |path| > 0 && path[0] == from && path[|path| - 1] == to
    && (forall i :: 0 <= i < |path| ==> path[i] in region)
    && (forall i :: 0 <= i < |path| - 1 ==> Number(mines, path[i]) == 0 && IsNeighbour(path[i], path[i + 1]))
  }

  ghost predicate Connected(mines: set<Position>, region: set<Position>, from: Position, to: Position) {
    exists path :: ZeroPath(mines, region, path, from, to)
  }

  /** The cells listed in `order`. */
  function Elems(order: seq<Position>): set<Position> {
    set x | x in order
  }

  /** `q` is a neighbour of some 0 cell of `order`. */
  ghost predicate NextToZero(mines: set<Position>, order: seq<Position>, q: Position) {
    exists j :: 0 <= j < |order| && Number(mines, order[j]) == 0 && IsNeighbour(order[j], q)
  }

  /** Each cell of `order` after the first sits next to an earlier 0 cell:
      the order in which a flood fill from `order[0]` reveals cells. */
  ghost predicate RevealedInOrder(mines: set<Position>, order: seq<Position>) {
    forall k {:trigger NextToZero(mines, order[..k], order[k])} :: 0 < k < |order| ==> NextToZero(mines, order[..k], order[k])
  }

  /** The outcome of a flood fill from `start` that turned `before` into
      `after`: it revealed `start`, revealed no mine and no cell off the board,
      left no revealed 0 cell with a hidden neighbour, and every cell it
      revealed is connected to `start` through 0 cells it revealed. */
  ghost predicate Flooded(rows: int, columns: int, mines: set<Position>,
                          before: set<Position>, after: set<Position>, start: Position) {
    && before <= after
    && start in after - before
    && Within(rows, columns, after)
    && (after - before) !! mines
    && (forall p, q {:trigger IsNeighbour(p, q)} :: p in after - before && IsNeighbour(p, q) && OnBoard(rows, columns, q) && Number(mines, p) == 0
          ==> q in after)
    && (forall x :: x in after - before ==> Connected(mines, after - before, start, x))
  }

  /** A path through the reveal order from its first cell to its `k`-th. */
  lemma {:induction false} PathFromOrder(mines: set<Position>, order: seq<Position>, k: nat)
    returns (path: seq<Position>)
    requires RevealedInOrder(mines, order) && k < |order|
    ensures ZeroPath(mines, Elems(order), path, order[0], order[k])
    decreases k
  {
    if k == 0 {
      path := [order[0]];
    } else {
      assert NextToZero(mines, order[..k], order[k]);
      var j :| 0 <= j < k && Number(mines, order[..k][j]) == 0 && IsNeighbour(order[..k][j], order[k]);
      var prefix := PathFromOrder(mines, order, j);
      path := prefix + [order[k]];
    }
  }

  /** Every cell of a reveal order is connected to its first cell. */
  lemma OrderConnects(mines: set<Position>, order: seq<Position>)
    requires RevealedInOrder(mines, order) && |order| > 0
    ensures forall x :: x in order ==> Connected(mines, Elems(order), order[0], x)
  {
    forall x | x in order
      ensures Connected(mines, Elems(order), order[0], x)
    {
      var k :| 0 <= k < |order| && order[k] == x;
      var path := PathFromOrder(mines, order, k);
    }
  }

  /** Growing the order by a neighbour of one of its 0 cells keeps it a
      reveal order. */
  lemma ExtendOrder(mines: set<Position>, order: seq<Position>, q: Position)
    requires RevealedInOrder(mines, order) && NextToZero(mines, order, q)
    ensures RevealedInOrder(mines, order + [q])
  {
    var o := order + [q];
    assert o[..|order|] == order;
    forall k | 0 < k < |o| ensures NextToZero(mines, o[..k], o[k]) {
      if k < |order| {
        assert o[..k] == order[..k];
      }
    }
  }

  // ---------------------------------------------------------------------
  // The loop invariant of the breadth-first flood fill, on values.

  /** Every cell of `cells` is on the board and not a mine. */
  ghost predicate SafeCells(rows: int, columns: int, mines: set<Position>, cells: seq<Position>) {
    forall k :: 0 <= k < |cells| ==> OnBoard(rows, columns, cells[k]) && cells[k] !in mines
  }

  /** The flood fill from `start` has so far turned `before` into `shown`,
      revealing the cells of `order` in that order, and `queue` holds the
      cells still to be looked at: all on the board and safe, each next to a
      0 cell already revealed (or `start` itself, before anything is
      revealed); every hidden neighbour of a 0 cell revealed so far is queued. */
  ghost predicate FloodState(rows: int, columns: int, mines: set<Position>, before: set<Position>,
                             shown: set<Position>, order: seq<Position>, queue: seq<Position>, start: Position) {
    && before <= shown
    && Elems(order) == shown - before
    && Elems(order) !! mines
    && (order == [] ==> queue == [start] && start !in shown)
    && (order != [] ==> order[0] == start)
    && RevealedInOrder(mines, order)
    && SafeCells(rows, columns, mines, queue)
    && (order != [] ==> forall k :: 0 <= k < |queue| ==> NextToZero(mines, order, queue[k]))
    && (forall p, q {:trigger IsNeighbour(p, q)} :: p in shown - before && IsNeighbour(p, q) && OnBoard(rows, columns, q) && Number(mines, p) == 0
          ==> q in shown || q in queue)
  }

  /** The cells queued after revealing `pos`: safe on-board neighbours of
      `pos`, queued only when `pos` shows 0, and then covering every
      neighbour that is not yet shown. */
  ghost predicate Pushed(rows: int, columns: int, mines: set<Position>, pos: Position,
                         shown: set<Position>, pushed: seq<Position>) {
    && SafeCells(rows, columns, mines, pushed)
    && (forall k :: 0 <= k < |pushed| ==> IsNeighbour(pos, pushed[k]))
    && (pushed != [] ==> Number(mines, pos) == 0)
    && (Number(mines, pos) == 0 ==>
          forall q :: IsNeighbour(pos, q) && OnBoard(rows, columns, q) ==> q in shown || q in pushed)
  }

  lemma FloodInit(rows: int, columns: int, mines: set<Position>, before: set<Position>, start: Position)
    requires OnBoard(rows, columns, start) && start !in mines && start !in before
    ensures FloodState(rows, columns, mines, before, before, [], [start], start)
  {
    assert Elems([]) == {};
  }

  /** Popping a cell that is already shown changes nothing else. */
  lemma FloodSkip(rows: int, columns: int, mines: set<Position>, before: set<Position>,
                  shown: set<Position>, order: seq<Position>, queue: seq<Position>, start: Position)
    requires FloodState(rows, columns, mines, before, shown, order, queue, start)
    requires queue != [] && queue[0] in shown
    ensures FloodState(rows, columns, mines, before, shown, order, queue[1..], start)
  {
    forall p, q | p in shown - before && IsNeighbour(p, q) && OnBoard(rows, columns, q) && Number(mines, p) == 0
      ensures q in shown || q in queue[1..]
    {
      if q !in shown {
        InTail(queue, q);
      }
    }
  }

  /** Popping a hidden cell reveals it and queues its neighbours. */
  lemma FloodReveal(rows: int, columns: int, mines: set<Position>, before: set<Position>,
                    shown: set<Position>, order: seq<Position>, queue: seq<Position>,
                    start: Position, pushed: seq<Position>,
                    shown': set<Position>, order': seq<Position>, queue': seq<Position>)
    requires FloodState(rows, columns, mines, before, shown, order, queue, start)
    requires queue != [] && queue[0] !in shown
    requires Pushed(rows, columns, mines, queue[0], shown + {queue[0]}, pushed)
    requires shown' == shown + {queue[0]} && order' == order + [queue[0]] && queue' == queue[1..] + pushed
    ensures FloodState(rows, columns, mines, before, shown', order', queue', start)
  {
    var pos := queue[0];
    assert Elems(order + [pos]) == Elems(order) + {pos};
    if order == [] {
      assert RevealedInOrder(mines, [pos]);
    } else {
      ExtendOrder(mines, order, pos);
    }
    SafeCellsAppend(rows, columns, mines, queue[1..], pushed);
    RevealKeepsQueueNextToZero(mines, order, queue, pushed, pos);
    RevealKeepsClosure(rows, columns, mines, before, shown, queue, pushed);
  }

  lemma SafeCellsAppend(rows: int, columns: int, mines: set<Position>, a: seq<Position>, b: seq<Position>)
    requires SafeCells(rows, columns, mines, a) && SafeCells(rows, columns, mines, b)
    ensures SafeCells(rows, columns, mines, a + b)
  {
    forall k | 0 <= k < |a + b|
      ensures OnBoard(rows, columns, (a + b)[k]) && (a + b)[k] !in mines
    {
      if k >= |a| {
        assert (a + b)[k] == b[k - |a|];
      }
    }
  }

  lemma RevealKeepsQueueNextToZero(mines: set<Position>, order: seq<Position>,
                                   queue: seq<Position>, pushed: seq<Position>, pos: Position)
    requires queue != []
    requires order != [] ==> forall k :: 0 <= k < |queue| ==> NextToZero(mines, order, queue[k])
    requires order == [] ==> |queue| == 1
    requires pushed != [] ==> Number(mines, pos) == 0
    requires forall k :: 0 <= k < |pushed| ==> IsNeighbour(pos, pushed[k])
    ensures forall k :: 0 <= k < |queue[1..] + pushed| ==> NextToZero(mines, order + [pos], (queue[1..] + pushed)[k])
  {
    var order', queue' := order + [pos], queue[1..] + pushed;
    forall k | 0 <= k < |queue'| ensures NextToZero(mines, order', queue'[k]) {
      if k < |queue| - 1 {
        assert queue'[k] == queue[k + 1];
        var j :| 0 <= j < |order| && Number(mines, order[j]) == 0 && IsNeighbour(order[j], queue[k + 1]);
        assert order'[j] == order[j];
      } else {
        assert queue'[k] == pushed[k - (|queue| - 1)];
        assert order'[|order|] == pos;
      }
    }
  }

  lemma RevealKeepsClosure(rows: int, columns: int, mines: set<Position>, before: set<Position>,
                           shown: set<Position>, queue: seq<Position>, pushed: seq<Position>)
    requires queue != []
    requires forall p, q {:trigger IsNeighbour(p, q)} :: p in shown - before && IsNeighbour(p, q) && OnBoard(rows, columns, q) && Number(mines, p) == 0
               ==> q in shown || q in queue
    requires Number(mines, queue[0]) == 0 ==>
               forall q :: IsNeighbour(queue[0], q) && OnBoard(rows, columns, q) ==> q in shown + {queue[0]} || q in pushed
    ensures forall p, q {:trigger IsNeighbour(p, q)} ::
              (p in (shown + {queue[0]}) - before && IsNeighbour(p, q) && OnBoard(rows, columns, q) && Number(mines, p) == 0)
              ==> q in shown + {queue[0]} || q in queue[1..] + pushed
  {
    var pos := queue[0];
    forall p, q | p in (shown + {pos}) - before && IsNeighbour(p, q) && OnBoard(rows, columns, q) && Number(mines, p) == 0
      ensures q in shown + {pos} || q in queue[1..] + pushed
    {
      if q !in shown + {pos} {
        if p == pos {
          assert q in pushed;
        } else {
          InTail(queue, q);
        }
      }
    }
  }

  lemma InTail(queue: seq<Position>, q: Position)
    requires q in queue && q != queue[0]
    ensures q in queue[1..]
  {
    var k :| 0 <= k < |queue| && queue[k] == q;
    assert queue[1..][k - 1] == q;
  }

  /** When the queue is empty the flood fill is complete. */
  lemma FloodDone(rows: int, columns: int, mines: set<Position>, before: set<Position>,
                  shown: set<Position>, order: seq<Position>, start: Position)
    requires FloodState(rows, columns, mines, before, shown, order, [], start)
    requires Within(rows, columns, shown)
    ensures Flooded(rows, columns, mines, before, shown, start)
    ensures |order| > 0 && order[0] == start && RevealedInOrder(mines, order)
  {
    OrderConnects(mines, order);
    assert order[0] in Elems(order);
  }

  /** Showing one more safe cell adds one to the count of shown safe cells. */
  lemma CountAddSafe(mines: set<Position>, shown: set<Position>, pos: Position)
    requires pos !in shown && pos !in mines
    ensures |(shown + {pos}) - mines| == |shown - mines| + 1
  {
    assert (shown + {pos}) - mines == (shown - mines) + {pos};
  }

  /** Showing a mine leaves the count of shown safe cells alone. */
  lemma CountAddMine(mines: set<Position>, shown: set<Position>, pos: Position)
    requires pos in mines
    ensures |(shown + {pos}) - mines| == |shown - mines|
  {
    assert (shown + {pos}) - mines == shown - mines;
  }

  /** The number of shown safe cells grows by the number of cells a flood
      fill reveals. */
  lemma CountAfterFlood(mines: set<Position>, before: set<Position>, after: set<Position>)
    requires before <= after && (after - before) !! mines
    ensures |after - mines| == |before - mines| + |after - before|
  {
    assert after - mines == (before - mines) + (after - before);
  }
}
