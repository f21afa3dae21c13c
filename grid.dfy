/** The 16 x 16 toroidal board shared by the browser games: cells, unit
    directions, the wrap-around step and the fact that a board with fewer
    occupied entries than cells always has a free cell. */
module Grid {

  /** `COLS` and `ROWS` of both browser games. */
  const Cols: int := 16
  const Rows: int := 16

  datatype Cell = Cell(x: int, y: int)

  /** A movement vector `{ dx, dy }`. */
  datatype Dir = Dir(dx: int, dy: int)

  const Up: Dir := Dir(0, -1)
  const Down: Dir := Dir(0, 1)
  const Left: Dir := Dir(-1, 0)
  const Right: Dir := Dir(1, 0)

  /** The fixed starting bodies, head first, shared by all three games. */
  const InitialPlayerBody: seq<Cell> := [Cell(8, 8), Cell(7, 8), Cell(6, 8), Cell(5, 8)]
  const InitialAIBody: seq<Cell> := [Cell(4, 4), Cell(3, 4), Cell(2, 4), Cell(1, 4)]

  /** The four vectors the key handler can produce. */
  predicate IsUnit(d: Dir) {
    d == Up || d == Down || d == Left || d == Right
  }

  predicate InGrid(c: Cell) {
    0 <= c.x < Cols && 0 <= c.y < Rows
  }

  predicate AllInGrid(cells: seq<Cell>) {
    forall c :: c in cells ==> InGrid(c)
  }

  /** The reversal test of the browser games: `a.dx === -b.dx && a.dy === -b.dy`. */
  predicate Opposite(a: Dir, b: Dir) {
    a.dx == -b.dx && a.dy == -b.dy
  }

  /** JavaScript's `%`: the remainder takes the sign of the dividend. */
  function JsRem(a: int, n: int): (r: int)
    requires n > 0
    ensures a >= 0 ==> r == a % n
    ensures a < 0 ==> r == -((-a) % n)
  {
    if a >= 0 then a % n else -((-a) % n)
  }

  /** The next head of `update`: `(head.x + dir.dx + COLS) % COLS`, and the same
      for `y`, with JavaScript's remainder. For a head on the board and a unit
      direction the result is on the board and is the neighbour of `head` on the
      torus (mathematical remainder of `head + dir`). */
  function JsNextHead(head: Cell, d: Dir): (r: Cell)
    ensures InGrid(head) && IsUnit(d) ==>
              InGrid(r) && r == Cell((head.x + d.dx) % Cols, (head.y + d.dy) % Rows)
    ensures InGrid(head) && IsUnit(d) ==> r != head
  {
    Cell(JsRem(head.x + d.dx + Cols, Cols), JsRem(head.y + d.dy + Rows, Rows))
  }

  /** No two positions of `s` hold the same element. */
  predicate NoDup<T(==)>(s: seq<T>) {
    forall i, j :: 0 <= i < j < |s| ==> s[i] != s[j]
  }

  /** Every cell of the board, column by column. */
  function AllCells(): (cells: seq<Cell>)
    ensures |cells| == Cols * Rows
    ensures forall i :: 0 <= i < |cells| ==> cells[i] == Cell(i / Rows, i % Rows)
  {
    seq(Cols * Rows, i => Cell(i / Rows, i % Rows))
  }

  lemma AllCellsNoDup()
    ensures NoDup(AllCells())
  {
    var cells := AllCells();
    forall i, j | 0 <= i < j < |cells| ensures cells[i] != cells[j] {
      if i / Rows == j / Rows {
        assert i % Rows != j % Rows;
      }
    }
  }

  lemma AllCellsInGrid()
    ensures forall i :: 0 <= i < |AllCells()| ==> InGrid(AllCells()[i])
  {
  }

  /** A duplicate-free sequence whose elements all occur in `pool` is no longer
      than `pool` (pigeonhole). */
  lemma {:induction false} NoDupWithin<T>(xs: seq<T>, pool: seq<T>)
    requires NoDup(xs)
    requires forall x :: x in xs ==> x in pool
    ensures |xs| <= |pool|
  {
    if xs != [] {
      var x := xs[0];
      assert x in pool;
      var k :| 0 <= k < |pool| && pool[k] == x;
      var rest := pool[..k] + pool[k + 1..];
      forall y | y in xs[1..] ensures y in rest {
        var i :| 1 <= i < |xs| && xs[i] == y;
        assert y != x;
        assert y in pool;
        var j :| 0 <= j < |pool| && pool[j] == y;
        assert j != k;
        if j < k {
          assert rest[j] == y;
        } else {
          assert rest[j - 1] == y;
        }
      }
      assert NoDup(xs[1..]);
      NoDupWithin(xs[1..], rest);
    }
  }

  /** Fewer occupied entries than board cells leave a free cell: the retry loop
      of `spawnApple` can stop. */
  lemma FreeCellExists(occupied: seq<Cell>)
    requires |occupied| < Cols * Rows
    ensures exists c :: InGrid(c) && c !in occupied
  {
    if forall c :: InGrid(c) ==> c in occupied {
      AllCellsNoDup();
      AllCellsInGrid();
      NoDupWithin(AllCells(), occupied);
      assert false;
    }
  }
}
