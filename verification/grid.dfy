/**
 The 10x10 cell grid of the game screen: cell coordinates, the conversion
 between a cell-view index and (row, column), and boolean matrices indexed by
 cell together with the set of cells at which a matrix holds `true`.
 */
module Grid {

  /** Side length of the board (COLUMN_COUNT; the row bound is the same literal 10). */
  const Size: int := 10

  /** Number of cell views laid out on the screen. */
  const CellTotal: int := Size * Size

  datatype Cell = Cell(row: int, col: int)

  predicate InBounds(row: int, col: int)
  {
    0 <= row < Size && 0 <= col < Size
  }

  predicate OnBoard(c: Cell)
  {
    InBounds(c.row, c.col)
  }

  /** The cell a view index stands for: row `n / 10`, column `n % 10`.
      Only reached with `0 <= n < 100`, where Java's truncating `/` and `%`
      agree with Dafny's. */
  function CellAt(n: int): (c: Cell)
    requires 0 <= n < CellTotal
    ensures OnBoard(c)
    ensures c.row * Size + c.col == n
  {
    Cell(n / Size, n % Size)
  }

  /** The view index of a cell in row-major order, `row * 10 + col`. */
  function IndexOf(c: Cell): (n: int)
    requires OnBoard(c)
    ensures 0 <= n < CellTotal
    ensures n / Size == c.row && n % Size == c.col
  {
    c.row * Size + c.col
  }

  /** Both conversions are inverse to each other on the board. */
  lemma IndexRoundTrip(n: int, c: Cell)
    requires 0 <= n < CellTotal && OnBoard(c)
    ensures IndexOf(CellAt(n)) == n
    ensures CellAt(IndexOf(c)) == c
    ensures IndexOf(c) == n <==> CellAt(n) == c
  {
  }

  /** A `boolean[10][10]`. */
  type Matrix = seq<seq<bool>>

  predicate IsGrid(g: Matrix)
  {
    |g| == Size && forall r :: 0 <= r < Size ==> |g[r]| == Size
  }

  /** Every cell of the board. */
  function AllCells(): (s: set<Cell>)
    ensures forall c :: c in s <==> OnBoard(c)
  {
    var s := set r, k | 0 <= r < Size && 0 <= k < Size :: Cell(r, k);
    assert forall c :: OnBoard(c) ==> c in s by {
      forall c | OnBoard(c)
        ensures c in s
      {
        var r, k := c.row, c.col;
        assert Cell(r, k) in s;
      }
    }
    s
  }

  /** The cells at which the matrix holds `true`. */
  function Cells(g: Matrix): (s: set<Cell>)
    requires IsGrid(g)
    ensures forall c :: c in s <==> OnBoard(c) && g[c.row][c.col]
  {
    var s := set r, k | 0 <= r < Size && 0 <= k < Size && g[r][k] :: Cell(r, k);
    assert forall c :: OnBoard(c) && g[c.row][c.col] ==> c in s by {
      forall c | OnBoard(c) && g[c.row][c.col]
        ensures c in s
      {
        var r, k := c.row, c.col;
        assert Cell(r, k) in s;
      }
    }
    s
  }

  /** A freshly allocated `new boolean[10][10]`: all `false`. */
  function Blank(): (g: Matrix)
    ensures IsGrid(g)
    ensures Cells(g) == {}
  {
    seq(Size, _ => seq(Size, _ => false))
  }

  function Get(g: Matrix, c: Cell): bool
    requires IsGrid(g) && OnBoard(c)
  {
    g[c.row][c.col]
  }

  /** `g[c.row][c.col] = v`: exactly the entry at `c` changes. */
  function Put(g: Matrix, c: Cell, v: bool): (h: Matrix)
    requires IsGrid(g) && OnBoard(c)
    ensures IsGrid(h)
    ensures Get(h, c) == v
    ensures forall d :: OnBoard(d) && d != c ==> Get(h, d) == Get(g, d)
    ensures Cells(h) == if v then Cells(g) + {c} else Cells(g) - {c}
  {
    var h := g[c.row := g[c.row][c.col := v]];
    assert forall d :: d in Cells(h) <==> d in (if v then Cells(g) + {c} else Cells(g) - {c});
    h
  }

  /** Two matrices with the same `true` cells are the same matrix. */
  lemma {:induction false} CellsDetermineGrid(g: Matrix, h: Matrix)
    requires IsGrid(g) && IsGrid(h)
    requires Cells(g) == Cells(h)
    ensures g == h
  {
    forall r | 0 <= r < Size
      ensures g[r] == h[r]
    {
      forall k | 0 <= k < Size
        ensures g[r][k] == h[r][k]
      {
        assert Cell(r, k) in Cells(g) <==> Cell(r, k) in Cells(h);
      }
    }
  }
}
