/**
 The ground truth of one game: where the mines are, which cells have been dug
 open and which carry a flag, and the queries the game asks of it (is this a
 mine, how many mines touch this cell, is every safe cell open, which mines
 are still hidden).
 */
module Minefield {
  import opened Grid
  import opened Wrappers

  /** MINE_COUNT: mines placed on every new board. */
  const MineCount: int := 5

  /** The `minefield` and `revealed` matrices, plus the flag marks that the
      screen keeps as cell text. */
  datatype Board = Board(mines: Matrix, revealed: Matrix, flagged: Matrix)

  predicate WellFormed(b: Board)
  {
    IsGrid(b.mines) && IsGrid(b.revealed) && IsGrid(b.flagged)
  }

  /** A well-formed board on which no cell is both dug open and flagged. */
  predicate Valid(b: Board)
  {
    WellFormed(b) && Cells(b.revealed) !! Cells(b.flagged)
  }

  function MineCells(b: Board): set<Cell>
    requires WellFormed(b)
  {
    Cells(b.mines)
  }

  function RevealedCells(b: Board): set<Cell>
    requires WellFormed(b)
  {
    Cells(b.revealed)
  }

  function FlaggedCells(b: Board): set<Cell>
    requires WellFormed(b)
  {
    Cells(b.flagged)
  }

  /** A digit drawn by `random.nextInt(10)`. */
  type Digit = x: int | 0 <= x < Size

  /** The cells named by the first `k` (row, col) pairs of a draw stream. */
  function Drawn(draws: seq<Digit>, k: nat): set<Cell>
    requires 2 * k <= |draws|
  {
    set j | 0 <= j < k :: Cell(draws[2 * j], draws[2 * j + 1])
  }

  /** `cells` are the cells named by the shortest prefix of the draw stream
      that names MINE_COUNT distinct cells: the pair that completes the set
      is the last one read. */
  ghost predicate FirstFive(draws: seq<Digit>, cells: set<Cell>)
  {
    exists k :: 0 < k && 2 * k <= |draws| && cells == Drawn(draws, k)
      && |Drawn(draws, k - 1)| < MineCount
  }

  /** initializeMineField: clear both matrices, then place mines from the
      draws until MINE_COUNT are placed. The stream of draws stands for
      `java.util.Random`; if it runs out first the result is `None`. */
  method InitializeMineField(draws: seq<Digit>) returns (r: Option<Board>)
    ensures r.Some? ==> Valid(r.value)
    ensures r.Some? ==> |MineCells(r.value)| == MineCount
    ensures r.Some? ==> MineCells(r.value) <= Drawn(draws, |draws| / 2)
    ensures r.Some? ==> FirstFive(draws, MineCells(r.value))
    ensures r.Some? ==> RevealedCells(r.value) == {} && FlaggedCells(r.value) == {}
    ensures r.None? ==> |Drawn(draws, |draws| / 2)| < MineCount
  {
    var minefield, minesPlaced, k := PlaceMines(draws);
    if minesPlaced < MineCount {
      assert k == |draws| / 2;
      return None;
    }
    DrawnGrows(draws, k, |draws| / 2);
    FirstFiveAt(draws, k, Cells(minefield));
    return Some(Board(minefield, Blank(), Blank()));
  }

  /** The placement loop of initializeMineField: read (row, col) pairs and put
      a mine at each drawn cell that has none, until MINE_COUNT are placed or
      the draws run out. `k` is the number of pairs read. */
  method PlaceMines(draws: seq<Digit>) returns (minefield: Matrix, minesPlaced: int, k: nat)
    ensures 2 * k <= |draws| && IsGrid(minefield)
    ensures Cells(minefield) == Drawn(draws, k)
    ensures minesPlaced == |Cells(minefield)| <= MineCount
    ensures minesPlaced < MineCount ==> |draws| < 2 * k + 2
    ensures minesPlaced == MineCount ==> k > 0 && |Drawn(draws, k - 1)| < MineCount
  {
    minefield := Blank();
    minesPlaced := 0;
    k := 0;
    ghost var before := 0;
    while minesPlaced < MineCount && 2 * k + 2 <= |draws|
      invariant 0 <= 2 * k <= |draws|
      invariant IsGrid(minefield)
      invariant Cells(minefield) == Drawn(draws, k)
      invariant minesPlaced == |Cells(minefield)| <= MineCount
      invariant k > 0 ==> k == before + 1 && |Drawn(draws, before)| < MineCount
      invariant minesPlaced == MineCount ==> k > 0
      decreases |draws| - 2 * k
    {
      var c := Cell(draws[2 * k], draws[2 * k + 1]);
      DrawnNext(draws, k);
      minefield, minesPlaced := PlaceMine(minefield, minesPlaced, c);
      before := k;
      k := k + 1;
    }
  }

  /** Reading one more pair adds exactly the cell it names. */
  lemma DrawnNext(draws: seq<Digit>, k: nat)
    requires 2 * k + 2 <= |draws|
    ensures Drawn(draws, k + 1) == Drawn(draws, k) + {Cell(draws[2 * k], draws[2 * k + 1])}
  {
  }

  /** One pass of the placement loop: a drawn cell without a mine gets one
      and the count goes up; a cell that already has one is skipped. Either
      way the mine set becomes the old one plus the drawn cell, and the count
      keeps matching it. */
  method PlaceMine(g: Matrix, placed: int, c: Cell) returns (h: Matrix, count: int)
    requires IsGrid(g) && OnBoard(c)
    ensures IsGrid(h)
    ensures Cells(h) == Cells(g) + {c}
    ensures count == placed + (if c in Cells(g) then 0 else 1)
    ensures placed == |Cells(g)| ==> count == |Cells(h)|
  {
    if !Get(g, c) {
      h := Put(g, c, true);
      count := placed + 1;
    } else {
      h := g;
      count := placed;
    }
  }

  /** The witness for `FirstFive`: a prefix that reaches five cells while the
      prefix one pair shorter does not. */
  lemma FirstFiveAt(draws: seq<Digit>, k: nat, cells: set<Cell>)
    requires 0 < k && 2 * k <= |draws| && cells == Drawn(draws, k)
    requires |Drawn(draws, k - 1)| < MineCount
    ensures FirstFive(draws, cells)
  {
  }

  /** Reading more pairs never loses a drawn cell. */
  lemma DrawnGrows(draws: seq<Digit>, k: nat, m: nat)
    requires k <= m && 2 * m <= |draws|
    ensures Drawn(draws, k) <= Drawn(draws, m)
  {
  }

  /** isMine: fails closed, so a coordinate off the board is never a mine. */
  function IsMine(b: Board, row: int, col: int): (r: bool)
    requires WellFormed(b)
    ensures r <==> Cell(row, col) in MineCells(b)
  {
    if row < 0 || row >= Size || col < 0 || col >= Size then false
    else b.mines[row][col]
  }

  /** `m` is one of the eight cells around `c` (not `c` itself). */
  predicate Adjacent(c: Cell, m: Cell)
  {
    m != c && -1 <= m.row - c.row <= 1 && -1 <= m.col - c.col <= 1
  }

  /** The mines touching `c`; their number is what a dug cell displays. */
  function AdjacentMines(b: Board, c: Cell): set<Cell>
    requires WellFormed(b)
  {
    set m | m in MineCells(b) && Adjacent(c, m)
  }

  /** The adjacent mines whose offset from `c` comes before `(i, j)` in the
      scan order of countAdjacentMines. */
  ghost function Scanned(b: Board, c: Cell, i: int, j: int): set<Cell>
    requires WellFormed(b)
  {
    set m | m in AdjacentMines(b, c)
              && (m.row - c.row < i || (m.row - c.row == i && m.col - c.col < j))
  }

  lemma ScanStep(b: Board, c: Cell, i: int, j: int)
    requires WellFormed(b)
    requires -1 <= i <= 1 && -1 <= j <= 1
    ensures Cell(c.row + i, c.col + j) !in Scanned(b, c, i, j)
    ensures Scanned(b, c, i, j + 1)
            == Scanned(b, c, i, j)
               + (if !(i == 0 && j == 0) && IsMine(b, c.row + i, c.col + j)
                  then {Cell(c.row + i, c.col + j)} else {})
  {
  }

  /** One step of the scan adds one to the count exactly on a mine hit. */
  lemma ScanStepCount(b: Board, c: Cell, i: int, j: int)
    requires WellFormed(b)
    requires -1 <= i <= 1 && -1 <= j <= 1
    ensures |Scanned(b, c, i, j + 1)|
            == |Scanned(b, c, i, j)|
               + (if !(i == 0 && j == 0) && IsMine(b, c.row + i, c.col + j) then 1 else 0)
  {
    ScanStep(b, c, i, j);
  }

  lemma ScanRowEnd(b: Board, c: Cell, i: int)
    requires WellFormed(b)
    ensures Scanned(b, c, i, 2) == Scanned(b, c, i + 1, -1)
  {
  }

  /** Nothing precedes the first offset; every adjacent mine precedes row 2. */
  lemma ScanEnds(b: Board, c: Cell)
    requires WellFormed(b)
    ensures Scanned(b, c, -1, -1) == {}
    ensures Scanned(b, c, 2, -1) == AdjacentMines(b, c)
  {
  }

  /** countAdjacentMines: the 3x3 scan around (row, col), skipping the centre
      and counting `isMine` hits. Defined for every coordinate, on or off the
      board, because `isMine` fails closed. */
  method CountAdjacentMines(b: Board, row: int, col: int) returns (count: int)
    requires WellFormed(b)
    ensures count == |AdjacentMines(b, Cell(row, col))|
    ensures 0 <= count <= 8
  {
    var c := Cell(row, col);
    ScanEnds(b, c);
    AdjacentMinesBounds(b, c);
    count := 0;
    var i := -1;
    while i <= 1
      invariant -1 <= i <= 2
      invariant count == |Scanned(b, c, i, -1)|
    {
      var j := -1;
      while j <= 1
        invariant -1 <= j <= 2
        invariant count == |Scanned(b, c, i, j)|
      {
        ScanStepCount(b, c, i, j);
        if !(i == 0 && j == 0) && IsMine(b, row + i, col + j) {
          count := count + 1;
        }
        j := j + 1;
      }
      ScanRowEnd(b, c, i);
      i := i + 1;
    }
  }

  /** The on-board cells around `c` lie among the given rows and columns. */
  lemma NeighbourIn(c: Cell, m: Cell, rows: set<int>, cols: set<int>)
    requires OnBoard(m) && Adjacent(c, m)
    requires forall x :: 0 <= x < Size && -1 <= x - c.row <= 1 ==> x in rows
    requires forall y :: 0 <= y < Size && -1 <= y - c.col <= 1 ==> y in cols
    ensures m.row in rows && m.col in cols
  {
  }

  predicate IsCorner(c: Cell)
  {
    (c.row == 0 || c.row == Size - 1) && (c.col == 0 || c.col == Size - 1)
  }

  predicate OnEdge(c: Cell)
  {
    c.row == 0 || c.row == Size - 1 || c.col == 0 || c.col == Size - 1
  }

  /** The row or column next to a border line, on the board side. */
  function Inner(x: int): int
  {
    if x == 0 then 1 else Size - 2
  }

  /** A cell touches at most 8 mines, at most 5 on an edge and at most 3 in a
      corner, because off-board neighbours never count. */
  lemma AdjacentMinesBounds(b: Board, c: Cell)
    requires WellFormed(b)
    ensures |AdjacentMines(b, c)| <= 8
    ensures OnBoard(c) && OnEdge(c) ==> |AdjacentMines(b, c)| <= 5
    ensures OnBoard(c) && IsCorner(c) ==> |AdjacentMines(b, c)| <= 3
  {
    RingBound(b, c);
    if OnBoard(c) && OnEdge(c) {
      if c.row == 0 || c.row == Size - 1 {
        RowEdgeBound(b, c);
      } else {
        ColEdgeBound(b, c);
      }
      if IsCorner(c) {
        CornerBound(b, c);
      }
    }
  }

  lemma RingBound(b: Board, c: Cell)
    requires WellFormed(b)
    ensures |AdjacentMines(b, c)| <= 8
  {
    var r, k := c.row, c.col;
    var ring := {Cell(r - 1, k - 1), Cell(r - 1, k), Cell(r - 1, k + 1), Cell(r, k - 1),
                 Cell(r, k + 1), Cell(r + 1, k - 1), Cell(r + 1, k), Cell(r + 1, k + 1)};
    assert AdjacentMines(b, c) <= ring;
    SubsetCard(AdjacentMines(b, c), ring);
  }

  lemma RowEdgeBound(b: Board, c: Cell)
    requires WellFormed(b) && OnBoard(c) && (c.row == 0 || c.row == Size - 1)
    ensures |AdjacentMines(b, c)| <= 5
  {
    var r, k, r' := c.row, c.col, Inner(c.row);
    var edge := {Cell(r, k - 1), Cell(r, k + 1), Cell(r', k - 1), Cell(r', k), Cell(r', k + 1)};
    forall m | m in AdjacentMines(b, c) ensures m in edge {
      NeighbourIn(c, m, {r, r'}, {k - 1, k, k + 1});
    }
    SubsetCard(AdjacentMines(b, c), edge);
  }

  lemma ColEdgeBound(b: Board, c: Cell)
    requires WellFormed(b) && OnBoard(c) && (c.col == 0 || c.col == Size - 1)
    ensures |AdjacentMines(b, c)| <= 5
  {
    var r, k, k' := c.row, c.col, Inner(c.col);
    var edge := {Cell(r - 1, k), Cell(r + 1, k), Cell(r - 1, k'), Cell(r, k'), Cell(r + 1, k')};
    forall m | m in AdjacentMines(b, c) ensures m in edge {
      NeighbourIn(c, m, {r - 1, r, r + 1}, {k, k'});
    }
    SubsetCard(AdjacentMines(b, c), edge);
  }

  lemma CornerBound(b: Board, c: Cell)
    requires WellFormed(b) && OnBoard(c) && IsCorner(c)
    ensures |AdjacentMines(b, c)| <= 3
  {
    var r, k, r', k' := c.row, c.col, Inner(c.row), Inner(c.col);
    var corner := {Cell(r, k'), Cell(r', k), Cell(r', k')};
    forall m | m in AdjacentMines(b, c) ensures m in corner {
      NeighbourIn(c, m, {r, r'}, {k, k'});
    }
    SubsetCard(AdjacentMines(b, c), corner);
  }

  lemma SubsetCard<T>(a: set<T>, b: set<T>)
    requires a <= b
    ensures |a| <= |b|
  {
    assert b == a + (b - a);
  }

  /** Every cell that is not a mine has been dug open. */
  predicate AllSafeRevealed(b: Board)
    requires WellFormed(b)
  {
    AllCells() - MineCells(b) <= RevealedCells(b)
  }

  /** Some mine has been dug open. */
  predicate MineRevealed(b: Board)
    requires WellFormed(b)
  {
    MineCells(b) * RevealedCells(b) != {}
  }

  /** checkWinCondition: a row-major scan that stops at the first cell that is
      neither a mine nor revealed. */
  method CheckWinCondition(b: Board) returns (won: bool)
    requires WellFormed(b)
    ensures won <==> AllSafeRevealed(b)
  {
    var i := 0;
    while i < Size
      invariant 0 <= i <= Size
      invariant forall r, k :: 0 <= r < i && 0 <= k < Size ==> IsMine(b, r, k) || b.revealed[r][k]
    {
      var j := 0;
      while j < Size
        invariant 0 <= j <= Size
        invariant forall r, k :: 0 <= r < i && 0 <= k < Size ==> IsMine(b, r, k) || b.revealed[r][k]
        invariant forall k :: 0 <= k < j ==> IsMine(b, i, k) || b.revealed[i][k]
      {
        if !IsMine(b, i, j) && !b.revealed[i][j] {
          assert Cell(i, j) in AllCells() - MineCells(b);
          return false;
        }
        j := j + 1;
      }
      i := i + 1;
    }
    forall c | c in AllCells() - MineCells(b)
      ensures c in RevealedCells(b)
    {
      assert IsMine(b, c.row, c.col) || b.revealed[c.row][c.col];
    }
    return true;
  }

  /** A board holding MINE_COUNT mines with nothing dug open is not won: a
      board with only five mines has safe cells. */
  lemma FreshBoardNotWon(b: Board)
    requires WellFormed(b)
    requires |MineCells(b)| == MineCount
    requires RevealedCells(b) == {}
    ensures !AllSafeRevealed(b)
  {
    if AllSafeRevealed(b) {
      var six := {Cell(0, 0), Cell(0, 1), Cell(0, 2), Cell(0, 3), Cell(0, 4), Cell(0, 5)};
      assert six <= MineCells(b);
      SubsetCard(six, MineCells(b));
      assert false;
    }
  }

  /** Dig the cell open: only the `revealed` entry of `c` changes. */
  function Reveal(b: Board, c: Cell): (r: Board)
    requires WellFormed(b) && OnBoard(c)
    ensures WellFormed(r)
    ensures RevealedCells(r) == RevealedCells(b) + {c}
    ensures r.mines == b.mines && r.flagged == b.flagged
  {
    b.(revealed := Put(b.revealed, c, true))
  }

  /** Place or lift the flag on `c`: only the flag mark of `c` changes. */
  function ToggleFlag(b: Board, c: Cell): (r: Board)
    requires WellFormed(b) && OnBoard(c)
    ensures WellFormed(r)
    ensures c in FlaggedCells(b) ==> FlaggedCells(r) == FlaggedCells(b) - {c}
    ensures c !in FlaggedCells(b) ==> FlaggedCells(r) == FlaggedCells(b) + {c}
    ensures r.mines == b.mines && r.revealed == b.revealed
  {
    b.(flagged := Put(b.flagged, c, !Get(b.flagged, c)))
  }

  /** Toggling the same flag twice restores the board. */
  lemma ToggleFlagTwice(b: Board, c: Cell)
    requires WellFormed(b) && OnBoard(c)
    ensures ToggleFlag(ToggleFlag(b, c), c) == b
  {
    var b2 := ToggleFlag(ToggleFlag(b, c), c);
    CellsDetermineGrid(b2.flagged, b.flagged);
  }

  /** The cells from view index `n` on that hold a mine not yet dug open, in
      row-major order: the list revealAllMinesSequentially builds. */
  function MinesFrom(b: Board, n: int): (r: seq<Cell>)
    requires WellFormed(b) && 0 <= n <= CellTotal
    ensures forall i :: 0 <= i < |r| ==> OnBoard(r[i]) && n <= IndexOf(r[i])
    ensures forall i, j :: 0 <= i < j < |r| ==> IndexOf(r[i]) < IndexOf(r[j])
    ensures forall c :: c in r <==> c in MineCells(b) - RevealedCells(b) && n <= IndexOf(c)
    decreases CellTotal - n
  {
    if n == CellTotal then []
    else
      var c := CellAt(n);
      var rest := MinesFrom(b, n + 1);
      if IsMine(b, c.row, c.col) && !Get(b.revealed, c) then [c] + rest else rest
  }

  /** The hidden mines in row-major order. */
  function MinesToReveal(b: Board): (r: seq<Cell>)
    requires WellFormed(b)
    ensures forall c :: c in r <==> c in MineCells(b) - RevealedCells(b)
    ensures forall i :: 0 <= i < |r| ==> OnBoard(r[i])
    ensures forall i, j :: 0 <= i < j < |r| ==> IndexOf(r[i]) < IndexOf(r[j])
  {
    MinesFrom(b, 0)
  }

  /** The list holds every hidden mine exactly once, so its length is the
      number of hidden mines. */
  lemma MinesToRevealExact(b: Board)
    requires WellFormed(b)
    ensures (set c | c in MinesToReveal(b)) == MineCells(b) - RevealedCells(b)
    ensures |MinesToReveal(b)| == |MineCells(b) - RevealedCells(b)|
  {
    var s := MinesToReveal(b);
    forall i, j | 0 <= i < j < |s| ensures s[i] != s[j] {
      assert IndexOf(s[i]) < IndexOf(s[j]);
    }
    DistinctCard(s);
  }

  /** A sequence without repetitions has as many elements as its set. */
  lemma {:induction false} DistinctCard<T>(s: seq<T>)
    requires forall i, j :: 0 <= i < j < |s| ==> s[i] != s[j]
    ensures |set x | x in s| == |s|
  {
    if s != [] {
      DistinctCard(s[1..]);
      assert (set x | x in s) == {s[0]} + (set x | x in s[1..]);
      assert s[0] !in s[1..];
    }
  }
}
