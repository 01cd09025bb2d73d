/** The 6 x 7 Connect Four board shared by the server's `Game` and the
    client's board state: cells, positions, single-cell updates and the
    count of occupied cells that the draw rule depends on. */
module Board {
  const Rows: int := 6
  const Cols: int := 7

  /** One board cell; the source stores "", "red" or "black". */
  datatype Cell = Empty | Red | Black

  /** A `[row, column]` pair; row 0 is the top row. */
  datatype Pos = Pos(row: int, column: int)

  type Grid = seq<seq<Cell>>

  predicate IsGrid(g: Grid) {
    |g| == Rows && forall r :: 0 <= r < Rows ==> |g[r]| == Cols
  }

  predicate InRange(row: int, column: int) {
    0 <= row < Rows && 0 <= column < Cols
  }

  /** The board every game and every client starts from. */
  function EmptyGrid(): (g: Grid)
    ensures IsGrid(g)
    ensures forall r, c :: InRange(r, c) ==> g[r][c] == Empty
  {
    seq(Rows, _ => seq(Cols, _ => Empty))
  }

  /** A copy of `g` with the single cell (row, column) set to `x`. */
  function Place(g: Grid, row: int, column: int, x: Cell): (h: Grid)
    requires IsGrid(g) && InRange(row, column)
    ensures IsGrid(h)
    ensures h[row][column] == x
    ensures forall r, c :: InRange(r, c) && (r != row || c != column) ==> h[r][c] == g[r][c]
  {
    g[row := g[row][column := x]]
  }

  /** Every cell of the board is occupied. */
  ghost predicate Full(g: Grid)
    requires IsGrid(g)
  {
    forall r, c :: InRange(r, c) ==> g[r][c] != Empty
  }

  /** Number of occupied cells in one row. */
  function CountRow(row: seq<Cell>): (n: nat)
    ensures n <= |row|
  {
    if row == [] then 0 else (if row[0] == Empty then 0 else 1) + CountRow(row[1..])
  }

  /** Number of occupied cells on a board. */
  function Filled(g: Grid): nat {
    if g == [] then 0 else CountRow(g[0]) + Filled(g[1..])
  }

  lemma {:induction false} CountRowWrite(row: seq<Cell>, c: int, x: Cell)
    requires 0 <= c < |row| && row[c] == Empty && x != Empty
    ensures CountRow(row[c := x]) == CountRow(row) + 1
  {
    if c == 0 {
      assert row[c := x][1..] == row[1..];
    } else {
      CountRowWrite(row[1..], c - 1, x);
      assert row[c := x][1..] == row[1..][c - 1 := x];
    }
  }

  /** Occupying one empty cell raises the occupied count by exactly one. */
  lemma {:induction false} FilledWrite(g: Grid, r: int, c: int, x: Cell)
    requires 0 <= r < |g| && 0 <= c < |g[r]| && g[r][c] == Empty && x != Empty
    ensures Filled(g[r := g[r][c := x]]) == Filled(g) + 1
  {
    if r == 0 {
      CountRowWrite(g[0], c, x);
      assert g[r := g[r][c := x]][1..] == g[1..];
    } else {
      FilledWrite(g[1..], r - 1, c, x);
      assert g[r := g[r][c := x]][1..] == g[1..][r - 1 := g[r][c := x]];
    }
  }

  lemma {:induction false} CountRowAll(row: seq<Cell>)
    ensures CountRow(row) == |row| <==> forall i :: 0 <= i < |row| ==> row[i] != Empty
  {
    if row != [] {
      CountRowAll(row[1..]);
      assert forall i :: 1 <= i < |row| ==> row[i] == row[1..][i - 1];
    }
  }

  lemma {:induction false} CountRowNone(row: seq<Cell>)
    requires forall i :: 0 <= i < |row| ==> row[i] == Empty
    ensures CountRow(row) == 0
  {
    if row != [] {
      CountRowNone(row[1..]);
    }
  }

  /** A board of `n` rows of width `Cols` holds at most `Cols * n` stones,
      and holds exactly that many iff no cell is empty. */
  lemma {:induction false} FilledAll(g: Grid)
    requires forall i :: 0 <= i < |g| ==> |g[i]| == Cols
    ensures Filled(g) <= Cols * |g|
    ensures Filled(g) == Cols * |g| <==> forall i, c :: 0 <= i < |g| && 0 <= c < Cols ==> g[i][c] != Empty
  {
    if g != [] {
      CountRowAll(g[0]);
      FilledAll(g[1..]);
      assert forall i :: 1 <= i < |g| ==> g[i] == g[1..][i - 1];
    }
  }

  /** The board is full exactly when 42 (= 6 * 7) stones are on it. */
  lemma FullIffFilled(g: Grid)
    requires IsGrid(g)
    ensures Filled(g) <= Rows * Cols
    ensures Full(g) <==> Filled(g) == Rows * Cols
  {
    FilledAll(g);
  }

  lemma {:induction false} FilledNone(g: Grid)
    requires forall i, c :: 0 <= i < |g| && 0 <= c < |g[i]| ==> g[i][c] == Empty
    ensures Filled(g) == 0
  {
    if g != [] {
      CountRowNone(g[0]);
      FilledNone(g[1..]);
    }
  }

  /** The starting board holds no stone. */
  lemma EmptyGridFilled()
    ensures Filled(EmptyGrid()) == 0
  {
    FilledNone(EmptyGrid());
  }
}
