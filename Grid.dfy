/**
 * Neighbours of each cell of an n x n board, computed on the board framed
 * by a border of -1 cells.
 */
module Grid {

  /** Board index of the cell in row `row` and column `col`. */
  function Cell(n: nat, row: int, col: int): int {
    row * n + col
  }

  /** A product of non-negative factors is non-negative. */
  lemma MulNonneg(a: int, b: int)
    requires a >= 0 && b >= 0
    ensures a * b >= 0
  {
  }

  /** Multiplying by a non-negative factor keeps the order. */
  lemma MulLe(a: int, b: int, n: int)
    requires a <= b && n >= 0
    ensures a * n <= b * n
  {
    MulNonneg(b - a, n);
    assert (b - a) * n == b * n - a * n;
  }

  /** Multiplying by a positive factor n moves a strictly larger factor at least n further. */
  lemma MulStep(a: int, b: int, n: int)
    requires a > b && n > 0
    ensures a * n >= b * n + n
  {
    MulNonneg(a - b - 1, n);
    assert (a - b - 1) * n == a * n - b * n - n;
  }

  /** x determines its quotient and remainder by n. */
  lemma DivModUnique(x: int, n: int, q: int, r: int)
    requires n > 0 && 0 <= r < n && x == q * n + r
    ensures x / n == q && x % n == r
  {
    if q > x / n {
      MulStep(q, x / n, n);
    } else if q < x / n {
      MulStep(x / n, q, n);
    }
  }

  /** A cell index determines its row and column. */
  lemma CellRowCol(n: nat, row: int, col: int)
    requires 0 <= col < n
    ensures Cell(n, row, col) / n == row && Cell(n, row, col) % n == col
  {
    DivModUnique(Cell(n, row, col), n, row, col);
  }

  /** Every board index is the cell of its row and column. */
  lemma RowColCell(n: nat, c: int)
    requires 0 <= c < n * n
    ensures 0 <= c / n < n && 0 <= c % n < n && c == Cell(n, c / n, c % n)
  {
    if c / n >= n {
      MulLe(n, c / n, n);
    }
  }

  /** Cells are numbered row by row. */
  lemma CellOrder(n: nat, row: int, col: int, row': int, col': int)
    requires 0 <= col < n && 0 <= col' < n
    requires row < row' || (row == row' && col < col')
    ensures Cell(n, row, col) < Cell(n, row', col')
  {
    if row < row' {
      MulStep(row', row, n);
    }
  }

  /** The cells of the board are exactly the indices below n * n. */
  lemma CellInBoard(n: nat, row: int, col: int)
    requires 0 <= row < n && 0 <= col < n
    ensures 0 <= Cell(n, row, col) < n * n
  {
    MulNonneg(row, n);
    MulStep(n, row, n);
  }

  /**
   * The framed board: (n + 2) x (n + 2) cells, row by row; the border holds
   * -1 and the inner cell in framed row R, column C holds the board index of
   * row R - 1, column C - 1.
   */
  function Frame(n: nat): (f: seq<int>)
    ensures |f| == (n + 2) * (n + 2)
  {
    var m := n + 2;
    seq(m * m, j => var R, C := j / m, j % m;
      if 1 <= R <= n && 1 <= C <= n then Cell(n, R - 1, C - 1) else -1)
  }

  /** The framed board at framed row R and column C. */
  lemma FrameAt(n: nat, R: int, C: int)
    requires 0 <= R < n + 2 && 0 <= C < n + 2
    ensures 0 <= Cell(n + 2, R, C) < |Frame(n)|
    ensures Frame(n)[Cell(n + 2, R, C)]
         == if 1 <= R <= n && 1 <= C <= n then Cell(n, R - 1, C - 1) else -1
  {
    CellRowCol(n + 2, R, C);
    CellInBoard(n + 2, R, C);
  }

  /** The entries of xs other than the border value -1, in order. */
  function DropFrame(xs: seq<int>): (ys: seq<int>)
    ensures forall y :: y in ys <==> y in xs && y != -1
  {
    if xs == [] then []
    else (if xs[0] == -1 then [] else [xs[0]]) + DropFrame(xs[1..])
  }

  /** Strictly increasing, so without repetitions. */
  ghost predicate Increasing(xs: seq<int>) {
    forall i, j :: 0 <= i < j < |xs| ==> xs[i] < xs[j]
  }

  /** An entry below every entry of an increasing list extends it to an increasing list. */
  lemma IncreasingCons(x: int, rest: seq<int>)
    requires Increasing(rest) && forall y :: y in rest ==> x < y
    ensures Increasing([x] + rest)
  {
    var xs := [x] + rest;
    forall i, j | 0 <= i < j < |xs| ensures xs[i] < xs[j] {
      assert xs[j] == rest[j - 1] && rest[j - 1] in rest;
      if i > 0 {
        assert xs[i] == rest[i - 1];
      }
    }
  }

  /** Entries other than -1 that increase. */
  ghost predicate FramedIncreasing(xs: seq<int>) {
    forall i, j :: 0 <= i < j < |xs| && xs[i] != -1 && xs[j] != -1 ==> xs[i] < xs[j]
  }

  /** If the entries other than -1 increase, dropping the -1 entries leaves an increasing list. */
  lemma {:induction false} DropFrameIncreasing(xs: seq<int>)
    requires FramedIncreasing(xs)
    ensures Increasing(DropFrame(xs))
    decreases |xs|
  {
    if xs != [] {
      var tail := xs[1..];
      forall i, j | 0 <= i < j < |tail| && tail[i] != -1 && tail[j] != -1 ensures tail[i] < tail[j] {
        assert tail[i] == xs[i + 1] && tail[j] == xs[j + 1];
      }
      DropFrameIncreasing(tail);
      var rest := DropFrame(tail);
      if xs[0] != -1 {
        forall y | y in rest ensures xs[0] < y {
          var j :| 0 <= j < |tail| && tail[j] == y;
          assert xs[j + 1] == y;
        }
        IncreasingCons(xs[0], rest);
        assert DropFrame(xs) == [xs[0]] + rest;
      } else {
        assert DropFrame(xs) == [] + rest;
      }
    }
  }

  /** Row steps of the eight neighbour offsets, in the order they are listed. */
  const RowSteps: seq<int> := [-1, -1, -1, 0, 0, 1, 1, 1]
  /** Column steps of the eight neighbour offsets, in the order they are listed. */
  const ColSteps: seq<int> := [-1, 0, 1, -1, 1, -1, 0, 1]

  /** Each offset moves at most one row and one column, and moves. */
  lemma StepFacts(k: nat)
    requires k < 8
    ensures -1 <= RowSteps[k] <= 1 && -1 <= ColSteps[k] <= 1
    ensures RowSteps[k] != 0 || ColSteps[k] != 0
  {
  }

  /** The offsets are listed row by row, left to right. */
  lemma StepsOrdered(i: nat, j: nat)
    requires i < j < 8
    ensures RowSteps[i] < RowSteps[j] || (RowSteps[i] == RowSteps[j] && ColSteps[i] < ColSteps[j])
  {
  }

  /** Every move by at most one row and one column is one of the eight offsets. */
  lemma StepsCover(dr: int, dc: int) returns (k: nat)
    requires -1 <= dr <= 1 && -1 <= dc <= 1 && (dr != 0 || dc != 0)
    ensures k < 8 && RowSteps[k] == dr && ColSteps[k] == dc
  {
    k := if dr == -1 then dc + 1
         else if dr == 0 then (if dc == -1 then 3 else 4)
         else dc + 6;
  }

  /** d is a neighbour of c on the n x n board: another cell at most one row and one column away. */
  ghost predicate Adjacent(n: nat, c: int, d: int) {
    && 0 <= c < n * n && 0 <= d < n * n && d != c
    && -1 <= d / n - c / n <= 1
    && -1 <= d % n - c % n <= 1
  }

  /**
   * The framed board's entries around the framed index i, in the order
   * `get_neighbors` lists them: the row above, left to right; left, right; the row
   * below, left to right.
   */
  function Window(n: nat, i: int): (w: seq<int>)
    requires n + 3 <= i < (n + 2) * (n + 2) - n - 3
    ensures |w| == 8
  {
    var m := n + 2;
    var f := Frame(n);
    [f[i - m - 1], f[i - m], f[i - m + 1], f[i - 1], f[i + 1], f[i + m - 1], f[i + m], f[i + m + 1]]
  }

  /** The k-th entry of a window is k offsets away from its centre. */
  lemma WindowOffset(n: nat, i: int, k: nat)
    requires n + 3 <= i < (n + 2) * (n + 2) - n - 3 && k < 8
    ensures 0 <= i + RowSteps[k] * (n + 2) + ColSteps[k] < |Frame(n)|
    ensures Window(n, i)[k] == Frame(n)[i + RowSteps[k] * (n + 2) + ColSteps[k]]
  {
  }

  /** The framed index of a board cell is an inner index of the framed board. */
  lemma FramedInner(n: nat, c: int)
    requires 0 <= c < n * n
    ensures n + 3 <= Cell(n + 2, c / n + 1, c % n + 1) < (n + 2) * (n + 2) - n - 3
  {
    RowColCell(n, c);
    var m, R := n + 2, c / n + 1;
    MulLe(1, R, m);
    MulLe(R, n, m);
    assert m * m == n * m + 2 * m;
  }

  /** The framed index of the board cell c: one row down and one column right of c, on the framed board. */
  function Framed(n: nat, c: int): (i: int)
    requires 0 <= c < n * n
    ensures n + 3 <= i < (n + 2) * (n + 2) - n - 3
  {
    FramedInner(n, c);
    Cell(n + 2, c / n + 1, c % n + 1)
  }

  /** Shifting a cell by whole rows and columns. */
  lemma CellShift(m: nat, R: int, C: int, dr: int, dc: int)
    ensures Cell(m, R + dr, C + dc) == Cell(m, R, C) + dr * m + dc
  {
    assert (R + dr) * m == R * m + dr * m;
  }

  /** The k-th entry of c's window: the cell k offsets away, or -1 when that falls off the board. */
  lemma WindowEntry(n: nat, c: int, k: nat)
    requires 0 <= c < n * n && k < 8
    ensures var row, col := c / n + RowSteps[k], c % n + ColSteps[k];
      Window(n, Framed(n, c))[k]
        == if 0 <= row < n && 0 <= col < n then Cell(n, row, col) else -1
  {
    var m := n + 2;
    var R, C := c / n + 1, c % n + 1;
    RowColCell(n, c);
    StepFacts(k);
    var dr, dc := RowSteps[k], ColSteps[k];
    WindowOffset(n, Framed(n, c), k);
    CellShift(m, R, C, dr, dc);
    FrameAt(n, R + dr, C + dc);
  }

  /** The neighbours listed for the board cell c. */
  function Listed(n: nat, c: int): seq<int>
    requires 0 <= c < n * n
  {
    DropFrame(Window(n, Framed(n, c)))
  }

  /** Every cell in c's window is adjacent to c. */
  lemma WindowSound(n: nat, c: int, k: nat)
    requires 0 <= c < n * n && k < 8 && Window(n, Framed(n, c))[k] != -1
    ensures Adjacent(n, c, Window(n, Framed(n, c))[k])
  {
    WindowEntry(n, c, k);
    StepFacts(k);
    RowColCell(n, c);
    var row, col := c / n + RowSteps[k], c % n + ColSteps[k];
    CellRowCol(n, row, col);
    CellInBoard(n, row, col);
  }

  /** Every cell adjacent to c is in c's window. */
  lemma WindowComplete(n: nat, c: int, d: int)
    requires Adjacent(n, c, d)
    ensures d in Window(n, Framed(n, c))
  {
    RowColCell(n, c);
    RowColCell(n, d);
    var k := StepsCover(d / n - c / n, d % n - c % n);
    WindowEntry(n, c, k);
  }

  /** The cells in c's window come in increasing order. */
  lemma WindowOrdered(n: nat, c: int, i: nat, j: nat)
    requires 0 <= c < n * n && i < j < 8
    requires Window(n, Framed(n, c))[i] != -1 && Window(n, Framed(n, c))[j] != -1
    ensures Window(n, Framed(n, c))[i] < Window(n, Framed(n, c))[j]
  {
    WindowEntry(n, c, i);
    WindowEntry(n, c, j);
    StepsOrdered(i, j);
    CellOrder(n, c / n + RowSteps[i], c % n + ColSteps[i], c / n + RowSteps[j], c % n + ColSteps[j]);
  }

  /**
   * The list for cell c holds exactly the cells adjacent to c, in increasing
   * order of index; in particular it holds no border value -1, no
   * repetition, and not c itself.
   */
  lemma ListedAreNeighbours(n: nat, c: int)
    requires 0 <= c < n * n
    ensures forall d :: d in Listed(n, c) <==> Adjacent(n, c, d)
    ensures Increasing(Listed(n, c))
  {
    var w := Window(n, Framed(n, c));
    forall d | d in w && d != -1
      ensures Adjacent(n, c, d)
    {
      var k :| 0 <= k < 8 && w[k] == d;
      WindowSound(n, c, k);
    }
    forall d | Adjacent(n, c, d)
      ensures d in w && d != -1
    {
      WindowComplete(n, c, d);
    }
    forall i, j | 0 <= i < j < |w| && w[i] != -1 && w[j] != -1
      ensures w[i] < w[j]
    {
      WindowOrdered(n, c, i, j);
    }
    DropFrameIncreasing(w);
  }

  /**
   * The neighbour table of the n x n board: for each cell, the list of
   * board indices of its neighbours, which holds exactly the adjacent cells
   * in increasing order.
   */
  method GetNeighbors(n: nat) returns (neighbors: map<int, seq<int>>)
    ensures forall c :: c in neighbors <==> 0 <= c < n * n
    ensures forall c :: 0 <= c < n * n ==> neighbors[c] == Listed(n, c)
    ensures forall c, d :: 0 <= c < n * n ==> (d in neighbors[c] <==> Adjacent(n, c, d))
    ensures forall c :: 0 <= c < n * n ==> Increasing(neighbors[c])
  {
    var m := n + 2;
    var frame := Frame(n);
    neighbors := map[];
    for c := 0 to n * n
      invariant forall c' :: c' in neighbors <==> 0 <= c' < c
      invariant forall c' :: 0 <= c' < c ==> neighbors[c'] == Listed(n, c')
    {
      // the inner cells of the framed board, row by row
      var i := Framed(n, c);
      var window := [frame[i - m - 1], frame[i - m], frame[i - m + 1], frame[i - 1],
                     frame[i + 1], frame[i + m - 1], frame[i + m], frame[i + m + 1]];
      assert frame[i] == c by {
        RowColCell(n, c);
        FrameAt(n, c / n + 1, c % n + 1);
      }
      assert window == Window(n, i);
      neighbors := neighbors[frame[i] := DropFrame(window)];
    }
    forall c | 0 <= c < n * n {
      ListedAreNeighbours(n, c);
    }
  }
}
