/**
  The layout of the dot grid: a column count per view, the cell sequence cut
  into rows of that width, and whether the grid scrolls.
 */
module DotGrid {
  import opened Calendar
  import opened TimeUtils

  /** Columns per view: a week per row for the month, a dense 16 for the year,
      a decade per row for a life. */
  function Columns(view: ViewType): (c: int)
    ensures c > 0
  {
    match view
    case Month => 7
    case Year => 16
    case Life => 10
  }

  /** The rows joined back together, in order. */
  function Flatten<T>(rows: seq<seq<T>>): seq<T> {
    if |rows| == 0 then [] else rows[0] + Flatten(rows[1..])
  }

  /** The number of rows of `columns` cells that hold `n` cells: n / columns rounded up. */
  function RowCount(n: nat, columns: int): nat
    requires columns > 0
  {
    (n + columns - 1) / columns
  }

  /** The slice of cells from `start`, at most `columns` long, as JavaScript's
      `slice(start, start + columns)` clips it to the end. */
  function RowAt<T>(cells: seq<T>, start: nat, columns: int): seq<T>
    requires start <= |cells| && columns > 0
  {
    cells[start .. Min(start + columns, |cells|)]
  }

  /** The reference chunking, defined by recursion: the first row, then the
      chunking of what is left. */
  function Chunk<T>(cells: seq<T>, columns: int): seq<seq<T>>
    requires columns > 0
    decreases |cells|
  {
    if |cells| == 0 then []
    else [RowAt(cells, 0, columns)] + Chunk(cells[Min(columns, |cells|)..], columns)
  }

  /** Joining the rows gives back the cells: no cell is lost, duplicated or moved. */
  lemma {:induction false} ChunkFlattens<T>(cells: seq<T>, columns: int)
    requires columns > 0
    ensures Flatten(Chunk(cells, columns)) == cells
    decreases |cells|
  {
    if |cells| > 0 {
      var k := Min(columns, |cells|);
      var rows := Chunk(cells, columns);
      ChunkFlattens(cells[k..], columns);
      assert rows[1..] == Chunk(cells[k..], columns);
      assert cells[..k] + cells[k..] == cells;
    }
  }

  /** Every row holds one to `columns` cells, and every row but the last is full. */
  lemma {:induction false} ChunkRowSizes<T>(cells: seq<T>, columns: int)
    requires columns > 0
    ensures forall r :: 0 <= r < |Chunk(cells, columns)| ==> 0 < |Chunk(cells, columns)[r]| <= columns
    ensures forall r :: 0 <= r < |Chunk(cells, columns)| - 1 ==> |Chunk(cells, columns)[r]| == columns
    decreases |cells|
  {
    if |cells| > 0 {
      var k := Min(columns, |cells|);
      var rows := Chunk(cells, columns);
      var rest := Chunk(cells[k..], columns);
      ChunkRowSizes(cells[k..], columns);
      assert forall r :: 1 <= r < |rows| ==> rows[r] == rest[r - 1];
      if |rows| > 1 {
        assert k == columns;
      }
    }
  }

  lemma MulMonotone(a: int, b: int, c: int)
    requires c > 0 && a < b
    ensures a * c + c <= b * c
  {
    var d := b - a;
    assert d >= 1;
    assert b * c == a * c + d * c;
    assert d * c >= c;
  }

  /** Euclidean division by `c` is the `k` whose multiple brackets `m`. */
  lemma DivOfBracketed(m: int, c: int, k: int)
    requires c > 0 && k * c <= m < k * c + c
    ensures m / c == k
  {
    var q := m / c;
    assert m == q * c + m % c;
    if q > k {
      MulMonotone(k, q, c);
    } else if q < k {
      MulMonotone(q, k, c);
    }
  }

  /** Taking one full row off removes one row from the rounded-up count. */
  lemma RowCountStep(n: nat, columns: int)
    requires columns > 0 && n > columns
    ensures RowCount(n, columns) == 1 + RowCount(n - columns, columns)
  {
    var k := RowCount(n - columns, columns);
    var m := n - columns + columns - 1;
    assert k * columns <= m < k * columns + columns by {
      assert m == k * columns + m % columns;
    }
    assert (k + 1) * columns == k * columns + columns;
    DivOfBracketed(n + columns - 1, columns, k + 1);
  }

  /** There are `|cells| / columns` rows, rounded up. */
  lemma {:induction false} ChunkCount<T>(cells: seq<T>, columns: int)
    requires columns > 0
    ensures |Chunk(cells, columns)| == RowCount(|cells|, columns)
    decreases |cells|
  {
    if |cells| == 0 {
      DivOfBracketed(columns - 1, columns, 0);
    } else if |cells| <= columns {
      assert Chunk(cells[|cells|..], columns) == [];
      DivOfBracketed(|cells| + columns - 1, columns, 1);
    } else {
      ChunkCount(cells[columns..], columns);
      RowCountStep(|cells|, columns);
    }
  }

  /** The index of the first cell of row `r`, one full row after another. */
  function RowStart(r: nat, columns: int): nat
    requires columns > 0
  {
    if r == 0 then 0 else RowStart(r - 1, columns) + columns
  }

  lemma {:induction false} RowStartIsProduct(r: nat, columns: int)
    requires columns > 0
    ensures RowStart(r, columns) == r * columns
  {
    if r > 0 {
      RowStartIsProduct(r - 1, columns);
      assert (r - 1) * columns + columns == r * columns;
    }
  }

  /** A row of the cells after the first `k` is a row of the cells, `k` further on. */
  lemma RowAtShift<T>(cells: seq<T>, k: nat, s: nat, columns: int)
    requires columns > 0 && k <= |cells| && s <= |cells| - k
    ensures RowAt(cells[k..], s, columns) == RowAt(cells, k + s, columns)
  {
  }

  /** Row `r` starts inside the cells and is the slice from its row start. */
  lemma {:induction false} ChunkRowFrom<T>(cells: seq<T>, columns: int, r: nat)
    requires columns > 0 && r < |Chunk(cells, columns)|
    ensures RowStart(r, columns) < |cells|
    ensures Chunk(cells, columns)[r] == RowAt(cells, RowStart(r, columns), columns)
    decreases r
  {
    if r > 0 {
      var rest := cells[Min(columns, |cells|)..];
      assert |rest| > 0 && |cells| > columns;
      var s := RowStart(r - 1, columns);
      ChunkRowFrom(rest, columns, r - 1);
      calc {
        Chunk(cells, columns)[r];
        Chunk(rest, columns)[r - 1];
        RowAt(rest, s, columns);
        { RowAtShift(cells, columns, s, columns); }
        RowAt(cells, columns + s, columns);
      }
    }
  }

  /** Row `r` is the slice that starts at cell `r * columns`. */
  lemma ChunkRowAt<T>(cells: seq<T>, columns: int, r: nat)
    requires columns > 0 && r < |Chunk(cells, columns)|
    ensures r * columns < |cells|
    ensures Chunk(cells, columns)[r] == RowAt(cells, r * columns, columns)
  {
    ChunkRowFrom(cells, columns, r);
    RowStartIsProduct(r, columns);
  }

  /** Row `r`, position `c` holds cell `r * columns + c`. */
  lemma ChunkPosition<T>(cells: seq<T>, columns: int, r: nat, c: nat)
    requires columns > 0 && r < |Chunk(cells, columns)| && c < |Chunk(cells, columns)[r]|
    ensures r * columns + c < |cells|
    ensures Chunk(cells, columns)[r][c] == cells[r * columns + c]
  {
    ChunkRowAt(cells, columns, r);
  }

  /** One pass of the row loop: the row at `i`, then the chunking from `i + columns`. */
  lemma ChunkFrom<T>(cells: seq<T>, columns: int, i: nat)
    requires columns > 0 && i < |cells|
    ensures Chunk(cells[i..], columns)
            == [RowAt(cells, i, columns)] + Chunk(cells[Min(i + columns, |cells|)..], columns)
  {
    var rest := cells[i..];
    assert RowAt(rest, 0, columns) == RowAt(cells, i, columns);
    assert rest[Min(columns, |rest|)..] == cells[Min(i + columns, |cells|)..];
  }

  /** The row loop keeps its invariant: the rows so far, followed by the
      chunking of the cells not yet visited, are the chunking of all cells. */
  lemma ChunkLoopStep<T>(cells: seq<T>, columns: int, rows: seq<seq<T>>, i: nat)
    requires columns > 0 && i < |cells|
    requires rows + Chunk(cells[i..], columns) == Chunk(cells, columns)
    ensures (rows + [RowAt(cells, i, columns)]) + Chunk(cells[Min(i + columns, |cells|)..], columns)
            == Chunk(cells, columns)
  {
    ChunkFrom(cells, columns, i);
    var row := RowAt(cells, i, columns);
    var tail := Chunk(cells[Min(i + columns, |cells|)..], columns);
    assert (rows + [row]) + tail == rows + ([row] + tail);
  }

  /** The row loop of the grid: slices of `columns` cells from index 0,
      `columns`, `2 * columns`, ... while the index is inside the sequence. */
  method BuildRows<T>(cells: seq<T>, columns: int) returns (rows: seq<seq<T>>)
    requires columns > 0
    ensures rows == Chunk(cells, columns)
  {
    rows := [];
    var i := 0;
    while i < |cells|
      invariant 0 <= i
      invariant rows + Chunk(cells[Min(i, |cells|)..], columns) == Chunk(cells, columns)
    {
      ChunkLoopStep(cells, columns, rows, i);
      rows := rows + [RowAt(cells, i, columns)];
      i := i + columns;
    }
    assert cells[Min(i, |cells|)..] == [];
  }

  /** What the grid component draws: the rows, their width, and whether the
      grid sits in a vertical scroll view. */
  datatype Grid = Grid(columns: int, rows: seq<seq<DotCell>>, isScrollable: bool)

  method Layout(t: TimeData, view: ViewType, now: Date) returns (g: Grid)
    requires now.Valid()
    ensures g.columns == Columns(view)
    ensures g.isScrollable <==> view.Year?
    ensures CellsMatch(Flatten(g.rows), t, TodayIndex(view, now))
    ensures |g.rows| == RowCount(CellCount(t), g.columns)
    ensures forall r :: 0 <= r < |g.rows| ==> 0 < |g.rows[r]| <= g.columns
    ensures forall r :: 0 <= r < |g.rows| - 1 ==> |g.rows[r]| == g.columns
  {
    var cells := GenerateDotCells(t, view, now);
    var columns := Columns(view);
    var rows := BuildRows(cells, columns);
    ChunkFlattens(cells, columns);
    ChunkCount(cells, columns);
    ChunkRowSizes(cells, columns);
    g := Grid(columns, rows, view.Year?);
  }

  /** The shape of the grid for the summary of the current date: four or five
      week rows for a month (four only for a 28-day February), 23 rows for a
      year, and nine rows for a life, the last holding five years. */
  lemma GridShape(view: ViewType, birthYear: int, now: Date)
    requires now.Valid()
    ensures var t := GetTimeData(view, birthYear, now);
      var rows := RowCount(t.totalDays, Columns(view));
      && (view.Month? ==> (rows == 4 <==> t.totalDays == 28) && 4 <= rows <= 5)
      && (view.Year? ==> rows == 23)
      && (view.Life? ==> rows == 9 && t.totalDays - (rows - 1) * Columns(view) == 5)
  {
    var t := GetTimeData(view, birthYear, now);
    if view.Month? {
      assert 28 <= t.totalDays <= 31;
    }
  }
}
