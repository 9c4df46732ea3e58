/**
  What the row engine and the column engine read back after any run, each on its own: a list with one place
  for every row, followed through the operations without looking at either engine's layout.
*/
module StoreReads {

  import opened StoreSpec

  // ---------- The row engine ----------

  function Seen(row: RowValue): Selected {
    if row.deleted then NotFound else Found(row.cells)
  }

  function SeenAll(rows: seq<RowValue>): (s: seq<Selected>)
    ensures |s| == |rows| && forall i :: 0 <= i < |rows| ==> s[i] == Seen(rows[i])
  {
    seq(|rows|, i requires 0 <= i < |rows| => Seen(rows[i]))
  }

  function OnlyFound(places: seq<Selected>): seq<Selected> {
    if places == [] then []
    else OnlyFound(places[..|places| - 1]) + if places[|places| - 1].Found? then [places[|places| - 1]] else []
  }

  /** Insertions add places at the end; the others name a place by its number, from 1 on; optimizing closes the gaps. */
  function PlaceStep(places: seq<Selected>, op: Op): seq<Selected> {
    match op
    case Insert(row) => places + [Seen(row)]
    case BatchInsert(rows) => places + SeenAll(rows)
    case Update(id, row) => if 1 <= id <= |places| then places[id - 1 := Seen(row)] else places
    case Delete(id) => if 1 <= id <= |places| then places[id - 1 := NotFound] else places
    case Optimize => OnlyFound(places)
  }

  function Places(ops: seq<Op>): seq<Selected> {
    if ops == [] then [] else PlaceStep(Places(ops[..|ops| - 1]), ops[|ops| - 1])
  }

  lemma {:induction false} KeptIsFound(rows: seq<RowValue>)
    ensures OnlyFound(SeenAll(rows)) == SeenAll(Kept(rows)) && |Kept(rows)| <= |rows|
  {
    if rows != [] {
      var front := rows[..|rows| - 1];
      KeptIsFound(front);
      assert SeenAll(rows)[..|rows| - 1] == SeenAll(front);
      assert SeenAll(Kept(rows)) == SeenAll(Kept(front)) + if rows[|rows| - 1].deleted then [] else [Seen(rows[|rows| - 1])];
    }
  }

  lemma RowStepPlaces(s: RowState, op: Op, places: seq<Selected>)
    requires s.capacity > 0 && places == SeenAll(s.rows) && |s.rows| < s.nextRowId
    ensures var s', ok := RowStep(s, op).0, RowStep(s, op).1;
            && |s'.rows| < s'.nextRowId
            && SeenAll(s'.rows) == PlaceStep(places, op)
  {
    hide Kept, OnlyFound;
    KeptIsFound(s.rows);
  }

  lemma {:induction false} RowPlaces(ops: seq<Op>)
    ensures SeenAll(RowRun(ops).rows) == Places(ops) && |RowRun(ops).rows| < RowRun(ops).nextRowId
  {
    hide RowStep, PlaceStep;
    if ops != [] {
      RowPlaces(ops[..|ops| - 1]);
      RowStepPlaces(RowRun(ops[..|ops| - 1]), ops[|ops| - 1], Places(ops[..|ops| - 1]));
    }
  }

  /** After any run the row engine finds under an id what is in that place, and changes places exactly as named. */
  lemma RowReads(ops: seq<Op>, id: nat)
    ensures RowSelect(RowRun(ops), id) == if 1 <= id <= |Places(ops)| then Places(ops)[id - 1] else NotFound
    ensures var places := |Places(ops)|;
            && (forall row :: RowStep(RowRun(ops), Insert(row)).1 && (RowStep(RowRun(ops), Update(id, row)).1 <==> 1 <= id <= places))
            && (RowStep(RowRun(ops), Delete(id)).1 <==> 1 <= id <= places) && RowStep(RowRun(ops), Optimize).1
            && (forall rows :: RowStep(RowRun(ops), BatchInsert(rows)).1 <==> |rows| > 0)
  {
    hide Places, RowRun, Kept;
    RowPlaces(ops);
  }

  // ---------- The column engine ----------

  function CellsOf(rows: seq<RowValue>): (s: seq<seq<Cell>>)
    ensures |s| == |rows| && forall i :: 0 <= i < |rows| ==> s[i] == rows[i].cells
  {
    seq(|rows|, i requires 0 <= i < |rows| => rows[i].cells)
  }

  function NotAllNull(places: seq<seq<Cell>>): seq<seq<Cell>> {
    if places == [] then []
    else NotAllNull(places[..|places| - 1]) + if AllNull(places[|places| - 1]) then [] else [places[|places| - 1]]
  }

  /** The same for the column engine, for which a deleted row is a row of NULLs. */
  function CellPlaces(ops: seq<Op>, width: nat): seq<seq<Cell>> {
    if ops == [] then []
    else
      var places := CellPlaces(ops[..|ops| - 1], width);
      match ops[|ops| - 1]
      case Insert(row) => places + [row.cells]
      case BatchInsert(rows) => places + CellsOf(rows)
      case Update(id, row) => if 1 <= id <= |places| then places[id - 1 := row.cells] else places
      case Delete(id) => if 1 <= id <= |places| then places[id - 1 := NullCells(width)] else places
      case Optimize => NotAllNull(places)
  }

  /** The rows of the table, read across its columns. */
  ghost predicate Holds(c: ColumnState, places: seq<seq<Cell>>) {
    && Rectangular(c) && c.rowCount == |places| < c.nextRowId
    && forall i :: 0 <= i < |places| ==> RowCells(c.columns, i) == places[i]
  }

  lemma InsertHolds(c: ColumnState, places: seq<seq<Cell>>, row: RowValue)
    requires Holds(c, places) && c.capacity > 0 && Fits(row, |c.columns|)
    ensures Holds(ColumnStep(c, Insert(row)).0, places + [row.cells])
  {
    var c' := ColumnStep(c, Insert(row)).0;
    ColumnStepKeepsShape(c, Insert(row));
    forall i | 0 <= i < c.rowCount
      ensures RowCells(c'.columns, i) == RowCells(c.columns, i)
    {
    }
    assert RowCells(c'.columns, c.rowCount) == row.cells;
  }

  lemma BatchHolds(c: ColumnState, places: seq<seq<Cell>>, rows: seq<RowValue>)
    requires Holds(c, places) && c.capacity > 0 && OpFits(BatchInsert(rows), |c.columns|)
    ensures Holds(ColumnStep(c, BatchInsert(rows)).0, places + CellsOf(rows))
  {
    hide RowCells, AppendRows, Fits;
    ColumnStepKeepsShape(c, BatchInsert(rows));
    AppendRowsCells(c, rows, c.capacity);
    var all := places + CellsOf(rows);
    if rows == [] {
      assert all == places;
    } else {
      forall i | 0 <= i < |all|
        ensures RowCells(AppendRows(c.columns, rows), i) == all[i]
      {
        if i >= |places| {
          assert RowCells(AppendRows(c.columns, rows), c.rowCount + (i - |places|)) == rows[i - |places|].cells;
        }
      }
    }
  }

  lemma WriteHolds(c: ColumnState, places: seq<seq<Cell>>, i: nat, cells: seq<Cell>)
    requires Holds(c, places) && i < |places| && |cells| == |c.columns|
    ensures Holds(c.(columns := WriteRow(c.columns, i, cells)), places[i := cells])
  {
    var c' := c.(columns := WriteRow(c.columns, i, cells));
    assert Rectangular(c');
    forall k | 0 <= k < c.rowCount && k != i
      ensures RowCells(c'.columns, k) == RowCells(c.columns, k)
    {
    }
    assert RowCells(c'.columns, i) == cells;
  }

  /** One column after compaction holds, for each row kept, its cell. */
  lemma {:induction false} CompactHolds(c: ColumnState, places: seq<seq<Cell>>, j: nat, n: nat)
    requires Holds(c, places) && j < |c.columns| && n <= c.rowCount
    ensures var kept, col := NotAllNull(places[..n]), Compact(c.columns[j], c.columns, n);
            && |kept| == CountLive(c.columns, n) == |col.values|
            && forall i :: 0 <= i < |kept| ==> |kept[i]| == |c.columns| && col.values[i] == kept[i][j]
  {
    hide Live, AllNull;
    if n > 0 {
      CompactHolds(c, places, j, n - 1);
      assert places[..n][..n - 1] == places[..n - 1] && places[..n][n - 1] == RowCells(c.columns, n - 1);
      LiveExactly(c, n - 1);
    }
  }

  lemma LiveExactly(c: ColumnState, i: nat)
    requires Rectangular(c) && i < c.rowCount
    ensures Live(c.columns, i) <==> !AllNull(RowCells(c.columns, i))
  {
    var cells := RowCells(c.columns, i);
    if !AllNull(cells) {
      var j :| 0 <= j < |cells| && cells[j] != Null;
      assert !c.columns[j].nulls[i];
    }
  }

  lemma {:induction false} CountHolds(c: ColumnState, places: seq<seq<Cell>>, n: nat)
    requires Holds(c, places) && n <= c.rowCount
    ensures |NotAllNull(places[..n])| == CountLive(c.columns, n) <= n
    ensures forall cells <- NotAllNull(places[..n]) :: |cells| == |c.columns|
  {
    hide Live, RowCells, AllNull;
    if n > 0 {
      CountHolds(c, places, n - 1);
      assert places[..n][..n - 1] == places[..n - 1] && places[..n][n - 1] == RowCells(c.columns, n - 1);
      LiveExactly(c, n - 1);
    }
  }

  lemma OptimizeHolds(c: ColumnState, places: seq<seq<Cell>>)
    requires Holds(c, places) && c.capacity > 0
    ensures Holds(ColumnStep(c, Optimize).0, NotAllNull(places))
  {
    var c', kept := ColumnStep(c, Optimize).0, NotAllNull(places);
    ColumnStepKeepsShape(c, Optimize);
    CountHolds(c, places, c.rowCount);
    assert places[..c.rowCount] == places;
    forall i | 0 <= i < |kept|
      ensures RowCells(c'.columns, i) == kept[i]
    {
      assert kept[i] in kept;
      forall j | 0 <= j < |c.columns|
        ensures c'.columns[j].values[i] == kept[i][j]
      {
        CompactHolds(c, places, j, c.rowCount);
      }
    }
  }

  lemma {:induction false} ColumnHolds(ops: seq<Op>, width: nat)
    requires AllFit(ops, width)
    ensures Holds(ColumnRun(ops, width), CellPlaces(ops, width))
  {
    hide Holds, NotAllNull, Rectangular, CompactAll, AppendRow, AppendRows, WriteRow;
    if ops == [] {
      NothingHeld(width);
    } else {
      var front, op := ops[..|ops| - 1], ops[|ops| - 1];
      ColumnHolds(front, width);
      var c, places := ColumnRun(front, width), CellPlaces(front, width);
      HoldsMeans(c, places);
      match op
      case Insert(row) => InsertHolds(c, places, row);
      case BatchInsert(rows) => BatchHolds(c, places, rows);
      case Update(id, row) => if 1 <= id <= |places| { WriteHolds(c, places, id - 1, row.cells); }
      case Delete(id) => if 1 <= id <= |places| { WriteHolds(c, places, id - 1, NullCells(width)); }
      case Optimize => OptimizeHolds(c, places);
    }
  }

  lemma NothingHeld(width: nat)
    ensures Holds(EmptyColumns(width), [])
  {
  }

  lemma HoldsMeans(c: ColumnState, places: seq<seq<Cell>>)
    requires Holds(c, places)
    ensures Rectangular(c) && c.rowCount == |places| < c.nextRowId
  {
  }

  /** After any run the column engine finds under an id the cells in that place, and changes places exactly as named. */
  lemma ColumnReads(ops: seq<Op>, width: nat, id: nat)
    requires AllFit(ops, width)
    ensures ColumnSelect(ColumnRun(ops, width), id)
            == if 1 <= id <= |CellPlaces(ops, width)| then Found(CellPlaces(ops, width)[id - 1]) else NotFound
    ensures ColumnStep(ColumnRun(ops, width), Delete(id)).1 <==> 1 <= id <= |CellPlaces(ops, width)|
    ensures forall row :: Fits(row, width) ==> (ColumnStep(ColumnRun(ops, width), Update(id, row)).1 <==> 1 <= id <= |CellPlaces(ops, width)|)
  {
    hide CellPlaces, ColumnRun;
    ColumnHolds(ops, width);
  }
}
