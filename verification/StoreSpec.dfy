/**
  The row engine and the column engine (src/storage/row_engine.c, src/storage/column_engine.c) as two
  state machines over the same operations, and the relation that ties them together.

  A row id is a position plus one, as both engines look rows up. Values are opaque strings; a NULL
  cell is `Null`.
*/
module StoreSpec {

  datatype Cell = Null | Value(bytes: string)

  /** A row as a caller supplies it or the row engine stores it. */
  datatype RowValue = RowValue(cells: seq<Cell>, deleted: bool)

  datatype RowState = RowState(rows: seq<RowValue>, nextRowId: nat, capacity: nat)

  datatype Column = Column(values: seq<Cell>, nulls: seq<bool>)

  datatype ColumnState = ColumnState(columns: seq<Column>, rowCount: nat, nextRowId: nat, capacity: nat)

  datatype Op =
    | Insert(row: RowValue)
    | BatchInsert(rows: seq<RowValue>)
    | Update(id: nat, row: RowValue)
    | Delete(id: nat)
    | Optimize

  const INITIAL_CAPACITY: nat := 1024

  // ---------- Shared arithmetic ----------

  function GrowForOne(count: nat, capacity: nat): nat {
    if count >= capacity then capacity * 2 else capacity
  }

  /** The doubling loop of the batch inserts. */
  function Double(capacity: nat, needed: nat): (r: nat)
    requires capacity > 0
    ensures r >= needed && r >= capacity
    decreases needed - capacity
  {
    if capacity < needed then Double(capacity * 2, needed) else capacity
  }

  function Shrink(count: nat, capacity: nat): nat {
    if count < capacity / 2 then (if capacity / 2 < INITIAL_CAPACITY then INITIAL_CAPACITY else capacity / 2)
    else capacity
  }

  predicate ValidId(id: nat, nextRowId: nat, count: nat) {
    1 <= id < nextRowId && id - 1 < count
  }

  // ---------- The row engine ----------

  function Kept(rows: seq<RowValue>): seq<RowValue> {
    if rows == [] then []
    else Kept(rows[..|rows| - 1]) + if rows[|rows| - 1].deleted then [] else [rows[|rows| - 1]]
  }

  function RowStep(s: RowState, op: Op): (RowState, bool)
    requires s.capacity > 0
  {
    match op
    case Insert(row) =>
      (RowState(s.rows + [row], s.nextRowId + 1, GrowForOne(|s.rows|, s.capacity)), true)
    case BatchInsert(rows) =>
      if rows == [] then (s, false)
      else (RowState(s.rows + rows, s.nextRowId + |rows|, Double(s.capacity, |s.rows| + |rows|)), true)
    case Update(id, row) =>
      if ValidId(id, s.nextRowId, |s.rows|) then (s.(rows := s.rows[id - 1 := row]), true) else (s, false)
    case Delete(id) =>
      if ValidId(id, s.nextRowId, |s.rows|) then
        (s.(rows := s.rows[id - 1 := s.rows[id - 1].(deleted := true)]), true)
      else (s, false)
    case Optimize =>
      (s.(rows := Kept(s.rows), capacity := Shrink(|Kept(s.rows)|, s.capacity)), true)
  }

  datatype Selected = NotFound | Found(cells: seq<Cell>)

  function RowSelect(s: RowState, id: nat): Selected {
    if ValidId(id, s.nextRowId, |s.rows|) && !s.rows[id - 1].deleted then Found(s.rows[id - 1].cells) else NotFound
  }

  // ---------- The column engine ----------

  /** All columns hold `rowCount` entries, and the mask marks exactly the missing values. */
  ghost predicate Rectangular(c: ColumnState) {
    && (forall j :: 0 <= j < |c.columns| ==> |c.columns[j].values| == c.rowCount && |c.columns[j].nulls| == c.rowCount)
    && (forall j, i :: 0 <= j < |c.columns| && 0 <= i < c.rowCount ==>
          (c.columns[j].nulls[i] <==> c.columns[j].values[i] == Null))
  }

  predicate Fits(row: RowValue, width: nat) {
    |row.cells| == width
  }

  function AppendCell(col: Column, cell: Cell): Column {
    Column(col.values + [cell], col.nulls + [cell.Null?])
  }

  function AppendRow(columns: seq<Column>, cells: seq<Cell>): (r: seq<Column>)
    requires |cells| == |columns|
    ensures |r| == |columns|
  {
    seq(|columns|, j requires 0 <= j < |columns| => AppendCell(columns[j], cells[j]))
  }

  function AppendRows(columns: seq<Column>, rows: seq<RowValue>): (r: seq<Column>)
    requires forall i :: 0 <= i < |rows| ==> Fits(rows[i], |columns|)
    ensures |r| == |columns|
  {
    if rows == [] then columns
    else
      assert Fits(rows[|rows| - 1], |columns|);
      AppendRow(AppendRows(columns, rows[..|rows| - 1]), rows[|rows| - 1].cells)
  }

  function WriteCell(col: Column, i: nat, cell: Cell): Column
    requires i < |col.values| && i < |col.nulls|
  {
    Column(col.values[i := cell], col.nulls[i := cell.Null?])
  }

  function WriteRow(columns: seq<Column>, i: nat, cells: seq<Cell>): (r: seq<Column>)
    requires |cells| == |columns|
    requires forall j :: 0 <= j < |columns| ==> i < |columns[j].values| && i < |columns[j].nulls|
    ensures |r| == |columns|
  {
    seq(|columns|, j requires 0 <= j < |columns| => WriteCell(columns[j], i, cells[j]))
  }

  function NullCells(width: nat): seq<Cell> {
    seq(width, j => Null)
  }

  /** The scan that decides whether `optimize` keeps row `i`: some column has no NULL mark there. */
  predicate Live(columns: seq<Column>, i: nat)
    requires forall j :: 0 <= j < |columns| ==> i < |columns[j].nulls|
  {
    exists j :: 0 <= j < |columns| && !columns[j].nulls[i]
  }

  /** One column after `optimize` has gone through the first `n` rows. */
  function Compact(col: Column, columns: seq<Column>, n: nat): Column
    requires n <= |col.values| && n <= |col.nulls|
    requires forall j :: 0 <= j < |columns| ==> n <= |columns[j].nulls|
  {
    if n == 0 then Column([], [])
    else
      var before := Compact(col, columns, n - 1);
      if Live(columns, n - 1) then Column(before.values + [col.values[n - 1]], before.nulls + [col.nulls[n - 1]])
      else before
  }

  function CountLive(columns: seq<Column>, n: nat): nat
    requires forall j :: 0 <= j < |columns| ==> n <= |columns[j].nulls|
  {
    if n == 0 then 0 else CountLive(columns, n - 1) + if Live(columns, n - 1) then 1 else 0
  }

  function CompactAll(c: ColumnState): seq<Column>
    requires Rectangular(c)
  {
    seq(|c.columns|, j requires 0 <= j < |c.columns| => Compact(c.columns[j], c.columns, c.rowCount))
  }

  ghost predicate OpFits(op: Op, width: nat) {
    match op
    case Insert(row) => Fits(row, width)
    case BatchInsert(rows) => forall i :: 0 <= i < |rows| ==> Fits(rows[i], width)
    case Update(_, row) => Fits(row, width)
    case _ => true
  }

  /** Supplied rows carry one value per column; the deleted flag of a supplied row is not looked at. */
  function ColumnStep(c: ColumnState, op: Op): (ColumnState, bool)
    requires c.capacity > 0 && Rectangular(c) && OpFits(op, |c.columns|)
  {
    match op
    case Insert(row) =>
      (ColumnState(AppendRow(c.columns, row.cells), c.rowCount + 1, c.nextRowId + 1, GrowForOne(c.rowCount, c.capacity)),
       true)
    case BatchInsert(rows) =>
      if rows == [] then (c, false)
      else (ColumnState(AppendRows(c.columns, rows), c.rowCount + |rows|, c.nextRowId + |rows|,
                        Double(c.capacity, c.rowCount + |rows|)), true)
    case Update(id, row) =>
      if ValidId(id, c.nextRowId, c.rowCount) then (c.(columns := WriteRow(c.columns, id - 1, row.cells)), true)
      else (c, false)
    case Delete(id) =>
      if ValidId(id, c.nextRowId, c.rowCount) then
        (c.(columns := WriteRow(c.columns, id - 1, NullCells(|c.columns|))), true)
      else (c, false)
    case Optimize =>
      var kept := CountLive(c.columns, c.rowCount);
      (c.(columns := CompactAll(c), rowCount := kept, capacity := Shrink(kept, c.capacity)), true)
  }

  /** The cells of one row, read across the columns. */
  function RowCells(columns: seq<Column>, i: nat): (cells: seq<Cell>)
    requires forall j :: 0 <= j < |columns| ==> i < |columns[j].values|
    ensures |cells| == |columns| && forall j :: 0 <= j < |columns| ==> cells[j] == columns[j].values[i]
  {
    seq(|columns|, j requires 0 <= j < |columns| => columns[j].values[i])
  }

  function ColumnSelect(c: ColumnState, id: nat): Selected
    requires Rectangular(c)
  {
    if ValidId(id, c.nextRowId, c.rowCount) then Found(RowCells(c.columns, id - 1)) else NotFound
  }

  // ---------- The relation ----------

  predicate AllNull(cells: seq<Cell>) {
    forall j :: 0 <= j < |cells| ==> cells[j] == Null
  }

  /** What position `i` of the two tables has in common: a deleted row is an all-NULL row, and nothing else is. */
  ghost predicate SameRow(row: RowValue, cells: seq<Cell>) {
    if row.deleted then AllNull(cells) else cells == row.cells && !AllNull(cells)
  }

  ghost predicate Related(r: RowState, c: ColumnState) {
    && Rectangular(c)
    && |r.rows| == c.rowCount && r.nextRowId == c.nextRowId && r.capacity == c.capacity
    && (forall i :: 0 <= i < |r.rows| ==> Fits(r.rows[i], |c.columns|))
    && (forall i :: 0 <= i < |r.rows| ==> SameRow(r.rows[i], RowCells(c.columns, i)))
  }

  /** A supplied row both engines understand alike: live with some value, or deleted with none. */
  predicate Agreeable(row: RowValue) {
    row.deleted <==> AllNull(row.cells)
  }

  ghost predicate OpAgreeable(op: Op) {
    match op
    case Insert(row) => Agreeable(row)
    case BatchInsert(rows) => forall i :: 0 <= i < |rows| ==> Agreeable(rows[i])
    case Update(_, row) => Agreeable(row)
    case _ => true
  }

  // ---------- One step ----------

  lemma AppendRowRelated(r: RowState, c: ColumnState, row: RowValue, capacity: nat)
    requires Related(r, c) && Fits(row, |c.columns|)
    ensures Related(RowState(r.rows + [row], r.nextRowId + 1, capacity),
                    ColumnState(AppendRow(c.columns, row.cells), c.rowCount + 1, c.nextRowId + 1, capacity))
            <==> Agreeable(row)
    ensures Rectangular(ColumnState(AppendRow(c.columns, row.cells), c.rowCount + 1, c.nextRowId + 1, capacity))
  {
    var r' := RowState(r.rows + [row], r.nextRowId + 1, capacity);
    var c' := ColumnState(AppendRow(c.columns, row.cells), c.rowCount + 1, c.nextRowId + 1, capacity);
    assert Rectangular(c');
    forall i | 0 <= i < c.rowCount ensures RowCells(c'.columns, i) == RowCells(c.columns, i) {
    }
    assert RowCells(c'.columns, c.rowCount) == row.cells;
    assert forall i :: 0 <= i < |r.rows| ==> r'.rows[i] == r.rows[i];
    assert r'.rows[|r.rows|] == row;
    assert SameRow(row, row.cells) <==> Agreeable(row);
  }

  /** Appending rows one at a time; the capacities are set once, at the end. */
  lemma {:induction false} AppendRowsRelated(r: RowState, c: ColumnState, rows: seq<RowValue>, capacity: nat)
    requires Related(r, c) && forall i :: 0 <= i < |rows| ==> Fits(rows[i], |c.columns|)
    ensures Related(RowState(r.rows + rows, r.nextRowId + |rows|, capacity),
                    ColumnState(AppendRows(c.columns, rows), c.rowCount + |rows|, c.nextRowId + |rows|, capacity))
            <==> forall i :: 0 <= i < |rows| ==> Agreeable(rows[i])
  {
    hide AppendRows, RowCells, SameRow, Agreeable, Fits;
    var c' := ColumnState(AppendRows(c.columns, rows), c.rowCount + |rows|, c.nextRowId + |rows|, capacity);
    var r' := RowState(r.rows + rows, r.nextRowId + |rows|, capacity);
    AppendRowsCells(c, rows, capacity);
    forall i | 0 <= i < |r'.rows|
      ensures Fits(r'.rows[i], |c'.columns|)
      ensures SameRow(r'.rows[i], RowCells(c'.columns, i)) <==> i < |r.rows| || Agreeable(rows[i - |r.rows|])
    {
      if i >= |r.rows| {
        SameAsSupplied(rows[i - |r.rows|]);
      }
    }
    forall i | 0 <= i < |rows|
      ensures Agreeable(rows[i]) <==> SameRow(r'.rows[|r.rows| + i], RowCells(c'.columns, |r.rows| + i))
    {
    }
  }

  lemma SameAsSupplied(row: RowValue)
    ensures SameRow(row, row.cells) <==> Agreeable(row)
  {
  }

  lemma {:induction false} AppendRowsCells(c: ColumnState, rows: seq<RowValue>, capacity: nat)
    requires Rectangular(c) && forall i :: 0 <= i < |rows| ==> Fits(rows[i], |c.columns|)
    ensures Rectangular(ColumnState(AppendRows(c.columns, rows), c.rowCount + |rows|, c.nextRowId + |rows|, capacity))
    ensures forall i :: 0 <= i < c.rowCount ==> RowCells(AppendRows(c.columns, rows), i) == RowCells(c.columns, i)
    ensures forall i :: 0 <= i < |rows| ==> RowCells(AppendRows(c.columns, rows), c.rowCount + i) == rows[i].cells
  {
    if rows != [] {
      var init, last := rows[..|rows| - 1], rows[|rows| - 1];
      AppendRowsCells(c, init, capacity);
      assert Fits(last, |c.columns|);
      var before := AppendRows(c.columns, init);
      var after := AppendRow(before, last.cells);
      assert RowCells(after, c.rowCount + |init|) == last.cells;
      forall i | 0 <= i < c.rowCount + |init| ensures RowCells(after, i) == RowCells(before, i) {
      }
    }
  }

  lemma WriteRowRelated(r: RowState, c: ColumnState, i: nat, row: RowValue, cells: seq<Cell>)
    requires Related(r, c) && i < |r.rows| && Fits(row, |c.columns|) && |cells| == |c.columns|
    ensures Related(r.(rows := r.rows[i := row]), c.(columns := WriteRow(c.columns, i, cells))) <==> SameRow(row, cells)
  {
    var c' := c.(columns := WriteRow(c.columns, i, cells));
    var r' := r.(rows := r.rows[i := row]);
    assert Rectangular(c');
    forall k | 0 <= k < c.rowCount && k != i ensures RowCells(c'.columns, k) == RowCells(c.columns, k) {
    }
    assert RowCells(c'.columns, i) == cells;
    assert r'.rows[i] == row;
  }

  /** Position `i` is live in the columns exactly when the row engine has not marked it deleted. */
  lemma LiveMeansKept(r: RowState, c: ColumnState, i: nat)
    requires Related(r, c) && i < |r.rows|
    ensures Live(c.columns, i) <==> !r.rows[i].deleted
  {
    var cells := RowCells(c.columns, i);
    assert SameRow(r.rows[i], cells);
    if !AllNull(cells) {
      var j :| 0 <= j < |cells| && cells[j] != Null;
      assert !c.columns[j].nulls[i];
    }
  }

  /** Both compactions are the same order-preserving filter, whatever the column. */
  lemma {:induction false} CompactMatches(r: RowState, c: ColumnState, j: nat, n: nat)
    requires Related(r, c) && j < |c.columns| && n <= c.rowCount
    ensures var kept, col := Kept(r.rows[..n]), Compact(c.columns[j], c.columns, n);
            && |kept| == |col.values| == |col.nulls| == CountLive(c.columns, n)
            && forall i :: 0 <= i < |kept| ==>
                 |kept[i].cells| == |c.columns| && !kept[i].deleted && !AllNull(kept[i].cells)
                 && col.values[i] == kept[i].cells[j] && (col.nulls[i] <==> col.values[i] == Null)
  {
    if n > 0 {
      CompactMatches(r, c, j, n - 1);
      LiveMeansKept(r, c, n - 1);
      assert r.rows[..n][..n - 1] == r.rows[..n - 1];
      assert SameRow(r.rows[n - 1], RowCells(c.columns, n - 1)) && Fits(r.rows[n - 1], |c.columns|);
    }
  }

  lemma {:induction false} CountMatches(r: RowState, c: ColumnState, n: nat)
    requires Related(r, c) && n <= c.rowCount
    ensures |Kept(r.rows[..n])| == CountLive(c.columns, n)
    ensures c.columns == [] ==> CountLive(c.columns, n) == 0
    ensures forall row :: row in Kept(r.rows[..n]) ==> !row.deleted && Fits(row, |c.columns|) && !AllNull(row.cells)
  {
    if n > 0 {
      CountMatches(r, c, n - 1);
      LiveMeansKept(r, c, n - 1);
      assert r.rows[..n][..n - 1] == r.rows[..n - 1];
      assert SameRow(r.rows[n - 1], RowCells(c.columns, n - 1)) && Fits(r.rows[n - 1], |c.columns|);
    }
  }

  lemma OptimizeRelated(r: RowState, c: ColumnState)
    requires Related(r, c) && r.capacity > 0
    ensures Related(RowStep(r, Optimize).0, ColumnStep(c, Optimize).0)
  {
    assert r.rows[..c.rowCount] == r.rows;
    CountMatches(r, c, c.rowCount);
    var r', c' := RowStep(r, Optimize).0, ColumnStep(c, Optimize).0;
    forall j | 0 <= j < |c.columns|
      ensures |c'.columns[j].values| == c'.rowCount == |c'.columns[j].nulls|
      ensures forall i :: 0 <= i < c'.rowCount ==>
        c'.columns[j].values[i] == r'.rows[i].cells[j] && (c'.columns[j].nulls[i] <==> c'.columns[j].values[i] == Null)
    {
      CompactMatches(r, c, j, c.rowCount);
    }
    forall i | 0 <= i < |r'.rows| ensures Fits(r'.rows[i], |c.columns|) && SameRow(r'.rows[i], RowCells(c'.columns, i)) {
      assert r'.rows[i] in r'.rows;
      assert RowCells(c'.columns, i) == r'.rows[i].cells;
    }
  }

  /** One operation on related tables: same answer, and they stay related exactly when the rows given are agreeable. */
  lemma StepRelatedExactly(r: RowState, c: ColumnState, op: Op)
    requires Related(r, c) && r.capacity > 0 && OpFits(op, |c.columns|)
    ensures RowStep(r, op).1 == ColumnStep(c, op).1
    ensures Related(RowStep(r, op).0, ColumnStep(c, op).0) <==> (RowStep(r, op).1 ==> OpAgreeable(op))
  {
    match op
    case Insert(row) => AppendRowRelated(r, c, row, GrowForOne(c.rowCount, c.capacity));
    case BatchInsert(rows) =>
      if rows != [] { AppendRowsRelated(r, c, rows, Double(c.capacity, c.rowCount + |rows|)); }
    case Update(id, row) =>
      if RowStep(r, op).1 { WriteRowRelated(r, c, id - 1, row, row.cells); }
    case Delete(id) =>
      if RowStep(r, op).1 {
        assert Fits(r.rows[id - 1], |c.columns|);
        WriteRowRelated(r, c, id - 1, r.rows[id - 1].(deleted := true), NullCells(|c.columns|));
      }
    case Optimize => OptimizeRelated(r, c);
  }

  /** Looking a row up: the column engine answers with the same cells, or with all NULLs where the row engine finds nothing. */
  lemma SelectRelated(r: RowState, c: ColumnState, id: nat)
    requires Related(r, c)
    ensures match (RowSelect(r, id), ColumnSelect(c, id))
            case (Found(cells), Found(cells')) => cells == cells' && !AllNull(cells)
            case (Found(_), NotFound) => false
            case (NotFound, Found(cells')) => AllNull(cells')
            case (NotFound, NotFound) => !ValidId(id, r.nextRowId, |r.rows|)
  {
    if ValidId(id, r.nextRowId, |r.rows|) {
      assert SameRow(r.rows[id - 1], RowCells(c.columns, id - 1));
    }
  }

  // ---------- Runs ----------

  const EMPTY_ROWS := RowState([], 1, INITIAL_CAPACITY)

  function EmptyColumns(width: nat): ColumnState {
    ColumnState(seq(width, j => Column([], [])), 0, 1, INITIAL_CAPACITY)
  }

  function RowRun(ops: seq<Op>): (s: RowState)
    ensures s.capacity > 0
  {
    if ops == [] then EMPTY_ROWS else
      var s := RowRun(ops[..|ops| - 1]);
      PositiveCapacity(s, ops[|ops| - 1]);
      RowStep(s, ops[|ops| - 1]).0
  }

  lemma PositiveCapacity(s: RowState, op: Op)
    requires s.capacity > 0
    ensures RowStep(s, op).0.capacity > 0
  {
  }

  lemma {:induction false} CompactShape(c: ColumnState, j: nat, n: nat)
    requires Rectangular(c) && j < |c.columns| && n <= c.rowCount
    ensures var col := Compact(c.columns[j], c.columns, n);
            && |col.values| == |col.nulls| == CountLive(c.columns, n)
            && forall i :: 0 <= i < |col.values| ==> (col.nulls[i] <==> col.values[i] == Null)
  {
    if n > 0 {
      CompactShape(c, j, n - 1);
    }
  }

  /** The column engine keeps its columns equally long and its masks right, whatever rows it is given. */
  lemma ColumnStepKeepsShape(c: ColumnState, op: Op)
    requires c.capacity > 0 && Rectangular(c) && OpFits(op, |c.columns|)
    ensures var c' := ColumnStep(c, op).0; Rectangular(c') && c'.capacity > 0 && |c'.columns| == |c.columns|
  {
    match op
    case BatchInsert(rows) => AppendRowsCells(c, rows, c.capacity);
    case Optimize =>
      forall j | 0 <= j < |c.columns|
        ensures var col := Compact(c.columns[j], c.columns, c.rowCount);
                && |col.values| == |col.nulls| == CountLive(c.columns, c.rowCount)
                && forall i :: 0 <= i < |col.values| ==> (col.nulls[i] <==> col.values[i] == Null)
      {
        CompactShape(c, j, c.rowCount);
      }
    case _ =>
  }

  ghost predicate AllFit(ops: seq<Op>, width: nat) {
    forall i :: 0 <= i < |ops| ==> OpFits(ops[i], width)
  }

  ghost function ColumnRun(ops: seq<Op>, width: nat): (s: ColumnState)
    requires AllFit(ops, width)
    ensures s.capacity > 0 && Rectangular(s) && |s.columns| == width
  {
    if ops == [] then EmptyColumns(width) else
      var s := ColumnRun(ops[..|ops| - 1], width);
      ColumnStepKeepsShape(s, ops[|ops| - 1]);
      ColumnStep(s, ops[|ops| - 1]).0
  }

  ghost predicate RelatedAfter(ops: seq<Op>, width: nat)
    requires AllFit(ops, width)
  {
    Related(RowRun(ops), ColumnRun(ops, width))
  }

  /** Every operation that took effect was given agreeable rows. */
  ghost predicate AgreeableRun(ops: seq<Op>) {
    ops == [] ||
    (AgreeableRun(ops[..|ops| - 1])
     && (RowStep(RowRun(ops[..|ops| - 1]), ops[|ops| - 1]).1 ==> OpAgreeable(ops[|ops| - 1])))
  }

  lemma RelatedThroughout(ops: seq<Op>, width: nat)
    requires AllFit(ops, width) && ops != []
    ensures var init := ops[..|ops| - 1];
            (forall n: nat | n <= |ops| :: RelatedAfter(ops[..n], width))
            <==> (forall n: nat | n <= |init| :: RelatedAfter(init[..n], width)) && RelatedAfter(ops, width)
  {
    hide RelatedAfter;
    var init := ops[..|ops| - 1];
    assert ops[..|ops|] == ops;
    assert forall n: nat | n <= |init| :: ops[..n] == init[..n];
  }

  /** The two engines stay in step through a whole run exactly when the run is agreeable. */
  lemma {:induction false} RunsRelatedExactly(ops: seq<Op>, width: nat)
    requires AllFit(ops, width)
    ensures (forall n: nat | n <= |ops| :: RelatedAfter(ops[..n], width)) <==> AgreeableRun(ops)
  {
    if ops == [] {
      assert ops[..0] == [];
    } else {
      var init := ops[..|ops| - 1];
      RunsRelatedExactly(init, width);
      RelatedThroughout(ops, width);
      assert init[..|init|] == init;
      if RelatedAfter(init, width) {
        StepRelatedExactly(RowRun(init), ColumnRun(init, width), ops[|ops| - 1]);
      }
    }
  }

  /** So, after an agreeable run, the next operation and every lookup are answered alike. */
  lemma RunsAnswerAlike(ops: seq<Op>, width: nat, op: Op, id: nat)
    requires AllFit(ops, width) && OpFits(op, width) && AgreeableRun(ops)
    ensures RowStep(RowRun(ops), op).1 == ColumnStep(ColumnRun(ops, width), op).1
    ensures match (RowSelect(RowRun(ops), id), ColumnSelect(ColumnRun(ops, width), id))
            case (Found(cells), Found(cells')) => cells == cells' && !AllNull(cells)
            case (Found(_), NotFound) => false
            case (NotFound, Found(cells')) => AllNull(cells')
            case (NotFound, NotFound) => true
  {
    RunsRelatedExactly(ops, width);
    assert RelatedAfter(ops[..|ops|], width) && ops[..|ops|] == ops;
    StepRelatedExactly(RowRun(ops), ColumnRun(ops, width), op);
    SelectRelated(RowRun(ops), ColumnRun(ops, width), id);
  }

  /** A live row of NULLs only is kept by one compaction and dropped by the other. */
  lemma AllNullRowDiverges()
    ensures var ops := [Insert(RowValue([Null], false)), Optimize];
            AllFit(ops, 1) && |RowRun(ops).rows| == 1 && ColumnRun(ops, 1).rowCount == 0
  {
    hide RowRun, ColumnRun, RowStep, ColumnStep;
    var insert := Insert(RowValue([Null], false));
    var ops, one := [insert, Optimize], [insert];
    assert ops[..|ops| - 1] == one && one[..|one| - 1] == [];
    assert one[0] == insert && AllFit(one, 1) && AllFit(ops, 1);
    RunUnfolds(ops, 1);
    RunUnfolds(one, 1);
    AllNullSteps();
  }

  lemma RunUnfolds(ops: seq<Op>, width: nat)
    requires AllFit(ops, width) && ops != []
    ensures RowRun([]) == EMPTY_ROWS && ColumnRun([], width) == EmptyColumns(width)
    ensures AllFit(ops[..|ops| - 1], width)
    ensures RowRun(ops) == RowStep(RowRun(ops[..|ops| - 1]), ops[|ops| - 1]).0
    ensures ColumnRun(ops, width) == ColumnStep(ColumnRun(ops[..|ops| - 1], width), ops[|ops| - 1]).0
  {
  }

  lemma AllNullSteps()
    ensures var insert := Insert(RowValue([Null], false));
            var r, c := RowStep(EMPTY_ROWS, insert).0, ColumnStep(EmptyColumns(1), insert).0;
            |RowStep(r, Optimize).0.rows| == 1 && ColumnStep(c, Optimize).0.rowCount == 0
  {
    hide Kept, CountLive, AppendRow, EmptyColumns, CompactAll;
    var row := RowValue([Null], false);
    OneRowKept(row);
    assert EMPTY_ROWS.rows + [row] == [row];
    OneNullColumn(row);
  }

  lemma OneRowKept(row: RowValue)
    requires !row.deleted
    ensures Kept([row]) == [row]
  {
    assert [row][..0] == [];
  }

  lemma OneNullColumn(row: RowValue)
    requires row == RowValue([Null], false)
    ensures var c := ColumnStep(EmptyColumns(1), Insert(row)).0;
            && c.columns == [Column([Null], [true])] && c.rowCount == 1
            && CountLive(c.columns, 1) == 0
  {
    var c := ColumnStep(EmptyColumns(1), Insert(row)).0;
    assert c.columns[0] == Column([Null], [true]);
    assert !Live(c.columns, 0) && CountLive(c.columns, 0) == 0;
  }
}
