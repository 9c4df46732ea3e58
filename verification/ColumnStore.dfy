/**
  The column table of src/storage/column_engine.c as it runs: one object per column with its value
  and null-mask arrays, written, cleared and compacted in place. Each method makes exactly the step
  of `StoreSpec`. A copied value is the same value; how many bytes a type takes is not modelled.
*/
module ColumnStore {
  import opened StoreSpec

  class ColumnData {
    var values: array<Cell>
    var nullMask: array<bool>

    constructor (capacity: nat)
      ensures values.Length == capacity && nullMask.Length == capacity && fresh(values) && fresh(nullMask)
    {
      values := new Cell[capacity](_ => Null);
      nullMask := new bool[capacity](_ => false);
    }

    /** Everything in the two arrays, the unused slots included. */
    ghost function Content(): Column
      reads this, values, nullMask
    {
      Column(values[..], nullMask[..])
    }

    method Write(i: nat, cell: Cell, isNull: bool)
      requires i < values.Length && i < nullMask.Length
      modifies values, nullMask
      ensures Content() == Column(old(values[..])[i := cell], old(nullMask[..])[i := isNull])
    {
      values[i] := cell;
      nullMask[i] := isNull;
    }

    /** `column_engine_expand_column`, and the same `realloc` when `optimize` shrinks: the first `n` entries stay. */
    method Reallocate(n: nat, capacity: nat)
      requires n <= values.Length && n <= nullMask.Length && n <= capacity
      modifies this
      ensures values.Length == capacity && nullMask.Length == capacity && fresh(values) && fresh(nullMask)
      ensures values[..n] == old(values[..n]) && nullMask[..n] == old(nullMask[..n])
    {
      var newValues := new Cell[capacity](_ => Null);
      var newMask := new bool[capacity](_ => false);
      for i := 0 to n
        invariant values == old(values) && nullMask == old(nullMask)
        invariant forall k :: 0 <= k < i ==> newValues[k] == values[k] && newMask[k] == nullMask[k]
      {
        newValues[i] := values[i];
        newMask[i] := nullMask[i];
      }
      values, nullMask := newValues, newMask;
    }
  }

  // ---------- Columns with unused slots ----------

  ghost predicate Full(data: seq<Column>, capacity: nat) {
    forall j :: 0 <= j < |data| ==> |data[j].values| == capacity && |data[j].nulls| == capacity
  }

  /** The first `n` entries of every column. */
  ghost function Cut(data: seq<Column>, n: nat): (r: seq<Column>)
    requires forall j :: 0 <= j < |data| ==> n <= |data[j].values| && n <= |data[j].nulls|
    ensures |r| == |data|
    ensures forall j :: 0 <= j < |data| ==> r[j] == Column(data[j].values[..n], data[j].nulls[..n])
  {
    seq(|data|, j requires 0 <= j < |data| && n <= |data[j].values| && n <= |data[j].nulls| =>
      Column(data[j].values[..n], data[j].nulls[..n]))
  }

  lemma WriteThenCut(data: seq<Column>, n: nat, cells: seq<Cell>)
    requires |cells| == |data| && forall j :: 0 <= j < |data| ==> n < |data[j].values| && n < |data[j].nulls|
    ensures Cut(WriteRow(data, n, cells), n + 1) == AppendRow(Cut(data, n), cells)
  {
    forall j | 0 <= j < |data| ensures Cut(WriteRow(data, n, cells), n + 1)[j] == AppendRow(Cut(data, n), cells)[j] {
    }
  }

  lemma CutThenWrite(data: seq<Column>, n: nat, i: nat, cells: seq<Cell>)
    requires |cells| == |data| && i < n && forall j :: 0 <= j < |data| ==> n <= |data[j].values| && n <= |data[j].nulls|
    ensures Cut(WriteRow(data, i, cells), n) == WriteRow(Cut(data, n), i, cells)
  {
    forall j | 0 <= j < |data| ensures Cut(WriteRow(data, i, cells), n)[j] == WriteRow(Cut(data, n), i, cells)[j] {
    }
  }

  /** The table's value, from everything the columns hold. */
  ghost function ValueOf(data: seq<Column>, rowCount: nat, nextRowId: nat, capacity: nat): ColumnState
    requires rowCount <= capacity && Full(data, capacity)
  {
    ColumnState(Cut(data, rowCount), rowCount, nextRowId, capacity)
  }

  lemma AppendKeepsShape(c: ColumnState, cells: seq<Cell>)
    requires Rectangular(c) && |cells| == |c.columns|
    ensures Rectangular(c.(columns := AppendRow(c.columns, cells), rowCount := c.rowCount + 1))
  {
  }

  lemma WriteKeepsShape(c: ColumnState, i: nat, cells: seq<Cell>)
    requires Rectangular(c) && |cells| == |c.columns| && i < c.rowCount
    ensures Rectangular(c.(columns := WriteRow(c.columns, i, cells)))
  {
  }

  ghost function MovedEntry(col: Column, i: nat, target: nat): Column
    requires target <= i < |col.values| && i < |col.nulls|
  {
    Column(col.values[target := col.values[i]], col.nulls[target := col.nulls[i]])
  }

  ghost function MovedRow(data: seq<Column>, i: nat, target: nat): (r: seq<Column>)
    requires forall j :: 0 <= j < |data| ==> target <= i < |data[j].values| && i < |data[j].nulls|
    ensures |r| == |data| && forall j :: 0 <= j < |data| ==> r[j] == MovedEntry(data[j], i, target)
  {
    seq(|data|, j requires 0 <= j < |data| => MovedEntry(data[j], i, target))
  }

  ghost function ClearedRow(data: seq<Column>, i: nat): (r: seq<Column>)
    requires forall j :: 0 <= j < |data| ==> i < |data[j].values|
    ensures |r| == |data| && forall j :: 0 <= j < |data| ==> r[j] == Column(data[j].values[i := Null], data[j].nulls)
  {
    seq(|data|, j requires 0 <= j < |data| => Column(data[j].values[i := Null], data[j].nulls))
  }

  /** One column after compaction has dealt with the first `i` rows: `n` kept ones, and the rest as it was. */
  ghost predicate PackedColumn(col: Column, table: ColumnState, j: nat, n: nat, i: nat)
    requires Rectangular(table) && n <= i <= table.rowCount && j < |table.columns|
  {
    && |col.values| >= table.rowCount && |col.nulls| >= table.rowCount
    && Column(col.values[..n], col.nulls[..n]) == Compact(table.columns[j], table.columns, i)
    && (forall k :: i <= k < table.rowCount ==>
          col.values[k] == table.columns[j].values[k] && col.nulls[k] == table.columns[j].nulls[k])
  }

  ghost predicate Packed(data: seq<Column>, table: ColumnState, n: nat, i: nat)
    requires Rectangular(table) && n <= i <= table.rowCount
    ensures Packed(data, table, n, i) ==> |data| == |table.columns|
  {
    |data| == |table.columns| && forall j :: 0 <= j < |data| ==> PackedColumn(data[j], table, j, n, i)
  }

  lemma PackedStart(data: seq<Column>, rowCount: nat, nextRowId: nat, capacity: nat)
    requires rowCount <= capacity && Full(data, capacity) && Rectangular(ValueOf(data, rowCount, nextRowId, capacity))
    ensures Packed(data, ValueOf(data, rowCount, nextRowId, capacity), 0, 0)
  {
  }

  lemma PackedLive(data: seq<Column>, table: ColumnState, n: nat, i: nat)
    requires Rectangular(table) && n <= i < table.rowCount && Packed(data, table, n, i)
    ensures forall j :: 0 <= j < |data| ==> i < |data[j].nulls|
    ensures Live(data, i) <==> Live(table.columns, i)
  {
    hide Compact;
    forall j | 0 <= j < |data| ensures i < |data[j].nulls| && data[j].nulls[i] == table.columns[j].nulls[i] {
      assert PackedColumn(data[j], table, j, n, i);
    }
  }

  lemma PackedMove(data: seq<Column>, table: ColumnState, n: nat, i: nat)
    requires Rectangular(table) && n <= i < table.rowCount && Packed(data, table, n, i) && Live(table.columns, i)
    ensures forall j :: 0 <= j < |data| ==> n <= i < |data[j].values| && i < |data[j].nulls|
    ensures Packed(MovedRow(data, i, n), table, n + 1, i + 1)
    ensures n == i ==> MovedRow(data, i, n) == data
  {
    hide Live;
    forall j | 0 <= j < |data|
      ensures n <= i < |data[j].values| && i < |data[j].nulls| && PackedColumn(MovedEntry(data[j], i, n), table, j, n + 1, i + 1)
    {
      assert PackedColumn(data[j], table, j, n, i);
    }
    forall j | 0 <= j < |data| && n == i ensures MovedEntry(data[j], i, n) == data[j] {
    }
  }

  lemma PackedClear(data: seq<Column>, table: ColumnState, n: nat, i: nat)
    requires Rectangular(table) && n <= i < table.rowCount && Packed(data, table, n, i) && !Live(table.columns, i)
    ensures forall j :: 0 <= j < |data| ==> i < |data[j].values|
    ensures Packed(ClearedRow(data, i), table, n, i + 1)
  {
    hide Rectangular, Live;
    forall j | 0 <= j < |data|
      ensures i < |data[j].values| && PackedColumn(Column(data[j].values[i := Null], data[j].nulls), table, j, n, i + 1)
    {
      assert PackedColumn(data[j], table, j, n, i);
      assert data[j].values[i := Null][..n] == data[j].values[..n];
    }
  }

  lemma PackedEnd(data: seq<Column>, table: ColumnState, n: nat)
    requires Rectangular(table) && n <= table.rowCount && Packed(data, table, n, table.rowCount)
    ensures forall j :: 0 <= j < |data| ==> n <= |data[j].values| && n <= |data[j].nulls|
    ensures Cut(data, n) == CompactAll(table)
  {
    hide Compact, Rectangular;
    forall j | 0 <= j < |data| ensures n <= |data[j].values| && n <= |data[j].nulls| {
      assert PackedColumn(data[j], table, j, n, table.rowCount);
    }
    forall j | 0 <= j < |data| ensures Cut(data, n)[j] == CompactAll(table)[j] {
      assert PackedColumn(data[j], table, j, n, table.rowCount);
    }
  }

  ghost function Supplied(rows: seq<seq<Cell>>): (r: seq<RowValue>)
    ensures |r| == |rows| && forall i :: 0 <= i < |rows| ==> r[i] == RowValue(rows[i], false)
  {
    seq(|rows|, i requires 0 <= i < |rows| => RowValue(rows[i], false))
  }

  lemma ShrinkCases(n: nat, capacity: nat)
    ensures Shrink(n, capacity) ==
            if n < capacity / 2 then (if capacity / 2 < INITIAL_CAPACITY then INITIAL_CAPACITY else capacity / 2) else capacity
    ensures capacity > 0 && n <= capacity ==> n <= Shrink(n, capacity) && Shrink(n, capacity) > 0
  {
  }

  lemma RectangularForAnyId(table: ColumnState, id: nat)
    requires Rectangular(table)
    ensures Rectangular(table.(nextRowId := id))
  {
  }

  // ---------- The table ----------

  class ColumnTable {
    const columns: seq<ColumnData>
    var rowCount: nat
    var nextRowId: nat
    var capacity: nat

    ghost function ValueArrays(): set<array<Cell>>
      reads columns
    {
      set j | 0 <= j < |columns| :: columns[j].values
    }

    ghost function MaskArrays(): set<array<bool>>
      reads columns
    {
      set j | 0 <= j < |columns| :: columns[j].nullMask
    }

    ghost function Data(): (data: seq<Column>)
      reads columns, ValueArrays(), MaskArrays()
      ensures |data| == |columns| && forall j :: 0 <= j < |columns| ==> data[j] == columns[j].Content()
    {
      seq(|columns|, j requires 0 <= j < |columns| reads columns, ValueArrays(), MaskArrays() => columns[j].Content())
    }

    /** No two columns share anything. */
    ghost predicate Apart()
      reads columns
    {
      forall j, k :: 0 <= j < k < |columns| ==>
        columns[j] != columns[k] && columns[j].values != columns[k].values && columns[j].nullMask != columns[k].nullMask
    }

    ghost predicate Laid()
      reads `capacity, columns, ValueArrays(), MaskArrays()
      ensures Laid() ==> Full(Data(), capacity)
    {
      Apart() && Full(Data(), capacity)
    }

    ghost predicate Valid()
      reads this, columns, ValueArrays(), MaskArrays()
      ensures Valid() ==> Laid() && rowCount <= capacity && capacity > 0
    {
      && rowCount <= capacity && capacity > 0 && Laid()
      && Rectangular(ValueOf(Data(), rowCount, nextRowId, capacity))
    }

    ghost function Value(): (c: ColumnState)
      reads this, columns, ValueArrays(), MaskArrays()
      requires Valid()
      ensures Rectangular(c) && |c.columns| == |columns|
      ensures c.rowCount == rowCount && c.nextRowId == nextRowId && c.capacity == capacity
    {
      ValueOf(Data(), rowCount, nextRowId, capacity)
    }

    /** No array has been replaced. */
    twostate predicate SameArrays()
      reads columns
    {
      ValueArrays() == old(ValueArrays()) && MaskArrays() == old(MaskArrays())
    }

    /** The table part of `column_engine_create_table`, for `width` columns. */
    constructor (width: nat)
      ensures Valid() && Value() == EmptyColumns(width)
      ensures fresh(columns) && fresh(ValueArrays()) && fresh(MaskArrays())
    {
      rowCount, nextRowId, capacity := 0, 1, INITIAL_CAPACITY;
      var made: seq<ColumnData> := [];
      for j := 0 to width
        invariant |made| == j && fresh(made)
        invariant forall k :: 0 <= k < j ==> fresh(made[k].values) && fresh(made[k].nullMask)
        invariant forall k :: 0 <= k < j ==> made[k].values.Length == INITIAL_CAPACITY == made[k].nullMask.Length
        invariant forall k, m :: 0 <= k < m < j ==>
                    made[k] != made[m] && made[k].values != made[m].values && made[k].nullMask != made[m].nullMask
      {
        var column := new ColumnData(INITIAL_CAPACITY);
        made := made + [column];
      }
      columns := made;
      new;
      assert Full(Data(), capacity);
      assert Value().columns == EmptyColumns(width).columns;
    }

    /** One slot of one column; the other columns keep what they have. */
    method WriteAt(j: nat, i: nat, cell: Cell, isNull: bool)
      requires Laid() && j < |columns| && i < capacity
      modifies columns[j].values, columns[j].nullMask
      ensures Laid() && SameArrays()
      ensures Data() == old(Data())[j := Column(old(Data())[j].values[i := cell], old(Data())[j].nulls[i := isNull])]
    {
      assert Data()[j] == columns[j].Content();
      columns[j].Write(i, cell, isNull);
      forall k | 0 <= k < |columns| && k != j ensures columns[k].Content() == old(columns[k].Content()) {
      }
    }

    /** Writes one cell per column at position `i`. */
    method WriteCells(i: nat, cells: seq<Cell>)
      requires Laid() && i < capacity && |cells| == |columns|
      modifies ValueArrays(), MaskArrays()
      ensures Laid() && SameArrays() && Data() == WriteRow(old(Data()), i, cells)
    {
      hide Laid;
      ghost var before := Data();
      for j := 0 to |columns|
        invariant Laid() && SameArrays()
        invariant forall k :: 0 <= k < |columns| ==>
                    Data()[k] == if k < j then WriteCell(before[k], i, cells[k]) else before[k]
      {
        WriteAt(j, i, cells[j], cells[j].Null?);
      }
      assert Data() == WriteRow(before, i, cells);
    }

    method ReallocateAt(j: nat, n: nat, newCapacity: nat)
      requires Apart() && j < |columns| && n <= newCapacity && n <= |Data()[j].values| && n <= |Data()[j].nulls|
      modifies columns[j]
      ensures Apart() && fresh(columns[j].values) && fresh(columns[j].nullMask)
      ensures forall k :: 0 <= k < |columns| && k != j ==> Data()[k] == old(Data())[k]
      ensures |Data()[j].values| == newCapacity && |Data()[j].nulls| == newCapacity
      ensures Data()[j].values[..n] == old(Data())[j].values[..n] && Data()[j].nulls[..n] == old(Data())[j].nulls[..n]
    {
      assert Data()[j] == columns[j].Content();
      columns[j].Reallocate(n, newCapacity);
      forall k | 0 <= k < |columns| && k != j ensures columns[k].Content() == old(columns[k].Content()) {
      }
      assert columns[j].values[..n] == columns[j].Content().values[..n];
    }

    method ReallocateEach(n: nat, newCapacity: nat)
      requires Laid() && n <= capacity && n <= newCapacity
      modifies columns
      ensures Apart() && Full(Data(), newCapacity)
      ensures forall k :: 0 <= k < |columns| ==> fresh(columns[k].values) && fresh(columns[k].nullMask)
      ensures Cut(Data(), n) == old(Cut(Data(), n))
    {
      ghost var before := Data();
      hide ValueArrays, MaskArrays;
      for j := 0 to |columns|
        invariant Apart()
        invariant forall k :: j <= k < |columns| ==> Data()[k] == before[k]
        invariant forall k :: 0 <= k < j ==> fresh(columns[k].values) && fresh(columns[k].nullMask)
        invariant forall k :: 0 <= k < j ==> |Data()[k].values| == newCapacity && |Data()[k].nulls| == newCapacity
        invariant forall k :: 0 <= k < j ==>
                    Data()[k].values[..n] == before[k].values[..n] && Data()[k].nulls[..n] == before[k].nulls[..n]
      {
        ReallocateAt(j, n, newCapacity);
      }
    }

    /** Gives every column arrays of `newCapacity`, keeping the first `n` entries. */
    method ReallocateAll(n: nat, newCapacity: nat)
      requires Laid() && n <= capacity && n <= newCapacity
      modifies this`capacity, columns
      ensures Laid() && capacity == newCapacity
      ensures fresh(ValueArrays()) && fresh(MaskArrays())
      ensures Cut(Data(), n) == old(Cut(Data(), n))
    {
      ReallocateEach(n, newCapacity);
      capacity := newCapacity;
    }

    /** The doubling loop and `column_engine_expand_table`. */
    method Reserve(target: nat)
      requires Valid() && target >= capacity
      modifies this`capacity, columns
      ensures Valid() && Value() == old(Value()).(capacity := target)
      ensures fresh(ValueArrays() - old(ValueArrays())) && fresh(MaskArrays() - old(MaskArrays()))
    {
      hide Laid, ValueArrays, MaskArrays;
      if target > capacity {
        ReallocateAll(rowCount, target);
      }
    }

    method AdvanceRowId(n: nat)
      requires Valid()
      modifies this`nextRowId
      ensures Valid() && Value() == old(Value()).(nextRowId := old(nextRowId) + n) && SameArrays()
    {
      hide Rectangular, Apart;
      RectangularForAnyId(Value(), nextRowId + n);
      nextRowId := nextRowId + n;
      assert ValueOf(Data(), rowCount, nextRowId, capacity) == old(Value()).(nextRowId := nextRowId);
    }

    method AdvanceRowCount(ghost before: ColumnState, cells: seq<Cell>)
      requires Laid() && rowCount < capacity && |cells| == |before.columns|
      requires before.rowCount == rowCount && before.nextRowId == nextRowId && before.capacity == capacity && Rectangular(before)
      requires Cut(Data(), rowCount + 1) == AppendRow(before.columns, cells)
      modifies this`rowCount
      ensures Valid() && SameArrays()
      ensures Value() == before.(columns := AppendRow(before.columns, cells), rowCount := before.rowCount + 1)
    {
      hide Rectangular, Apart;
      AppendKeepsShape(before, cells);
      rowCount := rowCount + 1;
      assert ValueOf(Data(), rowCount, nextRowId, capacity)
          == before.(columns := AppendRow(before.columns, cells), rowCount := before.rowCount + 1);
    }

    /** The cells of one row written behind the others. */
    method AppendCells(cells: seq<Cell>)
      requires Valid() && rowCount < capacity && |cells| == |columns|
      modifies this`rowCount, ValueArrays(), MaskArrays()
      ensures Valid() && SameArrays()
      ensures Value() == old(Value()).(columns := AppendRow(old(Value()).columns, cells), rowCount := old(rowCount) + 1)
    {
      ghost var before, value := Data(), Value();
      hide Laid, ValueArrays, MaskArrays, Rectangular;
      WriteThenCut(before, rowCount, cells);
      WriteCells(rowCount, cells);
      AdvanceRowCount(value, cells);
    }

    /** `column_engine_insert`. */
    method InsertRow(cells: seq<Cell>)
      requires Valid() && |cells| == |columns|
      modifies this, columns, ValueArrays(), MaskArrays()
      ensures Valid()
      ensures Value() == ColumnStep(old(Value()), Insert(RowValue(cells, false))).0
    {
      hide Valid, Laid, Value, Rectangular, ValueArrays, MaskArrays;
      Reserve(if rowCount >= capacity then capacity * 2 else capacity);
      AdvanceRowId(1);
      AppendCells(cells);
    }

    /** `column_engine_batch_insert`. */
    method InsertBatch(rows: seq<seq<Cell>>) returns (ok: bool)
      requires Valid() && forall i :: 0 <= i < |rows| ==> |rows[i]| == |columns|
      modifies this, columns, ValueArrays(), MaskArrays()
      ensures Valid()
      ensures (Value(), ok) == ColumnStep(old(Value()), BatchInsert(Supplied(rows)))
    {
      hide Valid, Laid, Value, Rectangular, Double, ValueArrays, MaskArrays;
      if rows == [] {
        return false;
      }
      Reserve(Double(capacity, rowCount + |rows|));
      AppendAll(rows);
      AdvanceRowId(|rows|);
      ok := true;
    }

    method AppendAll(rows: seq<seq<Cell>>)
      requires Valid() && rowCount + |rows| <= capacity && forall i :: 0 <= i < |rows| ==> |rows[i]| == |columns|
      modifies this`rowCount, ValueArrays(), MaskArrays()
      ensures Valid() && SameArrays()
      ensures Value() == old(Value()).(columns := AppendRows(old(Value()).columns, Supplied(rows)),
                                       rowCount := old(rowCount) + |rows|)
    {
      hide Valid, Laid, Value, Rectangular, ValueArrays, MaskArrays;
      ghost var before := Value();
      ghost var supplied := Supplied(rows);
      for r := 0 to |rows|
        invariant Valid() && SameArrays()
        invariant Value() == before.(columns := AppendRows(before.columns, supplied[..r]), rowCount := before.rowCount + r)
      {
        assert supplied[..r + 1][..r] == supplied[..r];
        AppendCells(rows[r]);
      }
      assert supplied[..|rows|] == supplied;
    }

    method Overwrite(i: nat, cells: seq<Cell>)
      requires Valid() && i < rowCount && |cells| == |columns|
      modifies ValueArrays(), MaskArrays()
      ensures Valid() && Value() == old(Value()).(columns := WriteRow(old(Value()).columns, i, cells))
    {
      ghost var before, value := Data(), Value();
      hide Laid, ValueArrays, MaskArrays, Rectangular;
      WriteCells(i, cells);
      CutThenWrite(before, rowCount, i, cells);
      WriteKeepsShape(value, i, cells);
    }

    /** `column_engine_update`. */
    method UpdateRow(id: nat, cells: seq<Cell>) returns (ok: bool)
      requires Valid() && |cells| == |columns|
      modifies ValueArrays(), MaskArrays()
      ensures Valid()
      ensures (Value(), ok) == ColumnStep(old(Value()), Update(id, RowValue(cells, false)))
    {
      hide Valid, Value, Rectangular, ValueArrays, MaskArrays;
      if id == 0 || id >= nextRowId || id - 1 >= rowCount {
        return false;
      }
      Overwrite(id - 1, cells);
      ok := true;
    }

    /** `column_engine_delete`. */
    method DeleteRow(id: nat) returns (ok: bool)
      requires Valid()
      modifies ValueArrays(), MaskArrays()
      ensures Valid()
      ensures (Value(), ok) == ColumnStep(old(Value()), Delete(id))
    {
      hide Valid, Value, Rectangular, ValueArrays, MaskArrays;
      if id == 0 || id >= nextRowId || id - 1 >= rowCount {
        return false;
      }
      Overwrite(id - 1, NullCells(|columns|));
      ok := true;
    }

    /** `column_engine_select`. */
    method SelectRow(id: nat) returns (r: Selected)
      requires Valid()
      ensures r == ColumnSelect(Value(), id)
    {
      if id == 0 || id >= nextRowId || id - 1 >= rowCount {
        return NotFound;
      }
      var cells: seq<Cell> := [];
      for j := 0 to |columns|
        invariant |cells| == j && forall k :: 0 <= k < j ==> cells[k] == Value().columns[k].values[id - 1]
      {
        assert Data()[j] == columns[j].Content();
        assert Value().columns[j].nulls[id - 1] == columns[j].nullMask[id - 1];
        if !columns[j].nullMask[id - 1] && columns[j].values[id - 1] != Null {
          cells := cells + [columns[j].values[id - 1]];
        } else {
          cells := cells + [Null];
        }
      }
      assert cells == RowCells(Value().columns, id - 1);
      r := Found(cells);
    }

    /** The liveness scan of `optimize` at row `i`. */
    method RowIsDeleted(i: nat) returns (deleted: bool)
      requires Laid() && i < capacity
      ensures Laid() && SameArrays() && Data() == old(Data())
      ensures deleted <==> !Live(Data(), i)
    {
      for j := 0 to |columns|
        invariant forall k :: 0 <= k < j ==> Data()[k].nulls[i]
      {
        assert Data()[j] == columns[j].Content();
        if !columns[j].nullMask[i] {
          return false;
        }
      }
      return true;
    }

    /** Copies row `i` down to `target`, value and mask of every column. */
    method MoveRow(i: nat, target: nat)
      requires Laid() && target <= i < capacity
      modifies ValueArrays(), MaskArrays()
      ensures Laid() && SameArrays() && Data() == MovedRow(old(Data()), i, target)
    {
      ghost var before := Data();
      for j := 0 to |columns|
        invariant Laid() && SameArrays()
        invariant forall k :: 0 <= k < |columns| ==>
                    Data()[k] == if k < j then MovedEntry(before[k], i, target) else before[k]
      {
        assert Data()[j] == columns[j].Content();
        WriteAt(j, target, columns[j].values[i], columns[j].nullMask[i]);
      }
      assert Data() == MovedRow(before, i, target);
    }

    /** Drops the values of a deleted row. */
    method ClearRow(i: nat)
      requires Laid() && i < capacity
      modifies ValueArrays(), MaskArrays()
      ensures Laid() && SameArrays() && Data() == ClearedRow(old(Data()), i)
    {
      ghost var before := Data();
      for j := 0 to |columns|
        invariant Laid() && SameArrays()
        invariant forall k :: 0 <= k < |columns| ==>
                    Data()[k] == if k < j then Column(before[k].values[i := Null], before[k].nulls) else before[k]
      {
        assert Data()[j] == columns[j].Content();
        assert before[j].nulls[i := columns[j].nullMask[i]] == before[j].nulls;
        WriteAt(j, i, Null, columns[j].nullMask[i]);
      }
      assert Data() == ClearedRow(before, i);
    }

    /** One turn of the compaction loop. */
    method OptimizeRow(i: nat, n: nat, ghost table: ColumnState) returns (n': nat)
      requires Laid() && Rectangular(table) && n <= i < table.rowCount <= capacity
      requires Packed(Data(), table, n, i) && n == CountLive(table.columns, i)
      modifies ValueArrays(), MaskArrays()
      ensures Laid() && SameArrays()
      ensures n' == CountLive(table.columns, i + 1) && n' <= i + 1 && Packed(Data(), table, n', i + 1)
    {
      hide Laid, ValueArrays, MaskArrays, Live, Packed;
      var deleted := RowIsDeleted(i);
      PackedLive(Data(), table, n, i);
      if !deleted {
        PackedMove(Data(), table, n, i);
        if n != i {
          MoveRow(i, n);
        }
        n' := n + 1;
      } else {
        PackedClear(Data(), table, n, i);
        ClearRow(i);
        n' := n;
      }
    }

    /** The compaction loop. */
    method CompactRows() returns (n: nat)
      requires Valid()
      modifies ValueArrays(), MaskArrays()
      ensures Laid() && SameArrays()
      ensures n == CountLive(old(Value()).columns, rowCount) <= rowCount
      ensures Cut(Data(), n) == CompactAll(old(Value()))
    {
      hide Laid, Packed, ValueArrays, MaskArrays, Rectangular;
      ghost var table := Value();
      PackedStart(Data(), rowCount, nextRowId, capacity);
      n := 0;
      for i := 0 to rowCount
        invariant Laid() && SameArrays() && n == CountLive(table.columns, i) && n <= i
        invariant Packed(Data(), table, n, i)
      {
        n := OptimizeRow(i, n, table);
      }
      PackedEnd(Data(), table, n);
    }

    /** `column_engine_optimize`: compaction in place, then the arrays may shrink. */
    method OptimizeTable()
      requires Valid()
      modifies this, columns, ValueArrays(), MaskArrays()
      ensures Valid()
      ensures Value() == ColumnStep(old(Value()), Optimize).0
    {
      hide Valid, Laid, Value, ValueArrays, MaskArrays, Rectangular, CompactAll;
      ghost var table := Value();
      ColumnStepKeepsShape(table, Optimize);
      var n := CompactRows();
      Truncate(n, table);
    }

    /** Keeps the first `n` rows, and halves the arrays when fewer than half their slots are used. */
    method Truncate(n: nat, ghost table: ColumnState)
      requires Laid() && n <= capacity && capacity > 0 && table.nextRowId == nextRowId && table.capacity == capacity
      requires Rectangular(table) && Cut(Data(), n) == CompactAll(table)
      requires Rectangular(table.(columns := CompactAll(table), rowCount := n, capacity := Shrink(n, capacity)))
      modifies this`rowCount, this`capacity, columns
      ensures Valid()
      ensures Value() == table.(columns := CompactAll(table), rowCount := n, capacity := Shrink(n, old(capacity)))
    {
      hide CompactAll, Rectangular, Apart, ValueArrays, MaskArrays, Shrink;
      ShrinkCases(n, capacity);
      rowCount := n;
      assert Laid() && Cut(Data(), n) == CompactAll(table);
      ShrinkArrays(n);
      assert ValueOf(Data(), rowCount, nextRowId, capacity)
          == table.(columns := CompactAll(table), rowCount := n, capacity := Shrink(n, old(capacity)));
    }

    /** Halves the arrays when fewer than half their slots are used. */
    method ShrinkArrays(n: nat)
      requires Laid() && n <= capacity && capacity > 0
      modifies this`capacity, columns
      ensures Laid() && capacity == Shrink(n, old(capacity)) && n <= capacity
      ensures Cut(Data(), n) == old(Cut(Data(), n))
    {
      hide ValueArrays, MaskArrays, Apart;
      if n < capacity / 2 {
        var newCapacity := capacity / 2;
        if newCapacity < INITIAL_CAPACITY {
          newCapacity := INITIAL_CAPACITY;
        }
        ReallocateAll(n, newCapacity);
      }
    }
  }
}
