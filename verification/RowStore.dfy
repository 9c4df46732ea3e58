/**
  The row table of src/storage/row_engine.c as it runs: an array of row objects, deletion flags set
  on the objects, and compaction in place. Each method makes exactly the step of `StoreSpec`.
*/
module RowStore {
  import opened StoreSpec

  class Row {
    const cells: seq<Cell>
    var deleted: bool

    constructor (cells: seq<Cell>)
      ensures this.cells == cells && !deleted
    {
      this.cells, deleted := cells, false;
    }

    ghost function Content(): RowValue
      reads this
    {
      RowValue(cells, deleted)
    }
  }

  class RowTable {
    var rows: array<Row?>
    var rowCount: nat
    var nextRowId: nat

    ghost predicate Valid()
      reads this, rows
    {
      && rowCount <= rows.Length && rows.Length > 0
      && (forall i :: 0 <= i < rowCount ==> rows[i] != null)
      && (forall i, j :: 0 <= i < j < rowCount ==> rows[i] != rows[j])
    }

    /** The row objects in use. */
    ghost function Rows(): (s: seq<Row>)
      reads this, rows
      requires Valid()
      ensures |s| == rowCount && forall i :: 0 <= i < rowCount ==> s[i] == rows[i]
    {
      seq(rowCount, i requires 0 <= i < rowCount && i < rows.Length && rows[i] != null reads this, rows => rows[i])
    }

    static ghost function Contents(rows: seq<Row>): (s: seq<RowValue>)
      reads rows
      ensures |s| == |rows| && forall i :: 0 <= i < |rows| ==> s[i] == rows[i].Content()
    {
      seq(|rows|, i requires 0 <= i < |rows| reads rows => rows[i].Content())
    }

    ghost function Value(): RowState
      reads this, rows, if Valid() then Rows() else []
      requires Valid()
    {
      RowState(Contents(Rows()), nextRowId, rows.Length)
    }

    /** The table part of `row_engine_create_table`. */
    constructor ()
      ensures Valid() && Value() == EMPTY_ROWS && fresh(rows)
    {
      rows := new Row?[INITIAL_CAPACITY](_ => null);
      rowCount, nextRowId := 0, 1;
    }

    /** `row_engine_expand_table`: a larger array with the same rows. */
    method Expand(newCapacity: nat)
      requires Valid() && newCapacity > rows.Length
      modifies this`rows
      ensures Valid() && rows.Length == newCapacity && Rows() == old(Rows()) && fresh(rows)
    {
      Reallocate(newCapacity);
    }

    /** `realloc` of the row array to a capacity the rows fit in. */
    method Reallocate(newCapacity: nat)
      requires Valid() && newCapacity >= rowCount && newCapacity > 0
      modifies this`rows
      ensures Valid() && rows.Length == newCapacity && Rows() == old(Rows()) && fresh(rows)
    {
      var newRows := new Row?[newCapacity](_ => null);
      for i := 0 to rowCount
        invariant rows == old(rows)
        invariant forall k :: 0 <= k < i ==> newRows[k] == rows[k]
      {
        newRows[i] := rows[i];
      }
      rows := newRows;
    }

    /** `row_engine_insert`. The table takes over the row object. */
    method InsertRow(row: Row)
      requires Valid() && row !in Rows()
      modifies this, rows
      ensures Valid() && Rows() == old(Rows()) + [row]
      ensures Value() == RowStep(old(Value()), Insert(row.Content())).0
    {
      if rowCount >= rows.Length {
        Expand(rows.Length * 2);
      }
      nextRowId := nextRowId + 1;
      rows[rowCount] := row;
      rowCount := rowCount + 1;
      assert Rows() == old(Rows()) + [row];
      assert Contents(Rows()) == old(Contents(Rows())) + [row.Content()];
    }

    /** `row_engine_batch_insert`. */
    method InsertBatch(batch: seq<Row>) returns (ok: bool)
      requires Valid() && forall i :: 0 <= i < |batch| ==> batch[i] !in Rows()
      requires forall i, j :: 0 <= i < j < |batch| ==> batch[i] != batch[j]
      modifies this, rows
      ensures Valid() && Rows() == old(Rows()) + batch
      ensures (Value(), ok) == RowStep(old(Value()), BatchInsert(Contents(batch)))
    {
      if batch == [] {
        return false;
      }
      hide Double, Contents;
      Reserve(|batch|);
      ghost var before := Rows();
      CopyBatch(batch);
      assert forall k :: 0 <= k < |before| ==> rows[k] == before[k];
      rowCount := rowCount + |batch|;
      nextRowId := nextRowId + |batch|;
      ok := true;
      assert Rows() == before + batch;
      ContentsConcat(before, batch);
    }

    /** The doubling loop that makes room for `more` rows. */
    method Reserve(more: nat)
      requires Valid() && more > 0
      modifies this`rows
      ensures Valid() && Rows() == old(Rows()) && rows.Length == Double(old(rows.Length), rowCount + more)
      ensures rows == old(rows) || fresh(rows)
    {
      if rowCount + more > rows.Length {
        var newCapacity := rows.Length;
        while newCapacity < rowCount + more
          invariant newCapacity > 0 && Double(newCapacity, rowCount + more) == Double(rows.Length, rowCount + more)
          decreases rowCount + more - newCapacity
        {
          newCapacity := newCapacity * 2;
        }
        Expand(newCapacity);
      }
    }

    method CopyBatch(batch: seq<Row>)
      requires rowCount + |batch| <= rows.Length
      modifies rows
      ensures forall k :: 0 <= k < rowCount ==> rows[k] == old(rows[k])
      ensures forall k :: rowCount <= k < rowCount + |batch| ==> rows[k] == batch[k - rowCount]
    {
      for i := 0 to |batch|
        invariant forall k :: 0 <= k < rowCount ==> rows[k] == old(rows[k])
        invariant forall k :: rowCount <= k < rowCount + i ==> rows[k] == batch[k - rowCount]
      {
        rows[rowCount + i] := batch[i];
      }
    }

    /** The lookup loop shared by update, delete and select: the row's position, or the count if there is none. */
    method Locate(id: nat) returns (index: nat)
      requires Valid()
      ensures index <= rowCount
      ensures index < rowCount <==> ValidId(id, nextRowId, rowCount)
      ensures index < rowCount ==> index == id - 1
    {
      if id == 0 || id >= nextRowId {
        return rowCount;
      }
      for i := 0 to rowCount
        invariant i < id
      {
        if i + 1 == id {
          return i;
        }
      }
      return rowCount;
    }

    /** `row_engine_update`. */
    method UpdateRow(id: nat, row: Row) returns (ok: bool)
      requires Valid() && row !in Rows()
      modifies rows
      ensures Valid()
      ensures (Value(), ok) == RowStep(old(Value()), Update(id, row.Content()))
    {
      var index := Locate(id);
      if index == rowCount {
        return false;
      }
      rows[index] := row;
      ok := true;
      assert Rows() == old(Rows())[index := row];
      assert Contents(Rows()) == old(Contents(Rows()))[index := row.Content()];
    }

    /** `row_engine_delete`. */
    method DeleteRow(id: nat) returns (ok: bool)
      requires Valid()
      modifies Rows()
      ensures Valid() && Rows() == old(Rows())
      ensures (Value(), ok) == RowStep(old(Value()), Delete(id))
    {
      var index := Locate(id);
      if index == rowCount {
        return false;
      }
      assert Rows()[index] == rows[index];
      rows[index].deleted := true;
      ok := true;
      assert Contents(Rows()) == old(Contents(Rows()))[index := old(rows[index].Content()).(deleted := true)];
    }

    /** `row_engine_select`. */
    method SelectRow(id: nat) returns (row: Row?)
      requires Valid()
      ensures RowSelect(Value(), id) == if row == null then NotFound else Found(row.cells)
    {
      var index := Locate(id);
      if index == rowCount {
        return null;
      }
      row := rows[index];
      assert Rows()[index] == row;
      if row.deleted {
        return null;
      }
    }

    static lemma ContentsConcat(a: seq<Row>, b: seq<Row>)
      ensures Contents(a + b) == Contents(a) + Contents(b)
    {
    }

    static ghost predicate Distinct(rows: seq<Row>) {
      forall i, j :: 0 <= i < j < |rows| ==> rows[i] != rows[j]
    }

    static lemma NothingKept()
      ensures Kept([]) == [] && Distinct([])
    {
    }

    static lemma KeptStep(contents: seq<RowValue>, i: nat)
      requires i < |contents|
      ensures contents[..0] == []
      ensures Kept(contents[..i + 1]) == Kept(contents[..i]) + if contents[i].deleted then [] else [contents[i]]
    {
      assert contents[..i + 1][..i] == contents[..i];
    }

    static lemma DistinctOneMore(kept: seq<Row>, row: Row)
      requires Distinct(kept) && row !in kept
      ensures Distinct(kept + [row])
    {
    }

    static lemma KeepOne(kept: seq<Row>, row: Row)
      ensures Contents(kept + [row]) == Contents(kept) + [row.Content()]
    {
    }

    /** `row_engine_optimize`: live rows move down in order, then the array may shrink. */
    method OptimizeTable()
      requires Valid()
      modifies this, rows
      ensures Valid()
      ensures Value() == RowStep(old(Value()), Optimize).0
    {
      ghost var contents := Contents(Rows());
      var newRowCount, kept := CompactRows();
      Truncate(newRowCount, kept);
      assert Contents(kept) == Kept(contents);
    }

    /** The compaction loop. `kept` names the row objects left in the first `newRowCount` slots. */
    method CompactRows() returns (newRowCount: nat, ghost kept: seq<Row>)
      requires Valid()
      modifies rows
      ensures newRowCount == |kept| <= rows.Length && Distinct(kept)
      ensures forall k :: 0 <= k < newRowCount ==> rows[k] == kept[k]
      ensures Contents(kept) == Kept(old(Contents(Rows())))
    {
      hide Kept, Distinct;
      ghost var before := Rows();
      ghost var contents := Contents(before);
      NothingKept();
      kept := [];
      newRowCount := 0;
      for i := 0 to rowCount
        invariant newRowCount == |kept| <= i
        invariant forall k :: i <= k < rowCount ==> rows[k] == before[k]
        invariant forall k :: 0 <= k < newRowCount ==> rows[k] == kept[k]
        invariant Distinct(kept) && forall k, m :: 0 <= k < |kept| && i <= m < |before| ==> kept[k] != before[m]
        invariant Contents(kept) == Kept(contents[..i])
      {
        KeptStep(contents, i);
        if !rows[i].deleted {
          KeepOne(kept, before[i]);
          DistinctOneMore(kept, before[i]);
          kept := kept + [before[i]];
          if newRowCount != i {
            rows[newRowCount] := rows[i];
          }
          newRowCount := newRowCount + 1;
        } else {
          rows[i] := null;
        }
      }
      assert contents[..rowCount] == contents;
    }

    /** Keeps the first `newRowCount` rows, and halves the array when fewer than half its slots are used. */
    method Truncate(newRowCount: nat, ghost kept: seq<Row>)
      requires newRowCount == |kept| <= rows.Length && rows.Length > 0 && Distinct(kept)
      requires forall k :: 0 <= k < newRowCount ==> rows[k] == kept[k]
      modifies this`rows, this`rowCount
      ensures Valid() && Rows() == kept && rows.Length == Shrink(newRowCount, old(rows.Length))
      ensures rows == old(rows) || fresh(rows)
    {
      rowCount := newRowCount;
      assert Rows() == kept;
      if newRowCount < rows.Length / 2 {
        var newCapacity := rows.Length / 2;
        if newCapacity < INITIAL_CAPACITY {
          newCapacity := INITIAL_CAPACITY;
        }
        Reallocate(newCapacity);
      }
    }
  }
}
