/**
  When the row engine and the column engine answer every look-up alike. `StoreSpec` says when their tables
  stay related; here it is shown that as soon as they do not, a caller can tell the two engines apart.
*/
module StoreAnswers {

  import opened StoreSpec

  /** The same cells, or all NULLs where the row engine finds nothing. */
  predicate Alike(r: Selected, c: Selected) {
    match (r, c)
    case (Found(cells), Found(cells')) => cells == cells'
    case (Found(_), NotFound) => false
    case (NotFound, Found(cells')) => AllNull(cells')
    case (NotFound, NotFound) => true
  }

  ghost predicate AnswerAlike(r: RowState, c: ColumnState)
    requires Rectangular(c)
  {
    forall id :: Alike(RowSelect(r, id), ColumnSelect(c, id))
  }

  /** What one operation makes of related tables: every row that is not the same holds the cells it was given in both. */
  ghost predicate Near(r: RowState, c: ColumnState) {
    && Rectangular(c)
    && |r.rows| == c.rowCount && r.nextRowId == c.nextRowId && r.capacity == c.capacity
    && (forall i :: 0 <= i < |r.rows| ==> Fits(r.rows[i], |c.columns|))
    && (forall i :: 0 <= i < |r.rows| ==> SameRow(r.rows[i], RowCells(c.columns, i)) || RowCells(c.columns, i) == r.rows[i].cells)
  }

  lemma InsertNear(r: RowState, c: ColumnState, row: RowValue, capacity: nat)
    requires Related(r, c) && Fits(row, |c.columns|)
    ensures Near(RowState(r.rows + [row], r.nextRowId + 1, capacity),
                 ColumnState(AppendRow(c.columns, row.cells), c.rowCount + 1, c.nextRowId + 1, capacity))
  {
    var r' := RowState(r.rows + [row], r.nextRowId + 1, capacity);
    var c' := ColumnState(AppendRow(c.columns, row.cells), c.rowCount + 1, c.nextRowId + 1, capacity);
    AppendRowRelated(r, c, row, capacity);
    forall i | 0 <= i < c.rowCount
      ensures RowCells(c'.columns, i) == RowCells(c.columns, i) && r'.rows[i] == r.rows[i]
    {
    }
    assert RowCells(c'.columns, c.rowCount) == row.cells && r'.rows[c.rowCount] == row;
  }

  lemma BatchRow(r: RowState, c: ColumnState, rows: seq<RowValue>, columns: seq<Column>, i: nat)
    requires Related(r, c) && i < c.rowCount + |rows| && (forall k :: 0 <= k < |rows| ==> Fits(rows[k], |c.columns|))
    requires |columns| == |c.columns| && forall j :: 0 <= j < |columns| ==> |columns[j].values| == c.rowCount + |rows|
    requires forall k :: 0 <= k < c.rowCount ==> RowCells(columns, k) == RowCells(c.columns, k)
    requires forall k :: 0 <= k < |rows| ==> RowCells(columns, c.rowCount + k) == rows[k].cells
    ensures var row, cells := (r.rows + rows)[i], RowCells(columns, i);
            Fits(row, |columns|) && (SameRow(row, cells) || cells == row.cells)
  {
    hide RowCells, SameRow, Fits;
    if i >= c.rowCount {
      assert (r.rows + rows)[i] == rows[i - c.rowCount] && RowCells(columns, c.rowCount + (i - c.rowCount)) == RowCells(columns, i);
    }
  }

  lemma BatchNear(r: RowState, c: ColumnState, rows: seq<RowValue>, capacity: nat)
    requires Related(r, c) && forall i :: 0 <= i < |rows| ==> Fits(rows[i], |c.columns|)
    ensures Near(RowState(r.rows + rows, r.nextRowId + |rows|, capacity),
                 ColumnState(AppendRows(c.columns, rows), c.rowCount + |rows|, c.nextRowId + |rows|, capacity))
  {
    hide AppendRows, RowCells, SameRow, Fits;
    var columns := AppendRows(c.columns, rows);
    AppendRowsCells(c, rows, capacity);
    forall i | 0 <= i < c.rowCount + |rows|
      ensures Fits((r.rows + rows)[i], |columns|)
      ensures SameRow((r.rows + rows)[i], RowCells(columns, i)) || RowCells(columns, i) == (r.rows + rows)[i].cells
    {
      BatchRow(r, c, rows, columns, i);
    }
  }

  lemma UpdateNear(r: RowState, c: ColumnState, i: nat, row: RowValue)
    requires Related(r, c) && i < |r.rows| && Fits(row, |c.columns|)
    ensures Near(r.(rows := r.rows[i := row]), c.(columns := WriteRow(c.columns, i, row.cells)))
  {
    var c' := c.(columns := WriteRow(c.columns, i, row.cells));
    assert Rectangular(c');
    forall k | 0 <= k < c.rowCount && k != i
      ensures RowCells(c'.columns, k) == RowCells(c.columns, k)
    {
    }
    assert RowCells(c'.columns, i) == row.cells;
  }

  lemma RelatedIsNear(r: RowState, c: ColumnState)
    requires Related(r, c)
    ensures Near(r, c)
  {
  }

  lemma StepNear(r: RowState, c: ColumnState, op: Op)
    requires Related(r, c) && r.capacity > 0 && OpFits(op, |c.columns|)
    ensures Near(RowStep(r, op).0, ColumnStep(c, op).0)
  {
    hide Near, SameRow, RowCells;
    StepRelatedExactly(r, c, op);
    if Related(RowStep(r, op).0, ColumnStep(c, op).0) {
      RelatedIsNear(RowStep(r, op).0, ColumnStep(c, op).0);
    } else {
      match op
      case Insert(row) => InsertNear(r, c, row, GrowForOne(c.rowCount, c.capacity));
      case BatchInsert(rows) => BatchNear(r, c, rows, Double(c.capacity, c.rowCount + |rows|));
      case Update(id, row) => UpdateNear(r, c, id - 1, row);
      case _ =>
    }
  }

  lemma LiveIsNotNull(c: ColumnState, i: nat)
    requires Rectangular(c) && i < c.rowCount
    ensures Live(c.columns, i) <==> !AllNull(RowCells(c.columns, i))
  {
    var cells := RowCells(c.columns, i);
    if !AllNull(cells) {
      var j :| 0 <= j < |cells| && cells[j] != Null;
      assert !c.columns[j].nulls[i];
    }
  }

  /** If every deleted row reads as NULLs, the column engine keeps no more rows than the row engine, and fewer with a live row of NULLs. */
  lemma {:induction false} KeepsFewer(r: RowState, c: ColumnState, n: nat)
    requires Near(r, c) && n <= c.rowCount
    requires forall i :: 0 <= i < c.rowCount && r.rows[i].deleted ==> AllNull(RowCells(c.columns, i))
    ensures CountLive(c.columns, n) <= |Kept(r.rows[..n])|
    ensures (exists i :: 0 <= i < n && !r.rows[i].deleted && AllNull(RowCells(c.columns, i)))
            ==> CountLive(c.columns, n) < |Kept(r.rows[..n])|
  {
    hide Near, RowCells, Live, AllNull;
    if n > 0 {
      KeepsFewer(r, c, n - 1);
      NearShape(r, c);
      LiveIsNotNull(c, n - 1);
      assert r.rows[..n][..n - 1] == r.rows[..n - 1] && r.rows[..n][n - 1] == r.rows[n - 1];
    }
  }

  lemma NearShape(r: RowState, c: ColumnState)
    requires Near(r, c)
    ensures Rectangular(c) && |r.rows| == c.rowCount && r.nextRowId == c.nextRowId && r.capacity == c.capacity
  {
  }

  lemma {:induction false} KeptIsLive(rows: seq<RowValue>)
    ensures |Kept(rows)| <= |rows| && forall row <- Kept(rows) :: !row.deleted
  {
    if rows != [] {
      KeptIsLive(rows[..|rows| - 1]);
    }
  }

  lemma OptimizeShape(r: RowState, c: ColumnState)
    requires Rectangular(c) && c.capacity > 0 && r.capacity > 0
    ensures var r', c' := RowStep(r, Optimize).0, ColumnStep(c, Optimize).0;
            && Rectangular(c') && r'.rows == Kept(r.rows) && c'.rowCount == CountLive(c.columns, c.rowCount)
            && r'.nextRowId == r.nextRowId && c'.nextRowId == c.nextRowId
  {
    ColumnStepKeepsShape(c, Optimize);
  }

  /** Tables that are near but not related answer some look-up differently, now or after optimizing. */
  lemma NearDiverges(r: RowState, c: ColumnState)
    requires Near(r, c) && !Related(r, c) && r.capacity > 0 && |r.rows| < r.nextRowId
    ensures Rectangular(ColumnStep(c, Optimize).0)
    ensures !AnswerAlike(r, c) || !AnswerAlike(RowStep(r, Optimize).0, ColumnStep(c, Optimize).0)
  {
    hide RowStep, ColumnStep, Kept, CountLive, RowCells, Fits;
    OptimizeShape(r, c);
    var n, k := |r.rows|, |Kept(r.rows)|;
    if AnswerAlike(r, c) {
      forall i | 0 <= i < n && r.rows[i].deleted
        ensures AllNull(RowCells(c.columns, i))
      {
        assert Alike(RowSelect(r, i + 1), ColumnSelect(c, i + 1));
      }
      var i :| 0 <= i < n && !SameRow(r.rows[i], RowCells(c.columns, i));
      assert !r.rows[i].deleted && AllNull(RowCells(c.columns, i));
      KeepsFewer(r, c, n);
      KeptIsLive(r.rows);
      assert r.rows[..n] == r.rows;
      LastIsLive(Kept(r.rows));
      var r', c' := RowStep(r, Optimize).0, ColumnStep(c, Optimize).0;
      assert RowSelect(r', k).Found? && ColumnSelect(c', k).NotFound?;
      assert !Alike(RowSelect(r', k), ColumnSelect(c', k));
    }
  }

  lemma LastIsLive(rows: seq<RowValue>)
    requires rows != [] && forall row <- rows :: !row.deleted
    ensures !rows[|rows| - 1].deleted
  {
    assert rows[|rows| - 1] in rows;
  }

  lemma RelatedAnswersAlike(r: RowState, c: ColumnState)
    requires Related(r, c)
    ensures AnswerAlike(r, c)
  {
    forall id
      ensures Alike(RowSelect(r, id), ColumnSelect(c, id))
    {
      SelectRelated(r, c, id);
    }
  }

  // ---------- Runs ----------

  /** Every row has an id below the next one. */
  lemma {:induction false} IdsAhead(ops: seq<Op>)
    ensures |RowRun(ops).rows| < RowRun(ops).nextRowId
  {
    hide RowStep;
    if ops != [] {
      IdsAhead(ops[..|ops| - 1]);
      StepIdsAhead(RowRun(ops[..|ops| - 1]), ops[|ops| - 1]);
    }
  }

  lemma StepIdsAhead(r: RowState, op: Op)
    requires r.capacity > 0 && |r.rows| < r.nextRowId
    ensures |RowStep(r, op).0.rows| < RowStep(r, op).0.nextRowId
  {
    hide Kept;
    KeptIsLive(r.rows);
  }

  /** After the first `n` operations all look-ups are answered alike, and would be after optimizing both tables. */
  ghost predicate IndistinctAfter(ops: seq<Op>, width: nat, n: nat)
    requires AllFit(ops, width) && n <= |ops|
  {
    var r, c := RowRun(ops[..n]), ColumnRun(ops[..n], width);
    ColumnStepKeepsShape(c, Optimize);
    AnswerAlike(r, c) && AnswerAlike(RowStep(r, Optimize).0, ColumnStep(c, Optimize).0)
  }

  /**
    No caller can tell the two engines apart by looking rows up, at any time in a run and also after
    optimizing the tables there, if and only if every operation that took effect was given agreeable rows.
  */
  lemma {:induction false} RunsAnswerAlikeExactly(ops: seq<Op>, width: nat)
    requires AllFit(ops, width)
    ensures (forall n :: 0 <= n <= |ops| ==> IndistinctAfter(ops, width, n)) <==> AgreeableRun(ops)
  {
    hide AnswerAlike, ColumnStep, RowStep, Related;
    RunsRelatedExactly(ops, width);
    if AgreeableRun(ops) {
      forall n | 0 <= n <= |ops|
        ensures IndistinctAfter(ops, width, n)
      {
        assert RelatedAfter(ops[..n], width);
        RelatedIsIndistinct(RowRun(ops[..n]), ColumnRun(ops[..n], width));
      }
    } else {
      assert ops != [];
      var front := ops[..|ops| - 1];
      RunsAnswerAlikeExactly(front, width);
      if AgreeableRun(front) {
        RunsRelatedExactly(front, width);
        assert RelatedAfter(front[..|front|], width) && front[..|front|] == front;
        FirstDivergence(ops, width);
      } else {
        var n :| 0 <= n <= |front| && !IndistinctAfter(front, width, n);
        assert front[..n] == ops[..n];
        assert !IndistinctAfter(ops, width, n);
      }
    }
  }

  lemma RelatedIsIndistinct(r: RowState, c: ColumnState)
    requires Related(r, c) && r.capacity > 0
    ensures Rectangular(ColumnStep(c, Optimize).0)
    ensures AnswerAlike(r, c) && AnswerAlike(RowStep(r, Optimize).0, ColumnStep(c, Optimize).0)
  {
    hide AnswerAlike, ColumnStep, RowStep;
    OptimizeRelated(r, c);
    RelatedAnswersAlike(r, c);
    RelatedAnswersAlike(RowStep(r, Optimize).0, ColumnStep(c, Optimize).0);
  }

  lemma FirstDivergence(ops: seq<Op>, width: nat)
    requires AllFit(ops, width) && ops != [] && AllFit(ops[..|ops| - 1], width) && RelatedAfter(ops[..|ops| - 1], width)
    requires !AgreeableRun(ops) && AgreeableRun(ops[..|ops| - 1])
    ensures !IndistinctAfter(ops, width, |ops|)
  {
    hide AnswerAlike, ColumnStep, RowStep, Related, Near;
    var front, op := ops[..|ops| - 1], ops[|ops| - 1];
    assert ops[..|ops|] == ops;
    StepRelatedExactly(RowRun(front), ColumnRun(front, width), op);
    StepNear(RowRun(front), ColumnRun(front, width), op);
    IdsAhead(ops);
    NearDiverges(RowRun(ops), ColumnRun(ops, width));
  }
}
