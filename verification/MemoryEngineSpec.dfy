/**
  The in-memory engine of src/storage/memory_engine.c as a map from row ids to rows, together with
  the two numbers that steer it: the next row id and the number of hash buckets.
*/
module MemoryEngineSpec {
  import StoreSpec

  type Row = StoreSpec.RowValue

  datatype Table = Table(rows: map<nat, Row>, nextRowId: nat, capacity: nat)

  datatype Op =
    | Insert(row: Row)
    | BatchInsert(batch: seq<Row>)
    | Update(id: nat, row: Row)
    | Delete(id: nat)
    | Optimize

  const INITIAL: Table := Table(map[], 1, StoreSpec.INITIAL_CAPACITY)

  /** Three quarters of the buckets. */
  predicate Full(count: nat, capacity: nat) {
    4 * count >= 3 * capacity
  }

  /** The doubling loop of `memory_engine_batch_insert`. */
  function Room(count: nat, capacity: nat): (r: nat)
    requires capacity > 0
    ensures r >= capacity && !Full(count, r)
    ensures r == capacity || 3 * r <= 8 * count
    decreases 4 * count - 3 * capacity
  {
    if Full(count, capacity) then Room(count, capacity * 2) else capacity
  }

  function AddAll(rows: map<nat, Row>, next: nat, batch: seq<Row>): map<nat, Row> {
    if batch == [] then rows else AddAll(rows, next, batch[..|batch| - 1])[next + |batch| - 1 := batch[|batch| - 1]]
  }

  function InsertStep(t: Table, row: Row): Table
    requires t.capacity > 0
  {
    Table(t.rows[t.nextRowId := row], t.nextRowId + 1, if Full(|t.rows|, t.capacity) then t.capacity * 2 else t.capacity)
  }

  function BatchStep(t: Table, batch: seq<Row>): Table
    requires t.capacity > 0
  {
    if batch == [] then t
    else Table(AddAll(t.rows, t.nextRowId, batch), t.nextRowId + |batch|, Room(|t.rows| + |batch|, t.capacity))
  }

  /** `memory_engine_expand_table` refuses to shrink, so optimizing never moves anything. */
  function Step(t: Table, op: Op): (Table, bool)
    requires t.capacity > 0
  {
    match op
    case Insert(row) => (InsertStep(t, row), true)
    case BatchInsert(batch) => (BatchStep(t, batch), batch != [])
    case Update(id, row) => if id in t.rows then (t.(rows := t.rows[id := row]), true) else (t, false)
    case Delete(id) => if id in t.rows then (t.(rows := t.rows - {id}), true) else (t, false)
    case Optimize => (t, true)
  }

  /**
    Row ids in use lie below the next one; one row fewer would leave the buckets less than three
    quarters full; and the buckets never outgrow the rows ever inserted by more than 8 to 3.
  */
  ghost predicate Inv(t: Table)
    ensures Inv(t) ==> t.capacity >= StoreSpec.INITIAL_CAPACITY
  {
    && t.capacity >= StoreSpec.INITIAL_CAPACITY && t.nextRowId > 0
    && (forall id <- t.rows :: 1 <= id < t.nextRowId)
    && |t.rows| < t.nextRowId
    && 4 * (|t.rows| - 1) < 3 * t.capacity
    && (t.capacity == StoreSpec.INITIAL_CAPACITY || 3 * t.capacity <= 8 * (t.nextRowId - 1))
  }

  lemma {:induction false} AddAllKeys(rows: map<nat, Row>, next: nat, batch: seq<Row>)
    requires forall id <- rows.Keys :: id < next
    ensures forall id :: id in AddAll(rows, next, batch).Keys <==> id in rows.Keys || next <= id < next + |batch|
    ensures |AddAll(rows, next, batch)| == |rows| + |batch|
  {
    if batch != [] {
      AddAllKeys(rows, next, batch[..|batch| - 1]);
      OneMore(AddAll(rows, next, batch[..|batch| - 1]), next + |batch| - 1, batch[|batch| - 1]);
    }
  }

  lemma OneMore(rows: map<nat, Row>, id: nat, row: Row)
    requires id !in rows
    ensures rows[id := row].Keys == rows.Keys + {id} && |rows[id := row]| == |rows| + 1
  {
    assert rows[id := row].Keys == rows.Keys + {id};
    assert |rows[id := row].Keys| == |rows.Keys| + 1;
  }

  lemma {:induction false} AddAllValues(rows: map<nat, Row>, next: nat, batch: seq<Row>, id: nat)
    requires forall id <- rows.Keys :: id < next
    requires id in AddAll(rows, next, batch)
    ensures id < next ==> id in rows && AddAll(rows, next, batch)[id] == rows[id]
    ensures id >= next ==> id - next < |batch| && AddAll(rows, next, batch)[id] == batch[id - next]
  {
    if batch != [] && id != next + |batch| - 1 {
      AddAllValues(rows, next, batch[..|batch| - 1], id);
    }
  }

  /** The next row id is not in use, nor is any after it. */
  ghost predicate IdsBelow(rows: map<nat, Row>, next: nat) {
    forall id <- rows.Keys :: id < next
  }

  lemma BatchFacts(t: Table, batch: seq<Row>)
    requires Inv(t) && batch != []
    ensures IdsBelow(t.rows, t.nextRowId) && Inv(BatchStep(t, batch))
    ensures |AddAll(t.rows, t.nextRowId, batch)| == |t.rows| + |batch|
  {
    hide BatchStep, AddAll;
    assert Step(t, BatchInsert(batch)).0 == BatchStep(t, batch);
    StepKeepsInv(t, BatchInsert(batch));
    AddAllKeys(t.rows, t.nextRowId, batch);
  }

  lemma InsertKeepsInv(t: Table, row: Row)
    requires Inv(t)
    ensures Inv(InsertStep(t, row)) && |InsertStep(t, row).rows| == |t.rows| + 1
  {
    OneMore(t.rows, t.nextRowId, row);
  }

  lemma StepKeepsInv(t: Table, op: Op)
    requires Inv(t)
    ensures Inv(Step(t, op).0)
  {
    match op
    case Insert(row) => InsertKeepsInv(t, row);
    case BatchInsert(batch) => AddAllKeys(t.rows, t.nextRowId, batch);
    case Update(id, row) =>
      if id in t.rows {
        assert t.rows[id := row].Keys == t.rows.Keys;
        assert |t.rows[id := row].Keys| == |t.rows.Keys|;
      }
    case Delete(id) =>
      if id in t.rows {
        assert (t.rows - {id}).Keys == t.rows.Keys - {id};
        assert |(t.rows - {id}).Keys| == |t.rows.Keys| - 1;
      }
    case Optimize =>
  }

  function Run(t: Table, ops: seq<Op>): (r: Table)
    requires t.capacity > 0
    ensures r.capacity > 0
  {
    if ops == [] then t else Step(Run(t, ops[..|ops| - 1]), ops[|ops| - 1]).0
  }

  /** The bounds hold after any run from the empty table. */
  lemma {:induction false} RunKeepsInv(ops: seq<Op>)
    ensures Inv(Run(INITIAL, ops))
  {
    if ops != [] {
      RunKeepsInv(ops[..|ops| - 1]);
      StepKeepsInv(Run(INITIAL, ops[..|ops| - 1]), ops[|ops| - 1]);
    }
  }

  /** A row id is never given out twice: once a row is gone, no later run brings its id back. */
  lemma {:induction false} IdsAreNotReused(t: Table, ops: seq<Op>, id: nat)
    requires Inv(t) && id < t.nextRowId && id !in t.rows
    ensures id !in Run(t, ops).rows && Inv(Run(t, ops)) && t.nextRowId <= Run(t, ops).nextRowId
  {
    if ops != [] {
      var before, op := Run(t, ops[..|ops| - 1]), ops[|ops| - 1];
      IdsAreNotReused(t, ops[..|ops| - 1], id);
      StepKeepsInv(before, op);
      if op.BatchInsert? {
        AddAllKeys(before.rows, before.nextRowId, op.batch);
      }
    }
  }

  function InsertEach(t: Table, batch: seq<Row>): (r: Table)
    requires t.capacity > 0
    ensures r.capacity > 0
  {
    if batch == [] then t else InsertStep(InsertEach(t, batch[..|batch| - 1]), batch[|batch| - 1])
  }

  lemma {:induction false} InsertEachRows(t: Table, batch: seq<Row>)
    requires Inv(t)
    ensures Inv(InsertEach(t, batch)) && |InsertEach(t, batch).rows| == |t.rows| + |batch|
    ensures InsertEach(t, batch).rows == AddAll(t.rows, t.nextRowId, batch)
    ensures InsertEach(t, batch).nextRowId == t.nextRowId + |batch|
  {
    hide Inv, Room, Full;
    if batch != [] {
      InsertEachRows(t, batch[..|batch| - 1]);
      InsertKeepsInv(InsertEach(t, batch[..|batch| - 1]), batch[|batch| - 1]);
    }
  }

  /** One doubling is enough for one row. */
  lemma InsertRoom(t: Table, row: Row)
    requires Inv(t)
    ensures InsertStep(t, row).capacity == Room(|t.rows|, t.capacity)
  {
  }

  /** Inserting one by one doubles just enough for all but the last row. */
  lemma {:induction false} InsertEachCapacity(t: Table, batch: seq<Row>)
    requires Inv(t) && batch != []
    ensures InsertEach(t, batch).capacity == Room(|t.rows| + |batch| - 1, t.capacity)
  {
    hide Inv, Room, Full, InsertStep;
    var front := batch[..|batch| - 1];
    InsertEachRows(t, front);
    InsertRoom(InsertEach(t, front), batch[|batch| - 1]);
    if front == [] {
      assert InsertEach(t, front) == t;
    } else {
      InsertEachCapacity(t, front);
      RoomSteps(|t.rows| + |front| - 1, t.capacity);
    }
  }

  /**
    A batch stores the same rows under the same ids as inserting one by one. Its bucket count is the
    same unless the rows then fill three quarters of the buckets, when it is twice as large.
  */
  lemma BatchIsInserts(t: Table, batch: seq<Row>)
    requires Inv(t) && batch != []
    ensures var one, many := InsertEach(t, batch), BatchStep(t, batch);
            && one.rows == many.rows && one.nextRowId == many.nextRowId
            && many.capacity == if Full(|one.rows|, one.capacity) then one.capacity * 2 else one.capacity
  {
    hide InsertEach, AddAll, Inv;
    InsertEachRows(t, batch);
    InsertEachCapacity(t, batch);
    RoomSteps(|t.rows| + |batch| - 1, t.capacity);
  }

  /** Room for one more is room for these, and then for one more. */
  lemma {:induction false} RoomSteps(count: nat, capacity: nat)
    requires capacity > 0
    ensures Room(count + 1, capacity) == Room(count + 1, Room(count, capacity))
    decreases 4 * count - 3 * capacity
  {
    if Full(count, capacity) {
      RoomSteps(count, capacity * 2);
    }
  }

  // ---------- What is read back ----------

  datatype Reading = NoRow | OneRow(row: Row)

  function Read(t: Table, id: nat): Reading {
    if id in t.rows then OneRow(t.rows[id]) else NoRow
  }

  /** The rows given to insertions and batches, in order: the row with id `n` was the `n`-th given. */
  function Given(ops: seq<Op>): seq<Row> {
    if ops == [] then []
    else
      Given(ops[..|ops| - 1]) + match ops[|ops| - 1]
                                case Insert(row) => [row]
                                case BatchInsert(batch) => batch
                                case _ => []
  }

  /** What the operations alone say of an id: given out, overwritten while it is there, deleted. */
  function Recalled(ops: seq<Op>, id: nat): Reading {
    if ops == [] then NoRow
    else
      var front, before := ops[..|ops| - 1], |Given(ops[..|ops| - 1])|;
      match ops[|ops| - 1]
      case Insert(row) => if id == before + 1 then OneRow(row) else Recalled(front, id)
      case BatchInsert(batch) => if before < id <= before + |batch| then OneRow(batch[id - before - 1]) else Recalled(front, id)
      case Update(updated, row) => if id == updated && Recalled(front, id).OneRow? then OneRow(row) else Recalled(front, id)
      case Delete(deleted) => if id == deleted then NoRow else Recalled(front, id)
      case Optimize => Recalled(front, id)
  }

  /** Ids are given out in order, from 1 on. */
  lemma {:induction false} NextIdExactly(ops: seq<Op>)
    ensures Run(INITIAL, ops).nextRowId == |Given(ops)| + 1
  {
    if ops != [] {
      NextIdExactly(ops[..|ops| - 1]);
    }
  }

  lemma ReadAfterBatch(t: Table, batch: seq<Row>, id: nat)
    requires Inv(t)
    ensures Read(BatchStep(t, batch), id)
         == if t.nextRowId <= id < t.nextRowId + |batch| then OneRow(batch[id - t.nextRowId]) else Read(t, id)
  {
    hide AddAll, Room;
    AddAllKeys(t.rows, t.nextRowId, batch);
    if id in AddAll(t.rows, t.nextRowId, batch) {
      AddAllValues(t.rows, t.nextRowId, batch, id);
    }
  }

  /** After any run the row read under an id is the one last given for it, and there is one exactly if it was not deleted since. */
  lemma {:induction false} RunReads(ops: seq<Op>, id: nat)
    ensures Read(Run(INITIAL, ops), id) == Recalled(ops, id)
  {
    hide Inv, BatchStep;
    if ops != [] {
      var front := ops[..|ops| - 1];
      RunReads(front, id);
      RunKeepsInv(front);
      NextIdExactly(front);
      if ops[|ops| - 1].BatchInsert? {
        ReadAfterBatch(Run(INITIAL, front), ops[|ops| - 1].batch, id);
      }
    }
  }

  /** Updating and deleting succeed exactly if there is such a row; a batch is refused exactly if it is empty. */
  lemma RunAnswers(ops: seq<Op>, op: Op)
    ensures op.Update? || op.Delete? ==> (Step(Run(INITIAL, ops), op).1 <==> Recalled(ops, op.id).OneRow?)
    ensures op.BatchInsert? ==> (Step(Run(INITIAL, ops), op).1 <==> |op.batch| > 0)
    ensures op.Insert? || op.Optimize? ==> Step(Run(INITIAL, ops), op).1
  {
    hide Run;
    if op.Update? || op.Delete? {
      RunReads(ops, op.id);
    }
  }
}
