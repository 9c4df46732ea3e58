/**
  src/storage/memory_engine.c as it runs: an array of buckets, each the head of a doubly linked chain
  of row nodes, relinked in place by insertion, deletion and rehashing. The ghost fields `chains` and
  `nodes` say which node is where. Each operation makes exactly the step of `MemoryEngineSpec`.
*/
module MemoryEngine {
  import opened MemoryEngineSpec
  import StoreSpec

  class RowNode {
    const rowId: nat
    var row: Row
    var next: RowNode?
    var prev: RowNode?

    constructor (rowId: nat, row: Row)
      ensures this.rowId == rowId && this.row == row
    {
      this.rowId, this.row, next, prev := rowId, row, null, null;
    }
  }

  type Chains = seq<seq<RowNode>>

  /** `memory_engine_hash`. */
  function Hash(id: nat, capacity: nat): (h: nat)
    requires capacity > 0
    ensures h < capacity
  {
    id % capacity
  }

  function At(chain: seq<RowNode>, i: int): RowNode? {
    if 0 <= i < |chain| then chain[i] else null
  }

  /** A node put at the head of its bucket. */
  ghost function Place(chains: Chains, x: RowNode): Chains
    requires |chains| > 0
  {
    var h := Hash(x.rowId, |chains|);
    chains[h := [x] + chains[h]]
  }

  /** The chains hold exactly the nodes of the map, each once, in the bucket its id hashes to. */
  ghost predicate Placed(chains: Chains, nodes: map<nat, RowNode>)
    ensures Placed(chains, nodes) ==> |chains| > 0
  {
    && |chains| > 0
    && (forall id <- nodes :: nodes[id].rowId == id && nodes[id] in chains[Hash(id, |chains|)])
    && (forall b, i {:trigger chains[b][i]} :: 0 <= b < |chains| && 0 <= i < |chains[b]| ==>
          && chains[b][i].rowId in nodes && nodes[chains[b][i].rowId] == chains[b][i]
          && Hash(chains[b][i].rowId, |chains|) == b)
    && (forall b, i, j :: 0 <= b < |chains| && 0 <= i < j < |chains[b]| ==> chains[b][i] != chains[b][j])
  }

  /** The node is at position `i` of the chain of its bucket. */
  ghost predicate Located(chains: Chains, node: RowNode, i: nat) {
    |chains| > 0 && var chain := chains[Hash(node.rowId, |chains|)]; i < |chain| && chain[i] == node
  }

  lemma Apart(chains: Chains, nodes: map<nat, RowNode>, b: nat, i: nat)
    requires Placed(chains, nodes) && b < |chains| && i < |chains[b]|
    ensures forall c, j {:trigger chains[c][j]} :: 0 <= c < |chains| && 0 <= j < |chains[c]| && !(c == b && j == i) ==>
      chains[c][j] != chains[b][i]
    ensures chains[b][i].rowId in nodes && nodes[chains[b][i].rowId] == chains[b][i] && Hash(chains[b][i].rowId, |chains|) == b
  {
  }

  lemma NodeIds(chains: Chains, nodes: map<nat, RowNode>)
    requires Placed(chains, nodes)
    ensures forall id <- nodes :: nodes[id].rowId == id
  {
  }

  lemma Apartness(chains: Chains, nodes: map<nat, RowNode>, x: RowNode)
    requires Placed(chains, nodes) && x.rowId !in nodes
    ensures forall c, j {:trigger chains[c][j]} :: 0 <= c < |chains| && 0 <= j < |chains[c]| ==> chains[c][j] != x
  {
  }

  lemma PlaceKeeps(chains: Chains, nodes: map<nat, RowNode>, x: RowNode)
    requires Placed(chains, nodes) && x.rowId !in nodes
    ensures Placed(Place(chains, x), nodes[x.rowId := x])
  {
    hide Hash;
    var h := Hash(x.rowId, |chains|);
    var chains' := Place(chains, x);
    assert chains'[h][0] == x;
    forall id <- nodes
      ensures nodes[id] in chains'[Hash(id, |chains|)]
    {
      var g := Hash(id, |chains|);
      var i :| 0 <= i < |chains[g]| && chains[g][i] == nodes[id];
      if g == h {
        assert chains'[h][i + 1] == nodes[id];
      }
    }
    Apartness(chains, nodes, x);
  }

  lemma RemoveKeeps(chains: Chains, nodes: map<nat, RowNode>, b: nat, i: nat)
    requires Placed(chains, nodes) && b < |chains| && i < |chains[b]|
    ensures Placed(chains[b := chains[b][..i] + chains[b][i + 1..]], nodes - {chains[b][i].rowId})
  {
    hide Hash;
    var rest := chains[b][..i] + chains[b][i + 1..];
    var chains', nodes' := chains[b := rest], nodes - {chains[b][i].rowId};
    forall id <- nodes'
      ensures nodes[id] in chains'[Hash(id, |chains|)]
    {
      var g := Hash(id, |chains|);
      var j :| 0 <= j < |chains[g]| && chains[g][j] == nodes[id];
      if g == b {
        assert rest[if j < i then j else j - 1] == nodes[id];
      }
    }
    Apart(chains, nodes, b, i);
  }

  /** Every bucket points to the head of its chain, and both directions of pointers run through it. */
  ghost predicate Linked(table: array<RowNode?>, chains: Chains, repr: set<RowNode>)
    reads table, repr`next, repr`prev
  {
    && |chains| == table.Length
    && (forall b, i {:trigger chains[b][i]} :: 0 <= b < |chains| && 0 <= i < |chains[b]| ==> chains[b][i] in repr)
    && (forall b {:trigger table[b]} :: 0 <= b < |chains| ==> table[b] == At(chains[b], 0))
    && (forall b, i {:trigger chains[b][i].next} :: 0 <= b < |chains| && 0 <= i < |chains[b]| ==>
          chains[b][i].next == At(chains[b], i + 1))
    && (forall b, i {:trigger chains[b][i].prev} :: 0 <= b < |chains| && 0 <= i < |chains[b]| ==>
          chains[b][i].prev == At(chains[b], i - 1))
  }

  /** The linking code shared by insertion and rehashing. */
  method Push(table: array<RowNode?>, ghost chains: Chains, ghost nodes: map<nat, RowNode>, ghost repr: set<RowNode>,
              x: RowNode)
    requires Linked(table, chains, repr) && Placed(chains, nodes) && x.rowId !in nodes
    modifies table, x`next, x`prev, repr`prev
    ensures Linked(table, Place(chains, x), repr + {x})
    ensures Placed(Place(chains, x), nodes[x.rowId := x])
  {
    hide Placed, Hash;
    PlaceKeeps(chains, nodes, x);
    Apartness(chains, nodes, x);
    var h := Hash(x.rowId, table.Length);
    if chains[h] != [] {
      Apart(chains, nodes, h, 0);
    }
    x.next := table[h];
    x.prev := null;
    if table[h] != null {
      table[h].prev := x;
    }
    table[h] := x;
  }

  /** The nodes carry the rows of the map. */
  ghost predicate Shows(nodes: map<nat, RowNode>, rows: map<nat, Row>, repr: set<RowNode>)
    reads repr`row
  {
    (forall id :: id in nodes <==> id in rows) && (forall id <- nodes :: nodes[id] in repr && nodes[id].row == rows[id])
  }

  lemma SameSize(rows: map<nat, Row>, id: nat, row: Row)
    requires id in rows
    ensures rows[id := row].Keys == rows.Keys && |rows[id := row]| == |rows|
  {
    assert rows[id := row].Keys == rows.Keys;
    assert |rows[id := row].Keys| == |rows.Keys|;
  }

  lemma OneLess(rows: map<nat, Row>, id: nat)
    requires id in rows
    ensures |rows - {id}| == |rows| - 1
  {
    assert (rows - {id}).Keys == rows.Keys - {id};
    assert |(rows - {id}).Keys| == |rows.Keys| - 1;
  }

  /** From position `k` of bucket `i` on, the chains still run forward. */
  ghost predicate Ahead(chains: Chains, repr: set<RowNode>, i: nat, k: nat)
    reads repr`next
  {
    && (forall b, j {:trigger chains[b][j]} :: 0 <= b < |chains| && 0 <= j < |chains[b]| ==> chains[b][j] in repr)
    && (forall b, j {:trigger chains[b][j].next} ::
          (i < b < |chains| && 0 <= j < |chains[b]|) || (b == i < |chains| && k <= j < |chains[b]|) ==>
          chains[b][j].next == At(chains[b], j + 1))
  }

  /** The nodes moved so far are those before position `k` of bucket `i`. */
  ghost predicate MovedTo(chains: Chains, nodes: map<nat, RowNode>, moved: map<nat, RowNode>, i: nat, k: nat) {
    && (forall id <- moved :: id in nodes && moved[id] == nodes[id])
    && (forall b, j {:trigger chains[b][j]} :: 0 <= b < |chains| && 0 <= j < |chains[b]| ==>
          (chains[b][j].rowId in moved <==> b < i || (b == i && j < k)))
  }

  lemma MoveOne(chains: Chains, nodes: map<nat, RowNode>, moved: map<nat, RowNode>, i: nat, k: nat)
    requires Placed(chains, nodes) && MovedTo(chains, nodes, moved, i, k) && i < |chains| && k < |chains[i]|
    ensures chains[i][k].rowId !in moved
    ensures MovedTo(chains, nodes, moved[chains[i][k].rowId := chains[i][k]], i, k + 1)
  {
    hide Hash;
    Apart(chains, nodes, i, k);
  }

  lemma NextBucket(chains: Chains, nodes: map<nat, RowNode>, moved: map<nat, RowNode>, i: nat)
    requires i < |chains| && MovedTo(chains, nodes, moved, i, |chains[i]|)
    ensures MovedTo(chains, nodes, moved, i + 1, 0)
  {
  }

  lemma AllMoved(chains: Chains, nodes: map<nat, RowNode>, moved: map<nat, RowNode>)
    requires Placed(chains, nodes) && MovedTo(chains, nodes, moved, |chains|, 0)
    ensures moved == nodes
  {
    hide Hash;
    forall id <- nodes
      ensures id in moved
    {
      var h := Hash(id, |chains|);
      var j :| 0 <= j < |chains[h]| && chains[h][j] == nodes[id];
    }
  }

  lemma NothingPlaced(chains: Chains)
    requires |chains| > 0 && forall b :: 0 <= b < |chains| ==> chains[b] == []
    ensures Placed(chains, map[])
  {
  }

  lemma ShowsMore(nodes: map<nat, RowNode>, rows: map<nat, Row>, repr: set<RowNode>, node: RowNode)
    requires Shows(nodes, rows, repr)
    ensures node.rowId in nodes <==> node.rowId in rows
    ensures Shows(nodes[node.rowId := node], rows[node.rowId := node.row], repr + {node})
  {
  }

  lemma ShowsLess(nodes: map<nat, RowNode>, rows: map<nat, Row>, repr: set<RowNode>, id: nat)
    requires Shows(nodes, rows, repr)
    ensures id in nodes <==> id in rows
    ensures Shows(nodes - {id}, rows - {id}, repr)
  {
  }

  class MemoryTable {
    var buckets: array<RowNode?>
    var rowCount: nat
    var nextRowId: nat
    ghost var chains: Chains
    ghost var nodes: map<nat, RowNode>
    ghost var rows: map<nat, Row>
    ghost var repr: set<RowNode>
    ghost var model: Table

    ghost predicate Sound()
      reads this`buckets, this`chains, this`nodes, this`rows, this`repr, buckets, repr
      ensures Sound() ==> buckets.Length > 0
    {
      Placed(chains, nodes) && Linked(buckets, chains, repr) && Shows(nodes, rows, repr)
    }

    ghost predicate Valid()
      reads this, buckets, repr
    {
      Sound() && rowCount == |rows| && Inv(model)
      && model.rows == rows && model.nextRowId == nextRowId && model.capacity == buckets.Length
    }

    /** `memory_engine_create_table`. */
    constructor ()
      ensures Valid() && fresh(buckets) && repr == {} && model == INITIAL
    {
      buckets := new RowNode?[StoreSpec.INITIAL_CAPACITY](_ => null);
      rowCount, nextRowId := 0, 1;
      chains, nodes, rows, repr, model := seq(StoreSpec.INITIAL_CAPACITY, _ => []), map[], map[], {}, INITIAL;
    }

    /** `memory_engine_expand_table`: every node is pushed onto its bucket in a larger table. */
    method Expand(newCapacity: nat) returns (ok: bool)
      requires Sound()
      modifies this`buckets, this`chains, repr`next, repr`prev
      ensures Sound() && ok == (newCapacity > old(buckets.Length))
      ensures if ok then buckets.Length == newCapacity && fresh(buckets) else buckets == old(buckets) && chains == old(chains)
    {
      hide Placed, Hash, Shows;
      if newCapacity <= buckets.Length {
        return false;
      }
      var table := new RowNode?[newCapacity](_ => null);
      ghost var fresher: Chains := seq(newCapacity, _ => []);
      ghost var moved: map<nat, RowNode> := map[];
      NothingPlaced(fresher);
      var i := 0;
      while i < buckets.Length
        invariant i <= buckets.Length
        invariant Linked(table, fresher, repr) && Placed(fresher, moved) && Ahead(chains, repr, i, 0)
        invariant MovedTo(chains, nodes, moved, i, 0)
        modifies table, repr`next, repr`prev
      {
        fresher, moved := MoveChain(table, i, fresher, moved);
        i := i + 1;
      }
      AllMoved(chains, nodes, moved);
      buckets, chains := table, fresher;
      return true;
    }

    /** The inner loop of rehashing: the nodes of bucket `i`, from its head on. */
    method MoveChain(table: array<RowNode?>, i: nat, ghost fresher: Chains, ghost moved: map<nat, RowNode>)
      returns (ghost fresher': Chains, ghost moved': map<nat, RowNode>)
      requires Placed(chains, nodes) && i < buckets.Length == |chains| && buckets[i] == At(chains[i], 0) && table != buckets
      requires Linked(table, fresher, repr) && Placed(fresher, moved) && Ahead(chains, repr, i, 0)
      requires MovedTo(chains, nodes, moved, i, 0)
      modifies table, repr`next, repr`prev
      ensures Linked(table, fresher', repr) && Placed(fresher', moved') && Ahead(chains, repr, i + 1, 0)
      ensures MovedTo(chains, nodes, moved', i + 1, 0)
    {
      hide Placed, Hash, MovedTo;
      fresher', moved' := fresher, moved;
      var row := buckets[i];
      ghost var k := 0;
      while row != null
        invariant k <= |chains[i]| && row == At(chains[i], k)
        invariant Linked(table, fresher', repr) && Placed(fresher', moved') && Ahead(chains, repr, i, k)
        invariant MovedTo(chains, nodes, moved', i, k)
        decreases |chains[i]| - k
      {
        var next := row.next;
        MoveOne(chains, nodes, moved', i, k);
        Apart(chains, nodes, i, k);
        Push(table, fresher', moved', repr, row);
        fresher', moved' := Place(fresher', row), moved'[row.rowId := row];
        row, k := next, k + 1;
      }
      NextBucket(chains, nodes, moved', i);
    }

    /** What insertion does once there is room: a new id and a new node at the head of its bucket. */
    method AddNode(row: Row)
      requires Sound() && nextRowId !in rows
      modifies this`nextRowId, this`chains, this`nodes, this`rows, this`repr, buckets, repr`prev
      ensures Sound() && fresh(repr - old(repr))
      ensures nextRowId == old(nextRowId) + 1 && rows == old(rows)[old(nextRowId) := row]
    {
      hide Placed, Linked, Hash, Place, Shows;
      var node := new RowNode(nextRowId, row);
      ShowsMore(nodes, rows, repr, node);
      nextRowId := nextRowId + 1;
      Push(buckets, chains, nodes, repr, node);
      chains, nodes := Place(chains, node), nodes[node.rowId := node];
      rows, repr := rows[node.rowId := row], repr + {node};
    }

    /** `memory_engine_insert`. */
    method Insert(row: Row) returns (ok: bool)
      requires Valid()
      modifies this, buckets, repr
      ensures Valid() && fresh(repr - old(repr)) && (buckets == old(buckets) || fresh(buckets))
      ensures ok && model == Step(old(model), MemoryEngineSpec.Insert(row)).0
    {
      hide Sound, Inv;
      InsertKeepsInv(model, row);
      model := InsertStep(model, row);
      if 4 * rowCount >= 3 * buckets.Length {
        var _ := Expand(buckets.Length * 2);
      }
      AddNode(row);
      rowCount := rowCount + 1;
      return true;
    }

    /** The insertion loop of `memory_engine_batch_insert`. */
    method AddNodes(batch: seq<Row>)
      requires Sound() && IdsBelow(rows, nextRowId)
      modifies this`nextRowId, this`chains, this`nodes, this`rows, this`repr, buckets, repr
      ensures Sound() && fresh(repr - old(repr))
      ensures nextRowId == old(nextRowId) + |batch| && rows == AddAll(old(rows), old(nextRowId), batch)
    {
      hide Sound;
      var i := 0;
      while i < |batch|
        invariant i <= |batch| && Sound() && fresh(repr - old(repr))
        invariant nextRowId == old(nextRowId) + i && rows == AddAll(old(rows), old(nextRowId), batch[..i])
      {
        AddAllKeys(old(rows), old(nextRowId), batch[..i]);
        assert batch[..i + 1][..i] == batch[..i];
        AddNode(batch[i]);
        i := i + 1;
      }
      assert batch[..i] == batch;
    }

    /** `memory_engine_batch_insert`. */
    method BatchInsert(batch: seq<Row>) returns (ok: bool)
      requires Valid()
      modifies this, buckets, repr
      ensures Valid() && fresh(repr - old(repr)) && (buckets == old(buckets) || fresh(buckets))
      ensures model == Step(old(model), MemoryEngineSpec.BatchInsert(batch)).0
      ensures ok == Step(old(model), MemoryEngineSpec.BatchInsert(batch)).1
    {
      hide Sound, Inv, AddAll, IdsBelow;
      if batch == [] {
        return false;
      }
      BatchFacts(model, batch);
      model := BatchStep(model, batch);
      if 4 * (rowCount + |batch|) >= 3 * buckets.Length {
        var newCapacity := buckets.Length;
        while 4 * (rowCount + |batch|) >= 3 * newCapacity
          invariant newCapacity >= buckets.Length
          invariant Room(rowCount + |batch|, newCapacity) == Room(rowCount + |batch|, buckets.Length)
          decreases 4 * (rowCount + |batch|) - 3 * newCapacity
        {
          newCapacity := newCapacity * 2;
        }
        var _ := Expand(newCapacity);
      }
      AddNodes(batch);
      rowCount := rowCount + |batch|;
      return true;
    }

    /** `memory_engine_optimize`: its only effect would be to shrink the table, which expanding refuses to do. */
    method Optimize()
      requires Valid()
      modifies this, repr
      ensures Valid() && buckets == old(buckets) && chains == old(chains)
      ensures model == Step(old(model), MemoryEngineSpec.Optimize).0
    {
      hide Sound, Inv;
      if 4 * rowCount < buckets.Length {
        var newCapacity := buckets.Length / 2;
        if newCapacity < StoreSpec.INITIAL_CAPACITY {
          newCapacity := StoreSpec.INITIAL_CAPACITY;
        }
        var _ := Expand(newCapacity);
      }
    }

    /** The walk along a chain that update, delete and select begin with. */
    method Find(id: nat) returns (node: RowNode?, ghost i: nat)
      requires Sound()
      ensures Sound()
      ensures node != null <==> id in rows
      ensures node != null ==> node.rowId == id && node.row == rows[id] && Located(chains, node, i)
    {
      hide Hash;
      var h := Hash(id, buckets.Length);
      node, i := buckets[h], 0;
      while node != null
        invariant i <= |chains[h]| && node == At(chains[h], i)
        invariant forall j :: 0 <= j < i ==> chains[h][j].rowId != id
        decreases |chains[h]| - i
      {
        if node.rowId == id {
          return;
        }
        assert chains[h][i].next == node.next;
        node, i := node.next, i + 1;
      }
    }

    /** `memory_engine_select`, up to the copy it returns. */
    method Select(id: nat) returns (r: (bool, Row))
      requires Valid()
      ensures Valid()
      ensures r.0 == (id in model.rows) && (r.0 ==> r.1 == model.rows[id])
    {
      hide Placed, Linked, Hash, Inv;
      ghost var i: nat;
      var node;
      node, i := Find(id);
      if node != null {
        Apart(chains, nodes, Hash(node.rowId, |chains|), i);
      }
      if node == null {
        return (false, StoreSpec.RowValue([], false));
      }
      return (true, node.row);
    }

    /** `memory_engine_update`. */
    method Update(id: nat, row: Row) returns (ok: bool)
      requires Valid()
      modifies this, repr
      ensures Valid() && buckets == old(buckets) && repr == old(repr)
      ensures model == Step(old(model), MemoryEngineSpec.Update(id, row)).0
      ensures ok == Step(old(model), MemoryEngineSpec.Update(id, row)).1
    {
      hide Sound, Hash, Located, Inv, InsertStep, BatchStep;
      StepKeepsInv(model, MemoryEngineSpec.Update(id, row));
      if id in rows {
        SameSize(rows, id, row);
      }
      ghost var i: nat;
      var node;
      node, i := Find(id);
      if node == null {
        return false;
      }
      SetRow(node, i, row);
      model := Step(model, MemoryEngineSpec.Update(id, row)).0;
      return true;
    }

    method SetRow(node: RowNode, ghost i: nat, row: Row)
      requires Sound() && Located(chains, node, i)
      modifies this`rows, repr`row
      ensures Sound() && rows == old(rows)[node.rowId := row]
    {
      hide Linked, Placed;
      Apart(chains, nodes, Hash(node.rowId, |chains|), i);
      NodeIds(chains, nodes);
      node.row := row;
      rows := rows[node.rowId := row];
    }

    /** `memory_engine_delete`. */
    method Delete(id: nat) returns (ok: bool)
      requires Valid()
      modifies this, buckets, repr
      ensures Valid() && buckets == old(buckets) && repr == old(repr)
      ensures model == Step(old(model), MemoryEngineSpec.Delete(id)).0
      ensures ok == Step(old(model), MemoryEngineSpec.Delete(id)).1
    {
      hide Sound, Hash, Located, Inv, InsertStep, BatchStep;
      StepKeepsInv(model, MemoryEngineSpec.Delete(id));
      ghost var i: nat;
      var node;
      node, i := Find(id);
      if node == null {
        return false;
      }
      model := Step(model, MemoryEngineSpec.Delete(id)).0;
      Unlink(node, i);
      return true;
    }

    /** Takes the node out of its chain, the map and the count. */
    method Unlink(node: RowNode, ghost i: nat)
      requires Sound() && Located(chains, node, i) && rowCount == |rows|
      modifies this`chains, this`nodes, this`rows, this`rowCount, buckets, repr`next, repr`prev
      ensures Sound() && node.rowId in old(rows) && rows == old(rows) - {node.rowId} && rowCount == |rows|
    {
      hide Hash, Placed, Linked, Shows, Located;
      InRows(node, i);
      ShowsLess(nodes, rows, repr, node.rowId);
      OneLess(rows, node.rowId);
      Detach(node, i);
      rows := rows - {node.rowId};
      rowCount := rowCount - 1;
    }

    lemma InRows(node: RowNode, i: nat)
      requires Sound() && Located(chains, node, i)
      ensures node.rowId in nodes && node.rowId in rows
    {
      hide Hash, Linked;
      Apart(chains, nodes, Hash(node.rowId, |chains|), i);
    }

    /** Takes the node out of its chain alone. */
    method Detach(node: RowNode, ghost i: nat)
      requires Linked(buckets, chains, repr) && Placed(chains, nodes) && Located(chains, node, i)
      modifies this`chains, this`nodes, buckets, repr`next, repr`prev
      ensures Linked(buckets, chains, repr) && Placed(chains, nodes) && nodes == old(nodes) - {node.rowId}
    {
      hide Hash, Placed, Linked;
      ghost var h := Hash(node.rowId, |chains|);
      RemoveKeeps(chains, nodes, h, i);
      Cut(buckets, chains, nodes, repr, node, i);
      chains, nodes := chains[h := chains[h][..i] + chains[h][i + 1..]], nodes - {node.rowId};
    }
  }

  /** The unlinking code of deletion. */
  method Cut(table: array<RowNode?>, ghost chains: Chains, ghost nodes: map<nat, RowNode>, ghost repr: set<RowNode>,
             node: RowNode, ghost i: nat)
    requires Linked(table, chains, repr) && Placed(chains, nodes)
    requires Located(chains, node, i)
    modifies table, repr`next, repr`prev
    ensures var h := Hash(node.rowId, |chains|);
            var chains' := chains[h := chains[h][..i] + chains[h][i + 1..]];
            Linked(table, chains', repr)
  {
    hide Hash, Placed;
    var h := Hash(node.rowId, table.Length);
    Apart(chains, nodes, h, i);
    ghost var chain, rest := chains[h], chains[h][..i] + chains[h][i + 1..];
    if i > 0 {
      Apart(chains, nodes, h, i - 1);
    }
    if i + 1 < |chain| {
      Apart(chains, nodes, h, i + 1);
    }
    assert chains[h][i].next == node.next && chains[h][i].prev == node.prev;
    if node.prev != null {
      node.prev.next := node.next;
    } else {
      table[h] := node.next;
    }
    if node.next != null {
      node.next.prev := node.prev;
    }
    forall j | 0 <= j < |rest|
      ensures rest[j].prev == At(rest, j - 1) && rest[j].next == At(rest, j + 1)
    {
      var k := if j < i then j else j + 1;
      assert rest[j] == chains[h][k];
    }
  }
}
