/**
  src/index/bitmap_index.c as it runs: arrays of 64-bit blocks written in place, result bitmaps filled
  block by block, and an index whose bitmaps are replaced by larger copies.
*/
module Bitmap {
  import opened BitmapSpec

  class BitArray {
    const blocks: array<Word>
    const bitCount: nat
    ghost var bits: Bits

    /** The ghost value is what the blocks say, and it is well formed. */
    ghost predicate Valid()
      reads this, blocks
      ensures Valid() ==> WellFormed(bits) && bits.count == bitCount
    {
      bits == Bits(blocks[..], bitCount) && WellFormed(bits)
    }

    /** `bitmap_create`. */
    constructor (size: nat)
      requires size + 63 < UINT32_LIMIT
      ensures Valid() && fresh(blocks) && bits == Create(size) && bitCount == size
    {
      CreateRows(size);
      blocks, bitCount, bits := new Word[BlocksFor(size)](_ => 0), size, Create(size);
    }

    /** `bitmap_set`. */
    method Set(position: nat) returns (ok: bool)
      requires Valid()
      modifies `bits, blocks
      ensures Valid() && ok == (position < bitCount) && bits == SetBit(old(bits), position)
      ensures Rows(bits) == if ok then Rows(old(bits)) + {position} else Rows(old(bits))
    {
      hide WellFormed, OrWord, Shifted;
      SetRows(bits, position);
      WithinBlocks(bits);
      if position >= bitCount {
        return false;
      }
      var b := Block(position);
      blocks[b] := OrWord(blocks[b], Shifted(Place(position)));
      bits := SetBit(bits, position);
      return true;
    }

    /** `bitmap_clear`. */
    method Clear(position: nat) returns (ok: bool)
      requires Valid()
      modifies `bits, blocks
      ensures Valid() && ok == (position < bitCount) && bits == ClearBit(old(bits), position)
      ensures Rows(bits) == Rows(old(bits)) - {position}
    {
      hide WellFormed, And, Not, Shifted;
      ClearRows(bits, position);
      WithinBlocks(bits);
      if position >= bitCount {
        return false;
      }
      var b := Block(position);
      blocks[b] := And(blocks[b], Not(Shifted(Place(position))));
      bits := ClearBit(bits, position);
      return true;
    }

    /** `bitmap_test`. */
    method Test(position: nat) returns (r: bool)
      requires Valid()
      ensures r == (position in Rows(bits))
    {
      WithinBlocks(bits);
      if position >= bitCount {
        return false;
      }
      var w, i := blocks[Block(position)], Place(position);
      MaskedBit(w, i);
      return And(w, Shifted(i)) != 0;
    }

    /** `bitmap_and`. */
    static method Intersect(a: BitArray, b: BitArray) returns (r: BitArray)
      requires a.Valid() && b.Valid()
      ensures r.Valid() && fresh(r) && fresh(r.blocks) && r.bits == AndBits(a.bits, b.bits)
      ensures Rows(r.bits) == Rows(a.bits) * Rows(b.bits)
    {
      hide And, Rows;
      AndRows(a.bits, b.bits);
      var size := if a.bitCount < b.bitCount then a.bitCount else b.bitCount;
      r := new BitArray(size);
      ghost var all := AndBits(a.bits, b.bits);
      var i := 0;
      while i < r.blocks.Length
        invariant i <= r.blocks.Length && r.blocks[..i] == all.blocks[..i]
        modifies r.blocks
      {
        r.blocks[i] := And(a.blocks[i], b.blocks[i]);
        i := i + 1;
      }
      r.bits := all;
    }

    /** `bitmap_or`. */
    static method Union(a: BitArray, b: BitArray) returns (r: BitArray)
      requires a.Valid() && b.Valid()
      ensures r.Valid() && fresh(r) && fresh(r.blocks) && r.bits == OrBits(a.bits, b.bits)
      ensures Rows(r.bits) == Rows(a.bits) + Rows(b.bits)
    {
      hide OrWord, Rows, Has, OrBits;
      OrRows(a.bits, b.bits);
      OrBlocksAre(a.bits, b.bits);
      var size := if a.bitCount > b.bitCount then a.bitCount else b.bitCount;
      r := new BitArray(size);
      ghost var all := OrBits(a.bits, b.bits);
      var minBlocks := if a.blocks.Length < b.blocks.Length then a.blocks.Length else b.blocks.Length;
      var i := 0;
      while i < minBlocks
        invariant i <= minBlocks && forall k :: 0 <= k < i ==> r.blocks[k] == all.blocks[k]
        modifies r.blocks
      {
        r.blocks[i] := OrWord(a.blocks[i], b.blocks[i]);
        i := i + 1;
      }
      if a.blocks.Length > b.blocks.Length {
        while i < a.blocks.Length
          invariant minBlocks <= i <= a.blocks.Length && forall k :: 0 <= k < i ==> r.blocks[k] == all.blocks[k]
          modifies r.blocks
        {
          r.blocks[i] := a.blocks[i];
          i := i + 1;
        }
      } else {
        while i < b.blocks.Length
          invariant minBlocks <= i <= b.blocks.Length && forall k :: 0 <= k < i ==> r.blocks[k] == all.blocks[k]
          modifies r.blocks
        {
          r.blocks[i] := b.blocks[i];
          i := i + 1;
        }
      }
      assert r.blocks[..] == all.blocks;
      r.bits := all;
    }

    /** `bitmap_not`. */
    method Complement() returns (r: BitArray)
      requires Valid()
      ensures r.Valid() && fresh(r) && fresh(r.blocks) && r.bits == NotBits(bits)
      ensures forall p: nat :: p in Rows(r.bits) <==> p < bitCount && p !in Rows(bits)
    {
      hide And, Not, Mask, Rows, Has;
      NotRows(bits);
      r := new BitArray(bitCount);
      ghost var all := NotBits(bits);
      var i := 0;
      while i < blocks.Length
        invariant i <= blocks.Length && forall k :: 0 <= k < i ==> r.blocks[k] == Not(blocks[k])
        modifies r.blocks
      {
        r.blocks[i] := Not(blocks[i]);
        i := i + 1;
      }
      if bitCount % 64 != 0 {
        var last := blocks.Length - 1;
        r.blocks[last] := And(r.blocks[last], Mask(bitCount % 64));
      }
      assert r.blocks[..] == all.blocks;
      r.bits := all;
    }

    /** The copy that queries and resizing make: as many blocks as both have room for. */
    method Copy(size: nat) returns (r: BitArray)
      requires Valid() && size + 63 < UINT32_LIMIT && (size >= bitCount || size == 0)
      ensures r.Valid() && fresh(r) && fresh(r.blocks) && r.bits == Resize(bits, size) && r.bitCount == size
    {
      hide Rows;
      ResizeRows(bits, size);
      r := new BitArray(size);
      ghost var all := Resize(bits, size);
      var n := if blocks.Length > r.blocks.Length then r.blocks.Length else blocks.Length;
      var i := 0;
      while i < n
        invariant i <= n && r.blocks[..i] == all.blocks[..i] && r.blocks[n..] == all.blocks[n..]
        modifies r.blocks
      {
        r.blocks[i] := blocks[i];
        i := i + 1;
      }
      assert r.blocks[..] == r.blocks[..n] + r.blocks[n..] && all.blocks == all.blocks[..n] + all.blocks[n..];
      r.bits := all;
    }

    /** The sum of the population counts of the blocks. */
    method Count() returns (count: nat)
      requires Valid()
      ensures count == |Rows(bits)|
    {
      hide PopCount, Rows;
      PopTotalCountsRows(bits);
      count := 0;
      var i := 0;
      while i < blocks.Length
        invariant i <= blocks.Length && count == PopTotal(bits.blocks[..i])
      {
        assert bits.blocks[..i + 1][..i] == bits.blocks[..i];
        count := count + PopCount(blocks[i]);
        i := i + 1;
      }
      assert bits.blocks[..i] == bits.blocks;
    }
  }

  lemma WithinBlocks(b: Bits)
    requires WellFormed(b)
    ensures forall p: nat {:trigger Block(p)} :: p < b.count ==> Block(p) < |b.blocks|
  {
    BlocksForExactly(b.count);
  }

  lemma OrBlocksAre(a: Bits, b: Bits)
    requires WellFormed(a) && WellFormed(b)
    ensures OrBits(a, b).count == Max(a.count, b.count)
    ensures |OrBits(a, b).blocks| == BlocksFor(OrBits(a, b).count) == Max(|a.blocks|, |b.blocks|)
    ensures forall i {:trigger OrBits(a, b).blocks[i]} :: 0 <= i < |OrBits(a, b).blocks| ==>
      OrBits(a, b).blocks[i] ==
      if i >= |b.blocks| then a.blocks[i] else if i >= |a.blocks| then b.blocks[i] else OrWord(a.blocks[i], b.blocks[i])
  {
  }

  class IndexItem {
    const value: string
    var bits: BitArray

    constructor (value: string, bits: BitArray)
      ensures this.value == value && this.bits == bits
    {
      this.value, this.bits := value, bits;
    }
  }

  class BitmapIndex {
    var items: seq<IndexItem>
    var maxBitPosition: nat
    ghost var model: Index
    ghost var nodes: set<IndexItem>
    ghost var maps: set<BitArray>
    ghost var words: set<array<Word>>

    /** No two items share anything. */
    ghost predicate Separate()
      reads this`items, nodes`bits, this`nodes
      requires forall i :: 0 <= i < |items| ==> items[i] in nodes
    {
      forall i, j :: 0 <= i < j < |items| ==>
        items[i] != items[j] && items[i].bits != items[j].bits && items[i].bits.blocks != items[j].bits.blocks
    }

    /** The items are separate, and hold the entries. */
    ghost predicate Holds(entries: seq<Entry>)
      reads this`items, this`nodes, this`maps, this`words, nodes, maps, words
      ensures Holds(entries) ==> |entries| == |items|
    {
      && |entries| == |items|
      && (forall i {:trigger items[i]} :: 0 <= i < |items| ==> items[i] in nodes)
      && (forall i {:trigger items[i].bits} :: 0 <= i < |items| ==>
            items[i].bits in maps && items[i].bits.blocks in words && items[i].bits.Valid())
      && (forall i {:trigger entries[i]} :: 0 <= i < |items| ==> entries[i] == Entry(items[i].value, items[i].bits.bits))
      && Separate()
    }

    lemma Apart(entries: seq<Entry>, i: nat)
      requires Holds(entries) && i < |items|
      ensures forall j {:trigger items[j].bits} :: 0 <= j < |items| && j != i ==>
        items[j] != items[i] && items[j].bits != items[i].bits && items[j].bits.blocks != items[i].bits.blocks
    {
    }

    /** Gives an item another bitmap. */
    method Replace(ghost entries: seq<Entry>, i: nat, bits: BitArray)
      requires Holds(entries) && i < |items| && bits.Valid() && bits !in maps && bits.blocks !in words
      modifies `maps, `words, nodes`bits
      ensures Holds(entries[i := Entry(items[i].value, bits.bits)])
      ensures maps == old(maps) + {bits} && words == old(words) + {bits.blocks}
    {
      Apart(entries, i);
      hide WellFormed;
      items[i].bits := bits;
      maps, words := maps + {bits}, words + {bits.blocks};
    }

    /** Appends an item. */
    method Append(ghost entries: seq<Entry>, value: string, bits: BitArray)
      requires Holds(entries) && bits.Valid() && bits !in maps && bits.blocks !in words
      modifies `items, `nodes, `maps, `words
      ensures Holds(entries + [Entry(value, bits.bits)]) && fresh(nodes - old(nodes))
      ensures maps == old(maps) + {bits} && words == old(words) + {bits.blocks}
    {
      var item := new IndexItem(value, bits);
      items, nodes, maps, words := items + [item], nodes + {item}, maps + {bits}, words + {bits.blocks};
    }

    /** Sets one bit of one item. */
    method Mark(ghost entries: seq<Entry>, i: nat, row: nat) returns (ok: bool)
      requires Holds(entries) && i < |items|
      modifies maps, words
      ensures Holds(entries[i := Entry(entries[i].value, SetBit(entries[i].bits, row))])
      ensures ok == (row < entries[i].bits.count)
    {
      Apart(entries, i);
      ok := items[i].bits.Set(row);
    }

    ghost predicate Valid()
      reads this, nodes, maps, words
    {
      model.max == maxBitPosition && Inv(model) && Holds(model.entries)
    }

    /** `bitmap_index_create`. */
    constructor ()
      ensures Valid() && model == EMPTY && nodes == {} && maps == {} && words == {}
    {
      items, maxBitPosition, model, nodes, maps, words := [], 0, EMPTY, {}, {}, {};
    }

    /** `find_bitmap_index_item`. */
    method FindItem(value: string) returns (index: int)
      requires Holds(model.entries)
      ensures index == if Find(model.entries, value) < |items| then Find(model.entries, value) else -1
    {
      var i := 0;
      while i < |items|
        invariant i <= |items| && forall j :: 0 <= j < i ==> model.entries[j].value != value
      {
        assert model.entries[i].value == items[i].value;
        if items[i].value == value {
          FindIs(model.entries, value, i);
          return i;
        }
        i := i + 1;
      }
      FindIs(model.entries, value, |items|);
      return -1;
    }

    /** `expand_bitmaps`. */
    method Expand(newSize: nat)
      requires Holds(model.entries) && newSize + 63 < UINT32_LIMIT
      requires forall i :: 0 <= i < |items| ==> newSize >= model.entries[i].bits.count || newSize == 0
      modifies `maps, `words, nodes`bits
      ensures Holds(ResizeAll(model.entries, newSize))
      ensures fresh(maps - old(maps)) && fresh(words - old(words))
    {
      hide Holds, Resize, WellFormed;
      ghost var before, after := model.entries, ResizeAll(model.entries, newSize);
      ghost var now := before;
      var i := 0;
      while i < |items|
        invariant i <= |items| == |now|
        invariant forall j :: 0 <= j < |now| ==> now[j] == if j < i then after[j] else before[j]
        invariant Holds(now) && fresh(maps - old(maps)) && fresh(words - old(words))
      {
        var copy := CopyOf(now, i, newSize);
        Replace(now, i, copy);
        now := now[i := after[i]];
        i := i + 1;
      }
      assert now == after;
    }

    /** The resized copy of the bitmap of one item. */
    method CopyOf(ghost entries: seq<Entry>, i: nat, size: nat) returns (r: BitArray)
      requires Holds(entries) && i < |items| && size + 63 < UINT32_LIMIT
      requires size >= entries[i].bits.count || size == 0
      ensures r.Valid() && fresh(r) && fresh(r.blocks) && r.bits == Resize(entries[i].bits, size) && r.bitCount == size
      ensures items[i] in nodes && items[i].value == entries[i].value
    {
      assert entries[i].bits == items[i].bits.bits;
      r := items[i].bits.Copy(size);
    }

    /** `bitmap_index_insert`. */
    method Insert(value: string, row: nat) returns (ok: bool)
      requires Valid() && Allowed(row)
      modifies this, nodes, maps, words
      ensures Valid() && fresh(nodes - old(nodes)) && fresh(maps - old(maps)) && fresh(words - old(words))
      ensures model == InsertStep(old(model), value, row).0 && ok == InsertStep(old(model), value, row).1
    {
      hide Holds, Inv, InsertStep, MakeRoom, WithValue, Find, ResizeAll, SetBit, Create, WellFormed;
      InsertExactly(model, value, row, value);
      InsertCases(model, value, row);
      ghost var after := InsertStep(model, value, row).0;
      ghost var ready := WithValue(MakeRoom(model, row), value);
      if row >= maxBitPosition {
        var newSize := (row + 1) % UINT32_LIMIT;
        Expand(newSize);
        maxBitPosition := newSize;
      }
      model := MakeRoom(model, row);
      var index := FindOrAppend(value);
      model := after;
      ok := Mark(ready.entries, index, row);
    }

    /** Finds the item of a value, or makes one. */
    method FindOrAppend(value: string) returns (index: nat)
      requires Holds(model.entries) && model.max == maxBitPosition && maxBitPosition + 63 < UINT32_LIMIT
      modifies `items, `nodes, `maps, `words
      ensures fresh(nodes - old(nodes)) && fresh(maps - old(maps)) && fresh(words - old(words))
      ensures Holds(WithValue(model, value).entries)
      ensures index == if Find(model.entries, value) < |model.entries| then Find(model.entries, value) else |model.entries|
    {
      hide Holds, Create;
      var found := FindItem(value);
      if found != -1 {
        return found;
      }
      index := |items|;
      var bits := new BitArray(maxBitPosition);
      Append(model.entries, value, bits);
    }

    /** `bitmap_index_query`. */
    method Query(value: string) returns (r: BitArray?)
      requires Valid()
      ensures r != null <==> Known(model, value)
      ensures r != null ==> r.Valid() && fresh(r) && fresh(r.blocks)
      ensures r != null ==> r.bitCount == model.max && Rows(r.bits) == RowsFor(model, value)
    {
      var index := FindItem(value);
      if index == -1 {
        return null;
      }
      var bits := items[index].bits;
      r := bits.Copy(bits.bitCount);
    }

    /** `bitmap_index_get_values`. */
    method GetValues() returns (values: seq<(string, nat)>)
      requires Valid()
      ensures |values| == |model.entries|
      ensures forall i :: 0 <= i < |values| ==>
        values[i].0 == model.entries[i].value && values[i].1 == |RowsFor(model, model.entries[i].value)|
    {
      values := [];
      var i := 0;
      while i < |items|
        invariant i <= |items| && |values| == i
        invariant forall j :: 0 <= j < i ==>
          values[j].0 == model.entries[j].value && values[j].1 == |Rows(model.entries[j].bits)|
      {
        assert model.entries[i] == Entry(items[i].value, items[i].bits.bits);
        var count := items[i].bits.Count();
        values := values + [(items[i].value, count)];
        i := i + 1;
      }
      forall j | 0 <= j < |values|
        ensures RowsFor(model, model.entries[j].value) == Rows(model.entries[j].bits)
      {
        FindIs(model.entries, model.entries[j].value, j);
      }
    }
  }

  /** The three stages of an insertion, one by one. */
  lemma InsertCases(ix: Index, value: string, row: nat)
    requires Inv(ix) && Allowed(row)
    ensures forall i :: 0 <= i < |ix.entries| ==> ix.entries[i].bits.count == ix.max
    ensures var count := (row + 1) % UINT32_LIMIT; var room := MakeRoom(ix, row);
            && room.max + 63 < UINT32_LIMIT
            && (row >= ix.max ==> count >= ix.max || count == 0)
            && room == if row >= ix.max then Index(ResizeAll(ix.entries, count), count) else ix
    ensures var room := MakeRoom(ix, row); var ready := WithValue(room, value);
            var f := Find(room.entries, value); var i := if f < |room.entries| then f else |room.entries|;
            && ready == (if f < |room.entries| then room else Index(room.entries + [Entry(value, Create(room.max))], room.max))
            && i < |ready.entries| && ready.entries[i].value == value
            && InsertStep(ix, value, row).0
               == Index(ready.entries[i := Entry(value, SetBit(ready.entries[i].bits, row))], room.max)
            && InsertStep(ix, value, row).1 == (row < ready.entries[i].bits.count)
  {
    hide Find, SetBit, Create, ResizeAll;
    assert forall i :: 0 <= i < |ix.entries| ==> EntryOk(ix.entries[i], ix.max);
    var room := MakeRoom(ix, row);
    var ready := WithValue(room, value);
    FindIsFirst(room.entries, value);
    var f := Find(room.entries, value);
    FindIs(ready.entries, value, if f < |room.entries| then f else |room.entries|);
  }
}
