/**
  src/index/lsm_tree.c as it runs: memtables are byte buffers appended at `size` and parsed by offset,
  the active one is frozen and replaced when full, and a flush writes the frozen bytes to a file.
  Each operation makes exactly the step of `LsmSpec`. Only level 0 ever has files, because compaction
  moves nothing. Whether a file opens, and in which second, are parameters.
*/
module Lsm {
  import opened LsmSpec

  class MemTable {
    const data: array<byte>
    var size: nat
    var immutable: bool
    ghost var entries: seq<Entry>

    ghost predicate Valid()
      reads this, data
      ensures Valid() ==> size <= data.Length && |Encode(entries)| == size
    {
      size <= data.Length && data[..size] == Encode(entries)
    }

    /** `memtable_create`. */
    constructor (capacity: nat)
      ensures Valid() && fresh(data) && data.Length == capacity && entries == [] && !immutable
    {
      data, size, immutable, entries := new byte[capacity](_ => 0), 0, false, [];
    }

    /** `memcpy` into the buffer. */
    method Write(at: nat, bytes: Bytes)
      requires at + |bytes| <= data.Length
      modifies data
      ensures data[..at + |bytes|] == old(data[..at]) + bytes
    {
      var i := 0;
      while i < |bytes|
        invariant i <= |bytes| && data[..at + i] == old(data[..at]) + bytes[..i]
      {
        data[at + i] := bytes[i];
        i := i + 1;
      }
    }

    /** `memtable_put`; sizes are such that the sum does not wrap. */
    method Put(e: Entry) returns (ok: bool)
      requires Valid() && size + EntrySize(e) < UINT32_LIMIT
      modifies this`size, this`entries, data
      ensures Valid() && ok == (!immutable && old(size) + EntrySize(e) <= data.Length)
      ensures entries == if ok then old(entries) + [e] else old(entries)
    {
      hide Encode, Le32;
      if immutable || size + |e.key| + |e.value| + 8 > data.Length {
        return false;
      }
      EncodeAppend(entries, e);
      Write(size, Le32(|e.key|));
      Write(size + 4, Le32(|e.value|));
      Write(size + 8, e.key);
      Write(size + 8 + |e.key|, e.value);
      size, entries := size + 8 + |e.key| + |e.value|, entries + [e];
      return true;
    }

    /** `memtable_get`. */
    method Get(key: Bytes) returns (r: Outcome)
      requires Valid()
      ensures Valid() && r == Scan(Encode(entries), key, 0) == Lookup(entries, key)
    {
      hide Encode, Scan, Le32At, FirstMatch;
      ScanWhole(entries, key);
      OffsetEnds(entries);
      var used := data[..size];
      var offset := 0;
      ghost var n := 0;
      while offset < size
        invariant n <= FirstMatch(entries, key) && offset == Offset(entries, n) <= size
        decreases size - offset
      {
        EntryAt(entries, n);
        var keySize, valueSize := Le32At(used, offset), Le32At(used, offset + 4);
        if keySize == |key| && used[offset + 8..offset + 8 + keySize] == key {
          return Found(used[offset + 8 + keySize..offset + 8 + keySize + valueSize]);
        }
        assert entries[n].key != key;
        offset := offset + 8 + keySize + valueSize;
        n := n + 1;
      }
      if n < |entries| {
        EntryAt(entries, n);
      }
      return Missing;
    }
  }

  /** What a flush writes: the number of entries, then the entries. */
  ghost function FileBytes(entries: seq<Entry>): Bytes
    requires |entries| < UINT32_LIMIT
  {
    Le32(|entries|) + Encode(entries)
  }

  /** The files hold the entries they were flushed with. */
  ghost predicate Holds(files: map<nat, Bytes>, disk: map<nat, seq<Entry>>) {
    && (forall t :: t in disk <==> t in files)
    && (forall t <- disk :: |disk[t]| < UINT32_LIMIT && files[t] == FileBytes(disk[t]))
  }

  /** `sstable_get` on the bytes of the file. */
  method SearchFile(file: Bytes, key: Bytes) returns (r: Outcome)
    requires |file| >= 4
    ensures r == Scan(Loaded(file[4..]), key, 0)
  {
    hide Le32At;
    var data := if |file| - 4 <= READ_CAP then file[4..] else file[4..4 + READ_CAP];
    assert data == Loaded(file[4..]);
    var offset := 0;
    while offset < |data|
      invariant Scan(data, key, offset) == Scan(data, key, 0)
      decreases |data| - offset
    {
      if offset + 8 > |data| {
        return Overrun;
      }
      var keySize, valueSize := Le32At(data, offset), Le32At(data, offset + 4);
      if keySize == |key| {
        if offset + 8 + keySize > |data| {
          return Overrun;
        }
        if data[offset + 8..offset + 8 + keySize] == key {
          if offset + 8 + keySize + valueSize > |data| {
            return Overrun;
          }
          return Found(data[offset + 8 + keySize..offset + 8 + keySize + valueSize]);
        }
      }
      offset := offset + 8 + keySize + valueSize;
    }
    return Missing;
  }

  class LsmTree {
    var active: MemTable
    var frozen: MemTable?
    var tables: seq<Table>
    var files: map<nat, Bytes>
    ghost var disk: map<nat, seq<Entry>>

    ghost predicate Valid()
      reads this, active, active.data, if frozen == null then {} else {frozen, frozen.data}
    {
      && active.Valid() && !active.immutable && active.data.Length == MEMTABLE_SIZE
      && (frozen != null ==>
            frozen != active && frozen.data != active.data && frozen.Valid() && frozen.data.Length == MEMTABLE_SIZE)
      && Holds(files, disk) && Listed(tables, disk)
    }

    ghost function Value(): Lsm
      reads this, active, if frozen == null then {} else {frozen}
    {
      Lsm(active.entries, if frozen == null then Nothing else Frozen(frozen.entries), tables, disk)
    }

    /** `lsm_tree_create`. */
    constructor ()
      ensures Valid() && fresh(active) && fresh(active.data) && Value() == INITIAL
    {
      active := new MemTable(MEMTABLE_SIZE);
      frozen, tables, files, disk := null, [], map[], map[];
    }

    /** `flush_memtable_to_sstable`: counts the entries by parsing them, then writes count and bytes. */
    method WriteFile(table: MemTable, file: nat) returns (t: Table)
      requires table.Valid() && table.data.Length == MEMTABLE_SIZE && Holds(files, disk)
      modifies this`files, this`disk
      ensures Holds(files, disk) && disk == old(disk)[file := table.entries]
      ensures t == Table(file, |table.entries|)
    {
      hide Encode, Le32, Le32At;
      OffsetEnds(table.entries);
      EntriesAreFew(table.entries);
      var count, offset := 0, 0;
      while offset < table.size
        invariant count <= |table.entries| && offset == Offset(table.entries, count) <= table.size
        decreases table.size - offset
        modifies {}
      {
        EntryAt(table.entries, count);
        var keySize, valueSize := Le32At(table.data[..table.size], offset), Le32At(table.data[..table.size], offset + 4);
        offset := offset + 8 + keySize + valueSize;
        count := count + 1;
      }
      if count < |table.entries| {
        EntryAt(table.entries, count);
      }
      files := files[file := Le32(count) + table.data[..table.size]];
      disk := disk[file := table.entries];
      return Table(file, count);
    }

    /** `lsm_tree_flush`. */
    method Flush(clock: nat, opens: bool) returns (ok: bool)
      requires Valid()
      modifies this
      ensures Valid() && active == old(active) && (frozen == null || frozen == old(frozen))
      ensures Value() == FlushStep(old(Value()), clock, opens).0 && ok == FlushStep(old(Value()), clock, opens).1
    {
      if frozen == null {
        return true;
      }
      if !opens {
        return false;
      }
      var t := WriteFile(frozen, clock);
      tables := tables + [t];
      frozen := null;
      return true;
    }

    /** `lsm_tree_insert`. */
    method Insert(e: Entry, clock: nat, opens: bool) returns (ok: bool)
      requires Valid() && MEMTABLE_SIZE + EntrySize(e) < UINT32_LIMIT
      modifies this, active, active.data
      ensures Valid() && (active == old(active) || (fresh(active) && fresh(active.data)))
      ensures Value() == InsertStep(old(Value()), e, clock, opens).0 && ok == InsertStep(old(Value()), e, clock, opens).1
    {
      hide Encode, Holds, FlushStep;
      ok := active.Put(e);
      if ok {
        return true;
      }
      if frozen == null {
        active.immutable := true;
        frozen := active;
        active := new MemTable(MEMTABLE_SIZE);
        var _ := Flush(clock, opens);
      }
      ok := active.Put(e);
    }

    /** `lsm_tree_get`. */
    method Get(key: Bytes) returns (r: Outcome)
      requires Valid()
      ensures r == GetStep(Value(), key)
    {
      hide Encode, Scan, Loaded, Lookup;
      ScanWhole([], key);
      NothingFound(key);
      r := active.Get(key);
      if r != Missing {
        return;
      }
      if frozen != null {
        r := frozen.Get(key);
        if r != Missing {
          return;
        }
      }
      var j := 0;
      while j < |tables|
        invariant j <= |tables| && r == Missing && TablesLookup(tables[..j], disk, key) == Missing
      {
        assert tables[..j + 1][..j] == tables[..j];
        r := SearchFile(files[tables[j].file], key);
        assert files[tables[j].file][4..] == Encode(disk[tables[j].file]);
        j := j + 1;
        if r != Missing {
          TablesLookupStops(tables, disk, key, j);
          return;
        }
      }
      assert tables[..j] == tables;
    }
  }

  lemma {:induction false} TablesLookupStops(tables: seq<Table>, disk: map<nat, seq<Entry>>, key: Bytes, n: nat)
    requires Listed(tables, disk) && n <= |tables| && TablesLookup(tables[..n], disk, key) != Missing
    ensures TablesLookup(tables, disk, key) == TablesLookup(tables[..n], disk, key)
    decreases |tables|
  {
    if n < |tables| {
      assert tables[..|tables| - 1][..n] == tables[..n];
      TablesLookupStops(tables[..|tables| - 1], disk, key, n);
    } else {
      assert tables[..n] == tables;
    }
  }
}
