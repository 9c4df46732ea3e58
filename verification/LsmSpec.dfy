/**
  The byte format and the layers of src/index/lsm_tree.c. A memtable is a run of length-prefixed
  entries; a flush writes the run to a file named by level and second; a lookup scans the active
  memtable, the frozen one and the files in the order they were flushed.
*/
module LsmSpec {

  type byte = x: int | 0 <= x < 256

  type Bytes = seq<byte>

  const UINT32_LIMIT: nat := 0x1_0000_0000

  /** LSM_MEMTABLE_MAX_SIZE. */
  const MEMTABLE_SIZE: nat := 1024 * 1024 * 10

  /** How much of a file `sstable_get` loads. */
  const READ_CAP: nat := 1024 * 1024

  datatype RawEntry = Entry(key: Bytes, value: Bytes)

  type Entry = e: RawEntry | |e.key| < UINT32_LIMIT && |e.value| < UINT32_LIMIT witness RawEntry.Entry([], [])

  /** `Overrun`: the scan needs a byte past the ones it was given. */
  datatype Outcome = Found(value: Bytes) | Missing | Overrun

  // ---------- Bytes ----------

  /** A 32-bit number as it lies in memory, lowest byte first. */
  function Le32(n: nat): (b: Bytes)
    requires n < UINT32_LIMIT
    ensures |b| == 4
  {
    [n % 0x100, n / 0x100 % 0x100, n / 0x100 / 0x100 % 0x100, n / 0x100 / 0x100 / 0x100]
  }

  function Le32At(b: Bytes, i: nat): nat
    requires i + 4 <= |b|
  {
    b[i] as int + 0x100 * (b[i + 1] as int + 0x100 * (b[i + 2] as int + 0x100 * b[i + 3] as int))
  }

  lemma Le32RoundTrip(n: nat)
    requires n < UINT32_LIMIT
    ensures Le32At(Le32(n), 0) == n
  {
  }

  function EntrySize(e: RawEntry): nat {
    8 + |e.key| + |e.value|
  }

  function EncodeEntry(e: Entry): (b: Bytes)
    ensures |b| == EntrySize(e)
  {
    Le32(|e.key|) + Le32(|e.value|) + e.key + e.value
  }

  function Encode(entries: seq<Entry>): Bytes {
    if entries == [] then [] else Encode(entries[..|entries| - 1]) + EncodeEntry(entries[|entries| - 1])
  }

  /** Where entry `n` begins. */
  function Offset(entries: seq<Entry>, n: nat): nat
    requires n <= |entries|
  {
    |Encode(entries[..n])|
  }

  lemma {:induction false} PrefixEncodes(entries: seq<Entry>, n: nat)
    requires n <= |entries|
    ensures Offset(entries, n) <= |Encode(entries)|
    ensures Encode(entries)[..Offset(entries, n)] == Encode(entries[..n])
    decreases |entries|
  {
    if n < |entries| {
      var front := entries[..|entries| - 1];
      PrefixEncodes(front, n);
      assert front[..n] == entries[..n];
    } else {
      assert entries[..n] == entries;
    }
  }

  /** Entry `n` can be read back from the bytes, field by field, and entry `n + 1` begins where it ends. */
  lemma EntryAt(entries: seq<Entry>, n: nat)
    requires n < |entries|
    ensures var b, o, e := Encode(entries), Offset(entries, n), entries[n];
            && Offset(entries, n + 1) == o + EntrySize(e) <= |b|
            && Le32At(b, o) == |e.key| && Le32At(b, o + 4) == |e.value|
            && b[o + 8..o + 8 + |e.key|] == e.key
            && b[o + 8 + |e.key|..o + EntrySize(e)] == e.value
  {
    hide Encode, EncodeEntry, Le32At;
    var b, o, e := Encode(entries), Offset(entries, n), entries[n];
    PrefixEncodes(entries, n + 1);
    OneMore(entries, n);
    assert b[o..o + EntrySize(e)] == b[..o + EntrySize(e)][o..] == EncodeEntry(e);
    FieldsOf(b, o, e);
  }

  lemma OneMore(entries: seq<Entry>, n: nat)
    requires n < |entries|
    ensures Encode(entries[..n + 1]) == Encode(entries[..n]) + EncodeEntry(entries[n])
  {
    assert entries[..n + 1][..n] == entries[..n];
  }

  lemma SubSlice(b: Bytes, lo: nat, hi: nat, m: nat, n: nat)
    requires lo <= hi <= |b| && m <= n <= hi - lo
    ensures b[lo..hi][m..n] == b[lo + m..lo + n]
  {
    var x, y := b[lo..hi][m..n], b[lo + m..lo + n];
    assert |x| == |y|;
    forall i | 0 <= i < |x|
      ensures x[i] == y[i]
    {
      assert x[i] == b[lo..hi][m + i] == b[lo + (m + i)];
    }
  }

  lemma FieldsOf(b: Bytes, o: nat, e: Entry)
    requires o + EntrySize(e) <= |b| && b[o..o + EntrySize(e)] == EncodeEntry(e)
    ensures Le32At(b, o) == |e.key| && Le32At(b, o + 4) == |e.value|
    ensures b[o + 8..o + 8 + |e.key|] == e.key
    ensures b[o + 8 + |e.key|..o + EntrySize(e)] == e.value
  {
    hide Le32;
    var x, k, v := b[o..o + EntrySize(e)], Le32(|e.key|), Le32(|e.value|);
    forall i | 0 <= i < 4
      ensures b[o + i] == k[i] && b[o + 4 + i] == v[i]
    {
      assert x[i] == k[i] && x[4 + i] == v[i];
    }
    Le32RoundTrip(|e.key|);
    Le32RoundTrip(|e.value|);
    assert x[8..8 + |e.key|] == e.key;
    SubSlice(b, o, o + EntrySize(e), 8, 8 + |e.key|);
    SubSlice(b, o, o + EntrySize(e), 8 + |e.key|, EntrySize(e));
    assert x[8 + |e.key|..] == e.value;
  }

  lemma OffsetEnds(entries: seq<Entry>)
    ensures Offset(entries, 0) == 0 && Offset(entries, |entries|) == |Encode(entries)|
  {
    assert entries[..|entries|] == entries;
  }

  lemma EncodeAppend(entries: seq<Entry>, e: Entry)
    ensures Encode(entries + [e]) == Encode(entries) + Le32(|e.key|) + Le32(|e.value|) + e.key + e.value
  {
    hide Le32;
    assert (entries + [e])[..|entries|] == entries;
  }

  /** Every entry takes at least its two length fields. */
  lemma {:induction false} EntriesAreFew(entries: seq<Entry>)
    ensures 8 * |entries| <= |Encode(entries)|
  {
    if entries != [] {
      EntriesAreFew(entries[..|entries| - 1]);
    }
  }

  // ---------- Scanning ----------

  /** The loop of `memtable_get` and `sstable_get` from one offset on. */
  function Scan(data: Bytes, key: Bytes, offset: nat): Outcome
    decreases |data| - offset
  {
    if offset >= |data| then Missing
    else if offset + 8 > |data| then Overrun
    else
      var keySize, valueSize := Le32At(data, offset), Le32At(data, offset + 4);
      var end := offset + 8 + keySize + valueSize;
      if keySize != |key| then Scan(data, key, end)
      else if offset + 8 + keySize > |data| then Overrun
      else if data[offset + 8..offset + 8 + keySize] != key then Scan(data, key, end)
      else if end > |data| then Overrun
      else Found(data[offset + 8 + keySize..end])
  }

  /** The position of the first entry with this key, or their number. */
  function FirstMatch(entries: seq<Entry>, key: Bytes): (n: nat)
    ensures n <= |entries|
    ensures n < |entries| ==> entries[n].key == key
    ensures forall i :: 0 <= i < n ==> entries[i].key != key
  {
    if entries == [] then 0 else if entries[0].key == key then 0 else 1 + FirstMatch(entries[1..], key)
  }

  function Lookup(entries: seq<Entry>, key: Bytes): Outcome {
    var n := FirstMatch(entries, key);
    if n < |entries| then Found(entries[n].value) else Missing
  }

  lemma Le32AtPrefix(b: Bytes, limit: nat, i: nat)
    requires i + 4 <= limit <= |b|
    ensures Le32At(b[..limit], i) == Le32At(b, i)
  {
  }

  /**
    The first `limit` bytes end inside entry `n`, at a place the scan for this key reads on from: in the
    length fields, in a key as long as this one, or in the value of this very key.
  */
  predicate CutOff(entries: seq<Entry>, key: Bytes, limit: nat, n: nat) {
    && n < |entries| && Offset(entries, n) < limit < Offset(entries, n + 1)
    && (|| limit < Offset(entries, n) + 8
        || (|entries[n].key| == |key| && (limit < Offset(entries, n) + 8 + |key| || entries[n].key == key)))
  }

  /** One turn of the scan, at the beginning of entry `n`, with only the first `limit` bytes at hand. */
  lemma ScanStep(entries: seq<Entry>, key: Bytes, limit: nat, n: nat)
    requires n < |entries| && limit <= |Encode(entries)|
    ensures var data, o, e, end := Encode(entries)[..limit], Offset(entries, n), entries[n], Offset(entries, n + 1);
            && (CutOff(entries, key, limit, n) ==> Scan(data, key, o) == Overrun)
            && (!CutOff(entries, key, limit, n) && e.key == key && end <= limit ==> Scan(data, key, o) == Found(e.value))
            && (!CutOff(entries, key, limit, n) && e.key == key && end > limit ==> Scan(data, key, o) == Missing)
            && (!CutOff(entries, key, limit, n) && e.key != key && end <= limit ==> Scan(data, key, o) == Scan(data, key, end))
            && (!CutOff(entries, key, limit, n) && e.key != key && end > limit ==> Scan(data, key, o) == Missing)
  {
    hide Encode, Le32At, EncodeEntry;
    var b, o, e, end := Encode(entries), Offset(entries, n), entries[n], Offset(entries, n + 1);
    var data := b[..limit];
    EntryAt(entries, n);
    if o + 8 <= limit {
      Le32AtPrefix(b, limit, o);
      Le32AtPrefix(b, limit, o + 4);
    }
    if o + 8 + |e.key| <= limit {
      SubSlice(b, 0, limit, o + 8, o + 8 + |e.key|);
    }
    if end <= limit {
      SubSlice(b, 0, limit, o + 8 + |e.key|, end);
    }
  }

  lemma OffsetsGrow(entries: seq<Entry>, m: nat, n: nat)
    requires m <= n <= |entries|
    ensures Offset(entries, m) <= Offset(entries, n)
  {
    PrefixEncodes(entries[..n], m);
    assert entries[..n][..m] == entries[..m];
  }

  /** The first entry with this key ends within the first `limit` bytes. */
  predicate Readable(entries: seq<Entry>, key: Bytes, limit: nat) {
    var j := FirstMatch(entries, key);
    j < |entries| && Offset(entries, j + 1) <= limit
  }

  /** The scan comes to a cut entry before it has found the key. */
  predicate CutShort(entries: seq<Entry>, key: Bytes, limit: nat) {
    exists n :: 0 <= n <= FirstMatch(entries, key) && CutOff(entries, key, limit, n)
  }

  lemma {:induction false} ScanFrom(entries: seq<Entry>, key: Bytes, limit: nat, n: nat)
    requires limit <= |Encode(entries)| && n <= FirstMatch(entries, key)
    requires forall i :: 0 <= i < n ==> !CutOff(entries, key, limit, i)
    ensures var r, j := Scan(Encode(entries)[..limit], key, Offset(entries, n)), FirstMatch(entries, key);
            && (r.Found? <==> Readable(entries, key, limit))
            && (r == Overrun <==> CutShort(entries, key, limit))
            && (r.Found? ==> r.value == entries[j].value)
            && (limit == |Encode(entries)| ==> r == Lookup(entries, key))
    decreases |entries| - n
  {
    hide Encode, Scan, CutOff, Offset;
    var j := FirstMatch(entries, key);
    if n == |entries| {
      ScanPastEnd(entries, key, limit);
    } else {
      ScanStep(entries, key, limit, n);
      if Offset(entries, n + 1) > limit {
        NothingBeyond(entries, key, limit, n);
      } else if n < j {
        CutOffIsInside(entries, key, limit, n);
        ScanFrom(entries, key, limit, n + 1);
      } else {
        CutOffIsInside(entries, key, limit, n);
      }
      if limit == |Encode(entries)| {
        EntryAt(entries, n);
      }
    }
  }

  /** Nothing ends within the limit, and nothing is cut, after an entry that ends beyond it. */
  lemma NothingBeyond(entries: seq<Entry>, key: Bytes, limit: nat, n: nat)
    requires n < |entries| && Offset(entries, n + 1) > limit
    ensures forall i :: i > n ==> !CutOff(entries, key, limit, i)
    ensures n <= FirstMatch(entries, key) ==> !Readable(entries, key, limit)
  {
    hide Offset, FirstMatch, CutOff;
    forall i | i > n
      ensures !CutOff(entries, key, limit, i)
    {
      CutOffIsInside(entries, key, limit, i);
      if i < |entries| {
        OffsetsGrow(entries, n + 1, i);
      }
    }
    var j := FirstMatch(entries, key);
    if n <= j < |entries| {
      OffsetsGrow(entries, n + 1, j + 1);
    }
  }

  lemma ScanPastEnd(entries: seq<Entry>, key: Bytes, limit: nat)
    requires limit <= |Encode(entries)|
    ensures Scan(Encode(entries)[..limit], key, Offset(entries, |entries|)) == Missing
    ensures !CutOff(entries, key, limit, |entries|)
  {
    assert entries[..|entries|] == entries;
  }

  lemma CutOffIsInside(entries: seq<Entry>, key: Bytes, limit: nat, n: nat)
    ensures CutOff(entries, key, limit, n) ==> n < |entries| && Offset(entries, n) < limit < Offset(entries, n + 1)
  {
  }

  /** The bytes of a memtable answer every lookup as its list of entries does, and the scan ends inside them. */
  lemma ScanWhole(entries: seq<Entry>, key: Bytes)
    ensures Scan(Encode(entries), key, 0) == Lookup(entries, key)
  {
    ScanFrom(entries, key, |Encode(entries)|, 0);
    assert Encode(entries)[..|Encode(entries)|] == Encode(entries);
  }

  /** What `sstable_get` has at hand after its one read. */
  function Loaded(data: Bytes): Bytes {
    if |data| <= READ_CAP then data else data[..READ_CAP]
  }

  /**
    A file finds a key exactly when the first entry with that key ends within the part that is read, and
    the scan leaves that part exactly when it is cut short before.
  */
  lemma TableScanExactly(entries: seq<Entry>, key: Bytes)
    ensures var r, j := Scan(Loaded(Encode(entries)), key, 0), FirstMatch(entries, key);
            && (r.Found? <==> Readable(entries, key, READ_CAP))
            && (r == Overrun <==> CutShort(entries, key, READ_CAP))
            && (r.Found? ==> r.value == entries[j].value)
            && (|Encode(entries)| <= READ_CAP ==> r == Lookup(entries, key))
  {
    hide CutOff, Scan, FirstMatch;
    var size := |Encode(entries)|;
    if size <= READ_CAP {
      ScanWithin(entries, key);
    } else {
      ScanFrom(entries, key, READ_CAP, 0);
    }
  }

  lemma ScanWithin(entries: seq<Entry>, key: Bytes)
    requires |Encode(entries)| <= READ_CAP
    ensures Scan(Encode(entries), key, 0) == Lookup(entries, key)
    ensures Readable(entries, key, READ_CAP) <==> FirstMatch(entries, key) < |entries|
    ensures !CutShort(entries, key, READ_CAP)
  {
    hide CutOff, Scan, FirstMatch;
    ScanWhole(entries, key);
    forall n: nat
      ensures !CutOff(entries, key, READ_CAP, n)
    {
      CutOffIsInside(entries, key, READ_CAP, n);
      if n < |entries| {
        PrefixEncodes(entries, n + 1);
      }
    }
    var j := FirstMatch(entries, key);
    if j < |entries| {
      PrefixEncodes(entries, j + 1);
    }
  }

  // ---------- Layers ----------

  /** The metadata of a flushed file: the second that names it, and the number of entries written. */
  datatype Table = Table(file: nat, count: nat)

  datatype Frozen = Nothing | Frozen(entries: seq<Entry>)

  datatype Lsm = Lsm(active: seq<Entry>, frozen: Frozen, tables: seq<Table>, disk: map<nat, seq<Entry>>)

  /** `clock` is the second in which a flush takes place, and `opens` says whether its file can be opened. */
  datatype Op = Insert(entry: Entry, clock: nat, opens: bool) | Flush(clock: nat, opens: bool)

  const INITIAL: Lsm := Lsm([], Nothing, [], map[])

  predicate Fits(entries: seq<Entry>, e: Entry) {
    |Encode(entries)| + EntrySize(e) <= MEMTABLE_SIZE
  }

  function FlushStep(s: Lsm, clock: nat, opens: bool): (Lsm, bool) {
    match s.frozen
    case Nothing => (s, true)
    case Frozen(entries) =>
      if !opens then (s, false)
      else (s.(tables := s.tables + [Table(clock, |entries|)], disk := s.disk[clock := entries], frozen := Nothing), true)
  }

  function InsertStep(s: Lsm, e: Entry, clock: nat, opens: bool): (Lsm, bool) {
    if Fits(s.active, e) then (s.(active := s.active + [e]), true)
    else
      var s' := if s.frozen.Nothing? then FlushStep(s.(active := [], frozen := Frozen(s.active)), clock, opens).0 else s;
      if Fits(s'.active, e) then (s'.(active := s'.active + [e]), true) else (s', false)
  }

  function Step(s: Lsm, op: Op): (Lsm, bool) {
    match op
    case Insert(e, clock, opens) => InsertStep(s, e, clock, opens)
    case Flush(clock, opens) => FlushStep(s, clock, opens)
  }

  /** Every file that is listed exists. */
  ghost predicate Listed(tables: seq<Table>, disk: map<nat, seq<Entry>>) {
    forall i :: 0 <= i < |tables| ==> tables[i].file in disk
  }

  function InTables(tables: seq<Table>, disk: map<nat, seq<Entry>>): seq<Entry>
    requires Listed(tables, disk)
  {
    if tables == [] then [] else InTables(tables[..|tables| - 1], disk) + disk[tables[|tables| - 1].file]
  }

  function InFrozen(f: Frozen): seq<Entry> {
    if f.Nothing? then [] else f.entries
  }

  /** Everything held, oldest layer first. */
  function Stored(s: Lsm): seq<Entry>
    requires Listed(s.tables, s.disk)
  {
    InTables(s.tables, s.disk) + InFrozen(s.frozen) + s.active
  }

  /** Writing this content in this second would replace a file that is still listed and holds something else. */
  ghost predicate Overwrites(s: Lsm, clock: nat, content: seq<Entry>) {
    clock in s.disk && s.disk[clock] != content && Named(s.tables, clock)
  }

  /** Whether a step loses what an earlier flush of the same second wrote. */
  ghost predicate Clobbers(s: Lsm, op: Op) {
    match op
    case Insert(e, clock, opens) => !Fits(s.active, e) && s.frozen.Nothing? && opens && Overwrites(s, clock, s.active)
    case Flush(clock, opens) => s.frozen.Frozen? && opens && Overwrites(s, clock, s.frozen.entries)
  }

  ghost predicate Named(tables: seq<Table>, clock: nat) {
    exists i :: 0 <= i < |tables| && tables[i].file == clock
  }

  /** Replacing a file shifts the total length by the difference, once for each time it is listed. */
  lemma {:induction false} ReplaceLength(tables: seq<Table>, disk: map<nat, seq<Entry>>, clock: nat, content: seq<Entry>)
    requires Listed(tables, disk) && clock in disk
    ensures Listed(tables, disk[clock := content])
    ensures var before, after := |InTables(tables, disk)|, |InTables(tables, disk[clock := content])|;
            && (|content| == |disk[clock]| ==> after == before)
            && (|content| > |disk[clock]| ==> after >= before && (Named(tables, clock) ==> after > before))
            && (|content| < |disk[clock]| ==> after <= before && (Named(tables, clock) ==> after < before))
  {
    if tables != [] {
      ReplaceLength(tables[..|tables| - 1], disk, clock, content);
    }
  }

  /** Replacing a file changes what the tables hold exactly when it is listed with another content. */
  lemma {:induction false} ReplaceFile(tables: seq<Table>, disk: map<nat, seq<Entry>>, clock: nat, content: seq<Entry>)
    requires Listed(tables, disk)
    ensures Listed(tables, disk[clock := content])
    ensures InTables(tables, disk[clock := content]) == InTables(tables, disk) <==>
            !Named(tables, clock) || disk[clock] == content
  {
    if tables != [] {
      var front, last := tables[..|tables| - 1], tables[|tables| - 1];
      var disk' := disk[clock := content];
      ReplaceFile(front, disk, clock, content);
      assert Named(tables, clock) <==> Named(front, clock) || last.file == clock;
      if Named(tables, clock) {
        ReplaceLength(tables, disk, clock, content);
        ReplaceLength(front, disk, clock, content);
        if InTables(tables, disk') == InTables(tables, disk) {
          assert |InTables(front, disk')| == |InTables(front, disk)|;
          SplitEqual(InTables(front, disk'), disk'[last.file], InTables(front, disk), disk[last.file]);
        }
      }
    }
  }

  lemma SplitEqual<T>(a: seq<T>, b: seq<T>, c: seq<T>, d: seq<T>)
    requires a + b == c + d && |a| == |c|
    ensures a == c && b == d
  {
    assert a == (a + b)[..|a|] && c == (c + d)[..|c|];
    assert b == (a + b)[|a|..] && d == (c + d)[|c|..];
  }

  lemma AppendTable(tables: seq<Table>, disk: map<nat, seq<Entry>>, t: Table)
    requires Listed(tables, disk) && t.file in disk
    ensures Listed(tables + [t], disk)
    ensures InTables(tables + [t], disk) == InTables(tables, disk) + disk[t.file]
  {
    assert (tables + [t])[..|tables|] == tables;
  }

  /** A flush keeps everything stored exactly when it does not overwrite. */
  lemma FlushConserves(s: Lsm, clock: nat, opens: bool)
    requires Listed(s.tables, s.disk)
    ensures var s' := FlushStep(s, clock, opens).0;
            && Listed(s'.tables, s'.disk) && s'.active == s.active
            && (Stored(s') == Stored(s) <==> !Clobbers(s, Flush(clock, opens)))
  {
    if s.frozen.Frozen? && opens {
      var content, s' := s.frozen.entries, FlushStep(s, clock, opens).0;
      ReplaceFile(s.tables, s.disk, clock, content);
      AppendTable(s.tables, s'.disk, Table(clock, |content|));
      assert Named(s.tables, clock) ==> clock in s.disk;
      var before, after := InTables(s.tables, s.disk), InTables(s.tables, s'.disk);
      assert Stored(s') == after + content + s.active;
      assert Stored(s) == before + content + s.active;
      if Stored(s') == Stored(s) {
        assert |before| == |after|;
        SplitEqual(after + content, s.active, before + content, s.active);
        SplitEqual(after, content, before, content);
      }
    }
  }

  /**
    An insertion adds its entry, if it succeeds, after everything stored before, and loses nothing -
    exactly when the flush it may cause does not overwrite. It succeeds when the entry fits in the
    active memtable, or fits in an empty one and the frozen place is free.
  */
  lemma InsertConserves(s: Lsm, e: Entry, clock: nat, opens: bool)
    requires Listed(s.tables, s.disk)
    ensures var (s', ok) := InsertStep(s, e, clock, opens);
            && Listed(s'.tables, s'.disk)
            && (ok <==> Fits(s.active, e) || (s.frozen.Nothing? && Fits([], e)))
            && (Stored(s') == Stored(s) + (if ok then [e] else []) <==> !Clobbers(s, Insert(e, clock, opens)))
  {
    hide FlushStep;
    var (s', ok) := InsertStep(s, e, clock, opens);
    if Fits(s.active, e) {
    } else if s.frozen.Nothing? {
      var middle := s.(active := [], frozen := Frozen(s.active));
      FlushConserves(middle, clock, opens);
      var flushed := FlushStep(middle, clock, opens).0;
      assert Stored(middle) == Stored(s);
      var more := if ok then [e] else [];
      assert Stored(s') == Stored(flushed) + more;
      if Stored(s') == Stored(s) + more {
        SplitEqual(Stored(flushed), more, Stored(s), more);
      }
    }
  }

  // ---------- Runs ----------

  function Run(ops: seq<Op>): Lsm {
    if ops == [] then INITIAL else Step(Run(ops[..|ops| - 1]), ops[|ops| - 1]).0
  }

  /** The entries of the insertions that reported success, in order. */
  function Accepted(ops: seq<Op>): seq<Entry> {
    if ops == [] then []
    else
      var front, op := ops[..|ops| - 1], ops[|ops| - 1];
      Accepted(front) + if op.Insert? && Step(Run(front), op).1 then [op.entry] else []
  }

  ghost predicate NeverClobbers(ops: seq<Op>) {
    ops == [] || (NeverClobbers(ops[..|ops| - 1]) && !Clobbers(Run(ops[..|ops| - 1]), ops[|ops| - 1]))
  }

  /** As long as no flush overwrites, the layers together hold exactly the accepted entries, in order. */
  lemma {:induction false} RunConserves(ops: seq<Op>)
    ensures Listed(Run(ops).tables, Run(ops).disk)
    ensures NeverClobbers(ops) ==> Stored(Run(ops)) == Accepted(ops)
  {
    hide FlushStep, InsertStep, Stored, Clobbers;
    if ops == [] {
      assert Stored(INITIAL) == [] by { NothingStored(); }
    } else {
      var front, op := ops[..|ops| - 1], ops[|ops| - 1];
      RunConserves(front);
      match op
      case Insert(e, clock, opens) => InsertConserves(Run(front), e, clock, opens);
      case Flush(clock, opens) => FlushConserves(Run(front), clock, opens);
    }
  }

  /** After the first `n` operations the layers hold exactly the entries accepted so far. */
  ghost predicate HoldsAccepted(ops: seq<Op>, n: nat)
    requires n <= |ops|
  {
    var s := Run(ops[..n]);
    Listed(s.tables, s.disk) && Stored(s) == Accepted(ops[..n])
  }

  /** The layers hold exactly the accepted entries after every step of a run if and only if no flush overwrites. */
  lemma {:induction false} RunConservesExactly(ops: seq<Op>)
    ensures (forall n :: 0 <= n <= |ops| ==> HoldsAccepted(ops, n)) <==> NeverClobbers(ops)
  {
    hide FlushStep, InsertStep, Stored, Clobbers, Accepted;
    assert ops[..|ops|] == ops;
    RunConserves(ops);
    if ops != [] {
      var front, op := ops[..|ops| - 1], ops[|ops| - 1];
      RunConservesExactly(front);
      forall n | 0 <= n <= |front|
        ensures HoldsAccepted(ops, n) <==> HoldsAccepted(front, n)
      {
        assert ops[..n] == front[..n];
      }
      if HoldsAccepted(ops, |front|) {
        StepConservesExactly(ops);
      }
    }
  }

  lemma StepConservesExactly(ops: seq<Op>)
    requires ops != [] && HoldsAccepted(ops, |ops| - 1)
    ensures HoldsAccepted(ops, |ops|) <==> !Clobbers(Run(ops[..|ops| - 1]), ops[|ops| - 1])
  {
    hide FlushStep, InsertStep, Stored, Clobbers;
    assert ops[..|ops|] == ops;
    var s := Run(ops[..|ops| - 1]);
    match ops[|ops| - 1]
    case Insert(e, clock, opens) => InsertConserves(s, e, clock, opens);
    case Flush(clock, opens) => FlushConserves(s, clock, opens);
  }

  lemma NothingStored()
    ensures Stored(INITIAL) == []
  {
  }

  // ---------- Lookup ----------

  /** The files in the order they were flushed; a scan that overruns ends the search. */
  function TablesLookup(tables: seq<Table>, disk: map<nat, seq<Entry>>, key: Bytes): Outcome
    requires Listed(tables, disk)
  {
    if tables == [] then Missing
    else
      var r := TablesLookup(tables[..|tables| - 1], disk, key);
      if r == Missing then Scan(Loaded(Encode(disk[tables[|tables| - 1].file])), key, 0) else r
  }

  /** `lsm_tree_get`. */
  function GetStep(s: Lsm, key: Bytes): Outcome
    requires Listed(s.tables, s.disk)
  {
    var a, f := Scan(Encode(s.active), key, 0), Scan(Encode(InFrozen(s.frozen)), key, 0);
    if a != Missing then a else if f != Missing then f else TablesLookup(s.tables, s.disk, key)
  }

  lemma TableScanIs(entries: seq<Entry>, key: Bytes)
    ensures var r := Scan(Loaded(Encode(entries)), key, 0);
            && (r.Found? <==> Readable(entries, key, READ_CAP))
            && (r == Overrun <==> CutShort(entries, key, READ_CAP))
            && (r == Missing <==> Passes(entries, key))
            && (r.Found? ==> r == Lookup(entries, key))
  {
    hide Scan, CutShort, FirstMatch, Loaded, Encode;
    TableScanExactly(entries, key);
  }

  /** A search goes on past a file in which the key is not readable and which does not cut the scan short. */
  predicate Passes(entries: seq<Entry>, key: Bytes) {
    !Readable(entries, key, READ_CAP) && !CutShort(entries, key, READ_CAP)
  }

  /** The search gets as far as file `i`. */
  ghost predicate Reaches(tables: seq<Table>, disk: map<nat, seq<Entry>>, key: Bytes, i: int)
    requires Listed(tables, disk)
  {
    0 <= i < |tables| && forall k :: 0 <= k < i ==> Passes(disk[tables[k].file], key)
  }

  /** The file that answers: the first in which the key is readable, if no file before cuts the scan short. */
  ghost predicate FoundAt(tables: seq<Table>, disk: map<nat, seq<Entry>>, key: Bytes, i: int)
    requires Listed(tables, disk)
  {
    Reaches(tables, disk, key, i) && Readable(disk[tables[i].file], key, READ_CAP)
  }

  ghost predicate OverrunAt(tables: seq<Table>, disk: map<nat, seq<Entry>>, key: Bytes, i: int)
    requires Listed(tables, disk)
  {
    Reaches(tables, disk, key, i) && CutShort(disk[tables[i].file], key, READ_CAP)
  }

  lemma FrontAgrees(tables: seq<Table>, disk: map<nat, seq<Entry>>, key: Bytes, i: int)
    requires Listed(tables, disk)
    ensures !(0 <= i < |tables|) ==> !FoundAt(tables, disk, key, i) && !OverrunAt(tables, disk, key, i)
    ensures tables != [] && i != |tables| - 1 ==>
              && FoundAt(tables, disk, key, i) == FoundAt(tables[..|tables| - 1], disk, key, i)
              && OverrunAt(tables, disk, key, i) == OverrunAt(tables[..|tables| - 1], disk, key, i)
    ensures tables != [] && i == |tables| - 1 ==>
              var front, last := tables[..i], disk[tables[i].file];
              var passed := forall k :: 0 <= k < |front| ==> Passes(disk[front[k].file], key);
              && (FoundAt(tables, disk, key, i) <==> passed && Readable(last, key, READ_CAP))
              && (OverrunAt(tables, disk, key, i) <==> passed && CutShort(last, key, READ_CAP))
  {
    hide Readable, CutShort, Passes;
  }

  /**
    A search of the files finds a key exactly when some file has it readable and every file before is
    passed; it runs over the end of what was loaded exactly when some file cuts it short and every file
    before is passed; and it finds nothing exactly when every file is passed.
  */
  lemma {:induction false} TablesLookupExactly(tables: seq<Table>, disk: map<nat, seq<Entry>>, key: Bytes)
    requires Listed(tables, disk)
    ensures var r := TablesLookup(tables, disk, key);
            && (r.Found? <==> exists i :: FoundAt(tables, disk, key, i))
            && (r == Overrun <==> exists i :: OverrunAt(tables, disk, key, i))
            && (r == Missing <==> forall i :: 0 <= i < |tables| ==> Passes(disk[tables[i].file], key))
            && forall i :: FoundAt(tables, disk, key, i) ==> r == Lookup(disk[tables[i].file], key)
  {
    hide Encode, Scan, FoundAt, OverrunAt, Lookup, Passes, Loaded;
    if tables == [] {
      forall i
        ensures !FoundAt(tables, disk, key, i) && !OverrunAt(tables, disk, key, i)
      {
        FrontAgrees(tables, disk, key, i);
      }
    } else {
      var n := |tables| - 1;
      var front, last := tables[..n], disk[tables[n].file];
      TablesLookupExactly(front, disk, key);
      TableScanIs(last, key);
      forall i
        ensures FoundAt(tables, disk, key, i) ==> 0 <= i <= n
        ensures i != n ==> FoundAt(tables, disk, key, i) == FoundAt(front, disk, key, i)
        ensures i != n ==> OverrunAt(tables, disk, key, i) == OverrunAt(front, disk, key, i)
      {
        FrontAgrees(tables, disk, key, i);
      }
      FrontAgrees(tables, disk, key, n);
      FrontAgrees(front, disk, key, n);
    }
  }

  /** Everything held, in the order it is searched. */
  function Searched(s: Lsm): seq<Entry>
    requires Listed(s.tables, s.disk)
  {
    s.active + InFrozen(s.frozen) + InTables(s.tables, s.disk)
  }

  /** Every listed file is within the part that is read. */
  ghost predicate TablesFit(s: Lsm) {
    forall i :: 0 <= i < |s.tables| && s.tables[i].file in s.disk ==> |Encode(s.disk[s.tables[i].file])| <= READ_CAP
  }

  lemma LookupConcat(a: seq<Entry>, b: seq<Entry>, key: Bytes)
    ensures Lookup(a + b, key) == if Lookup(a, key) != Missing then Lookup(a, key) else Lookup(b, key)
  {
    var m, n := FirstMatch(a, key), FirstMatch(b, key);
    FirstMatchIs(a + b, key, if m < |a| then m else |a| + n);
  }

  lemma FirstMatchIs(entries: seq<Entry>, key: Bytes, n: nat)
    requires n <= |entries| && (n < |entries| ==> entries[n].key == key) && forall i :: 0 <= i < n ==> entries[i].key != key
    ensures FirstMatch(entries, key) == n
  {
  }

  lemma {:induction false} TablesLookupIs(tables: seq<Table>, disk: map<nat, seq<Entry>>, key: Bytes)
    requires Listed(tables, disk)
    requires forall i :: 0 <= i < |tables| ==> |Encode(disk[tables[i].file])| <= READ_CAP
    ensures TablesLookup(tables, disk, key) == Lookup(InTables(tables, disk), key)
  {
    hide Encode, Scan, Lookup;
    if tables == [] {
      NothingFound(key);
    } else {
      var last := disk[tables[|tables| - 1].file];
      TablesLookupIs(tables[..|tables| - 1], disk, key);
      TableScanExactly(last, key);
      LookupConcat(InTables(tables[..|tables| - 1], disk), last, key);
    }
  }

  lemma NothingFound(key: Bytes)
    ensures Lookup([], key) == Missing
  {
  }

  ghost predicate InMemory(s: Lsm, key: Bytes) {
    FirstMatch(s.active, key) < |s.active| || FirstMatch(InFrozen(s.frozen), key) < |InFrozen(s.frozen)|
  }

  /**
    What a lookup answers in any state. A key is found exactly when a memtable holds it, or the files are
    searched as far as one in which it is readable; the lookup overruns exactly when no memtable holds the
    key and the files are searched as far as one that cuts the scan short; and nothing is found exactly
    when no memtable holds the key and every file is passed.
  */
  lemma GetExactly(s: Lsm, key: Bytes)
    requires Listed(s.tables, s.disk)
    ensures var r := GetStep(s, key);
            && (r.Found? <==> InMemory(s, key) || exists i :: FoundAt(s.tables, s.disk, key, i))
            && (r == Overrun <==> !InMemory(s, key) && exists i :: OverrunAt(s.tables, s.disk, key, i))
            && (r == Missing <==>
                  !InMemory(s, key) && forall i :: 0 <= i < |s.tables| ==> Passes(s.disk[s.tables[i].file], key))
            && (InMemory(s, key) ==> r == Lookup(s.active + InFrozen(s.frozen), key))
            && (!InMemory(s, key) ==> forall i :: FoundAt(s.tables, s.disk, key, i) ==> r == Lookup(s.disk[s.tables[i].file], key))
  {
    hide Encode, Scan, FoundAt, OverrunAt, Passes, TablesLookup, FirstMatch;
    ScanWhole(s.active, key);
    ScanWhole(InFrozen(s.frozen), key);
    TablesLookupExactly(s.tables, s.disk, key);
    LookupConcat(s.active, InFrozen(s.frozen), key);
  }

  /** With files within the read limit, a lookup answers with the first match in search order. */
  lemma GetIsLookup(s: Lsm, key: Bytes)
    requires Listed(s.tables, s.disk) && TablesFit(s)
    ensures GetStep(s, key) == Lookup(Searched(s), key)
  {
    hide Encode, Scan, Lookup, InTables;
    ScanWhole(s.active, key);
    ScanWhole(InFrozen(s.frozen), key);
    TablesLookupIs(s.tables, s.disk, key);
    LookupConcat(s.active, InFrozen(s.frozen), key);
    LookupConcat(s.active + InFrozen(s.frozen), InTables(s.tables, s.disk), key);
  }

  /** A value found was stored with the key. */
  lemma FoundIsStored(s: Lsm, key: Bytes)
    requires Listed(s.tables, s.disk)
    ensures var r := GetStep(s, key);
            r.Found? ==> exists e <- Stored(s) :: e.key == key && r.value == e.value
  {
    hide GetStep, TablesLookup, Encode, InTables, OverrunAt, Readable, Passes;
    GetExactly(s, key);
    if GetStep(s, key).Found? {
      if InMemory(s, key) {
        var held := s.active + InFrozen(s.frozen);
        FoundInList(held, key);
        assert held[FirstMatch(held, key)] in Stored(s);
      } else {
        var i :| FoundAt(s.tables, s.disk, key, i);
        var content := s.disk[s.tables[i].file];
        FoundInList(content, key);
        InTablesHas(s.tables, s.disk, i);
        assert content[FirstMatch(content, key)] in InTables(s.tables, s.disk);
      }
    }
  }

  lemma FoundInList(entries: seq<Entry>, key: Bytes)
    ensures Lookup(entries, key).Found? <==> FirstMatch(entries, key) < |entries|
    ensures Lookup(entries, key).Found? ==> Lookup(entries, key).value == entries[FirstMatch(entries, key)].value
  {
  }

  lemma {:induction false} InTablesHas(tables: seq<Table>, disk: map<nat, seq<Entry>>, i: nat)
    requires Listed(tables, disk) && i < |tables|
    ensures forall e <- disk[tables[i].file] :: e in InTables(tables, disk)
  {
    if i < |tables| - 1 {
      InTablesHas(tables[..|tables| - 1], disk, i);
    }
  }

  /**
    In every state a run reaches without overwriting a file, a key is found exactly if a memtable holds it
    or the files are searched as far as one in which it is readable, and the value found is one that was
    accepted with it. With all files within the part that is read, that is every key an insertion of which
    was accepted.
  */
  lemma ReadBack(ops: seq<Op>, key: Bytes)
    requires NeverClobbers(ops)
    ensures Listed(Run(ops).tables, Run(ops).disk)
    ensures var s, r := Run(ops), GetStep(Run(ops), key);
            && (r.Found? <==> InMemory(s, key) || exists i :: FoundAt(s.tables, s.disk, key, i))
            && (r.Found? ==> exists e <- Accepted(ops) :: e.key == key && r.value == e.value)
    ensures TablesFit(Run(ops)) ==>
              var r := GetStep(Run(ops), key);
              && (r == Missing <==> forall e <- Accepted(ops) :: e.key != key)
              && (r != Missing ==> r.Found?)
  {
    hide GetStep, Run, NeverClobbers, InTables, FoundAt, OverrunAt, Passes, InMemory;
    RunConserves(ops);
    var s := Run(ops);
    GetExactly(s, key);
    FoundIsStored(s, key);
    if TablesFit(s) {
      GetIsLookup(s, key);
      assert forall e :: e in Searched(s) <==> e in Accepted(ops);
      var n := FirstMatch(Searched(s), key);
      if n < |Searched(s)| {
        assert Searched(s)[n] in Accepted(ops);
      }
    }
  }

  /** The key of the last entry occurs in it alone. */
  ghost predicate LastIsOnly(entries: seq<Entry>) {
    entries != [] && forall i :: 0 <= i < |entries| - 1 ==> entries[i].key != entries[|entries| - 1].key
  }

  /**
    Every flush that an entry of at most 9 MiB causes hides an entry: the one written last before it, if
    its key was written once. It was accepted and is in the file, and is not found afterwards.
  */
  lemma OrdinaryFlushHides(s: Lsm, e: Entry, clock: nat)
    requires Listed(s.tables, s.disk) && s.frozen.Nothing?
    requires LastIsOnly(Stored(s)) && e.key != Stored(s)[|Stored(s)| - 1].key
    requires !Fits(s.active, e) && EntrySize(e) <= MEMTABLE_SIZE - READ_CAP
    ensures var (s', ok) := InsertStep(s, e, clock, true);
            && ok && Listed(s'.tables, s'.disk) && !TablesFit(s')
            && !GetStep(s', Stored(s)[|Stored(s)| - 1].key).Found?
  {
    hide GetStep, Encode, InTables, Readable, Passes, CutShort, Overwrites, LastIsOnly;
    SizesOf(e);
    var s', x := InsertStep(s, e, clock, true).0, Stored(s)[|Stored(s)| - 1];
    assert s.active != [] && x == s.active[|s.active| - 1];
    assert Stored(s) == InTables(s.tables, s.disk) + s.active;
    assert s' == Lsm([e], Nothing, s.tables + [Table(clock, |s.active|)], s.disk[clock := s.active]);
    assert !TablesFit(s') by {
      assert s'.tables[|s.tables|].file == clock;
    }
    assert !InMemory(s', x.key);
    forall i | 0 <= i < |s'.tables|
      ensures !Readable(s'.disk[s'.tables[i].file], x.key, READ_CAP)
    {
      if s'.tables[i].file == clock {
        LastUnreadable(InTables(s.tables, s.disk), s.active);
      } else {
        InTablesHas(s.tables, s.disk, i);
        LastIsNotBefore(InTables(s.tables, s.disk), s.active);
        AbsentUnreadable(s.disk[s.tables[i].file], x.key);
      }
    }
    GetExactly(s', x.key);
  }

  lemma LastIsNotBefore(before: seq<Entry>, entries: seq<Entry>)
    requires entries != [] && LastIsOnly(before + entries)
    ensures LastIsOnly(entries)
    ensures forall e <- before :: e.key != entries[|entries| - 1].key
  {
    var all := before + entries;
    forall i | 0 <= i < |entries| - 1
      ensures entries[i].key != entries[|entries| - 1].key
    {
      assert all[|before| + i] == entries[i];
    }
    forall i | 0 <= i < |before|
      ensures before[i].key != entries[|entries| - 1].key
    {
      assert all[i] == before[i];
    }
  }

  lemma LastUnreadable(before: seq<Entry>, entries: seq<Entry>)
    requires entries != [] && LastIsOnly(before + entries) && |Encode(entries)| > READ_CAP
    ensures !Readable(entries, entries[|entries| - 1].key, READ_CAP)
  {
    hide Encode;
    LastIsNotBefore(before, entries);
    FirstMatchIs(entries, entries[|entries| - 1].key, |entries| - 1);
    assert entries[..|entries|] == entries;
  }

  lemma AbsentUnreadable(entries: seq<Entry>, key: Bytes)
    requires forall e <- entries :: e.key != key
    ensures !Readable(entries, key, READ_CAP)
  {
    hide Encode;
  }

  /** Three entries of ordinary size, one flush: the second is accepted and afterwards not found. */
  lemma OrdinaryRunHidesAnEntry(clock: nat)
    ensures exists ops: seq<Op>, e: Entry ::
              && NeverClobbers(ops) && e in Accepted(ops) && Listed(Run(ops).tables, Run(ops).disk)
              && !GetStep(Run(ops), e.key).Found?
  {
    hide Accepted, Run, GetStep, TablesFit, Listed, InsertStep, NeverClobbers, Encode, Fits;
    var a: Entry := RawEntry.Entry([1], seq(READ_CAP, _ => 0));
    var b: Entry := RawEntry.Entry([2], []);
    var c: Entry := RawEntry.Entry([3], seq(MEMTABLE_SIZE - READ_CAP - 9, _ => 0));
    var ops := [Insert(a, clock, true), Insert(b, clock, true), Insert(c, clock, true)];
    OrdinaryRun(clock, a, b, c, ops);
    var s := Run(ops[..2]);
    assert Listed(s.tables, s.disk) && Stored(s) == [a, b] by {
      RunConserves(ops[..2]);
    }
    OrdinaryFlushHides(Run(ops[..2]), c, clock);
    assert b in Accepted(ops);
  }

  lemma OrdinaryRun(clock: nat, a: Entry, b: Entry, c: Entry, ops: seq<Op>)
    requires EntrySize(a) == READ_CAP + 9 && EntrySize(b) == 9 && EntrySize(c) == MEMTABLE_SIZE - READ_CAP
    requires ops == [Insert(a, clock, true), Insert(b, clock, true), Insert(c, clock, true)]
    ensures NeverClobbers(ops) && Accepted(ops) == [a, b, c]
    ensures Run(ops[..2]) == Lsm([a, b], Nothing, [], map[]) && !Fits([a, b], c)
    ensures Run(ops) == InsertStep(Run(ops[..2]), c, clock, true).0
  {
    hide Encode, Run, Accepted, NeverClobbers;
    SizesOf(a);
    SizesOf(c);
    PairSize(a, b);
    RunStep(ops, 0);
    assert Run(ops[..1]) == Lsm([a], Nothing, [], map[]) && Accepted(ops[..1]) == [a];
    RunStep(ops, 1);
    assert Run(ops[..2]) == Lsm([a, b], Nothing, [], map[]) && Accepted(ops[..2]) == [a, b];
    RunStep(ops, 2);
    assert ops[..3] == ops;
  }

  lemma PairSize(a: Entry, b: Entry)
    ensures |Encode([a, b])| == EntrySize(a) + EntrySize(b)
  {
    assert [a, b][..1] == [a];
    SizesOf(a);
  }

  /** Two flushes in one second: the entry written first is accepted and then lost, without any failure. */
  lemma SameSecondLosesAnEntry(clock: nat)
    ensures exists ops: seq<Op>, e: Entry ::
              && e in Accepted(ops) && Listed(Run(ops).tables, Run(ops).disk) && TablesFit(Run(ops))
              && GetStep(Run(ops), e.key) == Missing
  {
    hide Accepted, Run, GetStep, TablesFit, Listed;
    var a: Entry, b: Entry := RawEntry.Entry([1], []), RawEntry.Entry([2], []);
    var huge: Entry := RawEntry.Entry([], seq(MEMTABLE_SIZE, _ => 0));
    var ops := [Insert(a, clock, true), Insert(huge, clock, true), Insert(b, clock, true), Insert(huge, clock, true)];
    SameSecondRun(clock, a, b, huge, ops);
    SameSecondState(Run(ops), clock, a, b);
    assert a in Accepted(ops);
  }

  lemma SameSecondRun(clock: nat, a: Entry, b: Entry, huge: Entry, ops: seq<Op>)
    requires EntrySize(a) == EntrySize(b) == 9 && EntrySize(huge) > MEMTABLE_SIZE
    requires ops == [Insert(a, clock, true), Insert(huge, clock, true), Insert(b, clock, true), Insert(huge, clock, true)]
    ensures Run(ops) == Lsm([], Nothing, [Table(clock, 1), Table(clock, 1)], map[clock := [b]]) && Accepted(ops) == [a, b]
  {
    hide Encode, Run, Accepted;
    var t := Table(clock, 1);
    SizesOf(a);
    SizesOf(b);
    RunStep(ops, 0);
    assert Run(ops[..1]) == Lsm([a], Nothing, [], map[]) && Accepted(ops[..1]) == [a];
    RunStep(ops, 1);
    assert Run(ops[..2]) == Lsm([], Nothing, [t], map[clock := [a]]) && Accepted(ops[..2]) == [a];
    RunStep(ops, 2);
    assert Run(ops[..3]) == Lsm([b], Nothing, [t], map[clock := [a]]) && Accepted(ops[..3]) == [a, b];
    RunStep(ops, 3);
    assert ops[..4] == ops;
  }

  lemma RunStep(ops: seq<Op>, n: nat)
    requires n < |ops|
    ensures n == 0 ==> Run(ops[..n]) == INITIAL && Accepted(ops[..n]) == []
    ensures Run(ops[..n + 1]) == Step(Run(ops[..n]), ops[n]).0
    ensures Accepted(ops[..n + 1])
            == Accepted(ops[..n]) + if ops[n].Insert? && Step(Run(ops[..n]), ops[n]).1 then [ops[n].entry] else []
    ensures n == 0 ==> NeverClobbers(ops[..n])
    ensures NeverClobbers(ops[..n + 1]) <==> NeverClobbers(ops[..n]) && !Clobbers(Run(ops[..n]), ops[n])
  {
    assert ops[..n + 1][..n] == ops[..n];
  }

  lemma SameSecondState(s: Lsm, clock: nat, a: Entry, b: Entry)
    requires s == Lsm([], Nothing, [Table(clock, 1), Table(clock, 1)], map[clock := [b]]) && EntrySize(b) == 9 && a.key != b.key
    ensures Listed(s.tables, s.disk) && TablesFit(s) && GetStep(s, a.key) == Missing
  {
    hide Encode, Scan, GetStep;
    SizesOf(b);
    var t := Table(clock, 1);
    assert InTables([t, t][..1], s.disk) == InTables([t], s.disk) == InTables([], s.disk) + [b];
    assert Searched(s) == [b, b];
    GetIsLookup(s, a.key);
  }

  lemma SizesOf(e: Entry)
    ensures |Encode([])| == 0 && |Encode([e])| == EntrySize(e)
  {
    assert [e][..0] == [];
  }
}
