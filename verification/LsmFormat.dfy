/**
  The byte layout and the limits of src/index/lsm_tree.c in numbers: where the four bytes of each length
  stand, how many bytes a memtable may take, and how many bytes of a file count.
*/
module LsmFormat {

  import opened LsmSpec

  /** Key length, value length - each in four bytes, lowest first - key and value. */
  lemma EntryLayout(e: Entry)
    ensures var b, k, v := EncodeEntry(e), |e.key|, |e.value|;
            && |b| == 8 + k + v
            && b[0] as int + 256 * b[1] as int + 65536 * b[2] as int + 16777216 * b[3] as int == k
            && b[4] as int + 256 * b[5] as int + 65536 * b[6] as int + 16777216 * b[7] as int == v
            && b[8..8 + k] == e.key && b[8 + k..] == e.value
  {
    var head := Le32(|e.key|) + Le32(|e.value|);
    var b := EncodeEntry(e);
    assert b == head + (e.key + e.value);
    FourBytes(|e.key|);
    FourBytes(|e.value|);
    assert b[0..4] == Le32(|e.key|) && b[4..8] == Le32(|e.value|);
    assert b[0] == Le32(|e.key|)[0] && b[1] == Le32(|e.key|)[1] && b[2] == Le32(|e.key|)[2] && b[3] == Le32(|e.key|)[3];
    assert b[4] == Le32(|e.value|)[0] && b[5] == Le32(|e.value|)[1] && b[6] == Le32(|e.value|)[2] && b[7] == Le32(|e.value|)[3];
  }

  lemma FourBytes(n: nat)
    requires n < UINT32_LIMIT
    ensures var b := Le32(n); b[0] as int + 256 * b[1] as int + 65536 * b[2] as int + 16777216 * b[3] as int == n
  {
  }

  /** The bytes that entries take, one after another. */
  function Span(entries: seq<Entry>): nat {
    if entries == [] then 0
    else Span(entries[..|entries| - 1]) + 8 + |entries[|entries| - 1].key| + |entries[|entries| - 1].value|
  }

  lemma {:induction false} EncodedSpan(entries: seq<Entry>)
    ensures |Encode(entries)| == Span(entries)
  {
    hide EncodeEntry;
    if entries != [] {
      EncodedSpan(entries[..|entries| - 1]);
    }
  }

  /** An insertion succeeds exactly if the entry fits into the 10 MiB of the active memtable, or of an empty one while none is frozen. */
  lemma InsertFits(s: Lsm, e: Entry, clock: nat, opens: bool)
    requires Listed(s.tables, s.disk)
    ensures var size := 8 + |e.key| + |e.value|;
            InsertStep(s, e, clock, opens).1 <==> Span(s.active) + size <= 10485760 || (s.frozen.Nothing? && size <= 10485760)
  {
    hide Encode, InsertStep, Clobbers, Stored;
    InsertConserves(s, e, clock, opens);
    EncodedSpan(s.active);
    EncodedSpan([]);
  }

  /** With room the entry goes last into the active memtable; without, that one is frozen, flushed if it can be, and begun anew. */
  lemma InsertPlaces(s: Lsm, e: Entry, clock: nat)
    requires s.frozen.Nothing? && 8 + |e.key| + |e.value| <= 10485760
    ensures var s' := InsertStep(s, e, clock, true).0;
            s' == if Span(s.active) + 8 + |e.key| + |e.value| <= 10485760 then s.(active := s.active + [e])
                  else Lsm([e], Nothing, s.tables + [Table(clock, |s.active|)], s.disk[clock := s.active])
    ensures var s' := InsertStep(s, e, clock, false).0;
            s' == if Span(s.active) + 8 + |e.key| + |e.value| <= 10485760 then s.(active := s.active + [e])
                  else Lsm([e], Frozen(s.active), s.tables, s.disk)
  {
    hide Encode;
    EncodedSpan(s.active);
    EncodedSpan([]);
  }

  /** A file finds a key exactly if its first entry for it ends within the first 1048576 bytes. */
  lemma FileFinds(entries: seq<Entry>, key: Bytes)
    ensures Scan(Loaded(Encode(entries)), key, 0).Found?
       <==> exists j :: 0 <= j < |entries| && entries[j].key == key && (forall i :: 0 <= i < j ==> entries[i].key != key)
                        && Span(entries[..j + 1]) <= 1048576
  {
    hide Encode, Scan, CutShort, Lookup;
    TableScanExactly(entries, key);
    var n := FirstMatch(entries, key);
    if n < |entries| {
      EncodedSpan(entries[..n + 1]);
    }
    forall j | 0 <= j < |entries| && entries[j].key == key && forall i :: 0 <= i < j ==> entries[i].key != key
      ensures j == n
    {
    }
  }
}
