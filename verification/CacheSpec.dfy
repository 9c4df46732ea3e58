/**
  The memory cache of src/memory/memory_cache.c as a list of entries, most recently used first, with
  the replacement rule that looks at access counts first and access times second.
*/
module CacheSpec {

  datatype Entry = Entry(key: string, value: string, count: nat, time: nat)

  datatype Cache = Cache(items: seq<Entry>, used: int, capacity: nat, maxItems: nat, now: nat)

  datatype Op =
    | Set(key: string, value: string)
    | Get(key: string, clock: nat)
    | Delete(key: string)
    | Clear

  datatype Answer = Nothing | Done | Refused | Hit(value: string)

  /** sizeof(CacheItem) with eight-byte pointers and sizes. */
  const ITEM_OVERHEAD: nat := 72

  const COUNT_WRAP: nat := 0x1_0000_0000

  function ItemSize(key: string, value: string): nat {
    ITEM_OVERHEAD + |key| + |value|
  }

  function TotalSize(items: seq<Entry>): nat {
    if items == [] then 0 else ItemSize(items[0].key, items[0].value) + TotalSize(items[1..])
  }

  /** The position of a key in the list, or its length. */
  function IndexOf(items: seq<Entry>, key: string): (i: nat)
    ensures i <= |items|
    ensures i < |items| ==> items[i].key == key
  {
    if items == [] then 0 else if items[0].key == key then 0 else 1 + IndexOf(items[1..], key)
  }

  lemma {:induction false} IndexIsFirst(items: seq<Entry>, key: string)
    ensures forall j :: 0 <= j < IndexOf(items, key) ==> items[j].key != key
  {
    if items != [] && items[0].key != key {
      IndexIsFirst(items[1..], key);
      assert forall j :: 0 < j < |items| ==> items[j] == items[1..][j - 1];
    }
  }

  function Lookup(items: seq<Entry>, key: string): Answer {
    var i := IndexOf(items, key);
    if i < |items| then Hit(items[i].value) else Nothing
  }

  function Remove(items: seq<Entry>, i: nat): seq<Entry>
    requires i < |items|
  {
    items[..i] + items[i + 1..]
  }

  /** `memory_cache_update_access` on an entry with a possibly new value: counted, stamped, moved to the front. */
  function Touch(items: seq<Entry>, i: nat, value: string, now: nat): seq<Entry>
    requires i < |items|
  {
    [Entry(items[i].key, value, (items[i].count + 1) % COUNT_WRAP, now)] + Remove(items, i)
  }

  // ---------- Eviction ----------

  predicate Prefer(a: Entry, b: Entry) {
    a.count < b.count || (a.count == b.count && a.time < b.time)
  }

  /** The scan from the tail towards the head, having looked at positions `n` and above. */
  function VictimFrom(items: seq<Entry>, n: nat): (v: nat)
    requires n < |items|
    ensures n <= v < |items|
    decreases |items| - n
  {
    if n == |items| - 1 then n
    else
      var best := VictimFrom(items, n + 1);
      if Prefer(items[n], items[best]) then n else best
  }

  function Victim(items: seq<Entry>): nat
    requires items != []
  {
    VictimFrom(items, 0)
  }

  predicate Crowded(items: seq<Entry>, size: nat, capacity: nat, maxItems: nat) {
    TotalSize(items) + size > capacity || |items| >= maxItems
  }

  /** The eviction loop of `memory_cache_set`: what is left, and whether there is room. */
  function MakeRoom(items: seq<Entry>, size: nat, capacity: nat, maxItems: nat): (seq<Entry>, bool)
    decreases |items|
  {
    if !Crowded(items, size, capacity, maxItems) then (items, true)
    else if items == [] then (items, false)
    else MakeRoom(Remove(items, Victim(items)), size, capacity, maxItems)
  }

  // ---------- Steps ----------

  function WithItems(c: Cache, items: seq<Entry>): Cache {
    c.(items := items, used := TotalSize(items))
  }

  function SetStep(c: Cache, key: string, value: string): (Cache, Answer) {
    if key == "" || value == "" then (c, Refused)
    else
      var (left, room) := MakeRoom(c.items, ItemSize(key, value), c.capacity, c.maxItems);
      if !room then (WithItems(c, left), Refused)
      else
        var i := IndexOf(left, key);
        if i < |left| then (WithItems(c, Touch(left, i, value, c.now)), Done)
        else (WithItems(c, [Entry(key, value, 1, c.now)] + left), Done)
  }

  function GetStep(c: Cache, key: string, clock: nat): (Cache, Answer) {
    if key == "" then (c, Nothing)
    else
      var i := IndexOf(c.items, key);
      if i < |c.items| then
        (WithItems(c, Touch(c.items, i, c.items[i].value, clock)).(now := clock), Hit(c.items[i].value))
      else (c.(now := clock), Nothing)
  }

  function DeleteStep(c: Cache, key: string): (Cache, Answer) {
    var i := IndexOf(c.items, key);
    if key != "" && i < |c.items| then (WithItems(c, Remove(c.items, i)), Done) else (c, Refused)
  }

  function Step(c: Cache, op: Op): (Cache, Answer) {
    match op
    case Set(key, value) => SetStep(c, key, value)
    case Get(key, clock) => GetStep(c, key, clock)
    case Delete(key) => DeleteStep(c, key)
    case Clear => (WithItems(c, []), Done)
  }

  // ---------- What every step keeps ----------

  ghost predicate DistinctKeys(items: seq<Entry>) {
    forall i, j :: 0 <= i < j < |items| ==> items[i].key != items[j].key
  }

  /** `used` is the sum of the sizes and within the capacity, keys are distinct, and there are not too many items. */
  ghost predicate Inv(c: Cache) {
    c.used == TotalSize(c.items) <= c.capacity && |c.items| <= c.maxItems && DistinctKeys(c.items)
  }

  lemma {:induction false} TotalSizeConcat(a: seq<Entry>, b: seq<Entry>)
    ensures TotalSize(a + b) == TotalSize(a) + TotalSize(b)
  {
    if a == [] {
      assert a + b == b;
    } else {
      assert (a + b)[1..] == a[1..] + b;
      TotalSizeConcat(a[1..], b);
    }
  }

  lemma RemoveSize(items: seq<Entry>, i: nat)
    requires i < |items|
    ensures TotalSize(Remove(items, i)) == TotalSize(items) - ItemSize(items[i].key, items[i].value)
  {
    TotalSizeConcat(items[..i], items[i..]);
    TotalSizeConcat(items[..i], items[i + 1..]);
    assert items == items[..i] + items[i..];
    assert items[i..][1..] == items[i + 1..];
  }

  lemma FrontSize(items: seq<Entry>, e: Entry)
    ensures TotalSize([e] + items) == ItemSize(e.key, e.value) + TotalSize(items)
  {
    assert ([e] + items)[1..] == items;
  }

  lemma RemoveLookup(items: seq<Entry>, i: nat, key: string)
    requires i < |items| && DistinctKeys(items)
    ensures DistinctKeys(Remove(items, i))
    ensures Lookup(Remove(items, i), key) == if key == items[i].key then Nothing else Lookup(items, key)
  {
    var rest := Remove(items, i);
    var j, k := IndexOf(items, key), IndexOf(rest, key);
    IndexIsFirst(items, key);
    IndexIsFirst(rest, key);
    assert forall m :: 0 <= m < |rest| ==> rest[m] == if m < i then items[m] else items[m + 1];
    if key == items[i].key {
      assert k == |rest|;
    } else if j < |items| {
      var m := if j < i then j else j - 1;
      assert rest[m] == items[j];
      assert k == m;
    } else {
      assert k == |rest|;
    }
  }

  lemma FrontLookup(items: seq<Entry>, e: Entry, key: string)
    requires DistinctKeys(items) && Lookup(items, e.key) == Nothing
    ensures DistinctKeys([e] + items)
    ensures Lookup([e] + items, key) == if key == e.key then Hit(e.value) else Lookup(items, key)
  {
    var all := [e] + items;
    IndexIsFirst(items, e.key);
    assert all[1..] == items;
    assert forall m :: 0 < m < |all| ==> all[m] == items[m - 1];
  }

  /** What the eviction loop leaves: bindings only disappear, sizes fit, and it fails exactly when the item can never fit. */
  lemma {:induction false} MakeRoomKeeps(items: seq<Entry>, size: nat, capacity: nat, maxItems: nat, key: string)
    requires DistinctKeys(items) && maxItems > 0
    ensures var (left, room) := MakeRoom(items, size, capacity, maxItems);
            && DistinctKeys(left) && |left| <= |items| && TotalSize(left) <= TotalSize(items)
            && (Lookup(left, key) == Lookup(items, key) || Lookup(left, key) == Nothing)
            && (room <==> size <= capacity)
            && (room ==> !Crowded(left, size, capacity, maxItems))
            && (!room ==> left == [])
    decreases |items|
  {
    if Crowded(items, size, capacity, maxItems) && items != [] {
      var v := Victim(items);
      RemoveLookup(items, v, key);
      RemoveSize(items, v);
      MakeRoomKeeps(Remove(items, v), size, capacity, maxItems, key);
    }
  }

  lemma TouchKeeps(items: seq<Entry>, i: nat, value: string, now: nat, key: string)
    requires i < |items| && DistinctKeys(items)
    ensures var touched := Touch(items, i, value, now);
            && DistinctKeys(touched) && |touched| == |items|
            && TotalSize(touched) == TotalSize(items) - |items[i].value| + |value|
            && Lookup(touched, key) == if key == items[i].key then Hit(value) else Lookup(items, key)
  {
    var e := Touch(items, i, value, now)[0];
    RemoveLookup(items, i, e.key);
    RemoveLookup(items, i, key);
    RemoveSize(items, i);
    FrontSize(Remove(items, i), e);
    FrontLookup(Remove(items, i), e, key);
  }

  /** Every operation keeps the bookkeeping right. */
  lemma StepKeepsInv(c: Cache, op: Op)
    requires Inv(c) && c.maxItems > 0
    ensures Inv(Step(c, op).0)
  {
    match op
    case Set(key, value) =>
      if key != "" && value != "" {
        MakeRoomKeeps(c.items, ItemSize(key, value), c.capacity, c.maxItems, key);
        var left := MakeRoom(c.items, ItemSize(key, value), c.capacity, c.maxItems).0;
        var i := IndexOf(left, key);
        if i < |left| {
          TouchKeeps(left, i, value, c.now, key);
        } else {
          FrontSize(left, Entry(key, value, 1, c.now));
          FrontLookup(left, Entry(key, value, 1, c.now), key);
        }
      }
    case Get(key, clock) =>
      var i := IndexOf(c.items, key);
      if i < |c.items| {
        TouchKeeps(c.items, i, c.items[i].value, clock, key);
      }
    case Delete(key) =>
      var i := IndexOf(c.items, key);
      if i < |c.items| {
        RemoveLookup(c.items, i, key);
        RemoveSize(c.items, i);
      }
    case Clear =>
  }

  /**
    Storing succeeds exactly when key and value are not empty and the item alone fits. Then the key reads
    back its value, and any other key reads as before or has been evicted. A refused item that can
    never fit has emptied the cache.
  */
  lemma SetExactly(c: Cache, key: string, value: string, other: string)
    requires Inv(c) && c.maxItems > 0
    ensures var (c', answer) := SetStep(c, key, value);
            && (answer == Done <==> key != "" && value != "" && ItemSize(key, value) <= c.capacity)
            && (answer == Done ==> Lookup(c'.items, key) == Hit(value))
            && (other != key ==> Lookup(c'.items, other) == Lookup(c.items, other) || Lookup(c'.items, other) == Nothing)
            && (answer != Done ==> c'.items == if key == "" || value == "" then c.items else [])
  {
    if key != "" && value != "" {
      MakeRoomKeeps(c.items, ItemSize(key, value), c.capacity, c.maxItems, other);
      var (left, room) := MakeRoom(c.items, ItemSize(key, value), c.capacity, c.maxItems);
      if room {
        var i := IndexOf(left, key);
        if i < |left| {
          TouchKeeps(left, i, value, c.now, other);
          TouchKeeps(left, i, value, c.now, key);
        } else {
          FrontLookup(left, Entry(key, value, 1, c.now), other);
          FrontLookup(left, Entry(key, value, 1, c.now), key);
        }
      }
    }
  }

  /** Getting and deleting change no other binding; getting changes none at all. */
  lemma GetDeleteExactly(c: Cache, key: string, clock: nat, other: string)
    requires Inv(c)
    ensures var (c', answer) := GetStep(c, key, clock);
            answer == (if key == "" then Nothing else Lookup(c.items, key)) && Lookup(c'.items, other) == Lookup(c.items, other)
    ensures var (c', answer) := DeleteStep(c, key);
            && (answer == Done <==> key != "" && Lookup(c.items, key) != Nothing)
            && Lookup(c'.items, other) == if other == key && key != "" then Nothing else Lookup(c.items, other)
  {
    var i := IndexOf(c.items, key);
    if i < |c.items| {
      TouchKeeps(c.items, i, c.items[i].value, clock, other);
      RemoveLookup(c.items, i, other);
    }
  }

  // ---------- Access records ----------

  /** The whole record of a key, if it is in the list. */
  function RecordOf(items: seq<Entry>, key: string): seq<Entry> {
    var i := IndexOf(items, key);
    if i < |items| then [items[i]] else []
  }

  lemma RemoveRecord(items: seq<Entry>, i: nat, key: string)
    requires i < |items| && DistinctKeys(items)
    ensures RecordOf(Remove(items, i), key) == if key == items[i].key then [] else RecordOf(items, key)
  {
    var rest := Remove(items, i);
    var j, k := IndexOf(items, key), IndexOf(rest, key);
    IndexIsFirst(items, key);
    IndexIsFirst(rest, key);
    assert forall m :: 0 <= m < |rest| ==> rest[m] == if m < i then items[m] else items[m + 1];
    if key != items[i].key && j < |items| {
      var m := if j < i then j else j - 1;
      assert rest[m] == items[j];
      assert k == m;
    }
  }

  lemma FrontRecord(items: seq<Entry>, e: Entry, key: string)
    ensures RecordOf([e] + items, key) == if key == e.key then [e] else RecordOf(items, key)
  {
    assert ([e] + items)[1..] == items;
  }

  /** A hit counts one access, modulo 2^32, and stamps the time; no other record changes. */
  lemma GetCountsAccess(c: Cache, key: string, clock: nat, other: string)
    requires Inv(c) && key != ""
    ensures var c', before := GetStep(c, key, clock).0, RecordOf(c.items, key);
            RecordOf(c'.items, other) ==
            if other == key && before != [] then
              [Entry(key, before[0].value, (before[0].count + 1) % COUNT_WRAP, clock)]
            else RecordOf(c.items, other)
  {
    hide Inv, Lookup;
    var i := IndexOf(c.items, key);
    if i < |c.items| {
      var e := Touch(c.items, i, c.items[i].value, clock)[0];
      InvDistinct(c);
      RemoveRecord(c.items, i, other);
      FrontRecord(Remove(c.items, i), e, other);
    }
  }

  lemma InvDistinct(c: Cache)
    requires Inv(c)
    ensures DistinctKeys(c.items)
  {
  }

  /** Storing without eviction counts an access of a key that is there, and starts a new one with one access. */
  lemma SetCountsAccess(c: Cache, key: string, value: string, other: string)
    requires Inv(c) && key != "" && value != "" && !Crowded(c.items, ItemSize(key, value), c.capacity, c.maxItems)
    ensures var c', before := SetStep(c, key, value).0, RecordOf(c.items, key);
            RecordOf(c'.items, other) ==
            if other != key then RecordOf(c.items, other)
            else [Entry(key, value, if before == [] then 1 else (before[0].count + 1) % COUNT_WRAP, c.now)]
  {
    hide Inv, Lookup;
    var i := IndexOf(c.items, key);
    if i < |c.items| {
      var e := Touch(c.items, i, value, c.now)[0];
      InvDistinct(c);
      RemoveRecord(c.items, i, other);
      FrontRecord(Remove(c.items, i), e, other);
    } else {
      FrontRecord(c.items, Entry(key, value, 1, c.now), other);
    }
  }

  // ---------- Time order ----------

  /** From head to tail the access times never increase, and none lies after the current time. */
  ghost predicate TimeOrdered(items: seq<Entry>, now: nat) {
    && (forall i, j :: 0 <= i < j < |items| ==> items[i].time >= items[j].time)
    && (forall i :: 0 <= i < |items| ==> items[i].time <= now)
  }

  lemma {:induction false} MakeRoomOrdered(items: seq<Entry>, size: nat, capacity: nat, maxItems: nat, now: nat)
    requires TimeOrdered(items, now)
    ensures TimeOrdered(MakeRoom(items, size, capacity, maxItems).0, now)
    decreases |items|
  {
    if Crowded(items, size, capacity, maxItems) && items != [] {
      MakeRoomOrdered(Remove(items, Victim(items)), size, capacity, maxItems, now);
    }
  }

  lemma RemoveOrdered(items: seq<Entry>, i: nat, now: nat)
    requires i < |items| && TimeOrdered(items, now)
    ensures TimeOrdered(Remove(items, i), now)
  {
  }

  lemma FrontOrdered(items: seq<Entry>, e: Entry, now: nat, later: nat)
    requires TimeOrdered(items, now) && now <= later && e.time == later
    ensures TimeOrdered([e] + items, later)
  {
    assert forall j :: 0 < j < |[e] + items| ==> ([e] + items)[j] == items[j - 1];
  }

  lemma StepKeepsOrder(c: Cache, op: Op)
    requires TimeOrdered(c.items, c.now) && (op.Get? ==> op.clock >= c.now)
    ensures TimeOrdered(Step(c, op).0.items, Step(c, op).0.now)
  {
    hide TimeOrdered, Remove;
    match op
    case Set(key, value) =>
      MakeRoomOrdered(c.items, ItemSize(key, value), c.capacity, c.maxItems, c.now);
      var left := MakeRoom(c.items, ItemSize(key, value), c.capacity, c.maxItems).0;
      var i := IndexOf(left, key);
      if i < |left| {
        RemoveOrdered(left, i, c.now);
        FrontOrdered(Remove(left, i), Touch(left, i, value, c.now)[0], c.now, c.now);
      } else {
        FrontOrdered(left, Entry(key, value, 1, c.now), c.now, c.now);
      }
    case Get(key, clock) =>
      var i := IndexOf(c.items, key);
      if i < |c.items| {
        RemoveOrdered(c.items, i, c.now);
        FrontOrdered(Remove(c.items, i), Touch(c.items, i, c.items[i].value, clock)[0], c.now, clock);
      }
      LaterOrdered(c.items, c.now, clock);
    case Delete(key) =>
      var i := IndexOf(c.items, key);
      if i < |c.items| {
        RemoveOrdered(c.items, i, c.now);
      }
    case Clear => NothingOrdered(c.now);
  }

  lemma LaterOrdered(items: seq<Entry>, now: nat, later: nat)
    requires TimeOrdered(items, now)
    ensures now <= later ==> TimeOrdered(items, later)
  {
  }

  lemma NothingOrdered(now: nat)
    ensures TimeOrdered([], now)
  {
  }

  /** In general: least count first, then oldest time, then nearest to the tail. */
  lemma {:induction false} VictimIsLeast(items: seq<Entry>, n: nat)
    requires n < |items|
    ensures var v := VictimFrom(items, n);
            && (forall j :: n <= j < |items| ==> !Prefer(items[j], items[v]))
            && (forall j :: v < j < |items| ==> Prefer(items[v], items[j]))
    decreases |items| - n
  {
    if n < |items| - 1 {
      VictimIsLeast(items, n + 1);
    }
  }

  /** On a time-ordered list the time comparison never decides: the victim is the least-used item nearest the tail. */
  lemma VictimByCountAlone(items: seq<Entry>, now: nat)
    requires items != [] && TimeOrdered(items, now)
    ensures var v := Victim(items);
            && v < |items|
            && (forall j :: 0 <= j < |items| ==> items[v].count <= items[j].count)
            && (forall j :: v < j < |items| ==> items[v].count < items[j].count)
  {
    VictimIsLeast(items, 0);
  }

  // ---------- Runs ----------

  function Run(start: Cache, ops: seq<Op>): Cache {
    if ops == [] then start else Step(Run(start, ops[..|ops| - 1]), ops[|ops| - 1]).0
  }

  /** The clock readings of a run never go back. */
  ghost predicate ClockRuns(start: Cache, ops: seq<Op>) {
    ops == [] || (ClockRuns(start, ops[..|ops| - 1])
                  && (ops[|ops| - 1].Get? ==> ops[|ops| - 1].clock >= Run(start, ops[..|ops| - 1]).now))
  }

  /** From an empty cache, every run keeps the bookkeeping, and runs with a forward clock keep the time order. */
  lemma {:induction false} RunKeeps(start: Cache, ops: seq<Op>)
    requires start.items == [] && start.used == 0 && start.maxItems > 0
    ensures Inv(Run(start, ops)) && Run(start, ops).maxItems == start.maxItems && Run(start, ops).capacity == start.capacity
    ensures ClockRuns(start, ops) ==> TimeOrdered(Run(start, ops).items, Run(start, ops).now)
  {
    if ops != [] {
      RunKeeps(start, ops[..|ops| - 1]);
      StepKeepsInv(Run(start, ops[..|ops| - 1]), ops[|ops| - 1]);
      if ClockRuns(start, ops) {
        StepKeepsOrder(Run(start, ops[..|ops| - 1]), ops[|ops| - 1]);
      }
    }
  }
}
