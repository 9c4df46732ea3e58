/**
  What storing, getting and deleting do to the list of the memory cache of src/memory/memory_cache.c, with
  sizes and counts written out: which items an insertion evicts, one by one, and what is at the head.
*/
module CacheEffects {

  import opened CacheSpec

  /** An item takes 72 bytes beside its key and value. */
  function Bytes(items: seq<Entry>): nat {
    if items == [] then 0 else 72 + |items[0].key| + |items[0].value| + Bytes(items[1..])
  }

  lemma {:induction false} BytesAreTotal(items: seq<Entry>)
    ensures Bytes(items) == TotalSize(items)
  {
    if items != [] {
      BytesAreTotal(items[1..]);
    }
  }

  /** No other item has been used less; among those used as often none longer ago; among those none nearer to the tail. */
  ghost predicate LeastUsed(items: seq<Entry>, v: int)
    ensures LeastUsed(items, v) ==> 0 <= v < |items|
  {
    && 0 <= v < |items|
    && (forall j :: 0 <= j < v ==>
          items[v].count < items[j].count || (items[v].count == items[j].count && items[v].time <= items[j].time))
    && (forall j :: v < j < |items| ==>
          items[v].count < items[j].count || (items[v].count == items[j].count && items[v].time < items[j].time))
  }

  /** There is no room for an item of this size, and the least used one goes. */
  ghost predicate Loses(before: seq<Entry>, after: seq<Entry>, size: nat, capacity: nat, maxItems: nat) {
    && (Bytes(before) + size > capacity || |before| >= maxItems)
    && exists v :: LeastUsed(before, v) && after == before[..v] + before[v + 1..]
  }

  ghost predicate Eviction(steps: seq<seq<Entry>>, size: nat, capacity: nat, maxItems: nat)
    ensures Eviction(steps, size, capacity, maxItems) ==> steps != []
  {
    steps != [] && forall k :: 0 <= k < |steps| - 1 ==> Loses(steps[k], steps[k + 1], size, capacity, maxItems)
  }

  lemma VictimIsLeastUsed(items: seq<Entry>)
    requires items != []
    ensures LeastUsed(items, Victim(items))
  {
    VictimIsLeast(items, 0);
    var v := Victim(items);
    assert forall j :: 0 <= j < |items| ==> !Prefer(items[j], items[v]);
  }

  /** The eviction loop, as the list of what it leaves after each loss. */
  lemma {:induction false} RoomIsMade(items: seq<Entry>, size: nat, capacity: nat, maxItems: nat) returns (steps: seq<seq<Entry>>)
    requires maxItems > 0
    ensures Eviction(steps, size, capacity, maxItems) && steps[0] == items
    ensures steps[|steps| - 1] == MakeRoom(items, size, capacity, maxItems).0
    decreases |items|
  {
    hide Loses, LeastUsed, Victim, VictimFrom;
    steps := [items];
    if Crowded(items, size, capacity, maxItems) && items != [] {
      var v := Victim(items);
      VictimIsLeastUsed(items);
      BytesAreTotal(items);
      VictimGoes(items, Remove(items, v), size, capacity, maxItems, v);
      var rest := RoomIsMade(Remove(items, v), size, capacity, maxItems);
      steps := [items] + rest;
      forall k | 0 <= k < |steps| - 1
        ensures Loses(steps[k], steps[k + 1], size, capacity, maxItems)
      {
        if k > 0 {
          assert steps[k] == rest[k - 1] && steps[k + 1] == rest[k - 1 + 1];
        }
      }
    }
  }

  lemma VictimGoes(items: seq<Entry>, rest: seq<Entry>, size: nat, capacity: nat, maxItems: nat, v: int)
    requires LeastUsed(items, v) && rest == items[..v] + items[v + 1..]
    requires Bytes(items) + size > capacity || |items| >= maxItems
    ensures Loses(items, rest, size, capacity, maxItems)
  {
    hide Bytes;
  }

  function WithoutKey(items: seq<Entry>, key: string): seq<Entry> {
    if items == [] then []
    else (if items[0].key == key then [] else [items[0]]) + WithoutKey(items[1..], key)
  }

  lemma {:induction false} NothingWithout(items: seq<Entry>, key: string)
    requires forall i :: 0 <= i < |items| ==> items[i].key != key
    ensures WithoutKey(items, key) == items
  {
    if items != [] {
      NothingWithout(items[1..], key);
    }
  }

  lemma {:induction false} RemoveIsWithout(items: seq<Entry>, key: string)
    requires DistinctKeys(items)
    ensures var i := IndexOf(items, key);
            && (forall j :: 0 <= j < |items| && items[j].key == key <==> j == i < |items|)
            && WithoutKey(items, key) == if i < |items| then Remove(items, i) else items
  {
    if items != [] {
      var i := IndexOf(items, key);
      IndexIsFirst(items, key);
      if i == 0 {
        NothingWithout(items[1..], key);
      } else {
        RemoveIsWithout(items[1..], key);
        if i < |items| {
          assert [items[0]] + (items[1..][..i - 1] + items[1..][i..]) == items[..i] + items[i + 1..];
        }
      }
    }
  }

  /** How often a key has been used, for the entry that is made of it now. */
  function NextCount(items: seq<Entry>, key: string): nat {
    if items == [] then 1
    else if items[0].key == key then (items[0].count + 1) % 0x1_0000_0000
    else NextCount(items[1..], key)
  }

  lemma {:induction false} NextCountIs(items: seq<Entry>, key: string)
    ensures NextCount(items, key) == var i := IndexOf(items, key); if i < |items| then (items[i].count + 1) % COUNT_WRAP else 1
  {
    if items != [] && items[0].key != key {
      NextCountIs(items[1..], key);
    }
  }

  /**
    Storing evicts items one by one, each time the least used one and only while there is no room, and
    then puts the entry at the head of what is left, without another one for its key. An item that can
    never fit evicts everything and is refused.
  */
  lemma SetEffect(c: Cache, key: string, value: string) returns (steps: seq<seq<Entry>>)
    requires Inv(c) && c.maxItems > 0 && key != "" && value != ""
    ensures Eviction(steps, 72 + |key| + |value|, c.capacity, c.maxItems) && steps[0] == c.items
    ensures var c', size, left := SetStep(c, key, value).0, 72 + |key| + |value|, steps[|steps| - 1];
            if size <= c.capacity
            then && Bytes(left) + size <= c.capacity && |left| < c.maxItems
                 && c'.items == [Entry(key, value, NextCount(left, key), c.now)] + WithoutKey(left, key)
            else left == [] == c'.items
  {
    hide Eviction, Inv, IndexOf, WithoutKey, NextCount, Lookup, Bytes, MakeRoom;
    var size := 72 + |key| + |value|;
    InvDistinct(c);
    steps := RoomIsMade(c.items, size, c.capacity, c.maxItems);
    MakeRoomKeeps(c.items, size, c.capacity, c.maxItems, key);
    var left := MakeRoom(c.items, size, c.capacity, c.maxItems).0;
    BytesAreTotal(left);
    RemoveIsWithout(left, key);
    NextCountIs(left, key);
  }

  lemma NothingGoes(items: seq<Entry>, size: nat, capacity: nat, maxItems: nat)
    requires Bytes(items) + size <= capacity && |items| < maxItems
    ensures MakeRoom(items, size, capacity, maxItems) == (items, true)
  {
    hide Bytes, TotalSize;
    BytesAreTotal(items);
  }

  /** With room for the item nothing is evicted. */
  lemma SetWithRoom(c: Cache, key: string, value: string)
    requires Inv(c) && key != "" && value != ""
    requires Bytes(c.items) + (72 + |key| + |value|) <= c.capacity && |c.items| < c.maxItems
    ensures SetStep(c, key, value).0.items == [Entry(key, value, NextCount(c.items, key), c.now)] + WithoutKey(c.items, key)
  {
    hide Inv, IndexOf, WithoutKey, NextCount, Lookup, Bytes, TotalSize, MakeRoom, SetStep, Crowded;
    InvDistinct(c);
    NothingGoes(c.items, 72 + |key| + |value|, c.capacity, c.maxItems);
    RoomIsUsed(c, key, value, c.items);
    RemoveIsWithout(c.items, key);
    NextCountIs(c.items, key);
  }

  lemma RoomIsUsed(c: Cache, key: string, value: string, left: seq<Entry>)
    requires key != "" && value != "" && MakeRoom(c.items, 72 + |key| + |value|, c.capacity, c.maxItems) == (left, true)
    ensures var i := IndexOf(left, key);
            SetStep(c, key, value).0.items
            == if i < |left| then Touch(left, i, value, c.now) else [Entry(key, value, 1, c.now)] + left
  {
    hide IndexOf, TotalSize, MakeRoom, Touch;
  }

  lemma AllButVictim(items: seq<Entry>, v: nat, e: Entry)
    requires v < |items| && e in items
    ensures e == items[v] || e in items[..v] + items[v + 1..]
    ensures forall k <- items[..v] + items[v + 1..] :: k in items
  {
  }

  /** Whatever was evicted had been used no more often than anything that is left. */
  lemma {:induction false} EvictedUsedLeast(steps: seq<seq<Entry>>, size: nat, capacity: nat, maxItems: nat, lost: Entry, kept: Entry)
    requires Eviction(steps, size, capacity, maxItems)
    requires lost in steps[0] && lost !in steps[|steps| - 1] && kept in steps[|steps| - 1]
    ensures kept in steps[0] && lost.count <= kept.count
    decreases |steps|
  {
    StillThere(steps, size, capacity, maxItems, kept);
    if |steps| > 1 {
      assert Loses(steps[0], steps[1], size, capacity, maxItems);
      var v :| LeastUsed(steps[0], v) && steps[1] == steps[0][..v] + steps[0][v + 1..];
      AllButVictim(steps[0], v, lost);
      if lost in steps[1] {
        assert Eviction(steps[1..], size, capacity, maxItems);
        EvictedUsedLeast(steps[1..], size, capacity, maxItems, lost, kept);
      } else {
        var j :| 0 <= j < |steps[0]| && steps[0][j] == kept;
      }
    }
  }

  lemma {:induction false} StillThere(steps: seq<seq<Entry>>, size: nat, capacity: nat, maxItems: nat, kept: Entry)
    requires Eviction(steps, size, capacity, maxItems) && kept in steps[|steps| - 1]
    ensures kept in steps[0]
    decreases |steps|
  {
    if |steps| > 1 {
      assert Loses(steps[0], steps[1], size, capacity, maxItems);
      assert Eviction(steps[1..], size, capacity, maxItems);
      StillThere(steps[1..], size, capacity, maxItems, kept);
    }
  }

  /** A hit moves the entry to the head, used once more and at the time given; a miss changes nothing but the time. */
  lemma GetEffect(c: Cache, key: string, clock: nat)
    requires Inv(c) && key != ""
    ensures var (c', answer) := GetStep(c, key, clock);
            && c'.now == clock
            && (answer == Nothing <==> forall e <- c.items :: e.key != key)
            && (answer == Nothing ==> c'.items == c.items)
            && (answer != Nothing ==>
                  exists e <- c.items :: e.key == key && answer == Hit(e.value)
                    && c'.items == [Entry(key, e.value, (e.count + 1) % 0x1_0000_0000, clock)] + WithoutKey(c.items, key))
  {
    hide WithoutKey, Inv, TotalSize, IndexOf;
    InvDistinct(c);
    RemoveIsWithout(c.items, key);
    IndexIsFirst(c.items, key);
    var i := IndexOf(c.items, key);
    if i < |c.items| {
      assert c.items[i] in c.items;
    }
  }

  lemma DeleteEffect(c: Cache, key: string)
    requires Inv(c) && key != ""
    ensures var (c', answer) := DeleteStep(c, key);
            && (answer == Done <==> exists e <- c.items :: e.key == key)
            && c'.items == WithoutKey(c.items, key) && c'.now == c.now
  {
    hide WithoutKey, Inv, TotalSize, IndexOf;
    InvDistinct(c);
    RemoveIsWithout(c.items, key);
    IndexIsFirst(c.items, key);
    var i := IndexOf(c.items, key);
    if i < |c.items| {
      assert c.items[i] in c.items;
    }
  }
}
