/**
  src/memory/memory_cache.c as it runs: a doubly linked list of items with head and tail pointers,
  relinked in place. The ghost field `items` is the list from head to tail. Each operation makes
  exactly the step of `CacheSpec`; the memory pool is assumed to have room.
*/
module MemoryCache {
  import opened CacheSpec

  class CacheItem {
    const key: string
    var value: string
    var accessCount: nat
    var lastAccessTime: nat
    var next: CacheItem?
    var prev: CacheItem?

    constructor (key: string, value: string, time: nat)
      ensures Content() == Entry(key, value, 1, time) && next == null && prev == null
    {
      this.key, this.value, accessCount, lastAccessTime := key, value, 1, time;
      next, prev := null, null;
    }

    ghost function Content(): Entry
      reads this`value, this`accessCount, this`lastAccessTime
    {
      Entry(key, value, accessCount, lastAccessTime)
    }
  }

  ghost predicate Distinct(items: seq<CacheItem>) {
    forall i, j :: 0 <= i < j < |items| ==> items[i] != items[j]
  }

  lemma DistinctFrom(items: seq<CacheItem>, i: nat)
    requires Distinct(items) && i < |items|
    ensures forall j :: 0 <= j < |items| && j != i ==> items[j] != items[i]
  {
  }

  lemma RemoveDistinct(items: seq<CacheItem>, i: nat)
    requires Distinct(items) && i < |items|
    ensures Distinct(items[..i] + items[i + 1..]) && items[i] !in items[..i] + items[i + 1..]
  {
  }

  lemma FrontDistinct(items: seq<CacheItem>, item: CacheItem)
    requires Distinct(items) && item !in items
    ensures Distinct([item] + items)
  {
  }

  function At(items: seq<CacheItem>, i: int): CacheItem? {
    if 0 <= i < |items| then items[i] else null
  }

  ghost predicate Within(items: seq<CacheItem>, repr: set<CacheItem>) {
    forall i {:trigger items[i]} :: 0 <= i < |items| ==> items[i] in repr
  }

  /** Both chains of pointers run through the list, in opposite directions. */
  ghost predicate Chained(items: seq<CacheItem>, repr: set<CacheItem>)
    requires Within(items, repr)
    reads repr`next, repr`prev
  {
    && (forall i {:trigger items[i].prev} :: 0 <= i < |items| ==> items[i].prev == At(items, i - 1))
    && (forall i {:trigger items[i].next} :: 0 <= i < |items| ==> items[i].next == At(items, i + 1))
  }

  /** The items hold the entries, position by position. */
  ghost predicate Holds(items: seq<CacheItem>, contents: seq<Entry>, repr: set<CacheItem>)
    requires Within(items, repr)
    reads repr`value, repr`accessCount, repr`lastAccessTime
  {
    && |items| == |contents|
    && forall i {:trigger items[i]} {:trigger contents[i]} :: 0 <= i < |items| ==> items[i].Content() == contents[i]
  }

  lemma RemoveHolds(items: seq<CacheItem>, contents: seq<Entry>, repr: set<CacheItem>, i: nat)
    requires i < |items| && Within(items, repr) && Holds(items, contents, repr)
    ensures Within(items[..i] + items[i + 1..], repr) && Holds(items[..i] + items[i + 1..], Remove(contents, i), repr)
  {
  }

  lemma FrontHolds(items: seq<CacheItem>, contents: seq<Entry>, repr: set<CacheItem>, item: CacheItem)
    requires Within(items, repr) && Holds(items, contents, repr)
    ensures Within([item] + items, repr + {item})
    ensures Holds([item] + items, [item.Content()] + contents, repr + {item})
  {
  }

  /** Takes an item out of both chains. */
  method Bypass(ghost items: seq<CacheItem>, ghost repr: set<CacheItem>, item: CacheItem, ghost i: nat)
    requires Within(items, repr) && Distinct(items) && Chained(items, repr) && i < |items| && items[i] == item
    requires Within(items[..i] + items[i + 1..], repr)
    modifies repr`next, repr`prev
    ensures Chained(items[..i] + items[i + 1..], repr)
    ensures item.next == At(items, i + 1) && item.prev == At(items, i - 1)
  {
    hide Distinct;
    assert items[i].next == item.next && items[i].prev == item.prev;
    DistinctFrom(items, i);
    if item.prev != null {
      item.prev.next := item.next;
    }
    if item.next != null {
      item.next.prev := item.prev;
    }
    ghost var rest := items[..i] + items[i + 1..];
    forall j | 0 <= j < |rest|
      ensures rest[j].prev == At(rest, j - 1) && rest[j].next == At(rest, j + 1)
    {
      var k := if j < i then j else j + 1;
      assert rest[j] == items[k];
      DistinctFrom(items, k);
    }
  }

  class LruCache {
    const capacity: nat
    const maxItemCount: nat
    var used: int
    var itemCount: int
    var head: CacheItem?
    var tail: CacheItem?
    var currentTime: nat
    ghost var items: seq<CacheItem>
    ghost var contents: seq<Entry>
    ghost var repr: set<CacheItem>
    ghost var model: Cache

    /** The list from head to tail is `items`, and its entries are `contents`. */
    ghost predicate Linked()
      reads this`head, this`tail, this`items, this`contents, this`repr, repr
      ensures Linked() ==> |items| == |contents|
    {
      && Within(items, repr) && Distinct(items) && Chained(items, repr) && Holds(items, contents, repr)
      && head == At(items, 0) && tail == At(items, |items| - 1)
    }

    ghost predicate Valid()
      reads this, repr
    {
      && model == Cache(contents, used, capacity, maxItemCount, currentTime) && maxItemCount > 0 && Inv(model)
      && Linked() && itemCount == |items|
    }

    /** `memory_cache_init`, with the configured sizes already positive. */
    constructor (capacity: nat, maxItemCount: nat, now: nat)
      requires maxItemCount > 0
      ensures Valid() && model == Cache([], 0, capacity, maxItemCount, now) && repr == {}
    {
      this.capacity, this.maxItemCount := capacity, maxItemCount;
      used, itemCount, head, tail, currentTime := 0, 0, null, null, now;
      items, contents, repr, model := [], [], {}, Cache([], 0, capacity, maxItemCount, now);
    }

    /** `memory_cache_find`. */
    method Find(key: string) returns (item: CacheItem?, ghost i: nat)
      requires Linked()
      ensures i == IndexOf(contents, key)
      ensures item == At(items, IndexOf(contents, key))
      ensures item != null ==> item in repr && item.key == contents[i].key && item.value == contents[i].value
    {
      item := head;
      i := 0;
      while item != null
        invariant i <= |items| && item == At(items, i)
        invariant forall j :: 0 <= j < i ==> contents[j].key != key
        decreases |items| - i
      {
        if item.key == key {
          IndexIs(contents, key, i);
          return;
        }
        assert items[i].next == item.next;
        item := item.next;
        i := i + 1;
      }
      IndexIs(contents, key, i);
    }

    /** The unlinking code of eviction and deletion. */
    method Unlink(item: CacheItem, ghost i: nat)
      requires Linked() && i < |items| && items[i] == item
      modifies this`head, this`tail, this`items, this`contents, repr`next, repr`prev
      ensures Linked() && contents == Remove(old(contents), i) && |contents| == |old(contents)| - 1 && item !in items
    {
      hide Chained, Distinct, Holds, Remove;
      RemoveHolds(items, contents, repr, i);
      RemoveDistinct(items, i);
      DistinctFrom(items, i);
      Bypass(items, repr, item, i);
      if item == head {
        head := item.next;
      }
      if item == tail {
        tail := item.prev;
      }
      items, contents := items[..i] + items[i + 1..], Remove(contents, i);
    }

    /** Puts an item that is not in the list at its head. */
    method PushFront(item: CacheItem)
      requires Linked() && item !in items
      modifies this`head, this`tail, this`items, this`contents, this`repr, repr`prev, item`next, item`prev
      ensures Linked() && contents == [old(item.Content())] + old(contents) && repr == old(repr) + {item}
    {
      hide Distinct, Holds;
      FrontHolds(items, contents, repr, item);
      FrontDistinct(items, item);
      DistinctFrom([item] + items, 0);
      if items != [] {
        DistinctFrom(items, 0);
      }
      item.next := head;
      item.prev := null;
      if head != null {
        head.prev := item;
      }
      head := item;
      if tail == null {
        tail := item;
      }
      items, contents, repr := [item] + items, [item.Content()] + contents, repr + {item};
    }

    /** `memory_cache_update_access`, with `memory_cache_move_to_head` written out by its two halves. */
    method UpdateAccess(item: CacheItem, ghost i: nat)
      requires Linked() && i < |items| && items[i] == item
      modifies this`head, this`tail, this`items, this`contents, this`repr, repr`next, repr`prev
      modifies item`accessCount, item`lastAccessTime
      ensures Linked() && repr == old(repr) && |contents| == |old(contents)|
      ensures contents == Touch(old(contents), i, item.value, currentTime)
    {
      hide Chained, Distinct, Remove;
      DistinctFrom(items, i);
      item.accessCount := (item.accessCount + 1) % COUNT_WRAP;
      item.lastAccessTime := currentTime;
      contents := contents[i := item.Content()];
      RemoveUpdated(old(contents), i, item.Content());
      assert Linked();
      assert Touch(old(contents), i, item.value, currentTime) == [item.Content()] + Remove(old(contents), i);
      assert (item == head ==> i == 0) && item in repr;
      hide Linked, Touch;
      if item != head {
        Unlink(item, i);
        PushFront(item);
      }
    }

    /** `memory_cache_evict`. */
    method Evict() returns (ok: bool)
      requires Linked() && itemCount == |items|
      modifies this`head, this`tail, this`items, this`contents, this`used, this`itemCount, repr`next, repr`prev
      ensures Linked() && itemCount == |items| && ok == (old(contents) != [])
      ensures !ok ==> unchanged(this)
      ensures ok ==>
        var v := Victim(old(contents));
        && contents == Remove(old(contents), v) && |contents| == |old(contents)| - 1
        && used == old(used - ItemSize(contents[v].key, contents[v].value))
    {
      if itemCount == 0 {
        return false;
      }
      var victim: CacheItem? := null;
      var current := tail;
      ghost var n: nat := |items|;
      while current != null
        invariant n <= |items| && current == At(items, n - 1)
        invariant victim == if n == |items| then null else items[VictimFrom(contents, n)]
        decreases n
      {
        if victim == null || current.accessCount < victim.accessCount ||
           (current.accessCount == victim.accessCount && current.lastAccessTime < victim.lastAccessTime) {
          victim := current;
        }
        assert items[n - 1].prev == current.prev;
        current := current.prev;
        n := n - 1;
      }
      ghost var v := Victim(contents);
      var size := ItemSize(victim.key, victim.value);
      Unlink(victim, v);
      used := used - size;
      itemCount := itemCount - 1;
      return true;
    }

    /** The eviction loop of `memory_cache_set`. */
    method EvictFor(size: nat) returns (room: bool)
      requires Linked() && itemCount == |items| && used == TotalSize(contents)
      modifies this`head, this`tail, this`items, this`contents, this`used, this`itemCount, repr`next, repr`prev
      ensures Linked() && itemCount == |items| && used == TotalSize(contents)
      ensures (contents, room) == MakeRoom(old(contents), size, capacity, maxItemCount)
    {
      hide Linked, VictimFrom, Remove;
      while used + size > capacity || itemCount >= maxItemCount
        invariant Linked() && itemCount == |items| && used == TotalSize(contents)
        invariant MakeRoom(contents, size, capacity, maxItemCount) == MakeRoom(old(contents), size, capacity, maxItemCount)
        decreases |contents|
      {
        if contents != [] {
          RemoveSize(contents, Victim(contents));
        }
        var evicted := Evict();
        if !evicted {
          return false;
        }
      }
      return true;
    }

    /** `memory_cache_set`. */
    method Set(key: string, value: string) returns (ok: bool)
      requires Valid()
      modifies this, repr
      ensures Valid() && fresh(repr - old(repr))
      ensures (model, if ok then Done else Refused) == SetStep(old(model), key, value)
    {
      hide Linked, Inv, SetStep, IndexOf, Touch, MakeRoom, TotalSize;
      SetCases(model, key, value);
      ghost var after := SetStep(model, key, value).0;
      if key == "" || value == "" {
        return false;
      }
      var size := ItemSize(key, value);
      var room := EvictFor(size);
      if !room {
        model := after;
        return false;
      }
      ghost var i: nat;
      var item;
      item, i := Find(key);
      if item != null {
        var oldSize := ItemSize(item.key, item.value);
        Rewrite(item, i, value);
        used := used - oldSize + size;
        UpdateAccess(item, i);
        model := after;
        return true;
      }
      item := new CacheItem(key, value, currentTime);
      PushFront(item);
      used := used + size;
      itemCount := itemCount + 1;
      model := after;
      return true;
    }

    /** Gives an item a new value. */
    method Rewrite(item: CacheItem, ghost i: nat, value: string)
      requires Linked() && i < |items| && items[i] == item
      modifies this`contents, item`value
      ensures Linked() && item.value == value && contents == old(contents)[i := old(contents[i]).(value := value)]
    {
      hide Distinct;
      DistinctFrom(items, i);
      item.value := value;
      contents := contents[i := item.Content()];
    }

    /** `memory_cache_get`; `clock` is what `time` returns. */
    method Get(key: string, clock: nat) returns (r: Answer)
      requires Valid()
      modifies this, repr
      ensures Valid() && repr == old(repr)
      ensures (model, r) == GetStep(old(model), key, clock)
    {
      hide Linked, Inv, GetStep, IndexOf, Touch;
      GetCases(model, key, clock);
      ghost var after := GetStep(model, key, clock).0;
      if key == "" {
        return Nothing;
      }
      currentTime, model := clock, model.(now := clock);
      ghost var i: nat;
      var item;
      item, i := Find(key);
      if item == null {
        return Nothing;
      }
      UpdateAccess(item, i);
      model := after;
      return Hit(item.value);
    }

    /** `memory_cache_delete`. */
    method Delete(key: string) returns (ok: bool)
      requires Valid()
      modifies this, repr
      ensures Valid() && repr == old(repr)
      ensures (model, if ok then Done else Refused) == DeleteStep(old(model), key)
    {
      hide Linked, Inv, DeleteStep, IndexOf, Remove;
      DeleteCases(model, key);
      ghost var after := DeleteStep(model, key).0;
      if key == "" {
        return false;
      }
      ghost var i: nat;
      var item;
      item, i := Find(key);
      if item == null {
        return false;
      }
      var size := ItemSize(item.key, item.value);
      Unlink(item, i);
      used := used - size;
      itemCount := itemCount - 1;
      model := after;
      return true;
    }

    /** `memory_cache_clear`; the loop that frees the items is not modelled. */
    method Clear()
      requires Valid()
      modifies this
      ensures Valid() && repr == {}
      ensures model == Step(old(model), CacheSpec.Clear).0
    {
      head, tail, used, itemCount := null, null, 0, 0;
      items, contents, repr, model := [], [], {}, Step(model, CacheSpec.Clear).0;
    }
  }

  lemma SetCases(c: Cache, key: string, value: string)
    requires Inv(c) && c.maxItems > 0
    ensures c.used == TotalSize(c.items) && Inv(SetStep(c, key, value).0)
    ensures var size := ItemSize(key, value);
            var (left, room) := MakeRoom(c.items, size, c.capacity, c.maxItems);
            var i := IndexOf(left, key);
            && (key == "" || value == "" ==> SetStep(c, key, value) == (c, Refused))
            && (key != "" && value != "" ==>
                  SetStep(c, key, value) ==
                  if !room then (c.(items := left, used := TotalSize(left)), Refused)
                  else if i < |left| then
                    (c.(items := Touch(left[i := left[i].(value := value)], i, value, c.now),
                        used := TotalSize(left) - ItemSize(left[i].key, left[i].value) + size), Done)
                  else (c.(items := [Entry(key, value, 1, c.now)] + left, used := TotalSize(left) + size), Done))
  {
    StepKeepsInv(c, CacheSpec.Set(key, value));
    var size := ItemSize(key, value);
    MakeRoomKeeps(c.items, size, c.capacity, c.maxItems, key);
    var (left, room) := MakeRoom(c.items, size, c.capacity, c.maxItems);
    var i := IndexOf(left, key);
    if i < |left| {
      RemoveUpdated(left, i, left[i].(value := value));
      TouchSize(left, i, value, c.now);
    } else {
      FrontSize(left, Entry(key, value, 1, c.now));
    }
  }

  lemma RemoveUpdated(s: seq<Entry>, i: nat, e: Entry)
    requires i < |s|
    ensures Remove(s[i := e], i) == Remove(s, i)
    ensures i == 0 ==> s[i := e] == [e] + Remove(s, i)
  {
  }

  /** The three ways a look-up goes, with the sizes worked out. */
  lemma GetCases(c: Cache, key: string, clock: nat)
    requires Inv(c) && c.maxItems > 0
    ensures Inv(GetStep(c, key, clock).0)
    ensures var i := IndexOf(c.items, key);
            && (key == "" ==> GetStep(c, key, clock) == (c, Nothing))
            && (key != "" && i == |c.items| ==> GetStep(c, key, clock) == (c.(now := clock), Nothing))
            && (key != "" && i < |c.items| ==>
                  GetStep(c, key, clock)
                  == (c.(items := Touch(c.items, i, c.items[i].value, clock), now := clock), Hit(c.items[i].value)))
  {
    StepKeepsInv(c, CacheSpec.Get(key, clock));
    var i := IndexOf(c.items, key);
    if i < |c.items| {
      TouchSize(c.items, i, c.items[i].value, clock);
    }
  }

  lemma DeleteCases(c: Cache, key: string)
    requires Inv(c) && c.maxItems > 0
    ensures Inv(DeleteStep(c, key).0)
    ensures var i := IndexOf(c.items, key);
            && (key == "" || i == |c.items| ==> DeleteStep(c, key) == (c, Refused))
            && (key != "" && i < |c.items| ==>
                  DeleteStep(c, key)
                  == (c.(items := Remove(c.items, i), used := c.used - ItemSize(c.items[i].key, c.items[i].value)), Done))
  {
    StepKeepsInv(c, CacheSpec.Delete(key));
    var i := IndexOf(c.items, key);
    if i < |c.items| {
      RemoveSize(c.items, i);
    }
  }

  lemma TouchSize(s: seq<Entry>, i: nat, value: string, now: nat)
    requires i < |s|
    ensures TotalSize(Touch(s, i, value, now)) == TotalSize(s) - |s[i].value| + |value|
  {
    RemoveSize(s, i);
    FrontSize(Remove(s, i), Touch(s, i, value, now)[0]);
  }

  lemma IndexIs(s: seq<Entry>, key: string, i: nat)
    requires i <= |s| && (i < |s| ==> s[i].key == key) && forall j :: 0 <= j < i ==> s[j].key != key
    ensures i == IndexOf(s, key)
  {
    IndexIsFirst(s, key);
  }
}
