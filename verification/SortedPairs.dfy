/** Key-value sequences in ascending key order: what the leaves of a B+ tree hold, read left to right. */
module SortedPairs {

  datatype Pair = Pair(key: int, value: string)

  datatype Lookup = Missing | Present(value: string)

  ghost predicate Sorted(s: seq<Pair>) {
    forall i, j :: 0 <= i < j < |s| ==> s[i].key < s[j].key
  }

  ghost predicate AllBelow(s: seq<Pair>, key: int) {
    forall i :: 0 <= i < |s| ==> s[i].key < key
  }

  ghost predicate AllAbove(s: seq<Pair>, key: int) {
    forall i :: 0 <= i < |s| ==> s[i].key > key
  }

  function Find(s: seq<Pair>, key: int): Lookup {
    if s == [] then Missing
    else if s[0].key == key then Present(s[0].value)
    else Find(s[1..], key)
  }

  /** The pairs with start <= key <= end, in order. */
  function InRange(s: seq<Pair>, start: int, end: int): seq<Pair> {
    if s == [] then []
    else if start <= s[0].key <= end then [s[0]] + InRange(s[1..], start, end)
    else InRange(s[1..], start, end)
  }

  /** A new or changed binding in its place. */
  function Put(s: seq<Pair>, key: int, value: string): seq<Pair> {
    if s == [] then [Pair(key, value)]
    else if key < s[0].key then [Pair(key, value)] + s
    else if key == s[0].key then [Pair(key, value)] + s[1..]
    else [s[0]] + Put(s[1..], key, value)
  }

  function Drop(s: seq<Pair>, key: int): seq<Pair> {
    if s == [] then []
    else if s[0].key == key then s[1..]
    else [s[0]] + Drop(s[1..], key)
  }

  function ToMap(s: seq<Pair>): map<int, string> {
    if s == [] then map[] else ToMap(s[1..])[s[0].key := s[0].value]
  }

  // ---------- What the operations mean ----------

  lemma {:induction false} ToMapKeys(s: seq<Pair>)
    ensures forall k :: k in ToMap(s) <==> exists i :: 0 <= i < |s| && s[i].key == k
  {
    if s != [] {
      ToMapKeys(s[1..]);
      assert forall i :: 0 < i < |s| ==> s[i] == s[1..][i - 1];
    }
  }

  lemma SortedTail(s: seq<Pair>)
    requires Sorted(s) && s != []
    ensures Sorted(s[1..]) && s[0].key !in ToMap(s[1..])
  {
    ToMapKeys(s[1..]);
  }

  lemma {:induction false} FindIsLookup(s: seq<Pair>, key: int)
    requires Sorted(s)
    ensures Find(s, key) == if key in ToMap(s) then Present(ToMap(s)[key]) else Missing
    ensures |ToMap(s)| == |s|
  {
    if s != [] {
      SortedTail(s);
      FindIsLookup(s[1..], key);
    }
  }

  lemma {:induction false} PutKeys(s: seq<Pair>, key: int, value: string, low: int)
    requires forall i :: 0 <= i < |s| ==> low < s[i].key
    requires low < key
    ensures forall i :: 0 <= i < |Put(s, key, value)| ==> low < Put(s, key, value)[i].key
  {
    if s != [] && key > s[0].key {
      PutKeys(s[1..], key, value, low);
    }
  }

  lemma UpdatesCommute(m: map<int, string>, a: int, x: string, b: int, y: string)
    requires a != b
    ensures m[a := x][b := y] == m[b := y][a := x]
  {
  }

  /** Putting keeps the order and is map update. */
  lemma {:induction false} PutIsUpdate(s: seq<Pair>, key: int, value: string)
    requires Sorted(s)
    ensures Sorted(Put(s, key, value))
    ensures ToMap(Put(s, key, value)) == ToMap(s)[key := value]
  {
    if s != [] {
      SortedTail(s);
      if key < s[0].key {
        assert ([Pair(key, value)] + s)[1..] == s;
      } else if key == s[0].key {
        assert ([Pair(key, value)] + s[1..])[1..] == s[1..];
      } else {
        PutIsUpdate(s[1..], key, value);
        PutKeys(s[1..], key, value, s[0].key);
        assert ([s[0]] + Put(s[1..], key, value))[1..] == Put(s[1..], key, value);
        UpdatesCommute(ToMap(s[1..]), key, value, s[0].key, s[0].value);
      }
    } else {
      assert [Pair(key, value)][1..] == [];
    }
  }

  lemma {:induction false} DropMembers(s: seq<Pair>, key: int)
    ensures forall p :: p in Drop(s, key) ==> p in s
  {
    if s != [] {
      DropMembers(s[1..], key);
      assert forall p :: p in s[1..] ==> p in s;
    }
  }

  /** Dropping keeps the order and is map removal. */
  lemma {:induction false} DropIsRemoval(s: seq<Pair>, key: int)
    requires Sorted(s)
    ensures Sorted(Drop(s, key))
    ensures ToMap(Drop(s, key)) == ToMap(s) - {key}
  {
    if s != [] {
      SortedTail(s);
      if s[0].key != key {
        DropIsRemoval(s[1..], key);
        DropMembers(s[1..], key);
        var rest := Drop(s[1..], key);
        assert ([s[0]] + rest)[1..] == rest;
        forall j | 0 <= j < |rest| ensures s[0].key < rest[j].key {
          assert rest[j] in s[1..];
        }
        assert Sorted([s[0]] + rest);
        RemovalCommutes(ToMap(s[1..]), key, s[0].key, s[0].value);
      } else {
        RemovalUndoes(ToMap(s[1..]), key, s[0].value);
      }
    }
  }

  lemma RemovalCommutes(m: map<int, string>, a: int, b: int, y: string)
    requires a != b
    ensures (m - {a})[b := y] == m[b := y] - {a}
  {
  }

  lemma RemovalUndoes(m: map<int, string>, a: int, x: string)
    requires a !in m
    ensures m[a := x] - {a} == m
  {
  }

  lemma {:induction false} InRangeMember(s: seq<Pair>, start: int, end: int, p: Pair)
    ensures p in InRange(s, start, end) <==> p in s && start <= p.key <= end
  {
    if s != [] {
      InRangeMember(s[1..], start, end, p);
      assert p in s <==> p == s[0] || p in s[1..];
    }
  }

  /** The range keeps exactly the bindings whose keys lie in it, in ascending order. */
  lemma {:induction false} InRangeIsRestriction(s: seq<Pair>, start: int, end: int)
    requires Sorted(s)
    ensures Sorted(InRange(s, start, end))
    ensures forall p :: p in InRange(s, start, end) <==> p in s && start <= p.key <= end
  {
    forall p
      ensures p in InRange(s, start, end) <==> p in s && start <= p.key <= end
    {
      InRangeMember(s, start, end, p);
    }
    if s != [] {
      hide ToMap;
      var rest := InRange(s[1..], start, end);
      InRangeIsRestriction(s[1..], start, end);
      forall j | 0 <= j < |rest| ensures s[0].key < rest[j].key {
        assert rest[j] in rest && rest[j] in s[1..];
      }
    }
  }

  // ---------- Through concatenations ----------

  lemma {:induction false} InRangeConcat(a: seq<Pair>, b: seq<Pair>, start: int, end: int)
    ensures InRange(a + b, start, end) == InRange(a, start, end) + InRange(b, start, end)
  {
    if a == [] {
      assert a + b == b;
    } else {
      assert (a + b)[1..] == a[1..] + b;
      InRangeConcat(a[1..], b, start, end);
    }
  }

  lemma {:induction false} InRangeOutside(s: seq<Pair>, start: int, end: int)
    requires forall i :: 0 <= i < |s| ==> s[i].key < start || s[i].key > end
    ensures InRange(s, start, end) == []
  {
    if s != [] {
      InRangeOutside(s[1..], start, end);
    }
  }

  lemma {:induction false} FindBehind(a: seq<Pair>, b: seq<Pair>, key: int)
    requires AllBelow(a, key)
    ensures Find(a + b, key) == Find(b, key)
  {
    if a == [] {
      assert a + b == b;
    } else {
      assert (a + b)[1..] == a[1..] + b;
      FindBehind(a[1..], b, key);
    }
  }

  lemma {:induction false} FindAbsent(s: seq<Pair>, key: int)
    requires AllAbove(s, key)
    ensures Find(s, key) == Missing
  {
    if s != [] {
      FindAbsent(s[1..], key);
    }
  }

  lemma {:induction false} DropAbsent(s: seq<Pair>, key: int)
    requires AllAbove(s, key)
    ensures Drop(s, key) == s
  {
    if s != [] {
      DropAbsent(s[1..], key);
    }
  }

  lemma {:induction false} FindBefore(a: seq<Pair>, b: seq<Pair>, key: int)
    requires AllAbove(b, key)
    ensures Find(a + b, key) == Find(a, key)
  {
    if a == [] {
      assert a + b == b;
      FindAbsent(b, key);
    } else {
      assert (a + b)[1..] == a[1..] + b;
      FindBefore(a[1..], b, key);
    }
  }

  /** A change in the middle part is a change of the whole, when the key belongs there. */
  lemma {:induction false} PutBehind(a: seq<Pair>, b: seq<Pair>, key: int, value: string)
    requires AllBelow(a, key)
    ensures Put(a + b, key, value) == a + Put(b, key, value)
  {
    if a == [] {
      assert a + b == b && a + Put(b, key, value) == Put(b, key, value);
    } else {
      assert (a + b)[1..] == a[1..] + b;
      PutBehind(a[1..], b, key, value);
    }
  }

  lemma {:induction false} PutBefore(a: seq<Pair>, b: seq<Pair>, key: int, value: string)
    requires AllAbove(b, key)
    ensures Put(a + b, key, value) == Put(a, key, value) + b
  {
    if a == [] {
      assert a + b == b;
    } else {
      assert (a + b)[1..] == a[1..] + b;
      PutBefore(a[1..], b, key, value);
    }
  }

  lemma {:induction false} DropBehind(a: seq<Pair>, b: seq<Pair>, key: int)
    requires AllBelow(a, key)
    ensures Drop(a + b, key) == a + Drop(b, key)
  {
    if a == [] {
      assert a + b == b && a + Drop(b, key) == Drop(b, key);
    } else {
      assert (a + b)[1..] == a[1..] + b;
      DropBehind(a[1..], b, key);
    }
  }

  lemma {:induction false} DropBefore(a: seq<Pair>, b: seq<Pair>, key: int)
    requires AllAbove(b, key)
    ensures Drop(a + b, key) == Drop(a, key) + b
  {
    if a == [] {
      assert a + b == b;
      DropAbsent(b, key);
    } else {
      assert (a + b)[1..] == a[1..] + b;
      DropBefore(a[1..], b, key);
    }
  }

  function Concat(parts: seq<seq<Pair>>): seq<Pair> {
    if parts == [] then [] else parts[0] + Concat(parts[1..])
  }

  lemma {:induction false} ConcatAppend(a: seq<seq<Pair>>, b: seq<seq<Pair>>)
    ensures Concat(a + b) == Concat(a) + Concat(b)
  {
    if a == [] {
      assert a + b == b;
    } else {
      assert (a + b)[1..] == a[1..] + b;
      ConcatAppend(a[1..], b);
    }
  }

  lemma ConcatAround(parts: seq<seq<Pair>>, k: nat, part: seq<Pair>)
    requires k < |parts|
    ensures Concat(parts[k := part]) == Concat(parts[..k]) + part + Concat(parts[k + 1..])
  {
    var changed := parts[k := part];
    assert changed == parts[..k] + ([part] + parts[k + 1..]);
    ConcatAppend(parts[..k], [part] + parts[k + 1..]);
    assert ([part] + parts[k + 1..])[1..] == parts[k + 1..];
  }

  lemma {:induction false} ConcatBelow(parts: seq<seq<Pair>>, key: int)
    requires forall k :: 0 <= k < |parts| ==> AllBelow(parts[k], key)
    ensures AllBelow(Concat(parts), key)
  {
    if parts != [] {
      ConcatBelow(parts[1..], key);
    }
  }

  lemma {:induction false} ConcatAbove(parts: seq<seq<Pair>>, key: int)
    requires forall k :: 0 <= k < |parts| ==> AllAbove(parts[k], key)
    ensures AllAbove(Concat(parts), key)
  {
    if parts != [] {
      ConcatAbove(parts[1..], key);
    }
  }

  /** Parts that follow one another in key order make one sorted sequence. */
  lemma {:induction false} ConcatSorted(parts: seq<seq<Pair>>)
    requires forall k :: 0 <= k < |parts| ==> Sorted(parts[k])
    requires forall k, m, p, q :: 0 <= k < m < |parts| && p in parts[k] && q in parts[m] ==> p.key < q.key
    ensures Sorted(Concat(parts))
  {
    if parts != [] {
      ConcatSorted(parts[1..]);
      var rest := Concat(parts[1..]);
      forall i | 0 <= i < |parts[0]| ensures AllAbove(rest, parts[0][i].key) {
        forall k | 0 <= k < |parts[1..]| ensures AllAbove(parts[1..][k], parts[0][i].key) {
          assert parts[1..][k] == parts[k + 1];
        }
        ConcatAbove(parts[1..], parts[0][i].key);
      }
    }
  }

  /** All three operations act on the part the key belongs to. */
  lemma OperateOnPart(parts: seq<seq<Pair>>, k: nat, key: int, value: string)
    requires k < |parts|
    requires forall i :: 0 <= i < k ==> AllBelow(parts[i], key)
    requires forall i :: k < i < |parts| ==> AllAbove(parts[i], key)
    ensures Find(Concat(parts), key) == Find(parts[k], key)
    ensures Put(Concat(parts), key, value) == Concat(parts[k := Put(parts[k], key, value)])
    ensures Drop(Concat(parts), key) == Concat(parts[k := Drop(parts[k], key)])
  {
    hide Find, Put, Drop, Concat, AllBelow, AllAbove;
    var before, part, after := Concat(parts[..k]), parts[k], Concat(parts[k + 1..]);
    ConcatBelow(parts[..k], key);
    ConcatAbove(parts[k + 1..], key);
    ConcatAround(parts, k, part);
    ConcatAround(parts, k, Put(part, key, value));
    ConcatAround(parts, k, Drop(part, key));
    assert parts[k := part] == parts && before + part + after == before + (part + after);
    FindBehind(before, part + after, key);
    FindBefore(part, after, key);
    PutBehind(before, part + after, key, value);
    PutBefore(part, after, key, value);
    DropBehind(before, part + after, key);
    DropBefore(part, after, key);
  }
}
