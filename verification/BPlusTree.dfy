/**
  The B+ tree of src/index/b_plus_tree.c: binary search, descent, the leaf-chain walks, insertion
  into a leaf with room and deletion inside a leaf.

  Keys are integers under their usual order, which stands for the caller's comparison function. The
  ghost `shape` mirrors the node structure; `Bounds` gives each leaf the key interval that routes to it.
*/
module BPlusTree {
  import opened SortedPairs

  class BNode {
    const isLeaf: bool
    var keyCount: nat
    const keys: array<int>
    const children: array<BNode?>
    const values: array<string>
    var next: BNode?

    /** `b_plus_tree_create_node`. */
    constructor (isLeaf: bool, capacity: nat)
      ensures this.isLeaf == isLeaf && keyCount == 0 && next == null
      ensures keys.Length == capacity && values.Length == capacity && children.Length == capacity + 1
      ensures fresh(keys) && fresh(values) && fresh(children)
    {
      this.isLeaf, keyCount, next := isLeaf, 0, null;
      keys := new int[capacity](_ => 0);
      values := new string[capacity](_ => "");
      children := new BNode?[capacity + 1](_ => null);
    }

    /** The key-value pairs of a leaf. */
    ghost function Pairs(): (s: seq<Pair>)
      reads this, keys, values
      requires keyCount <= keys.Length && keyCount <= values.Length
      ensures |s| == keyCount && forall i :: 0 <= i < keyCount ==> s[i] == Pair(keys[i], values[i])
    {
      seq(keyCount, i requires 0 <= i < keyCount && keyCount <= keys.Length && keyCount <= values.Length
                      reads this, keys, values => Pair(keys[i], values[i]))
    }

    ghost predicate KeysAscend()
      reads this, keys
    {
      keyCount <= keys.Length && forall i, j :: 0 <= i < j < keyCount ==> keys[i] < keys[j]
    }

    /** `b_plus_tree_find_key_index`: the first position whose key is not below `key`. */
    method FindKeyIndex(key: int) returns (index: nat)
      requires KeysAscend()
      ensures index <= keyCount
      ensures forall i :: 0 <= i < index ==> keys[i] < key
      ensures forall i :: index <= i < keyCount ==> key <= keys[i]
    {
      var left, right := 0, keyCount - 1;
      while left <= right
        invariant 0 <= left <= right + 1 <= keyCount
        invariant forall i :: 0 <= i < left ==> keys[i] < key
        invariant forall i :: right < i < keyCount ==> key < keys[i]
      {
        var mid := (left + right) / 2;
        if key == keys[mid] {
          return mid;
        } else if key < keys[mid] {
          right := mid - 1;
        } else {
          left := mid + 1;
        }
      }
      return left;
    }

    /** The lookup inside one leaf. */
    method Search(key: int, ghost b: Interval) returns (r: Lookup)
      requires LeafOk(this, b)
      ensures r == Find(Pairs(), key)
    {
      PairsSorted(this, b);
      var index := FindKeyIndex(key);
      if index < keyCount && keys[index] == key {
        ChangeAtPosition(Pairs(), key, "", index);
        r := Present(values[index]);
      } else {
        PutAtPosition(Pairs(), key, "", index);
        r := Missing;
      }
    }

    /** The inner loop of the range query over one leaf; `done` when a key passed the end. */
    method ScanRange(start: int, end: int, found: seq<Pair>) returns (r: seq<Pair>, done: bool)
      requires keyCount <= keys.Length && keyCount <= values.Length && Sorted(Pairs())
      ensures r == found + InRange(Pairs(), start, end)
      ensures done ==> exists p :: p in Pairs() && p.key > end
    {
      r := found;
      for i := 0 to keyCount
        invariant r + InRange(Pairs()[i..], start, end) == found + InRange(Pairs(), start, end)
      {
        assert Pairs()[i..][1..] == Pairs()[i + 1..] && Pairs()[i] == Pair(keys[i], values[i]);
        if start <= keys[i] && keys[i] <= end {
          r := r + [Pair(keys[i], values[i])];
        } else if keys[i] > end {
          assert Pairs()[i] in Pairs();
          InRangeOutside(Pairs()[i..], start, end);
          return r, true;
        }
      }
      return r, false;
    }

    /** The part of `b_plus_tree_insert` inside the leaf; a full leaf without the key is left alone. */
    method PutHere(key: int, value: string, ghost b: Interval) returns (r: InsertOutcome)
      requires LeafOk(this, b) && Within(b, key)
      modifies this`keyCount, keys, values
      ensures LeafOk(this, b)
      ensures r.Stored? ==> Pairs() == Put(old(Pairs()), key, value)
      ensures r.NeedsSplit? <==> old(keyCount) == keys.Length && Find(old(Pairs()), key) == Missing
      ensures r.NeedsSplit? ==> Pairs() == old(Pairs())
    {
      hide Drop, Find, Put, ToMap, Sorted;
      PairsSorted(this, b);
      var index := FindKeyIndex(key);
      if index < keyCount && keys[index] == key {
        ChangeAtPosition(Pairs(), key, value, index);
        values[index] := value;
        assert Pairs() == old(Pairs())[index := Pair(key, value)];
        return Stored;
      }
      PutAtPosition(Pairs(), key, value, index);
      if keyCount >= keys.Length {
        return NeedsSplit;
      }
      InsertAt(index, key, value);
      PutIsUpdate(old(Pairs()), key, value);
      PairsAscend();
      KeysStayWithin(old(Pairs()), index, Pair(key, value), b);
      return Stored;
    }

    /** The part of `b_plus_tree_delete` inside the leaf. */
    method DropHere(key: int, ghost b: Interval) returns (found: bool)
      requires LeafOk(this, b)
      modifies this`keyCount, keys, values
      ensures LeafOk(this, b)
      ensures Pairs() == Drop(old(Pairs()), key)
      ensures found <==> Find(old(Pairs()), key) != Missing
      ensures !found ==> keyCount == old(keyCount)
    {
      hide Drop, Find, Put, ToMap, Sorted;
      PairsSorted(this, b);
      var index := FindKeyIndex(key);
      if index >= keyCount || keys[index] != key {
        PutAtPosition(Pairs(), key, "", index);
        return false;
      }
      ChangeAtPosition(Pairs(), key, "", index);
      RemoveAt(index);
      DropIsRemoval(old(Pairs()), key);
      DropMembers(old(Pairs()), key);
      PairsAscend();
      KeysRemainWithin(old(Pairs()), b);
      return true;
    }

    lemma KeysRemainWithin(before: seq<Pair>, b: Interval)
      requires keyCount <= keys.Length && keyCount <= values.Length
      requires forall p :: p in Pairs() ==> p in before
      requires forall p :: p in before ==> Within(b, p.key)
      ensures forall i :: 0 <= i < keyCount ==> Within(b, keys[i])
    {
      forall i | 0 <= i < keyCount ensures Within(b, keys[i]) {
        assert Pairs()[i].key == keys[i] && Pairs()[i] in Pairs();
      }
    }

    lemma KeysStayWithin(before: seq<Pair>, index: nat, added: Pair, b: Interval)
      requires keyCount <= keys.Length && keyCount <= values.Length && index <= |before|
      requires Pairs() == before[..index] + [added] + before[index..]
      requires Within(b, added.key) && forall p :: p in before ==> Within(b, p.key)
      ensures forall i :: 0 <= i < keyCount ==> Within(b, keys[i])
    {
      forall i | 0 <= i < keyCount ensures Within(b, keys[i]) {
        assert Pairs()[i].key == keys[i];
      }
    }

    lemma PairsAscend()
      requires keyCount <= keys.Length && keyCount <= values.Length && Sorted(Pairs())
      ensures KeysAscend()
    {
      forall i, j | 0 <= i < j < keyCount ensures keys[i] < keys[j] {
        assert Pairs()[i].key < Pairs()[j].key;
      }
    }

    /** Shifts the upper entries of a leaf with room one place up and writes the pair at `index`. */
    method InsertAt(index: nat, key: int, value: string)
      requires keys.Length == values.Length && index <= keyCount < keys.Length
      modifies this`keyCount, keys, values
      ensures keyCount == old(keyCount) + 1
      ensures Pairs() == old(Pairs())[..index] + [Pair(key, value)] + old(Pairs())[index..]
    {
      ghost var before := Pairs();
      var i := keyCount;
      while i > index
        invariant index <= i <= keyCount == old(keyCount)
        invariant forall k :: 0 <= k < i ==> keys[k] == old(keys[k]) && values[k] == old(values[k])
        invariant forall k :: i < k <= keyCount ==> keys[k] == old(keys[k - 1]) && values[k] == old(values[k - 1])
      {
        keys[i] := keys[i - 1];
        values[i] := values[i - 1];
        i := i - 1;
      }
      keys[index] := key;
      values[index] := value;
      keyCount := keyCount + 1;
      forall k | 0 <= k < keyCount
        ensures Pairs()[k] == if k < index then before[k] else if k == index then Pair(key, value) else before[k - 1]
      {
      }
    }

    /** Shifts the entries above `index` one place down over it. */
    method RemoveAt(index: nat)
      requires keyCount <= keys.Length == values.Length && index < keyCount
      modifies this`keyCount, keys, values
      ensures keyCount == old(keyCount) - 1
      ensures Pairs() == old(Pairs())[..index] + old(Pairs())[index + 1..]
    {
      var i := index;
      while i < keyCount - 1
        invariant index <= i < keyCount == old(keyCount)
        invariant forall k :: 0 <= k < index ==> keys[k] == old(keys[k]) && values[k] == old(values[k])
        invariant forall k :: index <= k < i ==> keys[k] == old(keys[k + 1]) && values[k] == old(values[k + 1])
        invariant forall k :: i <= k < keyCount ==> keys[k] == old(keys[k]) && values[k] == old(values[k])
      {
        keys[i] := keys[i + 1];
        values[i] := values[i + 1];
        i := i + 1;
      }
      keyCount := keyCount - 1;
    }
  }

  // ---------- Structure ----------

  datatype Shape = LeafShape(leaf: BNode) | InnerShape(node: BNode, keys: seq<int>, kids: seq<Shape>)

  /** An end of a key interval; `Open` is unbounded. */
  datatype End = Open | At(key: int)

  datatype Interval = Interval(lo: End, hi: End)

  /** lo < key <= hi: a key equal to a separator lies left of it. */
  predicate Within(b: Interval, key: int) {
    (b.lo.At? ==> b.lo.key < key) && (b.hi.At? ==> key <= b.hi.key)
  }

  function Top(s: Shape): BNode {
    match s
    case LeafShape(leaf) => leaf
    case InnerShape(node, _, _) => node
  }

  /** The interval of child `i` under separators `keys` inside `b`. */
  function Part(keys: seq<int>, b: Interval, i: nat): Interval
    requires i <= |keys|
  {
    Interval(if i == 0 then b.lo else At(keys[i - 1]), if i == |keys| then b.hi else At(keys[i]))
  }

  /** Separators ascend inside the interval, at every level, and there is one more child than keys. */
  ghost predicate Routed(s: Shape, b: Interval)
    decreases s
  {
    match s
    case LeafShape(_) => true
    case InnerShape(_, keys, kids) =>
      && |kids| == |keys| + 1
      && (forall i, j :: 0 <= i < j < |keys| ==> keys[i] < keys[j])
      && (forall i :: 0 <= i < |keys| ==> Within(b, keys[i]))
      && (forall i :: 0 <= i < |kids| ==> Routed(kids[i], Part(keys, b, i)))
  }

  /** The leaves from left to right. */
  ghost function Leaves(s: Shape): seq<BNode>
    decreases s
  {
    match s
    case LeafShape(leaf) => [leaf]
    case InnerShape(_, _, kids) => LeavesOf(kids)
  }

  ghost function LeavesOf(kids: seq<Shape>): seq<BNode>
    decreases kids
  {
    if kids == [] then [] else LeavesOf(kids[..|kids| - 1]) + Leaves(kids[|kids| - 1])
  }

  /** The key interval of each leaf, in the same order. */
  ghost function Bounds(s: Shape, b: Interval): (r: seq<Interval>)
    requires Routed(s, b)
    decreases s, 1, 0
  {
    match s
    case LeafShape(_) => [b]
    case InnerShape(_, _, kids) => BoundsUpTo(s, b, |kids|)
  }

  ghost function BoundsUpTo(s: Shape, b: Interval, n: nat): seq<Interval>
    requires Routed(s, b) && s.InnerShape? && n <= |s.kids|
    decreases s, 0, n
  {
    if n == 0 then [] else BoundsUpTo(s, b, n - 1) + Bounds(s.kids[n - 1], Part(s.keys, b, n - 1))
  }

  lemma {:induction false} BoundsMatchLeaves(s: Shape, b: Interval)
    requires Routed(s, b)
    ensures |Bounds(s, b)| == |Leaves(s)|
    decreases s, 1, 0
  {
    if s.InnerShape? {
      assert s.kids[..|s.kids|] == s.kids;
      BoundsUpToMatch(s, b, |s.kids|);
    }
  }

  lemma {:induction false} BoundsUpToMatch(s: Shape, b: Interval, n: nat)
    requires Routed(s, b) && s.InnerShape? && n <= |s.kids|
    ensures |BoundsUpTo(s, b, n)| == |LeavesOf(s.kids[..n])|
    decreases s, 0, n
  {
    if n > 0 {
      assert s.kids[..n][..n - 1] == s.kids[..n - 1];
      BoundsUpToMatch(s, b, n - 1);
      BoundsMatchLeaves(s.kids[n - 1], Part(s.keys, b, n - 1));
    }
  }

  /** `inner` does not reach past `outer` on either side. */
  ghost predicate Inside(inner: Interval, outer: Interval) {
    && (outer.lo.At? ==> inner.lo.At? && outer.lo.key <= inner.lo.key)
    && (outer.hi.At? ==> inner.hi.At? && inner.hi.key <= outer.hi.key)
  }

  /** Everything in `left` comes before everything in `right`. */
  ghost predicate Before(left: Interval, right: Interval) {
    left.hi.At? && right.lo.At? && left.hi.key <= right.lo.key
  }

  ghost predicate AllInside(rs: seq<Interval>, b: Interval) {
    forall k :: 0 <= k < |rs| ==> Inside(rs[k], b)
  }

  ghost predicate AllBefore(rs: seq<Interval>, b: Interval) {
    forall k :: 0 <= k < |rs| ==> Before(rs[k], b)
  }

  ghost predicate Ascending(rs: seq<Interval>) {
    forall k, m :: 0 <= k < m < |rs| ==> Before(rs[k], rs[m])
  }

  lemma AscendingConcat(left: seq<Interval>, right: seq<Interval>, outer: Interval, part: Interval, next: Interval)
    requires AllInside(left, outer) && AllBefore(left, part) && Ascending(left)
    requires AllInside(right, part) && Ascending(right) && Inside(part, outer)
    ensures AllInside(left + right, outer) && Ascending(left + right)
    ensures part.hi.At? && next.lo == part.hi && (part.lo.At? ==> part.lo.key <= part.hi.key) ==> AllBefore(left + right, next)
  {
    var all := left + right;
    forall k | 0 <= k < |all| ensures Inside(all[k], outer) {
      if k < |left| { assert Inside(left[k], outer); } else { assert Inside(right[k - |left|], part); }
    }
    forall k, m | 0 <= k < m < |all| ensures Before(all[k], all[m]) {
      if m >= |left| { assert Inside(right[m - |left|], part); }
      if k < |left| { assert Before(left[k], part); }
    }
    forall k | 0 <= k < |all| && part.hi.At? && next.lo == part.hi && (part.lo.At? ==> part.lo.key <= part.hi.key)
      ensures Before(all[k], next)
    {
      if k < |left| { assert Before(left[k], part); } else { assert Inside(right[k - |left|], part); }
    }
  }

  /** The leaf intervals lie inside the tree's and follow one another. */
  lemma {:induction false} BoundsAscend(s: Shape, b: Interval)
    requires Routed(s, b)
    ensures AllInside(Bounds(s, b), b) && Ascending(Bounds(s, b))
    decreases s, 1, 0
  {
    if s.InnerShape? {
      BoundsUpToAscend(s, b, |s.kids|);
    }
  }

  lemma {:induction false} BoundsUpToAscend(s: Shape, b: Interval, n: nat)
    requires Routed(s, b) && s.InnerShape? && n <= |s.kids|
    ensures AllInside(BoundsUpTo(s, b, n), b) && Ascending(BoundsUpTo(s, b, n))
    ensures n < |s.kids| ==> AllBefore(BoundsUpTo(s, b, n), Part(s.keys, b, n))
    decreases s, 0, n
  {
    if n > 0 {
      var part := Part(s.keys, b, n - 1);
      BoundsUpToAscend(s, b, n - 1);
      BoundsAscend(s.kids[n - 1], part);
      AscendingConcat(BoundsUpTo(s, b, n - 1), Bounds(s.kids[n - 1], part), b, part,
                      if n < |s.kids| then Part(s.keys, b, n) else part);
    }
  }

  // ---------- Descent ----------

  /** The first position whose key is not below `key`. */
  function Position(keys: seq<int>, key: int): (i: nat)
    ensures i <= |keys| && (forall k :: 0 <= k < i ==> keys[k] < key) && (i < |keys| ==> key <= keys[i])
  {
    if keys == [] then 0
    else
      var i := Position(keys[..|keys| - 1], key);
      if i < |keys| - 1 || key <= keys[|keys| - 1] then i else |keys|
  }

  /** The position in `Leaves(s)` of the leaf a descent for `key` ends in. */
  ghost function Route(s: Shape, b: Interval, key: int): nat
    requires Routed(s, b)
    decreases s
  {
    match s
    case LeafShape(_) => 0
    case InnerShape(_, keys, kids) =>
      var i := Position(keys, key);
      |LeavesOf(kids[..i])| + Route(kids[i], Part(keys, b, i), key)
  }

  /** `part` stands in `whole` from `off` on. */
  ghost predicate PartAt<T>(whole: seq<T>, off: nat, part: seq<T>) {
    off + |part| <= |whole| && forall i :: 0 <= i < |part| ==> part[i] == whole[off + i]
  }

  lemma PartOfPart<T>(whole: seq<T>, off: nat, part: seq<T>, skip: nat, piece: seq<T>)
    requires PartAt(whole, off, part) && PartAt(part, skip, piece)
    ensures PartAt(whole, off + skip, piece)
  {
    forall i | 0 <= i < |piece| ensures piece[i] == whole[off + skip + i] {
      assert piece[i] == part[skip + i];
    }
  }

  lemma {:induction false} LeavesOfAround(kids: seq<Shape>, i: nat)
    requires i < |kids|
    ensures PartAt(LeavesOf(kids), |LeavesOf(kids[..i])|, Leaves(kids[i]))
  {
    var init := kids[..|kids| - 1];
    if i < |kids| - 1 {
      LeavesOfAround(init, i);
      assert init[..i] == kids[..i];
    }
  }

  lemma {:induction false} BoundsAround(s: Shape, b: Interval, i: nat, n: nat)
    requires Routed(s, b) && s.InnerShape? && i < n <= |s.kids|
    ensures PartAt(BoundsUpTo(s, b, n), |BoundsUpTo(s, b, i)|, Bounds(s.kids[i], Part(s.keys, b, i)))
    decreases n
  {
    if i < n - 1 {
      BoundsAround(s, b, i, n - 1);
    }
  }

  /** The descent ends in the leaf whose interval holds the key. */
  lemma {:induction false} RouteHolds(s: Shape, b: Interval, key: int)
    requires Routed(s, b) && Within(b, key)
    ensures Route(s, b, key) < |Leaves(s)| == |Bounds(s, b)|
    ensures Within(Bounds(s, b)[Route(s, b, key)], key)
    decreases s
  {
    hide LeavesOf, BoundsUpTo;
    BoundsMatchLeaves(s, b);
    if s.InnerShape? {
      var i := Position(s.keys, key);
      var part := Part(s.keys, b, i);
      RouteHolds(s.kids[i], part, key);
      LeavesOfAround(s.kids, i);
      BoundsAround(s, b, i, |s.kids|);
      BoundsUpToMatch(s, b, i);
      assert Bounds(s.kids[i], part)[Route(s.kids[i], part, key)] == Bounds(s, b)[Route(s, b, key)];
    }
  }

  const EVERYWHERE := Interval(Open, Open)

  // ---------- The heap ----------

  /** The internal nodes and their arrays. */
  ghost function InnerObjects(s: Shape): set<object>
    decreases s
  {
    match s
    case LeafShape(_) => {}
    case InnerShape(node, _, kids) => {node, node.keys, node.children} + InnerObjectsOf(kids)
  }

  ghost function InnerObjectsOf(kids: seq<Shape>): (r: set<object>)
    ensures forall i :: 0 <= i < |kids| ==> InnerObjects(kids[i]) <= r
    decreases kids
  {
    if kids == [] then {} else InnerObjectsOf(kids[..|kids| - 1]) + InnerObjects(kids[|kids| - 1])
  }

  /** The nodes hold what the shape says. Leaf contents are not looked at. */
  ghost predicate Mirrors(s: Shape)
    reads InnerObjects(s)
    decreases s
  {
    match s
    case LeafShape(leaf) => leaf.isLeaf
    case InnerShape(node, keys, kids) =>
      && !node.isLeaf
      && node.keyCount == |keys| <= node.keys.Length && |kids| == |keys| + 1 <= node.children.Length
      && node.keys[..|keys|] == keys
      && (forall i :: 0 <= i < |kids| ==> node.children[i] == Top(kids[i]) && Mirrors(kids[i]))
  }

  /** The loop of `b_plus_tree_find_leaf`. `objects` names what it reads. */
  method Descend(top: BNode, key: int, ghost shape: Shape, ghost bounds: Interval, ghost objects: set<object>)
    returns (leaf: BNode)
    requires top == Top(shape) && Routed(shape, bounds) && Within(bounds, key)
    requires objects == InnerObjects(shape) && Mirrors(shape)
    ensures Route(shape, bounds, key) < |Leaves(shape)| && leaf == Leaves(shape)[Route(shape, bounds, key)]
  {
    hide Route, Leaves, Position;
    var node := top;
    ghost var s, b, below := shape, bounds, objects;
    ghost var off: nat := 0;
    ghost var leaves := Leaves(shape);
    while !node.isLeaf
      invariant node == Top(s) && Routed(s, b) && below == InnerObjects(s) && Mirrors(s)
      invariant off + Route(s, b, key) == Route(shape, bounds, key)
      invariant PartAt(leaves, off, Leaves(s))
      decreases s
    {
      var index := node.FindKeyIndex(key);
      StepDown(s, b, key, index, leaves, off);
      off := off + |LeavesOf(s.kids[..index])|;
      node := node.children[index];
      b, s := Part(s.keys, b, index), s.kids[index];
      below := InnerObjects(s);
    }
    leaf := node;
    AtLeaf(s, b, key);
    assert Leaves(s)[0] == leaves[off];
  }

  lemma AtLeaf(s: Shape, b: Interval, key: int)
    requires s.LeafShape? && Routed(s, b)
    ensures Leaves(s) == [s.leaf] && Route(s, b, key) == 0
  {
  }

  ghost predicate LeafOk(leaf: BNode, b: Interval)
    reads leaf, leaf.keys
  {
    && leaf.isLeaf && leaf.keys.Length == leaf.values.Length && leaf.KeysAscend()
    && forall i :: 0 <= i < leaf.keyCount ==> Within(b, leaf.keys[i])
  }

  lemma PairsSorted(leaf: BNode, b: Interval)
    requires LeafOk(leaf, b)
    ensures Sorted(leaf.Pairs())
    ensures forall p :: p in leaf.Pairs() ==> Within(b, p.key)
  {
  }

  lemma {:induction false} PutAtPosition(s: seq<Pair>, key: int, value: string, i: nat)
    requires Sorted(s) && i <= |s|
    requires forall k :: 0 <= k < i ==> s[k].key < key
    requires i < |s| ==> key < s[i].key
    ensures Put(s, key, value) == s[..i] + [Pair(key, value)] + s[i..]
    ensures Drop(s, key) == s && Find(s, key) == Missing
  {
    if i > 0 {
      PutAtPosition(s[1..], key, value, i - 1);
      assert s[1..][..i - 1] == s[1..i] && s[1..][i - 1..] == s[i..];
      hide Put, Drop, Find, Sorted;
      assert s == [s[0]] + s[1..] && s[..i] == [s[0]] + s[1..i];
    } else {
      DropAbsent(s, key);
      FindAbsent(s, key);
    }
  }

  lemma {:induction false} ChangeAtPosition(s: seq<Pair>, key: int, value: string, i: nat)
    requires Sorted(s) && i < |s| && s[i].key == key
    ensures Put(s, key, value) == s[i := Pair(key, value)]
    ensures Drop(s, key) == s[..i] + s[i + 1..]
    ensures Find(s, key) == Present(s[i].value)
  {
    if i > 0 {
      ChangeAtPosition(s[1..], key, value, i - 1);
      assert s[0].key < key;
      assert Put(s, key, value) == [s[0]] + Put(s[1..], key, value) && Drop(s, key) == [s[0]] + Drop(s[1..], key);
      assert Find(s, key) == Find(s[1..], key);
      hide Put, Drop, Find, Sorted;
      assert [s[0]] + s[1..][i - 1 := Pair(key, value)] == s[i := Pair(key, value)];
      assert [s[0]] + (s[1..][..i - 1] + s[1..][i..]) == s[..i] + s[i + 1..];
    } else {
      assert [Pair(key, value)] + s[1..] == s[0 := Pair(key, value)];
    }
  }

  datatype InsertOutcome = Stored | NeedsSplit

  datatype DeleteOutcome = Absent | Removed | LeafEmptied

  ghost function ArraysOf(leaves: seq<BNode>): set<object> {
    (set l | l in leaves :: l.keys as object) + (set l | l in leaves :: l.values as object)
  }

  class BTree {
    var root: BNode
    var firstLeaf: BNode
    ghost var shape: Shape
    ghost var inner: set<object>   // the internal nodes and their arrays
    ghost var leaves: seq<BNode>   // left to right
    ghost var arrays: set<object>  // the leaves' arrays

    ghost predicate Structure()
      reads this, inner
    {
      && inner == InnerObjects(shape) && leaves == Leaves(shape) && arrays == ArraysOf(leaves)
      && root == Top(shape) && Routed(shape, EVERYWHERE) && Mirrors(shape)
    }

    /** No two leaves share anything, nor with an internal node. */
    ghost predicate Apart()
      reads this
    {
      && (forall i, j :: 0 <= i < j < |leaves| ==>
            leaves[i] != leaves[j] && leaves[i].keys != leaves[j].keys && leaves[i].values != leaves[j].values)
      && (forall i :: 0 <= i < |leaves| ==>
            leaves[i] !in inner && leaves[i].keys !in inner && leaves[i].values !in inner)
    }

    ghost predicate Chained()
      reads this, leaves`next
    {
      && leaves != [] && firstLeaf == leaves[0]
      && forall i :: 0 <= i < |leaves| ==> leaves[i].next == if i + 1 < |leaves| then leaves[i + 1] else null
    }

    ghost predicate LeavesOk()
      reads this, leaves, arrays
    {
      && arrays == ArraysOf(leaves) && Routed(shape, EVERYWHERE) && |leaves| == |Bounds(shape, EVERYWHERE)|
      && forall k :: 0 <= k < |leaves| ==> LeafOk(leaves[k], Bounds(shape, EVERYWHERE)[k])
    }

    ghost predicate Valid()
      reads this, inner, leaves, arrays
      ensures Valid() ==> Routed(shape, EVERYWHERE) && leaves == Leaves(shape) && |leaves| == |Bounds(shape, EVERYWHERE)|
      ensures Valid() ==> LeavesOk() && leaves != []
    {
      Structure() && Apart() && Chained() && LeavesOk()
    }

    /** What each leaf holds, left to right. */
    ghost function Parts(): (parts: seq<seq<Pair>>)
      reads this, leaves, arrays
      requires LeavesOk()
      ensures |parts| == |leaves| && forall k :: 0 <= k < |leaves| ==> parts[k] == leaves[k].Pairs()
    {
      seq(|leaves|, k requires 0 <= k < |leaves| && LeavesOk() reads this, leaves, arrays => leaves[k].Pairs())
    }

    /** All bindings of the tree. */
    ghost function Contents(): seq<Pair>
      reads this, leaves, arrays
      requires LeavesOk()
    {
      Concat(Parts())
    }

    /** `b_plus_tree_create`: one empty leaf. */
    constructor (capacity: nat)
      ensures Valid() && Contents() == [] && fresh(leaves) && fresh(arrays) && inner == {}
    {
      var leaf := new BNode(true, capacity);
      root, firstLeaf := leaf, leaf;
      shape, inner, leaves, arrays := LeafShape(leaf), {}, [leaf], ArraysOf([leaf]);
      new;
      assert Parts() == [leaf.Pairs()] && leaf.Pairs() == [];
      assert Concat([leaf.Pairs()]) == leaf.Pairs() + Concat([leaf.Pairs()][1..]);
    }

    /** A root with two leaves below it. */
    constructor Above(top: BNode, separator: int, a: BNode, b: BNode)
      ensures root == top && firstLeaf == a && shape == TwoLeafShape(top, separator, a, b)
      ensures inner == {top, top.keys, top.children} && leaves == [a, b] && arrays == ArraysOf([a, b])
    {
      root, firstLeaf, shape := top, a, TwoLeafShape(top, separator, a, b);
      inner, leaves, arrays := {top, top.keys, top.children}, [a, b], ArraysOf([a, b]);
    }

    /** `b_plus_tree_find_leaf`: binary search at each internal node, down to a leaf. */
    method FindLeaf(key: int) returns (leaf: BNode)
      requires Valid()
      ensures Valid() && Parts() == old(Parts())
      ensures Route(shape, EVERYWHERE, key) < |leaves| && leaf == leaves[Route(shape, EVERYWHERE, key)]
    {
      RouteHolds(shape, EVERYWHERE, key);
      hide Route, Bounds, LeafOk, Concat;
      leaf := Descend(root, key, shape, EVERYWHERE, inner);
    }

    /** What the other leaves hold lies on either side of a key. */
    lemma KeysAround(key: int)
      requires Valid()
      ensures var k := Route(shape, EVERYWHERE, key);
              && k < |Parts()| && Within(Bounds(shape, EVERYWHERE)[k], key)
              && (forall i :: 0 <= i < k ==> AllBelow(Parts()[i], key))
              && (forall i :: k < i < |Parts()| ==> AllAbove(Parts()[i], key))
    {
      var k, bounds := Route(shape, EVERYWHERE, key), Bounds(shape, EVERYWHERE);
      RouteHolds(shape, EVERYWHERE, key);
      BoundsAscend(shape, EVERYWHERE);
      forall i | 0 <= i < k ensures AllBelow(Parts()[i], key) {
        PairsSorted(leaves[i], bounds[i]);
        assert Before(bounds[i], bounds[k]);
      }
      forall i | k < i < |Parts()| ensures AllAbove(Parts()[i], key) {
        PairsSorted(leaves[i], bounds[i]);
        assert Before(bounds[k], bounds[i]);
      }
    }

    lemma ContentsSorted()
      requires Valid()
      ensures Sorted(Contents())
    {
      var bounds, parts := Bounds(shape, EVERYWHERE), Parts();
      BoundsAscend(shape, EVERYWHERE);
      forall k | 0 <= k < |parts| ensures Sorted(parts[k]) && forall p: Pair :: p in parts[k] ==> Within(bounds[k], p.key) {
        PairsSorted(leaves[k], bounds[k]);
      }
      forall k, m, p: Pair, q: Pair | 0 <= k < m < |parts| && p in parts[k] && q in parts[m] ensures p.key < q.key {
        assert Before(bounds[k], bounds[m]);
      }
      ConcatSorted(parts);
    }

    /** Looking up, putting and dropping a key are done in the leaf the descent finds. */
    lemma OperateOnLeaf(key: int, value: string)
      requires Valid()
      ensures var k := Route(shape, EVERYWHERE, key);
              && k < |leaves| && LeafOk(leaves[k], Bounds(shape, EVERYWHERE)[k]) && Within(Bounds(shape, EVERYWHERE)[k], key)
              && leaves[k].keyCount <= leaves[k].keys.Length == leaves[k].values.Length
              && leaves[k].keys in arrays && leaves[k].values in arrays
              && Find(Contents(), key) == Find(leaves[k].Pairs(), key)
              && Put(Contents(), key, value) == Concat(Parts()[k := Put(leaves[k].Pairs(), key, value)])
              && Drop(Contents(), key) == Concat(Parts()[k := Drop(leaves[k].Pairs(), key)])
    {
      KeysAround(key);
      hide Find, Put, Drop, Concat, AllBelow, AllAbove, Route, Bounds;
      OperateOnPart(Parts(), Route(shape, EVERYWHERE, key), key, value);
    }

    /** `b_plus_tree_find`. */
    method FindValue(key: int) returns (r: Lookup)
      requires Valid()
      ensures LeavesOk() && r == Find(Contents(), key)
    {
      hide Valid, LeavesOk, Find, Put, Drop, Concat, Route, Bounds, Routed, LeafOk;
      var leaf := FindLeaf(key);
      OperateOnLeaf(key, "");
      r := leaf.Search(key, Bounds(shape, EVERYWHERE)[Route(shape, EVERYWHERE, key)]);
    }

    /** `b_plus_tree_key_count`: the walk along the leaf chain. */
    method KeyCount() returns (count: nat)
      requires Valid()
      ensures LeavesOk() && count == |Contents()|
    {
      assert leaves != [] && firstLeaf == leaves[0];
      hide Valid, LeavesOk, Bounds, Routed, Concat;
      count := 0;
      var leaf: BNode? := firstLeaf;
      ghost var k: nat := 0;
      while leaf != null
        invariant k <= |leaves| && leaf == (if k < |leaves| then leaves[k] else null)
        invariant count == |Concat(Parts()[..k])|
        decreases |leaves| - k
      {
        ConcatNext(Parts(), k);
        NextInChain(k);
        count := count + leaf.keyCount;
        leaf := leaf.next;
        k := k + 1;
      }
      assert Parts()[..k] == Parts();
    }

    lemma NextInChain(k: nat)
      requires Valid() && k < |leaves|
      ensures leaves[k].next == if k + 1 < |leaves| then leaves[k + 1] else null
      ensures leaves[k].keyCount <= leaves[k].keys.Length && leaves[k].keyCount <= leaves[k].values.Length
      ensures Sorted(leaves[k].Pairs())
    {
      PairsSorted(leaves[k], Bounds(shape, EVERYWHERE)[k]);
    }

    /** `b_plus_tree_range_query`: from the leaf of the start key along the chain until a key passes the end. */
    method RangeQuery(start: int, end: int) returns (r: seq<Pair>)
      requires Valid()
      ensures LeavesOk() && r == InRange(Contents(), start, end)
    {
      hide Valid, LeavesOk, Route, Bounds, Routed, InRange, Concat, Sorted;
      var leaf := FindLeaf(start);
      KeysAround(start);
      NothingBefore(Parts(), Route(shape, EVERYWHERE, start), start, end);
      r := WalkRange(leaf, start, end, Route(shape, EVERYWHERE, start));
    }

    /** The walk along the chain from leaf `at` on. */
    method WalkRange(from: BNode, start: int, end: int, ghost at: nat) returns (r: seq<Pair>)
      requires Valid() && at < |leaves| && from == leaves[at] && InRange(Concat(Parts()[..at]), start, end) == []
      ensures LeavesOk() && r == InRange(Contents(), start, end)
    {
      hide Valid, LeavesOk, Route, Bounds, Routed, InRange, Concat, Sorted;
      var leaf: BNode? := from;
      ghost var k, parts := at, Parts();
      r := [];
      ContentsSorted();
      while leaf != null
        invariant Valid() && parts == Parts()
        invariant k <= |leaves| && leaf == (if k < |leaves| then leaves[k] else null)
        invariant r == InRange(Concat(parts[..k]), start, end)
        decreases |leaves| - k
      {
        NextInChain(k);
        var done;
        r, done := leaf.ScanRange(start, end, r);
        NextPart(parts, k, start, end);
        if done {
          RestIsPast(parts, k, start, end);
          return;
        }
        leaf := leaf.next;
        k := k + 1;
      }
      assert parts[..k] == parts;
    }

    /** Nothing but leaf `k` and its arrays has changed. */
    twostate predicate OnlyLeaf(k: nat)
      reads this, inner, leaves, arrays
      requires old(Valid()) && k < |leaves|
    {
      && root == old(root) && firstLeaf == old(firstLeaf) && shape == old(shape)
      && inner == old(inner) && leaves == old(leaves) && arrays == old(arrays)
      && unchanged(inner)
      && leaves[k].next == old(leaves[k].next)
      && (forall i :: 0 <= i < |leaves| && i != k ==>
            unchanged(leaves[i]) && unchanged(leaves[i].keys) && unchanged(leaves[i].values))
    }

    twostate lemma LeavesStayOk(k: nat)
      requires old(Valid()) && k < |leaves| && OnlyLeaf(k)
      requires Routed(shape, EVERYWHERE) && LeafOk(leaves[k], Bounds(shape, EVERYWHERE)[k])
      ensures LeavesOk() && Parts() == old(Parts())[k := leaves[k].Pairs()]
    {
      hide Structure, Apart, Chained, Bounds, Routed;
      forall i | 0 <= i < |leaves| && i != k
        ensures LeafOk(leaves[i], Bounds(shape, EVERYWHERE)[i]) && leaves[i].Pairs() == old(Parts())[i]
      {
        assert old(LeafOk(leaves[i], Bounds(shape, EVERYWHERE)[i]));
      }
    }

    twostate lemma TreeStaysValid(k: nat)
      requires old(Valid()) && k < |leaves| && OnlyLeaf(k)
      requires LeafOk(leaves[k], Bounds(shape, EVERYWHERE)[k]) && Chained()
      ensures Valid() && Parts() == old(Parts())[k := leaves[k].Pairs()]
    {
      LeavesStayOk(k);
      hide LeafOk, Bounds, LeavesOk;
      assert old(Structure()) && old(Apart());
    }

    /** The leaf a descent for `key` ends in. */
    ghost function LeafFor(key: int): (leaf: BNode)
      reads this, inner, leaves, arrays
      requires Valid()
      ensures leaf in leaves
    {
      RouteHolds(shape, EVERYWHERE, key);
      leaves[Route(shape, EVERYWHERE, key)]
    }

    /** `b_plus_tree_insert`, up to the point where a full leaf would be split. */
    method InsertPair(key: int, value: string) returns (r: InsertOutcome)
      requires Valid()
      modifies leaves, arrays
      ensures Valid()
      ensures r.Stored? ==> Contents() == Put(old(Contents()), key, value)
      ensures r.NeedsSplit? ==> Contents() == old(Contents())
      ensures r.NeedsSplit? <==> old(LeafFor(key).keyCount == LeafFor(key).keys.Length) && Find(old(Contents()), key) == Missing
    {
      hide Valid, LeavesOk, Find, Put, Drop, Concat, Route, Bounds, Routed, LeafOk;
      ghost var k := Route(shape, EVERYWHERE, key);
      var leaf := FindLeaf(key);
      OperateOnLeaf(key, value);
      r := PutInLeaf(leaf, key, value, k);
      if r.NeedsSplit? {
        assert old(Parts())[k] == leaf.Pairs();
        assert Parts() == old(Parts());
      }
    }

    method PutInLeaf(leaf: BNode, key: int, value: string, ghost k: nat) returns (r: InsertOutcome)
      requires Valid() && k < |leaves| && leaf == leaves[k] && Within(Bounds(shape, EVERYWHERE)[k], key)
      modifies leaf`keyCount, leaf.keys, leaf.values
      ensures Valid() && leaf.keyCount <= leaf.keys.Length == leaf.values.Length
      ensures Parts() == old(Parts())[k := leaf.Pairs()]
      ensures r.Stored? ==> leaf.Pairs() == Put(old(leaf.Pairs()), key, value)
      ensures r.NeedsSplit? ==> leaf.Pairs() == old(leaf.Pairs())
      ensures r.NeedsSplit? <==> old(leaf.keyCount) == leaf.keys.Length && Find(old(leaf.Pairs()), key) == Missing
    {
      assert LeafOk(leaf, Bounds(shape, EVERYWHERE)[k]);
      r := leaf.PutHere(key, value, Bounds(shape, EVERYWHERE)[k]);
      TreeStaysValid(k);
    }

    method DropFromLeaf(leaf: BNode, key: int, ghost k: nat) returns (found: bool)
      requires Valid() && k < |leaves| && leaf == leaves[k]
      modifies leaf`keyCount, leaf.keys, leaf.values
      ensures Valid() && leaf.keyCount <= leaf.keys.Length == leaf.values.Length
      ensures Parts() == old(Parts())[k := leaf.Pairs()]
      ensures leaf.Pairs() == Drop(old(leaf.Pairs()), key)
      ensures found <==> Find(old(leaf.Pairs()), key) != Missing
    {
      assert LeafOk(leaf, Bounds(shape, EVERYWHERE)[k]);
      found := leaf.DropHere(key, Bounds(shape, EVERYWHERE)[k]);
      TreeStaysValid(k);
    }

    /** `b_plus_tree_delete`, up to the point where an emptied leaf would borrow from or merge with a sibling. */
    method DeleteKey(key: int) returns (r: DeleteOutcome)
      requires Valid()
      modifies leaves, arrays
      ensures Valid()
      ensures Contents() == Drop(old(Contents()), key)
      ensures r == Absent <==> Find(old(Contents()), key) == Missing
      ensures r == LeafEmptied <==> Find(old(Contents()), key) != Missing && LeafFor(key).keyCount == 0
    {
      hide Valid, LeavesOk, Find, Put, Drop, Concat, Route, Bounds, Routed, LeafOk;
      ghost var k := Route(shape, EVERYWHERE, key);
      var leaf := FindLeaf(key);
      OperateOnLeaf(key, "");
      var found := DropFromLeaf(leaf, key, k);
      r := if !found then Absent else if leaf.keyCount > 0 then Removed else LeafEmptied;
    }
  }

  /** A leaf holding one binding. */
  method OneLeaf(capacity: nat, pair: Pair) returns (leaf: BNode)
    requires capacity > 0
    ensures fresh(leaf) && fresh(leaf.keys) && fresh(leaf.values) && leaf.next == null
    ensures leaf.isLeaf && leaf.keyCount == 1 && leaf.keys.Length == leaf.values.Length == capacity
    ensures leaf.Pairs() == [pair]
  {
    leaf := new BNode(true, capacity);
    leaf.keys[0], leaf.values[0], leaf.keyCount := pair.key, pair.value, 1;
  }

  method RootAbove(capacity: nat, separator: int, a: BNode, b: BNode) returns (top: BNode)
    requires capacity > 0 && a.isLeaf && b.isLeaf
    ensures fresh(top) && fresh(top.keys) && fresh(top.children) && Mirrors(TwoLeafShape(top, separator, a, b))
  {
    top := new BNode(false, capacity);
    top.keys[0], top.children[0], top.children[1], top.keyCount := separator, a, b, 1;
    TwoLeafMirrors(top, separator, a, b);
  }

  function TwoLeafShape(top: BNode, separator: int, a: BNode, b: BNode): Shape {
    InnerShape(top, [separator], [LeafShape(a), LeafShape(b)])
  }

  lemma TwoLeafShapeIs(top: BNode, separator: int, a: BNode, b: BNode)
    ensures var s := TwoLeafShape(top, separator, a, b);
            && Routed(s, EVERYWHERE) && Leaves(s) == [a, b] && Top(s) == top
            && InnerObjects(s) == {top, top.keys, top.children}
            && Bounds(s, EVERYWHERE) == [Interval(Open, At(separator)), Interval(At(separator), Open)]
  {
    var kids := [LeafShape(a), LeafShape(b)];
    var s := InnerShape(top, [separator], kids);
    TwoLeafKids(kids, a, b);
    assert Routed(s, EVERYWHERE);
    assert BoundsUpTo(s, EVERYWHERE, 1) == [Interval(Open, At(separator))];
    assert BoundsUpTo(s, EVERYWHERE, 2) == BoundsUpTo(s, EVERYWHERE, 1) + Bounds(kids[1], Part(s.keys, EVERYWHERE, 1));
  }

  lemma TwoLeafKids(kids: seq<Shape>, a: BNode, b: BNode)
    requires kids == [LeafShape(a), LeafShape(b)]
    ensures LeavesOf(kids) == [a, b] && InnerObjectsOf(kids) == {}
  {
    var one := kids[..1];
    assert one == [LeafShape(a)] && one[..|one| - 1] == [] && kids[..|kids| - 1] == one;
    assert LeavesOf(one) == LeavesOf(one[..|one| - 1]) + Leaves(one[0]);
    assert LeavesOf(kids) == LeavesOf(one) + Leaves(kids[1]);
    assert InnerObjectsOf(one) == InnerObjectsOf(one[..|one| - 1]) + InnerObjects(one[0]);
    assert InnerObjectsOf(kids) == InnerObjectsOf(one) + InnerObjects(kids[1]);
  }

  lemma TwoLeafMirrors(top: BNode, separator: int, a: BNode, b: BNode)
    requires !top.isLeaf && top.keyCount == 1 <= top.keys.Length && 2 <= top.children.Length && a.isLeaf && b.isLeaf
    requires top.keys[0] == separator && top.children[0] == a && top.children[1] == b
    ensures Mirrors(TwoLeafShape(top, separator, a, b))
  {
    assert top.keys[..1] == [separator];
    assert Mirrors(LeafShape(a)) && Mirrors(LeafShape(b));
  }

  lemma TwoLeavesValid(tree: BTree, top: BNode, a: BNode, b: BNode, left: Pair, right: Pair)
    requires tree.root == top && tree.firstLeaf == a && tree.shape == TwoLeafShape(top, left.key, a, b)
    requires tree.inner == {top, top.keys, top.children} && tree.leaves == [a, b] && tree.arrays == ArraysOf([a, b])
    requires Mirrors(tree.shape) && a.next == b && b.next == null && left.key < right.key
    requires a != b && a !in tree.inner && b !in tree.inner && a.keys != b.keys && a.values != b.values
    requires a.keys !in tree.inner && a.values !in tree.inner && b.keys !in tree.inner && b.values !in tree.inner
    requires a.isLeaf && b.isLeaf && a.keyCount == b.keyCount == 1
    requires a.keys.Length == a.values.Length > 0 && b.keys.Length == b.values.Length > 0
    requires a.Pairs() == [left] && b.Pairs() == [right]
    ensures tree.Valid() && tree.Contents() == [left, right]
  {
    hide Routed, Leaves, InnerObjects, Bounds, Mirrors, TwoLeafShape, Concat, ArraysOf;
    TwoLeafShapeIs(top, left.key, a, b);
    assert a.Pairs()[0] == left && b.Pairs()[0] == right;
    assert tree.LeavesOk();
    assert tree.Parts() == [[left], [right]];
    TwoParts(left, right);
  }

  /** Two leaves under a root that separates them at the left key: the smallest tree with an internal node. */
  method TwoLeafTree(capacity: nat, left: Pair, right: Pair) returns (tree: BTree)
    requires capacity > 0 && left.key < right.key
    ensures tree.Valid() && tree.shape.InnerShape? && |tree.leaves| == 2 && tree.Contents() == [left, right]
  {
    hide Routed, Leaves, InnerObjects, Bounds, Mirrors, TwoLeafShape, Concat, ArraysOf, BTree.Valid, BTree.LeavesOk;
    var a := OneLeaf(capacity, left);
    var b := OneLeaf(capacity, right);
    a.next := b;
    var top := RootAbove(capacity, left.key, a, b);
    TwoLeafShapeIs(top, left.key, a, b);
    tree := new BTree.Above(top, left.key, a, b);
    IsInner(top, left.key, a, b);
    TwoLeavesValid(tree, top, a, b, left, right);
  }

  lemma TwoParts(left: Pair, right: Pair)
    ensures Concat([[left], [right]]) == [left, right]
  {
    ConcatNext([[left], [right]], 0);
    ConcatNext([[left], [right]], 1);
    assert [[left], [right]][..2] == [[left], [right]] && [[left], [right]][..0] == [];
  }

  lemma IsInner(top: BNode, separator: int, a: BNode, b: BNode)
    ensures TwoLeafShape(top, separator, a, b).InnerShape?
  {
  }

  lemma NothingBefore(parts: seq<seq<Pair>>, k: nat, start: int, end: int)
    requires k <= |parts| && forall i :: 0 <= i < k ==> AllBelow(parts[i], start)
    ensures InRange(Concat(parts[..k]), start, end) == []
  {
    ConcatBelow(parts[..k], start);
    InRangeOutside(Concat(parts[..k]), start, end);
  }

  lemma ConcatNext(parts: seq<seq<Pair>>, k: nat)
    requires k < |parts|
    ensures Concat(parts[..k + 1]) == Concat(parts[..k]) + parts[k]
  {
    assert parts[..k + 1] == parts[..k] + [parts[k]];
    ConcatAppend(parts[..k], [parts[k]]);
    assert Concat([parts[k]]) == parts[k] + Concat([parts[k]][1..]);
  }

  lemma NextPart(parts: seq<seq<Pair>>, k: nat, start: int, end: int)
    requires k < |parts|
    ensures InRange(Concat(parts[..k + 1]), start, end)
         == InRange(Concat(parts[..k]), start, end) + InRange(parts[k], start, end)
  {
    ConcatNext(parts, k);
    InRangeConcat(Concat(parts[..k]), parts[k], start, end);
  }

  /** Once a key passes the end, so do all later ones. */
  lemma RestIsPast(parts: seq<seq<Pair>>, k: nat, start: int, end: int)
    requires k < |parts| && Sorted(Concat(parts)) && exists p :: p in parts[k] && p.key > end
    ensures InRange(Concat(parts), start, end) == InRange(Concat(parts[..k + 1]), start, end)
  {
    var before, rest := Concat(parts[..k + 1]), Concat(parts[k + 1..]);
    assert parts == parts[..k + 1] + parts[k + 1..];
    ConcatAppend(parts[..k + 1], parts[k + 1..]);
    ConcatNext(parts, k);
    var p :| p in parts[k] && p.key > end;
    var i :| 0 <= i < |parts[k]| && parts[k][i] == p;
    var at := |Concat(parts[..k])| + i;
    assert before[at] == p && (before + rest)[at] == p;
    forall j | 0 <= j < |rest| ensures rest[j].key > end {
      assert (before + rest)[|before| + j] == rest[j];
    }
    InRangeConcat(before, rest, start, end);
    InRangeOutside(rest, start, end);
  }

  /** One step of the descent: the leaves below the chosen child, and where they lie. */
  lemma StepDown(s: Shape, b: Interval, key: int, index: nat, leaves: seq<BNode>, off: nat)
    requires s.InnerShape? && Routed(s, b) && index <= |s.keys|
    requires forall i :: 0 <= i < index ==> s.keys[i] < key
    requires forall i :: index <= i < |s.keys| ==> key <= s.keys[i]
    requires PartAt(leaves, off, Leaves(s))
    ensures var skip, kid := |LeavesOf(s.kids[..index])|, s.kids[index];
            && Route(s, b, key) == skip + Route(kid, Part(s.keys, b, index), key)
            && PartAt(leaves, off + skip, Leaves(kid))
  {
    PositionUnique(s.keys, key, index);
    LeavesOfAround(s.kids, index);
    PartOfPart(leaves, off, Leaves(s), |LeavesOf(s.kids[..index])|, Leaves(s.kids[index]));
  }

  lemma PositionUnique(keys: seq<int>, key: int, i: nat)
    requires i <= |keys| && forall k :: 0 <= k < i ==> keys[k] < key
    requires forall k :: i <= k < |keys| ==> key <= keys[k]
    ensures i == Position(keys, key)
  {
  }
}
