/**
  The chained hash index of src/index/hash_index.c: an array of buckets, each the head of a singly
  linked chain. The ghost fields `chains` and `nodes` say which node is where, and `contents` is the
  map from keys to values that the index stands for.
*/
module HashIndex {
  import LsmSpec

  type Bytes = LsmSpec.Bytes

  const UINT32_LIMIT: nat := LsmSpec.UINT32_LIMIT

  /** The hash of the first `n` bytes: times 33 plus the byte as a signed character, in 32 bits. */
  function Hash(key: Bytes, n: nat): nat
    requires n <= |key|
  {
    if n == 0 then 5381
    else
      var c := key[n - 1];
      (Hash(key, n - 1) * 33 + if c < 0x80 then c as int else UINT32_LIMIT - 0x100 + c) % UINT32_LIMIT
  }

  /** `hash_function`. */
  function BucketOf(key: Bytes, bucketCount: nat): (b: nat)
    requires bucketCount > 0
    ensures b < bucketCount
  {
    Hash(key, |key|) % bucketCount
  }

  /** The hash of five bytes, one of which is negative as a signed character; the bucket is its remainder. */
  lemma HashInNumbers(bucketCount: nat)
    requires bucketCount > 0
    ensures BucketOf([97, 98, 99, 100, 229], bucketCount) == 252819476 % bucketCount
  {
    var key: Bytes := [97, 98, 99, 100, 229];
    assert Hash(key, 1) == 177670;
    assert Hash(key, 2) == 5863208;
    assert Hash(key, 3) == 193485963;
    assert Hash(key, 4) == 2090069583;
    assert Hash(key, 5) == 252819476;
  }

  class HashNode {
    const key: Bytes
    var value: Bytes
    var next: HashNode?

    constructor (key: Bytes, value: Bytes)
      ensures this.key == key && this.value == value && next == null
    {
      this.key, this.value, next := key, value, null;
    }
  }

  type Chains = seq<seq<HashNode>>

  function At(chain: seq<HashNode>, i: int): HashNode? {
    if 0 <= i < |chain| then chain[i] else null
  }

  /** The chains hold exactly the nodes of the map, each once, in the bucket its key hashes to. */
  ghost predicate Placed(chains: Chains, nodes: map<Bytes, HashNode>)
    ensures Placed(chains, nodes) ==> |chains| > 0
  {
    && |chains| > 0
    && (forall key <- nodes :: nodes[key].key == key && nodes[key] in chains[BucketOf(key, |chains|)])
    && (forall b, i {:trigger chains[b][i]} :: 0 <= b < |chains| && 0 <= i < |chains[b]| ==>
          && chains[b][i].key in nodes && nodes[chains[b][i].key] == chains[b][i]
          && BucketOf(chains[b][i].key, |chains|) == b)
    && (forall b, i, j :: 0 <= b < |chains| && 0 <= i < j < |chains[b]| ==> chains[b][i] != chains[b][j])
  }

  /** The node is at position `i` of the chain of its bucket. */
  ghost predicate Located(chains: Chains, node: HashNode, i: nat) {
    |chains| > 0 && var chain := chains[BucketOf(node.key, |chains|)]; i < |chain| && chain[i] == node
  }

  lemma Apart(chains: Chains, nodes: map<Bytes, HashNode>, b: nat, i: nat)
    requires Placed(chains, nodes) && b < |chains| && i < |chains[b]|
    ensures forall c, j {:trigger chains[c][j]} :: 0 <= c < |chains| && 0 <= j < |chains[c]| && !(c == b && j == i) ==>
      chains[c][j] != chains[b][i]
    ensures chains[b][i].key in nodes && nodes[chains[b][i].key] == chains[b][i]
    ensures forall key <- nodes :: nodes[key].key == key
  {
    hide BucketOf;
  }

  lemma PlaceKeeps(chains: Chains, nodes: map<Bytes, HashNode>, x: HashNode)
    requires Placed(chains, nodes) && x.key !in nodes
    ensures var b := BucketOf(x.key, |chains|);
            Placed(chains[b := [x] + chains[b]], nodes[x.key := x])
    ensures forall c, j {:trigger chains[c][j]} :: 0 <= c < |chains| && 0 <= j < |chains[c]| ==> chains[c][j] != x
  {
    hide BucketOf;
    var b := BucketOf(x.key, |chains|);
    var chains' := chains[b := [x] + chains[b]];
    assert chains'[b][0] == x;
    forall key <- nodes
      ensures nodes[key] in chains'[BucketOf(key, |chains|)]
    {
      var g := BucketOf(key, |chains|);
      var i :| 0 <= i < |chains[g]| && chains[g][i] == nodes[key];
      if g == b {
        assert chains'[b][i + 1] == nodes[key];
      }
    }
  }

  lemma RemoveKeeps(chains: Chains, nodes: map<Bytes, HashNode>, b: nat, i: nat)
    requires Placed(chains, nodes) && b < |chains| && i < |chains[b]|
    ensures Placed(chains[b := chains[b][..i] + chains[b][i + 1..]], nodes - {chains[b][i].key})
  {
    hide BucketOf;
    var rest := chains[b][..i] + chains[b][i + 1..];
    var nodes' := nodes - {chains[b][i].key};
    forall key <- nodes'
      ensures nodes[key] in chains[b := rest][BucketOf(key, |chains|)]
    {
      var g := BucketOf(key, |chains|);
      var j :| 0 <= j < |chains[g]| && chains[g][j] == nodes[key];
      if g == b {
        assert rest[if j < i then j else j - 1] == nodes[key];
      }
    }
    Apart(chains, nodes, b, i);
  }

  /** Every bucket points to the head of its chain, and the pointers run through it. */
  ghost predicate Linked(table: array<HashNode?>, chains: Chains, repr: set<HashNode>)
    reads table, repr`next
  {
    && |chains| == table.Length
    && (forall b, i {:trigger chains[b][i]} :: 0 <= b < |chains| && 0 <= i < |chains[b]| ==> chains[b][i] in repr)
    && (forall b {:trigger table[b]} :: 0 <= b < |chains| ==> table[b] == At(chains[b], 0))
    && (forall b, i {:trigger chains[b][i].next} :: 0 <= b < |chains| && 0 <= i < |chains[b]| ==>
          chains[b][i].next == At(chains[b], i + 1))
  }

  /** The nodes carry the values of the map. */
  ghost predicate Shows(nodes: map<Bytes, HashNode>, contents: map<Bytes, Bytes>, repr: set<HashNode>)
    reads repr`value
  {
    && (forall key :: key in nodes <==> key in contents)
    && (forall key <- nodes :: nodes[key] in repr && nodes[key].value == contents[key])
  }

  lemma ShowsMore(nodes: map<Bytes, HashNode>, contents: map<Bytes, Bytes>, repr: set<HashNode>, node: HashNode)
    requires Shows(nodes, contents, repr)
    ensures Shows(nodes[node.key := node], contents[node.key := node.value], repr + {node})
    ensures node.key !in contents ==> node.key !in nodes && |contents[node.key := node.value]| == |contents| + 1
  {
    assert contents[node.key := node.value].Keys == contents.Keys + {node.key};
    assert node.key !in contents ==> |contents[node.key := node.value].Keys| == |contents.Keys| + 1;
  }

  lemma ShowsLess(nodes: map<Bytes, HashNode>, contents: map<Bytes, Bytes>, repr: set<HashNode>, key: Bytes)
    requires Shows(nodes, contents, repr) && key in nodes
    ensures Shows(nodes - {key}, contents - {key}, repr) && |contents - {key}| == |contents| - 1
  {
    assert (contents - {key}).Keys == contents.Keys - {key};
    assert |(contents - {key}).Keys| == |contents.Keys| - 1;
  }

  class Index {
    const buckets: array<HashNode?>
    var itemCount: nat
    ghost var chains: Chains
    ghost var nodes: map<Bytes, HashNode>
    ghost var contents: map<Bytes, Bytes>
    ghost var repr: set<HashNode>

    /** Keys are unique and in their buckets, and `itemCount` is the size of the map. */
    ghost predicate Valid()
      reads this, buckets, repr
      ensures Valid() ==> buckets.Length > 0
    {
      && Placed(chains, nodes) && Linked(buckets, chains, repr) && Shows(nodes, contents, repr)
      && itemCount == |contents|
    }

    /** `hash_index_create`. */
    constructor (bucketCount: nat)
      ensures Valid() && fresh(buckets) && contents == map[] && repr == {}
      ensures buckets.Length == if bucketCount == 0 then 1024 else bucketCount
    {
      var count := if bucketCount == 0 then 1024 else bucketCount;
      buckets, itemCount := new HashNode?[count](_ => null), 0;
      chains, nodes, contents, repr := seq(count, _ => []), map[], map[], {};
    }

    /** The walk along the chain of a key; `prev` trails one node behind. */
    method Find(key: Bytes) returns (node: HashNode?, prev: HashNode?, ghost i: nat)
      requires Valid()
      ensures (node == null <==> key !in contents)
      ensures node != null ==> node.key == key && node.value == contents[key] && Located(chains, node, i)
                               && prev == At(chains[BucketOf(key, |chains|)], i - 1)
    {
      hide BucketOf;
      var b := BucketOf(key, buckets.Length);
      node, prev, i := buckets[b], null, 0;
      while node != null
        invariant i <= |chains[b]| && node == At(chains[b], i) && prev == At(chains[b], i - 1)
        invariant forall j :: 0 <= j < i ==> chains[b][j].key != key
        decreases |chains[b]| - i
      {
        assert chains[b][i] == node;
        if node.key == key {
          return;
        }
        assert chains[b][i].next == node.next;
        prev, node, i := node, node.next, i + 1;
      }
    }

    /** `hash_index_get`. */
    method Get(key: Bytes) returns (found: bool, value: Bytes)
      requires Valid()
      ensures found <==> key in contents
      ensures found ==> value == contents[key]
    {
      hide Placed, Linked, Shows;
      ghost var i: nat;
      var node, prev;
      node, prev, i := Find(key);
      if node == null {
        return false, [];
      }
      return true, node.value;
    }

    /** `hash_index_insert`: an existing key takes the new value, a new one goes to the head of its chain. */
    method Insert(key: Bytes, value: Bytes)
      requires Valid()
      modifies this, buckets, repr
      ensures Valid() && fresh(repr - old(repr)) && contents == old(contents)[key := value]
    {
      hide Placed, Linked, Shows, BucketOf;
      ghost var i: nat;
      var node, prev;
      node, prev, i := Find(key);
      if node != null {
        SetValue(node, i, value);
        return;
      }
      node := new HashNode(key, value);
      ShowsMore(nodes, contents, repr, node);
      Push(node);
      itemCount, contents := itemCount + 1, contents[key := value];
    }

    method SetValue(node: HashNode, ghost i: nat, value: Bytes)
      requires Valid() && Located(chains, node, i)
      modifies this`contents, repr`value
      ensures Valid() && contents == old(contents)[node.key := value]
    {
      hide Placed, BucketOf;
      Apart(chains, nodes, BucketOf(node.key, |chains|), i);
      assert contents[node.key := value].Keys == contents.Keys && |contents[node.key := value].Keys| == |contents.Keys|;
      node.value := value;
      contents := contents[node.key := value];
    }

    /** Head insertion. */
    method Push(node: HashNode)
      requires Placed(chains, nodes) && Linked(buckets, chains, repr) && node.key !in nodes
      modifies this`chains, this`nodes, this`repr, buckets, node`next
      ensures Placed(chains, nodes) && Linked(buckets, chains, repr)
      ensures nodes == old(nodes)[node.key := node] && repr == old(repr) + {node}
    {
      hide Placed, BucketOf;
      PlaceKeeps(chains, nodes, node);
      var b := BucketOf(node.key, buckets.Length);
      node.next := buckets[b];
      buckets[b] := node;
      chains, nodes, repr := chains[b := [node] + chains[b]], nodes[node.key := node], repr + {node};
    }

    /** `hash_index_delete`. */
    method Delete(key: Bytes) returns (found: bool)
      requires Valid()
      modifies this, buckets, repr
      ensures Valid() && repr == old(repr)
      ensures found == (key in old(contents)) && contents == old(contents) - {key}
    {
      hide Placed, Linked, Shows, BucketOf;
      ghost var i: nat;
      var node, prev;
      node, prev, i := Find(key);
      if node == null {
        return false;
      }
      Apart(chains, nodes, BucketOf(key, |chains|), i);
      ShowsLess(nodes, contents, repr, key);
      Unlink(node, prev, i);
      itemCount, contents := itemCount - 1, contents - {key};
      return true;
    }

    /** Unlinking in mid-chain or at the head. */
    method Unlink(node: HashNode, prev: HashNode?, ghost i: nat)
      requires Placed(chains, nodes) && Linked(buckets, chains, repr) && Located(chains, node, i)
      requires prev == At(chains[BucketOf(node.key, |chains|)], i - 1)
      modifies this`chains, this`nodes, buckets, repr`next
      ensures Placed(chains, nodes) && Linked(buckets, chains, repr) && nodes == old(nodes) - {node.key}
    {
      hide Placed, BucketOf;
      var b := BucketOf(node.key, buckets.Length);
      RemoveKeeps(chains, nodes, b, i);
      ghost var rest := chains[b][..i] + chains[b][i + 1..];
      assert chains[b][i].next == node.next;
      if i > 0 {
        Apart(chains, nodes, b, i - 1);
      }
      if prev != null {
        prev.next := node.next;
      } else {
        buckets[b] := node.next;
      }
      forall j | 0 <= j < |rest|
        ensures rest[j].next == At(rest, j + 1)
      {
        assert rest[j] == chains[b][if j < i then j else j + 1];
      }
      chains, nodes := chains[b := rest], nodes - {node.key};
    }
  }
}
