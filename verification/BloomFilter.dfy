/**
  The Bloom filter of src/index/bloom_filter.c: three 32-bit hash functions, double hashing for more,
  and bytes or-ed in place. The ghost field `added` is the set of keys added since the last reset.
*/
module BloomFilter {
  import opened BitmapSpec
  import LsmSpec

  type Bytes = LsmSpec.Bytes

  const HASH_LIMIT: nat := 16

  // ---------- Hash functions ----------

  function Xor(a: nat, b: nat): nat {
    if a == 0 then b else if b == 0 then a else (a + b) % 2 + 2 * Xor(a / 2, b / 2)
  }

  function Wrap(n: nat): nat {
    n % UINT32_LIMIT
  }

  /** FNV-1a over the first `n` bytes. */
  function Fnv(key: Bytes, n: nat): nat
    requires n <= |key|
  {
    if n == 0 then 2166136261 else Wrap(Xor(Fnv(key, n - 1), key[n - 1]) * 16777619)
  }

  /** A 32-bit rotation; `up` and `down` are the powers of two for the two shifts. */
  function RotateLeft(k: nat, up: nat, down: nat): nat
    requires down > 0
  {
    Or(Wrap(k * up), k / down)
  }

  function Scramble(k: nat): nat {
    Wrap(RotateLeft(Wrap(k * 0xcc9e2d51), 0x8000, 0x2_0000) * 0x1b873593)
  }

  /** The four-byte rounds of the second hash, over the first `n` bytes. */
  function Rounds(key: Bytes, n: nat): nat
    requires n <= |key| && n % 4 == 0
  {
    if n == 0 then 0xdeadbeef
    else Wrap(RotateLeft(Xor(Rounds(key, n - 4), Scramble(LsmSpec.Le32At(key, n - 4))), 0x2000, 0x8_0000) * 5 + 0xe6546b64)
  }

  /** The up to three bytes left over, lowest first. */
  function Rest(tail: Bytes): nat
    requires |tail| < 4
  {
    if tail == [] then 0 else tail[0] as int + 0x100 * Rest(tail[1..])
  }

  function Mix(hash: nat): nat {
    var h1 := Wrap(Xor(hash, hash / 0x1_0000) * 0x85ebca6b);
    var h2 := Wrap(Xor(h1, h1 / 0x2000) * 0xc2b2ae35);
    Xor(h2, h2 / 0x1_0000)
  }

  function Murmur(key: Bytes): nat {
    var n := |key| / 4 * 4;
    var hash := Rounds(key, n);
    var mixed := if n == |key| then hash else Xor(hash, Scramble(Rest(key[n..])));
    Mix(Xor(mixed, |key|))
  }

  /** A byte as a signed character, added in 32 bits. */
  function AddChar(hash: nat, b: LsmSpec.byte): nat {
    Wrap(hash + if b < 0x80 then b as int else UINT32_LIMIT - 0x100 + b)
  }

  /** The loop of the third hash over the first `n` bytes. */
  function Jenkins(key: Bytes, n: nat): nat
    requires n <= |key|
  {
    if n == 0 then 0
    else
      var h := AddChar(Jenkins(key, n - 1), key[n - 1]);
      var shifted := Wrap(h + Wrap(h * 0x400));
      Xor(shifted, shifted / 0x40)
  }

  function JenkinsEnd(hash: nat): nat {
    var h1 := Wrap(hash + Wrap(hash * 8));
    var h2 := Xor(h1, h1 / 0x800);
    Wrap(h2 + Wrap(h2 * 0x8000))
  }

  function Reduce(hash: nat, size: nat): (p: nat)
    requires size > 0
    ensures p < size
  {
    hash % size
  }

  /** The double hash, whose sum wraps in 32 bits. */
  function Combine(first: nat, second: nat, i: nat): nat {
    Wrap(first + i * second)
  }

  /** `get_hash_values`. */
  function Position(key: Bytes, size: nat, i: nat): (p: nat)
    requires size > 0
    ensures p < size
  {
    var first, second := Reduce(Fnv(key, |key|), size), Reduce(Murmur(key), size);
    if i == 0 then first
    else if i == 1 then second
    else if i == 2 then Reduce(JenkinsEnd(Jenkins(key, |key|)), size)
    else Reduce(Combine(first, second, i), size)
  }

  lemma XorHalves(a: nat, b: nat)
    requires a > 0 && b > 0
    ensures Xor(a, b) / 2 == Xor(a / 2, b / 2) && (Xor(a, b) % 2 == 1 <==> a % 2 != b % 2)
  {
    hide Xor;
    XorUnfolds(a, b);
    Halves(Xor(a, b), a, b, Xor(a / 2, b / 2));
  }

  lemma XorUnfolds(a: nat, b: nat)
    requires a > 0 && b > 0
    ensures Xor(a, b) == (a + b) % 2 + 2 * Xor(a / 2, b / 2)
  {
  }

  lemma Halves(r: nat, a: nat, b: nat, rest: nat)
    requires r == (a + b) % 2 + 2 * rest
    ensures r / 2 == rest && (r % 2 == 1 <==> a % 2 != b % 2)
  {
  }

  /** The exclusive or, bit by bit. */
  lemma {:induction false} XorBits(a: nat, b: nat, i: nat)
    ensures Bit(Xor(a, b), i) <==> Bit(a, i) != Bit(b, i)
  {
    if a == 0 || b == 0 {
      BitZero(i);
    } else {
      XorHalves(a, b);
      hide Xor;
      if i > 0 {
        XorBits(a / 2, b / 2, i - 1);
      }
    }
  }

  /** The first hash in numbers, and the double hash that gives all positions from the fourth on. */
  lemma PositionsInNumbers(key: Bytes, size: nat, i: nat)
    requires size > 0
    ensures Position([], size, 0) == 2166136261 % size && Position([1], size, 0) == 67918732 % size
    ensures i > 2 ==>
              Position(key, size, i) == (Position(key, size, 0) + i * Position(key, size, 1)) % 4294967296 % size
  {
    hide Murmur, Jenkins, JenkinsEnd;
    assert Xor(2166136261, 1) == 2166136260;
    assert Fnv([1], 1) == 67918732;
  }

  // ---------- The filter ----------

  /** One of the keys has a bit at this position. */
  ghost predicate Marked(keys: set<Bytes>, size: nat, hashCount: nat, p: nat)
    requires size > 0
  {
    exists key, i :: key in keys && 0 <= i < hashCount && Position(key, size, i) == p
  }

  predicate BitAt(bits: seq<LsmSpec.byte>, p: nat) {
    p / 8 < |bits| && Bit(bits[p / 8], p % 8)
  }

  /** Or-ing one bit into one byte sets exactly that bit. */
  lemma OrSetsBit(bits: seq<LsmSpec.byte>, p: nat, q: nat)
    requires p / 8 < |bits|
    ensures Or(bits[p / 8], Pow2(p % 8)) < 0x100
    ensures BitAt(bits[p / 8 := Or(bits[p / 8], Pow2(p % 8))], q) <==> q == p || BitAt(bits, q)
  {
    hide Bit, Or;
    Pow2Of8();
    Pow2Grows(p % 8, 7);
    OrFits(bits[p / 8], Pow2(p % 8), 8);
    BitOr(bits[p / 8], Pow2(p % 8), q % 8);
    BitPow2(p % 8, q % 8);
  }

  class Filter {
    const bits: array<LsmSpec.byte>
    const size: nat
    const hashCount: nat
    var itemCount: nat
    ghost var added: set<Bytes>

    /** The bits set are those of the keys added, and no others. */
    ghost predicate Valid()
      reads this, bits
    {
      && 0 < size && size + 7 < UINT32_LIMIT && hashCount <= HASH_LIMIT && bits.Length == (size + 7) / 8
      && forall p: nat :: p < size ==> (BitAt(bits[..], p) <==> Marked(added, size, hashCount, p))
    }

    /** `bloom_filter_create`, with the defaults for zero already put in. */
    constructor (size: nat, hashCount: nat)
      requires 0 < size && size + 7 < UINT32_LIMIT && 0 < hashCount <= HASH_LIMIT
      ensures Valid() && fresh(bits) && added == {} && this.size == size && this.hashCount == hashCount
    {
      bits, this.size, this.hashCount := new LsmSpec.byte[(size + 7) / 8](_ => 0), size, hashCount;
      itemCount, added := 0, {};
      new;
      NoBits(bits[..]);
    }

    /** `bloom_filter_add`. */
    method Add(key: Bytes)
      requires Valid()
      modifies this, bits
      ensures Valid() && added == old(added) + {key} && itemCount == old(itemCount) + 1
    {
      hide Position, Bit, Or, Pow2;
      var i := 0;
      while i < hashCount
        invariant i <= hashCount && added == old(added) && itemCount == old(itemCount)
        invariant forall p: nat :: p < size ==>
          (BitAt(bits[..], p) <==> Marked(added, size, hashCount, p) || Marked({key}, size, i, p))
      {
        var p := Position(key, size, i);
        ghost var before := bits[..];
        OrSetsBit(before, p, p);
        forall q: nat
          ensures BitAt(before[p / 8 := Or(before[p / 8], Pow2(p % 8))], q) <==> q == p || BitAt(before, q)
          ensures Marked({key}, size, i + 1, q) <==> q == p || Marked({key}, size, i, q)
        {
          OrSetsBit(before, p, q);
          MarkedOneMore(key, size, i, q);
        }
        bits[p / 8] := Or(bits[p / 8], Shifted(p % 8));
        assert bits[..] == before[p / 8 := Or(before[p / 8], Pow2(p % 8))];
        i := i + 1;
      }
      forall p: nat
        ensures Marked(added + {key}, size, hashCount, p)
                <==> Marked(added, size, hashCount, p) || Marked({key}, size, hashCount, p)
      {
        MarkedUnion(added, key, size, hashCount, p);
      }
      itemCount, added := itemCount + 1, added + {key};
    }

    /** `bloom_filter_contains`: a key is reported exactly if all its positions are taken, as those of every added key are. */
    method Contains(key: Bytes) returns (r: bool)
      requires Valid()
      ensures r <==> forall i :: 0 <= i < hashCount ==> Marked(added, size, hashCount, Position(key, size, i))
      ensures key in added ==> r
    {
      hide Position, Bit;
      var i := 0;
      while i < hashCount
        invariant i <= hashCount && forall j :: 0 <= j < i ==> Marked(added, size, hashCount, Position(key, size, j))
      {
        var p := Position(key, size, i);
        MaskedBit(bits[p / 8], p % 8);
        if And(bits[p / 8], Shifted(p % 8)) == 0 {
          assert !BitAt(bits[..], p);
          return false;
        }
        assert BitAt(bits[..], p);
        i := i + 1;
      }
      return true;
    }

    /** `bloom_filter_reset`. */
    method Reset()
      requires Valid()
      modifies this, bits
      ensures Valid() && added == {} && itemCount == 0
    {
      forall i | 0 <= i < bits.Length {
        bits[i] := 0;
      }
      itemCount, added := 0, {};
      NoBits(bits[..]);
    }
  }

  lemma NoBits(bits: seq<LsmSpec.byte>)
    requires forall i :: 0 <= i < |bits| ==> bits[i] == 0
    ensures forall p: nat :: !BitAt(bits, p)
  {
    forall p: nat
      ensures !BitAt(bits, p)
    {
      BitZero(p % 8);
    }
  }

  lemma MarkedOneMore(key: Bytes, size: nat, i: nat, p: nat)
    requires size > 0
    ensures Marked({key}, size, i + 1, p) <==> p == Position(key, size, i) || Marked({key}, size, i, p)
  {
    hide Position;
  }

  lemma MarkedUnion(keys: set<Bytes>, key: Bytes, size: nat, hashCount: nat, p: nat)
    requires size > 0
    ensures Marked(keys + {key}, size, hashCount, p)
            <==> Marked(keys, size, hashCount, p) || Marked({key}, size, hashCount, p)
  {
    hide Position;
  }
}
