/**
  The bitmaps of src/index/bitmap_index.c as sets of row ids. A 64-bit block is its number; the
  bitwise operations are defined on numbers, bit by bit.
*/
module BitmapSpec {

  const WORD_LIMIT: nat := 0x1_0000_0000_0000_0000

  const UINT32_LIMIT: nat := 0x1_0000_0000

  type Word = w: nat | w < WORD_LIMIT

  // ---------- Words ----------

  function Pow2(n: nat): (p: nat)
    ensures p > 0
  {
    if n == 0 then 1 else 2 * Pow2(n - 1)
  }

  predicate Bit(w: nat, i: nat) {
    if i == 0 then w % 2 == 1 else Bit(w / 2, i - 1)
  }

  function And(a: nat, b: nat): (r: nat)
    ensures r <= a && r <= b
  {
    if a == 0 || b == 0 then 0 else (if a % 2 == 1 && b % 2 == 1 then 1 else 0) + 2 * And(a / 2, b / 2)
  }

  function Or(a: nat, b: nat): nat {
    if a == 0 then b else if b == 0 then a else (if a % 2 == 1 || b % 2 == 1 then 1 else 0) + 2 * Or(a / 2, b / 2)
  }

  /** The complement in 64 bits. */
  function Not(a: Word): Word {
    WORD_LIMIT - 1 - a
  }

  function PopCount(w: nat): nat {
    if w == 0 then 0 else w % 2 + PopCount(w / 2)
  }

  lemma WordIs64Bits()
    ensures Pow2(64) == WORD_LIMIT
  {
    hide Pow2;
    Pow2Of8();
    Pow2Sum(8, 8);
    assert Pow2(16) == 0x1_0000;
    Pow2Sum(16, 16);
    assert Pow2(32) == 0x1_0000_0000;
    Pow2Sum(32, 32);
  }

  lemma Pow2Of8()
    ensures Pow2(8) == 0x100
  {
    assert Pow2(4) == 16;
  }

  lemma {:induction false} Pow2Sum(m: nat, n: nat)
    ensures Pow2(m + n) == Pow2(m) * Pow2(n)
  {
    if m > 0 {
      Pow2Sum(m - 1, n);
    }
  }

  lemma {:induction false} BitZero(i: nat)
    ensures !Bit(0, i)
  {
    if i > 0 {
      BitZero(i - 1);
    }
  }

  lemma {:induction false} BitAnd(a: nat, b: nat, i: nat)
    ensures Bit(And(a, b), i) <==> Bit(a, i) && Bit(b, i)
  {
    if a == 0 || b == 0 {
      BitZero(i);
    } else if i > 0 {
      BitAnd(a / 2, b / 2, i - 1);
    }
  }

  lemma {:induction false} BitOr(a: nat, b: nat, i: nat)
    ensures Bit(Or(a, b), i) <==> Bit(a, i) || Bit(b, i)
  {
    if a == 0 || b == 0 {
      BitZero(i);
    } else if i > 0 {
      BitOr(a / 2, b / 2, i - 1);
    }
  }

  lemma {:induction false} OrFits(a: nat, b: nat, n: nat)
    requires a < Pow2(n) && b < Pow2(n)
    ensures Or(a, b) < Pow2(n)
  {
    if n > 0 && a != 0 && b != 0 {
      OrFits(a / 2, b / 2, n - 1);
    }
  }

  lemma {:induction false} BitNot(a: nat, n: nat, i: nat)
    requires a < Pow2(n) && i < n
    ensures Bit(Pow2(n) - 1 - a, i) <==> !Bit(a, i)
  {
    if i > 0 {
      assert (Pow2(n) - 1 - a) / 2 == Pow2(n - 1) - 1 - a / 2;
      BitNot(a / 2, n - 1, i - 1);
    }
  }

  lemma {:induction false} BitPow2(b: nat, i: nat)
    ensures Bit(Pow2(b), i) <==> i == b
  {
    if b == 0 {
      if i > 0 {
        BitZero(i - 1);
      }
    } else if i > 0 {
      BitPow2(b - 1, i - 1);
    }
  }

  lemma {:induction false} BitMask(m: nat, i: nat)
    ensures Bit(Pow2(m) - 1, i) <==> i < m
  {
    if m == 0 {
      BitZero(i);
    } else if i > 0 {
      BitMask(m - 1, i - 1);
    }
  }

  /** Numbers that agree on their lowest `n` bits and have no others are equal. */
  lemma {:induction false} SameBits(a: nat, b: nat, n: nat)
    requires a < Pow2(n) && b < Pow2(n) && forall i :: 0 <= i < n ==> (Bit(a, i) <==> Bit(b, i))
    ensures a == b
  {
    if n > 0 {
      assert Bit(a, 0) <==> Bit(b, 0);
      forall i | 0 <= i < n - 1
        ensures Bit(a / 2, i) <==> Bit(b / 2, i)
      {
        assert Bit(a, i + 1) <==> Bit(b, i + 1);
      }
      SameBits(a / 2, b / 2, n - 1);
    }
  }

  ghost predicate BitFrom(w: nat, base: nat, p: nat) {
    p >= base && Bit(w, p - base)
  }

  /** The bits of a word laid out from `base` on. */
  ghost function Spread(w: nat, base: nat, n: nat): set<nat> {
    set p: nat | base <= p < base + n && BitFrom(w, base, p)
  }

  lemma {:induction false} PopCountIsCardinality(w: nat, base: nat, n: nat)
    requires w < Pow2(n)
    ensures |Spread(w, base, n)| == PopCount(w)
    decreases n
  {
    var all := Spread(w, base, n);
    if n == 0 {
      assert all == {};
    } else {
      var rest := Spread(w / 2, base + 1, n - 1);
      PopCountIsCardinality(w / 2, base + 1, n - 1);
      forall p: nat | p > base
        ensures BitFrom(w, base, p) <==> BitFrom(w / 2, base + 1, p)
      {
      }
      assert BitFrom(w, base, base) <==> w % 2 == 1;
      assert all == rest + if w % 2 == 1 then {base} else {};
    }
  }

  // ---------- Bitmaps ----------

  datatype Bits = Bits(blocks: seq<Word>, count: nat)

  /** `calculate_blocks`, in 32 bits. */
  function BlocksFor(count: nat): nat {
    (count + 63) % UINT32_LIMIT / 64
  }

  function Block(p: nat): nat {
    p / 64
  }

  function Place(p: nat): (i: nat)
    ensures i < 64
  {
    p % 64
  }

  predicate Has(blocks: seq<Word>, p: nat) {
    Block(p) < |blocks| && Bit(blocks[Block(p)], Place(p))
  }

  /** The set a bitmap stands for. */
  ghost function Rows(b: Bits): set<nat> {
    set p: nat | p < b.count && Has(b.blocks, p)
  }

  /** There are just enough blocks, and the unused bits of the last one are zero. */
  ghost predicate WellFormed(b: Bits) {
    |b.blocks| == BlocksFor(b.count) && b.count + 63 < UINT32_LIMIT && forall p :: p >= b.count ==> !Has(b.blocks, p)
  }

  lemma BlockPlace(p: nat)
    ensures p == 64 * Block(p) + Place(p)
  {
  }

  lemma Numbered(k: nat, i: nat)
    requires i < 64
    ensures Block(64 * k + i) == k && Place(64 * k + i) == i
  {
  }

  /** Without wrap-around the blocks just cover the bits; with it, they do not cover them. */
  lemma BlocksForExactly(count: nat)
    requires count < UINT32_LIMIT
    ensures 64 * BlocksFor(count) >= count <==> count + 63 < UINT32_LIMIT
    ensures count + 63 < UINT32_LIMIT ==> forall p: nat :: p < count ==> Block(p) < BlocksFor(count)
  {
  }

  function Zeros(n: nat): seq<Word> {
    seq(n, _ => 0)
  }

  function Create(count: nat): Bits {
    Bits(Zeros(BlocksFor(count)), count)
  }

  function SetBit(b: Bits, p: nat): Bits {
    var k := Block(p);
    if p < b.count && k < |b.blocks| then b.(blocks := b.blocks[k := OrWord(b.blocks[k], Shifted(Place(p)))]) else b
  }

  function ClearBit(b: Bits, p: nat): Bits {
    var k := Block(p);
    if p < b.count && k < |b.blocks| then b.(blocks := b.blocks[k := And(b.blocks[k], Not(Shifted(Place(p))))]) else b
  }

  /** `1ULL << i`. */
  function Shifted(i: nat): Word
    requires i < 64
  {
    ShiftFits(i);
    Pow2(i)
  }

  function OrWord(a: Word, b: Word): Word {
    WordIs64Bits();
    OrFits(a, b, 64);
    Or(a, b)
  }

  lemma {:induction false} Pow2Grows(m: nat, n: nat)
    requires m <= n
    ensures Pow2(m) <= Pow2(n)
    decreases n
  {
    if m < n {
      Pow2Grows(m, n - 1);
    }
  }

  lemma ShiftFits(i: nat)
    requires i < 64
    ensures Pow2(i) < WORD_LIMIT
  {
    WordIs64Bits();
    Pow2Grows(i, 63);
  }

  /** Testing a bit by masking. */
  lemma MaskedBit(w: Word, i: nat)
    requires i < 64
    ensures And(w, Shifted(i)) != 0 <==> Bit(w, i)
  {
    hide And, Bit, Pow2;
    var m := And(w, Shifted(i));
    BitAnd(w, Shifted(i), i);
    BitPow2(i, i);
    BitZero(i);
    if !Bit(w, i) {
      forall j | 0 <= j < 64
        ensures Bit(m, j) <==> Bit(0, j)
      {
        BitAnd(w, Shifted(i), j);
        BitPow2(i, j);
        BitZero(j);
      }
      WordIs64Bits();
      SameBits(m, 0, 64);
    }
  }

  function Min(a: nat, b: nat): nat {
    if a < b then a else b
  }

  function Max(a: nat, b: nat): nat {
    if a > b then a else b
  }

  /** `bitmap_and`. */
  function AndBits(a: Bits, b: Bits): Bits
    requires WellFormed(a) && WellFormed(b)
  {
    var count := Min(a.count, b.count);
    Bits(seq(BlocksFor(count), i requires 0 <= i < BlocksFor(count) => And(a.blocks[i], b.blocks[i])), count)
  }

  /** `bitmap_or`: the longer one supplies the blocks that the shorter one lacks. */
  function OrBits(a: Bits, b: Bits): Bits
    requires WellFormed(a) && WellFormed(b)
  {
    var count := Max(a.count, b.count);
    Bits(seq(BlocksFor(count), i requires 0 <= i < BlocksFor(count) =>
      if i >= |b.blocks| then a.blocks[i] else if i >= |a.blocks| then b.blocks[i] else OrWord(a.blocks[i], b.blocks[i])), count)
  }

  /** `bitmap_not`: the complement, with the unused bits of the last block masked out. */
  function NotBits(b: Bits): Bits
    requires WellFormed(b)
  {
    Bits(seq(|b.blocks|, i requires 0 <= i < |b.blocks| =>
      if b.count % 64 != 0 && i == |b.blocks| - 1 then And(Not(b.blocks[i]), Mask(b.count % 64)) else Not(b.blocks[i])), b.count)
  }

  function Mask(m: nat): Word
    requires m < 64
  {
    Shifted(m) - 1
  }

  lemma SetRows(b: Bits, p: nat)
    requires WellFormed(b)
    ensures WellFormed(SetBit(b, p)) && Rows(SetBit(b, p)) == if p < b.count then Rows(b) + {p} else Rows(b)
  {
    hide Bit, Pow2, Or, Block, Place;
    BlocksForExactly(b.count);
    if p < b.count {
      forall q: nat
        ensures Has(SetBit(b, p).blocks, q) <==> q == p || Has(b.blocks, q)
      {
        BlockPlace(p);
        BlockPlace(q);
        if Block(q) == Block(p) {
          BitOr(b.blocks[Block(p)], Shifted(Place(p)), Place(q));
          BitPow2(Place(p), Place(q));
        }
      }
    }
  }

  lemma AndRows(a: Bits, b: Bits)
    requires WellFormed(a) && WellFormed(b)
    ensures WellFormed(AndBits(a, b)) && Rows(AndBits(a, b)) == Rows(a) * Rows(b)
  {
    hide Bit, And, Place, Block;
    var r := AndBits(a, b);
    BlocksForExactly(a.count);
    BlocksForExactly(b.count);
    forall p: nat
      ensures Has(r.blocks, p) <==> Has(a.blocks, p) && Has(b.blocks, p)
    {
      if Block(p) < |r.blocks| {
        BitAnd(a.blocks[Block(p)], b.blocks[Block(p)], Place(p));
      }
    }
  }

  lemma OrRows(a: Bits, b: Bits)
    requires WellFormed(a) && WellFormed(b)
    ensures WellFormed(OrBits(a, b)) && Rows(OrBits(a, b)) == Rows(a) + Rows(b)
  {
    hide Bit, Or, Place, Block;
    var r := OrBits(a, b);
    BlocksForExactly(a.count);
    BlocksForExactly(b.count);
    forall p: nat
      ensures Has(r.blocks, p) <==> Has(a.blocks, p) || Has(b.blocks, p)
    {
      if Block(p) < |a.blocks| && Block(p) < |b.blocks| {
        BitOr(a.blocks[Block(p)], b.blocks[Block(p)], Place(p));
      }
    }
  }

  lemma ClearRows(b: Bits, p: nat)
    requires WellFormed(b)
    ensures WellFormed(ClearBit(b, p)) && Rows(ClearBit(b, p)) == Rows(b) - {p}
  {
    hide Bit, Pow2, And, Not, Block, Place;
    BlocksForExactly(b.count);
    if p < b.count {
      forall q: nat
        ensures Has(ClearBit(b, p).blocks, q) <==> q != p && Has(b.blocks, q)
      {
        BlockPlace(p);
        BlockPlace(q);
        if Block(q) == Block(p) {
          BitAnd(b.blocks[Block(p)], Not(Shifted(Place(p))), Place(q));
          NotBit(Shifted(Place(p)), Place(q));
          BitPow2(Place(p), Place(q));
        }
      }
    }
  }

  lemma NotBit(a: Word, i: nat)
    requires i < 64
    ensures Bit(Not(a), i) <==> !Bit(a, i)
  {
    WordIs64Bits();
    BitNot(a, 64, i);
  }

  /** The last block is the one in which the unused bits lie. */
  lemma LastBlock(count: nat, p: nat)
    requires count + 63 < UINT32_LIMIT && Block(p) < BlocksFor(count)
    ensures p >= count <==> count % 64 != 0 && Block(p) == BlocksFor(count) - 1 && Place(p) >= count % 64
  {
  }

  lemma NotRows(b: Bits)
    requires WellFormed(b)
    ensures WellFormed(NotBits(b)) && NotBits(b).count == b.count
    ensures forall p: nat :: p in Rows(NotBits(b)) <==> p < b.count && p !in Rows(b)
  {
    hide Bit, And, Not, Place, Block, Pow2;
    var r := NotBits(b);
    BlocksForExactly(b.count);
    forall p: nat
      ensures Has(r.blocks, p) <==> p < b.count && !Has(b.blocks, p)
    {
      if Block(p) < |b.blocks| {
        var w := b.blocks[Block(p)];
        LastBlock(b.count, p);
        NotBit(w, Place(p));
        BitAnd(Not(w), Mask(b.count % 64), Place(p));
        BitMask(b.count % 64, Place(p));
      }
    }
  }

  /** Only one bitmap of a given length stands for a given set. */
  lemma Canonical(a: Bits, b: Bits)
    requires WellFormed(a) && WellFormed(b) && a.count == b.count && Rows(a) == Rows(b)
    ensures a == b
  {
    hide Bit, Block, Place, Pow2;
    forall k | 0 <= k < |a.blocks|
      ensures a.blocks[k] == b.blocks[k]
    {
      forall i | 0 <= i < 64
        ensures Bit(a.blocks[k], i) <==> Bit(b.blocks[k], i)
      {
        var p := 64 * k + i;
        Numbered(k, i);
        assert Has(a.blocks, p) <==> p in Rows(a);
        assert Has(b.blocks, p) <==> p in Rows(b);
      }
      WordIs64Bits();
      SameBits(a.blocks[k], b.blocks[k], 64);
    }
  }

  lemma RowsBelow(b: Bits)
    ensures forall p <- Rows(b) :: p < b.count
  {
  }

  /** De Morgan's laws hold, block for block, exactly for bitmaps of equal length. */
  lemma DeMorganExactly(a: Bits, b: Bits)
    requires WellFormed(a) && WellFormed(b)
    ensures WellFormed(NotBits(a)) && WellFormed(NotBits(b)) && WellFormed(AndBits(a, b)) && WellFormed(OrBits(a, b))
    ensures NotBits(AndBits(a, b)) == OrBits(NotBits(a), NotBits(b)) <==> a.count == b.count
    ensures NotBits(OrBits(a, b)) == AndBits(NotBits(a), NotBits(b)) <==> a.count == b.count
  {
    hide WellFormed, Rows;
    NotRows(a);
    NotRows(b);
    AndRows(a, b);
    OrRows(a, b);
    NotRows(AndBits(a, b));
    NotRows(OrBits(a, b));
    OrRows(NotBits(a), NotBits(b));
    AndRows(NotBits(a), NotBits(b));
    var l, r := NotBits(AndBits(a, b)), OrBits(NotBits(a), NotBits(b));
    var l', r' := NotBits(OrBits(a, b)), AndBits(NotBits(a), NotBits(b));
    assert l.count == Min(a.count, b.count) && r.count == Max(a.count, b.count);
    assert l'.count == Max(a.count, b.count) && r'.count == Min(a.count, b.count);
    if a.count == b.count {
      RowsBelow(a);
      RowsBelow(b);
      assert Rows(l) == Rows(r);
      assert Rows(l') == Rows(r');
      Canonical(l, r);
      Canonical(l', r');
    }
  }

  // ---------- Counting ----------

  function PopTotal(blocks: seq<Word>): nat {
    if blocks == [] then 0 else PopTotal(blocks[..|blocks| - 1]) + PopCount(blocks[|blocks| - 1])
  }

  ghost function Positions(blocks: seq<Word>): set<nat> {
    set p: nat | p < 64 * |blocks| && Has(blocks, p)
  }

  lemma {:induction false} PopTotalIsCardinality(blocks: seq<Word>)
    ensures |Positions(blocks)| == PopTotal(blocks)
  {
    hide Bit, PopCount, Pow2, Has, BitFrom;
    if blocks == [] {
      assert Positions(blocks) == {};
    } else {
      var front, k := blocks[..|blocks| - 1], |blocks| - 1;
      PopTotalIsCardinality(front);
      WordIs64Bits();
      PopCountIsCardinality(blocks[k], 64 * k, 64);
      forall p: nat | p < 64 * |blocks|
        ensures Has(blocks, p) <==> if p < 64 * k then Has(front, p) else BitFrom(blocks[k], 64 * k, p)
      {
        LastBlockHas(blocks, p);
      }
      assert Positions(blocks) == Positions(front) + Spread(blocks[k], 64 * k, 64);
    }
  }

  lemma LastBlockHas(blocks: seq<Word>, p: nat)
    requires blocks != [] && p < 64 * |blocks|
    ensures var k := |blocks| - 1;
            Has(blocks, p) <==> if p < 64 * k then Has(blocks[..k], p) else BitFrom(blocks[k], 64 * k, p)
  {
    hide Bit;
  }

  /** Adding up the population counts of the blocks counts the rows. */
  lemma PopTotalCountsRows(b: Bits)
    requires WellFormed(b)
    ensures PopTotal(b.blocks) == |Rows(b)|
  {
    BlocksForExactly(b.count);
    PopTotalIsCardinality(b.blocks);
    assert Positions(b.blocks) == Rows(b);
  }

  // ---------- Resizing ----------

  /** What `expand_bitmaps` does to one bitmap: a new one with as many of the old blocks as fit. */
  function Resize(b: Bits, count: nat): Bits {
    var n := BlocksFor(count);
    Bits(if n <= |b.blocks| then b.blocks[..n] else b.blocks + Zeros(n - |b.blocks|), count)
  }

  lemma CreateRows(count: nat)
    requires count + 63 < UINT32_LIMIT
    ensures WellFormed(Create(count)) && Rows(Create(count)) == {}
  {
    hide Bit;
    forall p: nat
      ensures !Has(Create(count).blocks, p)
    {
      BitZero(Place(p));
    }
  }

  /** Growing keeps the set; shrinking to nothing empties it. */
  lemma ResizeRows(b: Bits, count: nat)
    requires WellFormed(b) && (count >= b.count || count == 0) && count + 63 < UINT32_LIMIT
    ensures WellFormed(Resize(b, count)) && Rows(Resize(b, count)) == if count == 0 then {} else Rows(b)
  {
    hide Bit;
    BlocksForExactly(b.count);
    var r := Resize(b, count);
    if count > 0 {
      forall p: nat
        ensures Has(r.blocks, p) <==> Has(b.blocks, p)
      {
        BitZero(Place(p));
      }
    }
  }

  // ---------- The index ----------

  datatype Entry = Entry(value: string, bits: Bits)

  datatype Index = Index(entries: seq<Entry>, max: nat)

  /** The row id whose successor wraps to zero. */
  const LAST_ROW: nat := UINT32_LIMIT - 1

  /** Row ids for which the number of blocks does not wrap, and the one for which the size itself wraps. */
  predicate Allowed(row: nat) {
    row + 64 < UINT32_LIMIT || row == LAST_ROW
  }

  function Find(entries: seq<Entry>, value: string): (i: nat)
    ensures i <= |entries| && (i < |entries| ==> entries[i].value == value)
  {
    if entries == [] then 0 else if entries[0].value == value then 0 else 1 + Find(entries[1..], value)
  }

  /** `expand_bitmaps`. */
  function ResizeAll(entries: seq<Entry>, count: nat): (r: seq<Entry>)
    ensures |r| == |entries|
    ensures forall i :: 0 <= i < |entries| ==> r[i] == Entry(entries[i].value, Resize(entries[i].bits, count))
  {
    seq(|entries|, i requires 0 <= i < |entries| => Entry(entries[i].value, Resize(entries[i].bits, count)))
  }

  function MakeRoom(ix: Index, row: nat): Index {
    if row >= ix.max then Index(ResizeAll(ix.entries, (row + 1) % UINT32_LIMIT), (row + 1) % UINT32_LIMIT) else ix
  }

  function WithValue(ix: Index, value: string): Index {
    if Find(ix.entries, value) < |ix.entries| then ix else ix.(entries := ix.entries + [Entry(value, Create(ix.max))])
  }

  /** `bitmap_index_insert`. */
  function InsertStep(ix: Index, value: string, row: nat): (Index, bool) {
    var ready := WithValue(MakeRoom(ix, row), value);
    var i := Find(ready.entries, value);
    if i == |ready.entries| then (ready, false)
    else
      var bits := ready.entries[i].bits;
      (ready.(entries := ready.entries[i := Entry(value, SetBit(bits, row))]), row < bits.count)
  }

  ghost predicate EntryOk(e: Entry, max: nat) {
    WellFormed(e.bits) && e.bits.count == max
  }

  /** Every bitmap has exactly as many bits as the index says, and no value has two. */
  ghost predicate Inv(ix: Index) {
    && ix.max + 63 < UINT32_LIMIT
    && (forall i :: 0 <= i < |ix.entries| ==> EntryOk(ix.entries[i], ix.max))
    && (forall i, j :: 0 <= i < j < |ix.entries| ==> ix.entries[i].value != ix.entries[j].value)
  }

  predicate Known(ix: Index, value: string) {
    Find(ix.entries, value) < |ix.entries|
  }

  /** The rows a query for a value answers with. */
  ghost function RowsFor(ix: Index, value: string): set<nat> {
    var i := Find(ix.entries, value);
    if i < |ix.entries| then Rows(ix.entries[i].bits) else {}
  }

  lemma FindIs(entries: seq<Entry>, value: string, i: nat)
    requires i <= |entries| && (i < |entries| ==> entries[i].value == value)
    requires forall j :: 0 <= j < i ==> entries[j].value != value
    ensures Find(entries, value) == i
  {
    FindIsFirst(entries, value);
  }

  lemma {:induction false} FindIsFirst(entries: seq<Entry>, value: string)
    ensures forall i :: 0 <= i < Find(entries, value) ==> entries[i].value != value
  {
    if entries != [] && entries[0].value != value {
      FindIsFirst(entries[1..], value);
      assert forall i :: 0 < i < |entries| ==> entries[i] == entries[1..][i - 1];
    }
  }

  lemma MakeRoomKeeps(ix: Index, row: nat, v: string)
    requires Inv(ix) && Allowed(row)
    ensures var r := MakeRoom(ix, row);
            && Inv(r) && (row < r.max <==> row != LAST_ROW)
            && r.max == (if row == LAST_ROW then 0 else Max(ix.max, row + 1))
            && (Known(r, v) <==> Known(ix, v))
            && RowsFor(r, v) == if row == LAST_ROW then {} else RowsFor(ix, v)
  {
    hide WellFormed, Rows, Resize;
    if row >= ix.max {
      var count := (row + 1) % UINT32_LIMIT;
      assert count == if row == LAST_ROW then 0 else row + 1;
      forall i | 0 <= i < |ix.entries|
        ensures EntryOk(ResizeAll(ix.entries, count)[i], count)
        ensures Rows(ResizeAll(ix.entries, count)[i].bits) == if count == 0 then {} else Rows(ix.entries[i].bits)
      {
        assert EntryOk(ix.entries[i], ix.max);
        ResizeRows(ix.entries[i].bits, count);
        ResizeCount(ix.entries[i].bits, count);
      }
      FindIsFirst(ix.entries, v);
      FindIs(ResizeAll(ix.entries, count), v, Find(ix.entries, v));
    }
  }

  lemma ResizeCount(b: Bits, count: nat)
    ensures Resize(b, count).count == count
  {
  }

  lemma WithValueKeeps(ix: Index, value: string, v: string)
    requires Inv(ix)
    ensures var r := WithValue(ix, value);
            && Inv(r) && r.max == ix.max && Known(r, value) && (Known(r, v) <==> v == value || Known(ix, v))
            && RowsFor(r, v) == RowsFor(ix, v)
  {
    hide WellFormed, Rows, Create;
    FindIsFirst(ix.entries, value);
    FindIsFirst(ix.entries, v);
    if !Known(ix, value) {
      var r := WithValue(ix, value);
      CreateRows(ix.max);
      assert Create(ix.max).count == ix.max by { CreateCount(ix.max); }
      FindIs(r.entries, value, |ix.entries|);
      if v != value {
        FindIs(r.entries, v, if Known(ix, v) then Find(ix.entries, v) else |r.entries|);
      }
    }
  }

  lemma CreateCount(count: nat)
    ensures Create(count).count == count
  {
  }

  /**
    An insertion adds the row to the rows of its value and changes no other value. The row id whose
    successor wraps is refused, and empties every bitmap.
  */
  lemma InsertExactly(ix: Index, value: string, row: nat, v: string)
    requires Inv(ix) && Allowed(row)
    ensures var (r, ok) := InsertStep(ix, value, row);
            && Inv(r) && (ok <==> row != LAST_ROW)
            && r.max == (if row == LAST_ROW then 0 else Max(ix.max, row + 1))
            && (Known(r, v) <==> v == value || Known(ix, v))
            && RowsFor(r, v) == if row == LAST_ROW then {} else if v == value then RowsFor(ix, v) + {row} else RowsFor(ix, v)
  {
    hide WellFormed, Rows, MakeRoom, WithValue, SetBit;
    var room := MakeRoom(ix, row);
    MakeRoomKeeps(ix, row, v);
    WithValueKeeps(room, value, v);
    var ready := WithValue(room, value);
    var i := Find(ready.entries, value);
    assert EntryOk(ready.entries[i], ready.max);
    SetRows(ready.entries[i].bits, row);
    SetCount(ready.entries[i].bits, row);
    var r := InsertStep(ix, value, row).0;
    FindIsFirst(ready.entries, value);
    FindIsFirst(ready.entries, v);
    FindIs(r.entries, v, Find(ready.entries, v));
  }

  lemma SetCount(b: Bits, p: nat)
    ensures SetBit(b, p).count == b.count
  {
  }

  // ---------- Runs of insertions ----------

  datatype Insertion = Insertion(value: string, row: nat)

  const EMPTY: Index := Index([], 0)

  function Run(ops: seq<Insertion>): Index {
    if ops == [] then EMPTY else InsertStep(Run(ops[..|ops| - 1]), ops[|ops| - 1].value, ops[|ops| - 1].row).0
  }

  /** The rows inserted under a value since the last time everything was emptied. */
  ghost function Inserted(ops: seq<Insertion>, v: string): set<nat> {
    if ops == [] || ops[|ops| - 1].row == LAST_ROW then {}
    else Inserted(ops[..|ops| - 1], v) + if ops[|ops| - 1].value == v then {ops[|ops| - 1].row} else {}
  }

  /** After any run, despite all resizing, a query answers with exactly the rows inserted under its value. */
  lemma {:induction false} RunExactly(ops: seq<Insertion>, v: string)
    requires forall i :: 0 <= i < |ops| ==> Allowed(ops[i].row)
    ensures Inv(Run(ops)) && RowsFor(Run(ops), v) == Inserted(ops, v)
    ensures Known(Run(ops), v) <==> exists i :: 0 <= i < |ops| && ops[i].value == v
  {
    hide Inv, InsertStep, RowsFor, Known;
    if ops == [] {
      EmptyIndex(v);
    } else {
      var front, last := ops[..|ops| - 1], ops[|ops| - 1];
      RunExactly(front, v);
      InsertExactly(Run(front), last.value, last.row, v);
      if Known(Run(front), v) {
        var i :| 0 <= i < |front| && front[i].value == v;
        assert ops[i].value == v;
      }
      if exists i :: 0 <= i < |ops| && ops[i].value == v {
        var i :| 0 <= i < |ops| && ops[i].value == v;
        assert i < |front| ==> front[i].value == v;
      }
    }
  }

  lemma EmptyIndex(v: string)
    ensures Inv(EMPTY) && RowsFor(EMPTY, v) == {} && !Known(EMPTY, v)
  {
  }

  /** As long as the wrapping row id does not occur, every row inserted under a value is found, and nothing else. */
  lemma {:induction false} NothingIsLost(ops: seq<Insertion>, v: string, row: nat)
    requires forall i :: 0 <= i < |ops| ==> ops[i].row + 64 < UINT32_LIMIT
    ensures row in RowsFor(Run(ops), v) <==> Insertion(v, row) in ops
  {
    RunExactly(ops, v);
    InsertedIs(ops, v, row);
  }

  lemma {:induction false} InsertedIs(ops: seq<Insertion>, v: string, row: nat)
    requires forall i :: 0 <= i < |ops| ==> ops[i].row != LAST_ROW
    ensures row in Inserted(ops, v) <==> Insertion(v, row) in ops
  {
    if ops != [] {
      InsertedIs(ops[..|ops| - 1], v, row);
      assert ops == ops[..|ops| - 1] + [ops[|ops| - 1]];
    }
  }

  /** Row ids up to 4294967231 are taken, each under its value alone; 4294967295 is refused and empties everything. */
  lemma RowsTaken(ix: Index, value: string, row: nat, v: string)
    requires Inv(ix) && (row <= 4294967231 || row == 4294967295)
    ensures var (r, ok) := InsertStep(ix, value, row);
            && (ok <==> row <= 4294967231)
            && (ok ==> RowsFor(r, value) == RowsFor(ix, value) + {row} && (v != value ==> RowsFor(r, v) == RowsFor(ix, v)))
            && (!ok ==> RowsFor(r, v) == {})
  {
    hide InsertStep, RowsFor, Known, Inv;
    InsertExactly(ix, value, row, v);
    InsertExactly(ix, value, row, value);
  }
}
