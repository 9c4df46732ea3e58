/**
  The R-tree of src/index/r_tree.c as values.

  `Insert`, `InsertAtRoot` and `Query` say what the in-place code of module `RTree` computes.
  The theorems about shape, conservation and query answers are proved here once, over these
  functions; module `RTree` proves that the pointer code computes exactly them.
*/
module RTreeSpec {

  const MAX_CHILDREN: nat := 8

  /** A bounding box. `Empty` is the (+inf, -inf) box a fresh node starts with. A box need not have min <= max. */
  datatype Box = Empty | Box(xmin: real, ymin: real, xmax: real, ymax: real)

  datatype Item = Item(key: string, value: string, box: Box)

  datatype Tree =
    | Leaf(box: Box, items: seq<Item>)
    | Node(box: Box, slots: seq<Slot>)

  /** An internal entry: the child and the copy of its box that the parent keeps. */
  datatype Slot = Slot(child: Tree, childBox: Box)

  datatype Option<+T> = None | Some(value: T)

  /** What a recursive insert leaves behind: the node itself and the sibling split off it, if any. */
  datatype Grown = Grown(node: Tree, extra: Option<Tree>)

  // ---------- Boxes ----------

  function Extend(target: Box, source: Box): Box {
    if source.Empty? then target
    else if target.Empty? then source
    else Box(
           if source.xmin < target.xmin then source.xmin else target.xmin,
           if source.ymin < target.ymin then source.ymin else target.ymin,
           if source.xmax > target.xmax then source.xmax else target.xmax,
           if source.ymax > target.ymax then source.ymax else target.ymax)
  }

  predicate Intersects(a: Box, b: Box) {
    && a.Box? && b.Box?
    && !(a.xmin > b.xmax || a.xmax < b.xmin)
    && !(a.ymin > b.ymax || a.ymax < b.ymin)
  }

  /** `a` reaches at least as far as `b` on all four sides. */
  ghost predicate Covers(a: Box, b: Box) {
    b.Empty? || (a.Box? && a.xmin <= b.xmin && a.ymin <= b.ymin && a.xmax >= b.xmax && a.ymax >= b.ymax)
  }

  /** Extend is the least upper bound of the covering order. */
  lemma ExtendIsLeastCover(a: Box, b: Box, c: Box)
    ensures Covers(Extend(a, b), a) && Covers(Extend(a, b), b)
    ensures Covers(c, Extend(a, b)) <==> Covers(c, a) && Covers(c, b)
  {
  }

  lemma CoversTransitive(a: Box, b: Box, c: Box)
    requires Covers(a, b) && Covers(b, c)
    ensures Covers(a, c)
  {
  }

  lemma CoversIntersects(a: Box, b: Box, q: Box)
    requires Covers(a, b) && Intersects(b, q)
    ensures Intersects(a, q)
  {
  }

  function BoxOfItems(items: seq<Item>): Box {
    if items == [] then Empty
    else Extend(BoxOfItems(items[..|items| - 1]), items[|items| - 1].box)
  }

  function BoxOfSlots(slots: seq<Slot>): Box {
    if slots == [] then Empty
    else Extend(BoxOfSlots(slots[..|slots| - 1]), slots[|slots| - 1].childBox)
  }

  lemma {:induction false} BoxOfItemsCovers(items: seq<Item>, c: Box)
    ensures Covers(c, BoxOfItems(items)) <==> forall i :: 0 <= i < |items| ==> Covers(c, items[i].box)
  {
    if items != [] {
      var init := items[..|items| - 1];
      BoxOfItemsCovers(init, c);
      ExtendIsLeastCover(BoxOfItems(init), items[|items| - 1].box, c);
      assert forall i :: 0 <= i < |items| ==> items[i] == if i < |init| then init[i] else items[|items| - 1];
    }
  }

  lemma {:induction false} BoxOfSlotsCovers(slots: seq<Slot>, c: Box)
    ensures Covers(c, BoxOfSlots(slots)) <==> forall i :: 0 <= i < |slots| ==> Covers(c, slots[i].childBox)
  {
    if slots != [] {
      var init := slots[..|slots| - 1];
      BoxOfSlotsCovers(init, c);
      ExtendIsLeastCover(BoxOfSlots(init), slots[|slots| - 1].childBox, c);
      assert forall i :: 0 <= i < |slots| ==> slots[i] == if i < |init| then init[i] else slots[|slots| - 1];
    }
  }

  lemma BoxOfSlotsStep(slots: seq<Slot>, lo: nat, i: nat)
    requires lo <= i < |slots|
    ensures slots[lo..i + 1] == slots[lo..i] + [slots[i]]
    ensures BoxOfSlots(slots[lo..i + 1]) == Extend(BoxOfSlots(slots[lo..i]), slots[i].childBox)
  {
    assert slots[lo..i + 1][..i - lo] == slots[lo..i];
  }

  // ---------- Choosing a child ----------

  /** An area difference, as the floating-point code can meet it over real coordinates. */
  datatype Gain = MinusInfinity | Finite(r: real) | PlusInfinity | NotANumber

  function Area(b: Box): real
    requires b.Box?
  {
    (b.xmax - b.xmin) * (b.ymax - b.ymin)
  }

  /** The empty box has area (-inf) * (-inf), which is +inf. */
  function AreaIncrease(current: Box, added: Box): Gain {
    match (current, added)
    case (Box(_, _, _, _), _) => Finite(Area(Extend(current, added)) - Area(current))
    case (Empty, Box(_, _, _, _)) => MinusInfinity
    case (Empty, Empty) => NotANumber
  }

  predicate Less(a: Gain, b: Gain) {
    match (a, b)
    case (NotANumber, _) => false
    case (_, NotANumber) => false
    case (MinusInfinity, _) => b != MinusInfinity
    case (Finite(x), Finite(y)) => x < y
    case (Finite(_), PlusInfinity) => true
    case (_, _) => false
  }

  /** The scan of `r_tree_choose_subtree` over the first `n` slots: the index kept and its increase. */
  function BestOf(slots: seq<Slot>, box: Box, n: nat): (nat, Gain)
    requires n <= |slots|
  {
    if n == 0 then (0, PlusInfinity)
    else
      var best := BestOf(slots, box, n - 1);
      var gain := AreaIncrease(slots[n - 1].childBox, box);
      if Less(gain, best.1) then (n - 1, gain) else best
  }

  function Choose(slots: seq<Slot>, box: Box): nat {
    BestOf(slots, box, |slots|).0
  }

  /** The chosen child needs no more enlargement than any other, and is the first such child. */
  lemma {:induction false} ChooseIsFirstLeast(slots: seq<Slot>, box: Box, n: nat)
    requires n <= |slots|
    ensures n > 0 ==> BestOf(slots, box, n).0 < n
    ensures forall j :: 0 <= j < n ==> !Less(AreaIncrease(slots[j].childBox, box), BestOf(slots, box, n).1)
    ensures BestOf(slots, box, n).1 != NotANumber
    ensures BestOf(slots, box, n).1 != PlusInfinity ==>
              && n > 0
              && BestOf(slots, box, n).1 == AreaIncrease(slots[BestOf(slots, box, n).0].childBox, box)
              && forall j :: 0 <= j < BestOf(slots, box, n).0 ==>
                   AreaIncrease(slots[j].childBox, box) == NotANumber
                   || Less(BestOf(slots, box, n).1, AreaIncrease(slots[j].childBox, box))
    ensures BestOf(slots, box, n).1 == PlusInfinity ==> BestOf(slots, box, n).0 == 0
  {
    if n > 0 {
      ChooseIsFirstLeast(slots, box, n - 1);
    }
  }

  function Growth(box: Box, added: Box): real
    requires box.Box? && added.Box?
  {
    var width := (if added.xmax > box.xmax then added.xmax else box.xmax) - (if added.xmin < box.xmin then added.xmin else box.xmin);
    var height := (if added.ymax > box.ymax then added.ymax else box.ymax) - (if added.ymin < box.ymin then added.ymin else box.ymin);
    width * height - (box.xmax - box.xmin) * (box.ymax - box.ymin)
  }

  /** Among children that have boxes, the first is chosen whose area grows least when its box is stretched to the item. */
  lemma ChosenGrowsLeast(slots: seq<Slot>, box: Box)
    requires slots != [] && box.Box? && forall j :: 0 <= j < |slots| ==> slots[j].childBox.Box?
    ensures var c := Choose(slots, box);
            && c < |slots|
            && (forall j :: 0 <= j < |slots| ==> Growth(slots[c].childBox, box) <= Growth(slots[j].childBox, box))
            && (forall j :: 0 <= j < c ==> Growth(slots[c].childBox, box) < Growth(slots[j].childBox, box))
  {
    hide BestOf, Growth;
    ChooseIsFirstLeast(slots, box, |slots|);
    forall j | 0 <= j < |slots|
      ensures AreaIncrease(slots[j].childBox, box) == Finite(Growth(slots[j].childBox, box))
    {
      GrowthIsIncrease(slots[j].childBox, box);
    }
    assert !Less(AreaIncrease(slots[0].childBox, box), BestOf(slots, box, |slots|).1);
  }

  lemma GrowthIsIncrease(box: Box, added: Box)
    requires box.Box? && added.Box?
    ensures AreaIncrease(box, added) == Finite(Growth(box, added))
  {
  }

  // ---------- Shape ----------

  /** A non-root subtree of height `h`: all leaves at the same depth, 4 to 8 entries everywhere. */
  ghost predicate Subtree(t: Tree, h: nat)
    decreases t
  {
    match t
    case Leaf(_, items) => h == 1 && 4 <= |items| <= MAX_CHILDREN
    case Node(_, slots) =>
      h > 1 && 4 <= |slots| <= MAX_CHILDREN && forall i :: 0 <= i < |slots| ==> Subtree(slots[i].child, h - 1)
  }

  ghost predicate AllSubtrees(slots: seq<Slot>, h: nat) {
    forall i :: 0 <= i < |slots| ==> Subtree(slots[i].child, h)
  }

  /** A whole tree of height `h`: as above, but the root may hold fewer entries. */
  ghost predicate Rooted(t: Tree, h: nat) {
    match t
    case Leaf(_, items) => h == 1 && |items| <= MAX_CHILDREN
    case Node(_, slots) => h > 1 && 2 <= |slots| <= MAX_CHILDREN && AllSubtrees(slots, h - 1)
  }

  /** What the recursive insert needs of a node, root or not. */
  ghost predicate Insertable(t: Tree)
    decreases t
  {
    match t
    case Leaf(_, items) => |items| <= MAX_CHILDREN
    case Node(_, slots) =>
      && 1 <= |slots| <= MAX_CHILDREN
      && forall i :: 0 <= i < |slots| ==> Insertable(slots[i].child)
  }

  lemma {:induction false} SubtreeIsInsertable(t: Tree, h: nat)
    requires Subtree(t, h)
    ensures Insertable(t)
    decreases t
  {
    if t.Node? {
      forall i | 0 <= i < |t.slots| ensures Insertable(t.slots[i].child) {
        SubtreeIsInsertable(t.slots[i].child, h - 1);
      }
    }
  }

  lemma RootedIsInsertable(t: Tree, h: nat)
    requires Rooted(t, h)
    ensures Insertable(t)
  {
    if t.Node? {
      forall i | 0 <= i < |t.slots| ensures Insertable(t.slots[i].child) {
        SubtreeIsInsertable(t.slots[i].child, h - 1);
      }
    }
  }

  // ---------- Insert ----------

  function AddItem(box: Box, items: seq<Item>, item: Item): Grown {
    if |items| < MAX_CHILDREN then
      Grown(Leaf(Extend(box, item.box), items + [item]), None)
    else
      var half := |items| / 2;
      Grown(Leaf(Extend(BoxOfItems(items[..half]), item.box), items[..half] + [item]),
            Some(Leaf(BoxOfItems(items[half..]), items[half..])))
  }

  function AddSlot(box: Box, slots: seq<Slot>, slot: Slot): Grown {
    if |slots| < MAX_CHILDREN then
      Grown(Node(Extend(box, slot.childBox), slots + [slot]), None)
    else
      var half := |slots| / 2;
      Grown(Node(Extend(BoxOfSlots(slots[..half]), slot.childBox), slots[..half] + [slot]),
            Some(Node(BoxOfSlots(slots[half..]), slots[half..])))
  }

  /**
    `r_tree_insert_recursive`. With `refresh` false this is the code as written: when the child
    splits, the parent keeps the child's old box copy and its own box only learns of the new
    sibling. With `refresh` true the branch first refreshes both, as the other branch does.
  */
  function Insert(t: Tree, item: Item, refresh: bool): Grown
    requires Insertable(t)
    decreases t
  {
    match t
    case Leaf(box, items) => AddItem(box, items, item)
    case Node(box, slots) =>
      var c := Choose(slots, item.box);
      ChooseIsFirstLeast(slots, item.box, |slots|);
      var below := Insert(slots[c].child, item, refresh);
      var updated := slots[c := Slot(below.node, below.node.box)];
      if below.extra.None? then
        Grown(Node(BoxOfSlots(updated), updated), None)
      else
        var sibling := Slot(below.extra.value, below.extra.value.box);
        if refresh then AddSlot(BoxOfSlots(updated), updated, sibling)
        else AddSlot(box, slots[c := Slot(below.node, slots[c].childBox)], sibling)
  }

  /** `Insert` at an internal node in the order the code writes it: first the child, then the copy of its box. */
  lemma InsertInSteps(t: Tree, item: Item, c: nat)
    requires Insertable(t) && t.Node? && c == Choose(t.slots, item.box) && c < |t.slots|
    ensures var below := Insert(t.slots[c].child, item, false);
            var kept := t.slots[c := Slot(below.node, t.slots[c].childBox)];
            var updated := kept[c := Slot(kept[c].child, kept[c].child.box)];
            Insert(t, item, false) ==
            if below.extra.None? then Grown(Node(BoxOfSlots(updated), updated), None)
            else AddSlot(t.box, kept, Slot(below.extra.value, below.extra.value.box))
  {
    var below := Insert(t.slots[c].child, item, false);
    var kept := t.slots[c := Slot(below.node, t.slots[c].childBox)];
    assert kept[c := Slot(kept[c].child, kept[c].child.box)] == t.slots[c := Slot(below.node, below.node.box)];
  }

  /** The new root made when the old one splits. */
  function Regrow(g: Grown): Tree {
    match g.extra
    case None => g.node
    case Some(extra) =>
      Node(Extend(g.node.box, extra.box), [Slot(g.node, g.node.box), Slot(extra, extra.box)])
  }

  datatype RTree = RTree(root: Tree, height: nat, itemCount: nat)

  const EMPTY_TREE := RTree(Leaf(Empty, []), 1, 0)

  function InsertAtRoot(t: RTree, item: Item, refresh: bool): RTree
    requires Insertable(t.root)
  {
    var g := Insert(t.root, item, refresh);
    RTree(Regrow(g), if g.extra.Some? then t.height + 1 else t.height, t.itemCount + 1)
  }

  /** Adding an entry to a node of at least four keeps both results within bounds. */
  lemma AddSlotKeepsSubtrees(box: Box, slots: seq<Slot>, slot: Slot, h: nat)
    requires 1 <= |slots| <= MAX_CHILDREN && AllSubtrees(slots, h) && Subtree(slot.child, h) && h > 0
    ensures var g := AddSlot(box, slots, slot);
            && g.node.Node? && AllSubtrees(g.node.slots, h) && |g.node.slots| <= MAX_CHILDREN
            && |g.node.slots| >= (if |slots| < 4 then |slots| + 1 else 4)
            && (g.extra.Some? ==> Subtree(g.node, h + 1) && Subtree(g.extra.value, h + 1))
  {
  }

  /** What an insert into child `c` hands to `AddSlot`, or leaves as the new slots. */
  lemma ReplaceKeepsSubtrees(slots: seq<Slot>, c: nat, slot: Slot, h: nat)
    requires c < |slots| && AllSubtrees(slots, h) && Subtree(slot.child, h)
    ensures AllSubtrees(slots[c := slot], h)
  {
  }

  /** Inserting into a non-root subtree gives a subtree of the same height, and so is any sibling split off. */
  lemma {:induction false} InsertKeepsSubtree(t: Tree, item: Item, refresh: bool, h: nat)
    requires Insertable(t) && Subtree(t, h)
    ensures Subtree(Insert(t, item, refresh).node, h)
    ensures Insert(t, item, refresh).extra.Some? ==> Subtree(Insert(t, item, refresh).extra.value, h)
    decreases t
  {
    if t.Node? {
      InsertKeepsChildren(t, item, refresh, h);
    }
  }

  lemma {:induction false} InsertKeepsChildren(t: Tree, item: Item, refresh: bool, h: nat)
    requires Insertable(t) && t.Node? && h > 1 && |t.slots| <= MAX_CHILDREN && AllSubtrees(t.slots, h - 1)
    ensures var g := Insert(t, item, refresh);
            && g.node.Node? && AllSubtrees(g.node.slots, h - 1)
            && (if |t.slots| < 4 then |t.slots| else 4) <= |g.node.slots| <= MAX_CHILDREN
            && (g.extra.Some? ==> Subtree(g.node, h) && Subtree(g.extra.value, h))
    decreases t, 0
  {
    var slots := t.slots;
    var c := Choose(slots, item.box);
    ChooseIsFirstLeast(slots, item.box, |slots|);
    InsertKeepsSubtree(slots[c].child, item, refresh, h - 1);
    var below := Insert(slots[c].child, item, refresh);
    var kept := Slot(below.node, if refresh || below.extra.None? then below.node.box else slots[c].childBox);
    var updated := slots[c := kept];
    ReplaceKeepsSubtrees(slots, c, kept, h - 1);
    if below.extra.Some? {
      AddSlotKeepsSubtrees(if refresh then BoxOfSlots(updated) else t.box, updated,
                           Slot(below.extra.value, below.extra.value.box), h - 1);
    }
  }

  /** Every insert keeps the whole tree balanced and filled; the height grows exactly when the root splits. */
  lemma InsertKeepsRooted(t: RTree, item: Item, refresh: bool)
    requires Rooted(t.root, t.height) && Insertable(t.root)
    ensures Rooted(InsertAtRoot(t, item, refresh).root, InsertAtRoot(t, item, refresh).height)
  {
    if t.root.Node? {
      InsertKeepsChildren(t.root, item, refresh, t.height);
    }
  }

  // ---------- Contents ----------

  /** The items below a node, in the order the query visits them. */
  function Items(t: Tree): seq<Item>
    decreases t
  {
    match t
    case Leaf(_, items) => items
    case Node(_, slots) => ItemsOfSlots(slots)
  }

  function ItemsOfSlots(slots: seq<Slot>): seq<Item>
    decreases slots
  {
    if slots == [] then []
    else ItemsOfSlots(slots[..|slots| - 1]) + ItemsUnder(slots[|slots| - 1])
  }

  function ItemsUnder(slot: Slot): seq<Item>
    decreases slot
  {
    Items(slot.child)
  }

  lemma {:induction false} ItemsOfSlotsConcat(a: seq<Slot>, b: seq<Slot>)
    ensures ItemsOfSlots(a + b) == ItemsOfSlots(a) + ItemsOfSlots(b)
  {
    if b == [] {
      assert a + b == a;
    } else {
      var init := b[..|b| - 1];
      assert (a + b)[..|a + b| - 1] == a + init;
      ItemsOfSlotsConcat(a, init);
    }
  }

  lemma ItemsOfOneSlot(slot: Slot)
    ensures ItemsOfSlots([slot]) == Items(slot.child)
  {
    assert [slot][..0] == [];
    assert ItemsOfSlots([slot]) == ItemsOfSlots([slot][..0]) + ItemsUnder(slot);
  }

  /** The contents with entry `c` replaced, split around that entry. */
  lemma ItemsAround(slots: seq<Slot>, c: nat, slot: Slot)
    requires c < |slots|
    ensures ItemsOfSlots(slots[c := slot])
         == ItemsOfSlots(slots[..c]) + Items(slot.child) + ItemsOfSlots(slots[c + 1..])
  {
    ItemsOfSlotsConcat(slots[..c] + [slot], slots[c + 1..]);
    ItemsOfSlotsConcat(slots[..c], [slot]);
    ItemsOfOneSlot(slot);
    assert slots[c := slot] == slots[..c] + [slot] + slots[c + 1..];
  }

  /** The items of a node together with those of the sibling split off it. */
  function GrownItems(g: Grown): multiset<Item> {
    multiset(Items(g.node)) + if g.extra.Some? then multiset(Items(g.extra.value)) else multiset{}
  }

  lemma AddSlotItems(box: Box, slots: seq<Slot>, slot: Slot)
    requires |slots| <= MAX_CHILDREN
    ensures GrownItems(AddSlot(box, slots, slot)) == multiset(ItemsOfSlots(slots)) + multiset(Items(slot.child))
  {
    ItemsOfOneSlot(slot);
    if |slots| < MAX_CHILDREN {
      ItemsOfSlotsConcat(slots, [slot]);
    } else {
      var left, right := slots[..4], slots[4..];
      assert slots == left + right;
      ItemsOfSlotsConcat(left, right);
      ItemsOfSlotsConcat(left, [slot]);
    }
  }

  lemma AddItemItems(box: Box, items: seq<Item>, item: Item)
    requires |items| <= MAX_CHILDREN
    ensures GrownItems(AddItem(box, items, item)) == multiset(items) + multiset{item}
  {
    assert items == items[..|items| / 2] + items[|items| / 2..];
  }

  /** No item is lost, duplicated or altered: the contents grow by exactly the inserted item. */
  lemma {:induction false} InsertConserves(t: Tree, item: Item, refresh: bool)
    requires Insertable(t)
    ensures GrownItems(Insert(t, item, refresh)) == multiset(Items(t)) + multiset{item}
    decreases t
  {
    match t
    case Leaf(box, items) => AddItemItems(box, items, item);
    case Node(box, slots) =>
      var c := Choose(slots, item.box);
      ChooseIsFirstLeast(slots, item.box, |slots|);
      var below := Insert(slots[c].child, item, refresh);
      InsertConserves(slots[c].child, item, refresh);
      hide ItemsOfSlots, BestOf, AddSlot;
      var kept := Slot(below.node, if refresh || below.extra.None? then below.node.box else slots[c].childBox);
      ReplacedItems(slots, c, kept);
      Exchange(multiset(ItemsOfSlots(slots[c := kept])), multiset(ItemsOfSlots(slots)), multiset(Items(slots[c].child)),
               multiset(Items(below.node)), GrownItems(below) - multiset(Items(below.node)), multiset{item});
      if below.extra.Some? {
        AddSlotItems(if refresh then BoxOfSlots(slots[c := kept]) else box, slots[c := kept],
                     Slot(below.extra.value, below.extra.value.box));
      }
  }

  lemma Exchange<T(!new)>(total': multiset<T>, total: multiset<T>, part: multiset<T>, part': multiset<T>,
                    split: multiset<T>, added: multiset<T>)
    requires total' + part == total + part' && part' + split == part + added
    ensures total' + split == total + added
  {
    forall x: T ensures (total' + split)[x] == (total + added)[x] {
      assert (total' + part)[x] == (total + part')[x] && (part' + split)[x] == (part + added)[x];
    }
  }

  lemma ReplacedItems(slots: seq<Slot>, c: nat, slot: Slot)
    requires c < |slots|
    ensures multiset(ItemsOfSlots(slots[c := slot])) + multiset(Items(slots[c].child))
         == multiset(ItemsOfSlots(slots)) + multiset(Items(slot.child))
  {
    ItemsAround(slots, c, slot);
    ItemsAround(slots, c, slots[c]);
    assert slots[c := slots[c]] == slots;
  }

  // ---------- Size ----------

  function Pow4(n: nat): nat {
    if n == 0 then 1 else 4 * Pow4(n - 1)
  }

  lemma {:induction false} SubtreeSize(t: Tree, h: nat)
    requires Subtree(t, h)
    ensures |Items(t)| >= Pow4(h)
    decreases t, 0
  {
    if t.Node? {
      SlotsSize(t, t.slots, h - 1);
    } else {
      assert Pow4(1) == 4 * Pow4(0);
    }
  }

  lemma {:induction false} SlotsSize(t: Tree, slots: seq<Slot>, h: nat)
    requires t.Node? && slots <= t.slots && AllSubtrees(t.slots, h)
    ensures |ItemsOfSlots(slots)| >= |slots| * Pow4(h)
    decreases t, 0, |slots|
  {
    if slots != [] {
      SlotsSize(t, slots[..|slots| - 1], h);
      assert slots[|slots| - 1] == t.slots[|slots| - 1];
      SubtreeSize(t.slots[|slots| - 1].child, h);
      hide Items, ItemsOfSlots, Pow4, Subtree;
      var size := Pow4(h);
      assert (|slots| - 1) * size + size == |slots| * size;
    }
  }

  // ---------- Runs ----------

  /** The tree after inserting `items` one by one into a new tree. */
  ghost function Run(items: seq<Item>, refresh: bool): (t: RTree)
    ensures Rooted(t.root, t.height) && Insertable(t.root)
  {
    if items == [] then EMPTY_TREE
    else
      var prev := Run(items[..|items| - 1], refresh);
      InsertKeepsRooted(prev, items[|items| - 1], refresh);
      var next := InsertAtRoot(prev, items[|items| - 1], refresh);
      RootedIsInsertable(next.root, next.height);
      next
  }

  lemma RegrowItems(g: Grown)
    ensures multiset(Items(Regrow(g))) == GrownItems(g)
  {
    if g.extra.Some? {
      var a, b := Slot(g.node, g.node.box), Slot(g.extra.value, g.extra.value.box);
      ItemsOfSlotsConcat([a], [b]);
      ItemsOfOneSlot(a);
      ItemsOfOneSlot(b);
      assert [a, b] == [a] + [b];
    }
  }

  lemma {:induction false} RunContents(items: seq<Item>, refresh: bool)
    ensures multiset(Items(Run(items, refresh).root)) == multiset(items)
    ensures Run(items, refresh).itemCount == |items|
  {
    if items != [] {
      var init, last := items[..|items| - 1], items[|items| - 1];
      RunContents(init, refresh);
      hide Insert, Insertable, Items, Rooted;
      InsertConserves(Run(init, refresh).root, last, refresh);
      RegrowItems(Insert(Run(init, refresh).root, last, refresh));
      assert items == init + [last];
    }
  }

  lemma HeightBound(t: RTree)
    requires Rooted(t.root, t.height) && t.height >= 2
    ensures 2 * Pow4(t.height - 1) <= |Items(t.root)|
  {
    SlotsSize(t.root, t.root.slots, t.height - 1);
  }

  /**
    After any sequence of inserts, as written or refreshed: the tree is balanced and filled, it
    holds exactly the inserted items, the counter is their number, and the height is logarithmic.
  */
  lemma RunShape(items: seq<Item>, refresh: bool)
    ensures var t := Run(items, refresh);
            && Rooted(t.root, t.height)
            && multiset(Items(t.root)) == multiset(items)
            && t.itemCount == |items|
            && (t.height >= 2 ==> 2 * Pow4(t.height - 1) <= t.itemCount)
  {
    var t := Run(items, refresh);
    RunContents(items, refresh);
    assert |multiset(Items(t.root))| == |multiset(items)|;
    if t.height >= 2 {
      HeightBound(t);
    }
  }

  // ---------- Query ----------

  /** The linear scan: values of the items whose box meets the query box, in order. */
  function Scan(items: seq<Item>, q: Box): seq<string> {
    if items == [] then []
    else
      var last := items[|items| - 1];
      Scan(items[..|items| - 1], q) + if Intersects(last.box, q) then [last.value] else []
  }

  /** `r_tree_query_recursive`: a node whose box misses the query is not entered. */
  function Query(t: Tree, q: Box): seq<string>
    decreases t
  {
    if !Intersects(t.box, q) then []
    else match t
      case Leaf(_, items) => Scan(items, q)
      case Node(_, slots) => QuerySlots(slots, q)
  }

  function QuerySlots(slots: seq<Slot>, q: Box): seq<string>
    decreases slots
  {
    if slots == [] then []
    else QuerySlots(slots[..|slots| - 1], q) + QueryUnder(slots[|slots| - 1], q)
  }

  function QueryUnder(slot: Slot, q: Box): seq<string>
    decreases slot
  {
    Query(slot.child, q)
  }

  lemma {:induction false} ScanConcat(a: seq<Item>, b: seq<Item>, q: Box)
    ensures Scan(a + b, q) == Scan(a, q) + Scan(b, q)
  {
    if b == [] {
      assert a + b == a;
    } else {
      ScanConcat(a, b[..|b| - 1], q);
      assert (a + b)[..|a + b| - 1] == a + b[..|b| - 1];
    }
  }

  lemma {:induction false} ScanNothing(items: seq<Item>, q: Box)
    requires forall i :: 0 <= i < |items| ==> !Intersects(items[i].box, q)
    ensures Scan(items, q) == []
  {
    if items != [] {
      ScanNothing(items[..|items| - 1], q);
    }
  }

  lemma {:induction false} ScanSomething(items: seq<Item>, q: Box, i: nat)
    requires i < |items| && Intersects(items[i].box, q)
    ensures |Scan(items, q)| > 0
  {
    if i < |items| - 1 {
      ScanSomething(items[..|items| - 1], q, i);
    }
  }

  /** Every node's box reaches around every item below it. */
  ghost predicate Reaches(t: Tree)
    decreases t
  {
    && (forall i :: 0 <= i < |Items(t)| ==> Covers(t.box, Items(t)[i].box))
    && (t.Node? ==> forall i :: 0 <= i < |t.slots| ==> Reaches(t.slots[i].child))
  }

  /** Soundness, whatever the boxes: the pruned query only returns what the scan returns. */
  lemma {:induction false} QuerySound(t: Tree, q: Box)
    ensures multiset(Query(t, q)) <= multiset(Scan(Items(t), q))
    ensures |Query(t, q)| <= |Scan(Items(t), q)|
    decreases t, 0
  {
    if t.Node? {
      QuerySlotsSound(t, t.slots, q);
    }
  }

  lemma {:induction false} QuerySlotsSound(t: Tree, slots: seq<Slot>, q: Box)
    requires t.Node? && slots <= t.slots
    ensures multiset(QuerySlots(slots, q)) <= multiset(Scan(ItemsOfSlots(slots), q))
    ensures |QuerySlots(slots, q)| <= |Scan(ItemsOfSlots(slots), q)|
    decreases t, 0, |slots|
  {
    if slots != [] {
      var init, last := slots[..|slots| - 1], t.slots[|slots| - 1].child;
      assert slots[|slots| - 1] == t.slots[|slots| - 1];
      QuerySlotsSound(t, init, q);
      QuerySound(last, q);
      ScanConcat(ItemsOfSlots(init), Items(last), q);
    }
  }

  lemma {:induction false} QueryComplete(t: Tree, q: Box)
    requires Reaches(t)
    ensures Query(t, q) == Scan(Items(t), q)
    decreases t, 0
  {
    if !Intersects(t.box, q) {
      forall i | 0 <= i < |Items(t)| ensures !Intersects(Items(t)[i].box, q) {
        if Intersects(Items(t)[i].box, q) {
          CoversIntersects(t.box, Items(t)[i].box, q);
        }
      }
      ScanNothing(Items(t), q);
    } else if t.Node? {
      QuerySlotsComplete(t, t.slots, q);
    }
  }

  lemma {:induction false} QuerySlotsComplete(t: Tree, slots: seq<Slot>, q: Box)
    requires t.Node? && slots <= t.slots && Reaches(t)
    ensures QuerySlots(slots, q) == Scan(ItemsOfSlots(slots), q)
    decreases t, 0, |slots|
  {
    if slots != [] {
      var init, last := slots[..|slots| - 1], t.slots[|slots| - 1].child;
      assert slots[|slots| - 1] == t.slots[|slots| - 1];
      QuerySlotsComplete(t, init, q);
      QueryComplete(last, q);
      ScanConcat(ItemsOfSlots(init), Items(last), q);
    }
  }

  /** A box that meets `b` and nothing that fails to cover `b`: the box that touches it from the uncovered side. */
  lemma Separating(a: Box, b: Box) returns (q: Box)
    requires !Covers(a, b)
    ensures Intersects(b, q) && !Intersects(a, q)
  {
    q := Box(b.xmax, b.ymax, b.xmin, b.ymin);
  }

  /** If some box falls short, some query misses an item there. */
  lemma {:induction false} QueryIncomplete(t: Tree) returns (q: Box)
    requires !Reaches(t)
    ensures |Query(t, q)| < |Scan(Items(t), q)|
    decreases t
  {
    if i :| 0 <= i < |Items(t)| && !Covers(t.box, Items(t)[i].box) {
      q := Separating(t.box, Items(t)[i].box);
      ScanSomething(Items(t), q, i);
    } else {
      var i :| 0 <= i < |t.slots| && !Reaches(t.slots[i].child);
      q := QueryIncomplete(t.slots[i].child);
      QuerySlotsMiss(t, i, t.slots, q);
    }
  }

  lemma {:induction false} QuerySlotsMiss(t: Tree, i: nat, slots: seq<Slot>, q: Box)
    requires t.Node? && slots <= t.slots && i < |slots|
    requires |Query(t.slots[i].child, q)| < |Scan(Items(t.slots[i].child), q)|
    ensures |QuerySlots(slots, q)| < |Scan(ItemsOfSlots(slots), q)|
  {
    var init, last := slots[..|slots| - 1], t.slots[|slots| - 1].child;
    assert slots[|slots| - 1] == t.slots[|slots| - 1];
    ScanConcat(ItemsOfSlots(init), Items(last), q);
    if i == |slots| - 1 {
      QuerySlotsSound(t, init, q);
    } else {
      QuerySlotsMiss(t, i, init, q);
      QuerySound(last, q);
    }
  }

  /** Pruning is exact for every query box if and only if every box reaches around what lies below it. */
  lemma QueryExact(t: Tree)
    ensures (forall q :: Query(t, q) == Scan(Items(t), q)) <==> Reaches(t)
  {
    if Reaches(t) {
      forall q ensures Query(t, q) == Scan(Items(t), q) {
        QueryComplete(t, q);
      }
    } else {
      var q := QueryIncomplete(t);
      assert Query(t, q) != Scan(Items(t), q);
    }
  }

  // ---------- Boxes kept current by inserts ----------

  /**
    Every node's box covers the box copies it keeps, and every copy covers the child's own box:
    the condition under which later inserts may rebuild boxes from copies.
  */
  ghost predicate Covered(t: Tree)
    decreases t
  {
    match t
    case Leaf(box, items) => forall i :: 0 <= i < |items| ==> Covers(box, items[i].box)
    case Node(box, slots) =>
      && (forall i :: 0 <= i < |slots| ==> Covers(box, slots[i].childBox))
      && (forall i :: 0 <= i < |slots| ==> Covers(slots[i].childBox, slots[i].child.box))
      && (forall i :: 0 <= i < |slots| ==> Covered(slots[i].child))
  }

  ghost predicate GrownCovered(g: Grown) {
    Covered(g.node) && (g.extra.Some? ==> Covered(g.extra.value))
  }

  ghost predicate CoveredSlots(slots: seq<Slot>) {
    && (forall i :: 0 <= i < |slots| ==> Covers(slots[i].childBox, slots[i].child.box))
    && (forall i :: 0 <= i < |slots| ==> Covered(slots[i].child))
  }

  lemma {:induction false} CoveredCoversItems(t: Tree)
    requires Covered(t)
    ensures forall i :: 0 <= i < |Items(t)| ==> Covers(t.box, Items(t)[i].box)
    decreases t, 0
  {
    if t.Node? {
      CoveredSlotsCover(t, t.slots);
    }
  }

  lemma {:induction false} CoveredSlotsCover(t: Tree, slots: seq<Slot>)
    requires t.Node? && slots <= t.slots && Covered(t)
    ensures forall i :: 0 <= i < |ItemsOfSlots(slots)| ==> Covers(t.box, ItemsOfSlots(slots)[i].box)
    decreases t, 0, |slots|
  {
    if slots != [] {
      var init, last := slots[..|slots| - 1], t.slots[|slots| - 1];
      assert slots[|slots| - 1] == last;
      CoveredSlotsCover(t, init);
      CoveredCoversItems(last.child);
      CoversTransitive(t.box, last.childBox, last.child.box);
      var below := Items(last.child);
      assert ItemsOfSlots(slots) == ItemsOfSlots(init) + below;
      forall i | 0 <= i < |below| ensures Covers(t.box, below[i].box) {
        CoversTransitive(t.box, last.child.box, below[i].box);
      }
    }
  }

  lemma {:induction false} CoveredReaches(t: Tree)
    requires Covered(t)
    ensures Reaches(t)
    decreases t
  {
    CoveredCoversItems(t);
    if t.Node? {
      forall i | 0 <= i < |t.slots| ensures Reaches(t.slots[i].child) {
        CoveredReaches(t.slots[i].child);
      }
    }
  }

  lemma AddItemCovered(box: Box, items: seq<Item>, item: Item)
    requires |items| <= MAX_CHILDREN && Covered(Leaf(box, items))
    ensures GrownCovered(AddItem(box, items, item))
    ensures Covers(AddItem(box, items, item).node.box, item.box)
  {
    var half := |items| / 2;
    BoxOfItemsCovers(items[..half], BoxOfItems(items[..half]));
    BoxOfItemsCovers(items[half..], BoxOfItems(items[half..]));
  }

  lemma AddSlotCovered(box: Box, slots: seq<Slot>, slot: Slot)
    requires |slots| <= MAX_CHILDREN && CoveredSlots(slots) && CoveredSlots([slot])
    requires forall i :: 0 <= i < |slots| ==> Covers(box, slots[i].childBox)
    ensures GrownCovered(AddSlot(box, slots, slot))
  {
    hide BoxOfSlots;
    assert [slot][0] == slot;
    if |slots| < MAX_CHILDREN {
      NodeCovered(box, slots, slot);
    } else {
      var left, right := slots[..|slots| / 2], slots[|slots| / 2..];
      BoxOfSlotsCovers(left, BoxOfSlots(left));
      BoxOfSlotsCovers(right, BoxOfSlots(right));
      NodeCovered(BoxOfSlots(left), left, slot);
    }
  }

  lemma NodeCovered(box: Box, slots: seq<Slot>, slot: Slot)
    requires CoveredSlots(slots) && Covers(slot.childBox, slot.child.box) && Covered(slot.child)
    requires forall i :: 0 <= i < |slots| ==> Covers(box, slots[i].childBox)
    ensures Covered(Node(Extend(box, slot.childBox), slots + [slot]))
  {
    hide Extend;
    var node := Node(Extend(box, slot.childBox), slots + [slot]);
    ExtendIsLeastCover(box, slot.childBox, node.box);
    forall i | 0 <= i < |node.slots| ensures Covers(node.box, node.slots[i].childBox) {
      if i < |slots| {
        CoversTransitive(node.box, box, slots[i].childBox);
      }
    }
  }

  /** Slots with one entry replaced by a fresh copy, and the box rebuilt from them. */
  lemma RebuiltCovered(slots: seq<Slot>, c: nat, child: Tree)
    requires c < |slots| && CoveredSlots(slots) && Covered(child)
    ensures var updated := slots[c := Slot(child, child.box)];
            CoveredSlots(updated) && Covered(Node(BoxOfSlots(updated), updated))
    ensures var updated := slots[c := Slot(child, child.box)];
            forall i :: 0 <= i < |updated| ==> Covers(BoxOfSlots(updated), updated[i].childBox)
  {
    var updated := slots[c := Slot(child, child.box)];
    BoxOfSlotsCovers(updated, BoxOfSlots(updated));
  }

  /** The child box that holds after the child took the item: no larger than the old one stretched to the item. */
  lemma {:induction false} InsertBoxBound(t: Tree, item: Item, refresh: bool)
    requires Insertable(t) && Covered(t)
    ensures var g := Insert(t, item, refresh);
            && Covers(Extend(t.box, item.box), g.node.box)
            && (g.extra.Some? ==> Covers(Extend(t.box, item.box), g.extra.value.box))
    decreases t
  {
    var reach := Extend(t.box, item.box);
    ExtendIsLeastCover(t.box, item.box, reach);
    match t
    case Leaf(box, items) =>
      forall i | 0 <= i < |items| ensures Covers(reach, items[i].box) {
        CoversTransitive(reach, box, items[i].box);
      }
      BoxOfItemsCovers(items[..|items| / 2], reach);
      BoxOfItemsCovers(items[|items| / 2..], reach);
    case Node(box, slots) =>
      var c := Choose(slots, item.box);
      ChooseIsFirstLeast(slots, item.box, |slots|);
      InsertBoxBound(slots[c].child, item, refresh);
      var below := Insert(slots[c].child, item, refresh);
      SlotsReach(t, item, c);
      var bound := Extend(slots[c].child.box, item.box);
      CoversTransitive(reach, bound, below.node.box);
      BoxOfSlotsCovers(slots[c := Slot(below.node, below.node.box)], reach);
      if below.extra.Some? {
        CoversTransitive(reach, bound, below.extra.value.box);
        var sibling := Slot(below.extra.value, below.extra.value.box);
        if refresh {
          AddSlotBound(BoxOfSlots(slots[c := Slot(below.node, below.node.box)]),
                       slots[c := Slot(below.node, below.node.box)], sibling, reach);
        } else {
          AddSlotBound(box, slots[c := Slot(below.node, slots[c].childBox)], sibling, reach);
        }
      }
  }

  lemma SlotsReach(t: Tree, item: Item, c: nat)
    requires t.Node? && Covered(t) && c < |t.slots|
    ensures forall i :: 0 <= i < |t.slots| ==> Covers(Extend(t.box, item.box), t.slots[i].childBox)
    ensures Covers(Extend(t.box, item.box), Extend(t.slots[c].child.box, item.box))
  {
    var reach := Extend(t.box, item.box);
    forall i | 0 <= i < |t.slots| ensures Covers(reach, t.slots[i].childBox) {
      CoversTransitive(reach, t.box, t.slots[i].childBox);
    }
    CoversTransitive(reach, t.slots[c].childBox, t.slots[c].child.box);
    ExtendIsLeastCover(t.slots[c].child.box, item.box, reach);
  }

  lemma AddSlotBound(box: Box, slots: seq<Slot>, slot: Slot, reach: Box)
    requires |slots| <= MAX_CHILDREN && Covers(reach, box) && Covers(reach, slot.childBox)
    requires forall i :: 0 <= i < |slots| ==> Covers(reach, slots[i].childBox)
    ensures var g := AddSlot(box, slots, slot);
            && Covers(reach, g.node.box) && (g.extra.Some? ==> Covers(reach, g.extra.value.box))
  {
    BoxOfSlotsCovers(slots[..|slots| / 2], reach);
    BoxOfSlotsCovers(slots[|slots| / 2..], reach);
  }

  /**
    The guard under which the code as written keeps boxes right: the leaf reached has room, or it
    is the root, or the copy of its box in the parent already covers the new item.
  */
  predicate SafeInsert(t: Tree, item: Item)
    requires Insertable(t)
    decreases t
  {
    t.Node? ==>
      var c := Choose(t.slots, item.box);
      ChooseIsFirstLeast(t.slots, item.box, |t.slots|);
      match t.slots[c].child
      case Leaf(_, items) => |items| < MAX_CHILDREN || CoversBox(t.slots[c].childBox, item.box)
      case Node(_, _) => SafeInsert(t.slots[c].child, item)
  }

  predicate CoversBox(a: Box, b: Box)
    ensures CoversBox(a, b) <==> Covers(a, b)
  {
    Extend(a, b) == a
  }

  /** When a child splits under a safe insert, the old copy of its box still covers what the child keeps. */
  lemma SplitStaysCovered(child: Tree, childBox: Box, item: Item)
    requires Insertable(child) && Covered(child) && Covers(childBox, child.box) && Covers(childBox, item.box)
    ensures Covers(childBox, Insert(child, item, false).node.box)
  {
    hide Insert, Covered, Insertable;
    InsertBoxBound(child, item, false);
    ExtendIsLeastCover(child.box, item.box, childBox);
    CoversTransitive(childBox, Extend(child.box, item.box), Insert(child, item, false).node.box);
  }

  /** A safe insert, as written, keeps every box right. */
  lemma {:induction false} SafeInsertCovers(t: Tree, item: Item)
    requires Insertable(t) && Covered(t) && SafeInsert(t, item)
    ensures GrownCovered(Insert(t, item, false))
    ensures t.Node? && Insert(t, item, false).extra.Some? ==> Covers(t.box, item.box)
    decreases t
  {
    if t.Leaf? {
      AddItemCovered(t.box, t.items, item);
    } else {
      var c := Choose(t.slots, item.box);
      ChooseIsFirstLeast(t.slots, item.box, |t.slots|);
      var child := t.slots[c].child;
      if child.Node? {
        SafeInsertCovers(child, item);
      } else {
        AddItemCovered(child.box, child.items, item);
      }
      SafeStep(t, item, c);
    }
  }

  lemma SafeStep(t: Tree, item: Item, c: nat)
    requires t.Node? && Insertable(t) && Covered(t) && c == Choose(t.slots, item.box) && c < |t.slots|
    requires GrownCovered(Insert(t.slots[c].child, item, false))
    requires Insert(t.slots[c].child, item, false).extra.Some? ==>
               Covers(t.slots[c].childBox, item.box)
               || (t.slots[c].child.Node? && Covers(t.slots[c].child.box, item.box))
    ensures GrownCovered(Insert(t, item, false))
    ensures Insert(t, item, false).extra.Some? ==> Covers(t.box, item.box)
  {
    hide BestOf, AddSlot, BoxOfSlots;
    var child, childBox := t.slots[c].child, t.slots[c].childBox;
    var below := Insert(child, item, false);
    if below.extra.None? {
      RebuiltCovered(t.slots, c, below.node);
    } else {
      if !Covers(childBox, item.box) {
        CoversTransitive(childBox, child.box, item.box);
      }
      CoversTransitive(t.box, childBox, item.box);
      SplitStaysCovered(child, childBox, item);
      AddSlotCovered(t.box, t.slots[c := Slot(below.node, childBox)], Slot(below.extra.value, below.extra.value.box));
    }
  }

  lemma AddSlotUncovered(box: Box, slots: seq<Slot>, slot: Slot, i: nat)
    requires |slots| <= MAX_CHILDREN && i < |slots + [slot]|
    requires var s := (slots + [slot])[i]; !Covers(s.childBox, s.child.box) || !Covered(s.child)
    ensures !GrownCovered(AddSlot(box, slots, slot))
  {
    var g := AddSlot(box, slots, slot);
    if g.extra.None? {
      assert g.node.slots[i] == (slots + [slot])[i];
    } else if i == |slots| {
      assert g.node.slots[4] == slot;
    } else if i < 4 {
      assert g.node.slots[i] == slots[i];
    } else {
      assert g.extra.value.slots[i - 4] == slots[i];
    }
  }

  /** An unsafe insert, as written, always leaves a box that no longer covers the new item. */
  lemma {:induction false} UnsafeInsertUncovers(t: Tree, item: Item)
    requires Insertable(t) && Covered(t) && !SafeInsert(t, item)
    ensures !GrownCovered(Insert(t, item, false))
    decreases t
  {
    var c := Choose(t.slots, item.box);
    ChooseIsFirstLeast(t.slots, item.box, |t.slots|);
    var child, childBox := t.slots[c].child, t.slots[c].childBox;
    var below := Insert(child, item, false);
    if child.Leaf? {
      AddItemCovered(child.box, child.items, item);
      if Covers(childBox, below.node.box) {
        CoversTransitive(childBox, below.node.box, item.box);
      }
    } else {
      UnsafeInsertUncovers(child, item);
    }
    if below.extra.None? {
      assert t.slots[c := Slot(below.node, below.node.box)][c].child == below.node;
    } else {
      var kept := t.slots[c := Slot(below.node, childBox)];
      var sibling := Slot(below.extra.value, below.extra.value.box);
      if !Covers(childBox, below.node.box) || !Covered(below.node) {
        assert (kept + [sibling])[c] == Slot(below.node, childBox);
        AddSlotUncovered(t.box, kept, sibling, c);
      } else {
        assert (kept + [sibling])[|kept|] == sibling;
        AddSlotUncovered(t.box, kept, sibling, |kept|);
      }
    }
  }

  /** With the copy and the box refreshed on the split branch too, every insert keeps every box right. */
  lemma {:induction false} RefreshedInsertCovers(t: Tree, item: Item)
    requires Insertable(t) && Covered(t)
    ensures GrownCovered(Insert(t, item, true))
    decreases t
  {
    match t
    case Leaf(box, items) => AddItemCovered(box, items, item);
    case Node(box, slots) =>
      var c := Choose(slots, item.box);
      ChooseIsFirstLeast(slots, item.box, |slots|);
      RefreshedInsertCovers(slots[c].child, item);
      hide BestOf, AddSlot, BoxOfSlots;
      var below := Insert(slots[c].child, item, true);
      var updated := slots[c := Slot(below.node, below.node.box)];
      RebuiltCovered(slots, c, below.node);
      if below.extra.Some? {
        AddSlotCovered(BoxOfSlots(updated), updated, Slot(below.extra.value, below.extra.value.box));
      }
  }

  /** Exactly when one insert of the code as written keeps the boxes of a tree right. */
  lemma InsertCoversExactly(t: RTree, item: Item)
    requires Insertable(t.root) && Covered(t.root)
    ensures Covered(InsertAtRoot(t, item, false).root) <==> SafeInsert(t.root, item)
    ensures Covered(InsertAtRoot(t, item, true).root)
  {
    RegrowCovered(Insert(t.root, item, false));
    RegrowCovered(Insert(t.root, item, true));
    RefreshedInsertCovers(t.root, item);
    if SafeInsert(t.root, item) {
      SafeInsertCovers(t.root, item);
    } else {
      UnsafeInsertUncovers(t.root, item);
    }
  }

  lemma RegrowCovered(g: Grown)
    ensures Covered(Regrow(g)) <==> GrownCovered(g)
  {
    if g.extra.Some? {
      var t := Regrow(g);
      assert t.slots[0] == Slot(g.node, g.node.box) && t.slots[1] == Slot(g.extra.value, g.extra.value.box);
    }
  }

  /** Every insert of the run is safe at the time it happens. */
  ghost predicate SafeRun(items: seq<Item>) {
    items == [] ||
    (SafeRun(items[..|items| - 1]) && SafeInsert(Run(items[..|items| - 1], false).root, items[|items| - 1]))
  }

  ghost predicate RightAfter(items: seq<Item>) {
    Covered(Run(items, false).root)
  }

  lemma RightThroughout(items: seq<Item>)
    requires items != []
    ensures var init := items[..|items| - 1];
            (forall n: nat | n <= |items| :: RightAfter(items[..n]))
            <==> (forall n: nat | n <= |init| :: RightAfter(init[..n])) && RightAfter(items)
  {
    hide RightAfter;
    var init := items[..|items| - 1];
    assert items[..|items|] == items;
    assert forall n: nat | n <= |init| :: items[..n] == init[..n];
  }

  /** The boxes are right after every step of a run exactly when every step was safe. */
  lemma {:induction false} RunCoveredExactly(items: seq<Item>)
    ensures (forall n: nat | n <= |items| :: RightAfter(items[..n])) <==> SafeRun(items)
  {
    if items == [] {
      assert items[..0] == [];
    } else {
      var init := items[..|items| - 1];
      RunCoveredExactly(init);
      RightThroughout(items);
      assert init[..|init|] == init;
      hide InsertAtRoot, Covered, SafeInsert, Rooted, Insertable;
      if RightAfter(init) {
        InsertCoversExactly(Run(init, false), items[|items| - 1]);
      }
    }
  }

  lemma WithoutOne<T>(s: seq<T>, k: nat)
    requires k < |s|
    ensures multiset(s) == multiset(s[..k] + s[k + 1..]) + multiset{s[k]}
  {
    assert s == s[..k] + [s[k]] + s[k + 1..];
  }

  lemma Cancel<T(!new)>(a: multiset<T>, b: multiset<T>, x: T)
    requires a + multiset{x} == b + multiset{x}
    ensures a == b
  {
    assert a == (a + multiset{x}) - multiset{x};
    assert b == (b + multiset{x}) - multiset{x};
  }

  /** The scan of a list answers the same values, whatever the order of the list. */
  lemma {:induction false} ScanOfReordered(a: seq<Item>, b: seq<Item>, q: Box)
    requires multiset(a) == multiset(b)
    ensures multiset(Scan(a, q)) == multiset(Scan(b, q))
    decreases |a|
  {
    hide Scan;
    if a == [] {
      assert |multiset(b)| == 0;
    } else {
      var last := a[|a| - 1];
      assert last in multiset(a);
      var k :| 0 <= k < |b| && b[k] == last;
      var rest := b[..k] + b[k + 1..];
      WithoutOne(a, |a| - 1);
      WithoutOne(b, k);
      assert a[..|a| - 1] + a[|a|..] == a[..|a| - 1];
      Cancel(multiset(a[..|a| - 1]), multiset(rest), last);
      ScanOfReordered(a[..|a| - 1], rest, q);
      ScanWithoutOne(a, |a| - 1, q);
      ScanWithoutOne(b, k, q);
    }
  }

  lemma ScanWithoutOne(s: seq<Item>, k: nat, q: Box)
    requires k < |s|
    ensures multiset(Scan(s, q)) == multiset(Scan(s[..k] + s[k + 1..], q)) + multiset(Scan([s[k]], q))
  {
    hide Scan;
    assert s == s[..k] + [s[k]] + s[k + 1..];
    ScanConcat(s[..k], s[k + 1..], q);
    ScanConcat(s[..k] + [s[k]], s[k + 1..], q);
    ScanConcat(s[..k], [s[k]], q);
  }

  // ---------- What a query finds ----------

  /** The point lies in the box or on its border. */
  predicate Contains(box: Box, x: real, y: real) {
    box.Box? && box.xmin <= x <= box.xmax && box.ymin <= y <= box.ymax
  }

  ghost predicate SharePoint(a: Box, b: Box) {
    exists x: real, y: real :: Contains(a, x, y) && Contains(b, x, y)
  }

  predicate Upright(box: Box) {
    box.Box? ==> box.xmin <= box.xmax && box.ymin <= box.ymax
  }

  /** Boxes that are not inverted meet exactly if they share a point; in general, if no side passes the opposite one. */
  lemma IntersectsExactly(a: Box, b: Box)
    ensures Intersects(a, b) <==> a.Box? && b.Box? && a.xmin <= b.xmax && b.xmin <= a.xmax && a.ymin <= b.ymax && b.ymin <= a.ymax
    ensures Upright(a) && Upright(b) ==> (Intersects(a, b) <==> SharePoint(a, b))
  {
    if Intersects(a, b) && Upright(a) && Upright(b) {
      var x := if a.xmin < b.xmin then b.xmin else a.xmin;
      var y := if a.ymin < b.ymin then b.ymin else a.ymin;
      assert Contains(a, x, y) && Contains(b, x, y);
    }
  }

  /** The values of the items that share a point with a box, in order. */
  ghost function ValuesSharing(items: seq<Item>, q: Box): seq<string> {
    if items == [] then []
    else
      var last := items[|items| - 1];
      ValuesSharing(items[..|items| - 1], q) + if SharePoint(last.box, q) then [last.value] else []
  }

  lemma {:induction false} ScanIsSharing(items: seq<Item>, q: Box)
    requires Upright(q) && forall i :: 0 <= i < |items| ==> Upright(items[i].box)
    ensures Scan(items, q) == ValuesSharing(items, q)
  {
    if items != [] {
      ScanIsSharing(items[..|items| - 1], q);
      IntersectsExactly(items[|items| - 1].box, q);
    }
  }

  lemma {:induction false} SharingExactly(items: seq<Item>, q: Box, v: string)
    ensures v in ValuesSharing(items, q) <==> exists i :: 0 <= i < |items| && items[i].value == v && SharePoint(items[i].box, q)
  {
    if items != [] {
      var init := items[..|items| - 1];
      SharingExactly(init, q, v);
      assert forall i :: 0 <= i < |init| ==> init[i] == items[i];
    }
  }

  /**
    After a safe run a query returns the values of exactly the inserted items that share a point with its
    box, each as often as there are such items.
  */
  lemma SafeRunFinds(items: seq<Item>, q: Box, v: string)
    requires SafeRun(items) && Upright(q) && forall i :: 0 <= i < |items| ==> Upright(items[i].box)
    ensures multiset(Query(Run(items, false).root, q)) == multiset(ValuesSharing(items, q))
    ensures v in Query(Run(items, false).root, q)
            <==> exists i :: 0 <= i < |items| && items[i].value == v && SharePoint(items[i].box, q)
  {
    hide Query, Scan, ValuesSharing, SharePoint, SafeRun, Upright;
    SafeRunQueries(items, q);
    ScanIsSharing(items, q);
    SharingExactly(items, q, v);
    assert v in Query(Run(items, false).root, q) <==> v in multiset(Query(Run(items, false).root, q));
    assert v in ValuesSharing(items, q) <==> v in multiset(ValuesSharing(items, q));
  }

  /** After a safe run of the code as written, every query answers exactly as the linear scan does. */
  lemma SafeRunQueries(items: seq<Item>, q: Box)
    requires SafeRun(items)
    ensures Query(Run(items, false).root, q) == Scan(Items(Run(items, false).root), q)
    ensures multiset(Query(Run(items, false).root, q)) == multiset(Scan(items, q))
  {
    hide Scan, Query, Items, SafeRun;
    RunContents(items, false);
    ScanOfReordered(Items(Run(items, false).root), items, q);
    RunCoveredExactly(items);
    assert RightAfter(items[..|items|]) && items[..|items|] == items;
    CoveredReaches(Run(items, false).root);
    QueryComplete(Run(items, false).root, q);
  }

  /** With the refresh, every run answers every query as the linear scan does. */
  lemma {:induction false} RefreshedRunCovered(items: seq<Item>)
    ensures Covered(Run(items, true).root)
  {
    if items != [] {
      RefreshedRunCovered(items[..|items| - 1]);
      InsertCoversExactly(Run(items[..|items| - 1], true), items[|items| - 1]);
    }
  }

  lemma RefreshedRunQueries(items: seq<Item>, q: Box)
    ensures Query(Run(items, true).root, q) == Scan(Items(Run(items, true).root), q)
    ensures multiset(Items(Run(items, true).root)) == multiset(items)
    ensures multiset(Query(Run(items, true).root, q)) == multiset(Scan(items, q))
  {
    hide Scan, Query, Items;
    RefreshedRunCovered(items);
    CoveredReaches(Run(items, true).root);
    QueryComplete(Run(items, true).root, q);
    RunContents(items, true);
    ScanOfReordered(Items(Run(items, true).root), items, q);
  }

  // ---------- A run the code as written gets wrong ----------

  const POINT := Box(0.0, 0.0, 0.0, 0.0)
  const NEAR := Item("near", "n", POINT)
  const FAR := Item("far", "f", Box(1.0, 1.0, 1.0, 1.0))

  function Nears(n: nat): (s: seq<Item>)
    ensures |s| == n && forall i :: 0 <= i < n ==> s[i] == NEAR
  {
    if n == 0 then [] else Nears(n - 1) + [NEAR]
  }

  lemma {:induction false} NearsBox(n: nat)
    requires n > 0
    ensures BoxOfItems(Nears(n)) == POINT
  {
    assert Nears(n)[..n - 1] == Nears(n - 1);
    if n > 1 {
      NearsBox(n - 1);
    }
  }

  lemma ChooseFirstOfTwo(slots: seq<Slot>, box: Box)
    requires |slots| == 2 && slots[0].childBox == POINT && slots[1].childBox == POINT && box.Box?
    ensures Choose(slots, box) == 0
  {
    assert BestOf(slots, box, 0) == (0, PlusInfinity);
    assert BestOf(slots, box, 1) == (0, AreaIncrease(POINT, box));
  }

  /** The root made of a left leaf with `n` near items and a right leaf with four. */
  function TwoLeaves(n: nat): Tree {
    Node(POINT, [Slot(Leaf(POINT, Nears(n)), POINT), Slot(Leaf(POINT, Nears(4)), POINT)])
  }

  lemma RootSplits()
    ensures Regrow(AddItem(POINT, Nears(8), NEAR)) == TwoLeaves(5)
  {
    NearsBox(4);
    assert Nears(8)[..4] == Nears(4) && Nears(8)[4..] == Nears(4) && Nears(4) + [NEAR] == Nears(5);
  }

  lemma TwoLeavesInsertable(n: nat)
    requires n <= 8
    ensures Insertable(TwoLeaves(n))
  {
    var slots := TwoLeaves(n).slots;
    assert Insertable(slots[0].child) && Insertable(slots[1].child);
  }

  lemma InsertIntoLeaf(box: Box, items: seq<Item>, item: Item, refresh: bool)
    requires |items| < MAX_CHILDREN
    ensures Insert(Leaf(box, items), item, refresh) == Grown(Leaf(Extend(box, item.box), items + [item]), None)
  {
  }

  /** One level of `Insert` when the child does not split. */
  lemma InsertWithoutSplit(t: Tree, item: Item, refresh: bool, c: nat, child: Tree)
    requires Insertable(t) && t.Node? && c == Choose(t.slots, item.box) && c < |t.slots|
    requires Insert(t.slots[c].child, item, refresh) == Grown(child, None)
    ensures var updated := t.slots[c := Slot(child, child.box)];
            Insert(t, item, refresh) == Grown(Node(BoxOfSlots(updated), updated), None)
  {
  }

  lemma LeftLeafGrows(n: nat)
    requires n < 8
    ensures Insertable(TwoLeaves(n)) && Insert(TwoLeaves(n), NEAR, false) == Grown(TwoLeaves(n + 1), None)
  {
    var slots := TwoLeaves(n).slots;
    TwoLeavesInsertable(n);
    ChooseFirstOfTwo(slots, POINT);
    var child := Leaf(POINT, Nears(n + 1));
    InsertIntoLeaf(POINT, Nears(n), NEAR, false);
    InsertWithoutSplit(TwoLeaves(n), NEAR, false, 0, child);
    BoxOfTwo(slots[0 := Slot(child, POINT)]);
    assert slots[0 := Slot(child, POINT)] == [Slot(child, POINT), Slot(Leaf(POINT, Nears(4)), POINT)];
  }

  function NearTree(n: nat): Tree {
    if n == 0 then Leaf(Empty, []) else if n <= 8 then Leaf(POINT, Nears(n)) else TwoLeaves(n - 4)
  }

  lemma NearStep(n: nat)
    requires n < 12
    ensures Insertable(NearTree(n)) && Regrow(Insert(NearTree(n), NEAR, false)) == NearTree(n + 1)
  {
    if n < 8 {
      InsertIntoLeaf(NearTree(n).box, Nears(n), NEAR, false);
    } else if n == 8 {
      RootSplits();
    } else {
      LeftLeafGrows(n - 4);
    }
  }

  lemma {:induction false} NearRun(n: nat)
    requires n <= 12
    ensures Run(Nears(n), false).root == NearTree(n)
  {
    if n > 0 {
      NearRun(n - 1);
      NearStep(n - 1);
      hide NearTree, Insert, Insertable, Rooted;
      assert Nears(n)[..n - 1] == Nears(n - 1) && Nears(n)[n - 1] == NEAR;
    }
  }

  lemma FarSplitsUnseen()
    ensures Insertable(TwoLeaves(8)) && Insert(TwoLeaves(8), FAR, false).extra.None?
    ensures Insert(TwoLeaves(8), FAR, false).node.box == POINT && !SafeInsert(TwoLeaves(8), FAR)
  {
    var t := TwoLeaves(8);
    ChooseFirstOfTwo(t.slots, FAR.box);
    NearsBox(4);
    assert Nears(8)[4..] == Nears(4);
  }

  lemma BoxOfTwo(slots: seq<Slot>)
    requires |slots| == 2 && slots[0].childBox == POINT && slots[1].childBox == POINT
    ensures BoxOfSlots(slots) == POINT
  {
    assert slots[..1] == [slots[0]] && slots[..1][..0] == [];
    assert BoxOfSlots(slots[..1]) == POINT;
  }

  /** Thirteen inserts after which the query for the last item's own box finds nothing. */
  lemma QueryLosesAnItem()
    ensures var t := Run(Nears(12) + [FAR], false).root;
            Query(t, FAR.box) == [] && FAR in Items(t) && !SafeRun(Nears(12) + [FAR])
  {
    hide Run, Insert, Insertable, Query, Items, NearTree, TwoLeaves, SafeInsert, Rooted, Regrow;
    var items := Nears(12) + [FAR];
    assert items[..12] == Nears(12) && items[12] == FAR;
    NearRun(12);
    NearTreeOf12();
    FarSplitsUnseen();
    RunAppends(items);
    RegrowUnsplit(Insert(TwoLeaves(8), FAR, false));
    QueryMisses(Run(items, false).root);
    RunContents(items, false);
    assert FAR in multiset(items);
  }

  lemma NearTreeOf12()
    ensures NearTree(12) == TwoLeaves(8)
  {
  }

  lemma RunAppends(items: seq<Item>)
    requires items != []
    ensures Run(items, false) == InsertAtRoot(Run(items[..|items| - 1], false), items[|items| - 1], false)
  {
  }

  lemma RegrowUnsplit(g: Grown)
    requires g.extra.None?
    ensures Regrow(g) == g.node
  {
  }

  lemma QueryMisses(t: Tree)
    requires t.box == POINT
    ensures Query(t, FAR.box) == []
  {
  }
}
