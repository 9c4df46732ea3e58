/**
  When an insert of src/index/r_tree.c, as written, keeps the answers of queries right. Queries only look
  at the nodes' own boxes, so a stale copy in a parent does no harm until a box is rebuilt from it.
*/
module RTreeAnswers {

  import opened RTreeSpec

  // ---------- Along the path of an insert ----------

  /** The node splits: the leaf reached is full, and so is every node up to this one. */
  predicate Splits(t: Tree, item: Item)
    requires Insertable(t)
    decreases t
  {
    match t
    case Leaf(_, items) => |items| == MAX_CHILDREN
    case Node(_, slots) =>
      var c := Choose(slots, item.box);
      ChooseIsFirstLeast(slots, item.box, |slots|);
      |slots| == MAX_CHILDREN && Splits(slots[c].child, item)
  }

  /** The item ends up in the sibling split off: the child that took it keeps it and is in the upper half. */
  predicate GoesRight(t: Tree, item: Item)
    requires Insertable(t)
    decreases t
  {
    t.Node? &&
    var c := Choose(t.slots, item.box);
    ChooseIsFirstLeast(t.slots, item.box, |t.slots|);
    Splits(t, item) && c >= MAX_CHILDREN / 2 && !GoesRight(t.slots[c].child, item)
  }

  /**
    The guard under which the boxes of the nodes stay right. Where the child splits, the code does not look
    at the new item: a node with room keeps its own box, which must cover the item already, and a full node
    rebuilds the boxes of both halves from the copies it has, of which the old copy must cover it.
  */
  predicate RightInsert(t: Tree, item: Item)
    requires Insertable(t)
    decreases t
  {
    t.Node? ==>
      var c := Choose(t.slots, item.box);
      ChooseIsFirstLeast(t.slots, item.box, |t.slots|);
      var child := t.slots[c].child;
      && RightInsert(child, item)
      && (Splits(child, item) ==>
            if |t.slots| < MAX_CHILDREN then CoversBox(t.box, item.box)
            else GoesRight(child, item) || CoversBox(BoxOfSlots(HalfOf(t.slots, c)), item.box))
  }

  /** The half of a full node that entry `c` goes to. */
  function HalfOf(slots: seq<Slot>, c: nat): seq<Slot>
    requires |slots| == MAX_CHILDREN
  {
    if c < MAX_CHILDREN / 2 then slots[..MAX_CHILDREN / 2] else slots[MAX_CHILDREN / 2..]
  }

  // ---------- Items of grown nodes ----------

  ghost predicate CoversAll(box: Box, items: seq<Item>) {
    forall x <- items :: Covers(box, x.box)
  }

  ghost predicate CoversItems(box: Box, t: Tree) {
    CoversAll(box, Items(t))
  }

  lemma {:induction false} ItemUnder(slots: seq<Slot>, x: Item)
    ensures x in ItemsOfSlots(slots) <==> exists i :: 0 <= i < |slots| && x in Items(slots[i].child)
  {
    if slots != [] {
      var init := slots[..|slots| - 1];
      ItemUnder(init, x);
      assert forall i :: 0 <= i < |init| ==> slots[i] == init[i];
      assert ItemsOfSlots(slots) == ItemsOfSlots(init) + Items(slots[|slots| - 1].child);
    }
  }

  /** A node is right when its box covers the items of every child and every child is right. */
  lemma NodeReaches(t: Tree)
    requires t.Node?
    ensures Reaches(t) <==> forall i :: 0 <= i < |t.slots| ==> CoversItems(t.box, t.slots[i].child) && Reaches(t.slots[i].child)
  {
    forall i, x | 0 <= i < |t.slots| && x in Items(t.slots[i].child)
      ensures x in Items(t)
    {
      ItemUnder(t.slots, x);
    }
    forall x | x in Items(t)
      ensures exists i :: 0 <= i < |t.slots| && x in Items(t.slots[i].child)
    {
      ItemUnder(t.slots, x);
    }
    ByIndex(t.box, Items(t));
  }

  lemma ByIndex(box: Box, items: seq<Item>)
    ensures CoversAll(box, items) <==> forall i :: 0 <= i < |items| ==> Covers(box, items[i].box)
  {
    hide Covers;
    if CoversAll(box, items) {
      forall i | 0 <= i < |items|
        ensures Covers(box, items[i].box)
      {
        assert items[i] in items;
      }
    }
  }

  /** All items of `part` are items of `whole`, or the new one if `part` has it. */
  ghost predicate ItemsFrom(part: Tree, whole: Tree, item: Item, has: bool) {
    (forall x <- Items(part) :: x in Items(whole) || (has && x == item)) && (has ==> item in Items(part))
  }

  /** Where the items are after an insert, and that a sibling split off stays within the old box. */
  lemma {:induction false} InsertPlaces(t: Tree, item: Item)
    requires Insertable(t) && Covered(t)
    ensures Placed(Insert(t, item, false), t, item, Splits(t, item), GoesRight(t, item))
    decreases t
  {
    if t.Leaf? {
      LeafPlaces(t, item);
    } else {
      var c := Choose(t.slots, item.box);
      ChooseIsFirstLeast(t.slots, item.box, |t.slots|);
      InsertPlaces(t.slots[c].child, item);
      NodePlaces(t, item, c);
    }
  }

  lemma LeafPlaces(t: Tree, item: Item)
    requires Insertable(t) && Covered(t) && t.Leaf?
    ensures Placed(Insert(t, item, false), t, item, Splits(t, item), false)
  {
    BoxOfItemsCovers(t.items[|t.items| / 2..], t.box);
    var g := Insert(t, item, false);
    assert g.node.items[|g.node.items| - 1] == item;
  }

  lemma ChildPlaces(part: Tree, t: Tree, c: nat, item: Item, has: bool)
    requires t.Node? && c < |t.slots| && ItemsFrom(part, t.slots[c].child, item, has)
    ensures ItemsFrom(part, t, item, has)
  {
    forall x | x in Items(t.slots[c].child)
      ensures x in Items(t)
    {
      ItemUnder(t.slots, x);
    }
  }

  /** A node made of children whose items are old, apart from one that has the new item if any does. */
  lemma PartPlaces(box: Box, part: seq<Slot>, t: Tree, item: Item, has: bool, h: nat)
    requires forall i :: 0 <= i < |part| ==> ItemsFrom(part[i].child, t, item, has && i == h)
    requires has ==> h < |part|
    ensures ItemsFrom(Node(box, part), t, item, has)
  {
    var node := Node(box, part);
    forall x | x in Items(node)
      ensures x in Items(t) || (has && x == item)
    {
      ItemUnder(part, x);
      var i :| 0 <= i < |part| && x in Items(part[i].child);
      assert ItemsFrom(part[i].child, t, item, has && i == h);
    }
    if has {
      assert ItemsFrom(part[h].child, t, item, true);
      ItemUnder(part, item);
    }
  }

  lemma OldPlaces(t: Tree, i: nat, item: Item)
    requires t.Node? && i < |t.slots|
    ensures ItemsFrom(t.slots[i].child, t, item, false)
  {
    ChildPlaces(t.slots[i].child, t, i, item, false);
  }

  ghost predicate Placed(g: Grown, t: Tree, item: Item, splits: bool, right: bool) {
    && (g.extra.Some? <==> splits) && ItemsFrom(g.node, t, item, !right)
    && (g.extra.Some? ==> ItemsFrom(g.extra.value, t, item, right) && Covers(t.box, g.extra.value.box))
  }

  lemma NodePlaces(t: Tree, item: Item, c: nat)
    requires Insertable(t) && Covered(t) && t.Node? && c == Choose(t.slots, item.box) && c < |t.slots|
    requires Placed(Insert(t.slots[c].child, item, false), t.slots[c].child, item,
                    Splits(t.slots[c].child, item), GoesRight(t.slots[c].child, item))
    ensures Placed(Insert(t, item, false), t, item, Splits(t, item), GoesRight(t, item))
  {
    hide Choose, BoxOfSlots, Items, ItemsFrom, Covered;
    var child := t.slots[c].child;
    var below := Insert(child, item, false);
    ChildPlaces(below.node, t, c, item, !GoesRight(child, item));
    forall i | 0 <= i < |t.slots|
      ensures ItemsFrom(t.slots[i].child, t, item, false)
    {
      OldPlaces(t, i, item);
    }
    if below.extra.None? {
      var updated := t.slots[c := Slot(below.node, below.node.box)];
      PartPlaces(BoxOfSlots(updated), updated, t, item, true, c);
    } else {
      ChildPlaces(below.extra.value, t, c, item, GoesRight(child, item));
      SplitPlaces(t, item, c, below);
    }
  }

  lemma SplitPlaces(t: Tree, item: Item, c: nat, below: Grown)
    requires Insertable(t) && Covered(t) && t.Node? && c == Choose(t.slots, item.box) && c < |t.slots|
    requires below == Insert(t.slots[c].child, item, false) && below.extra.Some? && Splits(t.slots[c].child, item)
    requires ItemsFrom(below.node, t, item, !GoesRight(t.slots[c].child, item))
    requires ItemsFrom(below.extra.value, t, item, GoesRight(t.slots[c].child, item))
    requires forall i :: 0 <= i < |t.slots| ==> ItemsFrom(t.slots[i].child, t, item, false)
    ensures Placed(Insert(t, item, false), t, item, Splits(t, item), GoesRight(t, item))
  {
    hide Choose, BoxOfSlots, Items, ItemsFrom, Covered, AddItem;
    var right := GoesRight(t.slots[c].child, item);
    var kept := t.slots[c := Slot(below.node, t.slots[c].childBox)];
    var sibling := Slot(below.extra.value, below.extra.value.box);
    var g := Insert(t, item, false);
    assert g == AddSlot(t.box, kept, sibling);
    if |kept| < MAX_CHILDREN {
      PartPlaces(g.node.box, kept + [sibling], t, item, true, if right then |kept| else c);
    } else {
      PartPlaces(g.node.box, kept[..4] + [sibling], t, item, right || c < 4, if right then 4 else c);
      PartPlaces(g.extra.value.box, kept[4..], t, item, !right && c >= 4, if c >= 4 then c - 4 else 0);
      HalfWithin(t, kept[4..]);
    }
  }

  /** What is rebuilt from copies of a covered node stays within its box. */
  lemma HalfWithin(t: Tree, part: seq<Slot>)
    requires t.Node? && Covered(t) && forall i :: 0 <= i < |part| ==> exists j :: 0 <= j < |t.slots| && part[i].childBox == t.slots[j].childBox
    ensures Covers(t.box, BoxOfSlots(part))
  {
    BoxOfSlotsCovers(part, t.box);
  }

  // ---------- Exactly when the nodes' boxes stay right ----------

  ghost predicate GrownReaches(g: Grown) {
    Reaches(g.node) && (g.extra.Some? ==> Reaches(g.extra.value))
  }

  /** A box that covers the items there were covers a part exactly if it covers the new item or the part does not have it. */
  lemma CoversPart(box: Box, part: Tree, whole: Tree, item: Item, has: bool)
    requires ItemsFrom(part, whole, item, has) && CoversItems(box, whole)
    ensures CoversItems(box, part) <==> (has ==> Covers(box, item.box))
  {
    hide Items, Covers;
  }

  lemma CoversOld(box: Box, t: Tree)
    requires Covered(t) && Covers(box, t.box)
    ensures CoversItems(box, t)
  {
    hide Items, Covered;
    CoveredCoversItems(t);
    ByIndex(t.box, Items(t));
    forall x | x in Items(t)
      ensures Covers(box, x.box)
    {
      CoversTransitive(box, t.box, x.box);
    }
  }

  lemma ReachesCovers(box: Box, t: Tree)
    requires Reaches(t) && Covers(box, t.box)
    ensures CoversItems(box, t)
  {
    hide Items;
    ByIndex(t.box, Items(t));
    forall x | x in Items(t)
      ensures Covers(box, x.box)
    {
      CoversTransitive(box, t.box, x.box);
    }
  }

  /** The nodes' boxes are right after an insert exactly if it met the guard. */
  lemma {:induction false} InsertReaches(t: Tree, item: Item)
    requires Insertable(t) && Covered(t)
    ensures GrownReaches(Insert(t, item, false)) <==> RightInsert(t, item)
    decreases t
  {
    if t.Leaf? {
      AddItemCovered(t.box, t.items, item);
      GrownCoveredReaches(AddItem(t.box, t.items, item));
    } else {
      var c := Choose(t.slots, item.box);
      ChooseIsFirstLeast(t.slots, item.box, |t.slots|);
      InsertReaches(t.slots[c].child, item);
      InsertPlaces(t.slots[c].child, item);
      if Splits(t.slots[c].child, item) {
        SplitReaches(t, item, c);
      } else {
        RebuiltReaches(t, item, c);
      }
    }
  }

  lemma GrownCoveredReaches(g: Grown)
    requires GrownCovered(g)
    ensures GrownReaches(g)
  {
    CoveredReaches(g.node);
    if g.extra.Some? {
      CoveredReaches(g.extra.value);
    }
  }

  /** Without a split the box is rebuilt from copies that are all current. */
  lemma RebuiltReaches(t: Tree, item: Item, c: nat)
    requires Insertable(t) && Covered(t) && t.Node? && c == Choose(t.slots, item.box) && c < |t.slots|
    requires var below := Insert(t.slots[c].child, item, false);
             below.extra.None? && (Reaches(below.node) <==> RightInsert(t.slots[c].child, item))
    requires !Splits(t.slots[c].child, item)
    ensures GrownReaches(Insert(t, item, false)) <==> RightInsert(t, item)
  {
    hide Choose, BoxOfSlots, Items, CoversItems, Reaches;
    var below := Insert(t.slots[c].child, item, false);
    var updated := t.slots[c := Slot(below.node, below.node.box)];
    var node := Node(BoxOfSlots(updated), updated);
    assert Insert(t, item, false) == Grown(node, None);
    BoxOfSlotsCovers(updated, BoxOfSlots(updated));
    NodeReaches(node);
    forall i | 0 <= i < |updated|
      ensures i != c ==> CoversItems(node.box, updated[i].child) && Reaches(updated[i].child)
      ensures i == c && Reaches(below.node) ==> CoversItems(node.box, below.node)
    {
      if i != c {
        CoversTransitive(node.box, updated[i].childBox, updated[i].child.box);
        CoversOld(node.box, updated[i].child);
        CoveredReaches(updated[i].child);
      } else if Reaches(below.node) {
        assert Covers(node.box, updated[c].childBox);
        ReachesCovers(node.box, below.node);
      }
    }
    assert updated[c].child == below.node;
  }

  /**
    Slots of a covered node, one of which took the item and keeps its old copy, under a box that covers all
    their copies: they are right exactly if that child is, and the box covers the item if the child kept it.
  */
  lemma KeptReach(box: Box, t: Tree, c: nat, below: Tree, item: Item, right: bool, lo: nat, hi: nat)
    requires t.Node? && Covered(t) && c < |t.slots| && lo <= hi <= |t.slots| && ItemsFrom(below, t.slots[c].child, item, !right)
    requires forall i :: lo <= i < hi ==> Covers(box, t.slots[i].childBox)
    ensures var kept := t.slots[c := Slot(below, t.slots[c].childBox)];
            (forall i :: lo <= i < hi ==> CoversItems(box, kept[i].child) && Reaches(kept[i].child))
            <==> (lo <= c < hi ==> Reaches(below) && (right || Covers(box, item.box)))
  {
    hide Items, CoversItems, Reaches, ItemsFrom;
    var kept := t.slots[c := Slot(below, t.slots[c].childBox)];
    forall i | lo <= i < hi
      ensures i != c ==> CoversItems(box, kept[i].child) && Reaches(kept[i].child)
      ensures i == c ==> (CoversItems(box, below) <==> right || Covers(box, item.box))
    {
      CoversTransitive(box, t.slots[i].childBox, t.slots[i].child.box);
      CoversOld(box, t.slots[i].child);
      CoveredReaches(t.slots[i].child);
      if i == c {
        CoversPart(box, below, t.slots[c].child, item, !right);
      }
    }
    assert lo <= c < hi ==> kept[c].child == below;
  }

  /** What has happened to the child: it split, and all that is left of it stays within its old box but the new item. */
  ghost predicate ChildSplit(t: Tree, item: Item, c: nat, below: Grown, right: bool) {
    && t.Node? && Covered(t) && c < |t.slots| <= MAX_CHILDREN && below.extra.Some?
    && ItemsFrom(below.node, t.slots[c].child, item, !right) && ItemsFrom(below.extra.value, t.slots[c].child, item, right)
    && Covers(t.slots[c].child.box, below.extra.value.box)
  }

  lemma RoomReaches(t: Tree, item: Item, c: nat, below: Grown, right: bool)
    requires ChildSplit(t, item, c, below, right) && |t.slots| < MAX_CHILDREN
    ensures var kept := t.slots[c := Slot(below.node, t.slots[c].childBox)];
            var g := AddSlot(t.box, kept, Slot(below.extra.value, below.extra.value.box));
            GrownReaches(g) <==> GrownReaches(below) && Covers(t.box, item.box)
  {
    hide Items, CoversItems, Reaches, ItemsFrom, Extend, BoxOfSlots;
    var kept := t.slots[c := Slot(below.node, t.slots[c].childBox)];
    var child, extra, box := t.slots[c].child, below.extra.value, Extend(t.box, below.extra.value.box);
    var node := Node(box, kept + [Slot(extra, extra.box)]);
    ExtendIsLeastCover(t.box, extra.box, box);
    ExtendIsLeastCover(t.box, extra.box, t.box);
    CoversTransitive(t.box, t.slots[c].childBox, child.box);
    CoversTransitive(t.box, child.box, extra.box);
    SameCover(t.box, box, item.box);
    forall i | 0 <= i < |t.slots|
      ensures Covers(box, t.slots[i].childBox)
    {
      CoversTransitive(box, t.box, t.slots[i].childBox);
    }
    KeptReach(box, t, c, below.node, item, right, 0, |t.slots|);
    CoversTransitive(box, t.box, child.box);
    CoversOld(box, child);
    CoversPart(box, extra, child, item, right);
    NodeReaches(node);
    LastSlot(box, kept, Slot(extra, extra.box));
  }

  lemma SameCover(a: Box, b: Box, c: Box)
    requires Covers(a, b) && Covers(b, a)
    ensures Covers(a, c) <==> Covers(b, c)
  {
  }

  lemma LastSlot(box: Box, slots: seq<Slot>, slot: Slot)
    ensures (forall i :: 0 <= i < |slots + [slot]| ==>
               CoversItems(box, (slots + [slot])[i].child) && Reaches((slots + [slot])[i].child))
            <==> CoversItems(box, slot.child) && Reaches(slot.child)
                 && forall i :: 0 <= i < |slots| ==> CoversItems(box, slots[i].child) && Reaches(slots[i].child)
  {
    hide CoversItems, Reaches;
    var all := slots + [slot];
    assert all[|slots|] == slot && forall i :: 0 <= i < |slots| ==> all[i] == slots[i];
  }

  lemma {:induction false} SameCopies(a: seq<Slot>, b: seq<Slot>)
    requires |a| == |b| && forall i :: 0 <= i < |a| ==> a[i].childBox == b[i].childBox
    ensures BoxOfSlots(a) == BoxOfSlots(b)
  {
    if a != [] {
      SameCopies(a[..|a| - 1], b[..|b| - 1]);
    }
  }

  lemma HalfCopies(slots: seq<Slot>, lo: nat, hi: nat)
    requires lo <= hi <= |slots|
    ensures forall i :: lo <= i < hi ==> Covers(BoxOfSlots(slots[lo..hi]), slots[i].childBox)
  {
    hide BoxOfSlots;
    var part := slots[lo..hi];
    BoxOfSlotsCovers(part, BoxOfSlots(part));
    assert forall i :: lo <= i < hi ==> part[i - lo] == slots[i];
  }

  /** The right half is right exactly if it has not got the child, or the copies there cover what the child has. */
  lemma RightReaches(t: Tree, item: Item, c: nat, below: Grown, right: bool)
    requires ChildSplit(t, item, c, below, right) && |t.slots| == MAX_CHILDREN
    ensures var half := t.slots[c := Slot(below.node, t.slots[c].childBox)][4..];
            Reaches(Node(BoxOfSlots(half), half))
            <==> (c >= 4 ==> Reaches(below.node) && (right || Covers(BoxOfSlots(t.slots[4..]), item.box)))
  {
    hide Items, CoversItems, Reaches, ItemsFrom, BoxOfSlots;
    var kept := t.slots[c := Slot(below.node, t.slots[c].childBox)];
    var half, box := kept[4..], BoxOfSlots(t.slots[4..]);
    SameCopies(half, t.slots[4..]);
    HalfCopies(t.slots, 4, 8);
    assert t.slots[4..8] == t.slots[4..];
    KeptReach(box, t, c, below.node, item, right, 4, 8);
    NodeReaches(Node(box, half));
    assert forall i :: 4 <= i < 8 ==> kept[i] == half[i - 4];
    assert forall i :: 0 <= i < 4 ==> half[i] == kept[i + 4];
  }

  /** The left half, to which the sibling goes, likewise; it adds nothing to what the copies there cover. */
  lemma LeftReaches(t: Tree, item: Item, c: nat, below: Grown, right: bool)
    requires ChildSplit(t, item, c, below, right) && |t.slots| == MAX_CHILDREN
    ensures var half := t.slots[c := Slot(below.node, t.slots[c].childBox)][..4];
            var extra := below.extra.value;
            Reaches(Node(Extend(BoxOfSlots(half), extra.box), half + [Slot(extra, extra.box)]))
            <==> Reaches(extra) && (c < 4 ==> Reaches(below.node) && (right || Covers(BoxOfSlots(t.slots[..4]), item.box)))
  {
    hide Items, CoversItems, Reaches, ItemsFrom, BoxOfSlots, Extend;
    var kept := t.slots[c := Slot(below.node, t.slots[c].childBox)];
    var half, copies, extra := kept[..4], BoxOfSlots(t.slots[..4]), below.extra.value;
    var box := Extend(copies, extra.box);
    SameCopies(half, t.slots[..4]);
    HalfCopies(t.slots, 0, 4);
    assert t.slots[0..4] == t.slots[..4];
    ExtendIsLeastCover(copies, extra.box, box);
    forall i | 0 <= i < 4
      ensures Covers(box, t.slots[i].childBox)
    {
      CoversTransitive(box, copies, t.slots[i].childBox);
    }
    KeptReach(box, t, c, below.node, item, right, 0, 4);
    if Reaches(extra) {
      ReachesCovers(box, extra);
    }
    NodeReaches(Node(box, half + [Slot(extra, extra.box)]));
    LastSlot(box, half, Slot(extra, extra.box));
    assert forall i :: 0 <= i < 4 ==> half[i] == kept[i];
    if c < 4 {
      CoversTransitive(copies, t.slots[c].childBox, t.slots[c].child.box);
      CoversTransitive(copies, t.slots[c].child.box, extra.box);
      ExtendIsLeastCover(copies, extra.box, copies);
      SameCover(copies, box, item.box);
    }
  }

  lemma FullReaches(t: Tree, item: Item, c: nat, below: Grown, right: bool)
    requires ChildSplit(t, item, c, below, right) && |t.slots| == MAX_CHILDREN
    ensures var kept := t.slots[c := Slot(below.node, t.slots[c].childBox)];
            var g := AddSlot(t.box, kept, Slot(below.extra.value, below.extra.value.box));
            GrownReaches(g) <==>
            GrownReaches(below) && (right || Covers(BoxOfSlots(HalfOf(t.slots, c)), item.box))
  {
    hide Items, CoversItems, Reaches, ItemsFrom, Extend, BoxOfSlots, Covers, Covered;
    LeftReaches(t, item, c, below, right);
    RightReaches(t, item, c, below, right);
  }

  lemma SplitReaches(t: Tree, item: Item, c: nat)
    requires Insertable(t) && Covered(t) && t.Node? && c == Choose(t.slots, item.box) && c < |t.slots|
    requires var below, child := Insert(t.slots[c].child, item, false), t.slots[c].child;
             && (GrownReaches(below) <==> RightInsert(child, item))
             && Placed(below, child, item, true, GoesRight(child, item))
    requires Splits(t.slots[c].child, item)
    ensures GrownReaches(Insert(t, item, false)) <==> RightInsert(t, item)
  {
    hide Choose, BoxOfSlots, Items, CoversItems, Reaches, AddItem, GoesRight, Covered, ItemsFrom, Covers, AddSlot, GrownReaches;
    var below, right := Insert(t.slots[c].child, item, false), GoesRight(t.slots[c].child, item);
    if |t.slots| < MAX_CHILDREN {
      RoomReaches(t, item, c, below, right);
    } else {
      FullReaches(t, item, c, below, right);
    }
  }

  /** Exactly when, after one insert of the code as written, every query answers as the linear scan does. */
  lemma InsertAnswersExactly(t: RTree, item: Item)
    requires Insertable(t.root) && Covered(t.root)
    ensures var after := InsertAtRoot(t, item, false).root;
            (forall q :: Query(after, q) == Scan(Items(after), q)) <==> RightInsert(t.root, item)
  {
    hide Insert, Query, Scan, Items, Insertable, Reaches, RightInsert, Covered;
    var g := Insert(t.root, item, false);
    InsertReaches(t.root, item);
    RegrowReaches(g);
    QueryExact(Regrow(g));
  }

  lemma RegrowReaches(g: Grown)
    ensures Reaches(Regrow(g)) <==> GrownReaches(g)
  {
    hide Reaches, CoversItems, Items, Extend;
    if g.extra.Some? {
      var t, extra := Regrow(g), g.extra.value;
      ExtendIsLeastCover(g.node.box, extra.box, t.box);
      NodeReaches(t);
      assert t.slots[0] == Slot(g.node, g.node.box) && t.slots[1] == Slot(extra, extra.box);
      if Reaches(g.node) && Reaches(extra) {
        ReachesCovers(t.box, g.node);
        ReachesCovers(t.box, extra);
      }
    }
  }

  /** A safe insert meets the guard; but the guard asks for less. */
  lemma SafeIsRight(t: RTree, item: Item)
    requires Insertable(t.root) && Covered(t.root) && SafeInsert(t.root, item)
    ensures RightInsert(t.root, item)
  {
    hide Insert, Insertable, Covered, RightInsert, SafeInsert, Reaches;
    SafeInsertCovers(t.root, item);
    GrownCoveredReaches(Insert(t.root, item, false));
    InsertReaches(t.root, item);
  }

  /** After safe inserts, the answers of all queries are right exactly if the next insert met the guard. */
  lemma RunAnswersExactly(items: seq<Item>, item: Item)
    requires SafeRun(items)
    ensures var after := Run(items + [item], false).root;
            (forall q :: Query(after, q) == Scan(Items(after), q)) <==> RightInsert(Run(items, false).root, item)
  {
    hide Insert, Query, Scan, Items, Insertable, RightInsert, Covered, SafeRun, Run, InsertAtRoot;
    RunCoveredExactly(items);
    assert items[..|items|] == items && RightAfter(items[..|items|]);
    RunAppends(items + [item]);
    assert (items + [item])[..|items|] == items;
    InsertAnswersExactly(Run(items, false), item);
  }
}
