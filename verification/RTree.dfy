/**
  The R-tree of src/index/r_tree.c as it runs: nodes in the heap, entries written in place.

  Each node carries the tree value it stands for in the ghost field `tree`; the methods are proved
  to change that value exactly as the functions of `RTreeSpec` say. The union of leaf and internal
  entries is three arrays, of which `isLeaf` says which are in use.
*/
module RTree {
  import opened RTreeSpec

  class RNode {
    const isLeaf: bool
    var count: nat
    var bbox: Box
    const leaves: array<Item>
    const children: array<RNode?>
    const childBoxes: array<Box>

    ghost var tree: Tree
    ghost var Repr: set<object>
    ghost var parts: seq<set<object>>  // what each child owns

    ghost predicate Valid()
      reads this, Repr
      decreases Repr
      ensures Valid() ==> this in Repr && children in Repr && childBoxes in Repr && leaves in Repr
      ensures Valid() ==> children.Length == MAX_CHILDREN && childBoxes.Length == MAX_CHILDREN
      ensures Valid() ==> count <= MAX_CHILDREN && tree.box == bbox && (isLeaf <==> tree.Leaf?)
      ensures Valid() ==> count == if isLeaf then |tree.items| else |tree.slots|
    {
      && this in Repr && leaves in Repr && children in Repr && childBoxes in Repr
      && leaves.Length == MAX_CHILDREN && children.Length == MAX_CHILDREN && childBoxes.Length == MAX_CHILDREN
      && count <= MAX_CHILDREN
      && (isLeaf ==> tree == Leaf(bbox, leaves[..count]))
      && (!isLeaf ==>
            && tree.Node? && tree.box == bbox && |tree.slots| == count
            && (forall i :: 0 <= i < count ==> children[i] != null && Below(children[i]))
            && (forall i :: 0 <= i < count ==> tree.slots[i] == Slot(children[i].tree, childBoxes[i]))
            && |parts| == count && (forall i :: 0 <= i < count ==> parts[i] == children[i].Repr)
            && Disjoint(parts))
    }

    /** The child's objects are part of this node's, and none of its own. */
    ghost predicate Below(child: RNode)
      reads this, Repr
      requires leaves in Repr && children in Repr && childBoxes in Repr
      decreases Repr, 0
    {
      && child in Repr && child.Repr <= Repr
      && this !in child.Repr && leaves !in child.Repr && children !in child.Repr && childBoxes !in child.Repr
      && child.Valid()
    }

    static ghost predicate Disjoint(sets: seq<set<object>>) {
      forall i, j :: 0 <= i < j < |sets| ==> sets[i] !! sets[j]
    }

    static lemma DisjointExtends(sets: seq<set<object>>, more: set<object>)
      requires Disjoint(sets) && forall i :: 0 <= i < |sets| ==> sets[i] !! more
      ensures Disjoint(sets + [more])
    {
    }

    static lemma DisjointFrom(sets: seq<set<object>>, c: nat)
      requires Disjoint(sets) && c < |sets|
      ensures forall i :: 0 <= i < |sets| && i != c ==> sets[i] !! sets[c]
    {
    }

    /** `r_tree_node_create`. */
    constructor (isLeaf: bool)
      ensures Valid() && fresh(Repr) && this.isLeaf == isLeaf
      ensures count == 0
      ensures tree == if isLeaf then Leaf(Empty, []) else Node(Empty, [])
    {
      this.isLeaf := isLeaf;
      count := 0;
      bbox := Empty;
      leaves := new Item[MAX_CHILDREN](_ => Item("", "", Empty));
      children := new RNode?[MAX_CHILDREN](_ => null);
      childBoxes := new Box[MAX_CHILDREN](_ => Empty);
      tree := if isLeaf then Leaf(Empty, []) else Node(Empty, []);
      parts := [];
      new;
      Repr := {this, leaves, children, childBoxes};
    }

    /** `r_tree_choose_subtree`. */
    method ChooseSubtree(box: Box) returns (best: nat)
      requires Valid() && !isLeaf
      ensures best == Choose(tree.slots, box)
    {
      best := 0;
      var minIncrease := PlusInfinity;
      for i := 0 to count
        invariant (best, minIncrease) == BestOf(tree.slots, box, i)
      {
        assert tree.slots[i].childBox == childBoxes[i];
        var increase := AreaIncrease(childBoxes[i], box);
        if Less(increase, minIncrease) {
          minIncrease := increase;
          best := i;
        }
      }
    }

    /** Writes one item behind the others of a leaf with room. */
    method AppendItem(item: Item)
      requires Valid() && isLeaf && count < MAX_CHILDREN
      modifies this, leaves
      ensures Valid() && Repr == old(Repr)
      ensures tree == Leaf(Extend(old(bbox), item.box), old(tree).items + [item])
    {
      leaves[count] := item;
      bbox := Extend(bbox, item.box);
      count := count + 1;
      tree := Leaf(bbox, leaves[..count]);
    }

    /** Writes one child and the copy of its box behind the others of an internal node with room. */
    method AppendChild(child: RNode, childBox: Box)
      requires Valid() && !isLeaf && count < MAX_CHILDREN
      requires child.Valid() && child.Repr !! Repr
      modifies this, children, childBoxes
      ensures Valid() && Repr == old(Repr) + child.Repr && count == old(count) + 1
      ensures tree == Node(Extend(old(bbox), childBox), old(tree).slots + [Slot(child.tree, childBox)])
    {
      hide Disjoint, Extend;
      assert forall i :: 0 <= i < count ==> parts[i] !! child.Repr;
      children[count] := child;
      childBoxes[count] := childBox;
      bbox := Extend(bbox, childBox);
      count := count + 1;
      Repr, parts := Repr + child.Repr, parts + [child.Repr];
      tree := Node(bbox, tree.slots + [Slot(child.tree, childBox)]);
      DisjointExtends(old(parts), child.Repr);
      forall i | 0 <= i < count
        ensures children[i] != null && Below(children[i])
        ensures tree.slots[i] == Slot(children[i].tree, childBoxes[i]) && parts[i] == children[i].Repr
      {
      }
    }

    /** The box loop over a leaf's first `count` items. */
    method RecomputeLeafBox()
      requires Valid() && isLeaf
      modifies this
      ensures Valid() && Repr == old(Repr) && count == old(count)
      ensures tree == Leaf(BoxOfItems(old(tree).items), old(tree).items)
    {
      var box := Empty;
      for i := 0 to count
        invariant box == BoxOfItems(leaves[..i])
      {
        assert leaves[..i + 1][..i] == leaves[..i];
        box := Extend(box, leaves[i].box);
      }
      bbox := box;
      tree := Leaf(bbox, leaves[..count]);
    }

    /** The box loop over an internal node's first `count` box copies. */
    method RecomputeInternalBox()
      requires Valid() && !isLeaf
      modifies this
      ensures Valid() && Repr == old(Repr) && count == old(count)
      ensures tree == Node(BoxOfSlots(old(tree).slots), old(tree).slots)
    {
      var box := Empty;
      for i := 0 to count
        invariant box == BoxOfSlots(tree.slots[..i])
      {
        assert tree.slots[..i + 1][..i] == tree.slots[..i];
        box := Extend(box, childBoxes[i]);
      }
      assert tree.slots[..count] == tree.slots;
      bbox := box;
      tree := Node(bbox, tree.slots);
    }

    /** `r_tree_split_node` on a full leaf: the upper half moves to a new leaf. */
    method SplitLeaf() returns (sibling: RNode)
      requires Valid() && isLeaf && count == MAX_CHILDREN
      modifies this
      ensures Valid() && Repr == old(Repr) && count == MAX_CHILDREN / 2
      ensures sibling.Valid() && fresh(sibling.Repr)
      ensures var items := old(tree).items; var half := |items| / 2;
              && tree == Leaf(BoxOfItems(items[..half]), items[..half])
              && sibling.tree == Leaf(BoxOfItems(items[half..]), items[half..])
    {
      hide Below, Disjoint, BoxOfItems;
      sibling := new RNode(true);
      var half := count / 2;
      CopyItems(half, sibling);
      ghost var items := tree.items;
      count := half;
      tree := Leaf(bbox, leaves[..count]);
      assert leaves[..half] == items[..half];
      RecomputeLeafBox();
    }

    /** Copies the items from `half` on into an empty leaf. */
    method CopyItems(half: nat, sibling: RNode)
      requires Valid() && isLeaf && half <= count
      requires sibling.Valid() && sibling.isLeaf && sibling.tree == Leaf(Empty, []) && sibling.Repr !! Repr
      modifies sibling, sibling.leaves
      ensures sibling.Valid() && sibling.Repr == old(sibling.Repr)
      ensures sibling.tree == Leaf(BoxOfItems(tree.items[half..]), tree.items[half..])
    {
      hide Below, Disjoint;
      ghost var items := tree.items;
      for i := half to count
        invariant sibling.Valid() && sibling.Repr == old(sibling.Repr) && sibling.isLeaf && sibling.count == i - half
        invariant sibling.tree == Leaf(BoxOfItems(items[half..i]), items[half..i])
      {
        assert items[half..i + 1][..i - half] == items[half..i];
        sibling.AppendItem(leaves[i]);
        assert items[half..i + 1] == items[half..i] + [leaves[i]];
      }
      assert items[half..] == items[half..count];
    }

    /** Copies the entries from `half` on into an empty internal node. */
    method CopyUpper(half: nat, sibling: RNode)
      requires Valid() && !isLeaf && half <= count
      requires sibling.Valid() && !sibling.isLeaf && sibling.tree == Node(Empty, []) && sibling.Repr !! Repr
      modifies sibling, sibling.children, sibling.childBoxes
      ensures sibling.Valid() && sibling.tree == Node(BoxOfSlots(tree.slots[half..]), tree.slots[half..])
      ensures sibling.Repr <= old(sibling.Repr) + Repr && Untouched(half, sibling.Repr)
    {
      hide Valid;
      ForeignIsUntouched(half, sibling.Repr);
      for i := half to count
        invariant Valid() && sibling.Valid() && sibling !in Repr && sibling.children !in Repr && sibling.childBoxes !in Repr
        invariant sibling.Repr <= old(sibling.Repr) + Repr
        invariant Untouched(half, sibling.Repr) && UntouchedFrom(i, sibling.Repr)
        invariant sibling.tree == Node(BoxOfSlots(tree.slots[half..i]), tree.slots[half..i])
      {
        BoxOfSlotsStep(tree.slots, half, i);
        CopyEntry(half, i, sibling);
      }
      assert tree.slots[half..] == tree.slots[half..count];
    }

    lemma ForeignIsUntouched(n: nat, objects: set<object>)
      requires Valid() && !isLeaf && Repr !! objects && n <= count
      ensures Untouched(n, objects) && UntouchedFrom(n, objects)
    {
    }

    /** Copies entry `i` behind the entries of another internal node. */
    method CopyEntry(half: nat, i: nat, sibling: RNode)
      requires Valid() && !isLeaf && half <= i < count
      requires sibling.Valid() && !sibling.isLeaf && sibling.count < MAX_CHILDREN
      requires sibling !in Repr && sibling.children !in Repr && sibling.childBoxes !in Repr
      requires Untouched(half, sibling.Repr) && UntouchedFrom(i, sibling.Repr)
      modifies sibling, sibling.children, sibling.childBoxes
      ensures Valid() && sibling.Valid() && sibling.Repr == old(sibling.Repr) + children[i].Repr && children[i].Repr <= Repr
      ensures Untouched(half, sibling.Repr) && UntouchedFrom(i + 1, sibling.Repr)
      ensures sibling.tree == Node(Extend(old(sibling.bbox), childBoxes[i]), old(sibling.tree).slots + [tree.slots[i]])
    {
      sibling.AppendChild(children[i], childBoxes[i]);
    }

    ghost predicate UntouchedFrom(n: nat, objects: set<object>)
      reads this, children, set i | 0 <= i < children.Length :: children[i]
    {
      forall i :: n <= i < count && i < children.Length && children[i] != null ==> children[i].Repr !! objects
    }

    /** None of `objects` belongs to this node itself or to its first `n` children. */
    ghost predicate Untouched(n: nat, objects: set<object>)
      reads this, children, set i | 0 <= i < children.Length :: children[i]
    {
      && this !in objects && leaves !in objects && children !in objects && childBoxes !in objects
      && forall i :: 0 <= i < n && i < children.Length && children[i] != null ==> children[i].Repr !! objects
    }

    /** Forgets the entries from `half` on, and with them the objects `given` away. */
    method Truncate(half: nat, ghost given: set<object>)
      requires Valid() && !isLeaf && half <= count
      requires Untouched(half, given)
      modifies this
      ensures Valid() && Repr == old(Repr) - given && count == half
      ensures tree == Node(old(tree).box, old(tree).slots[..half])
    {
      Repr, parts := Repr - given, parts[..half];
      count := half;
      tree := Node(bbox, tree.slots[..half]);
    }

    /** `r_tree_split_node` on a full internal node: the upper half moves to a new internal node. */
    method SplitInternal() returns (sibling: RNode)
      requires Valid() && !isLeaf && count == MAX_CHILDREN
      modifies this
      ensures Valid() && Repr <= old(Repr) && count == MAX_CHILDREN / 2
      ensures sibling.Valid() && sibling.Repr !! Repr && fresh(sibling.Repr - old(Repr))
      ensures var slots := old(tree).slots; var half := |slots| / 2;
              && tree == Node(BoxOfSlots(slots[..half]), slots[..half])
              && sibling.tree == Node(BoxOfSlots(slots[half..]), slots[half..])
    {
      hide Valid;
      sibling := new RNode(false);
      var half := count / 2;
      CopyUpper(half, sibling);
      Truncate(half, sibling.Repr);
      RecomputeInternalBox();
    }

    /** `Valid`, but for child `c`, which has just changed below this node. */
    ghost predicate ValidExcept(c: nat)
      reads this, children, Repr, if c < children.Length && children[c] != null then {children[c]} + children[c].Repr else {}
    {
      && this in Repr && leaves in Repr && children in Repr && childBoxes in Repr
      && leaves.Length == MAX_CHILDREN && children.Length == MAX_CHILDREN && childBoxes.Length == MAX_CHILDREN
      && !isLeaf && c < count <= MAX_CHILDREN
      && tree.Node? && tree.box == bbox && |tree.slots| == count
      && (forall i :: 0 <= i < count ==> children[i] != null)
      && (forall i :: 0 <= i < count && i != c ==> Below(children[i]))
      && (forall i :: 0 <= i < count && i != c ==> tree.slots[i] == Slot(children[i].tree, childBoxes[i]))
      && children[c].Valid()
      && this !in children[c].Repr && leaves !in children[c].Repr
      && children !in children[c].Repr && childBoxes !in children[c].Repr
      && |parts| == count && (forall i :: 0 <= i < count && i != c ==> parts[i] == children[i].Repr)
      && (forall i :: 0 <= i < count && i != c ==> parts[i] !! children[c].Repr)
      && Disjoint(parts)
    }

    /** Takes over what child `c` has become, without the objects `given` to its sibling. */
    ghost method Absorb(c: nat, given: set<object>)
      requires ValidExcept(c) && UntouchedBut(c, given) && children[c].Repr !! given
      modifies this`Repr, this`tree, this`parts
      ensures Valid() && Repr == old(Repr) - given + children[c].Repr
      ensures tree == Node(bbox, old(tree).slots[c := Slot(children[c].tree, childBoxes[c])])
    {
      Repr, parts := Repr - given + children[c].Repr, parts[c := children[c].Repr];
      tree := Node(bbox, tree.slots[c := Slot(children[c].tree, childBoxes[c])]);
    }

    ghost predicate UntouchedBut(c: nat, objects: set<object>)
      reads this, children, set i | 0 <= i < children.Length :: children[i]
    {
      && this !in objects && leaves !in objects && children !in objects && childBoxes !in objects
      && forall i :: 0 <= i < count && i < children.Length && i != c && children[i] != null ==>
           children[i].Repr !! objects && children[i] !in objects
    }

    /** Copies the box of child `c` into this node. */
    method RefreshChildBox(c: nat)
      requires Valid() && !isLeaf && c < count
      modifies this`tree, childBoxes
      ensures Valid()
      ensures tree == Node(bbox, old(tree).slots[c := Slot(children[c].tree, children[c].tree.box)])
    {
      childBoxes[c] := children[c].bbox;
      tree := Node(bbox, tree.slots[c := Slot(children[c].tree, childBoxes[c])]);
    }

    /** `r_tree_insert_recursive`: the node split off, or null. */
    method InsertRec(item: Item) returns (split: RNode?)
      requires Valid() && Insertable(tree)
      modifies Repr
      decreases Repr, 2
      ensures Valid() && fresh(Repr - old(Repr))
      ensures split != null ==> split.Valid() && split.Repr !! Repr && fresh(split.Repr - old(Repr))
      ensures Grown(tree, if split == null then None else Some(split.tree)) == Insert(old(tree), item, false)
    {
      hide Valid;
      if isLeaf {
        split := InsertIntoLeafNode(item);
      } else {
        split := InsertIntoInternalNode(item);
      }
    }

    method InsertIntoInternalNode(item: Item) returns (split: RNode?)
      requires Valid() && Insertable(tree) && !isLeaf
      modifies Repr
      decreases Repr, 1
      ensures Valid() && fresh(Repr - old(Repr))
      ensures split != null ==> split.Valid() && split.Repr !! Repr && fresh(split.Repr - old(Repr))
      ensures Grown(tree, if split == null then None else Some(split.tree)) == Insert(old(tree), item, false)
    {
      hide Valid;
      var c := ChooseSubtree(item.box);
      ChooseIsFirstLeast(tree.slots, item.box, |tree.slots|);
      InsertInSteps(tree, item, c);
      var splitChild := InsertBelow(item, c);
      split := Settle(c, splitChild);
    }

    /** What a node does once its child `c` took the item. */
    method Settle(c: nat, splitChild: RNode?) returns (split: RNode?)
      requires Valid() && !isLeaf && c < count
      requires splitChild != null ==> splitChild.Valid() && splitChild.Repr !! Repr
      modifies this, children, childBoxes
      ensures Valid() && Repr <= old(Repr) + if splitChild == null then {} else splitChild.Repr
      ensures split != null ==> split.Valid() && split.Repr !! Repr && fresh(split.Repr - old(Repr))
      ensures var slots := old(tree).slots;
              var kept := slots[c := Slot(slots[c].child, slots[c].child.box)];
              Grown(tree, if split == null then None else Some(split.tree)) ==
              if splitChild == null then Grown(Node(BoxOfSlots(kept), kept), None)
              else AddSlot(old(tree).box, slots, Slot(old(splitChild.tree), old(splitChild.tree.box)))
    {
      if splitChild == null {
        RefreshChildBox(c);
        RecomputeInternalBox();
        split := null;
      } else {
        split := Adopt(splitChild);
      }
    }

    method InsertIntoLeafNode(item: Item) returns (split: RNode?)
      requires Valid() && isLeaf
      modifies this, leaves
      ensures Valid() && Repr == old(Repr)
      ensures split != null ==> split.Valid() && fresh(split.Repr)
      ensures Grown(tree, if split == null then None else Some(split.tree)) == AddItem(old(tree).box, old(tree).items, item)
    {
      if count < MAX_CHILDREN {
        AppendItem(item);
        split := null;
      } else {
        split := SplitLeaf();
        AppendItem(item);
      }
    }

    /** Adds a child split off below, splitting this node first when it is full. */
    method Adopt(child: RNode) returns (split: RNode?)
      requires Valid() && !isLeaf && child.Valid() && child.Repr !! Repr
      modifies this, children, childBoxes
      ensures Valid() && Repr <= old(Repr) + child.Repr
      ensures split != null ==> split.Valid() && split.Repr !! Repr && fresh(split.Repr - old(Repr))
      ensures Grown(tree, if split == null then None else Some(split.tree))
           == AddSlot(old(tree).box, old(tree).slots, Slot(child.tree, child.tree.box))
    {
      hide Valid;
      if count < MAX_CHILDREN {
        AppendChild(child, child.bbox);
        split := null;
      } else {
        split := SplitInternal();
        AppendChild(child, child.bbox);
      }
    }

    static lemma ChildIsInsertable(t: Tree, c: nat)
      requires t.Node? && Insertable(t) && c < |t.slots|
      ensures Insertable(t.slots[c].child)
    {
    }

    method InsertBelow(item: Item, c: nat) returns (split: RNode?)
      requires Valid() && !isLeaf && c < count && Insertable(tree)
      modifies Repr
      decreases Repr, 0
      ensures Valid() && !isLeaf && c < count && fresh(Repr - old(Repr))
      ensures split != null ==> split.Valid() && split.Repr !! Repr && fresh(split.Repr - old(Repr))
      ensures var below := Insert(old(tree).slots[c].child, item, false);
              && (split == null <==> below.extra.None?) && (split != null ==> split.tree == below.extra.value)
              && tree == Node(old(tree).box, old(tree).slots[c := Slot(below.node, old(tree).slots[c].childBox)])
    {
      hide RTreeSpec.Insert, Insertable, Disjoint;
      ChildIsInsertable(tree, c);
      assert Below(children[c]) && children[c].tree == tree.slots[c].child;
      DisjointFrom(parts, c);
      split := children[c].InsertRec(item);
      Absorb(c, if split == null then {} else split.Repr);
    }

    /** `r_tree_query_recursive`: appends the values found below this node to the results so far. */
    method QueryRec(q: Box, results: seq<string>) returns (r: seq<string>)
      requires Valid()
      decreases Repr
      ensures r == results + Query(tree, q)
    {
      if !Intersects(bbox, q) {
        r := results;
      } else if isLeaf {
        r := ScanLeaf(q, results);
      } else {
        r := results;
        for i := 0 to count
          invariant r == results + QuerySlots(tree.slots[..i], q)
        {
          assert tree.slots[..i + 1][..i] == tree.slots[..i];
          assert Below(children[i]);
          r := children[i].QueryRec(q, r);
        }
        assert tree.slots[..count] == tree.slots;
      }
    }

    method ScanLeaf(q: Box, results: seq<string>) returns (r: seq<string>)
      requires Valid() && isLeaf
      ensures r == results + Scan(tree.items, q)
    {
      r := results;
      for i := 0 to count
        invariant r == results + Scan(tree.items[..i], q)
      {
        assert tree.items[..i + 1][..i] == tree.items[..i];
        if Intersects(leaves[i].box, q) {
          r := r + [leaves[i].value];
        }
      }
      assert tree.items[..count] == tree.items;
    }
  }

  /** The tree object. The ghost `log` is the sequence of items inserted since creation. */
  class RTreeIndex {
    var root: RNode
    var height: nat
    var itemCount: nat
    ghost var log: seq<Item>
    ghost var Repr: set<object>

    ghost predicate Valid()
      reads this, Repr
      ensures Valid() ==> this in Repr
    {
      && this in Repr && root in Repr && root.Repr <= Repr && this !in root.Repr && root.Valid()
      && Value() == Run(log, false)
    }

    ghost function Value(): RTreeSpec.RTree
      reads this, root
    {
      RTree(root.tree, height, itemCount)
    }

    /** `r_tree_create`. */
    constructor ()
      ensures Valid() && fresh(Repr) && log == []
    {
      root := new RNode(true);
      height := 1;
      itemCount := 0;
      log := [];
      new;
      Repr := {this} + root.Repr;
    }

    /** `r_tree_insert`. The new value is that of the run extended by the item. */
    method Insert(item: Item)
      requires Valid()
      modifies Repr
      ensures Valid() && fresh(Repr - old(Repr)) && log == old(log) + [item]
      ensures Value() == InsertAtRoot(old(Value()), item, false)
    {
      hide RNode.Valid, Rooted, RTreeSpec.Insert;
      assert (log + [item])[..|log|] == log;
      ghost var before := Value();
      var split := root.InsertRec(item);
      if split != null {
        GrowRoot(split);
      }
      itemCount := itemCount + 1;
      log := log + [item];
      Repr := {this} + root.Repr;
      assert Value() == InsertAtRoot(before, item, false);
    }

    /** Puts a new root above the old one and the node split off it. */
    method GrowRoot(split: RNode)
      requires root.Valid() && split.Valid() && root.Repr !! split.Repr && this !in root.Repr && this !in split.Repr
      modifies this`root, this`height
      ensures root.Valid() && this !in root.Repr && height == old(height) + 1
      ensures fresh(root.Repr - old(root.Repr) - split.Repr)
      ensures root.tree == Regrow(Grown(old(root.tree), Some(split.tree)))
    {
      hide RNode.Valid;
      var newRoot := new RNode(false);
      newRoot.AppendChild(root, root.bbox);
      newRoot.AppendChild(split, split.bbox);
      root := newRoot;
      height := height + 1;
    }

    /** `r_tree_query`: a sub-multiset of the linear scan always, the linear scan itself after a safe run. */
    method Query(q: Box) returns (r: seq<string>)
      requires Valid()
      ensures r == RTreeSpec.Query(root.tree, q)
      ensures multiset(r) <= multiset(Scan(Items(root.tree), q))
      ensures SafeRun(log) ==> r == Scan(Items(root.tree), q) && multiset(r) == multiset(Scan(log, q))
      ensures multiset(Items(root.tree)) == multiset(log)
      ensures SafeRun(log) && Upright(q) && (forall i :: 0 <= i < |log| ==> Upright(log[i].box)) ==>
                forall v :: v in r <==> exists i :: 0 <= i < |log| && log[i].value == v && SharePoint(log[i].box, q)
    {
      hide SharePoint, Upright;
      r := root.QueryRec(q, []);
      QuerySound(root.tree, q);
      RunContents(log, false);
      if SafeRun(log) {
        SafeRunQueries(log, q);
        if Upright(q) && forall i :: 0 <= i < |log| ==> Upright(log[i].box) {
          forall v
            ensures v in r <==> exists i :: 0 <= i < |log| && log[i].value == v && SharePoint(log[i].box, q)
          {
            SafeRunFinds(log, q, v);
          }
        }
      }
    }

    /** `r_tree_size`: the number of items inserted so far. */
    method Size() returns (n: nat)
      requires Valid()
      ensures n == |log| == |Items(root.tree)|
    {
      n := itemCount;
      RunContents(log, false);
      assert |multiset(Items(root.tree))| == |multiset(log)|;
    }
  }
}
