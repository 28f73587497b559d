/**
 * The B-tree as the program keeps it: nodes are objects over fixed-size
 * arrays (`order - 1` key slots, `order` child slots) that `Insert`,
 * `InsertNonFull` and `SplitChild` update in place. Each node carries, as
 * ghost state, the `BTreeSpec.Node` value it stands for (`Model`) and the
 * set of objects it owns (`Repr`). Each method is proved to change the
 * models of the nodes it touches as the `BTreeSpec` function named in its
 * `ensures` says (`Insert`, `InsertNonFull`, `Descent`, `SplitAt`, `Upper`,
 * `Lower`, `InsertAt` at `Position`, `NewRoot`, `Traverse`), so what is
 * proved there about those functions holds of this imperative model too.
 */
module BTreeImpl {
  import opened Basics
  import opened BTreeSpec

  class BTreeNode {
    var NumKeys: int
    var Keys: array<int>
    var Children: array<BTreeNode?>
    var IsLeaf: bool

    /** The value this node and everything below it stands for. */
    ghost var Model: Node
    /** This node, its two arrays and everything the nodes below it own. */
    ghost var Repr: set<object>

    /**
     * The node invariant. Slots `0 .. NumKeys - 1` of `Keys` hold the keys
     * and, in an internal node, slots `0 .. NumKeys` of `Children` hold
     * valid children that own disjoint parts of the heap; what lies in the
     * slots after those is not looked at. A leaf has only null children.
     */
    ghost predicate Valid(order: int)
      reads this, Repr
      decreases Repr
    {
      this in Repr && Keys in Repr && Children in Repr &&
      Keys.Length == order - 1 && Children.Length == order &&
      0 <= NumKeys <= order - 1 &&
      Model.keys == Keys[..NumKeys] && Model.leaf == IsLeaf &&
      (IsLeaf ==> Model.children == [] && forall i :: 0 <= i < Children.Length ==> Children[i] == null) &&
      (!IsLeaf ==>
        NumKeys < Children.Length && |Model.children| == NumKeys + 1 &&
        (forall i :: 0 <= i <= NumKeys ==>
          Children[i] != null && Children[i] in Repr && Children[i].Repr <= Repr &&
          this !in Children[i].Repr && Keys !in Children[i].Repr && Children !in Children[i].Repr &&
          Children[i].Valid(order) && Children[i].Model == Model.children[i]) &&
        (forall i, j :: 0 <= i < j <= NumKeys ==> Children[i].Repr !! Children[j].Repr))
    }

    /** A node with no keys and all child slots null. */
    constructor (order: int, isLeaf: bool)
      requires order >= 2
      ensures Keys.Length == order - 1 && Children.Length == order
      ensures NumKeys == 0 && IsLeaf == isLeaf
      ensures forall i :: 0 <= i < Children.Length ==> Children[i] == null
      ensures fresh(Keys) && fresh(Children)
      ensures Model == Node([], [], isLeaf) && Repr == {this, Keys, Children}
    {
      Keys := new int[order - 1];
      Children := new BTreeNode?[order](_ => null);
      NumKeys := 0;
      IsLeaf := isLeaf;
      Model := Node([], [], isLeaf);
      Repr := {this, Keys, Children};
    }

    /**
     * A node holding the keys of `full` from slot `m` on and, unless `full`
     * is a leaf, its children from slot `m` on; the rest of its child slots
     * are null.
     */
    constructor UpperHalf(full: BTreeNode, m: int, order: int, ghost model: Node, ghost owned: set<object>)
      requires 1 <= m && 2 * m <= order <= 2 * m + 1
      requires full.Keys.Length == order - 1 && full.Children.Length == order
      ensures Keys.Length == order - 1 && Children.Length == order
      ensures NumKeys == m - 1 && IsLeaf == full.IsLeaf
      ensures forall k :: 0 <= k < m - 1 ==> Keys[k] == full.Keys[k + m]
      ensures full.IsLeaf ==> forall i :: 0 <= i < Children.Length ==> Children[i] == null
      ensures !full.IsLeaf ==> forall k :: 0 <= k < m ==> Children[k] == full.Children[k + m]
      ensures fresh(Keys) && fresh(Children)
      ensures Model == model && Repr == {this, Keys, Children} + owned
    {
      var keys := new int[order - 1];
      var children := new BTreeNode?[order](_ => null);
      CopyRange(full.Keys, m, keys, m - 1);
      if !full.IsLeaf {
        CopyRange(full.Children, m, children, m);
      }
      Keys := keys;
      Children := children;
      NumKeys := m - 1;
      IsLeaf := full.IsLeaf;
      Model := model;
      Repr := {this, keys, children} + owned;
    }

    /**
     * The child's half of `SplitChild`: the node keeps its first `m - 1`
     * keys (and first `m` children); the array slots after those are left
     * as they are but no longer count, and what the new sibling took over
     * (`gone`) leaves the footprint.
     */
    method Truncate(m: int, order: int, ghost gone: set<object>)
      requires 1 <= m && 2 * m <= order <= 2 * m + 1
      requires Valid(order) && NumKeys == order - 1
      requires this !in gone && Keys !in gone && Children !in gone
      requires !IsLeaf ==> forall j :: 0 <= j < m ==> Children[j].Repr !! gone
      modifies this
      ensures Valid(order) && Model == Lower(old(Model), m) && Repr == old(Repr) - gone
      ensures Keys == old(Keys) && Children == old(Children) && IsLeaf == old(IsLeaf) && NumKeys == m - 1
    {
      NumKeys, Model, Repr := m - 1, Lower(Model, m), Repr - gone;
    }

    /**
     * The parent's half of `SplitChild`: children `index + 1 ..` and keys
     * `index ..` move one slot right, from the last one down, `sibling`
     * takes child slot `index + 1`, `median` key slot `index`, and the node
     * has one key more.
     */
    method PlaceSplit(index: int, sibling: BTreeNode, median: int, ghost keys: seq<int>, ghost kids: seq<BTreeNode?>, ghost model: Node)
      requires 0 <= index <= NumKeys < Keys.Length && NumKeys + 1 < Children.Length
      requires keys == Keys[..NumKeys] && kids == Children[..NumKeys + 1]
      modifies this, Keys, Children
      ensures Keys == old(Keys) && Children == old(Children) && IsLeaf == old(IsLeaf)
      ensures NumKeys == old(NumKeys) + 1
      ensures Keys[..NumKeys] == keys[..index] + [median] + keys[index..]
      ensures forall i :: 0 <= i <= index ==> Children[i] == kids[i]
      ensures Children[index + 1] == sibling
      ensures forall i :: index + 2 <= i <= NumKeys ==> Children[i] == kids[i - 1]
      ensures Model == model && Repr == old(Repr) + {sibling, sibling.Keys, sibling.Children}
    {
      ShiftRight(Children, index + 1, NumKeys + 1);
      Children[index + 1] := sibling;
      ShiftRight(Keys, index, NumKeys);
      Keys[index] := median;
      NumKeys := NumKeys + 1;
      Model, Repr := model, Repr + {sibling, sibling.Keys, sibling.Children};
      assert Keys[..NumKeys] == keys[..index] + [median] + keys[index..];
    }

    /**
     * The scan of `InsertNonFull` in an internal node: from the last key,
     * step left past every key greater than `key`; the answer is the slot
     * after the one where the scan stops.
     */
    method ChildSlot(key: int) returns (i: int)
      requires 0 <= NumKeys <= Keys.Length
      ensures 0 <= i <= NumKeys && i == Position(Keys[..NumKeys], key)
    {
      i := NumKeys - 1;
      while i >= 0 && Keys[i] > key
        invariant -1 <= i < NumKeys
        invariant forall j :: i < j < NumKeys ==> Keys[j] > key
      {
        i := i - 1;
      }
      i := i + 1;
      PositionUnique(Keys[..NumKeys], key, i);
    }

    /**
     * The leaf case of `InsertNonFull`: from the last key down, every key
     * greater than `key` moves one slot right, `key` goes into the gap and
     * the leaf has one key more.
     */
    method InsertIntoLeaf(key: int, order: int)
      requires Valid(order) && IsLeaf && NumKeys < order - 1
      modifies this, Keys
      ensures Valid(order) && Repr == old(Repr)
      ensures Model == Node(InsertAt(old(Model.keys), Position(old(Model.keys), key), key), [], true)
    {
      var p := PlaceKey(Keys, NumKeys, key);
      NumKeys := NumKeys + 1;
      Model := Node(Keys[..NumKeys], [], true);
    }

    /** What the children in slots `m .. NumKeys` own. */
    ghost function ReprFrom(m: int, order: int): set<object>
      requires Valid(order) && !IsLeaf && 0 <= m
      reads this, Repr
      decreases NumKeys + 1 - m
    {
      if m > NumKeys then {} else Children[m].Repr + ReprFrom(m + 1, order)
    }

    /** The children from slot `m` on own part of this node's footprint and nothing of the children before `m`. */
    lemma {:induction false} ReprFromSeparate(m: int, order: int)
      requires Valid(order) && !IsLeaf && 0 <= m
      ensures ReprFrom(m, order) <= Repr - {this, Keys, Children}
      ensures forall k :: m <= k <= NumKeys ==> Children[k].Repr <= ReprFrom(m, order)
      ensures forall j :: 0 <= j < m && j <= NumKeys ==> Children[j].Repr !! ReprFrom(m, order)
      decreases NumKeys + 1 - m
    {
      if m <= NumKeys {
        ReprFromSeparate(m + 1, order);
      }
    }
  }

  class BTree {
    var root: BTreeNode?
    const order: int

    /** The tree's value: `None` while the root is null. */
    ghost function Model(): Option<Node>
      reads this, root
    {
      if root == null then None else Some(root.Model)
    }

    /** This object and everything the root owns. */
    ghost function Repr(): set<object>
      reads this, root
    {
      {this} + if root == null then {} else root.Repr
    }

    ghost predicate Valid()
      reads this, root, Repr()
    {
      order >= 2 &&
      (root != null ==> this !in root.Repr && root.Valid(order) && WellFormed(root.Model, order))
    }

    /** An empty tree of the given order. */
    constructor (order: int)
      requires order >= 2
      ensures Valid() && fresh(Repr()) && this.order == order && Model() == None
    {
      this.order := order;
      root := null;
    }

    /**
     * `Insert(key)`. An empty tree gets a leaf root holding `key`. A full
     * root is split under a new root with no keys, and the insertion goes
     * into the half the promoted key points to; otherwise it goes into the
     * root, which has room. The tree's value changes as `BTreeSpec.Insert`
     * says, so it stays well formed (see the lemmas there for what else it keeps).
     */
    method Insert(key: int)
      requires Valid()
      modifies Repr()
      ensures Valid() && fresh(Repr() - old(Repr()))
      ensures Model() == Some(BTreeSpec.Insert(old(Model()), key, order))
    {
      if root == null {
        var r := LeafRoot(key);
        root := r;
      } else if root.NumKeys == order - 1 {
        InsertBelowNewRoot(key);
      } else {
        InsertNonFull(root, key);
      }
    }

    /** `Insert` when the root is full: the tree grows one level. */
    method InsertBelowNewRoot(key: int)
      requires Valid() && root != null && root.NumKeys == order - 1
      modifies Repr()
      ensures Valid() && fresh(Repr() - old(Repr()))
      ensures Model() == Some(BTreeSpec.Insert(old(Model()), key, order))
    {
      var newRoot := Grow(root, key);
      root := newRoot;
    }

    /** The root `Insert` makes for an empty tree: a leaf holding `key` alone. */
    method LeafRoot(key: int) returns (r: BTreeNode)
      requires order >= 2
      ensures fresh(r.Repr) && r.Valid(order) && r.Model == Node([key], [], true)
    {
      r := new BTreeNode(order, true);
      r.Keys[0] := key;
      r.NumKeys := 1;
      r.Model := Node([key], [], true);
      assert r.Keys[..1] == [key];
    }

    /**
     * The full-root case of `Insert`: a new internal root takes the old one
     * as its only child, splits it, and the insertion descends into child 1
     * when the promoted key is less than `key`, into child 0 otherwise.
     */
    method Grow(r: BTreeNode, key: int) returns (newRoot: BTreeNode)
      requires order >= 2 && r.Valid(order) && WellFormed(r.Model, order) && r.NumKeys == order - 1
      modifies r.Repr
      ensures newRoot.Valid(order) && fresh(newRoot.Repr - old(r.Repr))
      ensures newRoot.Model == BTreeSpec.Insert(Some(old(r.Model)), key, order)
    {
      ghost var t := r.Model;
      newRoot := SplitRoot(r);
      ghost var R := newRoot.Repr;
      var index := if newRoot.Keys[0] < key then 1 else 0;
      DescentPick(NewRoot(t), 0, key, order);
      InsertFullRoot(t, key, order, newRoot.Model, index);
      label Descend:
      DescendInto(newRoot, index, key);
      assert fresh(newRoot.Repr - old(r.Repr)) by {
        forall o | o in newRoot.Repr && o !in old(r.Repr)
          ensures !old(allocated(o))
        {
          if o !in R {
            assert !old@Descend(allocated(o));
          }
        }
      }
    }

    /** A new root, with `r` as its only child, after splitting `r`. */
    method SplitRoot(r: BTreeNode) returns (newRoot: BTreeNode)
      requires order >= 2 && r.Valid(order) && WellFormed(r.Model, order) && r.NumKeys == order - 1
      modifies r.Repr
      ensures newRoot.Valid(order) && fresh(newRoot.Repr - old(r.Repr)) && newRoot.NumKeys == 1
      ensures Splittable(NewRoot(old(r.Model)), 0, order / 2)
      ensures newRoot.Model == SplitAt(NewRoot(old(r.Model)), 0, order / 2)
    {
      ghost var t := r.Model;
      newRoot := Above(r);
      NewRootWellFormed(t, order);
      ghost var R1 := newRoot.Repr;
      label Split:
      SplitChild(newRoot, 0);
      assert fresh(newRoot.Repr - old(r.Repr)) by {
        forall o | o in newRoot.Repr && o !in old(r.Repr)
          ensures !old(allocated(o))
        {
          if o !in R1 {
            assert !old@Split(allocated(o));
          }
        }
      }
    }

    /** A new internal root with no keys whose only child is `r`. */
    method Above(r: BTreeNode) returns (newRoot: BTreeNode)
      requires order >= 2 && r.Valid(order)
      ensures fresh(newRoot) && fresh(newRoot.Keys) && fresh(newRoot.Children)
      ensures newRoot.Valid(order) && newRoot.Model == NewRoot(r.Model)
      ensures newRoot.NumKeys == 0 && !newRoot.IsLeaf && newRoot.Children[0] == r
      ensures newRoot.Repr == {newRoot, newRoot.Keys, newRoot.Children} + r.Repr
    {
      newRoot := new BTreeNode(order, false);
      newRoot.Children[0] := r;
      newRoot.Model, newRoot.Repr := NewRoot(r.Model), newRoot.Repr + r.Repr;
      assert newRoot.Keys[..0] == [];
    }

    /** The keys `Traverse()` prints, in the order it prints them. */
    method Traverse() returns (printed: seq<int>)
      requires Valid()
      ensures printed == if Model().None? then [] else BTreeSpec.Traverse(Model().value)
    {
      printed := TraverseFrom(root);
    }

    /**
     * `Traverse(node)`: for each key, the keys below the child before it
     * and then the key; then the keys below the last child. A null slot
     * prints nothing.
     */
    method TraverseFrom(node: BTreeNode?) returns (printed: seq<int>)
      requires node != null ==> node.Valid(order)
      ensures printed == if node == null then [] else BTreeSpec.Traverse(node.Model)
      decreases if node == null then {} else node.Repr
    {
      printed := [];
      if node != null {
        var i := 0;
        while i < node.NumKeys
          invariant 0 <= i <= node.NumKeys
          invariant printed == Walk(node.Model, i)
        {
          var below := TraverseFrom(node.Children[i]);
          printed := printed + below + [node.Keys[i]];
          i := i + 1;
        }
        var below := TraverseFrom(node.Children[node.NumKeys]);
        printed := printed + below;
      }
    }

    /**
     * `SplitChild(parent, index)`: the full child at `index` keeps its
     * lower half, a new sibling takes its upper half at `index + 1`, and
     * key `order / 2 - 1` of the child moves up to key slot `index`. The
     * parent's value changes as `BTreeSpec.SplitChild` says.
     */
    method SplitChild(parent: BTreeNode, index: int)
      requires order >= 2 && parent.Valid(order) && !parent.IsLeaf
      requires 0 <= index <= parent.NumKeys < order - 1
      requires parent.Children[index].NumKeys == order - 1 && Full(parent.Model.children[index], order)
      modifies parent, parent.Keys, parent.Children, parent.Children[index]
      ensures parent.Valid(order) && fresh(parent.Repr - old(parent.Repr))
      ensures Splittable(old(parent.Model), index, order / 2)
      ensures parent.Model == SplitAt(old(parent.Model), index, order / 2)
    {
      var m := order / 2;
      assert 1 <= m && 2 * m <= order <= 2 * m + 1;
      var child := parent.Children[index];
      assert Splittable(parent.Model, index, m);
      var sibling := NewSibling(child, m);
      FinishSplit(parent, index, child, sibling, m, order);
    }

    /**
     * The first half of `SplitChild`: a new node, a leaf exactly when
     * `child` is, takes the keys after the median of the full `child` and,
     * in an internal node, the children after it.
     */
    method NewSibling(child: BTreeNode, m: int) returns (sibling: BTreeNode)
      requires 1 <= m && 2 * m <= order <= 2 * m + 1
      requires child.Valid(order) && child.NumKeys == order - 1
      ensures fresh(sibling) && fresh(sibling.Keys) && fresh(sibling.Children)
      ensures sibling.Valid(order) && sibling.Model == Upper(child.Model, m)
      ensures sibling.Repr - {sibling, sibling.Keys, sibling.Children} <= child.Repr - {child, child.Keys, child.Children}
      ensures !child.IsLeaf ==> forall j :: 0 <= j < m ==> child.Children[j].Repr !! sibling.Repr
    {
      sibling := new BTreeNode.UpperHalf(child, m, order, Upper(child.Model, m),
        if child.IsLeaf then {} else child.ReprFrom(m, order));
      SiblingValid(child, sibling, m, order);
    }

    /**
     * `InsertNonFull(node, key)` on a node with room for one more key. A
     * leaf takes `key` in place. In an internal node the scan finds the
     * child to descend into; a full child is split first, and the descent
     * moves one child right when the key moved up is less than `key`.
     */
    method InsertNonFull(node: BTreeNode, key: int)
      requires order >= 2 && node.Valid(order) && WellFormed(node.Model, order) && node.NumKeys < order - 1
      modifies node.Repr
      ensures node.Valid(order) && fresh(node.Repr - old(node.Repr))
      ensures node.Model == BTreeSpec.InsertNonFull(old(node.Model), key, order)
      decreases Height(node.Model), 1
    {
      if node.IsLeaf {
        node.InsertIntoLeaf(key, order);
      } else {
        var i := ChooseChild(node, key);
        DescendInto(node, i, key);
      }
    }

    /**
     * The internal-node part of `InsertNonFull` before it descends: the
     * scan picks child `i`; a full child is split, and `i` moves one right
     * when the key moved up is less than `key`.
     */
    method ChooseChild(node: BTreeNode, key: int) returns (i: int)
      requires order >= 2 && node.Valid(order) && WellFormed(node.Model, order)
      requires !node.IsLeaf && node.NumKeys < order - 1
      modifies node.Repr
      ensures node.Valid(order) && fresh(node.Repr - old(node.Repr))
      ensures (node.Model, i) == BTreeSpec.Descent(old(node.Model), Position(old(node.Model.keys), key), key, order)
      ensures WellFormed(node.Model, order) && Height(node.Model) == Height(old(node.Model)) && !node.IsLeaf
      ensures 0 <= i <= node.NumKeys && |node.Model.children[i].keys| < order - 1
    {
      ghost var n0 := node.Model;
      i := node.ChildSlot(key);
      assert WellFormed(n0.children[i], order);
      if node.Children[i].NumKeys == order - 1 {
        i := SplitFor(node, i, key);
      }
    }

    /** The full child `i` is split, and the descent goes right of the promoted key when it is less than `key`. */
    method SplitFor(node: BTreeNode, i: int, key: int) returns (j: int)
      requires order >= 2 && node.Valid(order) && WellFormed(node.Model, order)
      requires !node.IsLeaf && 0 <= i <= node.NumKeys < order - 1
      requires node.Children[i].NumKeys == order - 1 && WellFormed(node.Model.children[i], order)
      modifies node, node.Keys, node.Children, node.Children[i]
      ensures node.Valid(order) && fresh(node.Repr - old(node.Repr))
      ensures (node.Model, j) == BTreeSpec.Descent(old(node.Model), i, key, order)
    {
      SplitChild(node, i);
      j := if node.Keys[i] < key then i + 1 else i;
    }

    /** Inserting into child `j` of `node`, which has room for one more key. */
    method DescendInto(node: BTreeNode, j: int, key: int)
      requires order >= 2 && node.Valid(order) && WellFormed(node.Model, order) && !node.IsLeaf
      requires 0 <= j <= node.NumKeys && |node.Model.children[j].keys| < order - 1
      modifies node.Repr
      ensures node.Valid(order) && fresh(node.Repr - old(node.Repr))
      ensures node.Model == BTreeSpec.DescendInto(old(node.Model), j, key, order)
      decreases Height(node.Model), 0
    {
      var child := node.Children[j];
      assert WellFormed(node.Model.children[j], order) && Height(node.Model.children[j]) < Height(node.Model);
      ghost var target := BTreeSpec.DescendInto(node.Model, j, key, order);
      assert target == node.Model.(children := node.Model.children[j := BTreeSpec.InsertNonFull(node.Model.children[j], key, order)]);
      assert child.Valid(order) && child.Model == node.Model.children[j];
      label Before:
      node.Model := target;
      InsertNonFull(child, key);
      node.Repr := node.Repr + child.Repr;
      ChildDone@Before(node, j, order);
    }
  }

  /**
   * The second half of `SplitChild`: the full `child` at `index` keeps
   * its lower half, and `sibling`, already holding the upper half, goes in
   * at `index + 1` with the median of `child` as key `index` of `parent`.
   */
  method FinishSplit(parent: BTreeNode, index: int, child: BTreeNode, sibling: BTreeNode, m: int, order: int)
    requires 1 <= m && 2 * m <= order <= 2 * m + 1
    requires parent.Valid(order) && !parent.IsLeaf && 0 <= index <= parent.NumKeys < order - 1
    requires child == parent.Children[index] && child.Valid(order) && child.NumKeys == order - 1
    requires Splittable(parent.Model, index, m)
    requires sibling.Valid(order) && sibling.Model == Upper(child.Model, m)
    requires {sibling, sibling.Keys, sibling.Children} !! parent.Repr
    requires sibling.Repr - {sibling, sibling.Keys, sibling.Children} <= child.Repr - {child, child.Keys, child.Children}
    requires !child.IsLeaf ==> forall j :: 0 <= j < m ==> child.Children[j].Repr !! sibling.Repr
    modifies parent, parent.Keys, parent.Children, child
    ensures parent.Valid(order) && parent.Model == SplitAt(old(parent.Model), index, m)
    ensures parent.Repr == old(parent.Repr) + {sibling, sibling.Keys, sibling.Children}
  {
    ghost var p0 := parent.Model;
    ghost var kids := parent.Children[..parent.NumKeys + 1];
    Apart(parent, index, order);
    ghost var CR := child.Repr;
    ghost var S := sibling.Repr;
    ghost var gone := S - {sibling, sibling.Keys, sibling.Children};
    assert S == {sibling, sibling.Keys, sibling.Children} + gone;
    assert child !in S && parent !in S && parent.Keys !in S && parent.Children !in S;
    child.Truncate(m, order, gone);
    label Truncated:
    ghost var T := child.Repr;
    assert parent !in T && parent.Keys !in T && parent.Children !in T;
    parent.PlaceSplit(index, sibling, child.Keys[m - 1], p0.keys, kids, SplitAt(p0, index, m));
    assert unchanged(S);
    ValidKept(sibling, order);
    assert unchanged@Truncated(T);
    ValidKept@Truncated(child, order);
    assert unchanged(parent.Repr - {parent, parent.Keys, parent.Children, child});
    SplitDone(parent, index, kids, child, sibling, p0, m, order, CR, gone);
  }

  /** The node `NewSibling` builds satisfies the node invariant. */
  lemma SiblingValid(child: BTreeNode, sibling: BTreeNode, m: int, order: int)
    requires 1 <= m && 2 * m <= order <= 2 * m + 1
    requires child.Valid(order) && child.NumKeys == order - 1
    requires sibling.Keys.Length == order - 1 && sibling.Children.Length == order
    requires sibling.NumKeys == m - 1 && sibling.IsLeaf == child.IsLeaf
    requires forall k :: 0 <= k < m - 1 ==> sibling.Keys[k] == child.Keys[k + m]
    requires child.IsLeaf ==> forall i :: 0 <= i < sibling.Children.Length ==> sibling.Children[i] == null
    requires !child.IsLeaf ==> forall k :: 0 <= k < m ==> sibling.Children[k] == child.Children[k + m]
    requires sibling.Model == Upper(child.Model, m)
    requires sibling.Repr == {sibling, sibling.Keys, sibling.Children} + if child.IsLeaf then {} else child.ReprFrom(m, order)
    requires sibling !in child.Repr && sibling.Keys !in child.Repr && sibling.Children !in child.Repr
    ensures sibling.Valid(order)
    ensures sibling.Repr - {sibling, sibling.Keys, sibling.Children} <= child.Repr - {child, child.Keys, child.Children}
    ensures !child.IsLeaf ==> forall j :: 0 <= j < m ==> child.Children[j].Repr !! sibling.Repr
  {
    assert sibling.Keys[..m - 1] == child.Keys[m..2 * m - 1];
    if !child.IsLeaf {
      child.ReprFromSeparate(m, order);
      forall k | 0 <= k < m
        ensures sibling.Children[k] != null && sibling.Children[k].Repr <= sibling.Repr
        ensures sibling.Children[k] in sibling.Repr
        ensures sibling !in sibling.Children[k].Repr
        ensures sibling.Keys !in sibling.Children[k].Repr && sibling.Children !in sibling.Children[k].Repr
        ensures sibling.Children[k].Valid(order) && sibling.Children[k].Model == sibling.Model.children[k]
      {
        assert sibling.Children[k] == child.Children[k + m];
      }
      forall i, j | 0 <= i < j < m
        ensures sibling.Children[i].Repr !! sibling.Children[j].Repr
      {
        assert child.Children[i + m].Repr !! child.Children[j + m].Repr;
      }
    }
  }

  /** The children of a valid node other than the one at `index` share nothing with it or with the node. */
  lemma Apart(parent: BTreeNode, index: int, order: int)
    requires parent.Valid(order) && !parent.IsLeaf && 0 <= index <= parent.NumKeys
    ensures forall i :: 0 <= i <= parent.NumKeys && i != index ==>
      parent.Children[i].Repr !! parent.Children[index].Repr && parent.Children[i] != parent.Children[index]
  {
    forall i | 0 <= i <= parent.NumKeys && i != index
      ensures parent.Children[i].Repr !! parent.Children[index].Repr
    {
      if i < index {
        assert parent.Children[i].Repr !! parent.Children[index].Repr;
      } else {
        assert parent.Children[index].Repr !! parent.Children[i].Repr;
      }
    }
  }

  /**
   * After `SplitChild`: the parent whose child `index` was `kids[index]`
   * and now holds `child` (truncated) and `sibling`, with the other
   * children moved as `PlaceSplit` moves them, is valid again. `R` is what
   * the parent owned before, `C` covers what the child and its new sibling
   * own now.
   */
  lemma SplitValid(parent: BTreeNode, index: int, kids: seq<BTreeNode?>, child: BTreeNode, sibling: BTreeNode,
                   p0: Node, order: int, R: set<object>, C: set<object>)
    requires parent.Keys.Length == order - 1 && parent.Children.Length == order && !parent.IsLeaf
    requires 0 <= index < |kids| && parent.NumKeys == |kids| && |kids| < order
    requires parent.Keys[..parent.NumKeys] == parent.Model.keys && !parent.Model.leaf
    requires |parent.Model.children| == |kids| + 1 && |p0.children| == |kids|
    requires forall i :: 0 <= i < index ==> parent.Children[i] == kids[i] && parent.Model.children[i] == p0.children[i]
    requires parent.Children[index] == child && parent.Children[index + 1] == sibling
    requires parent.Model.children[index] == child.Model && parent.Model.children[index + 1] == sibling.Model
    requires forall i :: index + 2 <= i <= |kids| ==> parent.Children[i] == kids[i - 1] && parent.Model.children[i] == p0.children[i - 1]
    requires parent in parent.Repr && parent.Keys in parent.Repr && parent.Children in parent.Repr && R <= parent.Repr
    requires forall i :: 0 <= i < |kids| && i != index ==>
      kids[i] != null && kids[i] in R && kids[i].Repr <= R &&
      parent !in kids[i].Repr && parent.Keys !in kids[i].Repr && parent.Children !in kids[i].Repr &&
      kids[i].Valid(order) && kids[i].Model == p0.children[i] && kids[i].Repr !! C
    requires forall i, j :: 0 <= i < j < |kids| && i != index && j != index ==> kids[i].Repr !! kids[j].Repr
    requires child.Repr <= C && sibling.Repr <= C && child.Repr !! sibling.Repr
    requires child in parent.Repr && child.Repr <= parent.Repr && child.Valid(order)
    requires parent !in child.Repr && parent.Keys !in child.Repr && parent.Children !in child.Repr
    requires sibling in parent.Repr && sibling.Repr <= parent.Repr && sibling.Valid(order)
    requires parent !in sibling.Repr && parent.Keys !in sibling.Repr && parent.Children !in sibling.Repr
    ensures parent.Valid(order)
  {
    var r := parent.Model;
    forall i | 0 <= i <= parent.NumKeys
      ensures parent.Children[i] != null && parent.Children[i] in parent.Repr && parent.Children[i].Repr <= parent.Repr
      ensures parent !in parent.Children[i].Repr && parent.Keys !in parent.Children[i].Repr && parent.Children !in parent.Children[i].Repr
      ensures parent.Children[i].Valid(order) && parent.Children[i].Model == r.children[i]
    {
      if i < index {
        assert parent.Children[i] == kids[i];
      } else if index + 2 <= i {
        assert parent.Children[i] == kids[i - 1];
      }
    }
    forall i, j | 0 <= i < j <= parent.NumKeys
      ensures parent.Children[i].Repr !! parent.Children[j].Repr
    {
      SlotsApart(parent, index, kids, child, sibling, i, j, C);
    }
  }

  /** A valid node stays valid, with the same value and footprint, while nothing it owns changes. */
  twostate lemma ValidKept(n: BTreeNode, new order: int)
    requires old(n.Valid(order)) && unchanged(old(n.Repr))
    ensures n.Valid(order) && n.Repr == old(n.Repr) && n.Model == old(n.Model)
  {
  }

  /**
   * The end of `SplitChild`, from the parent as it was on entry: the new
   * sibling owns `gone`, taken from what the child owned (`CR`), and three
   * new objects; the child owns the rest of `CR`; nothing else the parent
   * owned has changed, and the parent's arrays are as `PlaceSplit` left
   * them. Then the parent is valid again.
   */
  twostate lemma SplitDone(parent: BTreeNode, new index: int, new kids: seq<BTreeNode?>, new child: BTreeNode, new sibling: BTreeNode,
                           new p0: Node, new m: int, new order: int, new CR: set<object>, new gone: set<object>)
    requires 1 <= m && 2 * m <= order <= 2 * m + 1
    requires old(parent.Valid(order)) && old(!parent.IsLeaf) && 0 <= index <= old(parent.NumKeys) < order - 1
    requires p0 == old(parent.Model) && kids == old(parent.Children[..parent.NumKeys + 1]) && child == kids[index]
    requires Splittable(p0, index, m) && CR == old(parent.Children[index].Repr)
    requires {sibling, sibling.Keys, sibling.Children} !! old(parent.Repr)
    requires gone <= CR - {child, child.Keys, child.Children}
    requires sibling.Valid(order) && sibling.Repr == {sibling, sibling.Keys, sibling.Children} + gone
    requires sibling.Model == Upper(p0.children[index], m)
    requires child.Valid(order) && child.Repr == CR - gone && child.Model == Lower(p0.children[index], m)
    requires unchanged(old(parent.Repr) - {parent, parent.Keys, parent.Children, child})
    requires parent.Keys == old(parent.Keys) && parent.Children == old(parent.Children) && !parent.IsLeaf
    requires parent.NumKeys == old(parent.NumKeys) + 1
    requires parent.Keys[..parent.NumKeys] == p0.keys[..index] + [p0.children[index].keys[m - 1]] + p0.keys[index..]
    requires forall i :: 0 <= i <= index ==> parent.Children[i] == kids[i]
    requires parent.Children[index + 1] == sibling
    requires forall i :: index + 2 <= i <= parent.NumKeys ==> parent.Children[i] == kids[i - 1]
    requires parent.Model == SplitAt(p0, index, m)
    requires parent.Repr == old(parent.Repr) + {sibling, sibling.Keys, sibling.Children}
    ensures parent.Valid(order)
  {
    var c0 := p0.children[index];
    PromoteSlots(p0, index, Lower(c0, m), c0.keys[m - 1], Upper(c0, m));
    var C := CR + {sibling, sibling.Keys, sibling.Children};
    assert old(parent !in child.Repr && parent.Keys !in child.Repr && parent.Children !in child.Repr);
    OthersKept(parent, index, kids, child, order, C);
    SplitValid(parent, index, kids, child, sibling, p0, order, old(parent.Repr), C);
  }

  /**
   * The end of `DescendInto`, from the node as it was before the descent:
   * only what child `j` owned has changed, the child is valid and owns
   * nothing the node owned besides what it owned before, and the node's
   * value and footprint take in the child's new ones. Then the node is
   * valid again. (The two `Valid` facts are written `== true` so that a
   * caller proves each as one fact rather than clause by clause.)
   */
  twostate lemma ChildDone(node: BTreeNode, new j: int, new order: int)
    requires old(node.Valid(order)) == true && old(!node.IsLeaf) && 0 <= j <= old(node.NumKeys)
    requires node.Keys == old(node.Keys) && node.Children == old(node.Children)
    requires node.NumKeys == old(node.NumKeys) && !node.IsLeaf
    requires unchanged(old(node.Repr) - {node} - old(node.Children[j].Repr))
    requires node.Children[j].Valid(order) == true && fresh(node.Children[j].Repr - old(node.Children[j].Repr))
    requires node.Model == old(node.Model).(children := old(node.Model.children)[j := node.Children[j].Model])
    requires node.Repr == old(node.Repr) + node.Children[j].Repr
    ensures node.Valid(order) && fresh(node.Repr - old(node.Repr))
  {
    var kids := old(node.Children[..node.NumKeys + 1]);
    assert old(node.Children !in node.Children[j].Repr);
    var child := node.Children[j];
    assert child == kids[j];
    var C := child.Repr;
    forall o | o in C
      ensures o in old(node.Children[j].Repr) || o !in old(node.Repr)
    {
    }
    OthersKept(node, j, kids, child, order, C);
    assert old(node !in child.Repr && node.Keys !in child.Repr && node.Children !in child.Repr);
    ChildValid(node, j, kids, child, order, old(node.Repr), C);
  }

  /**
   * A node whose child slots still hold `kids`, with child `j` valid and
   * owning only `C`, and the other children as valid and as apart as
   * before and owning nothing of `C`, is valid.
   */
  lemma ChildValid(node: BTreeNode, j: int, kids: seq<BTreeNode?>, child: BTreeNode, order: int, R: set<object>, C: set<object>)
    requires node.Keys.Length == order - 1 && node.Children.Length == order && !node.IsLeaf
    requires 0 <= j < |kids| && node.NumKeys + 1 == |kids| && 0 <= node.NumKeys <= order - 1
    requires node.Keys[..node.NumKeys] == node.Model.keys && !node.Model.leaf && |node.Model.children| == |kids|
    requires forall i :: 0 <= i < |kids| ==> node.Children[i] == kids[i]
    requires child == kids[j] && node.Model.children[j] == child.Model
    requires node in node.Repr && node.Keys in node.Repr && node.Children in node.Repr && R <= node.Repr
    requires forall i :: 0 <= i < |kids| && i != j ==>
      kids[i] != null && kids[i] in R && kids[i].Repr <= R &&
      node !in kids[i].Repr && node.Keys !in kids[i].Repr && node.Children !in kids[i].Repr &&
      kids[i].Valid(order) && kids[i].Model == node.Model.children[i] && kids[i].Repr !! C
    requires forall i, k :: 0 <= i < k < |kids| && i != j && k != j ==> kids[i].Repr !! kids[k].Repr
    requires child.Repr <= C && child in node.Repr && child.Repr <= node.Repr && child.Valid(order)
    requires node !in child.Repr && node.Keys !in child.Repr && node.Children !in child.Repr
    ensures node.Valid(order)
  {
    forall i, k | 0 <= i < k <= node.NumKeys
      ensures node.Children[i].Repr !! node.Children[k].Repr
    {
      if i == j {
        assert kids[k].Repr !! C;
      } else if k == j {
        assert kids[i].Repr !! C;
      }
    }
  }

  /**
   * The children of a valid node other than the one at `index`, when
   * nothing the node owned has changed except the node, its arrays and
   * that child, are as valid and as apart as they were, and own nothing of
   * `C`, which holds only what that child owned and objects the parent did not own.
   */
  twostate lemma OthersKept(parent: BTreeNode, new index: int, new kids: seq<BTreeNode?>, new child: BTreeNode, new order: int, new C: set<object>)
    requires old(parent.Valid(order)) && old(!parent.IsLeaf) && 0 <= index <= old(parent.NumKeys)
    requires kids == old(parent.Children[..parent.NumKeys + 1]) && child == kids[index]
    requires parent.Keys == old(parent.Keys) && parent.Children == old(parent.Children)
    requires unchanged(old(parent.Repr) - {parent, parent.Keys, parent.Children} - old(parent.Children[index].Repr))
    requires forall o :: o in C ==> o in old(parent.Children[index].Repr) || o !in old(parent.Repr)
    ensures forall i :: 0 <= i < |kids| && i != index ==>
      kids[i] != null && kids[i] in old(parent.Repr) && kids[i].Repr <= old(parent.Repr) &&
      parent !in kids[i].Repr && parent.Keys !in kids[i].Repr && parent.Children !in kids[i].Repr &&
      kids[i].Valid(order) && kids[i].Model == old(parent.Model.children[i]) && kids[i].Repr !! C
    ensures forall i, j :: 0 <= i < j < |kids| && i != index && j != index ==> kids[i].Repr !! kids[j].Repr
  {
    forall i | 0 <= i < |kids| && i != index
      ensures kids[i] != null && kids[i] in old(parent.Repr) && kids[i].Repr <= old(parent.Repr)
      ensures parent !in kids[i].Repr && parent.Keys !in kids[i].Repr && parent.Children !in kids[i].Repr
      ensures kids[i].Valid(order) && kids[i].Model == old(parent.Model.children[i]) && kids[i].Repr !! C
    {
      assert kids[i] == old(parent.Children[i]);
      assert old(parent.Children[i].Repr !! parent.Children[index].Repr) by {
        if i < index {
          assert old(parent.Children[i].Repr !! parent.Children[index].Repr);
        } else {
          assert old(parent.Children[index].Repr !! parent.Children[i].Repr);
        }
      }
      assert old(parent.Children[i].Valid(order));
    }
    forall i, j | 0 <= i < j < |kids| && i != index && j != index
      ensures kids[i].Repr !! kids[j].Repr
    {
      assert kids[i] == old(parent.Children[i]) && kids[j] == old(parent.Children[j]);
      assert old(parent.Children[i].Repr !! parent.Children[j].Repr);
    }
  }

  /** Two different child slots of the parent after the split own disjoint parts of the heap. */
  lemma SlotsApart(parent: BTreeNode, index: int, kids: seq<BTreeNode?>, child: BTreeNode, sibling: BTreeNode, i: int, j: int, C: set<object>)
    requires 0 <= index < |kids| && parent.NumKeys == |kids| && |kids| < parent.Children.Length
    requires 0 <= i < j <= parent.NumKeys
    requires forall i :: 0 <= i < index ==> parent.Children[i] == kids[i]
    requires parent.Children[index] == child && parent.Children[index + 1] == sibling
    requires forall i :: index + 2 <= i <= |kids| ==> parent.Children[i] == kids[i - 1]
    requires forall i :: 0 <= i < |kids| && i != index ==> kids[i] != null
    requires forall i, j :: 0 <= i < j < |kids| && i != index && j != index ==> kids[i].Repr !! kids[j].Repr
    requires forall i :: 0 <= i < |kids| && i != index ==> kids[i].Repr !! C
    requires child.Repr <= C && sibling.Repr <= C && child.Repr !! sibling.Repr
    ensures parent.Children[i] != null && parent.Children[j] != null
    ensures parent.Children[i].Repr !! parent.Children[j].Repr
  {
    if j < index {
      assert kids[i].Repr !! kids[j].Repr;
    } else if j == index {
      assert kids[i].Repr !! C;
    } else if j == index + 1 {
      if i < index {
        assert kids[i].Repr !! C;
      }
    } else if i < index {
      assert kids[i].Repr !! kids[j - 1].Repr;
    } else if i == index {
      assert kids[j - 1].Repr !! C;
    } else if i == index + 1 {
      assert kids[j - 1].Repr !! C;
    } else {
      assert kids[i - 1].Repr !! kids[j - 1].Repr;
    }
  }

  /**
   * The shifting scan of `InsertNonFull` in a leaf, on the first `n` slots
   * of `a`: from the last one down, every value greater than `key` moves
   * one slot right; `key` goes into the gap, at `Position`.
   */
  method PlaceKey(a: array<int>, n: int, key: int) returns (p: int)
    requires 0 <= n < a.Length
    modifies a
    ensures 0 <= p <= n && p == Position(old(a[..n]), key)
    ensures a[..n + 1] == InsertAt(old(a[..n]), p, key)
  {
    ghost var keys := a[..n];
    var i := n - 1;
    while i >= 0 && a[i] > key
      invariant -1 <= i < n
      invariant forall j :: 0 <= j <= i ==> a[j] == keys[j]
      invariant forall j :: i + 1 < j <= n ==> a[j] == keys[j - 1]
      invariant forall j :: i < j < n ==> keys[j] > key
    {
      a[i + 1] := a[i];
      i := i - 1;
    }
    a[i + 1] := key;
    p := i + 1;
    PositionUnique(keys, key, p);
    Inserted(a[..n + 1], keys, p, key);
  }

  /** Copies `count` elements of `src`, starting at `from`, to the front of `dst`. */
  method CopyRange<T>(src: array<T>, from: int, dst: array<T>, count: int)
    requires src != dst && 0 <= from && 0 <= count && from + count <= src.Length && count <= dst.Length
    modifies dst
    ensures forall k :: 0 <= k < count ==> dst[k] == src[k + from]
    ensures forall k :: count <= k < dst.Length ==> dst[k] == old(dst[k])
  {
    for i := 0 to count
      invariant forall k :: 0 <= k < i ==> dst[k] == src[k + from]
      invariant forall k :: i <= k < dst.Length ==> dst[k] == old(dst[k])
    {
      dst[i] := src[i + from];
    }
  }

  /** Moves `a[lo..hi]` one slot right, from the last element down, leaving `a[lo]` as it was. */
  method ShiftRight<T>(a: array<T>, lo: int, hi: int)
    requires 0 <= lo <= hi < a.Length
    modifies a
    ensures forall k :: 0 <= k <= lo ==> a[k] == old(a[k])
    ensures forall k :: lo < k <= hi ==> a[k] == old(a[k - 1])
    ensures forall k :: hi < k < a.Length ==> a[k] == old(a[k])
  {
    var i := hi - 1;
    while i >= lo
      invariant lo - 1 <= i < hi
      invariant forall k :: 0 <= k <= i + 1 ==> a[k] == old(a[k])
      invariant forall k :: i + 1 < k <= hi ==> a[k] == old(a[k - 1])
      invariant forall k :: hi < k < a.Length ==> a[k] == old(a[k])
    {
      a[i + 1] := a[i];
      i := i - 1;
    }
  }
}
