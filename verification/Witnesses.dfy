/** Inputs on which the code does not do what its comments and documents say. */
module Witnesses {
  import opened Maybe
  import opened Keys
  import opened Items
  import opened Fill
  import opened Trees
  import opened Pool
  import opened TreeSearch
  import opened TreeRemove
  import opened RemoveProofs
  import opened Forest
  import opened Lifecycle

  /** An item with a one-byte key and no value. */
  function Small(k: Byte): Item {
    Item([k], [])
  }

  function LeafOf(page: PageNum, k: Byte): Tree {
    Tree(page, [Small(k)], [])
  }

  lemma LessByte(a: Byte, b: Byte)
    ensures Less([a], [b]) <==> a < b
  {
  }

  // ---------------------------------------------------------------- dropping the root

  /** Two leaves under a root with one item. */
  const TWO_LEAVES := Tree(1, [Small(2)], [LeafOf(2, 1), LeafOf(3, 3)])

  lemma TwoLeavesGood()
    ensures Shape(TWO_LEAVES, 1) && WellFilled(TWO_LEAVES)
    ensures InOrder(TWO_LEAVES) == [Small(1), Small(2), Small(3)] && Sorted(InOrder(TWO_LEAVES))
  {
    var t := TWO_LEAVES;
    assert Shape(t.kids[0], 0) && Shape(t.kids[1], 0);
    assert t.items[..0] == [] && t.kids[..1] == [t.kids[0]];
    assert InOrder(t) == InOrder(t.kids[0]) + [Small(2)] + InOrder(t.kids[1]);
    LessByte(1, 2);
    LessByte(2, 3);
    LessByte(1, 3);
  }

  /** The key of leaf i. */
  function LeafKey(i: nat): Key
    requires i < 2
  {
    [(2 * i + 1) as Byte]
  }

  lemma SearchesLeaf(i: nat)
    requires i < 2
    ensures TWO_LEAVES.kids[i] == LeafOf(2 + i, (2 * i + 1) as Byte) && Shape(TWO_LEAVES, 1)
    ensures SearchPath(TWO_LEAVES, 1, LeafKey(i)) == [i] && Sub(TWO_LEAVES, [i]) == TWO_LEAVES.kids[i]
    ensures var items := TWO_LEAVES.kids[i].items; Pos(items, LeafKey(i)) == 0 && Has(items, LeafKey(i))
  {
    var t, k, b := TWO_LEAVES, LeafKey(i), (2 * i + 1) as Byte;
    TwoLeavesGood();
    LessByte(2, b);
    LessByte(b, b);
    PosUnique(t.items, k, i);
    PosUnique([Small(b)], k, 0);
    assert SearchPath(t.kids[i], 0, k) == [];
    assert Sub(t, [i]) == Sub(t.kids[i], []);
  }

  /** The tree with leaf i empty. */
  function Emptied(i: nat): Tree
    requires i < 2
  {
    TWO_LEAVES.(kids := TWO_LEAVES.kids[i := Tree(2 + i, [], [])])
  }

  /** What removing its key takes out of leaf i. */
  lemma LeafEmptied(mode: Mode, i: nat)
    requires i < 2
    ensures Shape(TWO_LEAVES, 1) && WellFilled(TWO_LEAVES) && Has(Sub(TWO_LEAVES, SearchPath(TWO_LEAVES, 1, LeafKey(i))).items, LeafKey(i))
    ensures Removal(mode, TWO_LEAVES, 1, LeafKey(i)) == Some((Emptied(i), [i]))
  {
    var t, b := TWO_LEAVES, Tree(2 + i, [], []);
    TwoLeavesGood();
    SearchesLeaf(i);
    assert TakenOut(t.kids[i], 0, []) == b;
    assert Plug(t, [i], b) == Emptied(i) by { assert Plug(t.kids[i], [], b) == b; }
  }

  /**
   * Removing key 3 empties the second leaf, which is merged into the first; the
   * code then takes the second leaf for the root. Keys 1 and 2 are lost, and the
   * root is a page that is going to be released.
   */
  lemma DroppedRootLosesKeys(f: Fill)
    requires f.lo > 11.0
    ensures Shape(TWO_LEAVES, 1) && WellFilled(TWO_LEAVES) && DropsLeftChild(AsWritten, f, TWO_LEAVES, 1, [3])
    ensures RemoveTree(AsWritten, f, TWO_LEAVES, 1, [3]) == Some(Removed(Tree(3, [], []), [3]))
    ensures ToMap(InOrder(TWO_LEAVES)).Keys == {[1], [2], [3]}
  {
    var t, k := TWO_LEAVES, [3 as Byte];
    TwoLeavesGood();
    var b, t1 := Tree(3, [], []), Emptied(1);
    LeafEmptied(AsWritten, 1);
    assert t1.kids == [LeafOf(2, 1), b];
    DroppedCollapse(f, t1, b);
    ThreeKeys();
  }

  /** The rebalancing and the collapse of a root over key 1 and an empty leaf. */
  lemma DroppedCollapse(f: Fill, t1: Tree, b: Tree)
    requires f.lo > 11.0 && b == Tree(3, [], []) && t1 == Tree(1, [Small(2)], [LeafOf(2, 1), b])
    ensures Shape(t1, 1) && ValidPath(t1, [1]) && NearFull(t1, [1]) && Sub(t1, [1]).kids == []
    ensures !CanSpare(f, t1.kids[0].items) && Under(f, Fix(f, t1.kids[1], 0, []).tree.items)
    ensures Collapsed(AsWritten, f, t1, 1, [1]) == b && Fix(f, t1, 1, [1]).deleted == [3]
  {
    var path: Path := [1];
    EmptyUnder(f);
    assert path[1..] == [];
    assert Shape(t1.kids[0], 0) && Shape(t1.kids[1], 0);
    assert NearFull(t1.kids[1], []);
    assert Fix(f, t1.kids[1], 0, []) == Fixed(b, []);
    assert t1.kids[1 := b] == t1.kids;
    var r := Rebalance(f, t1, 1, 1);
    assert r.deleted == [3] && r.tree.items == [] && r.tree.kids != [];
    assert Fix(f, t1, 1, path) == Fixed(r.tree, [] + r.deleted);
  }

  lemma EmptyUnder(f: Fill)
    requires f.lo > 11.0
    ensures Under(f, []) && !CanSpare(f, [Small(1)])
  {
  }

  lemma ThreeKeys()
    ensures ToMap([Small(1), Small(2), Small(3)]).Keys == {[1], [2], [3]}
  {
    var s := [Small(1), Small(2), Small(3)];
    LessByte(1, 2);
    LessByte(2, 3);
    LessByte(1, 3);
    assert Sorted(s);
    EveryItemMapped(s, 0);
    EveryItemMapped(s, 1);
    EveryItemMapped(s, 2);
    forall k | k in ToMap(s) ensures k in {[1 as Byte], [2], [3]} { HasIsKey(s, k); }
  }

  // ---------------------------------------------------------------- a minimum no larger than an empty node

  /** With such a minimum the emptied leaf is not underpopulated, and stays. */
  lemma EmptiedLeafStays(mode: Mode, f: Fill, i: nat)
    requires f.lo <= 11.0 && i < 2
    ensures Removes(mode, f, TWO_LEAVES, 1, LeafKey(i))
    ensures RemoveTree(mode, f, TWO_LEAVES, 1, LeafKey(i)) == Some(Removed(Emptied(i), [])) && !WellFilled(Emptied(i))
  {
    var t, k, t1, path: Path := TWO_LEAVES, LeafKey(i), Emptied(i), [i];
    TwoLeavesGood();
    LeafEmptied(mode, i);
    SearchesLeaf(i);
    var b := t1.kids[i];
    assert b == Tree(2 + i, [], []) && path[1..] == [];
    assert Shape(b, 0) && NearFull(b, []);
    assert Fix(f, b, 0, []) == Fixed(b, []) && !Under(f, b.items);
    assert t1.kids[i := b] == t1.kids;
    assert Fix(f, t1, 1, path) == Fixed(t1, []);
    assert !Full(t1);
  }

  /** So Remove, where it deletes the key, leaves no node below the root empty exactly if the minimum is above 11 bytes. */
  lemma KeepsFilledExact(mode: Mode, f: Fill)
    ensures KeepsFilled(mode, f) <==> f.lo > 11.0
  {
    if f.lo > 11.0 {
      forall t, h, k | Removes(mode, f, t, h, k) ensures WellFilled(RemoveTree(mode, f, t, h, k).value.tree) {
        RemoveGuarded(mode, f, t, h, k);
      }
    } else {
      EmptiedLeafStays(mode, f, 1);
    }
  }

  /**
   * The next removal may then look for an item that is not there: with the left
   * leaf emptied, the item of the root is to be replaced by the last one of a
   * leaf that has none.
   */
  lemma EmptiedLeafRead(mode: Mode, f: Fill)
    requires f.lo <= 11.0
    ensures RemoveTree(mode, f, TWO_LEAVES, 1, [1]) == Some(Removed(Emptied(0), []))
    ensures var t := Emptied(0);
      && Shape(t, 1) && SearchPath(t, 1, [2]) == [] && HasAt(t.items, [2], 0)
      && Shape(t.kids[0], 0) && Descend(mode, |t.kids|, t.kids[0], 0) == Some([]) && Sub(t.kids[0], []).items == []
  {
    var t := Emptied(0);
    EmptiedLeafStays(mode, f, 0);
    assert Shape(t.kids[0], 0) && Shape(t.kids[1], 0);
    LessByte(2, 2);
    PosUnique(t.items, [2], 0);
  }

  // ---------------------------------------------------------------- the descent to the predecessor

  /** The left child of the root has three children, the root two. */
  const UNEVEN := Tree(1, [Small(6)],
    [Tree(2, [Small(2), Small(4)], [LeafOf(3, 1), LeafOf(4, 3), LeafOf(5, 5)]), Tree(6, [Small(8)], [LeafOf(7, 7), LeafOf(8, 9)])])

  lemma WeaveTwo(l: Tree, x: Item, r: Tree)
    ensures Weave([x], [l, r]) == InOrder(l) + [x] + InOrder(r)
  {
    assert [x][..0] == [] && [l, r][..1] == [l];
    assert Weave([], [l]) == InOrder(l);
  }

  lemma WeaveThree(l: Tree, x: Item, m: Tree, y: Item, r: Tree)
    ensures Weave([x, y], [l, m, r]) == InOrder(l) + [x] + InOrder(m) + [y] + InOrder(r)
  {
    assert [x, y][..1] == [x] && [l, m, r][..2] == [l, m];
    WeaveTwo(l, x, m);
  }

  lemma OneToNine(s: seq<Item>)
    requires |s| == 9 && forall i :: 0 <= i < 9 ==> s[i] == Small((i + 1) as Byte)
    ensures Sorted(s)
  {
    forall i, j | 0 <= i < j < 9 ensures Less(s[i].key, s[j].key) { LessByte((i + 1) as Byte, (j + 1) as Byte); }
  }

  lemma UnevenInOrder()
    ensures Shape(UNEVEN, 2) && Sorted(InOrder(UNEVEN)) && |InOrder(UNEVEN)| == 9
  {
    var l, r := UNEVEN.kids[0], UNEVEN.kids[1];
    assert Shape(l, 1) && Shape(r, 1);
    WeaveThree(l.kids[0], Small(2), l.kids[1], Small(4), l.kids[2]);
    WeaveTwo(r.kids[0], Small(8), r.kids[1]);
    WeaveTwo(l, Small(6), r);
    assert InOrder(l) == [Small(1), Small(2), Small(3), Small(4), Small(5)] && InOrder(r) == [Small(7), Small(8), Small(9)];
    OneToNine(InOrder(UNEVEN));
  }

  lemma Descents()
    ensures Shape(UNEVEN.kids[0], 1)
    ensures Descend(AsWritten, 2, UNEVEN.kids[0], 1) == Some([1]) && Descend(AsDocumented, 2, UNEVEN.kids[0], 1) == Some([2])
  {
    var a := UNEVEN.kids[0];
    assert Descend(AsWritten, 2, a.kids[1], 0) == Some([]) && [1] + [] == [1];
    assert Descend(AsDocumented, 2, a.kids[2], 0) == Some([]) && [2] + [] == [2];
  }

  /**
   * The predecessor of key 6 is 5, in the third leaf; the code stops at the
   * second. So key 6 is not removed: the result is not the tree without it.
   */
  lemma DescentStopsShort(f: Fill)
    ensures Shape(UNEVEN, 2) && WellFilled(UNEVEN) && Sorted(InOrder(UNEVEN)) && !DescentRight(AsWritten, UNEVEN, 2, [6])
    ensures Descend(AsWritten, 2, UNEVEN.kids[0], 1) == Some([1]) && Descend(AsDocumented, 2, UNEVEN.kids[0], 1) == Some([2])
    ensures var r := RemoveTree(AsWritten, f, UNEVEN, 2, [6]); !(r.Some? && InOrder(r.value.tree) == Delete(InOrder(UNEVEN), [6]))
  {
    var t, a := UNEVEN, UNEVEN.kids[0];
    assert Shape(a, 1) && Shape(t.kids[1], 1);
    LessByte(6, 6);
    PosUnique(t.items, [6], 0);
    assert SearchPath(t, 2, [6]) == [];
    Descents();
    UnevenInOrder();
    RemoveAsWritten(f, t, 2, [6]);
  }

  // ---------------------------------------------------------------- a database just created

  /** newDal: the freelist as it is written to the file, and as it is after the root page was allocated. */
  function NewDatabase(): (r: (Pool, Pool, PageNum, PageNum))
  {
    var (freelistPage, written) := NextPage(Pool(0, []));
    var (root, inMemory) := NextPage(written);
    (written, inMemory, freelistPage, root)
  }

  function EmptyDatabase(pool: Pool, root: PageNum): State {
    State(pool, Leaf(root), 0, [], [], [])
  }

  /**
   * In memory a new database is consistent; in its file it is not: opened before
   * the first commit, it hands out the page of its root.
   */
  lemma NewDatabaseReopened(u: Setup)
    requires Usable(u.fill)
    ensures var (written, inMemory, freelistPage, root) := NewDatabase();
      u.freelistPage == freelistPage ==>
      Inv(u, EmptyDatabase(inMemory, root)) && !Owned(u, EmptyDatabase(written, root)) && NextPage(written).0 == root
  {
    var (written, inMemory, freelistPage, root) := NewDatabase();
    if u.freelistPage == freelistPage {
      var s, d := EmptyDatabase(inMemory, root), EmptyDatabase(written, root);
      assert GoodTree(u.fill, Leaf(root), 0);
      assert TreesOf([]) == [];
      forall p ensures Owners(u, s, p) == One(InUse(s.pool, p)) {}
      assert Owners(u, d, root) == 1 && !InUse(written, root);
    }
  }
}
