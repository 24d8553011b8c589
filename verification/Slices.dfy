/**
 * The arrays behind a node's slices (node.go): split gives its two halves parts
 * of the same two arrays, so that what is added to the left half may be written
 * over the right one. The other modules let every node own its sequences.
 */
module Slices {
  import opened Keys
  import opened Items
  import opened Trees

  /** Adding x at i to the first len elements of an array with room behind them: the tail moves up by one, in place. */
  function AddInPlace<T>(backing: seq<T>, len: nat, i: nat, x: T): (r: seq<T>)
    requires i <= len < |backing|
    ensures |r| == |backing|
    ensures r[..len + 1] == backing[..len][..i] + [x] + backing[..len][i..]
  {
    backing[..i] + [x] + backing[i..len] + backing[len + 1..]
  }

  /** The arrays of a node's items and children; those of a leaf's children are empty. */
  datatype Arrays = Arrays(items: seq<Item>, childNodes: seq<PageNum>)

  /**
   * split at k: the left half is the first k items and k + 1 children, the right
   * half what follows item k, and the children from k + 1 on.
   */
  function RightHalf(a: Arrays, k: nat): Arrays
    requires k < |a.items| && (a.childNodes == [] || k < |a.childNodes|)
  {
    Arrays(a.items[k + 1..], if a.childNodes == [] then [] else a.childNodes[k + 1..])
  }

  /** An item at i and, in an internal node, the child to its right come into the left half, which has len items by now. */
  function AddToLeft(a: Arrays, len: nat, i: nat, x: Item, child: PageNum): Arrays
    requires i <= len < |a.items| && (a.childNodes == [] || len + 1 < |a.childNodes|)
  {
    Arrays(AddInPlace(a.items, len, i, x), if a.childNodes == [] then [] else AddInPlace(a.childNodes, len + 1, i + 1, child))
  }

  /** Items in order, and children on distinct pages. */
  ghost predicate Usable(a: Arrays, k: nat, len: nat, x: Item, child: PageNum) {
    && k <= len < |a.items| && (a.childNodes == [] || |a.childNodes| == |a.items| + 1)
    && (forall i, j :: 0 <= i < len && len <= j < |a.items| && k < j ==> Less(a.items[i].key, a.items[j].key))
    && (forall j :: len <= j < |a.items| && k < j ==> Less(x.key, a.items[j].key))
    && (forall i, j :: 0 <= i < j < |a.childNodes| ==> a.childNodes[i] != a.childNodes[j])
    && child !in a.childNodes
  }

  lemma ItemsSurvive(backing: seq<Item>, k: nat, len: nat, i: nat, x: Item)
    requires i <= len < |backing| && k <= len
    requires forall a, b :: 0 <= a < len && len <= b < |backing| && k < b ==> Less(backing[a].key, backing[b].key)
    requires forall b :: len <= b < |backing| && k < b ==> Less(x.key, backing[b].key)
    ensures AddInPlace(backing, len, i, x)[k + 1..] == backing[k + 1..] <==> len == k
  {
    var r := AddInPlace(backing, len, i, x);
    if len > k {
      StrictTotalOrder();
      assert r[len] == if i == len then x else backing[len - 1];
      assert r[k + 1..][len - k - 1] == r[len] && backing[k + 1..][len - k - 1] == backing[len];
    }
  }

  lemma ChildrenDamaged(backing: seq<PageNum>, k: nat, len: nat, i: nat, child: PageNum)
    requires k + 1 <= len < |backing| && 0 < i <= len && child !in backing
    requires forall a, b :: 0 <= a < b < |backing| ==> backing[a] != backing[b]
    ensures AddInPlace(backing, len, i, child)[k + 1..] != backing[k + 1..]
  {
    var r := AddInPlace(backing, len, i, child);
    assert r[len] == if i == len then child else backing[len - 1];
    assert r[k + 1..][len - k - 1] == r[len] && backing[k + 1..][len - k - 1] == backing[len];
  }

  /**
   * Adding to the left half leaves the right half alone exactly if the node is
   * a leaf and this is the first addition since the split: the gap that the item
   * between the halves leaves is the only one, and the children have none.
   */
  lemma AddKeepsRightHalf(a: Arrays, k: nat, len: nat, i: nat, x: Item, child: PageNum)
    requires Usable(a, k, len, x, child) && i <= len
    ensures RightHalf(AddToLeft(a, len, i, x, child), k) == RightHalf(a, k) <==> a.childNodes == [] && len == k
  {
    ItemsSurvive(a.items, k, len, i, x);
    if a.childNodes != [] { ChildrenDamaged(a.childNodes, k, len + 1, i + 1, child); }
  }

  /** An internal node split at its second item: the first item and child added to the left half replace the right half's first child. */
  lemma FirstChildReplaced()
    ensures var a := Arrays([Item([1], []), Item([3], []), Item([5], [])], [10, 11, 12, 13]);
      && RightHalf(a, 1).childNodes == [12, 13]
      && RightHalf(AddToLeft(a, 1, 1, Item([2], []), 14), 1).childNodes == [14, 13]
  {
  }
}
