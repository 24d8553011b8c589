/** Node sizes and the fill rules built on them (dal.go, node.go). */
module Fill {
  import opened Seqs
  import opened Items

  const NODE_HEADER_SIZE := 3
  const PAGE_NUM_SIZE := 8
  const MAX_FIELD_SIZE := 255

  /** The largest element of a validated node: a 255-byte key, a 255-byte value and a page number. */
  const MAX_ELEMENT_SIZE := MAX_FIELD_SIZE + MAX_FIELD_SIZE + PAGE_NUM_SIZE

  /** Page size, and the thresholds minFillPercent * pageSize and maxFillPercent * pageSize. */
  datatype Fill = Fill(pageSize: nat, lo: real, hi: real)

  function ElementSize(x: Item): (r: nat)
    ensures r >= PAGE_NUM_SIZE
  {
    |x.key| + |x.value| + PAGE_NUM_SIZE
  }

  function SumSize(s: seq<Item>): nat {
    if s == [] then 0 else SumSize(s[..|s| - 1]) + ElementSize(s[|s| - 1])
  }

  function NodeSize(s: seq<Item>): nat {
    NODE_HEADER_SIZE + SumSize(s) + PAGE_NUM_SIZE
  }

  /** Item.validate: the item fits the one-byte length fields and, alone in a node, the page. */
  predicate ValidItem(f: Fill, x: Item) {
    |x.key| <= MAX_FIELD_SIZE && |x.value| <= MAX_FIELD_SIZE && NodeSize([x]) <= f.pageSize
  }

  /** In bytes: 3 of the header, 8 of the element's page number and 8 of the last child go with the fields. */
  lemma ValidItemExact(f: Fill, x: Item)
    ensures ValidItem(f, x) <==> |x.key| <= 255 && |x.value| <= 255 && |x.key| + |x.value| + 19 <= f.pageSize
  {
    assert [x][..0] == [];
    assert SumSize([x]) == ElementSize(x);
  }

  predicate ValidItems(f: Fill, s: seq<Item>) {
    forall i :: 0 <= i < |s| ==> ValidItem(f, s[i])
  }

  predicate Over(f: Fill, s: seq<Item>) {
    NodeSize(s) as real > f.hi
  }

  predicate Under(f: Fill, s: seq<Item>) {
    (NodeSize(s) as real) < f.lo
  }

  /** The header and the first i elements outgrow the minimum. */
  predicate PastMin(f: Fill, s: seq<Item>, i: nat)
    requires i <= |s|
  {
    (NODE_HEADER_SIZE + SumSize(s[..i])) as real > f.lo
  }

  /** One past the first element at which the minimum is outgrown, if that is not the last element; else -1. */
  function SplitIndex(f: Fill, s: seq<Item>): (r: int)
    ensures r == -1 || 1 <= r < |s|
    ensures r != -1 ==> PastMin(f, s, r) && forall i :: 1 <= i < r ==> !PastMin(f, s, i)
    ensures r == -1 ==> forall i :: 1 <= i < |s| ==> !PastMin(f, s, i)
  {
    SplitIndexFrom(f, s, 1)
  }

  function SplitIndexFrom(f: Fill, s: seq<Item>, i: nat): (r: int)
    requires 1 <= i
    requires forall j :: 1 <= j < i && j < |s| ==> !PastMin(f, s, j)
    ensures r == -1 || 1 <= r < |s|
    ensures r != -1 ==> PastMin(f, s, r) && forall j :: 1 <= j < r ==> !PastMin(f, s, j)
    ensures r == -1 ==> forall j :: 1 <= j < |s| ==> !PastMin(f, s, j)
    decreases |s| - i
  {
    if i >= |s| then -1 else if PastMin(f, s, i) then i else SplitIndexFrom(f, s, i + 1)
  }

  predicate CanSpare(f: Fill, s: seq<Item>) {
    SplitIndex(f, s) != -1
  }

  lemma {:induction false} SumSizeAppend(a: seq<Item>, b: seq<Item>)
    ensures SumSize(a + b) == SumSize(a) + SumSize(b)
  {
    if b == [] {
      assert a + b == a;
    } else {
      var n := |b| - 1;
      SumSizeAppend(a, b[..n]);
      assert (a + b)[..|a + b| - 1] == a + b[..n];
    }
  }

  lemma SumSizeAt(s: seq<Item>, i: nat)
    requires i < |s|
    ensures SumSize(s) == SumSize(s[..i]) + ElementSize(s[i]) + SumSize(s[i + 1..])
  {
    CutAt(s, i);
    SumSizeAppend(s[..i + 1], s[i + 1..]);
  }

  /** getSplitIndex: adds element sizes up and stops at the first index past the minimum. */
  method GetSplitIndex(f: Fill, items: seq<Item>) returns (r: int)
    ensures r == SplitIndex(f, items)
  {
    var size := NODE_HEADER_SIZE;
    for i := 0 to |items|
      invariant size == NODE_HEADER_SIZE + SumSize(items[..i])
      invariant forall j :: 1 <= j <= i && j < |items| ==> !PastMin(f, items, j)
    {
      size := size + ElementSize(items[i]);
      assert items[..i + 1][..i] == items[..i];
      if size as real > f.lo && i < |items| - 1 {
        assert PastMin(f, items, i + 1);
        return i + 1;
      }
    }
    return -1;
  }
}
