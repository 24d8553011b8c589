/**
 * Internal nodes whose layout outgrows the page although validate accepts them
 * (node.go): the last child is written over cells, and nodes of the same field
 * lengths end up on the same page.
 */
module NodeShapes {
  import opened Maybe
  import opened Seqs
  import opened Keys
  import opened Bytes
  import opened Items
  import opened Fill
  import opened Trees
  import opened NodeCodec
  import opened ChildFields

  /** The same number of items and children, and fields of the same lengths. */
  predicate SameShape(r: NodeRec, q: NodeRec) {
    && |r.items| == |q.items| && |r.childNodes| == |q.childNodes|
    && (forall i :: 0 <= i < |r.items| ==> |r.items[i].key| == |q.items[i].key| && |r.items[i].value| == |q.items[i].value|)
    && (forall i :: 0 <= i < |q.childNodes| ==> q.childNodes[i] < UINT64_LIMIT)
  }

  predicate RoundTrips(r: NodeRec, buf: seq<Byte>) {
    Writable(r) && Serialized(r, buf).Some? && Deserialized(Serialized(r, buf).value) == Some(r)
  }

  /** Every node of the shape of r is read back. */
  ghost predicate ShapeRoundTrips(r: NodeRec, buf: seq<Byte>) {
    forall q :: SameShape(r, q) ==> RoundTrips(q, buf)
  }

  lemma {:induction false} SameCells(s: seq<Item>, z: seq<Item>)
    requires |s| == |z| && forall i :: 0 <= i < |s| ==> |s[i].key| == |z[i].key| && |s[i].value| == |z[i].value|
    ensures CellsSize(s) == CellsSize(z)
  {
    if s != [] { SameCells(s[..|s| - 1], z[..|s| - 1]); }
  }

  // ---------------------------------------------------------------- one byte of one field

  /** Byte t of a cell belongs to the key or the value, not to their lengths. */
  predicate Content(x: Item, t: nat) {
    1 <= t <= |x.key| || |x.key| + 2 <= t < |x.key| + |x.value| + 2
  }

  function WithByte(x: Item, t: nat, v: Byte): (y: Item)
    requires Content(x, t)
    ensures |y.key| == |x.key| && |y.value| == |x.value|
  {
    if t <= |x.key| then x.(key := x.key[t - 1 := v]) else x.(value := x.value[t - |x.key| - 2 := v])
  }

  lemma CellWithByte(x: Item, t: nat, v: Byte)
    requires Content(x, t) && |x.key| < 256 && |x.value| < 256
    ensures Cell(WithByte(x, t, v)) == Cell(x)[t := v]
    ensures WithByte(x, t, v) == x <==> Cell(x)[t] == v
  {
    var k := |x.key|;
    assert Cell(x)[t] == if t <= k then x.key[t - 1] else x.value[t - k - 2];
  }

  function Changed(r: NodeRec, i: nat, t: nat, v: Byte): NodeRec
    requires i < |r.items| && Content(r.items[i], t)
  {
    NodeRec(r.items[i := WithByte(r.items[i], t, v)], r.childNodes)
  }

  // ---------------------------------------------------------------- pages that differ at one place

  ghost predicate AgreeBut(a: seq<Byte>, b: seq<Byte>, w: int) {
    |a| == |b| && forall j :: 0 <= j < |a| && j != w ==> a[j] == b[j]
  }

  lemma OverwriteAgrees(a: seq<Byte>, b: seq<Byte>, pos: nat, s: seq<Byte>, z: seq<Byte>, w: int)
    requires AgreeBut(a, b, w) && AgreeBut(s, z, w - pos)
    ensures Overwrite(a, pos, s).Some? <==> Overwrite(b, pos, z).Some?
    ensures Overwrite(a, pos, s).Some? ==> AgreeBut(Overwrite(a, pos, s).value, Overwrite(b, pos, z).value, w)
  {
    if pos + |s| <= |a| {
      var c, d := Overwrite(a, pos, s).value, Overwrite(b, pos, z).value;
      forall j | 0 <= j < |c| && j != w ensures c[j] == d[j] {
        assert c[j] == if j < pos then a[j] else if j < pos + |s| then s[j - pos] else a[j];
        assert d[j] == if j < pos then b[j] else if j < pos + |s| then z[j - pos] else b[j];
      }
    }
  }

  /** What is written over the place where they differ makes them equal. */
  lemma OverwriteHides(a: seq<Byte>, b: seq<Byte>, pos: nat, s: seq<Byte>, w: int)
    requires AgreeBut(a, b, w) && pos <= w < pos + |s|
    ensures Overwrite(a, pos, s) == Overwrite(b, pos, s)
  {
    if pos + |s| <= |a| {
      assert a[..pos] == b[..pos] && a[pos + |s|..] == b[pos + |s|..];
    }
  }

  /** The nodes differ in byte t of cell i at most. */
  ghost predicate Twins(r: NodeRec, q: NodeRec, i: nat, t: nat) {
    && Writable(r) && Writable(q) && |q.items| == |r.items| && i < |r.items| && q.childNodes == r.childNodes
    && (forall j :: 0 <= j < |r.items| ==> |r.items[j].key| == |q.items[j].key| && |r.items[j].value| == |q.items[j].value|)
    && (forall j :: 0 <= j < |r.items| && j != i ==> q.items[j] == r.items[j])
    && AgreeBut(Cell(r.items[i]), Cell(q.items[i]), t)
  }

  lemma ChangedTwins(r: NodeRec, i: nat, t: nat, v: Byte)
    requires Writable(r) && i < |r.items| && Content(r.items[i], t)
    ensures Twins(r, Changed(r, i, t, v), i, t)
  {
    CellWithByte(r.items[i], t, v);
  }

  /** Directory entries and offsets depend on lengths only. */
  lemma SamePlaces(r: NodeRec, q: NodeRec, i: nat, t: nat, j: nat, pageSize: nat)
    requires Twins(r, q, i, t) && j < |r.items|
    ensures Entry(q, pageSize, j) == Entry(r, pageSize, j) && Offset(q.items, pageSize, j) == Offset(r.items, pageSize, j)
    ensures CellsSize(q.items[..j + 1]) == CellsSize(r.items[..j + 1]) && DirectorySize(q, j) == DirectorySize(r, j)
  {
    SameCells(r.items[..j + 1], q.items[..j + 1]);
  }

  lemma TwoWritesAgree(a: seq<Byte>, b: seq<Byte>, pos: nat, e: seq<Byte>, off: nat, c: seq<Byte>, d: seq<Byte>, w: int)
    requires AgreeBut(a, b, w) && AgreeBut(c, d, w - off)
    ensures BothAgree(TwoWrites(a, pos, e, off, c), TwoWrites(b, pos, e, off, d), w)
  {
    OverwriteAgrees(a, b, pos, e, e, w);
    if pos + |e| <= |a| { OverwriteAgrees(Overwrite(a, pos, e).value, Overwrite(b, pos, e).value, off, c, d, w); }
  }

  ghost predicate BothAgree(a: Option<seq<Byte>>, b: Option<seq<Byte>>, w: int) {
    (a.Some? <==> b.Some?) && (a.Some? ==> AgreeBut(a.value, b.value, w))
  }

  lemma WriteItemAgrees(r: NodeRec, q: NodeRec, i: nat, t: nat, a: seq<Byte>, b: seq<Byte>, j: nat)
    requires Twins(r, q, i, t) && j < |r.items| && CellsSize(r.items) + 1 <= |a|
    requires AgreeBut(a, b, Offset(r.items, |a|, i) + t)
    ensures BothAgree(WriteItem(r, a, j), WriteItem(q, b, j), Offset(r.items, |a|, i) + t)
  {
    var w, pos, e, off := Offset(r.items, |a|, i) + t, 3 + DirectorySize(r, j), Entry(r, |a|, j), Offset(r.items, |a|, j);
    CellsSizeMonotone(r.items, j + 1);
    assert WriteItem(r, a, j) == TwoWrites(a, pos, e, off, Cell(r.items[j])) by { WriteItemDef(r, a, j); }
    assert WriteItem(q, b, j) == TwoWrites(b, pos, e, off, Cell(q.items[j])) by {
      SamePlaces(r, q, i, t, j, |a|);
      WriteItemDef(q, b, j);
    }
    TwinCells(r, q, i, t, j, |a|);
    TwoWritesAgree(a, b, pos, e, off, Cell(r.items[j]), Cell(q.items[j]), w);
  }

  lemma TwinCells(r: NodeRec, q: NodeRec, i: nat, t: nat, j: nat, pageSize: nat)
    requires Twins(r, q, i, t) && j < |r.items|
    ensures AgreeBut(Cell(r.items[j]), Cell(q.items[j]), Offset(r.items, pageSize, i) + t - Offset(r.items, pageSize, j))
  {
  }

  /** The loop writes twins to pages that differ where the byte is, at most. */
  lemma {:induction false} WriteItemsAgree(r: NodeRec, q: NodeRec, i: nat, t: nat, buf: seq<Byte>, n: nat)
    requires Twins(r, q, i, t) && n <= |r.items| && CellsSize(r.items) + 1 <= |buf|
    ensures BothAgree(WriteItems(r, buf, n), WriteItems(q, buf, n), Offset(r.items, |buf|, i) + t)
  {
    if n > 0 {
      WriteItemsAgree(r, q, i, t, buf, n - 1);
      WriteItemsStep(r, buf, n - 1);
      WriteItemsStep(q, buf, n - 1);
      var a, b := WriteItems(r, buf, n - 1), WriteItems(q, buf, n - 1);
      if a.Some? { WriteItemAgrees(r, q, i, t, a.value, b.value, n - 1); }
    }
  }

  /** If the byte lies where the last child is written, twins have the same page. */
  lemma SamePage(r: NodeRec, q: NodeRec, i: nat, t: nat, buf: seq<Byte>)
    requires Twins(r, q, i, t) && r.childNodes != [] && CellsSize(r.items) + 1 <= |buf|
    requires var d := 3 + 10 * |r.items|; d <= Offset(r.items, |buf|, i) + t < d + 8
    ensures Serialized(q, buf) == Serialized(r, buf)
  {
    WriteItemsAgree(r, q, i, t, buf, |r.items|);
    SameEnd(r, q, buf, Offset(r.items, |buf|, i) + t);
  }

  /** The last child hides a difference where it is written. */
  lemma SameEnd(r: NodeRec, q: NodeRec, buf: seq<Byte>, w: int)
    requires Writable(r) && Writable(q) && r.childNodes != [] && q.childNodes == r.childNodes && |q.items| == |r.items|
    requires BothAgree(WriteItems(r, buf, |r.items|), WriteItems(q, buf, |r.items|), w)
    requires 3 + 10 * |r.items| <= w < 3 + 10 * |r.items| + 8
    ensures Serialized(q, buf) == Serialized(r, buf)
  {
    LastWrite(r, buf);
    LastWrite(q, buf);
    Hidden(WriteItems(r, buf, |r.items|), WriteItems(q, buf, |r.items|), 3 + 10 * |r.items|, LastChild(r), w);
  }

  lemma Hidden(a: Option<seq<Byte>>, b: Option<seq<Byte>>, pos: nat, s: seq<Byte>, w: int)
    requires BothAgree(a, b, w) && pos <= w < pos + |s|
    ensures Then(a, pos, s) == Then(b, pos, s)
  {
    if a.Some? { OverwriteHides(a.value, b.value, pos, s, w); }
  }

  // ---------------------------------------------------------------- finding such a byte

  /** The cell that covers a place among the cells. */
  lemma {:induction false} CellCovering(s: seq<Item>, pageSize: nat, pos: nat) returns (i: nat)
    requires CellsSize(s) + 1 <= pageSize && pageSize - 1 - CellsSize(s) <= pos < pageSize - 1
    ensures i < |s| && Offset(s, pageSize, i) <= pos < Offset(s, pageSize, i) + |s[i].key| + |s[i].value| + 2
    decreases |s|
  {
    var n := |s| - 1;
    Ends(s);
    if pos < pageSize - 1 - CellsSize(s[..n]) {
      i := n;
    } else {
      i := CellCovering(s[..n], pageSize, pos);
      Prefix(s, i + 1, n);
    }
  }

  lemma OffsetBefore(s: seq<Item>, pageSize: nat, i: nat)
    requires i < |s| && CellsSize(s) + 1 <= pageSize
    ensures var end := Offset(s, pageSize, i) + |s[i].key| + |s[i].value| + 2;
      end == if i == 0 then pageSize - 1 else Offset(s, pageSize, i - 1)
  {
    CellsSizeMonotone(s, i + 1);
    CellsSizeMonotone(s, i);
    CutAt(s, i);
    assert s[..0] == [];
  }

  /** Among seven places in a row within the cells there is a byte of a key or a value, if only the first key may be empty. */
  lemma ContentNear(s: seq<Item>, pageSize: nat, pos: nat) returns (i: nat, t: nat)
    requires CellsSize(s) + 1 <= pageSize && pageSize - 1 - CellsSize(s) <= pos && pos + 8 <= pageSize
    requires forall j :: 0 < j < |s| ==> s[j].key != []
    ensures i < |s| && Content(s[i], t) && pos <= Offset(s, pageSize, i) + t < pos + 8
  {
    i := CellCovering(s, pageSize, pos);
    var off, k, m := pos - Offset(s, pageSize, i), |s[i].key|, |s[i].value|;
    OffsetBefore(s, pageSize, i);
    if off == 0 && k > 0 {
      t := 1;
    } else if 1 <= off <= k || off >= k + 2 {
      t := off;
    } else if m > 0 {
      t := k + 2;
    } else {
      i := i - 1;
      OffsetBefore(s, pageSize, i);
      t := if s[i].key != [] then 1 else 2;
    }
  }

  // ---------------------------------------------------------------- nodes with keys in order

  /** The first byte of key j: one is left out after key i. */
  function FirstByte(i: nat, j: nat): nat {
    if j <= i then j else j + 1
  }

  /** An item with the field lengths of x, and a key that starts with this byte. */
  function Spread(x: Item, b: Byte): (y: Item)
    ensures |y.key| == |x.key| && |y.value| == |x.value| && (y.key != [] ==> y.key[0] == b)
    ensures forall t :: 0 < t < |y.key| ==> y.key[t] == 0
  {
    Item(if x.key == [] then [] else [b] + Blank(|x.key| - 1), Blank(|x.value|))
  }

  /** A node of the shape of r whose keys are in order, and stay so if one byte of key i grows by one. */
  function Canonical(r: NodeRec, i: nat): (q: NodeRec)
    requires |r.items| <= 255
    ensures SameShape(r, q)
  {
    NodeRec(seq(|r.items|, j requires 0 <= j < |r.items| => Spread(r.items[j], FirstByte(i, j) as Byte)), NoChildren(r))
  }

  /** The children of a node like r, all of them page 0. */
  function NoChildren(r: NodeRec): (c: seq<PageNum>)
    ensures |c| == |r.childNodes| && forall j :: 0 <= j < |c| ==> c[j] == 0
  {
    seq(|r.childNodes|, _ => 0)
  }

  ghost predicate Spaced(s: seq<Item>, i: nat) {
    forall j :: 0 <= j < |s| ==>
      if s[j].key == [] then j == 0 else s[j].key[0] as nat == FirstByte(i, j) || (j == i && s[j].key[0] as nat == i + 1)
  }

  lemma SpacedSorted(s: seq<Item>, i: nat)
    requires Spaced(s, i)
    ensures Sorted(s)
  {
    forall j, k | 0 <= j < k < |s| ensures Less(s[j].key, s[k].key) {
      if s[j].key != [] { assert s[j].key[0] as nat < s[k].key[0] as nat; }
    }
  }

  /** One more in one byte of the fields of item i leaves the canonical node's keys in order. */
  lemma StillSpaced(r: NodeRec, i: nat, t: nat)
    requires |r.items| <= 255 && i < |r.items| && Lengths(r.items) && Content(r.items[i], t)
    requires forall j :: 0 < j < |r.items| ==> r.items[j].key != []
    ensures var q := Canonical(r, i);
      Content(q.items[i], t) && Spaced(q.items, i) && Spaced(Changed(q, i, t, NextByte(Cell(q.items[i])[t])).items, i)
  {
    var q := Canonical(r, i);
    var x := q.items[i];
    if t <= |x.key| { assert Cell(x)[t] == x.key[t - 1]; }
  }

  // ---------------------------------------------------------------- the exact condition

  function NextByte(b: Byte): (c: Byte)
    ensures c != b
  {
    if b == 255 then 0 else b + 1
  }

  /** A node and the same node with another byte where the last child is written: not both are read back. */
  lemma Double(r: NodeRec, i: nat, t: nat, buf: seq<Byte>) returns (q: NodeRec)
    requires Writable(r) && r.childNodes != [] && CellsSize(r.items) + 1 <= |buf| && i < |r.items| && Content(r.items[i], t)
    requires var d := 3 + 10 * |r.items|; d <= Offset(r.items, |buf|, i) + t < d + 8
    ensures q == r || q == Changed(r, i, t, NextByte(Cell(r.items[i])[t]))
    ensures !RoundTrips(q, buf)
  {
    var v := NextByte(Cell(r.items[i])[t]);
    var z := Changed(r, i, t, v);
    CellWithByte(r.items[i], t, v);
    ChangedTwins(r, i, t, v);
    SamePage(r, z, i, t, buf);
    assert z.items[i] != r.items[i];
    q := if RoundTrips(r, buf) then z else r;
  }

  lemma ChangedShape(r: NodeRec, q: NodeRec, i: nat, t: nat, v: Byte)
    requires SameShape(r, q) && i < |q.items| && Content(q.items[i], t)
    ensures SameShape(r, Changed(q, i, t, v))
  {
  }

  /** The page is short of nine or ten bytes: the last cell starts on the offset in the last directory entry, which need not come to nothing. */
  predicate OnLastOffset(r: NodeRec, pageSize: nat) {
    pageSize + 9 <= LayoutSize(r) <= pageSize + 10
  }

  lemma SameSizes(r: NodeRec, q: NodeRec, i: nat)
    requires SameShape(r, q) && i < |r.items|
    ensures CellsSize(q.items) == CellsSize(r.items) && LayoutSize(q) == LayoutSize(r) && (Lengths(r.items) ==> Lengths(q.items))
    ensures CellsSize(q.items[..i + 1]) == CellsSize(r.items[..i + 1])
  {
    SameCells(r.items, q.items);
    SameCells(r.items[..i + 1], q.items[..i + 1]);
  }

  /** With the last cell on the last offset: a node of the shape that is not read back, with its keys in order if a first byte can be spared. */
  lemma MisreadByOffset(r: NodeRec, buf: seq<Byte>) returns (q: NodeRec)
    requires TooLarge(r, buf) && 3 + 10 * |r.items| + 8 <= |buf| <= 3 + 10 * |r.items| + CellsSize(r.items)
    ensures SameShape(r, q) && !RoundTrips(q, buf) && (|r.items| <= 255 ==> Sorted(q.items))
  {
    var i, t := ContentNear(r.items, |buf|, 3 + 10 * |r.items|);
    var base := if |r.items| <= 255 then Canonical(r, i) else NodeRec(r.items, NoChildren(r));
    SameSizes(r, base, i);
    q := Double(base, i, t, buf);
    ChangedShape(r, base, i, t, NextByte(Cell(base.items[i])[t]));
    if |r.items| <= 255 {
      StillSpaced(r, i, t);
      SpacedSorted(q.items, i);
    }
  }

  /** An internal node with room for its cells, but not for the rest of its layout. */
  predicate TooLarge(r: NodeRec, buf: seq<Byte>) {
    && Writable(r) && r.childNodes != [] && r.items != [] && |r.items| < 0x1_0000
    && CellsSize(r.items) + 4 <= |buf| <= MAX_PAGE_SIZE && LayoutSize(r) > |buf|
    && forall j :: 0 < j < |r.items| ==> r.items[j].key != []
  }

  /** But for those cases, some children make the node unreadable, whatever its items. */
  lemma MisreadByChildren(r: NodeRec, buf: seq<Byte>) returns (q: NodeRec)
    requires TooLarge(r, buf) && (OnLastOffset(r, |buf|) ==> 3 + 10 * |r.items| + 8 > |buf|)
    ensures SameShape(r, q) && q.items == r.items && !RoundTrips(q, buf)
  {
    q := NodeRec(r.items, NoChildren(r));
    if 3 + 10 * |r.items| + 8 > |buf| {
      LastWrite(q, buf);
    } else if 3 + 10 * |r.items| + CellsSize(r.items) + 1 <= |buf| {
      LastChildExact(q, buf);
      var c: PageNum :| c < UINT64_LIMIT && !RoundTrips(WithLast(q, c), buf);
      q := WithLast(q, c);
    } else {
      q := ChildLost(q, buf);
    }
  }

  /** Every node with the items of r is read back, whatever its children. */
  ghost predicate ItemsRoundTrip(r: NodeRec, buf: seq<Byte>) {
    forall q :: SameShape(r, q) && q.items == r.items ==> RoundTrips(q, buf)
  }

  /** Every node of the shape of r whose keys are in order is read back. */
  ghost predicate SortedShapeRoundTrips(r: NodeRec, buf: seq<Byte>) {
    forall q :: SameShape(r, q) && Sorted(q.items) ==> RoundTrips(q, buf)
  }

  /**
   * An internal node that validate accepts, its keys in order, is read back
   * whatever its children exactly if nodeSize and the undercount fit the page,
   * unless they miss by nine or ten bytes. So are all nodes of its shape, and
   * those with their keys in order, also if they miss by nine or ten bytes and
   * have at most 255 items.
   */
  lemma InternalRoundTripExact(r: NodeRec, buf: seq<Byte>)
    requires Validated(r, |buf|) && |buf| <= MAX_PAGE_SIZE && r.childNodes != [] && r.items != [] && Sorted(r.items)
    ensures ShapeRoundTrips(r, buf) <==> NodeSize(r.items) + 4 * |r.items| + 1 <= |buf|
    ensures !OnLastOffset(r, |buf|) ==> (ItemsRoundTrip(r, buf) <==> NodeSize(r.items) + 4 * |r.items| + 1 <= |buf|)
    ensures !OnLastOffset(r, |buf|) || |r.items| <= 255 ==> (SortedShapeRoundTrips(r, buf) <==> NodeSize(r.items) + 4 * |r.items| + 1 <= |buf|)
  {
    SizeAccounting(r);
    CellsSizeIs(r.items);
    if LayoutSize(r) <= |buf| {
      forall q | SameShape(r, q) ensures RoundTrips(q, buf) {
        SameCells(r.items, q.items);
        SerializeRoundTrip(q, buf);
      }
    } else {
      forall j | 0 < j < |r.items| ensures r.items[j].key != [] { assert Less(r.items[0].key, r.items[j].key); }
      if OnLastOffset(r, |buf|) && 3 + 10 * |r.items| + 8 <= |buf| {
        var q := MisreadByOffset(r, buf);
      } else {
        var q := MisreadByChildren(r, buf);
      }
    }
  }
}
