/**
 * The node page byte by byte (node.go): where serialize puts every field, and
 * exactly which pages deserialize reads as a given node.
 */
module NodeLayout {
  import opened Maybe
  import opened Seqs
  import opened Keys
  import opened Bytes
  import opened Items
  import opened Trees
  import opened NodeCodec
  import opened ChildFields

  /** Where a field begins whose length is at pos: behind it, in 16 bits. */
  function Begin(pos: nat): nat {
    if pos == 0xFFFF then 0 else pos + 1
  }

  /** A byte with the length of f at pos, and f behind it, ending before 16 bits run out. */
  predicate FieldAt(buf: seq<Byte>, pos: nat, f: seq<Byte>) {
    && pos < |buf| && buf[pos] as nat == |f|
    && Begin(pos) + |f| <= |buf| && Begin(pos) + |f| <= 0xFFFF && buf[Begin(pos)..Begin(pos) + |f|] == f
  }

  /** A key and behind it a value. */
  predicate ItemAt(buf: seq<Byte>, o: nat, x: Item) {
    FieldAt(buf, o, x.key) && FieldAt(buf, Begin(o) + |x.key|, x.value)
  }

  lemma CellAtIs(buf: seq<Byte>, o: nat, x: Item)
    requires |x.key| < 256 && |x.value| < 256 && o + |Cell(x)| < |buf| <= MAX_PAGE_SIZE && buf[o..o + |Cell(x)|] == Cell(x)
    ensures ItemAt(buf, o, x)
  {
    var c, k, m := buf[o..o + |Cell(x)|], |x.key|, |x.value|;
    CellParts(x);
    assert c[0] == buf[o] && c[1 + k] == buf[o + 1 + k];
    SubSlice(buf, o, o + |c|, 1, 1 + k);
    SubSlice(buf, o, o + |c|, 2 + k, 2 + k + m);
  }

  lemma CellParts(x: Item)
    requires |x.key| < 256 && |x.value| < 256
    ensures var c, k, m := Cell(x), |x.key|, |x.value|;
      && |c| == k + m + 2 && c[0] as nat == k && c[1..1 + k] == x.key && c[1 + k] as nat == m && c[2 + k..2 + k + m] == x.value
  {
    var a := [|x.key| as Byte] + x.key;
    var b := a + [|x.value| as Byte];
    assert a[1..] == x.key;
    InHead(a, [|x.value| as Byte] + x.value, 1, |a|);
    Assoc(a, [|x.value| as Byte], x.value);
    AppendDrop(b, x.value);
  }

  // ---------------------------------------------------------------- writing

  /** Byte 0 is 1 for a leaf and 0 else; the number of items follows, and then for each its left child, unless in a leaf, and the place of its cell; then the last child. */
  lemma FieldsAt(buf: seq<Byte>, r: NodeRec, i: nat)
    requires IsPageOf(buf, r) && i < |r.items|
    ensures |buf| >= 3 && buf[0] == (if r.childNodes == [] then 1 else 0) && buf[1..3] == Le(|r.items|, 2)
    ensures r.childNodes == [] ==> 5 + 2 * i <= |buf| && buf[3 + 2 * i..5 + 2 * i] == Le(Offset(r.items, |buf|, i), 2)
    ensures r.childNodes != [] ==>
      && 11 + 10 * |r.items| <= |buf| && buf[3 + 10 * i..11 + 10 * i] == Le(r.childNodes[i], 8)
      && buf[11 + 10 * i..13 + 10 * i] == Le(Offset(r.items, |buf|, i), 2)
      && buf[3 + 10 * |r.items|..11 + 10 * |r.items|] == Le(r.childNodes[|r.items|], 8)
  {
    HeaderAt(buf, r);
    if r.childNodes != [] {
      InternalEntryAt(buf, r, i);
      LastChildAt(buf, r);
    } else {
      EntryAt(buf, r, i);
    }
  }

  lemma InternalEntryAt(buf: seq<Byte>, r: NodeRec, i: nat)
    requires IsPageOf(buf, r) && i < |r.items| && r.childNodes != []
    ensures 13 + 10 * i <= |buf| && buf[3 + 10 * i..11 + 10 * i] == Le(r.childNodes[i], 8)
    ensures buf[11 + 10 * i..13 + 10 * i] == Le(Offset(r.items, |buf|, i), 2)
  {
    EntryAt(buf, r, i);
    var c, o := Le(r.childNodes[i], 8), Le(Offset(r.items, |buf|, i), 2);
    assert Entry(r, |buf|, i) == c + o;
    TwoParts(buf, 3 + 10 * i, c, o);
  }

  lemma HeaderAt(buf: seq<Byte>, r: NodeRec)
    requires IsPageOf(buf, r)
    ensures |buf| >= 3 && buf[0] == (if r.childNodes == [] then 1 else 0) && buf[1..3] == Le(|r.items|, 2)
  {
    var h := Header(r);
    MiddleSlice([], h, Directory(r, |buf|) + LastChild(r), 0, 3);
    PageParts(h + Directory(r, |buf|) + LastChild(r), Cells(r.items), buf, 0, h);
    assert buf[0..3][0] == buf[0];
    SubSlice(buf, 0, 3, 1, 3);
  }

  lemma LastChildAt(buf: seq<Byte>, r: NodeRec)
    requires IsPageOf(buf, r) && r.childNodes != []
    ensures 11 + 10 * |r.items| <= |buf| && buf[3 + 10 * |r.items|..11 + 10 * |r.items|] == Le(r.childNodes[|r.items|], 8)
  {
    var d, l := Header(r) + Directory(r, |buf|), LastChild(r);
    MiddleSlice(d, l, [], 0, 8);
    assert d + l + [] == d + l;
    PageParts(d + l, Cells(r.items), buf, |d|, l);
  }

  /** The cells lie end to end, the first one's end one byte before the end of the page. */
  lemma ItemsAt(buf: seq<Byte>, r: NodeRec, i: nat)
    requires IsPageOf(buf, r) && i < |r.items|
    ensures var o := Offset(r.items, |buf|, i);
      && ItemAt(buf, o, r.items[i])
      && o + |r.items[i].key| + |r.items[i].value| + 2 == if i == 0 then |buf| - 1 else Offset(r.items, |buf|, i - 1)
  {
    CellInPage(buf, r, i);
    CellAtIs(buf, Offset(r.items, |buf|, i), r.items[i]);
    CellsStep(r.items, i);
    CellsSuffix(r.items, i);
  }

  lemma CellInPage(buf: seq<Byte>, r: NodeRec, i: nat)
    requires IsPageOf(buf, r) && i < |r.items|
    ensures var o, c := Offset(r.items, |buf|, i), Cell(r.items[i]);
      o + |c| < |buf| && buf[o..o + |c|] == c && o == |buf| - 1 - CellsSize(r.items[..i + 1])
  {
    CellAt(r.items, i);
    PageParts(Header(r) + Directory(r, |buf|) + LastChild(r), Cells(r.items), buf, CellsSize(r.items) - CellsSize(r.items[..i + 1]), Cell(r.items[i]));
  }

  // ---------------------------------------------------------------- reading

  /** A field is read exactly where its length and bytes are. */
  lemma FieldExact(buf: seq<Byte>, pos: nat, f: seq<Byte>)
    requires |buf| <= MAX_PAGE_SIZE
    ensures ReadField(buf, pos).Some? && ReadField(buf, pos).value.0 == f <==> FieldAt(buf, pos, f)
    ensures ReadField(buf, pos).Some? ==> ReadField(buf, pos).value.1 == Begin(pos) + |ReadField(buf, pos).value.0|
  {
  }

  lemma CellExact(buf: seq<Byte>, o: nat, x: Item)
    requires |buf| <= MAX_PAGE_SIZE
    ensures ReadCell(buf, o) == Some(x) <==> ItemAt(buf, o, x)
  {
    FieldExact(buf, o, x.key);
    FieldExact(buf, Begin(o) + |x.key|, x.value);
  }

  /** A page as the source reads it: the items where the offsets in the directory point, and the children beside the offsets. */
  ghost predicate Shows(buf: seq<Byte>, r: NodeRec) {
    && |buf| >= 3 && FromLe(buf[1..3]) == |r.items|
    && (if buf[0] != 0 then r.childNodes == [] else ChildrenAt(buf, r))
    && forall i :: 0 <= i < |r.items| ==> PointsTo(buf, if buf[0] != 0 then 3 + 2 * i else 11 + 10 * i, r.items[i])
  }

  ghost predicate ChildrenAt(buf: seq<Byte>, r: NodeRec) {
    && |r.childNodes| == |r.items| + 1 && 11 + 10 * |r.items| <= |buf|
    && forall i :: 0 <= i < |r.childNodes| ==> r.childNodes[i] == FromLe(buf[3 + 10 * i..11 + 10 * i])
  }

  /** The two bytes at pos say where x is. */
  predicate PointsTo(buf: seq<Byte>, pos: nat, x: Item) {
    pos + 2 <= |buf| && ItemAt(buf, FromLe(buf[pos..pos + 2]), x)
  }

  /** What deserialize makes of any page of up to 65536 bytes: the node that it shows, or an index panic. */
  lemma DeserializedExact(buf: seq<Byte>, r: NodeRec)
    requires |buf| <= MAX_PAGE_SIZE
    ensures Deserialized(buf) == Some(r) <==> Shows(buf, r)
  {
    if |buf| >= 3 {
      var leaf, n := buf[0] != 0, FromLe(buf[1..3]);
      var es := ReadEntries(buf, leaf, n);
      if Deserialized(buf) == Some(r) {
        DeserializedShows(buf, r);
      } else if Shows(buf, r) {
        ShownDeserialized(buf, r);
      }
    }
  }

  lemma EntryExact(buf: seq<Byte>, leaf: bool, i: nat)
    requires |buf| <= MAX_PAGE_SIZE && ReadEntry(buf, leaf, EntryPos(leaf, i)).Some?
    ensures var e := ReadEntry(buf, leaf, EntryPos(leaf, i)).value;
      && PointsTo(buf, if leaf then 3 + 2 * i else 11 + 10 * i, e.0)
      && |e.1| == (if leaf then 0 else 1)
      && (!leaf ==> 11 + 10 * i <= |buf| && e.1[0] == FromLe(buf[3 + 10 * i..11 + 10 * i]))
  {
    var e, pos := ReadEntry(buf, leaf, EntryPos(leaf, i)).value, if leaf then 3 + 2 * i else 11 + 10 * i;
    CellExact(buf, FromLe(buf[pos..pos + 2]), e.0);
  }

  /** What deserialize returns is what its loop collects, and the last child. */
  lemma DeserializedParts(buf: seq<Byte>, r: NodeRec)
    requires Deserialized(buf) == Some(r)
    ensures |buf| >= 3
    ensures var leaf, n := buf[0] != 0, FromLe(buf[1..3]); var c, last := Collected(ReadEntries(buf, leaf, n)), ReadLe(buf, 3 + 10 * n, 8);
      && c.Some? && r.items == c.value.items
      && (if leaf then r.childNodes == c.value.childNodes else last.Some? && r.childNodes == c.value.childNodes + [last.value])
  {
    FinishedParts(Collected(ReadEntries(buf, buf[0] != 0, FromLe(buf[1..3]))), buf[0] != 0, ReadLe(buf, 3 + 10 * FromLe(buf[1..3]), 8), r);
  }

  lemma FinishedParts(c: Option<NodeRec>, leaf: bool, last: Option<nat>, r: NodeRec)
    requires Finished(c, leaf, last) == Some(r)
    ensures c.Some? && r.items == c.value.items
    ensures if leaf then r.childNodes == c.value.childNodes else last.Some? && r.childNodes == c.value.childNodes + [last.value]
  {
  }

  lemma DeserializedShows(buf: seq<Byte>, r: NodeRec)
    requires |buf| <= MAX_PAGE_SIZE && Deserialized(buf) == Some(r)
    ensures Shows(buf, r)
  {
    DeserializedParts(buf, r);
    var leaf, n := buf[0] != 0, FromLe(buf[1..3]);
    var c := Collected(ReadEntries(buf, leaf, n)).value;
    ItemsShown(buf, leaf, n, c.items);
    EntryKids(buf, leaf, n);
    if leaf { CollectedNoKids(ReadEntries(buf, leaf, n)); } else { DeserializedChildren(buf, r, c.childNodes, ReadLe(buf, 3 + 10 * n, 8)); }
  }

  lemma ItemsShown(buf: seq<Byte>, leaf: bool, n: nat, items: seq<Item>)
    requires |buf| <= MAX_PAGE_SIZE && Collected(ReadEntries(buf, leaf, n)).Some? && items == Collected(ReadEntries(buf, leaf, n)).value.items
    ensures |items| == n && forall i :: 0 <= i < n ==> PointsTo(buf, if leaf then 3 + 2 * i else 11 + 10 * i, items[i])
  {
    CollectedCount(ReadEntries(buf, leaf, n));
    forall i | 0 <= i < n ensures PointsTo(buf, if leaf then 3 + 2 * i else 11 + 10 * i, items[i]) {
      ItemCollected(buf, leaf, n, i);
      EntryExact(buf, leaf, i);
    }
  }

  lemma CollectedCount(es: seq<Option<(Item, seq<PageNum>)>>)
    requires Collected(es).Some?
    ensures |Collected(es).value.items| == |es|
  {
    if es != [] { CollectedItem(es, 0); }
  }

  lemma DeserializedChildren(buf: seq<Byte>, r: NodeRec, kids: seq<PageNum>, last: Option<nat>)
    requires |buf| <= MAX_PAGE_SIZE && Collected(ReadEntries(buf, false, |r.items|)).Some?
    requires kids == Collected(ReadEntries(buf, false, |r.items|)).value.childNodes
    requires last == ReadLe(buf, 3 + 10 * |r.items|, 8) && last.Some? && r.childNodes == kids + [last.value]
    ensures ChildrenAt(buf, r)
  {
    ChildrenCollected(buf, |r.items|, kids);
    LastIs(buf, kids, last.value, r.childNodes);
  }

  lemma LastIs(buf: seq<Byte>, kids: seq<PageNum>, last: PageNum, all: seq<PageNum>)
    requires all == kids + [last] && 11 + 10 * |kids| <= |buf| && last == FromLe(buf[3 + 10 * |kids|..11 + 10 * |kids|])
    requires forall i :: 0 <= i < |kids| ==> kids[i] == FromLe(buf[3 + 10 * i..11 + 10 * i])
    ensures forall i :: 0 <= i < |all| ==> all[i] == FromLe(buf[3 + 10 * i..11 + 10 * i])
  {
  }

  lemma ChildrenCollected(buf: seq<Byte>, n: nat, kids: seq<PageNum>)
    requires |buf| <= MAX_PAGE_SIZE && Collected(ReadEntries(buf, false, n)).Some? && kids == Collected(ReadEntries(buf, false, n)).value.childNodes
    ensures |kids| == n && forall i :: 0 <= i < n ==> 11 + 10 * i <= |buf| && kids[i] == FromLe(buf[3 + 10 * i..11 + 10 * i])
  {
    EntryKids(buf, false, n);
    CollectedKid(ReadEntries(buf, false, n), n);
    forall i | 0 <= i < n ensures 11 + 10 * i <= |buf| && kids[i] == FromLe(buf[3 + 10 * i..11 + 10 * i]) { ChildCollected(buf, n, i); }
  }

  lemma ChildCollected(buf: seq<Byte>, n: nat, i: nat)
    requires |buf| <= MAX_PAGE_SIZE && i < n && Collected(ReadEntries(buf, false, n)).Some?
    ensures var c := Collected(ReadEntries(buf, false, n)).value;
      |c.childNodes| == n && 11 + 10 * i <= |buf| && c.childNodes[i] == FromLe(buf[3 + 10 * i..11 + 10 * i])
  {
    EntryKids(buf, false, n);
    CollectedKid(ReadEntries(buf, false, n), i);
    EntryExact(buf, false, i);
  }

  lemma ShownDeserialized(buf: seq<Byte>, r: NodeRec)
    requires |buf| <= MAX_PAGE_SIZE && Shows(buf, r)
    ensures Deserialized(buf) == Some(r)
  {
    var leaf, n := buf[0] != 0, |r.items|;
    var kids := if leaf then [] else r.childNodes[..n];
    ShownEntries(buf, r, ReadEntries(buf, leaf, n), kids);
    CollectedAll(ReadEntries(buf, leaf, n), r.items, kids);
    Assembled(buf, r);
  }

  lemma ShownEntries(buf: seq<Byte>, r: NodeRec, es: seq<Option<(Item, seq<PageNum>)>>, kids: seq<PageNum>)
    requires |buf| <= MAX_PAGE_SIZE && Shows(buf, r) && es == ReadEntries(buf, buf[0] != 0, |r.items|)
    requires kids == if buf[0] != 0 then [] else r.childNodes[..|r.items|]
    ensures forall i :: 0 <= i < |es| ==> es[i] == Some((r.items[i], if kids == [] then [] else [kids[i]]))
  {
    forall i | 0 <= i < |es| ensures es[i] == Some((r.items[i], if kids == [] then [] else [kids[i]])) {
      ShownEntry(buf, buf[0] != 0, i, r.items[i]);
    }
  }

  lemma ShownEntry(buf: seq<Byte>, leaf: bool, i: nat, x: Item)
    requires |buf| <= MAX_PAGE_SIZE && PointsTo(buf, if leaf then 3 + 2 * i else 11 + 10 * i, x)
    ensures leaf || 11 + 10 * i <= |buf|
    ensures ReadEntry(buf, leaf, EntryPos(leaf, i)) == Some((x, if leaf then [] else [FromLe(buf[3 + 10 * i..11 + 10 * i])]))
  {
    var pos := if leaf then 3 + 2 * i else 11 + 10 * i;
    var o := FromLe(buf[pos..pos + 2]);
    CellExact(buf, o, x);
    EntryIs(buf, leaf, EntryPos(leaf, i), if leaf then 0 else FromLe(buf[3 + 10 * i..11 + 10 * i]), o, x);
  }
}
