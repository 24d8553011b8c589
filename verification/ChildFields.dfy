/**
 * The child pages in a page's directory are read from fixed places (node.go):
 * an internal node whose last cell lies on one of them is not read back, for
 * some numbers of its children.
 */
module ChildFields {
  import opened Maybe
  import opened Seqs
  import opened Keys
  import opened Bytes
  import opened Items
  import opened Trees
  import opened NodeCodec

  /** Entries with w children each. */
  ghost predicate WithKids(es: seq<Option<(Item, seq<PageNum>)>>, w: nat) {
    forall j :: 0 <= j < |es| ==> es[j].Some? ==> |es[j].value.1| == w
  }

  lemma {:induction false} CollectedNoKids(es: seq<Option<(Item, seq<PageNum>)>>)
    requires Collected(es).Some? && WithKids(es, 0)
    ensures Collected(es).value.childNodes == []
  {
    if es != [] { CollectedNoKids(es[..|es| - 1]); }
  }

  lemma {:induction false} CollectedKid(es: seq<Option<(Item, seq<PageNum>)>>, i: nat)
    requires Collected(es).Some? && WithKids(es, 1) && i <= |es|
    ensures var c := Collected(es).value; |c.childNodes| == |es| == |c.items|
    ensures i < |es| ==> es[i].Some? && Collected(es).value.childNodes[i] == es[i].value.1[0]
  {
    var n := |es| - 1;
    if es != [] { CollectedKid(es[..n], if i < n then i else n); }
  }

  /** The children of an internal node are those in its page's directory. */
  lemma ChildRead(p: seq<Byte>, r: NodeRec, j: nat)
    requires Deserialized(p) == Some(r) && |r.childNodes| == |r.items| + 1 && j < |r.items|
    ensures ReadLe(p, 3 + 10 * j, 8) == Some(r.childNodes[j])
  {
    var leaf, n := p[0] != 0, FromLe(p[1..3]);
    EntryKids(p, leaf, n);
    if leaf {
      CollectedNoKids(ReadEntries(p, leaf, n));
    } else {
      CollectedKid(ReadEntries(p, leaf, n), if j < n then j else n);
      EntryChild(p, leaf, j);
    }
  }

  lemma EntryKids(p: seq<Byte>, leaf: bool, n: nat)
    ensures WithKids(ReadEntries(p, leaf, n), if leaf then 0 else 1)
  {
  }

  lemma EntryChild(p: seq<Byte>, leaf: bool, j: nat)
    requires !leaf
    ensures var e := ReadEntry(p, leaf, EntryPos(leaf, j)); e.Some? ==> |e.value.1| == 1 && ReadLe(p, 3 + 10 * j, 8) == Some(e.value.1[0])
  {
  }

  lemma ChildByte(p: seq<Byte>, r: NodeRec, j: nat, b: nat)
    requires Deserialized(p) == Some(r) && |r.childNodes| == |r.items| + 1 && j < |r.items| && b < 8
    ensures 3 + 10 * j + b < |p| && Le(r.childNodes[j], 8)[b] == p[3 + 10 * j + b]
  {
    ChildRead(p, r, j);
    LeOfFromLe(p[3 + 10 * j..3 + 10 * j + 8]);
  }

  /** Where the last item's cell starts. */
  function LastCell(s: seq<Item>, pageSize: nat): nat
    requires CellsSize(s) + 1 <= pageSize
  {
    pageSize - 1 - CellsSize(s)
  }

  /** What was written at off is there still, before the place of the last write. */
  lemma WrittenStays(buf: seq<Byte>, pos: nat, e: seq<Byte>, off: nat, c: seq<Byte>, end: nat, l: seq<Byte>, k: nat)
    requires off <= k < off + |c| && k < end
    ensures var p := Then(TwoWrites(buf, pos, e, off, c), end, l); p.Some? ==> k < |buf| && |p.value| == |buf| && p.value[k] == c[k - off]
  {
  }

  lemma LastCellAt(s: seq<Item>, pageSize: nat)
    requires s != [] && CellsSize(s) + 1 <= pageSize
    ensures Offset(s, pageSize, |s| - 1) == LastCell(s, pageSize)
  {
    Ends(s);
  }

  /** After the last turn of the loop the last cell is in place. */
  lemma CellInPlace(r: NodeRec, b: seq<Byte>, i: nat, end: nat, l: seq<Byte>, pos: nat)
    requires Writable(r) && i < |r.items| && CellsSize(r.items[..i + 1]) + 1 <= |b|
    requires var o := Offset(r.items, |b|, i); o <= pos < o + |Cell(r.items[i])| && pos < end
    ensures var p, o := Then(WriteItem(r, b, i), end, l), Offset(r.items, |b|, i);
      p.Some? ==> pos < |b| && |p.value| == |b| && p.value[pos] == Cell(r.items[i])[pos - o]
  {
    var at, e, o, c := 3 + DirectorySize(r, i), Entry(r, |b|, i), Offset(r.items, |b|, i), Cell(r.items[i]);
    assert WriteItem(r, b, i) == TwoWrites(b, at, e, o, c) by { WriteItemDef(r, b, i); }
    WrittenStays(b, at, e, o, c, end, l, pos);
  }

  /** The last item's cell stays as it is before the last child. */
  lemma CellStays(r: NodeRec, buf: seq<Byte>, pos: nat)
    requires Writable(r) && r.childNodes != [] && r.items != [] && CellsSize(r.items) + 1 <= |buf| && Serialized(r, buf).Some?
    requires var x := r.items[|r.items| - 1]; LastCell(r.items, |buf|) <= pos < LastCell(r.items, |buf|) + |Cell(x)|
    requires pos < 3 + 10 * |r.items|
    ensures pos < |buf| && |Serialized(r, buf).value| == |buf|
    ensures Serialized(r, buf).value[pos] == Cell(r.items[|r.items| - 1])[pos - LastCell(r.items, |buf|)]
  {
    var i := |r.items| - 1;
    var b, end, l := LastTurn(r, buf, i);
    LastCellAt(r.items, |buf|);
    Ends(r.items);
    CellInPlace(r, b, i, end, l, pos);
  }

  lemma LastTurn(r: NodeRec, buf: seq<Byte>, i: nat) returns (b: seq<Byte>, end: nat, l: seq<Byte>)
    requires Writable(r) && r.childNodes != [] && i + 1 == |r.items| && Serialized(r, buf).Some?
    ensures |b| == |buf| && end == 3 + 10 * |r.items| && Serialized(r, buf) == Then(WriteItem(r, b, i), end, l)
  {
    LastWrite(r, buf);
    WriteItemsStep(r, buf, i);
    b, end, l := WriteItems(r, buf, i).value, 3 + 10 * |r.items|, LastChild(r);
  }

  /** The first place of the last cell that lies on a child. */
  lemma OnChild(o: nat, n: nat) returns (pos: nat, j: nat, b: nat)
    requires 3 <= o && o + 3 <= 3 + 10 * n
    ensures j < n && b < 8 && pos == 3 + 10 * j + b && o <= pos <= o + 2 && (n == 1 ==> pos < o + 2)
  {
    j, b, pos := (o - 3) / 10, (o - 3) % 10, o;
    if b >= 8 {
      j, b, pos := j + 1, 0, o + 10 - b;
    }
  }

  /** If the last cell starts three bytes before the end of the directory or earlier, the node is not read back, whatever its items. */
  lemma ChildLost(r: NodeRec, buf: seq<Byte>) returns (q: NodeRec)
    requires Writable(r) && r.childNodes != [] && r.items != [] && CellsSize(r.items) + 1 <= |buf|
    requires 3 <= LastCell(r.items, |buf|) && LastCell(r.items, |buf|) + 3 <= 3 + 10 * |r.items|
    requires |r.items| > 1 ==> r.items[|r.items| - 1].key != []
    requires forall i :: 0 <= i < |r.childNodes| ==> r.childNodes[i] < UINT64_LIMIT
    ensures q.items == r.items && |q.childNodes| == |r.childNodes|
    ensures forall i :: 0 <= i < |q.childNodes| ==> q.childNodes[i] < UINT64_LIMIT
    ensures Serialized(q, buf).Some? ==> Deserialized(Serialized(q, buf).value) != Some(q)
  {
    var x, o := r.items[|r.items| - 1], LastCell(r.items, |buf|);
    var pos, j, b := OnChild(o, |r.items|);
    var c := OtherByte(b, Cell(x)[pos - o] as nat);
    q := NodeRec(r.items, r.childNodes[j := c]);
    NotReadBack(q, buf, pos, j, b);
  }

  lemma NotReadBack(q: NodeRec, buf: seq<Byte>, pos: nat, j: nat, b: nat)
    requires Writable(q) && q.childNodes != [] && CellsSize(q.items) + 1 <= |buf|
    requires j < |q.items| && b < 8 && pos == 3 + 10 * j + b
    requires var x, o := q.items[|q.items| - 1], LastCell(q.items, |buf|);
      o <= pos < o + |Cell(x)| && Le(q.childNodes[j], 8)[b] != Cell(x)[pos - o]
    ensures Serialized(q, buf).Some? ==> Deserialized(Serialized(q, buf).value) != Some(q)
  {
    if Serialized(q, buf).Some? && Deserialized(Serialized(q, buf).value) == Some(q) {
      CellStays(q, buf, pos);
      ChildByte(Serialized(q, buf).value, q, j, b);
    }
  }
}
