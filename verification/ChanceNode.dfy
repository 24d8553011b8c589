/**
 * A node that is read back although its layout outgrows the page (node.go): the
 * offset that a cell is written over points, by chance, to a copy of that cell.
 * So for a single node fitting the page is sufficient, but not necessary.
 */
module ChanceNode {
  import opened Maybe
  import opened Seqs
  import opened Keys
  import opened Bytes
  import opened Items
  import opened Fill
  import opened Trees
  import opened NodeCodec
  import opened NodeShapes

  const PAGE_SIZE := 278

  /** The third item: its cell starts with the bytes of the offset 264. */
  function Third(): Item {
    Item([1] + Blank(7), [])
  }

  /** The second: the last ten bytes of its value are the third one's cell. */
  function Second(): Item {
    Item(Blank(2), Blank(219) + Cell(Third()))
  }

  function First(): Item {
    Item(Blank(1), [])
  }

  function Lucky(c: PageNum): (r: NodeRec)
    ensures |r.items| == 3 && |r.childNodes| == 4 && Writable(r)
  {
    NodeRec([First(), Second(), Third()], [1, 2, 3, c])
  }

  lemma CellSizes()
    ensures |Cell(First())| == 3 && |Cell(Second())| == 233 && |Cell(Third())| == 10
    ensures Cell(Third())[..2] == [8, 1] && FromLe([8, 1]) == 264
  {
    assert [8 as Byte, 1][1..] == [1];
    assert [1 as Byte][1..] == [];
  }

  /** Where the cells go: the third one over its own directory entry. */
  lemma Places(c: PageNum)
    ensures var s := Lucky(c).items;
      && CellsSize(s[..1]) == 3 && CellsSize(s[..2]) == 236 && CellsSize(s[..3]) == 246 && CellsSize(s) == 246
      && Offset(s, PAGE_SIZE, 0) == 274 && Offset(s, PAGE_SIZE, 1) == 41 && Offset(s, PAGE_SIZE, 2) == 31
  {
    var s := Lucky(c).items;
    CellSizes();
    assert s[..1] == [First()] && s[..2] == [First(), Second()] && s[..3] == s;
    assert s[..1][..0] == [] && s[..2][..1] == s[..1];
  }

  lemma LuckyAccepted(c: PageNum)
    ensures Validated(Lucky(c), PAGE_SIZE) && Sorted(Lucky(c).items) && LayoutSize(Lucky(c)) > PAGE_SIZE
  {
    Places(c);
    CellsSizeIs(Lucky(c).items);
    SizeAccounting(Lucky(c));
    var a, b, d := First().key, Second().key, Third().key;
    assert a[1..] == [] && b[1..] == [0] && a[0] == b[0];
    assert Less(a, b) && Less(a, d) && Less(b, d);
  }

  // ---------------------------------------------------------------- the page

  /** buf[a..a + |s|] is s. */
  predicate At(buf: seq<Byte>, a: nat, s: seq<Byte>) {
    a + |s| <= |buf| && buf[a..a + |s|] == s
  }

  lemma Kept(buf: seq<Byte>, pos: nat, s: seq<Byte>, a: nat, t: seq<Byte>)
    requires pos + |s| <= |buf| && At(buf, a, t) && (a + |t| <= pos || pos + |s| <= a)
    ensures At(Overwrite(buf, pos, s).value, a, t)
  {
    var r := Overwrite(buf, pos, s).value;
    forall j | a <= j < a + |t| ensures r[j] == buf[j] {}
  }

  lemma Put(buf: seq<Byte>, pos: nat, s: seq<Byte>)
    requires pos + |s| <= |buf|
    ensures At(Overwrite(buf, pos, s).value, pos, s)
  {
  }

  /** What stays of a longer part whose end is written over. */
  lemma Trimmed(buf: seq<Byte>, a: nat, s: seq<Byte>, t: seq<Byte>)
    requires At(buf, a, s + t)
    ensures At(buf, a, s) && At(buf, a + |s|, t)
  {
    TwoParts(buf, a, s, t);
  }

  function Child(n: nat): (s: seq<Byte>)
    ensures |s| == 8
  {
    Le(n, 8)
  }

  function Off(n: nat): (s: seq<Byte>)
    ensures |s| == 2
  {
    Le(n, 2)
  }

  /** The parts of the page that are read. */
  predicate LuckyPage(p: seq<Byte>, c: PageNum) {
    && |p| == PAGE_SIZE && At(p, 0, [0] + Off(3))
    && At(p, 3, Child(1) + Off(274)) && At(p, 13, Child(2) + Off(41)) && At(p, 23, Child(3)) && At(p, 31, [8, 1])
    && At(p, 33, Child(c)) && At(p, 41, Cell(Second())) && At(p, 274, Cell(First()))
  }

  /** Two writes leave a part alone that neither touches. */
  lemma BothKeep(buf: seq<Byte>, pos: nat, e: seq<Byte>, off: nat, s: seq<Byte>, a: nat, t: seq<Byte>)
    requires pos + |e| <= |buf| && off + |s| <= |buf| && At(buf, a, t)
    requires (a + |t| <= pos || pos + |e| <= a) && (a + |t| <= off || off + |s| <= a)
    ensures TwoWrites(buf, pos, e, off, s).Some? && At(TwoWrites(buf, pos, e, off, s).value, a, t)
  {
    Kept(buf, pos, e, a, t);
    Kept(Overwrite(buf, pos, e).value, off, s, a, t);
  }

  /** Two writes apart from each other are both there. */
  lemma BothPut(buf: seq<Byte>, pos: nat, e: seq<Byte>, off: nat, s: seq<Byte>)
    requires pos + |e| <= |buf| && off + |s| <= |buf| && (pos + |e| <= off || off + |s| <= pos)
    ensures TwoWrites(buf, pos, e, off, s).Some?
    ensures At(TwoWrites(buf, pos, e, off, s).value, pos, e) && At(TwoWrites(buf, pos, e, off, s).value, off, s)
  {
    Put(buf, pos, e);
    Put(Overwrite(buf, pos, e).value, off, s);
    Kept(Overwrite(buf, pos, e).value, off, s, pos, e);
  }

  lemma Entries(c: PageNum)
    ensures var r := Lucky(c);
      && Header(r) == [0] + Off(3)
      && Entry(r, PAGE_SIZE, 0) == Child(1) + Off(274) && Entry(r, PAGE_SIZE, 1) == Child(2) + Off(41) && Entry(r, PAGE_SIZE, 2) == Child(3) + Off(31)
      && LastChild(r) == Child(c)
  {
    Places(c);
  }

  lemma AfterFirst(c: PageNum, b: seq<Byte>)
    requires |b| == PAGE_SIZE && At(b, 0, [0] + Off(3))
    ensures var w := WriteItem(Lucky(c), b, 0);
      && w.Some? && At(w.value, 0, [0] + Off(3)) && At(w.value, 3, Child(1) + Off(274)) && At(w.value, 274, Cell(First()))
  {
    Places(c);
    CellSizes();
    Entries(c);
    WriteItemDef(Lucky(c), b, 0);
    BothPut(b, 3, Child(1) + Off(274), 274, Cell(First()));
    BothKeep(b, 3, Child(1) + Off(274), 274, Cell(First()), 0, [0] + Off(3));
  }

  lemma AfterSecond(c: PageNum, b: seq<Byte>)
    requires |b| == PAGE_SIZE && At(b, 0, [0] + Off(3)) && At(b, 3, Child(1) + Off(274)) && At(b, 274, Cell(First()))
    ensures var w := WriteItem(Lucky(c), b, 1);
      && w.Some? && At(w.value, 0, [0] + Off(3)) && At(w.value, 3, Child(1) + Off(274)) && At(w.value, 274, Cell(First()))
      && At(w.value, 13, Child(2) + Off(41)) && At(w.value, 41, Cell(Second()))
  {
    Places(c);
    CellSizes();
    Entries(c);
    WriteItemDef(Lucky(c), b, 1);
    var e, d := Child(2) + Off(41), Cell(Second());
    BothPut(b, 13, e, 41, d);
    BothKeep(b, 13, e, 41, d, 0, [0] + Off(3));
    BothKeep(b, 13, e, 41, d, 3, Child(1) + Off(274));
    BothKeep(b, 13, e, 41, d, 274, Cell(First()));
  }

  /** The third cell is written over the end of its directory entry. */
  lemma AfterThird(c: PageNum, b: seq<Byte>)
    requires |b| == PAGE_SIZE && At(b, 0, [0] + Off(3)) && At(b, 3, Child(1) + Off(274)) && At(b, 274, Cell(First()))
    requires At(b, 13, Child(2) + Off(41)) && At(b, 41, Cell(Second()))
    ensures var w := WriteItem(Lucky(c), b, 2);
      && w.Some? && At(w.value, 0, [0] + Off(3)) && At(w.value, 3, Child(1) + Off(274)) && At(w.value, 274, Cell(First()))
      && At(w.value, 13, Child(2) + Off(41)) && At(w.value, 41, Cell(Second())) && At(w.value, 23, Child(3)) && At(w.value, 31, [8, 1])
  {
    Places(c);
    CellSizes();
    Entries(c);
    WriteItemDef(Lucky(c), b, 2);
    var e, d := Child(3) + Off(31), Cell(Third());
    BothKeep(b, 23, e, 31, d, 0, [0] + Off(3));
    BothKeep(b, 23, e, 31, d, 3, Child(1) + Off(274));
    BothKeep(b, 23, e, 31, d, 13, Child(2) + Off(41));
    BothKeep(b, 23, e, 31, d, 41, Cell(Second()));
    BothKeep(b, 23, e, 31, d, 274, Cell(First()));
    Put(b, 23, e);
    var m := Overwrite(b, 23, e).value;
    Trimmed(m, 23, Child(3), Off(31));
    Kept(m, 31, d, 23, Child(3));
    Put(m, 31, d);
    CutAt(d, 1);
    assert d == [8, 1] + d[2..];
    Trimmed(Overwrite(m, 31, d).value, 31, [8, 1], d[2..]);
  }

  lemma LuckyWritten(c: PageNum, buf: seq<Byte>)
    requires |buf| == PAGE_SIZE
    ensures Serialized(Lucky(c), buf).Some? && LuckyPage(Serialized(Lucky(c), buf).value, c)
  {
    var r := Lucky(c);
    Entries(c);
    CellSizes();
    Put(buf, 0, Header(r));
    var b0 := Overwrite(buf, 0, Header(r)).value;
    assert WriteItems(r, buf, 0) == Some(b0);
    AfterFirst(c, b0);
    var b1 := WriteItem(r, b0, 0).value;
    assert WriteItems(r, buf, 1) == Some(b1);
    AfterSecond(c, b1);
    var b2 := WriteItem(r, b1, 1).value;
    assert WriteItems(r, buf, 2) == Some(b2);
    AfterThird(c, b2);
    var b3 := WriteItem(r, b2, 2).value;
    assert WriteItems(r, buf, 3) == Some(b3);
    LastWrite(r, buf);
    AfterLast(c, b3);
  }

  lemma AfterLast(c: PageNum, b: seq<Byte>)
    requires |b| == PAGE_SIZE && At(b, 0, [0] + Off(3)) && At(b, 3, Child(1) + Off(274)) && At(b, 274, Cell(First()))
    requires At(b, 13, Child(2) + Off(41)) && At(b, 41, Cell(Second())) && At(b, 23, Child(3)) && At(b, 31, [8, 1])
    ensures LuckyPage(Overwrite(b, 33, Child(c)).value, c)
  {
    Put(b, 33, Child(c));
    Kept(b, 33, Child(c), 0, [0] + Off(3));
    Kept(b, 33, Child(c), 3, Child(1) + Off(274));
    Kept(b, 33, Child(c), 13, Child(2) + Off(41));
    Kept(b, 33, Child(c), 23, Child(3));
    Kept(b, 33, Child(c), 31, [8, 1]);
    Kept(b, 33, Child(c), 41, Cell(Second()));
    Kept(b, 33, Child(c), 274, Cell(First()));
  }

  // ---------------------------------------------------------------- reading it

  lemma NumbersRead(c: PageNum)
    requires c < UINT64_LIMIT
    ensures FromLe(Child(1)) == 1 && FromLe(Child(2)) == 2 && FromLe(Child(3)) == 3 && FromLe(Child(c)) == c
    ensures FromLe(Off(274)) == 274 && FromLe(Off(41)) == 41 && FromLe(Off(3)) == 3
  {
    Limits();
    LeRoundTrip(1, 8);
    LeRoundTrip(2, 8);
    LeRoundTrip(3, 8);
    LeRoundTrip(c, 8);
    LeRoundTrip(274, 2);
    LeRoundTrip(41, 2);
    LeRoundTrip(3, 2);
  }

  /** The copy in the second item's value. */
  lemma CopyFound(p: seq<Byte>, c: PageNum)
    requires LuckyPage(p, c)
    ensures At(p, 264, Cell(Third()))
  {
    CellSizes();
    var front := [2 as Byte] + Blank(2) + [229] + Blank(219);
    assert Cell(Second()) == front + Cell(Third());
    Trimmed(p, 41, front, Cell(Third()));
  }

  lemma CellsRead(p: seq<Byte>, c: PageNum)
    requires LuckyPage(p, c)
    ensures ReadCell(p, 274) == Some(First()) && ReadCell(p, 41) == Some(Second()) && ReadCell(p, 264) == Some(Third())
  {
    CellSizes();
    CopyFound(p, c);
    CellRead(p, 274, First());
    CellRead(p, 41, Second());
    CellRead(p, 264, Third());
  }

  lemma EntriesRead(p: seq<Byte>, c: PageNum)
    requires LuckyPage(p, c) && c < UINT64_LIMIT
    ensures Collected(ReadEntries(p, false, 3)) == Some(NodeRec(Lucky(c).items, [1, 2, 3]))
  {
    CellSizes();
    CellsRead(p, c);
    NumbersRead(c);
    EntryParts(p, false, 3, Child(1), Off(274), First());
    EntryParts(p, false, 13, Child(2), Off(41), Second());
    assert p[23..33] == p[23..31] + p[31..33];
    EntryParts(p, false, 23, Child(3), [8, 1], Third());
    var es := ReadEntries(p, false, 3);
    assert es[0] == Some((First(), [1])) && es[1] == Some((Second(), [2])) && es[2] == Some((Third(), [3]));
    CollectedAll(es, Lucky(c).items, [1, 2, 3]);
  }

  lemma LuckyRead(p: seq<Byte>, c: PageNum)
    requires LuckyPage(p, c) && c < UINT64_LIMIT
    ensures Deserialized(p) == Some(Lucky(c))
  {
    var r := Lucky(c);
    Limits();
    EntriesRead(p, c);
    NumbersRead(c);
    Entries(c);
    HeaderIs(p, r);
    assert r.childNodes[..3] == [1, 2, 3];
    Assembled(p, r);
  }

  /**
   * An internal node that validate accepts, its keys in order, whose layout is
   * ten bytes larger than the page, and which is read back whatever its last
   * child is and whatever the buffer held.
   */
  lemma ReadBackByChance(buf: seq<Byte>)
    requires |buf| == PAGE_SIZE
    ensures var r := Lucky(4);
      && Validated(r, |buf|) && Sorted(r.items) && NodeSize(r.items) + 4 * |r.items| + 1 == |buf| + 10
      && SurvivesAnyChild(r, buf)
  {
    var r := Lucky(4);
    LuckyAccepted(4);
    Places(4);
    CellsSizeIs(r.items);
    forall c: PageNum | c < UINT64_LIMIT
      ensures Serialized(WithLast(r, c), buf).Some? && Deserialized(Serialized(WithLast(r, c), buf).value) == Some(WithLast(r, c))
    {
      assert WithLast(r, c) == Lucky(c);
      LuckyWritten(c, buf);
      LuckyRead(Serialized(Lucky(c), buf).value, c);
    }
  }
}
