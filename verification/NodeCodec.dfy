/**
 * The slotted node page (node.go): a directory of child pages and cell offsets
 * growing from the left, cells growing from the right, both in item order.
 */
module NodeCodec {
  import opened Keys
  import opened Bytes
  import opened Items
  import opened Fill
  import opened Trees
  import opened Maybe
  import opened Seqs

  function Cell(x: Item): seq<Byte>
    requires |x.key| < 256 && |x.value| < 256
  {
    [|x.key| as Byte] + x.key + [|x.value| as Byte] + x.value
  }

  /** validate: field lengths fit one byte, children and items match, and the accounted size fits the page. */
  predicate Validated(r: NodeRec, pageSize: nat) {
    && (r.childNodes == [] || |r.childNodes| == |r.items| + 1)
    && NodeSize(r.items) <= pageSize
    && forall i :: 0 <= i < |r.items| ==> |r.items[i].key| <= MAX_FIELD_SIZE && |r.items[i].value| <= MAX_FIELD_SIZE
  }

  /** In bytes: 11, and 6 an item besides its cell; 255 bytes a field. */
  lemma ValidatedExact(r: NodeRec, pageSize: nat)
    ensures Validated(r, pageSize) <==>
      && (|r.childNodes| == 0 || |r.childNodes| == |r.items| + 1)
      && CellsSize(r.items) + 6 * |r.items| + 11 <= pageSize
      && forall i :: 0 <= i < |r.items| ==> |r.items[i].key| <= 255 && |r.items[i].value| <= 255
  {
    CellsSizeIs(r.items);
  }

  /** Item.validate is validate of a leaf with that item. */
  lemma ValidatedAlone(f: Fill, x: Item)
    ensures ValidItem(f, x) <==> Validated(NodeRec([x], []), f.pageSize)
  {
  }

  predicate Lengths(s: seq<Item>) {
    forall i :: 0 <= i < |s| ==> |s[i].key| < 256 && |s[i].value| < 256
  }

  function EntrySize(r: NodeRec): nat {
    if r.childNodes == [] then 2 else 10
  }

  predicate Writable(r: NodeRec) {
    Lengths(r.items) && (r.childNodes == [] || |r.childNodes| == |r.items| + 1)
  }

  /** The directory of the first n items. */
  function DirectorySize(r: NodeRec, n: nat): nat {
    if r.childNodes == [] then 2 * n else 10 * n
  }

  function CellsSize(s: seq<Item>): nat {
    if s == [] then 0 else CellsSize(s[..|s| - 1]) + |s[|s| - 1].key| + |s[|s| - 1].value| + 2
  }

  /** The bytes the page layout really takes; the last byte of a page is never used. */
  function LayoutSize(r: NodeRec): nat {
    3 + DirectorySize(r, |r.items|) + (if r.childNodes == [] then 0 else 8) + CellsSize(r.items) + 1
  }

  /** The directory, without the last child, and the cells do not meet, and the offsets fit their fields. */
  predicate ItemsFit(r: NodeRec, pageSize: nat) {
    && Writable(r)
    && 3 + DirectorySize(r, |r.items|) + CellsSize(r.items) + 1 <= pageSize <= MAX_PAGE_SIZE
    && |r.items| < 0x1_0000
    && forall i :: 0 <= i < |r.childNodes| ==> r.childNodes[i] < UINT64_LIMIT
  }

  /** Directory and cells do not meet, and every number fits its field. */
  predicate FitsPage(r: NodeRec, pageSize: nat) {
    ItemsFit(r, pageSize) && LayoutSize(r) <= pageSize
  }

  // ---------------------------------------------------------------- accounted and real size

  lemma {:induction false} CellsSizeIs(s: seq<Item>)
    ensures SumSize(s) == CellsSize(s) + 6 * |s|
  {
    if s != [] { CellsSizeIs(s[..|s| - 1]); }
  }

  /** nodeSize undercounts an internal page by four bytes an item and one, and never undercounts a leaf. */
  lemma SizeAccounting(r: NodeRec)
    ensures r.childNodes != [] ==> LayoutSize(r) == NodeSize(r.items) + 4 * |r.items| + 1
    ensures r.childNodes == [] ==> LayoutSize(r) < NodeSize(r.items)
  {
    CellsSizeIs(r.items);
  }

  /** So a validated leaf fits its page, and a validated internal node does exactly if the undercount still fits. */
  lemma ValidatedFits(r: NodeRec, pageSize: nat)
    requires Validated(r, pageSize) && pageSize <= MAX_PAGE_SIZE
    requires forall i :: 0 <= i < |r.childNodes| ==> r.childNodes[i] < UINT64_LIMIT
    ensures FitsPage(r, pageSize) <==> r.childNodes == [] || NodeSize(r.items) + 4 * |r.items| + 1 <= pageSize
  {
    SizeAccounting(r);
    CellsSizeIs(r.items);
  }

  // ---------------------------------------------------------------- the layout

  /** The cells of s, as they lie from left to right: the last item's first. */
  function Cells(s: seq<Item>): (r: seq<Byte>)
    requires Lengths(s)
    ensures |r| == CellsSize(s)
  {
    if s == [] then [] else Cell(s[|s| - 1]) + Cells(s[..|s| - 1])
  }

  /** Where the cell of item i starts; 0 if the cells up to it are too many for the page. */
  function Offset(s: seq<Item>, pageSize: nat, i: nat): nat
    requires i < |s|
  {
    var size := CellsSize(s[..i + 1]) + 1;
    if size <= pageSize then pageSize - size else 0
  }

  /** The child to the left of item i, and where the item's cell is. */
  function Entry(r: NodeRec, pageSize: nat, i: nat): (e: seq<Byte>)
    requires i < |r.items| && (r.childNodes == [] || |r.childNodes| == |r.items| + 1)
    ensures |e| == EntrySize(r)
  {
    (if r.childNodes == [] then [] else Le(r.childNodes[i], 8)) + Le(Offset(r.items, pageSize, i), 2)
  }

  function Entries(r: NodeRec, pageSize: nat): (e: seq<seq<Byte>>)
    requires r.childNodes == [] || |r.childNodes| == |r.items| + 1
    ensures |e| == |r.items| && AllOf(e, EntrySize(r))
  {
    seq(|r.items|, i requires 0 <= i < |r.items| => Entry(r, pageSize, i))
  }

  function Directory(r: NodeRec, pageSize: nat): (d: seq<Byte>)
    requires r.childNodes == [] || |r.childNodes| == |r.items| + 1
    ensures |d| == DirectorySize(r, |r.items|)
  {
    FlatLength(Entries(r, pageSize), EntrySize(r));
    Flat(Entries(r, pageSize))
  }

  function Header(r: NodeRec): (s: seq<Byte>)
    ensures |s| == 3
  {
    [if r.childNodes == [] then 1 else 0] + Le(|r.items|, 2)
  }

  function LastChild(r: NodeRec): (s: seq<Byte>)
    ensures |s| == if r.childNodes == [] then 0 else 8
  {
    if r.childNodes == [] then [] else Le(r.childNodes[|r.childNodes| - 1], 8)
  }

  /** The page of a node: header, directory and last child from the left; a gap; cells up to the last byte. */
  ghost predicate IsPageOf(buf: seq<Byte>, r: NodeRec) {
    && FitsPage(r, |buf|)
    && buf == Framed(Header(r) + Directory(r, |buf|) + LastChild(r), Cells(r.items), buf)
  }

  /** was with its beginning and its end, up to the last byte, written over. */
  function Framed(left: seq<Byte>, right: seq<Byte>, was: seq<Byte>): (r: seq<Byte>)
    requires |left| + |right| + 1 <= |was|
    ensures |r| == |was|
  {
    left + was[|left|..|was| - 1 - |right|] + right + was[|was| - 1..]
  }

  // ---------------------------------------------------------------- writing a page

  /** The loop body of serialize: entry i, then cell i; None where the code indexes out of range. */
  function WriteItem(r: NodeRec, buf: seq<Byte>, i: nat): (b: Option<seq<Byte>>)
    requires Writable(r) && i < |r.items|
    ensures b.Some? ==> |b.value| == |buf|
  {
    var b := Overwrite(buf, 3 + DirectorySize(r, i), Entry(r, |buf|, i));
    if b.None? || CellsSize(r.items[..i + 1]) + 1 > |buf| then None
    else Overwrite(b.value, Offset(r.items, |buf|, i), Cell(r.items[i]))
  }

  /** The page after the header and the first i items, written in place. */
  function WriteItems(r: NodeRec, buf: seq<Byte>, i: nat): (b: Option<seq<Byte>>)
    requires Writable(r) && i <= |r.items|
    ensures b.Some? ==> |b.value| == |buf|
  {
    if i == 0 then Overwrite(buf, 0, Header(r))
    else
      var b := WriteItems(r, buf, i - 1);
      if b.None? then None else WriteItem(r, b.value, i - 1)
  }

  /** serialize. */
  function Serialized(r: NodeRec, buf: seq<Byte>): (b: Option<seq<Byte>>)
    requires Writable(r)
    ensures b.Some? ==> |b.value| == |buf|
  {
    var b := WriteItems(r, buf, |r.items|);
    if b.None? || r.childNodes == [] then b
    else Overwrite(b.value, 3 + DirectorySize(r, |r.items|), LastChild(r))
  }

  lemma WriteItemDef(r: NodeRec, buf: seq<Byte>, j: nat)
    requires Writable(r) && j < |r.items| && CellsSize(r.items[..j + 1]) + 1 <= |buf|
    ensures WriteItem(r, buf, j) == TwoWrites(buf, 3 + DirectorySize(r, j), Entry(r, |buf|, j), Offset(r.items, |buf|, j), Cell(r.items[j]))
  {
  }

  function TwoWrites(buf: seq<Byte>, pos: nat, e: seq<Byte>, off: nat, c: seq<Byte>): Option<seq<Byte>> {
    var b := Overwrite(buf, pos, e);
    if b.None? then None else Overwrite(b.value, off, c)
  }

  lemma WriteItemsStep(r: NodeRec, buf: seq<Byte>, i: nat)
    requires Writable(r) && i < |r.items|
    ensures WriteItems(r, buf, i + 1) == var b := WriteItems(r, buf, i); if b.None? then None else WriteItem(r, b.value, i)
  {
  }

  lemma LastWrite(r: NodeRec, buf: seq<Byte>)
    requires Writable(r) && r.childNodes != []
    ensures Serialized(r, buf) == Then(WriteItems(r, buf, |r.items|), 3 + 10 * |r.items|, LastChild(r))
  {
  }

  function Then(b: Option<seq<Byte>>, pos: nat, s: seq<Byte>): Option<seq<Byte>> {
    if b.None? then None else Overwrite(b.value, pos, s)
  }

  /** The loop indexes out of range exactly if the directory or the cells outgrow the page. */
  lemma {:induction false} WriteItemsExact(r: NodeRec, buf: seq<Byte>, i: nat)
    requires Writable(r) && i <= |r.items|
    ensures WriteItems(r, buf, i).Some? <==> 3 + DirectorySize(r, i) <= |buf| && CellsSize(r.items[..i]) + (if i > 0 then 1 else 0) <= |buf|
  {
    if i > 0 {
      WriteItemsExact(r, buf, i - 1);
      WriteItemsStep(r, buf, i - 1);
      CellsStep(r.items, i - 1);
      var b := WriteItems(r, buf, i - 1);
      if b.Some? { WriteItemExact(r, b.value, i - 1); }
    }
  }

  lemma WriteItemExact(r: NodeRec, buf: seq<Byte>, i: nat)
    requires Writable(r) && i < |r.items|
    ensures WriteItem(r, buf, i).Some? <==> 3 + DirectorySize(r, i + 1) <= |buf| && CellsSize(r.items[..i + 1]) + 1 <= |buf|
  {
    CellsStep(r.items, i);
  }

  /** serialize indexes out of range exactly if the directory with the last child, or the cells, outgrow the page by themselves; that they meet it does not notice. */
  lemma SerializedExact(r: NodeRec, buf: seq<Byte>)
    requires Writable(r) && r.items != []
    ensures Serialized(r, buf).Some?
      <==> 3 + (if r.childNodes == [] then 2 * |r.items| else 10 * |r.items| + 8) <= |buf| && CellsSize(r.items) + 1 <= |buf|
  {
    WriteItemsExact(r, buf, |r.items|);
    assert r.items[..|r.items|] == r.items;
  }

  lemma PageLeft(left: seq<Byte>, e: seq<Byte>, right: seq<Byte>, was: seq<Byte>)
    requires |left| + |e| + |right| + 1 <= |was|
    ensures Overwrite(Framed(left, right, was), |left|, e) == Some(Framed(left + e, right, was))
  {
    var l, n := |left| + |e|, |was| - 1 - |right|;
    var gap, rest := was[|left|..n], was[|was| - 1..];
    assert gap[|e|..] == was[l..n];
    var p := Framed(left, right, was);
    assert p[..|left|] == left;
    assert p[l..] == was[l..n] + right + rest;
    assert left + e + (was[l..n] + right + rest) == (left + e) + was[l..n] + right + rest;
  }

  lemma PageRight(left: seq<Byte>, c: seq<Byte>, right: seq<Byte>, was: seq<Byte>)
    requires |left| + |c| + |right| + 1 <= |was|
    ensures Overwrite(Framed(left, right, was), |was| - 1 - |right| - |c|, c) == Some(Framed(left, c + right, was))
  {
    var n := |was| - 1 - |right|;
    var m := n - |c|;
    var rest := was[|was| - 1..];
    var p := Framed(left, right, was);
    assert p[..m] == left + was[|left|..m];
    assert p[n..] == right + rest;
    assert left + was[|left|..m] + c + (right + rest) == left + was[|left|..m] + (c + right) + rest;
  }

  lemma {:induction false} CellsSizeMonotone(s: seq<Item>, i: nat)
    requires i <= |s|
    ensures CellsSize(s[..i]) <= CellsSize(s)
    decreases |s|
  {
    if i < |s| {
      var n := |s| - 1;
      CellsSizeMonotone(s[..n], i);
      assert s[..n][..i] == s[..i];
    } else {
      assert s[..i] == s;
    }
  }

  lemma CellsStep(s: seq<Item>, i: nat)
    requires Lengths(s) && i < |s|
    ensures Lengths(s[..i]) && Lengths(s[..i + 1]) && Cells(s[..i + 1]) == Cell(s[i]) + Cells(s[..i])
    ensures CellsSize(s[..i + 1]) == CellsSize(s[..i]) + |Cell(s[i])|
  {
    assert s[..i + 1][..i] == s[..i];
  }

  lemma EntriesLength(r: NodeRec, pageSize: nat, i: nat)
    requires (r.childNodes == [] || |r.childNodes| == |r.items| + 1) && i <= |r.items|
    ensures |Flat(Entries(r, pageSize)[..i])| == DirectorySize(r, i)
  {
    FlatLength(Entries(r, pageSize)[..i], if r.childNodes == [] then 2 else 10);
  }

  /** Directory and cells of the first i items have room. */
  lemma Room(r: NodeRec, pageSize: nat, i: nat)
    requires ItemsFit(r, pageSize) && i <= |r.items|
    ensures 3 + DirectorySize(r, i) + CellsSize(r.items[..i]) + 1 <= pageSize
  {
    CellsSizeMonotone(r.items, i);
  }

  /** The step from i - 1 to i items, on a page. */
  lemma ItemStep(left: seq<Byte>, e: seq<Byte>, right: seq<Byte>, c: seq<Byte>, was: seq<Byte>)
    requires |left| + |e| + |c| + |right| + 1 <= |was|
    ensures TwoWrites(Framed(left, right, was), |left|, e, |was| - 1 - |right| - |c|, c) == Some(Framed(left + e, c + right, was))
  {
    PageLeft(left, e, right, was);
    PageRight(left + e, c, right, was);
  }

  function LeftPart(r: NodeRec, pageSize: nat, i: nat): seq<Byte>
    requires (r.childNodes == [] || |r.childNodes| == |r.items| + 1) && i <= |r.items|
  {
    Header(r) + Flat(Entries(r, pageSize)[..i])
  }

  lemma LeftPartStep(r: NodeRec, pageSize: nat, i: nat)
    requires (r.childNodes == [] || |r.childNodes| == |r.items| + 1) && i < |r.items|
    ensures LeftPart(r, pageSize, i + 1) == LeftPart(r, pageSize, i) + Entry(r, pageSize, i)
    ensures |LeftPart(r, pageSize, i)| == 3 + DirectorySize(r, i)
  {
    EntriesLength(r, pageSize, i);
    FlatStep(Entries(r, pageSize), i);
    Assoc(Header(r), Flat(Entries(r, pageSize)[..i]), Entry(r, pageSize, i));
  }

  /** The first i items on their page. */
  function Part(r: NodeRec, was: seq<Byte>, i: nat): seq<Byte>
    requires ItemsFit(r, |was|) && i <= |r.items|
  {
    Room(r, |was|, i);
    EntriesLength(r, |was|, i);
    Framed(LeftPart(r, |was|, i), Cells(r.items[..i]), was)
  }

  /** Entry i and cell i, written next to what is there. */
  lemma WriteItemNext(r: NodeRec, buf: seq<Byte>, i: nat, left: seq<Byte>, right: seq<Byte>, e: seq<Byte>, c: seq<Byte>, was: seq<Byte>)
    requires Writable(r) && i < |r.items| && |left| == 3 + DirectorySize(r, i) && CellsSize(r.items[..i + 1]) + 1 <= |was|
    requires |left| + |e| + |c| + |right| + 1 <= |was| && Offset(r.items, |was|, i) == |was| - 1 - |right| - |c|
    requires buf == Framed(left, right, was) && e == Entry(r, |was|, i) && c == Cell(r.items[i])
    ensures WriteItem(r, buf, i) == Some(Framed(left + e, c + right, was))
  {
    ItemStep(left, e, right, c, was);
    WriteItemDef(r, buf, i);
  }

  /** Item i with its parts in place: sizes only. */
  lemma PartSizes(r: NodeRec, pageSize: nat, i: nat)
    requires ItemsFit(r, pageSize) && i < |r.items|
    ensures Lengths(r.items[..i]) && Lengths(r.items[..i + 1])
    ensures var l, n, e, c := |LeftPart(r, pageSize, i)|, |Cells(r.items[..i])|, |Entry(r, pageSize, i)|, |Cell(r.items[i])|;
      && l == 3 + DirectorySize(r, i) && l + e + c + n + 1 <= pageSize
      && Offset(r.items, pageSize, i) == pageSize - 1 - n - c
      && CellsSize(r.items[..i + 1]) + 1 <= pageSize
  {
    Room(r, pageSize, i + 1);
    EntriesLength(r, pageSize, i);
    CellsStep(r.items, i);
  }

  lemma PartStep(r: NodeRec, was: seq<Byte>, i: nat)
    requires ItemsFit(r, |was|) && i < |r.items|
    ensures |Part(r, was, i)| == |was| && WriteItem(r, Part(r, was, i), i) == Some(Part(r, was, i + 1))
  {
    PartSizes(r, |was|, i);
    var left, right, e, c := LeftPart(r, |was|, i), Cells(r.items[..i]), Entry(r, |was|, i), Cell(r.items[i]);
    WriteItemNext(r, Framed(left, right, was), i, left, right, e, c, was);
    LeftPartStep(r, |was|, i);
    CellsStep(r.items, i);
  }

  lemma PartZero(r: NodeRec, was: seq<Byte>)
    requires ItemsFit(r, |was|)
    ensures Overwrite(was, 0, Header(r)) == Some(Part(r, was, 0))
  {
    assert LeftPart(r, |was|, 0) == Header(r) && [] + Header(r) == Header(r);
    assert r.items[..0] == [];
    PageLeft([], Header(r), [], was);
    assert Framed([], [], was) == was;
  }

  /** Where the parts fit, none of the writes meets another. */
  lemma {:induction false} WriteItemsFits(r: NodeRec, buf: seq<Byte>, i: nat)
    requires ItemsFit(r, |buf|) && i <= |r.items|
    ensures WriteItems(r, buf, i) == Some(Part(r, buf, i))
  {
    if i == 0 {
      PartZero(r, buf);
    } else {
      WriteItemsFits(r, buf, i - 1);
      PartStep(r, buf, i - 1);
    }
  }

  lemma AllParts(r: NodeRec, was: seq<Byte>)
    requires ItemsFit(r, |was|)
    ensures Part(r, was, |r.items|) == Framed(Header(r) + Directory(r, |was|), Cells(r.items), was)
  {
    var n := |r.items|;
    assert r.items[..n] == r.items && Entries(r, |was|)[..n] == Entries(r, |was|);
  }

  lemma SerializedAs(r: NodeRec, was: seq<Byte>)
    requires FitsPage(r, |was|)
    ensures Serialized(r, was) == Some(Framed(Header(r) + Directory(r, |was|) + LastChild(r), Cells(r.items), was))
  {
    var n := |r.items|;
    WriteItemsFits(r, was, n);
    AllParts(r, was);
    PageLeft(Header(r) + Directory(r, |was|), LastChild(r), Cells(r.items), was);
    if r.childNodes == [] {
      assert Header(r) + Directory(r, |was|) + [] == Header(r) + Directory(r, |was|);
    }
  }

  /** A node that fits its page is serialized to the page of the node, whatever the buffer held before. */
  lemma SerializedIsPage(r: NodeRec, buf: seq<Byte>)
    requires FitsPage(r, |buf|)
    ensures Serialized(r, buf).Some? && IsPageOf(Serialized(r, buf).value, r)
  {
    SerializedAs(r, buf);
    PageTwice(Header(r) + Directory(r, |buf|) + LastChild(r), Cells(r.items), buf);
  }

  lemma PageTwice(left: seq<Byte>, right: seq<Byte>, was: seq<Byte>)
    requires |left| + |right| + 1 <= |was|
    ensures var p := Framed(left, right, was); p == Framed(left, right, p)
  {
    var p, n := Framed(left, right, was), |was| - 1 - |right|;
    assert p[|left|..n] == was[|left|..n];
    assert p[|was| - 1..] == was[|was| - 1..];
  }

  method WriteEntry(r: NodeRec, buf: array<Byte>, leftPos: nat, i: nat) returns (ok: bool)
    requires i < |r.items| && (r.childNodes == [] || |r.childNodes| == |r.items| + 1)
    modifies buf
    ensures ok <==> Overwrite(old(buf[..]), leftPos, Entry(r, buf.Length, i)).Some?
    ensures ok ==> Overwrite(old(buf[..]), leftPos, Entry(r, buf.Length, i)) == Some(buf[..])
  {
    var pos := leftPos;
    ghost var was := buf[..];
    if r.childNodes != [] {
      if pos + PAGE_NUM_SIZE > buf.Length {
        return false;
      }
      PutBytes(buf, pos, Le(r.childNodes[i], 8));
      pos := pos + PAGE_NUM_SIZE;
    }
    if pos + 2 > buf.Length {
      return false;
    }
    var offset := Le(Offset(r.items, buf.Length, i), 2);
    PutBytes(buf, pos, offset);
    if r.childNodes != [] {
      OverwriteNext(was, leftPos, Le(r.childNodes[i], 8), offset);
    } else {
      assert [] + offset == offset;
    }
    return true;
  }

  /** Four neighbouring writes from right to left are one. */
  lemma FourWrites(x: Item, end: nat, b0: seq<Byte>, b1: seq<Byte>, b2: seq<Byte>, b3: seq<Byte>, b4: seq<Byte>)
    requires |x.key| < 256 && |x.value| < 256 && |Cell(x)| <= end <= |b0|
    requires Overwrite(b0, end - |x.value|, x.value) == Some(b1)
    requires Overwrite(b1, end - |x.value| - 1, [|x.value| as Byte]) == Some(b2)
    requires Overwrite(b2, end - |x.value| - 1 - |x.key|, x.key) == Some(b3)
    requires Overwrite(b3, end - |Cell(x)|, [|x.key| as Byte]) == Some(b4)
    ensures Overwrite(b0, end - |Cell(x)|, Cell(x)) == Some(b4)
  {
    var k, v, pos := [|x.key| as Byte], [|x.value| as Byte], end - |Cell(x)|;
    OverwriteNext(b0, end - |x.value| - 1, v, x.value);
    OverwriteNext(b0, pos + 1, x.key, v + x.value);
    OverwriteNext(b0, pos, k, x.key + (v + x.value));
    assert k + (x.key + (v + x.value)) == Cell(x);
  }

  /** The cell of x, written from its end to its start. */
  method WriteCell(x: Item, buf: array<Byte>, end: nat)
    requires |x.key| < 256 && |x.value| < 256 && |Cell(x)| <= end <= buf.Length
    modifies buf
    ensures Overwrite(old(buf[..]), end - |Cell(x)|, Cell(x)) == Some(buf[..])
  {
    ghost var b0 := buf[..];
    var rightPos := end - |x.value|;
    PutBytes(buf, rightPos, x.value);
    ghost var b1 := buf[..];
    rightPos := rightPos - 1;
    PutBytes(buf, rightPos, [|x.value| as Byte]);
    ghost var b2 := buf[..];
    rightPos := rightPos - |x.key|;
    PutBytes(buf, rightPos, x.key);
    ghost var b3 := buf[..];
    rightPos := rightPos - 1;
    PutBytes(buf, rightPos, [|x.key| as Byte]);
    FourWrites(x, end, b0, b1, b2, b3, buf[..]);
  }

  /** One turn of serialize's loop. */
  method WriteNext(r: NodeRec, buf: array<Byte>, leftPos: nat, rightPos: nat, i: nat) returns (ok: bool)
    requires Writable(r) && i < |r.items| && leftPos == 3 + DirectorySize(r, i)
    requires CellsSize(r.items[..i + 1]) + 1 <= buf.Length && rightPos == buf.Length - 1 - CellsSize(r.items[..i])
    modifies buf
    ensures ok <==> WriteItem(r, old(buf[..]), i).Some?
    ensures ok ==> WriteItem(r, old(buf[..]), i) == Some(buf[..])
  {
    WriteItemDef(r, buf[..], i);
    CellsStep(r.items, i);
    ok := WriteBoth(buf, leftPos, r, i, rightPos);
  }

  /** Entry i at leftPos, and cell i up to end. */
  method WriteBoth(buf: array<Byte>, leftPos: nat, r: NodeRec, i: nat, end: nat) returns (ok: bool)
    requires Writable(r) && i < |r.items| && |Cell(r.items[i])| <= end <= buf.Length
    modifies buf
    ensures ok <==> TwoWrites(old(buf[..]), leftPos, Entry(r, buf.Length, i), end - |Cell(r.items[i])|, Cell(r.items[i])).Some?
    ensures ok ==> TwoWrites(old(buf[..]), leftPos, Entry(r, buf.Length, i), end - |Cell(r.items[i])|, Cell(r.items[i])) == Some(buf[..])
  {
    ok := WriteEntry(r, buf, leftPos, i);
    if !ok {
      return false;
    }
    WriteCell(r.items[i], buf, end);
  }

  /** serialize, of a node that validate accepts; false is the index panic. */
  method Serialize(r: NodeRec, buf: array<Byte>) returns (ok: bool)
    requires Validated(r, buf.Length)
    modifies buf
    ensures ok <==> Serialized(r, old(buf[..])).Some?
    ensures ok ==> Serialized(r, old(buf[..])) == Some(buf[..])
  {
    ghost var was := buf[..];
    var leftPos: nat;
    ok, leftPos := SerializeItems(r, buf);
    if !ok || r.childNodes == [] {
      return;
    }
    if leftPos + PAGE_NUM_SIZE > buf.Length {
      return false;
    }
    PutBytes(buf, leftPos, LastChild(r));
  }

  /** serialize up to the last child. */
  method SerializeItems(r: NodeRec, buf: array<Byte>) returns (ok: bool, leftPos: nat)
    requires Validated(r, buf.Length)
    modifies buf
    ensures ok <==> WriteItems(r, old(buf[..]), |r.items|).Some?
    ensures ok ==> WriteItems(r, old(buf[..]), |r.items|) == Some(buf[..])
    ensures ok ==> leftPos == 3 + DirectorySize(r, |r.items|)
  {
    ghost var was := buf[..];
    CellsSizeIs(r.items);
    PutBytes(buf, 0, Header(r));
    leftPos := 3;
    var rightPos := buf.Length - 1;
    for i := 0 to |r.items|
      invariant leftPos == 3 + DirectorySize(r, i) && rightPos == buf.Length - 1 - CellsSize(r.items[..i])
      invariant WriteItems(r, was, i) == Some(buf[..])
    {
      CellsSizeMonotone(r.items, i + 1);
      CellsStep(r.items, i);
      ok := WriteNext(r, buf, leftPos, rightPos, i);
      if !ok {
        NoneFrom(r, was, i + 1, |r.items|);
        return;
      }
      leftPos := leftPos + EntrySize(r);
      rightPos := rightPos - |Cell(r.items[i])|;
    }
    ok := true;
  }

  lemma {:induction false} NoneFrom(r: NodeRec, buf: seq<Byte>, i: nat, n: nat)
    requires Writable(r) && i <= n <= |r.items| && WriteItems(r, buf, i).None?
    ensures WriteItems(r, buf, n).None?
  {
    if i < n { NoneFrom(r, buf, i, n - 1); }
  }

  // ---------------------------------------------------------------- reading a page

  function ReadLe(buf: seq<Byte>, pos: nat, w: nat): Option<nat> {
    if pos + w <= |buf| then Some(FromLe(buf[pos..pos + w])) else None
  }

  /** A 16-bit sum: one that outgrows 16 bits wraps round. */
  function Wrap(n: nat): nat {
    if n < MAX_PAGE_SIZE then n else n - MAX_PAGE_SIZE
  }

  /** A length byte at pos and as many bytes after it; positions are 16-bit and wrap. Also the position after them. */
  function ReadField(buf: seq<Byte>, pos: nat): Option<(seq<Byte>, nat)> {
    if pos >= |buf| then None
    else
      var a := Wrap(pos + 1);
      var b := Wrap(a + buf[pos] as nat);
      if a <= b <= |buf| then Some((buf[a..b], b)) else None
  }

  function ReadCell(buf: seq<Byte>, offset: nat): Option<Item> {
    match ReadField(buf, offset)
    case None => None
    case Some(k) =>
      match ReadField(buf, k.1)
      case None => None
      case Some(v) => Some(Item(k.0, v.0))
  }

  /** deserialize's loop body: the child, unless in a leaf, and the item of the entry at pos. */
  function ReadEntry(buf: seq<Byte>, leaf: bool, pos: nat): Option<(Item, seq<PageNum>)> {
    var child := if leaf then Some(0) else ReadLe(buf, pos, 8);
    var offset := ReadLe(buf, if leaf then pos else pos + 8, 2);
    if child.None? || offset.None? then None
    else
      match ReadCell(buf, offset.value)
      case None => None
      case Some(x) => Some((x, if leaf then [] else [child.value]))
  }

  function EntryPos(leaf: bool, i: nat): nat {
    if leaf then 3 + 2 * i else 3 + 10 * i
  }

  function Extended(r: NodeRec, e: (Item, seq<PageNum>)): NodeRec {
    NodeRec(r.items + [e.0], r.childNodes + e.1)
  }

  /** The node so far after reading these entries; None once an entry is missing. */
  function Collected(es: seq<Option<(Item, seq<PageNum>)>>): Option<NodeRec> {
    if es == [] then Some(NodeRec([], []))
    else
      var n := |es| - 1;
      var r := Collected(es[..n]);
      if r.None? || es[n].None? then None else Some(Extended(r.value, es[n].value))
  }

  function ReadEntries(buf: seq<Byte>, leaf: bool, n: nat): seq<Option<(Item, seq<PageNum>)>> {
    seq(n, i requires 0 <= i < n => ReadEntry(buf, leaf, EntryPos(leaf, i)))
  }

  /** deserialize of a page: None where the code indexes out of range. */
  function Deserialized(buf: seq<Byte>): Option<NodeRec> {
    if |buf| < 3 then None
    else
      var leaf, n := buf[0] != 0, FromLe(buf[1..3]);
      Finished(Collected(ReadEntries(buf, leaf, n)), leaf, ReadLe(buf, 3 + 10 * n, 8))
  }

  /** The node that the loop has read, with the last child unless it is a leaf. */
  function Finished(r: Option<NodeRec>, leaf: bool, last: Option<nat>): Option<NodeRec> {
    if r.None? || leaf then r
    else if last.None? then None
    else Some(NodeRec(r.value.items, r.value.childNodes + [last.value]))
  }

  lemma {:induction false} NothingCollected(es: seq<Option<(Item, seq<PageNum>)>>, i: nat)
    requires i < |es| && es[i].None?
    ensures Collected(es).None?
  {
    var n := |es| - 1;
    if i < n { NothingCollected(es[..n], i); }
  }

  lemma OneCollected(es: seq<Option<(Item, seq<PageNum>)>>, i: nat)
    requires i < |es| && es[i].Some? && Collected(es[..i]).Some?
    ensures Collected(es[..i + 1]) == Some(Extended(Collected(es[..i]).value, es[i].value))
  {
    CutAt(es, i);
  }

  method DeserializeField(buf: seq<Byte>, pos: nat) returns (r: Option<(seq<Byte>, nat)>)
    ensures r == ReadField(buf, pos)
  {
    if pos >= |buf| {
      return None;
    }
    var length := buf[pos] as nat;
    var offset := Wrap(pos + 1);
    var end := Wrap(offset + length);
    if end < offset || end > |buf| {
      return None;
    }
    return Some((buf[offset..end], end));
  }

  /** deserialize. */
  method Deserialize(buf: seq<Byte>) returns (r: Option<NodeRec>)
    ensures r == Deserialized(buf)
  {
    if |buf| < 3 {
      return None;
    }
    var leaf, itemsCount := buf[0] != 0, FromLe(buf[1..3]);
    r := DeserializeItems(buf, leaf, itemsCount);
    r := DeserializeLast(buf, r, leaf, 3 + 10 * itemsCount);
  }

  /** The last child, unless in a leaf. */
  method DeserializeLast(buf: seq<Byte>, rec: Option<NodeRec>, leaf: bool, leftPos: nat) returns (r: Option<NodeRec>)
    ensures r == Finished(rec, leaf, ReadLe(buf, leftPos, 8))
  {
    if rec.None? || leaf {
      return rec;
    }
    if leftPos + PAGE_NUM_SIZE > |buf| {
      return None;
    }
    return Some(NodeRec(rec.value.items, rec.value.childNodes + [FromLe(buf[leftPos..leftPos + PAGE_NUM_SIZE])]));
  }

  /** deserialize's loop. */
  method DeserializeItems(buf: seq<Byte>, leaf: bool, itemsCount: nat) returns (r: Option<NodeRec>)
    ensures r == Collected(ReadEntries(buf, leaf, itemsCount))
  {
    ghost var es := ReadEntries(buf, leaf, itemsCount);
    var leftPos, rec := 3, NodeRec([], []);
    for i := 0 to itemsCount
      invariant leftPos == EntryPos(leaf, i)
      invariant Collected(es[..i]) == Some(rec)
    {
      var e := DeserializeEntry(buf, leaf, leftPos);
      assert e == es[i];
      if e.None? {
        NothingCollected(es, i);
        return None;
      }
      OneCollected(es, i);
      rec := Extended(rec, e.value);
      leftPos := leftPos + if leaf then 2 else 10;
    }
    Ends(es);
    return Some(rec);
  }

  /** One turn of deserialize's loop. */
  method DeserializeEntry(buf: seq<Byte>, leaf: bool, pos: nat) returns (e: Option<(Item, seq<PageNum>)>)
    ensures e == ReadEntry(buf, leaf, pos)
  {
    var leftPos, child := pos, [];
    if !leaf {
      if leftPos + PAGE_NUM_SIZE > |buf| {
        return None;
      }
      child := [FromLe(buf[leftPos..leftPos + PAGE_NUM_SIZE])];
      leftPos := leftPos + PAGE_NUM_SIZE;
    }
    if leftPos + 2 > |buf| {
      return None;
    }
    var offset := FromLe(buf[leftPos..leftPos + 2]);
    var key := DeserializeField(buf, offset);
    if key.None? {
      return None;
    }
    var value := DeserializeField(buf, key.value.1);
    if value.None? {
      return None;
    }
    return Some((Item(key.value.0, value.value.0), child));
  }

  // ---------------------------------------------------------------- round trip

  lemma PageParts(left: seq<Byte>, right: seq<Byte>, buf: seq<Byte>, i: nat, e: seq<Byte>)
    requires |left| + |right| + 1 <= |buf| && buf == Framed(left, right, buf)
    ensures i + |e| <= |left| && left[i..i + |e|] == e ==> buf[i..i + |e|] == e
    ensures var o := |buf| - 1 - |right|; i + |e| <= |right| && right[i..i + |e|] == e ==> buf[o + i..o + i + |e|] == e
  {
    var o := |buf| - 1 - |right|;
    assert buf[..|left|] == left && buf[o..|buf| - 1] == right;
    if i + |e| <= |left| { assert left[i..i + |e|] == buf[i..i + |e|]; }
    if i + |e| <= |right| { SubSlice(buf, o, |buf| - 1, i, i + |e|); }
  }

  /** Where a field was written, it is read, as long as its end does not reach the 16-bit limit. */
  lemma FieldRead(buf: seq<Byte>, pos: nat, f: seq<Byte>)
    requires |f| < 256 && pos + 1 + |f| <= |buf| && pos + 1 + |f| < MAX_PAGE_SIZE
    requires buf[pos..pos + 1 + |f|] == [|f| as Byte] + f
    ensures ReadField(buf, pos) == Some((f, pos + 1 + |f|))
  {
    var s := buf[pos..pos + 1 + |f|];
    assert s[0] == buf[pos];
    SubSlice(buf, pos, pos + 1 + |f|, 1, 1 + |f|);
    assert s[1..] == f;
  }

  lemma CellRead(buf: seq<Byte>, pos: nat, x: Item)
    requires |x.key| < 256 && |x.value| < 256 && pos + |Cell(x)| < |buf| <= MAX_PAGE_SIZE
    requires buf[pos..pos + |Cell(x)|] == Cell(x)
    ensures ReadCell(buf, pos) == Some(x)
  {
    var k, v := [|x.key| as Byte] + x.key, [|x.value| as Byte] + x.value;
    assert Cell(x) == k + v;
    SubSlice(buf, pos, pos + |Cell(x)|, 0, |k|);
    SubSlice(buf, pos, pos + |Cell(x)|, |k|, |k| + |v|);
    assert (k + v)[..|k|] == k && (k + v)[|k|..] == v;
    FieldRead(buf, pos, x.key);
    FieldRead(buf, pos + |k|, x.value);
  }

  /** The cells of the first i items are a suffix of all cells. */
  lemma {:induction false} CellsSuffix(s: seq<Item>, i: nat)
    requires Lengths(s) && i <= |s|
    ensures CellsSize(s[..i]) <= CellsSize(s)
    ensures Cells(s)[CellsSize(s) - CellsSize(s[..i])..] == Cells(s[..i])
    decreases |s|
  {
    if i < |s| {
      var n := |s| - 1;
      CellsSuffix(s[..n], i);
      assert s[..n][..i] == s[..i];
      assert Cells(s) == Cell(s[n]) + Cells(s[..n]);
    } else {
      assert s[..i] == s;
    }
  }

  /** The cell of item i, counted from the start of all cells. */
  lemma CellAt(s: seq<Item>, i: nat)
    requires Lengths(s) && i < |s|
    ensures var o := CellsSize(s) - CellsSize(s[..i + 1]); 0 <= o && o + |Cell(s[i])| <= |Cells(s)| && Cells(s)[o..o + |Cell(s[i])|] == Cell(s[i])
  {
    var o := CellsSize(s) - CellsSize(s[..i + 1]);
    CellsSuffix(s, i + 1);
    CellsStep(s, i);
    AtStart(Cells(s), o, Cell(s[i]), Cells(s[..i]));
  }

  /** Item i is read back from its cell. */
  lemma ItemRead(buf: seq<Byte>, r: NodeRec, i: nat)
    requires IsPageOf(buf, r) && i < |r.items|
    ensures ReadCell(buf, Offset(r.items, |buf|, i)) == Some(r.items[i])
  {
    var x, o := r.items[i], CellsSize(r.items) - CellsSize(r.items[..i + 1]);
    CellAt(r.items, i);
    PageParts(Header(r) + Directory(r, |buf|) + LastChild(r), Cells(r.items), buf, o, Cell(x));
    CellRead(buf, Offset(r.items, |buf|, i), x);
  }

  lemma MiddleSlice<T>(h: seq<T>, d: seq<T>, l: seq<T>, a: nat, b: nat)
    requires a <= b <= |d|
    ensures (h + d + l)[|h| + a..|h| + b] == d[a..b]
  {
  }

  lemma DirectoryAt(r: NodeRec, pageSize: nat, i: nat)
    requires Writable(r) && i < |r.items|
    ensures var a := DirectorySize(r, i);
      a + EntrySize(r) <= |Directory(r, pageSize)| && Directory(r, pageSize)[a..a + EntrySize(r)] == Entry(r, pageSize, i)
  {
    FlatAt(Entries(r, pageSize), if r.childNodes == [] then 2 else 10, i);
  }

  /** Entry i of the directory, as it lies in the page. */
  lemma EntryAt(buf: seq<Byte>, r: NodeRec, i: nat)
    requires IsPageOf(buf, r) && i < |r.items|
    ensures var a := 3 + DirectorySize(r, i);
      a + EntrySize(r) <= |buf| && buf[a..a + EntrySize(r)] == Entry(r, |buf|, i)
  {
    var a, w, d := DirectorySize(r, i), EntrySize(r), Directory(r, |buf|);
    DirectoryAt(r, |buf|, i);
    MiddleSlice(Header(r), d, LastChild(r), a, a + w);
    PageParts(Header(r) + d + LastChild(r), Cells(r.items), buf, 3 + a, Entry(r, |buf|, i));
  }

  lemma EntryIs(buf: seq<Byte>, leaf: bool, a: nat, child: nat, offset: nat, x: Item)
    requires ReadCell(buf, offset) == Some(x) && ReadLe(buf, if leaf then a else a + 8, 2) == Some(offset)
    requires !leaf ==> ReadLe(buf, a, 8) == Some(child)
    ensures ReadEntry(buf, leaf, a) == Some((x, if leaf then [] else [child]))
  {
  }

  /** A directory entry, made of the bytes of a child and of an offset, is read back as these. */
  lemma EntryParts(buf: seq<Byte>, leaf: bool, a: nat, c: seq<Byte>, o: seq<Byte>, x: Item)
    requires |o| == 2 && |c| == (if leaf then 0 else 8) && ReadCell(buf, FromLe(o)) == Some(x)
    requires a + |c| + |o| <= |buf| && buf[a..a + |c| + |o|] == c + o
    ensures ReadEntry(buf, leaf, a) == Some((x, if leaf then [] else [FromLe(c)]))
  {
    TwoParts(buf, a, c, o);
    EntryIs(buf, leaf, a, FromLe(c), FromLe(o), x);
  }

  /** Entry i is read back as child i, unless in a leaf, and item i. */
  ghost predicate EntryReads(buf: seq<Byte>, r: NodeRec, i: nat)
    requires i < |r.items| && (r.childNodes == [] || |r.childNodes| == |r.items| + 1)
  {
    ReadEntry(buf, r.childNodes == [], EntryPos(r.childNodes == [], i))
      == Some((r.items[i], if r.childNodes == [] then [] else [r.childNodes[i]]))
  }

  lemma EntryRead(buf: seq<Byte>, r: NodeRec, i: nat)
    requires IsPageOf(buf, r) && i < |r.items|
    ensures EntryReads(buf, r, i)
  {
    Limits();
    EntryAt(buf, r, i);
    ItemRead(buf, r, i);
    LeRoundTrip(Offset(r.items, |buf|, i), 2);
    if r.childNodes != [] { LeRoundTrip(r.childNodes[i], 8); }
    EntryParts(buf, r.childNodes == [], EntryPos(r.childNodes == [], i), if r.childNodes == [] then [] else Le(r.childNodes[i], 8),
      Le(Offset(r.items, |buf|, i), 2), r.items[i]);
  }

  /** Entries that are a node's children and items, one each, collect to the node. */
  lemma {:induction false} CollectedAll(es: seq<Option<(Item, seq<PageNum>)>>, items: seq<Item>, kids: seq<PageNum>)
    requires |es| == |items| && (kids == [] || |kids| == |items|)
    requires forall j :: 0 <= j < |es| ==> es[j] == Some((items[j], if kids == [] then [] else [kids[j]]))
    ensures Collected(es) == Some(NodeRec(items, kids))
  {
    if es != [] {
      var n := |es| - 1;
      CollectedAll(es[..n], items[..n], if kids == [] then [] else kids[..n]);
      LastExtends(items, kids);
    }
  }

  lemma LastExtends(items: seq<Item>, kids: seq<PageNum>)
    requires items != [] && (kids == [] || |kids| == |items|)
    ensures var n := |items| - 1;
      NodeRec(items, kids) == Extended(NodeRec(items[..n], if kids == [] then [] else kids[..n]), (items[n], if kids == [] then [] else [kids[n]]))
  {
  }

  lemma HeaderIs(buf: seq<Byte>, r: NodeRec)
    requires |buf| >= 3 && buf[0..3] == Header(r) && |r.items| < Limit(2)
    ensures (buf[0] != 0 <==> r.childNodes == []) && FromLe(buf[1..3]) == |r.items|
  {
    LeRoundTrip(|r.items|, 2);
    SubSlice(buf, 0, 3, 1, 3);
    assert Header(r)[1..3] == Le(|r.items|, 2);
    assert buf[0..3][0] == buf[0];
  }

  lemma HeaderRead(buf: seq<Byte>, r: NodeRec)
    requires IsPageOf(buf, r)
    ensures |buf| >= 3 && (buf[0] != 0 <==> r.childNodes == []) && FromLe(buf[1..3]) == |r.items|
  {
    Limits();
    MiddleSlice([], Header(r), Directory(r, |buf|) + LastChild(r), 0, 3);
    PageParts(Header(r) + Directory(r, |buf|) + LastChild(r), Cells(r.items), buf, 0, Header(r));
    HeaderIs(buf, r);
  }

  lemma LastChildRead(buf: seq<Byte>, r: NodeRec)
    requires IsPageOf(buf, r) && r.childNodes != []
    ensures ReadLe(buf, 3 + 10 * |r.items|, 8) == Some(r.childNodes[|r.items|])
  {
    var d, l := Header(r) + Directory(r, |buf|), LastChild(r);
    Limits();
    LeRoundTrip(r.childNodes[|r.items|], 8);
    MiddleSlice(d, l, [], 0, 8);
    assert d + l + [] == d + l;
    PageParts(d + l, Cells(r.items), buf, |d|, l);
  }

  lemma EntriesRead(buf: seq<Byte>, r: NodeRec)
    requires IsPageOf(buf, r)
    ensures var n, leaf := |r.items|, r.childNodes == [];
      Collected(ReadEntries(buf, leaf, n)) == Some(NodeRec(r.items, if leaf then [] else r.childNodes[..n]))
  {
    var n, leaf := |r.items|, r.childNodes == [];
    var es, kids := ReadEntries(buf, leaf, n), if leaf then [] else r.childNodes[..n];
    forall i | 0 <= i < n ensures es[i] == Some((r.items[i], if kids == [] then [] else [kids[i]])) { EntryRead(buf, r, i); }
    CollectedAll(es, r.items, kids);
  }

  lemma Assembled(buf: seq<Byte>, r: NodeRec)
    requires r.childNodes == [] || |r.childNodes| == |r.items| + 1
    requires |buf| >= 3 && (buf[0] != 0 <==> r.childNodes == []) && FromLe(buf[1..3]) == |r.items|
    requires var n, leaf := |r.items|, r.childNodes == [];
      Collected(ReadEntries(buf, leaf, n)) == Some(NodeRec(r.items, if leaf then [] else r.childNodes[..n]))
    requires r.childNodes != [] ==> ReadLe(buf, 3 + 10 * |r.items|, 8) == Some(r.childNodes[|r.items|])
    ensures Deserialized(buf) == Some(r)
  {
    if r.childNodes != [] {
      Suffix(r.childNodes, |r.items|);
      Ends(r.childNodes);
    }
  }

  /** The page of a node is read back as the node: so no page is the page of two nodes. */
  lemma PageRoundTrip(buf: seq<Byte>, r: NodeRec)
    requires IsPageOf(buf, r)
    ensures Deserialized(buf) == Some(r)
  {
    HeaderRead(buf, r);
    EntriesRead(buf, r);
    if r.childNodes != [] { LastChildRead(buf, r); }
    Assembled(buf, r);
  }

  /** What serialize writes for a node that fits is read back as the node. */
  lemma SerializeRoundTrip(r: NodeRec, buf: seq<Byte>)
    requires FitsPage(r, |buf|)
    ensures Serialized(r, buf).Some? && Deserialized(Serialized(r, buf).value) == Some(r)
  {
    SerializedIsPage(r, buf);
    PageRoundTrip(Serialized(r, buf).value, r);
  }

  /** So it is for every leaf that validate accepts. */
  lemma ValidatedLeafRoundTrip(r: NodeRec, buf: seq<Byte>)
    requires Validated(r, |buf|) && |buf| <= MAX_PAGE_SIZE && r.childNodes == []
    ensures Serialized(r, buf).Some? && Deserialized(Serialized(r, buf).value) == Some(r)
  {
    ValidatedFits(r, |buf|);
    SerializeRoundTrip(r, buf);
  }

  // ---------------------------------------------------------------- internal nodes that are too large

  function WithLast(r: NodeRec, c: PageNum): NodeRec
    requires r.childNodes != []
  {
    NodeRec(r.items, r.childNodes[|r.childNodes| - 1 := c])
  }

  lemma {:induction false} CollectedItem(es: seq<Option<(Item, seq<PageNum>)>>, i: nat)
    requires Collected(es).Some? && i < |es|
    ensures |Collected(es).value.items| == |es| && es[i].Some? && Collected(es).value.items[i] == es[i].value.0
  {
    var n := |es| - 1;
    if n > 0 { CollectedItem(es[..n], if i < n then i else 0); } else { assert es[..0] == []; }
  }

  lemma SubSliceBefore(p: seq<Byte>, left: seq<Byte>, i: nat, j: nat)
    requires i <= j <= |left| <= |p| && p[..|left|] == left
    ensures p[i..j] == left[i..j]
  {
    SubSlice(p, 0, |left|, i, j);
    assert p[0..|left|] == p[..|left|];
  }

  /** The page of a node whose last child is written over the start of the last item's cell. */
  lemma OverlappedPage(r: NodeRec, buf: seq<Byte>)
    requires ItemsFit(r, |buf|) && r.childNodes != [] && r.items != []
    requires Serialized(r, buf).Some?
    ensures var p, n, left := Serialized(r, buf).value, |r.items|, Header(r) + Directory(r, |buf|);
      && |p| == |buf| && |left| == 3 + 10 * n && |left| + 8 <= |p|
      && p[..|left|] == left && p[|left|..|left| + 8] == LastChild(r)
  {
    var n := |r.items|;
    WriteItemsFits(r, buf, n);
    AllParts(r, buf);
    PagePrefix(Header(r) + Directory(r, |buf|), Cells(r.items), buf);
    OverwritePrefix(Part(r, buf, n), Header(r) + Directory(r, |buf|), LastChild(r));
  }

  lemma PagePrefix(left: seq<Byte>, right: seq<Byte>, was: seq<Byte>)
    requires |left| + |right| + 1 <= |was|
    ensures Framed(left, right, was)[..|left|] == left
  {
  }

  lemma OverwritePrefix(b: seq<Byte>, left: seq<Byte>, s: seq<Byte>)
    requires |left| + |s| <= |b| && b[..|left|] == left
    ensures var p := Overwrite(b, |left|, s).value; p[..|left|] == left && p[|left|..|left| + |s|] == s
  {
  }

  /** Header and last directory entry are in place all the same. */
  lemma OverlappedEntries(r: NodeRec, p: seq<Byte>)
    requires Writable(r) && r.childNodes != [] && r.items != []
    requires var left := Header(r) + Directory(r, |p|); |left| <= |p| && p[..|left|] == left
    ensures var n := |r.items|;
      3 + 10 * n <= |p| && p[0..3] == Header(r) && p[3 + 10 * (n - 1)..3 + 10 * n] == Entry(r, |p|, n - 1)
  {
    var n, h, d := |r.items|, Header(r), Directory(r, |p|);
    DirectoryAt(r, |p|, n - 1);
    SubSliceBefore(p, h + d, 0, 3);
    assert (h + d)[0..3] == h;
    SubSliceBefore(p, h + d, 3 + 10 * (n - 1), 3 + 10 * n);
    MiddleSlice(h, d, [], 10 * (n - 1), 10 * n);
    assert h + d + [] == h + d;
  }

  lemma CellStartsWithLength(p: seq<Byte>, o: nat, x: Item)
    requires ReadCell(p, o) == Some(x)
    ensures o < |p| && p[o] as nat == |x.key|
  {
  }

  /** If that changes the length of the last key, the node is not read back. */
  lemma OverlapBreaks(r: NodeRec, buf: seq<Byte>)
    requires ItemsFit(r, |buf|) && r.childNodes != [] && r.items != []
    requires var d, o, n := 3 + DirectorySize(r, |r.items|), |buf| - 1 - CellsSize(r.items), |r.items|;
      d <= o < d + 8 && LastChild(r)[o - d] as nat != |r.items[n - 1].key|
    requires Serialized(r, buf).Some?
    ensures Deserialized(Serialized(r, buf).value) != Some(r)
  {
    var p, n, o := Serialized(r, buf).value, |r.items|, |buf| - 1 - CellsSize(r.items);
    var d := 3 + 10 * n;
    OverlappedPage(r, buf);
    OverlappedEntries(r, p);
    assert p[o] == p[d..d + 8][o - d];
    LastEntryOffset(r, p);
    Limits();
    HeaderIs(p, r);
    if Deserialized(p) == Some(r) {
      LastItemIs(r, p, o);
      CellStartsWithLength(p, o, r.items[n - 1]);
    }
  }

  /** What the items read collect to. */
  lemma DeserializedItems(p: seq<Byte>, r: NodeRec)
    requires Deserialized(p) == Some(r) && |p| >= 3 && p[0] == 0
    ensures var c := Collected(ReadEntries(p, false, FromLe(p[1..3]))); c.Some? && c.value.items == r.items
  {
  }

  lemma LastItemIs(r: NodeRec, p: seq<Byte>, o: nat)
    requires Deserialized(p) == Some(r)
    requires r.items != [] && |p| >= 3 && p[0] == 0 && FromLe(p[1..3]) == |r.items|
    requires ReadLe(p, 3 + 10 * (|r.items| - 1) + 8, 2) == Some(o)
    ensures ReadCell(p, o) == Some(r.items[|r.items| - 1])
  {
    DeserializedItems(p, r);
    LastItemRead(p, |r.items|, r.items, o);
  }

  lemma LastItemRead(p: seq<Byte>, n: nat, items: seq<Item>, o: nat)
    requires n > 0 && Collected(ReadEntries(p, false, n)).Some? && Collected(ReadEntries(p, false, n)).value.items == items
    requires ReadLe(p, 3 + 10 * (n - 1) + 8, 2) == Some(o)
    ensures |items| == n && ReadCell(p, o) == Some(items[n - 1])
  {
    ItemCollected(p, false, n, n - 1);
    EntryItem(p, n - 1, o);
  }

  /** An item collected is the one of its entry. */
  lemma ItemCollected(p: seq<Byte>, leaf: bool, n: nat, i: nat)
    requires i < n && Collected(ReadEntries(p, leaf, n)).Some?
    ensures var c, e := Collected(ReadEntries(p, leaf, n)).value, ReadEntry(p, leaf, EntryPos(leaf, i));
      |c.items| == n && e.Some? && c.items[i] == e.value.0
  {
    CollectedItem(ReadEntries(p, leaf, n), i);
  }

  lemma EntryItem(p: seq<Byte>, i: nat, o: nat)
    requires ReadLe(p, 3 + 10 * i + 8, 2) == Some(o)
    ensures var e := ReadEntry(p, false, EntryPos(false, i)); e.Some? ==> ReadCell(p, o) == Some(e.value.0)
  {
  }

  /** The offset read from the last directory entry is where the last cell starts. */
  lemma LastEntryOffset(r: NodeRec, p: seq<Byte>)
    requires ItemsFit(r, |p|) && r.childNodes != [] && r.items != []
    requires var n := |r.items|; 3 + 10 * n <= |p| && p[3 + 10 * (n - 1)..3 + 10 * n] == Entry(r, |p|, n - 1)
    ensures ReadLe(p, 3 + 10 * (|r.items| - 1) + 8, 2) == Some(|p| - 1 - CellsSize(r.items))
  {
    var n := |r.items|;
    var off := Offset(r.items, |p|, n - 1);
    assert r.items[..n] == r.items;
    Limits();
    LeRoundTrip(off, 2);
    SubSlice(p, 3 + 10 * (n - 1), 3 + 10 * n, 8, 10);
    assert Entry(r, |p|, n - 1)[8..10] == Le(off, 2);
  }

  lemma {:induction false} PowerByte(j: nat, w: nat)
    requires j < w
    ensures Limit(j) < Limit(w) && Le(Limit(j), w)[j] == 1
  {
    if j > 0 { PowerByte(j - 1, w - 1); }
  }

  lemma {:induction false} ZeroBytes(w: nat)
    ensures forall j :: 0 <= j < w ==> Le(0, w)[j] == 0
  {
    if w > 0 { ZeroBytes(w - 1); }
  }

  /** A page number whose byte j is not b. */
  lemma OtherByte(j: nat, b: nat) returns (c: PageNum)
    requires j < 8
    ensures c < UINT64_LIMIT && Le(c, 8)[j] as nat != b
  {
    Limits();
    PowerByte(j, 8);
    ZeroBytes(8);
    c := if b == 0 then Limit(j) else 0;
  }

  /** r is read back from its page whatever its last child is. */
  ghost predicate SurvivesAnyChild(r: NodeRec, buf: seq<Byte>)
    requires Writable(r) && r.childNodes != []
  {
    forall c: PageNum :: c < UINT64_LIMIT ==>
      Serialized(WithLast(r, c), buf).Some? && Deserialized(Serialized(WithLast(r, c), buf).value) == Some(WithLast(r, c))
  }

  /** An internal node whose items fit is read back whatever its last child is, exactly if the layout fits. */
  lemma LastChildExact(r: NodeRec, buf: seq<Byte>)
    requires ItemsFit(r, |buf|) && r.childNodes != [] && r.items != []
    ensures SurvivesAnyChild(r, buf) <==> LayoutSize(r) <= |buf|
  {
    if LayoutSize(r) <= |buf| {
      forall c: PageNum | c < UINT64_LIMIT
        ensures Serialized(WithLast(r, c), buf).Some? && Deserialized(Serialized(WithLast(r, c), buf).value) == Some(WithLast(r, c))
      {
        SerializeRoundTrip(WithLast(r, c), buf);
      }
    } else {
      var n := |r.items|;
      var j := |buf| - 1 - CellsSize(r.items) - 3 - 10 * n;
      var c := OtherByte(j, |r.items[n - 1].key|);
      if Serialized(WithLast(r, c), buf).Some? { OverlapBreaks(WithLast(r, c), buf); }
    }
  }
}
