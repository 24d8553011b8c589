/** The pages a database keeps for itself: the freelist (freelist.go) and the meta page (meta.go); and collection values (collection.go). */
module HeadCodec {
  import opened Maybe
  import opened Seqs
  import opened Keys
  import opened Bytes
  import opened Trees
  import opened Pool

  const MAGIC_NUMBER := 0xD00DB00D
  const FILE_VERSION := 1

  // ---------------------------------------------------------------- the freelist

  function PageNums(ps: seq<PageNum>): (r: seq<seq<Byte>>)
    ensures |r| == |ps| && AllOf(r, 8)
  {
    seq(|ps|, i requires 0 <= i < |ps| => Le(ps[i], 8))
  }

  /** What serialize writes at the start of the page. */
  function FreelistBytes(p: Pool): seq<Byte> {
    Le(p.maxPage, 8) + Le(|p.released|, 2) + Flat(PageNums(p.released))
  }

  function FromPageNums(s: seq<Byte>, n: nat): (r: seq<PageNum>)
    requires 8 * n <= |s|
    ensures |r| == n
  {
    seq(n, i requires 0 <= i < n => FromLe(s[8 * i..8 * i + 8]))
  }

  /** deserialize into an empty freelist; None where the code indexes out of range. */
  function ReadFreelist(buf: seq<Byte>): Option<Pool> {
    if |buf| < 10 then None
    else
      var n := FromLe(buf[8..10]);
      if 10 + 8 * n > |buf| then None else Some(Pool(FromLe(buf[..8]), FromPageNums(buf[10..], n)))
  }

  lemma {:induction false} PageNumsRead(ps: seq<PageNum>, s: seq<Byte>)
    requires 8 * |ps| <= |s| && s[..8 * |ps|] == Flat(PageNums(ps)) && forall i :: 0 <= i < |ps| ==> ps[i] < UINT64_LIMIT
    ensures FromPageNums(s, |ps|) == ps
  {
    Limits();
    forall i | 0 <= i < |ps| ensures FromLe(s[8 * i..8 * i + 8]) == ps[i] {
      FlatAt(PageNums(ps), 8, i);
      SubSlice(s, 0, 8 * |ps|, 8 * i, 8 * i + 8);
      assert s[0..8 * |ps|] == s[..8 * |ps|];
      LeRoundTrip(ps[i], 8);
    }
  }

  /** A freelist whose page numbers fit comes back from its page exactly if its length fits two bytes. */
  lemma FreelistRoundTrip(p: Pool, buf: seq<Byte>)
    requires |FreelistBytes(p)| <= |buf| && buf[..|FreelistBytes(p)|] == FreelistBytes(p)
    requires p.maxPage < UINT64_LIMIT && forall i :: 0 <= i < |p.released| ==> p.released[i] < UINT64_LIMIT
    ensures ReadFreelist(buf) == Some(p) <==> |p.released| < 0x1_0000
  {
    var n, f := |p.released|, Flat(PageNums(p.released));
    Limits();
    FlatLength(PageNums(p.released), 8);
    FreelistParts(p, buf);
    LeRoundTrip(p.maxPage, 8);
    LeExact(n, 2);
    if n < 0x1_0000 {
      assert buf[10..][..8 * n] == f;
      PageNumsRead(p.released, buf[10..]);
    }
  }

  lemma FreelistParts(p: Pool, buf: seq<Byte>)
    requires |FreelistBytes(p)| <= |buf| && buf[..|FreelistBytes(p)|] == FreelistBytes(p)
    ensures buf[..8] == Le(p.maxPage, 8) && buf[8..10] == Le(|p.released|, 2)
    ensures buf[10..][..|FreelistBytes(p)| - 10] == Flat(PageNums(p.released))
  {
    var b, n := FreelistBytes(p), |FreelistBytes(p)|;
    assert b[..8] == Le(p.maxPage, 8) && b[8..10] == Le(|p.released|, 2) && b[10..] == Flat(PageNums(p.released));
    SubSlice(buf, 0, n, 8, 10);
    assert buf[0..n] == buf[..n];
    assert buf[..8] == buf[..n][..8];
    assert buf[10..][..n - 10] == buf[..n][10..];
  }

  /** One more part written behind the parts so far. */
  lemma OneMore(was: seq<Byte>, h: seq<Byte>, ns: seq<seq<Byte>>, i: nat)
    requires i < |ns| && |h + Flat(ns[..i])| + |ns[i]| <= |was|
    ensures |h + Flat(ns[..i + 1])| == |h + Flat(ns[..i])| + |ns[i]|
    ensures Overwrite(Overwrite(was, 0, h + Flat(ns[..i])).value, |h + Flat(ns[..i])|, ns[i]) == Overwrite(was, 0, h + Flat(ns[..i + 1]))
  {
    FlatStep(ns, i);
    OverwriteNext(was, 0, h + Flat(ns[..i]), ns[i]);
    Assoc(h, Flat(ns[..i]), ns[i]);
  }

  /** A page is read as a freelist exactly if it begins with what serialize writes for it. */
  lemma FreelistExact(p: Pool, buf: seq<Byte>)
    ensures ReadFreelist(buf) == Some(p) <==>
      && p.maxPage < UINT64_LIMIT && |p.released| < 0x1_0000 && (forall i :: 0 <= i < |p.released| ==> p.released[i] < UINT64_LIMIT)
      && |FreelistBytes(p)| <= |buf| && buf[..|FreelistBytes(p)|] == FreelistBytes(p)
  {
    if ReadFreelist(buf) == Some(p) {
      FreelistParsed(p, buf);
    } else if
      && p.maxPage < UINT64_LIMIT && |p.released| < 0x1_0000 && (forall i :: 0 <= i < |p.released| ==> p.released[i] < UINT64_LIMIT)
      && |FreelistBytes(p)| <= |buf| && buf[..|FreelistBytes(p)|] == FreelistBytes(p) {
      FreelistRoundTrip(p, buf);
    }
  }

  lemma FreelistParsed(p: Pool, buf: seq<Byte>)
    requires ReadFreelist(buf) == Some(p)
    ensures p.maxPage < UINT64_LIMIT && |p.released| < 0x1_0000 && forall i :: 0 <= i < |p.released| ==> p.released[i] < UINT64_LIMIT
    ensures |FreelistBytes(p)| <= |buf| && buf[..|FreelistBytes(p)|] == FreelistBytes(p)
  {
    var n := |p.released|;
    Limits();
    FromLeExact(buf[..8], p.maxPage);
    FromLeExact(buf[8..10], n);
    NumbersParsed(p.released, buf[10..10 + 8 * n], buf[10..]);
    assert buf[..10 + 8 * n] == buf[..8] + buf[8..10] + buf[10..10 + 8 * n];
  }

  lemma NumbersParsed(ps: seq<PageNum>, s: seq<Byte>, rest: seq<Byte>)
    requires |s| == 8 * |ps| <= |rest| && s == rest[..|s|] && ps == FromPageNums(rest, |ps|)
    ensures Flat(PageNums(ps)) == s && forall i :: 0 <= i < |ps| ==> ps[i] < UINT64_LIMIT
  {
    Limits();
    forall i | 0 <= i < |ps| ensures PageNums(ps)[i] == s[8 * i..8 * i + 8] && ps[i] < UINT64_LIMIT {
      SubSlice(rest, 0, |s|, 8 * i, 8 * i + 8);
      assert rest[0..|s|] == s;
      FromLeExact(s[8 * i..8 * i + 8], ps[i]);
    }
    FlatOfParts(PageNums(ps), 8, s);
  }

  /** The highest page, the number of released pages, and these. */
  lemma FreelistLayout(p: Pool, i: nat)
    requires i < |p.released|
    ensures var s := FreelistBytes(p);
      && s[0..8] == Le(p.maxPage, 8) && s[8..10] == Le(|p.released|, 2) && |s| == 10 + 8 * |p.released|
      && s[10 + 8 * i..18 + 8 * i] == Le(p.released[i], 8)
  {
    var h := Le(p.maxPage, 8) + Le(|p.released|, 2);
    FlatLength(PageNums(p.released), 8);
    FlatAt(PageNums(p.released), 8, i);
    InHead(h, Flat(PageNums(p.released)), 0, 8);
    InHead(h, Flat(PageNums(p.released)), 8, 10);
    InTail(h, Flat(PageNums(p.released)), 8 * i, 8 * i + 8);
  }

  /** serialize; false is the index panic of a freelist too long for the page. */
  method SerializeFreelist(p: Pool, buf: array<Byte>) returns (ok: bool)
    modifies buf
    ensures ok <==> 10 + 8 * |p.released| <= buf.Length
    ensures ok ==> Overwrite(old(buf[..]), 0, FreelistBytes(p)) == Some(buf[..])
  {
    ghost var was, ns := buf[..], PageNums(p.released);
    FlatLength(ns, 8);
    if 10 > buf.Length {
      return false;
    }
    PutBytes(buf, 0, Le(p.maxPage, 8));
    PutBytes(buf, 8, Le(|p.released|, 2));
    OverwriteNext(was, 0, Le(p.maxPage, 8), Le(|p.released|, 2));
    ghost var h := Le(p.maxPage, 8) + Le(|p.released|, 2);
    var pos := 10;
    assert h + Flat(ns[..0]) == h;
    for i := 0 to |p.released|
      invariant pos == 10 + 8 * i && |h + Flat(ns[..i])| == pos
      invariant Overwrite(was, 0, h + Flat(ns[..i])) == Some(buf[..])
    {
      if pos + 8 > buf.Length {
        return false;
      }
      PutBytes(buf, pos, Le(p.released[i], 8));
      OneMore(was, h, ns, i);
      pos := pos + 8;
    }
    assert ns[..|ns|] == ns;
    return true;
  }

  /** deserialize. */
  method DeserializeFreelist(buf: seq<Byte>) returns (p: Option<Pool>)
    ensures p == ReadFreelist(buf)
  {
    if |buf| < 10 {
      return None;
    }
    var n := FromLe(buf[8..10]);
    var released: seq<PageNum>, pos := [], 10;
    for i := 0 to n
      invariant pos == 10 + 8 * i && pos <= |buf| && released == FromPageNums(buf[10..], i)
    {
      if pos + 8 > |buf| {
        return None;
      }
      assert buf[10..][8 * i..8 * i + 8] == buf[pos..pos + 8];
      released := released + [FromLe(buf[pos..pos + 8])];
      pos := pos + 8;
    }
    return Some(Pool(FromLe(buf[..8]), released));
  }

  // ---------------------------------------------------------------- the meta page

  datatype Meta = Meta(root: PageNum, freelistPage: PageNum)

  function MetaBytes(m: Meta): (r: seq<Byte>)
    ensures |r| == META_HEADER_SIZE
  {
    Le(MAGIC_NUMBER, 4) + Le(FILE_VERSION, 4) + Le(m.root, 8) + Le(m.freelistPage, 8)
  }

  /** deserialize; None is the error for a wrong magic number or version. */
  function ReadMeta(buf: seq<Byte>): Option<Meta>
    requires |buf| >= META_HEADER_SIZE
  {
    if FromLe(buf[..4]) != MAGIC_NUMBER || FromLe(buf[4..8]) != FILE_VERSION then None
    else Some(Meta(FromLe(buf[8..16]), FromLe(buf[16..24])))
  }

  lemma MetaParts(magic: seq<Byte>, version: seq<Byte>, root: seq<Byte>, freelistPage: seq<Byte>)
    requires |magic| == |version| == 4 && |root| == |freelistPage| == 8
    ensures var b := magic + version + root + freelistPage; b[..4] == magic && b[4..8] == version && b[8..16] == root && b[16..24] == freelistPage
  {
  }

  lemma MetaRoundTrip(m: Meta, buf: seq<Byte>)
    requires |buf| >= META_HEADER_SIZE && buf[..META_HEADER_SIZE] == MetaBytes(m)
    requires m.root < UINT64_LIMIT && m.freelistPage < UINT64_LIMIT
    ensures ReadMeta(buf) == Some(m)
  {
    Limits();
    LeRoundTrip(MAGIC_NUMBER, 4);
    LeRoundTrip(FILE_VERSION, 4);
    LeRoundTrip(m.root, 8);
    LeRoundTrip(m.freelistPage, 8);
    var b := MetaBytes(m);
    MetaParts(Le(MAGIC_NUMBER, 4), Le(FILE_VERSION, 4), Le(m.root, 8), Le(m.freelistPage, 8));
    assert buf[..4] == b[..4];
    SubSlice(buf, 0, 24, 4, 8);
    SubSlice(buf, 0, 24, 8, 16);
    SubSlice(buf, 0, 24, 16, 24);
    assert buf[0..24] == buf[..24];
  }

  /** A meta page is accepted exactly if it is what serialize writes for root and freelist page. */
  lemma MetaExact(m: Meta, buf: seq<Byte>)
    requires |buf| >= META_HEADER_SIZE
    ensures ReadMeta(buf) == Some(m) <==> m.root < UINT64_LIMIT && m.freelistPage < UINT64_LIMIT && buf[..META_HEADER_SIZE] == MetaBytes(m)
  {
    Limits();
    if ReadMeta(buf) == Some(m) {
      FromLeExact(buf[..4], MAGIC_NUMBER);
      FromLeExact(buf[4..8], FILE_VERSION);
      FromLeExact(buf[8..16], m.root);
      FromLeExact(buf[16..24], m.freelistPage);
      assert buf[..24] == buf[..4] + buf[4..8] + buf[8..16] + buf[16..24];
    } else if m.root < UINT64_LIMIT && m.freelistPage < UINT64_LIMIT && buf[..META_HEADER_SIZE] == MetaBytes(m) {
      MetaRoundTrip(m, buf);
    }
  }

  /** The magic number D00DB00D and version 1, lowest byte first, then root and freelist page. */
  lemma MetaLayout(m: Meta)
    ensures MetaBytes(m) == [0x0D, 0xB0, 0x0D, 0xD0, 1, 0, 0, 0] + Le(m.root, 8) + Le(m.freelistPage, 8)
  {
    assert Le(MAGIC_NUMBER, 4) == [0x0D, 0xB0, 0x0D, 0xD0];
    assert Le(FILE_VERSION, 4) == [1, 0, 0, 0];
  }

  // ---------------------------------------------------------------- collection values

  /** Collection.serialize: the value under the collection's name in the root collection. */
  function CollectionValue(root: PageNum, counter: nat): (v: seq<Byte>)
    ensures |v| == 16
  {
    Le(root, 8) + Le(counter, 8)
  }

  /** Collection.deserialize: an empty value leaves a collection without root; a short one is an index panic. */
  function ReadCollectionValue(v: seq<Byte>): Option<(PageNum, nat)> {
    if v == [] then Some((0, 0)) else if |v| < 16 then None else Some((FromLe(v[..8]), FromLe(v[8..16])))
  }

  /** Root and counter come back exactly if both are 64-bit numbers. */
  lemma CollectionRoundTrip(root: PageNum, counter: nat)
    ensures ReadCollectionValue(CollectionValue(root, counter)) == Some((root, counter)) <==> root < UINT64_LIMIT && counter < UINT64_LIMIT
  {
    var v := CollectionValue(root, counter);
    Limits();
    LeExact(root, 8);
    LeExact(counter, 8);
    assert v[..8] == Le(root, 8) && v[8..16] == Le(counter, 8);
  }

  /** A value is read as root and counter if it begins with them, root first, or if it is empty and both are 0. */
  lemma CollectionExact(v: seq<Byte>, root: PageNum, counter: nat)
    ensures ReadCollectionValue(v) == Some((root, counter)) <==>
      || (v == [] && root == 0 && counter == 0)
      || (|v| >= 16 && root < UINT64_LIMIT && counter < UINT64_LIMIT && v[..8] == Le(root, 8) && v[8..16] == Le(counter, 8))
    ensures ReadCollectionValue(v).None? <==> 0 < |v| < 16
  {
    Limits();
    if |v| >= 16 {
      FromLeExact(v[..8], root);
      FromLeExact(v[8..16], counter);
    }
  }
}
