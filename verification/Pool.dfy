/** Page allocation (freelist.go): a high-water mark and a stack of released pages. */
module Pool {
  import opened Trees

  datatype Pool = Pool(maxPage: PageNum, released: seq<PageNum>)

  /** getNextPage: the last released page if there is one, else a new page. */
  function NextPage(p: Pool): (PageNum, Pool) {
    var n := |p.released|;
    if n > 0 then (p.released[n - 1], p.(released := p.released[..n - 1]))
    else (p.maxPage + 1, p.(maxPage := p.maxPage + 1))
  }

  function Release(p: Pool, page: PageNum): Pool {
    p.(released := p.released + [page])
  }

  function ReleaseAll(p: Pool, pages: seq<PageNum>): Pool {
    p.(released := p.released + pages)
  }

  /** Released pages are pages other than 0 handed out before, none of them twice. */
  ghost predicate Sound(p: Pool) {
    && (forall i :: 0 <= i < |p.released| ==> 0 < p.released[i] <= p.maxPage)
    && (forall i, j :: 0 <= i < j < |p.released| ==> p.released[i] != p.released[j])
  }

  /** Page x has been handed out and not been released. */
  predicate InUse(p: Pool, x: PageNum) {
    x <= p.maxPage && x !in p.released
  }

  /** 1 for the pages in use in q but not in p. */
  function Taken(p: Pool, q: Pool, x: PageNum): nat {
    if InUse(q, x) && !InUse(p, x) then 1 else 0
  }

  /** q comes from p by handing pages out. */
  ghost predicate Extends(p: Pool, q: Pool) {
    && Sound(q)
    && (forall x :: InUse(p, x) ==> InUse(q, x))
    && q.maxPage >= p.maxPage
  }

  lemma NextPageFresh(p: Pool)
    requires Sound(p)
    ensures var (n, q) := NextPage(p);
      && Extends(p, q) && n > 0 && !InUse(p, n)
      && forall x :: InUse(q, x) <==> InUse(p, x) || x == n
  {
    var (n, q) := NextPage(p);
    var k := |p.released|;
    if k > 0 {
      assert p.released == q.released + [n];
      forall i | 0 <= i < k - 1 ensures q.released[i] != n { assert p.released[i] != p.released[k - 1]; }
    }
  }

  /** The next n pages. */
  function Handed(p: Pool, n: nat): seq<PageNum>
    decreases n
  {
    if n == 0 then [] else var (x, q) := NextPage(p); [x] + Handed(q, n - 1)
  }

  /** The allocator after handing out n pages. */
  function AfterHanding(p: Pool, n: nat): Pool
    decreases n
  {
    if n == 0 then p else AfterHanding(NextPage(p).1, n - 1)
  }

  /** Released pages are handed out again, the last one first, before the file grows; it grows by the pages they do not make up for. */
  lemma {:induction false} HandedExact(p: Pool, n: nat)
    ensures var h, k, q := Handed(p, n), |p.released|, AfterHanding(p, n);
      && |h| == n
      && (forall i :: 0 <= i < n ==> h[i] == if i < k then p.released[k - 1 - i] else p.maxPage + (i - k) + 1)
      && q.maxPage == p.maxPage + (if n > k then n - k else 0)
      && q.released == p.released[..if n > k then 0 else k - n]
    decreases n
  {
    if n > 0 {
      var (x, q) := NextPage(p);
      HandedExact(q, n - 1);
      var h := Handed(q, n - 1);
      forall i | 0 < i < n ensures Handed(p, n)[i] == h[i - 1] { }
    }
  }

  /** A page just released is the next one handed out, and then all is as before. */
  lemma ReleasedIsNext(p: Pool, x: PageNum)
    ensures NextPage(Release(p, x)) == (x, p)
  {
    var q := Release(p, x);
    assert q.released[..|p.released|] == p.released;
  }

  /** Pages released together are released one by one, in their order. */
  lemma ReleaseAllExact(p: Pool, pages: seq<PageNum>, x: PageNum)
    ensures ReleaseAll(p, []) == p && ReleaseAll(p, pages + [x]) == Release(ReleaseAll(p, pages), x)
    ensures ReleaseAll(p, pages).maxPage == p.maxPage
  {
    assert p.released + [] == p.released;
    assert p.released + (pages + [x]) == p.released + pages + [x];
  }

  /** They are distinct pages, none of them in use before, and neither is page 0 one of them. */
  lemma {:induction false} HandedFresh(p: Pool, n: nat)
    requires Sound(p)
    ensures var h := Handed(p, n);
      && |h| == n
      && (forall i :: 0 <= i < n ==> h[i] > 0 && !InUse(p, h[i]))
      && (forall i, j :: 0 <= i < j < n ==> h[i] != h[j])
    decreases n
  {
    if n > 0 {
      var (x, q) := NextPage(p);
      NextPageFresh(p);
      HandedFresh(q, n - 1);
    }
  }
}
