/** Writing a list of pages into the database file (dal.go, wal.go), and what writing it again does. */
module Replay {
  import opened Keys
  import opened Trees
  import opened WalCodec

  /** The database file by page number. */
  type File = map<PageNum, seq<Byte>>

  /** writePages. */
  function Apply(file: File, pages: seq<Page>): File {
    if pages == [] then file
    else Apply(file, pages[..|pages| - 1])[pages[|pages| - 1].num := pages[|pages| - 1].data]
  }

  /** No two pages of a commit have the same number. */
  ghost predicate Apart(pages: seq<Page>) {
    forall i, j :: 0 <= i < j < |pages| ==> pages[i].num != pages[j].num
  }

  function Numbers(pages: seq<Page>): set<PageNum> {
    set p | p in pages :: p.num
  }

  /** The files differ at most on pages that are going to be written. */
  ghost predicate SameBut(a: File, b: File, pages: seq<Page>) {
    forall p :: p !in Numbers(pages) ==> (p in a <==> p in b) && (p in a ==> a[p] == b[p])
  }

  lemma {:induction false} ApplyKeeps(file: File, pages: seq<Page>)
    ensures SameBut(file, Apply(file, pages), pages)
    ensures Apply(file, pages).Keys == file.Keys + Numbers(pages)
  {
    if pages != [] {
      var n := |pages| - 1;
      ApplyKeeps(file, pages[..n]);
      NumbersStep(pages);
    }
  }

  lemma NumbersStep(pages: seq<Page>)
    requires pages != []
    ensures Numbers(pages) == Numbers(pages[..|pages| - 1]) + {pages[|pages| - 1].num}
  {
    var n := |pages| - 1;
    assert pages == pages[..n] + [pages[n]];
  }

  /** One more page, of another number. */
  lemma ApartAppend(pages: seq<Page>, x: Page)
    requires Apart(pages) && x.num !in Numbers(pages)
    ensures Apart(pages + [x]) && Numbers(pages + [x]) == Numbers(pages) + {x.num}
  {
    forall i | 0 <= i < |pages| ensures pages[i].num != x.num { assert pages[i] in pages; }
  }

  /** Every page of a list with distinct numbers ends up in the file. */
  lemma {:induction false} ApplyAt(file: File, pages: seq<Page>, i: nat)
    requires Apart(pages) && i < |pages|
    ensures pages[i].num in Apply(file, pages) && Apply(file, pages)[pages[i].num] == pages[i].data
  {
    var n := |pages| - 1;
    if i < n { ApplyAt(file, pages[..n], i); }
  }

  /** Whatever the file held on those pages before, complete, torn or missing, the result is the same. */
  lemma {:induction false} ApplyCompletes(a: File, b: File, pages: seq<Page>)
    requires SameBut(a, b, pages)
    ensures Apply(a, pages) == Apply(b, pages)
    decreases |pages|
  {
    if pages == [] {
      assert a == b;
    } else {
      var n := |pages| - 1;
      var x := pages[n];
      NumbersStep(pages);
      var a', b' := a[x.num := x.data], b[x.num := x.data];
      ApplyCompletes(a', b', pages[..n]);
      ApplyUnder(a, pages[..n], x);
      ApplyUnder(b, pages[..n], x);
    }
  }

  /** A page written last may as well have been there first. */
  lemma {:induction false} ApplyUnder(file: File, pages: seq<Page>, x: Page)
    ensures Apply(file, pages)[x.num := x.data] == Apply(file[x.num := x.data], pages)[x.num := x.data]
  {
    if pages != [] {
      var n := |pages| - 1;
      var y, a, b := pages[n], Apply(file, pages[..n]), Apply(file[x.num := x.data], pages[..n]);
      ApplyUnder(file, pages[..n], x);
      assert a[x.num := x.data] == b[x.num := x.data];
      assert forall p :: p != x.num ==> (p in a <==> p in b) && (p in a ==> a[p] == b[p]) by {
        assert forall p :: p in a && p != x.num ==> a[x.num := x.data][p] == a[p];
        assert forall p :: p in b && p != x.num ==> b[x.num := x.data][p] == b[p];
      }
      assert a[y.num := y.data][x.num := x.data] == b[y.num := y.data][x.num := x.data];
    }
  }

  /** Replaying is idempotent, and completes what was interrupted. */
  lemma ReplayIdempotent(file: File, pages: seq<Page>)
    ensures Apply(Apply(file, pages), pages) == Apply(file, pages)
  {
    ApplyKeeps(file, pages);
    ApplyCompletes(Apply(file, pages), file, pages);
  }

  /** The order of the pages does not matter if their numbers are distinct. */
  lemma OrderIrrelevant(file: File, a: seq<Page>, b: seq<Page>)
    requires Apart(a) && Apart(b) && forall p :: p in a <==> p in b
    ensures Apply(file, a) == Apply(file, b)
  {
    ApplyKeeps(file, a);
    ApplyKeeps(file, b);
    assert Numbers(a) == Numbers(b);
    forall p | p in Apply(file, a) ensures Apply(file, a)[p] == Apply(file, b)[p] {
      if p in Numbers(a) {
        var x :| x in a && x.num == p;
        var i :| 0 <= i < |a| && a[i] == x;
        var j :| 0 <= j < |b| && b[j] == x;
        ApplyAt(file, a, i);
        ApplyAt(file, b, j);
      }
    }
  }

  /** Were a number to appear twice, it would matter. */
  lemma OrderMattersOtherwise(file: File, x: Page, y: Page)
    requires x.num == y.num && x.data != y.data
    ensures Apply(file, [x, y]) != Apply(file, [y, x])
  {
    assert [x, y][..1] == [x] && [y, x][..1] == [y];
    assert Apply(file, [x, y])[x.num] == y.data;
    assert Apply(file, [y, x])[x.num] == x.data;
  }
}
