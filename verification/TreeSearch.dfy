/** Searching: which path a key leads down, and what lies on either side of it. */
module TreeSearch {
  import opened Keys
  import opened Seqs
  import opened Items
  import opened Trees

  /** The child indices findKey collects below the root. */
  function SearchPath(t: Tree, h: nat, k: Key): (path: Path)
    requires Shape(t, h)
    ensures ValidPath(t, path)
    ensures Has(Sub(t, path).items, k) || Sub(t, path).kids == []
    decreases h
  {
    var i := Pos(t.items, k);
    if HasAt(t.items, k, i) || t.kids == [] then []
    else [i] + SearchPath(t.kids[i], h - 1, k)
  }

  /** One step of the search: it stops at t, or goes on in a child. */
  lemma SearchStep(t: Tree, h: nat, k: Key)
    requires Shape(t, h)
    ensures var i, path := Pos(t.items, k), SearchPath(t, h, k);
      HasAt(t.items, k, i) || t.kids == [] ==> path == [] && Sub(t, path) == t
    ensures var i, path := Pos(t.items, k), SearchPath(t, h, k);
      !HasAt(t.items, k, i) && t.kids != [] ==>
      && Shape(t.kids[i], h - 1) && path == [i] + SearchPath(t.kids[i], h - 1, k)
      && Sub(t, path) == Sub(t.kids[i], SearchPath(t.kids[i], h - 1, k))
  {
  }

  lemma SortedThree(a: seq<Item>, b: seq<Item>, c: seq<Item>)
    requires Sorted(a + b + c)
    ensures Sorted(a) && Sorted(b) && Sorted(c)
  {
    SortedParts(a + b, c);
    SortedParts(a, b);
  }

  lemma SortedEnd(s: seq<Item>, x: Item)
    requires Sorted(s + [x])
    ensures Sorted(s) && AllBelow(s, x.key)
  {
    SortedParts(s, [x]);
    assert [x][0] == x;
  }

  lemma SortedStart(x: Item, s: seq<Item>)
    requires Sorted([x] + s)
    ensures Sorted(s) && AllAbove(x.key, s)
  {
    SortedParts([x], s);
    assert [x][0] == x;
  }

  /** Everything before the child a key leads to is below it, everything after is above it. */
  lemma OnEitherSide(t: Tree, h: nat, k: Key)
    requires h > 0 && Shape(t, h) && Sorted(InOrder(t)) && !Has(t.items, k)
    ensures var i := Pos(t.items, k);
      AllBelow(Before(t.items, t.kids, i), k) && AllAbove(k, After(t.items, t.kids, i)) && Sorted(InOrder(t.kids[i]))
  {
    var i := Pos(t.items, k);
    WeaveAt(t.items, t.kids, i);
    SortedThree(Before(t.items, t.kids, i), InOrder(t.kids[i]), After(t.items, t.kids, i));
    if i > 0 {
      ChainBelow(Weave(t.items[..i - 1], t.kids[..i]), t.items[i - 1], k);
    }
    if i < |t.items| {
      LessTotal(t.items[i].key, k);
      ChainAbove(k, t.items[i], Weave(t.items[i + 1..], t.kids[i + 1..]));
    }
  }

  lemma ChainBelow(s: seq<Item>, x: Item, k: Key)
    requires Sorted(s + [x]) && Less(x.key, k)
    ensures AllBelow(s + [x], k)
  {
    SortedEnd(s, x);
    forall i | 0 <= i < |s| ensures Less(s[i].key, k) { LessTransitive(s[i].key, x.key, k); }
  }

  lemma ChainAbove(k: Key, x: Item, s: seq<Item>)
    requires Sorted([x] + s) && Less(k, x.key)
    ensures AllAbove(k, [x] + s)
  {
    SortedStart(x, s);
    forall i | 0 <= i < |s| ensures Less(k, s[i].key) { LessTransitive(k, x.key, s[i].key); }
  }

  /** The path splits the tree's items into those below the key, the subtree at its end, and those above. */
  lemma {:induction false} SearchSplits(t: Tree, h: nat, k: Key)
    requires Shape(t, h) && Sorted(InOrder(t))
    ensures var path := SearchPath(t, h, k);
      AllBelow(Left(t, path), k) && AllAbove(k, Right(t, path)) && Sorted(InOrder(Sub(t, path)))
    decreases h
  {
    var i := Pos(t.items, k);
    if !HasAt(t.items, k, i) && t.kids != [] {
      OnEitherSide(t, h, k);
      SearchSplits(t.kids[i], h - 1, k);
      assert SearchPath(t, h, k)[1..] == SearchPath(t.kids[i], h - 1, k);
    }
  }

  /** An item of an internal node, with what lies before and after it. */
  lemma ItemInOrder(t: Tree, h: nat, i: nat)
    requires Shape(t, h) && h > 0 && i < |t.items|
    ensures InOrder(t) == Weave(t.items[..i], t.kids[..i + 1]) + [t.items[i]] + Weave(t.items[i + 1..], t.kids[i + 1..])
  {
    CutAt(t.items, i);
    CutAt(t.kids, i);
    WeaveJoin(t.items[..i], t.kids[..i + 1], t.items[i], t.items[i + 1..], t.kids[i + 1..]);
  }

  /** The items of a node, and of its children, are among the items of the tree. */
  lemma ItemsAmong(t: Tree, h: nat)
    requires Shape(t, h)
    ensures forall x :: x in t.items ==> x in InOrder(t)
    ensures forall i, x :: 0 <= i < |t.kids| && x in InOrder(t.kids[i]) ==> x in InOrder(t)
  {
    if h > 0 {
      forall x | x in t.items ensures x in InOrder(t) {
        var i :| 0 <= i < |t.items| && t.items[i] == x;
        ItemInOrder(t, h, i);
      }
      forall i, x | 0 <= i < |t.kids| && x in InOrder(t.kids[i]) ensures x in InOrder(t) {
        WeaveAt(t.items, t.kids, i);
      }
    }
  }

  /** A key found in an internal node: the sequence around it is below and above. */
  lemma FoundSplits(t: Tree, h: nat, i: nat)
    requires Shape(t, h) && h > 0 && Sorted(InOrder(t)) && i < |t.items|
    ensures AllBelow(Weave(t.items[..i], t.kids[..i + 1]), t.items[i].key)
    ensures AllAbove(t.items[i].key, Weave(t.items[i + 1..], t.kids[i + 1..]))
  {
    ItemInOrder(t, h, i);
    var a, c := Weave(t.items[..i], t.kids[..i + 1]), Weave(t.items[i + 1..], t.kids[i + 1..]);
    SortedParts(a + [t.items[i]], c);
    SortedEnd(a, t.items[i]);
    assert (a + [t.items[i]])[|a|] == t.items[i];
  }

  /** The items of a node of a sorted tree are sorted. */
  lemma NodeSorted(t: Tree, h: nat)
    requires Shape(t, h) && Sorted(InOrder(t))
    ensures Sorted(t.items)
  {
    if h > 0 {
      forall i, j | 0 <= i < j < |t.items| ensures Less(t.items[i].key, t.items[j].key) {
        FoundSplits(t, h, j);
        var l := Tree(t.page, t.items[..j], t.kids[..j + 1]);
        ItemsAmong(l, h);
        assert l.items[i] in InOrder(l);
      }
    }
  }

  /** An item of a node is where its key is in the in-order sequence. */
  lemma FoundInNode(t: Tree, h: nat, k: Key)
    requires Shape(t, h) && Sorted(InOrder(t)) && Has(t.items, k)
    ensures Has(InOrder(t), k) && InOrder(t)[Pos(InOrder(t), k)] == t.items[Pos(t.items, k)]
  {
    if h > 0 {
      var i := Pos(t.items, k);
      FoundSplits(t, h, i);
      ItemInOrder(t, h, i);
      LessIrreflexive(k);
      assert Pos([t.items[i]], k) == 0;
      ItemInContext(Weave(t.items[..i], t.kids[..i + 1]), [t.items[i]], Weave(t.items[i + 1..], t.kids[i + 1..]), k);
    }
  }

  /** A search of the tree answers like a search of its in-order sequence. */
  lemma SearchFinds(t: Tree, h: nat, k: Key)
    requires Shape(t, h) && Sorted(InOrder(t))
    ensures var n := Sub(t, SearchPath(t, h, k));
      && (Has(n.items, k) <==> Has(InOrder(t), k))
      && (Has(n.items, k) ==> n.items[Pos(n.items, k)] == InOrder(t)[Pos(InOrder(t), k)])
  {
    var path := SearchPath(t, h, k);
    var n := Sub(t, path);
    SearchSplits(t, h, k);
    SubInOrder(t, h, path);
    PathLength(t, h, path);
    PosInContext(Left(t, path), InOrder(n), Right(t, path), k);
    if Has(n.items, k) {
      FoundInNode(n, h - |path|, k);
      ItemInContext(Left(t, path), InOrder(n), Right(t, path), k);
    }
  }
}
