/** What the tree operations write: after storing the changed nodes, the store holds the changed tree. */
module StoreOps {
  import opened Items
  import opened Trees
  import opened TreeOps

  /** The stores differ at most on the given pages. */
  ghost predicate DifferOn(a: Store, b: Store, pages: set<PageNum>) {
    forall p :: p !in pages ==> (p in a <==> p in b) && (p in a ==> a[p] == b[p])
  }

  /** Every child of a child is apart from the node and from all its children. */
  lemma GrandKidApart(t: Tree, i: nat, g: nat)
    requires Distinct(t) && i < |t.kids| && g < |t.kids[i].kids|
    ensures Uses(t.kids[i].kids[g], t.page) == 0
    ensures forall j :: 0 <= j < |t.kids| ==> Uses(t.kids[i].kids[g], t.kids[j].page) == 0
  {
    forall j | 0 <= j < |t.kids| ensures Uses(t.kids[i].kids[g], t.kids[j].page) == 0 {
      var p := t.kids[j].page;
      KidUses(t.kids[i], g, p);
      KidUses(t, i, p);
      if i != j { UsesOfTwo(t.kids, i, j, p); }
    }
    KidUses(t.kids[i], g, t.page);
    KidUses(t, i, t.page);
  }

  lemma KidsApart(t: Tree, i: nat, j: nat)
    requires Distinct(t) && i < |t.kids| && j < |t.kids|
    ensures t.kids[i].page != t.page
    ensures i != j ==> t.kids[i].page != t.kids[j].page && Uses(t.kids[i], t.kids[j].page) == 0
    ensures Uses(t, t.page) > 0 && Uses(t, t.kids[i].page) > 0
    ensures Uses(t.kids[i], t.page) == 0
  {
    KidUses(t, i, t.page);
    KidUses(t, i, t.kids[i].page);
    if i != j {
      UsesOfTwo(t.kids, i, j, t.kids[j].page);
      assert Uses(t, t.kids[j].page) <= 1 && Uses(t.kids[j], t.kids[j].page) >= 1;
    }
  }

  /** A subtree away from the changed pages is still held. */
  lemma HoldsApart(a: Store, b: Store, s: Tree, pages: set<PageNum>)
    requires Holds(a, s) && DifferOn(a, b, pages) && forall p :: p in pages ==> Uses(s, p) == 0
    ensures Holds(b, s)
  {
    HoldsFrame(a, b, s);
  }

  /** A node whose children are the children of child i or j is held once it is stored, whatever else changed. */
  lemma HoldsRegrouped(a: Store, b: Store, t: Tree, i: nat, j: nat, c: Tree, pages: set<PageNum>)
    requires Holds(a, t) && Distinct(t) && i < |t.kids| && j < |t.kids| && DifferOn(a, b, pages)
    requires forall p :: p in pages ==> p == t.page || p == t.kids[i].page || p == t.kids[j].page || Uses(t, p) == 0
    requires forall g :: 0 <= g < |c.kids| ==> c.kids[g] in t.kids[i].kids || c.kids[g] in t.kids[j].kids
    requires c.page in b && b[c.page] == Rec(c)
    ensures Holds(b, c)
  {
    forall g | 0 <= g < |c.kids| ensures Holds(b, c.kids[g]) {
      var k := if c.kids[g] in t.kids[i].kids then i else j;
      var n :| 0 <= n < |t.kids[k].kids| && t.kids[k].kids[n] == c.kids[g];
      GrandKidApart(t, k, n);
      forall p | p in pages ensures Uses(c.kids[g], p) == 0 { KidUses(t.kids[k], n, p); KidUses(t, k, p); }
      HoldsApart(a, b, c.kids[g], pages);
    }
  }

  /** The children of t other than i and j are still held. */
  lemma HoldsSiblings(a: Store, b: Store, t: Tree, i: nat, j: nat, pages: set<PageNum>)
    requires Holds(a, t) && Distinct(t) && i < |t.kids| && j < |t.kids| && DifferOn(a, b, pages)
    requires forall p :: p in pages ==> p == t.page || p == t.kids[i].page || p == t.kids[j].page || Uses(t, p) == 0
    ensures forall k :: 0 <= k < |t.kids| && k != i && k != j ==> Holds(b, t.kids[k])
  {
    forall k | 0 <= k < |t.kids| && k != i && k != j ensures Holds(b, t.kids[k]) {
      KidsApart(t, k, i);
      KidsApart(t, k, j);
      forall p | p in pages ensures Uses(t.kids[k], p) == 0 { KidUses(t, k, p); }
      HoldsApart(a, b, t.kids[k], pages);
    }
  }

  lemma HoldsTwoForTwo(a: Store, b: Store, t: Tree, j: nat, l: Tree, x: Item, r: Tree, pages: set<PageNum>)
    requires Holds(a, t) && Distinct(t) && j < |t.items| && j + 1 < |t.kids| && DifferOn(a, b, pages)
    requires pages == {t.page, t.kids[j].page, t.kids[j + 1].page}
    requires l.page == t.kids[j].page && r.page == t.kids[j + 1].page
    requires forall g :: 0 <= g < |l.kids| ==> l.kids[g] in t.kids[j].kids || l.kids[g] in t.kids[j + 1].kids
    requires forall g :: 0 <= g < |r.kids| ==> r.kids[g] in t.kids[j].kids || r.kids[g] in t.kids[j + 1].kids
    requires t.page in b && b[t.page] == Rec(TwoForTwo(t, j, l, x, r))
    requires l.page in b && b[l.page] == Rec(l) && r.page in b && b[r.page] == Rec(r)
    ensures Holds(b, TwoForTwo(t, j, l, x, r))
  {
    HoldsSiblings(a, b, t, j, j + 1, pages);
    HoldsRegrouped(a, b, t, j, j + 1, l, pages);
    HoldsRegrouped(a, b, t, j, j + 1, r, pages);
  }

  lemma HoldsOneForTwo(a: Store, b: Store, t: Tree, j: nat, c: Tree, pages: set<PageNum>)
    requires Holds(a, t) && Distinct(t) && j < |t.items| && j + 1 < |t.kids| && DifferOn(a, b, pages)
    requires pages == {t.page, t.kids[j].page}
    requires c.page == t.kids[j].page
    requires forall g :: 0 <= g < |c.kids| ==> c.kids[g] in t.kids[j].kids || c.kids[g] in t.kids[j + 1].kids
    requires t.page in b && b[t.page] == Rec(OneForTwo(t, j, c)) && c.page in b && b[c.page] == Rec(c)
    ensures Holds(b, OneForTwo(t, j, c))
  {
    HoldsSiblings(a, b, t, j, j + 1, pages);
    HoldsRegrouped(a, b, t, j, j + 1, c, pages);
    var r := OneForTwo(t, j, c);
    forall k | 0 <= k < |r.kids| ensures Holds(b, r.kids[k]) {
      assert r.kids[k] == if k < j then t.kids[k] else if k == j then c else t.kids[k + 1];
    }
  }

  lemma HoldsTwoForOne(a: Store, b: Store, t: Tree, j: nat, l: Tree, x: Item, r: Tree, pages: set<PageNum>)
    requires (forall k :: 0 <= k < |t.kids| ==> Holds(a, t.kids[k])) && Distinct(t)
    requires j <= |t.items| && j < |t.kids| && DifferOn(a, b, pages)
    requires pages == {t.page, t.kids[j].page, r.page} && Uses(t, r.page) == 0
    requires l.page == t.kids[j].page
    requires forall g :: 0 <= g < |l.kids| ==> l.kids[g] in t.kids[j].kids
    requires forall g :: 0 <= g < |r.kids| ==> r.kids[g] in t.kids[j].kids
    requires t.page in b && b[t.page] == Rec(TwoForOne(t, j, l, x, r))
    requires l.page in b && b[l.page] == Rec(l) && r.page in b && b[r.page] == Rec(r)
    ensures Holds(b, TwoForOne(t, j, l, x, r))
  {
    var a' := a[t.page := Rec(t)];
    forall k | 0 <= k < |t.kids| ensures Holds(a', t.kids[k]) { KidsApart(t, k, k); HoldsApart(a, a', t.kids[k], {t.page}); }
    HoldsSiblings(a', b, t, j, j, pages);
    HoldsRegrouped(a', b, t, j, j, l, pages);
    HoldsRegrouped(a', b, t, j, j, r, pages);
    var n := TwoForOne(t, j, l, x, r);
    forall k | 0 <= k < |n.kids| ensures Holds(b, n.kids[k]) {
      assert n.kids[k] == if k < j then t.kids[k] else if k == j then l else if k == j + 1 then r else t.kids[k - 1];
    }
  }

  lemma HoldsSplit(a: Store, b: Store, t: Tree, h: nat, i: nat, s: nat, page: PageNum)
    requires h > 0 && Shape(t, h) && i < |t.kids| && Shape(t.kids[i], h - 1) && s < |t.kids[i].items|
    requires (forall k :: 0 <= k < |t.kids| ==> Holds(a, t.kids[k])) && Distinct(t) && Uses(t, page) == 0
    requires DifferOn(a, b, {t.page, t.kids[i].page, page})
    requires var n := Split(t, i, s, page);
      && t.page in b && b[t.page] == Rec(n)
      && t.kids[i].page in b && b[t.kids[i].page] == Rec(LeftHalf(t.kids[i], s))
      && page in b && b[page] == Rec(RightHalf(t.kids[i], s, page))
    ensures Holds(b, Split(t, i, s, page))
  {
    var c := t.kids[i];
    HoldsTwoForOne(a, b, t, i, LeftHalf(c, s), c.items[s], RightHalf(c, s, page), {t.page, c.page, page});
  }

  lemma HoldsRotateRight(a: Store, b: Store, t: Tree, i: nat)
    requires Holds(a, t) && Distinct(t) && 0 < i < |t.kids| && i <= |t.items| && t.kids[i - 1].items != []
    requires DifferOn(a, b, {t.page, t.kids[i - 1].page, t.kids[i].page})
    requires var n := RotateRight(t, i);
      && t.page in b && b[t.page] == Rec(n)
      && t.kids[i - 1].page in b && b[t.kids[i - 1].page] == Rec(n.kids[i - 1])
      && t.kids[i].page in b && b[t.kids[i].page] == Rec(n.kids[i])
    ensures Holds(b, RotateRight(t, i))
  {
    var l, r := t.kids[i - 1], t.kids[i];
    HoldsTwoForTwo(a, b, t, i - 1, WithoutLast(l), l.items[|l.items| - 1],
      Tree(r.page, [t.items[i - 1]] + r.items, LastKid(l) + r.kids), {t.page, l.page, r.page});
  }

  lemma HoldsRotateLeft(a: Store, b: Store, t: Tree, i: nat)
    requires Holds(a, t) && Distinct(t) && i + 1 < |t.kids| && i < |t.items| && t.kids[i + 1].items != []
    requires DifferOn(a, b, {t.page, t.kids[i].page, t.kids[i + 1].page})
    requires var n := RotateLeft(t, i);
      && t.page in b && b[t.page] == Rec(n)
      && t.kids[i].page in b && b[t.kids[i].page] == Rec(n.kids[i])
      && t.kids[i + 1].page in b && b[t.kids[i + 1].page] == Rec(n.kids[i + 1])
    ensures Holds(b, RotateLeft(t, i))
  {
    var l, r := t.kids[i], t.kids[i + 1];
    HoldsTwoForTwo(a, b, t, i, Tree(l.page, l.items + [t.items[i]], l.kids + FirstKid(r)), r.items[0], WithoutFirst(r),
      {t.page, l.page, r.page});
  }

  lemma HoldsMerge(a: Store, b: Store, t: Tree, i: nat)
    requires Holds(a, t) && Distinct(t) && 0 < i < |t.kids| && i <= |t.items|
    requires DifferOn(a, b, {t.page, t.kids[i - 1].page})
    requires var n := Merge(t, i);
      && t.page in b && b[t.page] == Rec(n)
      && t.kids[i - 1].page in b && b[t.kids[i - 1].page] == Rec(n.kids[i - 1])
    ensures Holds(b, Merge(t, i))
  {
    var l, r := t.kids[i - 1], t.kids[i];
    HoldsOneForTwo(a, b, t, i - 1, Tree(l.page, l.items + [t.items[i - 1]] + r.items, if l.kids == [] then l.kids else l.kids + r.kids),
      {t.page, l.page});
  }

  // ---------------------------------------------------------------- the stores as written

  /** The store after writing trees' root records. */
  function Put1(a: Store, t: Tree): Store {
    a[t.page := Rec(t)]
  }

  lemma SplitStored(a: Store, t: Tree, h: nat, i: nat, s: nat, page: PageNum)
    requires h > 0 && Shape(t, h) && i < |t.kids| && Shape(t.kids[i], h - 1) && s < |t.kids[i].items|
    requires (forall k :: 0 <= k < |t.kids| ==> Holds(a, t.kids[k])) && Distinct(t) && Uses(t, page) == 0
    ensures var c, n := t.kids[i], Split(t, i, s, page);
      Holds(Put1(Put1(Put1(a, RightHalf(c, s, page)), n), LeftHalf(c, s)), n)
  {
    KidsApart(t, i, i);
    var c, n := t.kids[i], Split(t, i, s, page);
    HoldsSplit(a, Put1(Put1(Put1(a, RightHalf(c, s, page)), n), LeftHalf(c, s)), t, h, i, s, page);
  }

  lemma RotateRightStored(a: Store, t: Tree, i: nat)
    requires Holds(a, t) && Distinct(t) && 0 < i < |t.kids| && i <= |t.items| && t.kids[i - 1].items != []
    ensures var n := RotateRight(t, i); Holds(Put1(Put1(Put1(a, n.kids[i - 1]), n), n.kids[i]), n)
  {
    KidsApart(t, i - 1, i);
    KidsApart(t, i, i - 1);
    var n := RotateRight(t, i);
    HoldsRotateRight(a, Put1(Put1(Put1(a, n.kids[i - 1]), n), n.kids[i]), t, i);
  }

  lemma RotateLeftStored(a: Store, t: Tree, i: nat)
    requires Holds(a, t) && Distinct(t) && i + 1 < |t.kids| && i < |t.items| && t.kids[i + 1].items != []
    ensures var n := RotateLeft(t, i); Holds(Put1(Put1(Put1(a, n.kids[i]), n), n.kids[i + 1]), n)
  {
    KidsApart(t, i, i + 1);
    KidsApart(t, i + 1, i);
    var n := RotateLeft(t, i);
    HoldsRotateLeft(a, Put1(Put1(Put1(a, n.kids[i]), n), n.kids[i + 1]), t, i);
  }

  lemma MergeStored(a: Store, t: Tree, i: nat)
    requires Holds(a, t) && Distinct(t) && 0 < i < |t.kids| && i <= |t.items|
    ensures var n := Merge(t, i); Holds(Put1(Put1(a, n.kids[i - 1]), n), n)
  {
    KidsApart(t, i - 1, i);
    var n := Merge(t, i);
    HoldsMerge(a, Put1(Put1(a, n.kids[i - 1]), n), t, i);
  }
}
