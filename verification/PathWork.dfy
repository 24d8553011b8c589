/**
 * Working up a path from the nodes of its breadcrumbs: one turn of the loops of
 * Put and of Remove, seen from the whole tree, and the removal that starts the
 * latter (collection.go, node.go).
 */
module PathWork {
  import opened Seqs
  import opened Maybe
  import opened Fill
  import opened Trees
  import opened TreeOps
  import opened Pool
  import opened TreePut
  import opened TreeRemove
  import opened RemoveOutcome
  import opened StoreOps
  import opened Engine
  import opened NodeOps
  import opened Walks

  // ---------------------------------------------------------------- paths and their nodes

  /** A node on the path is apart from the subtree further down. */
  lemma {:induction false} AncestorApart(t: Tree, path: Path, j: nat, k: nat)
    requires ValidPath(t, path) && Distinct(t) && j < k <= |path|
    ensures ValidPath(t, path[..j]) && ValidPath(t, path[..k])
    ensures Uses(Sub(t, path[..k]), Sub(t, path[..j]).page) == 0
    ensures Uses(t, Sub(t, path[..j]).page) == 1
    decreases k - j
  {
    PathPrefix(t, path, j);
    PathPrefix(t, path, k);
    SubStep(t, path, k - 1);
    var p, a := Sub(t, path[..j]).page, Sub(t, path[..k - 1]);
    PlugUses(t, path[..j], t, p);
    PlugUses(t, path[..k - 1], t, p);
    KidUses(a, path[k - 1], p);
    if j < k - 1 { AncestorApart(t, path, j, k - 1); }
  }

  /** Replacing a subtree by one on the same page does not show in the nodes above it. */
  lemma {:induction false} PlugRec(t: Tree, path: Path, s: Tree, j: nat)
    requires ValidPath(t, path) && j < |path| && s.page == Sub(t, path).page
    ensures ValidPath(t, path[..j]) && ValidPath(Plug(t, path, s), path[..j])
    ensures Rec(Sub(Plug(t, path, s), path[..j])) == Rec(Sub(t, path[..j]))
    ensures Sub(Plug(t, path, s), path[..j]).page == Sub(t, path[..j]).page
    decreases j
  {
    PathPrefix(t, path, j);
    var i := path[0];
    if j == 0 {
      PlugPage(t.kids[i], path[1..], s);
      assert KidPages(Plug(t, path, s).kids) == KidPages(t.kids);
    } else {
      PlugRec(t.kids[i], path[1..], s, j - 1);
      TailPrefix(path, j);
    }
  }

  lemma PrefixApart(t: Tree, path: Path, j: nat, k: nat)
    requires j < k <= |path| && ValidPath(t, path[..k]) && Distinct(t)
    ensures ValidPath(t, path[..j])
    ensures Uses(Sub(t, path[..k]), Sub(t, path[..j]).page) == 0
    ensures Uses(t, Sub(t, path[..j]).page) == 1
  {
    AncestorApart(t, path[..k], j, k);
    Prefix(path, j, k);
    Ends(path[..k]);
  }

  // ---------------------------------------------------------------- split

  /** What split makes of the records is what Split makes of the trees. */
  lemma SplitRecs(t: Tree, i: nat, s: nat, page: PageNum)
    requires Regular(t) && i < |t.kids| && s < |t.kids[i].items| && Regular(t.kids[i])
    ensures var c, r := t.kids[i], Split(t, i, s, page);
      && LeftRec(Rec(c), s) == Rec(LeftHalf(c, s))
      && RightRec(Rec(c), s) == Rec(RightHalf(c, s, page))
      && ParentRec(Rec(t), i, c.items[s], page) == Rec(r)
  {
    var c, r := t.kids[i], Split(t, i, s, page);
    if c.kids != [] {
      assert KidPages(c.kids)[..s + 1] == KidPages(c.kids[..s + 1]);
      assert KidPages(c.kids)[s + 1..] == KidPages(c.kids[s + 1..]);
    }
    assert KidPages(t.kids)[..i + 1] + [page] + KidPages(t.kids)[i + 1..] == KidPages(r.kids);
  }

  /** The view after the writes of split, and the nodes filed by then. */
  lemma SplitLocal(t: Tree, h: nat, i: nat, s: nat, page: PageNum, was: Store, filed: map<PageNum, Node>, x: Node, y: Node, z: Node)
    requires h > 0 && Shape(t, h) && Distinct(t) && i < |t.kids| && Shape(t.kids[i], h - 1) && s < |t.kids[i].items| && Uses(t, page) == 0
    requires forall k :: 0 <= k < |t.kids| ==> Holds(was, t.kids[k])
    requires forall p :: p in filed ==> filed[p].pageNum == p
    requires x.pageNum == page && y.pageNum == t.page && z.pageNum == t.kids[i].page
    ensures var c, r := t.kids[i], Split(t, i, s, page);
      var now := was[page := RightRec(Rec(c), s)][t.page := ParentRec(Rec(t), i, c.items[s], page)][c.page := LeftRec(Rec(c), s)];
      var refiled := filed[page := x][t.page := y][c.page := z];
      && Rec(r) == ParentRec(Rec(t), i, c.items[s], page)
      && Holds(now, r) && Local(r, was, now, filed, refiled) && refiled[t.page] == y
  {
    var c, r := t.kids[i], Split(t, i, s, page);
    KidsApart(t, i, i);
    SplitRecs(t, i, s, page);
    SplitStored(was, t, h, i, s, page);
    SplitPreserves(t, h, i, s, page);
    LocalThree(r, was, filed, RightHalf(c, s, page), r, LeftHalf(c, s), x, y, z);
  }

  /** split, with the parent n not necessarily written yet: what the view and the nodes hold afterwards. */
  method SplitAt(tx: Tx, n: Node, c: Node, i: nat, ghost t: Tree, ghost h: nat) returns (ok: bool, ghost u: Tree)
    requires tx.Valid() && tx.InSync({}) && Distinct(t) && h > 0 && Shape(t, h) && i < |t.kids|
    requires forall k :: 0 <= k < |t.kids| ==> Holds(tx.view, t.kids[k])
    requires forall p :: Uses(t, p) > 0 ==> InUse(tx.freelist.State(), p)
    requires Stands(tx, n, t) && Stands(tx, c, t.kids[i]) && Over(tx.db.fill, t.kids[i].items)
    modifies tx`dirtyNodes, tx`view, tx.freelist, n, c
    ensures tx.Valid() && tx.InSync({})
    ensures !ok ==> SplitKid(tx.db.fill, t, h, i, old(tx.freelist.State())).None?
    ensures ok ==> SplitKid(tx.db.fill, t, h, i, old(tx.freelist.State())) == Some((u, tx.freelist.State()))
    ensures ok ==> Holds(tx.view, u) && Stands(tx, n, u) && n.pageNum in tx.dirtyNodes
    ensures ok ==> Local(u, old(tx.view), tx.view, old(tx.dirtyNodes), tx.dirtyNodes)
  {
    ghost var was, filed, pool := tx.view, tx.dirtyNodes, tx.freelist.State();
    KidsApart(t, i, i);
    NextPageFresh(pool);
    ghost var created: Node?;
    u := t;
    ok, created := SplitNode(tx, n, c, i);
    if !ok {
      return;
    }
    ghost var s, page := SplitIndex(tx.db.fill, t.kids[i].items), NextPage(pool).0;
    SplitLocal(t, h, i, s, page, was, filed, created, n, c);
    u := Split(t, i, s, page);
  }

  // ---------------------------------------------------------------- working up a path

  /** Pages in use that are not t's keep what they hold, and the nodes filed for them. */
  ghost predicate Untouched(t: Tree, pool: Pool, was: Store, now: Store, filed: map<PageNum, Node>, refiled: map<PageNum, Node>) {
    forall p :: InUse(pool, p) && Uses(t, p) == 0 ==>
      && (p in was <==> p in now) && (p in was ==> was[p] == now[p])
      && (p in filed <==> p in refiled) && (p in filed ==> filed[p] == refiled[p])
  }

  /** The nodes along the path, down to level k, are those of t. */
  ghost predicate Along(tx: Tx, nodes: seq<Node>, t: Tree, path: Path, k: nat)
    reads tx`dirtyNodes, nodes
  {
    && k <= |path| && |nodes| == |path| + 1
    && forall j :: 0 <= j <= k ==> ValidPath(t, path[..j]) && Stands(tx, nodes[j], Sub(t, path[..j]))
  }

  /** The subtree s at path is replaced by r, which has s's pages and those taken from pool to q: seen from t. */
  lemma PlugGrown(t: Tree, path: Path, r: Tree, pool: Pool, q: Pool, was: Store, now: Store, filed: map<PageNum, Node>, refiled: map<PageNum, Node>)
    requires ValidPath(t, path) && Holds(was, t) && Distinct(t)
    requires forall p :: Uses(t, p) > 0 ==> InUse(pool, p)
    requires r.page == Sub(t, path).page && Holds(now, r) && Gains(Sub(t, path), pool, r, q)
    requires Local(r, was, now, filed, refiled)
    ensures var u := Plug(t, path, r);
      && Holds(now, u) && Distinct(u) && Gains(t, pool, u, q)
      && (forall p :: Uses(u, p) > 0 ==> InUse(q, p))
    ensures Untouched(t, pool, was, now, filed, refiled) && Untouched(Sub(t, path), pool, was, now, filed, refiled)
  {
    var s, u := Sub(t, path), Plug(t, path, r);
    forall p ensures Uses(u, p) == Uses(t, p) + Taken(pool, q, p) && Uses(s, p) <= Uses(t, p) { PlugUses(t, path, r, p); }
    HoldsPlug(was, now, t, path, r);
  }

  /** A split at level k, seen from the whole tree. */
  lemma SplitSeen(f: Fill, t: Tree, path: Path, i: nat, s: Tree, h: nat, pool: Pool, r: Tree, q: Pool, was: Store, now: Store, filed: map<PageNum, Node>, refiled: map<PageNum, Node>)
    requires ValidPath(t, path) && s == Sub(t, path) && h > 0 && Shape(s, h) && i < |s.kids|
    requires Holds(was, t) && Distinct(t) && Sound(pool)
    requires forall p :: Uses(t, p) > 0 ==> InUse(pool, p)
    requires SplitKid(f, s, h, i, pool) == Some((r, q)) && Holds(now, r) && Local(r, was, now, filed, refiled)
    ensures var u := Plug(t, path, r);
      && r.page == s.page && Holds(now, u) && Distinct(u) && Gains(t, pool, u, q)
      && (forall p :: Uses(u, p) > 0 ==> InUse(q, p))
    ensures Untouched(t, pool, was, now, filed, refiled) && Untouched(s, pool, was, now, filed, refiled)
  {
    SplitKidGains(f, s, h, i, pool);
    SplitKidPreserves(f, s, h, i, pool);
    PlugGrown(t, path, r, pool, q, was, now, filed, refiled);
  }

  /** The nodes above level k, and the one at level k, stand on the path of u. */
  ghost predicate UpTo(tx: Tx, nodes: seq<Node>, u: Tree, path: Path, k: nat)
    reads tx`dirtyNodes, nodes
    requires k < |nodes| && k <= |path|
  {
    forall j :: 0 <= j <= k ==> ValidPath(u, path[..j]) && Stands(tx, nodes[j], Sub(u, path[..j]))
  }

  /** The part of a turn of Put's loop that splits the node at level k + 1. */
  method SplitStep(tx: Tx, n: Node, c: Node, i: nat, ghost nodes: seq<Node>, ghost path: Path, ghost k: nat, ghost t: Tree, ghost s: Tree, ghost h: nat) returns (ok: bool, ghost u: Tree)
    requires Ready(tx, t) && k < |path| && Along(tx, nodes, t, path, k + 1) && n == nodes[k] && c == nodes[k + 1] && i == path[k]
    requires ValidPath(t, path[..k]) && s == Sub(t, path[..k]) && h > 0 && Shape(s, h) && path[k] < |s.kids|
    requires Stands(tx, nodes[k + 1], s.kids[path[k]]) && Over(tx.db.fill, s.kids[path[k]].items)
    modifies tx`dirtyNodes, tx`view, tx.freelist, n, c
    ensures ok <==> SplitKid(tx.db.fill, s, h, path[k], old(tx.freelist.State())).Some?
    ensures ok ==> (u, tx.freelist.State()) == SplitKidIn(tx.db.fill, t, path[..k], s, h, path[k], old(tx.freelist.State()))
    ensures ok ==> Ready(tx, u) && UpTo(tx, nodes, u, path, k)
    ensures ok ==> Untouched(t, old(tx.freelist.State()), old(tx.view), tx.view, old(tx.dirtyNodes), tx.dirtyNodes)
  {
    ghost var was, filed, pool := tx.view, tx.dirtyNodes, tx.freelist.State();
    SubKept(t, path, k, pool, was);
    NodesApart(tx, nodes, t, path, k);
    u := t;
    ghost var r: Tree;
    ok, r := SplitAt(tx, n, c, i, s, h);
    if !ok {
      return;
    }
    SplitSeen(tx.db.fill, t, path[..k], path[k], s, h, pool, r, tx.freelist.State(), was, tx.view, filed, tx.dirtyNodes);
    u := Plug(t, path[..k], r);
    forall j | 0 <= j < k ensures Stands(tx, nodes[j], Sub(t, path[..j])) {
      assert InUse(pool, nodes[j].pageNum) && old(Stands(tx, nodes[j], Sub(t, path[..j])));
    }
    StillAlong(tx, nodes, t, path, k, r);
  }

  /** t with the split done in its subtree s at path. */
  ghost function SplitKidIn(f: Fill, t: Tree, path: Path, s: Tree, h: nat, i: nat, pool: Pool): (Tree, Pool)
    requires ValidPath(t, path) && h > 0 && Shape(s, h) && i < |s.kids| && SplitKid(f, s, h, i, pool).Some?
  {
    var (r, q) := SplitKid(f, s, h, i, pool).value;
    (Plug(t, path, r), q)
  }

  /** The nodes above level k are apart from the two below, and their pages from the subtree at level k. */
  lemma NodesApart(tx: Tx, nodes: seq<Node>, t: Tree, path: Path, k: nat)
    requires k < |path| && Along(tx, nodes, t, path, k + 1) && Distinct(t)
    ensures nodes[k].pageNum != nodes[k + 1].pageNum
    ensures forall j :: 0 <= j < k ==> nodes[j].pageNum != nodes[k].pageNum && nodes[j].pageNum != nodes[k + 1].pageNum
    ensures forall j :: 0 <= j < k ==> Uses(Sub(t, path[..k]), nodes[j].pageNum) == 0 && Uses(t, nodes[j].pageNum) == 1
  {
    PrefixApart(t, path, k, k + 1);
    UsesRoot(Sub(t, path[..k + 1]));
    UsesRoot(Sub(t, path[..k]));
    forall j | 0 <= j < k
      ensures nodes[j].pageNum != nodes[k].pageNum && nodes[j].pageNum != nodes[k + 1].pageNum
      ensures Uses(Sub(t, path[..k]), nodes[j].pageNum) == 0 && Uses(t, nodes[j].pageNum) == 1
    {
      PrefixApart(t, path, j, k);
      PrefixApart(t, path, j, k + 1);
    }
  }

  lemma UsesRoot(t: Tree)
    ensures Uses(t, t.page) > 0
  {
  }

  /** The nodes above level k still stand on the path once the subtree there is replaced. */
  lemma StillAlong(tx: Tx, nodes: seq<Node>, t: Tree, path: Path, k: nat, r: Tree)
    requires k <= |path| && |nodes| == |path| + 1
    requires forall j :: 0 <= j < k ==> ValidPath(t, path[..j]) && Stands(tx, nodes[j], Sub(t, path[..j]))
    requires ValidPath(t, path[..k]) && r.page == Sub(t, path[..k]).page && Stands(tx, nodes[k], r)
    ensures var u := Plug(t, path[..k], r);
      UpTo(tx, nodes, u, path, k)
  {
    var u := Plug(t, path[..k], r);
    PlugSub(t, path[..k], r);
    forall j | 0 <= j < k ensures ValidPath(u, path[..j]) && Stands(tx, nodes[j], Sub(u, path[..j])) {
      PlugRec(t, path[..k], r, j);
      Prefix(path, j, k);
    }
  }

  /** The subtree at a level of the path is held, on pages of its own, as the whole tree is. */
  lemma SubKept(t: Tree, path: Path, k: nat, pool: Pool, st: Store)
    requires k <= |path| && Holds(st, t) && Distinct(t) && ValidPath(t, path[..k])
    requires forall p :: Uses(t, p) > 0 ==> InUse(pool, p)
    ensures var s := Sub(t, path[..k]); Holds(st, s) && Distinct(s) && forall p :: Uses(s, p) > 0 ==> InUse(pool, p)
  {
    HoldsSub(st, t, path[..k]);
    forall p ensures Uses(Sub(t, path[..k]), p) <= Uses(t, p) { PlugUses(t, path[..k], t, p); }
  }

  /** A rebalancing at level k, seen from the whole tree. */
  lemma RebalanceSeen(f: Fill, t: Tree, path: Path, i: nat, s: Tree, h: nat, pool: Pool, was: Store, now: Store, filed: map<PageNum, Node>, refiled: map<PageNum, Node>)
    requires ValidPath(t, path) && s == Sub(t, path) && h > 0 && Shape(s, h) && i < |s.kids| && s.items != []
    requires Holds(was, t) && Distinct(t)
    requires forall p :: Uses(t, p) > 0 ==> InUse(pool, p)
    requires forall p :: p in refiled ==> InUse(pool, p)
    requires Holds(now, Rebalance(f, s, h, i).tree) && Local(s, was, now, filed, refiled)
    ensures var r := Rebalance(f, s, h, i).tree; var u := Plug(t, path, r);
      && r.page == s.page && Holds(now, u) && Distinct(u)
      && (forall p :: Uses(u, p) > 0 ==> InUse(pool, p))
    ensures Untouched(t, pool, was, now, filed, refiled) && Untouched(s, pool, was, now, filed, refiled)
  {
    var r := Rebalance(f, s, h, i).tree;
    RebalancePreserves(f, s, h, i);
    forall p ensures Uses(Plug(t, path, r), p) <= Uses(t, p) && Uses(s, p) <= Uses(t, p) { PlugUses(t, path, r, p); }
    HoldsPlug(was, now, t, path, r);
  }

  /** A node apart from s keeps what it holds through work on s, whether it is filed or only a copy. */
  lemma StillStands(tx: Tx, n: Node, s: Tree, a: Tree, was: Store, filed: map<PageNum, Node>)
    requires tx.InSync({}) && Local(s, was, tx.view, filed, tx.dirtyNodes)
    requires n.pageNum == a.page && Uses(s, a.page) == 0 && Holds(was, a)
    requires if a.page in filed then filed[a.page] == n else n.Rec() == Rec(a)
    ensures Stands(tx, n, a)
  {
  }

  /** The part of a turn of Remove's loop that rebalances the node at level k + 1. */
  method RebalanceStep(tx: Tx, n: Node, c: Node, i: nat, ghost nodes: seq<Node>, ghost path: Path, ghost k: nat, ghost t: Tree, ghost s: Tree, ghost h: nat) returns (ghost u: Tree, ghost sib: Node)
    requires Ready(tx, t) && k < |path| && Along(tx, nodes, t, path, k + 1) && n == nodes[k] && c == nodes[k + 1] && i == path[k]
    requires ValidPath(t, path[..k]) && s == Sub(t, path[..k]) && h > 0 && Shape(s, h) && path[k] < |s.kids| && s.items != []
    requires Stands(tx, nodes[k + 1], s.kids[path[k]])
    modifies tx`dirtyNodes, tx`view, tx`pagesToDelete, n, c, tx.dirtyNodes.Values
    ensures var r := Rebalance(tx.db.fill, s, h, path[k]);
      u == Plug(t, path[..k], r.tree) && tx.pagesToDelete == old(tx.pagesToDelete) + r.deleted
    ensures FiledFrom(old(tx.dirtyNodes), tx.dirtyNodes, {n, c, sib}) && (sib in old(tx.dirtyNodes.Values) || fresh(sib) || sib == c)
    ensures Ready(tx, u) && UpTo(tx, nodes, u, path, k)
    ensures Untouched(t, tx.freelist.State(), old(tx.view), tx.view, old(tx.dirtyNodes), tx.dirtyNodes)
    ensures i != 0 && Rebalance(tx.db.fill, s, h, path[k]).deleted != [] ==> Holds(tx.view, s.kids[i])
  {
    ghost var was, filed, pool := tx.view, tx.dirtyNodes, tx.freelist.State();
    SubKept(t, path, k, pool, was);
    NodesApart(tx, nodes, t, path, k);
    sib := RebalanceRemove(tx, n, c, i, s, h);
    ghost var r := Rebalance(tx.db.fill, s, h, path[k]);
    RebalanceSeen(tx.db.fill, t, path[..k], path[k], s, h, pool, was, tx.view, filed, tx.dirtyNodes);
    u := Plug(t, path[..k], r.tree);
    forall j | 0 <= j < k ensures Stands(tx, nodes[j], Sub(t, path[..j])) {
      HoldsSub(was, t, path[..j]);
      assert old(Stands(tx, nodes[j], Sub(t, path[..j])));
      StillStands(tx, nodes[j], s, Sub(t, path[..j]), was, filed);
    }
    StillAlong(tx, nodes, t, path, k, r.tree);
  }

  // ---------------------------------------------------------------- Put's loop

  /** What Grow makes of the subtree at level k. */
  ghost function GrowAt(f: Fill, t: Tree, h: nat, path: Path, k: nat, pool: Pool): Option<(Tree, Pool)>
    requires Shape(t, h) && ValidPath(t, path) && k <= |path|
  {
    SubSuffix(t, path, k);
    PathLength(t, h, path[..k]);
    Grow(f, Sub(t, path[..k]), h - k, path[k..], pool)
  }

  /** Grow works from the bottom up: level k comes from level k + 1 by at most one split. */
  lemma {:induction false} GrowTurn(f: Fill, t: Tree, h: nat, path: Path, k: nat, pool: Pool)
    requires Shape(t, h) && ValidPath(t, path) && k < |path| && GrowAt(f, t, h, path, k + 1, pool).Some?
    ensures ValidPath(t, path[..k]) && ValidPath(t, path[..k + 1]) && k < h && path[k] < |Sub(t, path[..k]).kids|
    ensures var (c, q) := GrowAt(f, t, h, path, k + 1, pool).value;
      var s := Sub(t, path[..k]); var s' := s.(kids := s.kids[path[k] := c]);
      && Shape(s', h - k)
      && GrowAt(f, t, h, path, k, pool) == SplitKid(f, s', h - k, path[k], q)
      && Plug(t, path[..k + 1], c) == Plug(t, path[..k], s')
      && c.page == s.kids[path[k]].page
  {
    SubSuffix(t, path, k);
    SubStep(t, path, k);
    PathLength(t, h, path[..k]);
    Suffix(path, k);
    PlugOne(t, path[..k], path[k], GrowAt(f, t, h, path, k + 1, pool).value.0);
  }

  /** If level k cannot be grown, neither can the level above. */
  lemma GrowStops(f: Fill, t: Tree, h: nat, path: Path, k: nat, pool: Pool)
    requires Shape(t, h) && ValidPath(t, path) && k < |path| && GrowAt(f, t, h, path, k + 1, pool).None?
    ensures GrowAt(f, t, h, path, k, pool).None?
  {
    SubSuffix(t, path, k);
    SubStep(t, path, k);
    PathLength(t, h, path[..k]);
    Suffix(path, k);
  }

  /** So the whole cannot. */
  lemma {:induction false} GrowFails(f: Fill, t: Tree, h: nat, path: Path, k: nat, pool: Pool)
    requires Shape(t, h) && ValidPath(t, path) && k <= |path| && GrowAt(f, t, h, path, k, pool).None?
    ensures Grow(f, t, h, path, pool).None?
    decreases k
  {
    if k == 0 {
      Ends(path);
    } else {
      GrowStops(f, t, h, path, k - 1, pool);
      GrowFails(f, t, h, path, k - 1, pool);
    }
  }

  /** The state of Put's loop when all levels below k are done; t is the tree before the loop, pool the allocator. */
  ghost predicate PutState(tx: Tx, nodes: seq<Node>, t: Tree, h: nat, path: Path, k: nat, pool: Pool, u: Tree)
    requires Shape(t, h) && ValidPath(t, path) && k <= |path| && |nodes| == |path| + 1
    reads *
  {
    && GrowAt(tx.db.fill, t, h, path, k, pool).Some?
    && var (s, q) := GrowAt(tx.db.fill, t, h, path, k, pool).value;
    && ValidPath(t, path[..k]) && u == Plug(t, path[..k], s) && tx.freelist.State() == q
    && Ready(tx, u) && UpTo(tx, nodes, u, path, k)
  }

  /** One turn of Put's loop. */
  method PutTurn(tx: Tx, nodes: seq<Node>, path: Path, k: nat, ghost t: Tree, ghost h: nat, ghost pool: Pool, ghost u: Tree)
    returns (ok: bool, ghost v: Tree)
    requires Shape(t, h) && ValidPath(t, path) && k < |path| && |nodes| == |path| + 1
    requires PutState(tx, nodes, t, h, path, k + 1, pool, u)
    modifies tx`dirtyNodes, tx`view, tx.freelist, nodes[k], nodes[k + 1]
    ensures ok <==> GrowAt(tx.db.fill, t, h, path, k, pool).Some?
    ensures ok ==> PutState(tx, nodes, t, h, path, k, pool, v)
    ensures ok ==> Untouched(u, old(tx.freelist.State()), old(tx.view), tx.view, old(tx.dirtyNodes), tx.dirtyNodes)
  {
    var n, c := nodes[k], nodes[k + 1];
    GrowTurn(tx.db.fill, t, h, path, k, pool);
    ghost var g := GrowAt(tx.db.fill, t, h, path, k + 1, pool).value.0;
    ghost var s := Sub(t, path[..k]);
    ghost var s' := s.(kids := s.kids[path[k] := g]);
    PlugSub(t, path[..k], s');
    PlugSub(t, path[..k + 1], g);
    ok, v := true, u;
    if NodeSize(c.items) as real > tx.db.fill.hi {
      ok, v := SplitStep(tx, n, c, path[k], nodes, path, k, u, s', h - k);
    }
  }

  // ---------------------------------------------------------------- Remove's loop

  lemma {:induction false} NearFullSuffix(t: Tree, path: Path, k: nat)
    requires ValidPath(t, path) && k <= |path| && NearFull(t, path)
    ensures ValidPath(t, path[..k]) && ValidPath(Sub(t, path[..k]), path[k..]) && NearFull(Sub(t, path[..k]), path[k..])
    decreases k
  {
    SubSuffix(t, path, k);
    if k == 0 {
      Ends(path);
    } else {
      var i, rest := path[0], path[1..];
      NearFullSuffix(t.kids[i], rest, k - 1);
      var p := path[..k];
      TailPrefix(path, k);
      assert Sub(t, p) == Sub(t.kids[i], rest[..k - 1]);
    }
  }

  /** What Fix makes of the subtree at level k. */
  ghost function FixAt(f: Fill, t: Tree, h: nat, path: Path, k: nat): Fixed
    requires Shape(t, h) && ValidPath(t, path) && NearFull(t, path) && k <= |path|
  {
    NearFullSuffix(t, path, k);
    PathLength(t, h, path[..k]);
    Fix(f, Sub(t, path[..k]), h - k, path[k..])
  }

  /** Fix works from the bottom up: level k comes from level k + 1 by at most one rebalancing. */
  lemma {:induction false} FixTurn(f: Fill, t: Tree, h: nat, path: Path, k: nat)
    requires Shape(t, h) && ValidPath(t, path) && NearFull(t, path) && k < |path|
    ensures ValidPath(t, path[..k]) && ValidPath(t, path[..k + 1]) && k < h && path[k] < |Sub(t, path[..k]).kids|
    ensures var c := FixAt(f, t, h, path, k + 1);
      var s := Sub(t, path[..k]); var s' := s.(kids := s.kids[path[k] := c.tree]);
      && Shape(s', h - k) && s'.items != []
      && Plug(t, path[..k + 1], c.tree) == Plug(t, path[..k], s')
      && FixAt(f, t, h, path, k) == (if Under(f, c.tree.items)
        then var r := Rebalance(f, s', h - k, path[k]); Fixed(r.tree, c.deleted + r.deleted) else Fixed(s', c.deleted))
  {
    NearFullSuffix(t, path, k);
    SubStep(t, path, k);
    PathLength(t, h, path[..k]);
    Suffix(path, k);
    PlugOne(t, path[..k], path[k], FixAt(f, t, h, path, k + 1).tree);
  }

  /** The state of Remove's loop when all levels below k are done; t is the tree before the loop. */
  ghost predicate RemoveState(tx: Tx, nodes: seq<Node>, t: Tree, h: nat, path: Path, k: nat, toDelete: seq<PageNum>, u: Tree)
    requires Shape(t, h) && ValidPath(t, path) && NearFull(t, path) && k <= |path| && |nodes| == |path| + 1
    reads *
  {
    var r := FixAt(tx.db.fill, t, h, path, k);
    && ValidPath(t, path[..k]) && u == Plug(t, path[..k], r.tree) && tx.pagesToDelete == toDelete + r.deleted
    && Ready(tx, u) && UpTo(tx, nodes, u, path, k)
  }

  /** The subtree at level k before the turn: its child on the path is fixed already. */
  ghost function FixedBelow(f: Fill, t: Tree, h: nat, path: Path, k: nat): (s: Tree)
    requires Shape(t, h) && ValidPath(t, path) && NearFull(t, path) && k < |path|
    ensures k < h && Shape(s, h - k) && s.items != [] && path[k] < |s.kids|
    ensures s.kids[path[k]] == FixAt(f, t, h, path, k + 1).tree
  {
    FixTurn(f, t, h, path, k);
    var s := Sub(t, path[..k]);
    s.(kids := s.kids[path[k] := FixAt(f, t, h, path, k + 1).tree])
  }

  /** Where the turn starts from. */
  lemma {:induction false} RemoveStart(tx: Tx, nodes: seq<Node>, t: Tree, h: nat, path: Path, k: nat, toDelete: seq<PageNum>, u: Tree)
    requires Shape(t, h) && ValidPath(t, path) && NearFull(t, path) && k < |path| && |nodes| == |path| + 1
    requires RemoveState(tx, nodes, t, h, path, k + 1, toDelete, u)
    ensures var s := FixedBelow(tx.db.fill, t, h, path, k);
      && ValidPath(t, path[..k]) && u == Plug(t, path[..k], s)
      && ValidPath(u, path[..k]) && Sub(u, path[..k]) == s
      && Stands(tx, nodes[k + 1], s.kids[path[k]]) && Along(tx, nodes, u, path, k + 1)
  {
    FixTurn(tx.db.fill, t, h, path, k);
    var g, s := FixAt(tx.db.fill, t, h, path, k + 1).tree, FixedBelow(tx.db.fill, t, h, path, k);
    PlugSub(t, path[..k], s);
    PlugSub(t, path[..k + 1], g);
  }

  /** Where it ends. */
  lemma {:induction false} RemoveEnd(tx: Tx, nodes: seq<Node>, t: Tree, h: nat, path: Path, k: nat, toDelete: seq<PageNum>, u: Tree, v: Tree)
    requires Shape(t, h) && ValidPath(t, path) && NearFull(t, path) && k < |path| && |nodes| == |path| + 1
    requires var f := tx.db.fill; var s := FixedBelow(f, t, h, path, k); var c := s.kids[path[k]];
      var r := if Under(f, c.items) then Rebalance(f, s, h - k, path[k]) else Fixed(s, []);
      && ValidPath(t, path[..k]) && u == Plug(t, path[..k], s)
      && ValidPath(u, path[..k]) && v == Plug(u, path[..k], r.tree)
      && tx.pagesToDelete == toDelete + FixAt(f, t, h, path, k + 1).deleted + r.deleted
    requires Ready(tx, v) && UpTo(tx, nodes, v, path, k)
    ensures RemoveState(tx, nodes, t, h, path, k, toDelete, v)
  {
    var s := FixedBelow(tx.db.fill, t, h, path, k);
    FixTurn(tx.db.fill, t, h, path, k);
    PlugSub(t, path[..k], s);
  }

  /** A child merged into its left sibling at level k is still in the view, on the page given up. */
  ghost predicate MergedKept(tx: Tx, t: Tree, h: nat, path: Path, k: nat)
    requires Shape(t, h) && ValidPath(t, path) && NearFull(t, path)
    reads tx`view, tx.db
  {
    k < |path| ==>
      var s := FixedBelow(tx.db.fill, t, h, path, k);
      path[k] != 0 && Under(tx.db.fill, s.kids[path[k]].items) && Rebalance(tx.db.fill, s, h - k, path[k]).deleted != []
      ==> Holds(tx.view, s.kids[path[k]])
  }

  /** One turn of Remove's loop. */
  method RemoveTurn(tx: Tx, nodes: seq<Node>, path: Path, k: nat, ghost t: Tree, ghost h: nat, ghost toDelete: seq<PageNum>, ghost u: Tree)
    returns (ghost v: Tree, ghost sib: Node)
    requires Shape(t, h) && ValidPath(t, path) && NearFull(t, path) && k < |path| && |nodes| == |path| + 1
    requires RemoveState(tx, nodes, t, h, path, k + 1, toDelete, u)
    modifies tx`dirtyNodes, tx`view, tx`pagesToDelete, nodes[k], nodes[k + 1], tx.dirtyNodes.Values
    ensures FiledFrom(old(tx.dirtyNodes), tx.dirtyNodes, {nodes[k], nodes[k + 1], sib})
    ensures sib in old(tx.dirtyNodes.Values) || fresh(sib) || sib == nodes[k + 1]
    ensures RemoveState(tx, nodes, t, h, path, k, toDelete, v)
    ensures Untouched(u, tx.freelist.State(), old(tx.view), tx.view, old(tx.dirtyNodes), tx.dirtyNodes)
    ensures MergedKept(tx, t, h, path, k)
  {
    RemoveStart(tx, nodes, t, h, path, k, toDelete, u);
    v, sib := u, nodes[k + 1];
    PlugSub(u, path[..k], u);
    if (NodeSize(nodes[k + 1].items) as real) < tx.db.fill.lo {
      v, sib := RebalanceStep(tx, nodes[k], nodes[k + 1], path[k], nodes, path, k, u, FixedBelow(tx.db.fill, t, h, path, k), h - k);
    }
    RemoveEnd(tx, nodes, t, h, path, k, toDelete, u, v);
  }

  // ---------------------------------------------------------------- removal from an internal node

  /** Storing the node with the predecessor in place of item i, and the leaf without it. */
  lemma TakenOutStored(was: Store, t: Tree, h: nat, i: nat, d: Path)
    requires h > 0 && Shape(t, h) && i < |t.items| && Holds(was, t) && Distinct(t)
    requires ValidPath(t.kids[i], d) && Sub(t.kids[i], d).items != [] && Sub(t.kids[i], d).kids == []
    ensures var leaf := Sub(t.kids[i], d);
      && leaf.page != t.page && Uses(t, leaf.page) > 0
      && Holds(Put1(Put1(was, TakenOut(t, i, d)), WithoutLast(leaf)), TakenOut(t, i, d))
  {
    var c, leaf := t.kids[i], Sub(t.kids[i], d);
    var r := TakenOut(t, i, d);
    var now := Put1(Put1(was, r), WithoutLast(leaf));
    KidsApart(t, i, i);
    PlugUses(c, d, leaf, leaf.page);
    PlugUses(c, d, leaf, t.page);
    KidUses(t, i, leaf.page);
    UsesRoot(leaf);
    forall p ensures Uses(c, p) <= Uses(t, p) { KidUses(t, i, p); }
    HoldsPlug(was, now, c, d, WithoutLast(leaf));
    PlugPage(c, d, WithoutLast(leaf));
    forall j | 0 <= j < |t.kids| && j != i ensures Holds(now, t.kids[j]) {
      KidsApart(t, j, i);
      UsesOfTwo(t.kids, i, j, leaf.page);
      HoldsApart(was, now, t.kids[j], {t.page, leaf.page});
    }
  }

  /** The view after removeItemFromInternal has written its two nodes. */
  lemma TakenOutLocal(was: Store, t: Tree, h: nat, i: nat, d: Path, filed: map<PageNum, Node>, x: Node, y: Node)
    requires h > 0 && Shape(t, h) && i < |t.items| && Holds(was, t) && Distinct(t) && Full(t)
    requires ValidPath(t.kids[i], d) && Sub(t.kids[i], d).kids == []
    requires forall p :: p in filed ==> filed[p].pageNum == p
    requires x.pageNum == t.page && y.pageNum == Sub(t.kids[i], d).page
    ensures var leaf := Sub(t.kids[i], d); var m := |leaf.items| - 1;
      && leaf.items != [] && leaf.page != t.page
      && var now := was[t.page := NodeRec(t.items[i := leaf.items[m]], KidPages(t.kids))][leaf.page := NodeRec(leaf.items[..m], [])];
      && Holds(now, TakenOut(t, i, d))
      && Local(t, was, now, filed, filed[t.page := x][leaf.page := y])
  {
    var leaf := Sub(t.kids[i], d);
    assert t.kids[i].items != [] && Full(t.kids[i]);
    SubNonEmpty(t.kids[i], d);
    var r := TakenOut(t, i, d);
    TakenOutStored(was, t, h, i, d);
    PlugPage(t.kids[i], d, WithoutLast(leaf));
    LocalWrites(t, was, filed, r, WithoutLast(leaf), x, y);
    assert KidPages(r.kids) == KidPages(t.kids);
    assert KidPages([]) == [];
  }

  function Prefixed(done: Path, rest: Option<Path>): Option<Path> {
    match rest
    case None => None
    case Some(d) => Some(done + d)
  }

  /** The descent from kid has come down path to a. */
  ghost predicate CameTo(mode: Mode, width: nat, kid: Tree, h: nat, path: Path, a: Tree) {
    && width > 0 && Shape(kid, h) && ValidPath(kid, path) && a == Sub(kid, path)
    && |path| <= h && Shape(a, h - |path|)
    && Descend(mode, width, kid, h) == Prefixed(path, Descend(mode, width, a, h - |path|))
  }

  lemma {:induction false} DescentStarts(mode: Mode, width: nat, kid: Tree, h: nat)
    requires width > 0 && Shape(kid, h)
    ensures CameTo(mode, width, kid, h, [], kid)
  {
    PrefixedNothing(Descend(mode, width, kid, h));
  }

  lemma PrefixedNothing(rest: Option<Path>)
    ensures Prefixed([], rest) == rest
  {
    if rest.Some? { assert [] + rest.value == rest.value; }
  }

  lemma DescentGoesOn(mode: Mode, width: nat, kid: Tree, h: nat, path: Path, a: Tree)
    requires CameTo(mode, width, kid, h, path, a) && a.kids != []
    ensures var i := DescentIndex(mode, width, a);
      if i >= |a.kids| then Descend(mode, width, kid, h).None?
      else CameTo(mode, width, kid, h, path + [i], a.kids[i]) && |path| < h
  {
    var i := DescentIndex(mode, width, a);
    if i < |a.kids| {
      PlugOne(kid, path, i, kid);
      var r := Descend(mode, width, a.kids[i], h - |path| - 1);
      if r.Some? { Assoc(path, [i], r.value); }
    }
  }

  lemma DescentEnds(mode: Mode, width: nat, kid: Tree, h: nat, path: Path, a: Tree)
    requires CameTo(mode, width, kid, h, path, a) && a.kids == []
    ensures Descend(mode, width, kid, h) == Some(path)
  {
    Ends(path);
  }

  /** The descent of removeItemFromInternal: the leaf, and the path to it. Not ok where it indexes past the children. */
  method DescendToLeaf(tx: Tx, mode: Mode, n: Node, index: nat, ghost t: Tree, ghost h: nat) returns (ok: bool, aNode: Node, path: Path)
    requires Ready(tx, t) && Stands(tx, n, t) && h > 0 && Shape(t, h) && index < |t.items|
    ensures var d := Descend(mode, |t.kids|, t.kids[index], h - 1);
      if d.None? then !ok else ok && path == d.value && Stands(tx, aNode, Sub(t.kids[index], d.value))
    ensures aNode in tx.dirtyNodes.Values || fresh(aNode)
  {
    ghost var kid, w := t.kids[index], |t.kids|;
    ghost var a := kid;
    aNode := GetKid(tx, n, index, t);
    path := [];
    DescentStarts(mode, w, kid, h - 1);
    while aNode.childNodes != []
      invariant CameTo(mode, w, kid, h - 1, path, a)
      invariant Holds(tx.view, a) && Stands(tx, aNode, a) && (aNode in tx.dirtyNodes.Values || fresh(aNode))
      decreases h - |path|
    {
      DescentGoesOn(mode, w, kid, h - 1, path, a);
      var traversingIndex := if mode == AsWritten then |n.childNodes| - 1 else |aNode.childNodes| - 1;
      if traversingIndex >= |aNode.childNodes| {
        ok := false;
        return;
      }
      aNode := GetHeld(tx, aNode.childNodes[traversingIndex], a.kids[traversingIndex]);
      path, a := path + [traversingIndex], a.kids[traversingIndex];
    }
    DescentEnds(mode, w, kid, h - 1, path, a);
    ok := true;
  }

  /** The writes of removeItemFromInternal: the last item of aNode replaces item index of n. */
  method ReplaceByLast(tx: Tx, n: Node, aNode: Node, index: nat, ghost t: Tree, ghost h: nat, ghost d: Path)
    requires Ready(tx, t) && Stands(tx, n, t) && h > 0 && Shape(t, h) && Full(t) && index < |t.items|
    requires ValidPath(t.kids[index], d) && Sub(t.kids[index], d).kids == [] && Stands(tx, aNode, Sub(t.kids[index], d))
    modifies tx`dirtyNodes, tx`view, n, aNode
    ensures tx.Valid() && tx.InSync({})
    ensures Sub(t.kids[index], d).items != [] && Holds(tx.view, TakenOut(t, index, d))
    ensures Local(t, old(tx.view), tx.view, old(tx.dirtyNodes), tx.dirtyNodes)
    ensures FiledFrom(old(tx.dirtyNodes), tx.dirtyNodes, {n, aNode})
  {
    TakenOutLocal(tx.view, t, h, index, d, tx.dirtyNodes, n, aNode);
    n.items := n.items[index := aNode.items[|aNode.items| - 1]];
    aNode.items := aNode.items[..|aNode.items| - 1];
    tx.WriteTwo(n, aNode);
  }

  /** removeItemFromInternal: the predecessor takes the item's place and leaves its leaf. */
  method RemoveItemFromInternal(tx: Tx, mode: Mode, n: Node, index: nat, ghost t: Tree, ghost h: nat)
    returns (ok: bool, affected: seq<nat>, ghost leafNode: Node)
    requires Ready(tx, t) && Stands(tx, n, t) && h > 0 && Shape(t, h) && Full(t) && index < |t.items|
    modifies tx`dirtyNodes, tx`view, n, tx.dirtyNodes.Values
    ensures tx.Valid() && tx.InSync({})
    ensures !ok <==> mode == AsWritten && RunsOut(|t.kids|, t.kids[index])
    ensures ok && mode == AsWritten ==> affected == [index] + Straight(|t.kids|, h - 1)
    ensures !ok ==> Descend(mode, |t.kids|, t.kids[index], h - 1).None?
    ensures ok ==> affected != [] && affected[0] == index && Descend(mode, |t.kids|, t.kids[index], h - 1) == Some(affected[1..])
    ensures ok ==> Sub(t.kids[index], affected[1..]).items != [] && Holds(tx.view, TakenOut(t, index, affected[1..]))
    ensures ok ==> Local(t, old(tx.view), tx.view, old(tx.dirtyNodes), tx.dirtyNodes)
    ensures FiledFrom(old(tx.dirtyNodes), tx.dirtyNodes, {n, leafNode}) && (leafNode in old(tx.dirtyNodes.Values) || fresh(leafNode))
  {
    var aNode: Node, d: Path;
    DescentExact(mode, t, h, index);
    ok, aNode, d := DescendToLeaf(tx, mode, n, index, t, h);
    affected, leafNode := [index] + d, aNode;
    assert affected[1..] == d;
    if !ok {
      return;
    }
    ReplaceByLast(tx, n, aNode, index, t, h, d);
  }

  // ---------------------------------------------------------------- whole loops

  lemma UntouchedTwice(t: Tree, pool: Pool, u: Tree, q: Pool, a: Store, b: Store, c: Store, fa: map<PageNum, Node>, fb: map<PageNum, Node>, fc: map<PageNum, Node>)
    requires Untouched(t, pool, a, b, fa, fb) && Untouched(u, q, b, c, fb, fc)
    requires forall p :: InUse(pool, p) && Uses(t, p) == 0 ==> InUse(q, p) && Uses(u, p) == 0
    ensures Untouched(t, pool, a, c, fa, fc)
  {
  }

  lemma PlugGains(t: Tree, path: Path, pool: Pool, r: Tree, q: Pool)
    requires ValidPath(t, path) && Gains(Sub(t, path), pool, r, q)
    ensures Gains(t, pool, Plug(t, path, r), q)
  {
    forall x ensures Uses(Plug(t, path, r), x) == Uses(t, x) + Taken(pool, q, x) { PlugUses(t, path, r, x); }
  }

  lemma PlugLoses(t: Tree, path: Path, r: Tree)
    requires ValidPath(t, path) && forall p :: Uses(r, p) <= Uses(Sub(t, path), p)
    ensures forall p :: Uses(Plug(t, path, r), p) <= Uses(t, p)
  {
    forall p ensures Uses(Plug(t, path, r), p) <= Uses(t, p) { PlugUses(t, path, r, p); }
  }

  /** The tree during Put's loop has the pages it started with and those handed out since. */
  lemma {:induction false} GrowAtGains(f: Fill, t: Tree, h: nat, path: Path, k: nat, pool: Pool)
    requires Shape(t, h) && ValidPath(t, path) && k <= |path| && Sound(pool) && GrowAt(f, t, h, path, k, pool).Some?
    ensures ValidPath(t, path[..k])
    ensures var (s, q) := GrowAt(f, t, h, path, k, pool).value; Gains(t, pool, Plug(t, path[..k], s), q)
  {
    SubSuffix(t, path, k);
    PathLength(t, h, path[..k]);
    GrowGains(f, Sub(t, path[..k]), h - k, path[k..], pool);
    var (s, q) := GrowAt(f, t, h, path, k, pool).value;
    PlugGains(t, path[..k], pool, s, q);
  }

  /** The root's node stands for the whole tree. */
  lemma UpToRoot(tx: Tx, nodes: seq<Node>, u: Tree, path: Path)
    requires nodes != [] && UpTo(tx, nodes, u, path, 0)
    ensures Stands(tx, nodes[0], u)
  {
    Ends(path);
  }

  lemma {:induction false} GrowAtEnds(f: Fill, t: Tree, h: nat, path: Path, pool: Pool)
    requires Shape(t, h) && ValidPath(t, path)
    ensures GrowAt(f, t, h, path, |path|, pool) == Some((Sub(t, path), pool)) && path[..|path|] == path
    ensures GrowAt(f, t, h, path, 0, pool) == Grow(f, t, h, path, pool) && path[..0] == []
    ensures Plug(t, path, Sub(t, path)) == t
  {
    Ends(path);
    PlugSub(t, path, t);
  }

  /** Put's loop: from the parent of the last node up to the root. */
  method SplitUpwards(tx: Tx, nodes: seq<Node>, path: Path, ghost t: Tree, ghost h: nat) returns (ok: bool, ghost u: Tree)
    requires Shape(t, h) && ValidPath(t, path) && Ready(tx, t) && Along(tx, nodes, t, path, |path|)
    modifies tx`dirtyNodes, tx`view, tx.freelist, nodes
    ensures ok <==> Grow(tx.db.fill, t, h, path, old(tx.freelist.State())).Some?
    ensures ok ==> (u, tx.freelist.State()) == Grow(tx.db.fill, t, h, path, old(tx.freelist.State())).value
    ensures ok ==> Ready(tx, u) && Stands(tx, nodes[0], u)
    ensures ok ==> Untouched(t, old(tx.freelist.State()), old(tx.view), tx.view, old(tx.dirtyNodes), tx.dirtyNodes)
  {
    ghost var pool := tx.freelist.State();
    GrowAtEnds(tx.db.fill, t, h, path, pool);
    u := t;
    var k: nat := |path|;
    while k > 0
      invariant k <= |path| && PutState(tx, nodes, t, h, path, k, pool, u)
      invariant Untouched(t, pool, old(tx.view), tx.view, old(tx.dirtyNodes), tx.dirtyNodes)
    {
      k := k - 1;
      GrowAtGains(tx.db.fill, t, h, path, k + 1, pool);
      ghost var was, filed, v := tx.view, tx.dirtyNodes, u;
      ghost var q := tx.freelist.State();
      ok, u := PutTurn(tx, nodes, path, k, t, h, pool, v);
      if !ok {
        GrowFails(tx.db.fill, t, h, path, k, pool);
        return;
      }
      UntouchedTwice(t, pool, v, q, old(tx.view), was, tx.view, old(tx.dirtyNodes), filed, tx.dirtyNodes);
    }
    UpToRoot(tx, nodes, u, path);
    ok := true;
  }

  lemma {:induction false} FixAtEnds(f: Fill, t: Tree, h: nat, path: Path)
    requires Shape(t, h) && ValidPath(t, path) && NearFull(t, path)
    ensures FixAt(f, t, h, path, |path|) == Fixed(Sub(t, path), []) && path[..|path|] == path
    ensures FixAt(f, t, h, path, 0) == Fix(f, t, h, path) && path[..0] == []
    ensures Plug(t, path, Sub(t, path)) == t
  {
    Ends(path);
    PlugSub(t, path, t);
  }

  /** The tree during Remove's loop has no pages but those it started with. */
  lemma {:induction false} FixAtPages(f: Fill, t: Tree, h: nat, path: Path, k: nat)
    requires Shape(t, h) && ValidPath(t, path) && NearFull(t, path) && k <= |path|
    ensures ValidPath(t, path[..k])
    ensures forall p :: Uses(Plug(t, path[..k], FixAt(f, t, h, path, k).tree), p) <= Uses(t, p)
  {
    NearFullSuffix(t, path, k);
    PathLength(t, h, path[..k]);
    FixPages(f, Sub(t, path[..k]), h - k, path[k..]);
    PlugLoses(t, path[..k], FixAt(f, t, h, path, k).tree);
  }

  /** One turn of Remove's loop, with what is untouched since the loop began. */
  method RemoveTurnOn(tx: Tx, nodes: seq<Node>, path: Path, k: nat, ghost t: Tree, ghost h: nat, ghost toDelete: seq<PageNum>, ghost u: Tree,
    ghost was: Store, ghost filed: map<PageNum, Node>) returns (ghost v: Tree, ghost sib: Node)
    requires Shape(t, h) && ValidPath(t, path) && NearFull(t, path) && k < |path| && |nodes| == |path| + 1
    requires RemoveState(tx, nodes, t, h, path, k + 1, toDelete, u)
    requires Untouched(t, tx.freelist.State(), was, tx.view, filed, tx.dirtyNodes)
    modifies tx`dirtyNodes, tx`view, tx`pagesToDelete, nodes[k], nodes[k + 1], tx.dirtyNodes.Values
    ensures RemoveState(tx, nodes, t, h, path, k, toDelete, v) && MergedKept(tx, t, h, path, k)
    ensures Untouched(t, tx.freelist.State(), was, tx.view, filed, tx.dirtyNodes)
    ensures FiledFrom(old(tx.dirtyNodes), tx.dirtyNodes, {nodes[k], nodes[k + 1], sib})
    ensures sib in old(tx.dirtyNodes.Values) || fresh(sib) || sib == nodes[k + 1]
  {
    FixAtPages(tx.db.fill, t, h, path, k + 1);
    v, sib := RemoveTurn(tx, nodes, path, k, t, h, toDelete, u);
    UntouchedTwice(t, tx.freelist.State(), u, tx.freelist.State(), was, old(tx.view), tx.view, filed, old(tx.dirtyNodes), tx.dirtyNodes);
  }

  /** Remove's loop: from the parent of the last node up to the root. */
  method RebalanceUpwards(tx: Tx, nodes: seq<Node>, path: Path, ghost t: Tree, ghost h: nat) returns (ghost u: Tree)
    requires Shape(t, h) && ValidPath(t, path) && NearFull(t, path) && Ready(tx, t) && Along(tx, nodes, t, path, |path|)
    modifies tx`dirtyNodes, tx`view, tx`pagesToDelete, nodes, tx.dirtyNodes.Values
    ensures var r := Fix(tx.db.fill, t, h, path); u == r.tree && tx.pagesToDelete == old(tx.pagesToDelete) + r.deleted
    ensures Ready(tx, u) && Stands(tx, nodes[0], u)
    ensures Untouched(t, tx.freelist.State(), old(tx.view), tx.view, old(tx.dirtyNodes), tx.dirtyNodes)
    ensures MergedKept(tx, t, h, path, 0)
  {
    ghost var toDelete := tx.pagesToDelete;
    FixAtEnds(tx.db.fill, t, h, path);
    u := t;
    ghost var touched: set<Node> := {};
    var k: nat := |path|;
    while k > 0
      invariant k <= |path| && RemoveState(tx, nodes, t, h, path, k, toDelete, u) && MergedKept(tx, t, h, path, k)
      invariant Untouched(t, tx.freelist.State(), old(tx.view), tx.view, old(tx.dirtyNodes), tx.dirtyNodes)
      invariant FiledFrom(old(tx.dirtyNodes), tx.dirtyNodes, touched)
      invariant forall n :: n in touched ==> n in nodes || fresh(n) || n in old(tx.dirtyNodes.Values)
    {
      k := k - 1;
      ghost var sib: Node;
      u, sib := RemoveTurnOn(tx, nodes, path, k, t, h, toDelete, u, old(tx.view), old(tx.dirtyNodes));
      touched := touched + {nodes[k], nodes[k + 1], sib};
    }
    UpToRoot(tx, nodes, u, path);
  }

  // ---------------------------------------------------------------- changing one node

  /** Storing one changed node: the tree with that node replaced is held, and nothing else changed. */
  lemma OneStored(was: Store, t: Tree, path: Path, s: Tree, filed: map<PageNum, Node>, x: Node)
    requires Holds(was, t) && Distinct(t) && ValidPath(t, path)
    requires var n := Sub(t, path); s.page == n.page && s.kids == n.kids && x.pageNum == n.page
    requires forall p :: p in filed ==> filed[p].pageNum == p
    ensures var u, now := Plug(t, path, s), Put1(was, s);
      && Holds(now, u) && Distinct(u) && (forall p :: Uses(u, p) == Uses(t, p))
      && Local(t, was, now, filed, filed[x.pageNum := x])
  {
    var n, now := Sub(t, path), Put1(was, s);
    HoldsSub(was, t, path);
    forall p ensures Uses(n, p) <= Uses(t, p) && Uses(Plug(t, path, s), p) == Uses(t, p) { PlugUses(t, path, s, p); }
    UsesRoot(n);
    forall i | 0 <= i < |s.kids| ensures Holds(now, s.kids[i]) {
      KidsApart(n, i, i);
      HoldsApart(was, now, s.kids[i], {n.page});
    }
    HoldsPlug(was, now, t, path, s);
  }

  lemma LocalUntouched(t: Tree, pool: Pool, was: Store, now: Store, filed: map<PageNum, Node>, refiled: map<PageNum, Node>)
    requires Local(t, was, now, filed, refiled)
    ensures Untouched(t, pool, was, now, filed, refiled)
  {
  }

  /** Writing a node whose items were changed in place. */
  method WriteChanged(tx: Tx, n: Node, ghost t: Tree, ghost path: Path, ghost s: Tree) returns (ghost u: Tree)
    requires tx.Valid() && tx.InSync({n.pageNum}) && tx.Owner(n)
    requires Holds(tx.view, t) && Distinct(t) && ValidPath(t, path)
    requires forall p :: Uses(t, p) > 0 ==> InUse(tx.freelist.State(), p)
    requires s.page == Sub(t, path).page && s.kids == Sub(t, path).kids && n.pageNum == s.page && n.Rec() == Rec(s)
    modifies tx`dirtyNodes, tx`view
    ensures u == Plug(t, path, s) && Ready(tx, u) && tx.dirtyNodes == old(tx.dirtyNodes)[n.pageNum := n]
    ensures forall p :: Uses(u, p) == Uses(t, p)
    ensures Untouched(t, tx.freelist.State(), old(tx.view), tx.view, old(tx.dirtyNodes), tx.dirtyNodes)
  {
    OneStored(tx.view, t, path, s, tx.dirtyNodes, n);
    u := Plug(t, path, s);
    PlugUses(t, path, s, n.pageNum);
    UsesRoot(Sub(t, path));
    tx.WriteNode(n, {n.pageNum});
    LocalUntouched(t, tx.freelist.State(), old(tx.view), tx.view, old(tx.dirtyNodes), tx.dirtyNodes);
  }
}
