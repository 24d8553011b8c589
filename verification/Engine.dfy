/**
 * The mutable part: nodes, the freelist, and a transaction's overlay of changed
 * nodes over the pages on disk (node.go, freelist.go, tx.go). Node objects are
 * shared by reference, as in the source: a changed node is seen by everyone who
 * finds it in dirtyNodes, an unchanged one is decoded anew by every getNode.
 */
module Engine {
  import opened Keys
  import opened Items
  import opened Fill
  import opened Trees
  import opened Pool

  /** A node in memory. Every node owns its item and child sequences. */
  class Node {
    const pageNum: PageNum
    var items: seq<Item>
    var childNodes: seq<PageNum>

    function Rec(): NodeRec
      reads this
    {
      NodeRec(items, childNodes)
    }

    constructor (pageNum: PageNum, items: seq<Item>, childNodes: seq<PageNum>)
      ensures this.pageNum == pageNum && Rec() == NodeRec(items, childNodes)
    {
      this.pageNum := pageNum;
      this.items := items;
      this.childNodes := childNodes;
    }

    /** findKeyInNode: sort.Search for the first item not below the key. */
    method FindKeyInNode(key: Key) returns (found: bool, index: nat)
      requires Sorted(items)
      ensures index == Pos(items, key) && found == HasAt(items, key, index)
    {
      var i, j := 0, |items|;
      while i < j
        invariant 0 <= i <= j <= |items|
        invariant forall k :: 0 <= k < i ==> Less(items[k].key, key)
        invariant forall k :: j <= k < |items| ==> !Less(items[k].key, key)
      {
        var h := (i + j) / 2;
        if Less(items[h].key, key) {
          forall k | 0 <= k < h ensures Less(items[k].key, key) { LessTransitive(items[k].key, items[h].key, key); }
          i := h + 1;
        } else {
          forall k | h <= k < |items| ensures !Less(items[k].key, key) {
            if k > h && Less(items[k].key, key) { LessTransitive(items[h].key, items[k].key, key); }
          }
          j := h;
        }
      }
      PosUnique(items, key, i);
      index := i;
      found := i < |items| && items[i].key == key;
    }

    /** addItem: appends at the end, else shifts the tail by one. */
    method AddItem(item: Item, insertionIndex: nat)
      requires insertionIndex <= |items|
      modifies this`items
      ensures items == old(items[..insertionIndex] + [item] + items[insertionIndex..])
    {
      if |items| == insertionIndex {
        items := items + [item];
        return;
      }
      items := items[..insertionIndex + 1] + items[insertionIndex..];
      items := items[insertionIndex := item];
    }

    /** Put's change of the node found: replace the item with the key, or add one. */
    method PutItem(item: Item, index: nat)
      requires index == Pos(items, item.key)
      modifies this`items
      ensures items == Upsert(old(items), item)
    {
      if index < |items| && items[index].key == item.key {
        items := items[index := item];
      } else {
        AddItem(item, index);
      }
    }

    /** removeItemFromLeaf, up to writing the node. */
    method RemoveItem(index: nat)
      requires index < |items|
      modifies this`items
      ensures items == old(items[..index] + items[index + 1..])
    {
      items := items[..index] + items[index + 1..];
    }
  }

  /** The allocator of a transaction, or of the database. */
  class Freelist {
    var maxPage: PageNum
    var releasedPages: seq<PageNum>

    ghost function State(): Pool
      reads this
    {
      Pool(maxPage, releasedPages)
    }

    constructor (maxPage: PageNum, releasedPages: seq<PageNum>)
      ensures State() == Pool(maxPage, releasedPages)
    {
      this.maxPage := maxPage;
      this.releasedPages := releasedPages;
    }

    method Clone() returns (r: Freelist)
      ensures fresh(r) && r.State() == State()
    {
      r := new Freelist(maxPage, releasedPages);
    }

    method GetNextPage() returns (page: PageNum)
      modifies this
      ensures (page, State()) == NextPage(old(State()))
      ensures old(releasedPages) != [] ==> old(releasedPages) == releasedPages + [page] && maxPage == old(maxPage)
      ensures old(releasedPages) == [] ==> releasedPages == [] && page == maxPage == old(maxPage) + 1
    {
      var n := |releasedPages|;
      if n != 0 {
        page := releasedPages[n - 1];
        releasedPages := releasedPages[..n - 1];
        return;
      }
      maxPage := maxPage + 1;
      page := maxPage;
    }

    method ReleasePage(page: PageNum)
      modifies this
      ensures State() == Release(old(State()), page)
      ensures releasedPages == old(releasedPages) + [page] && maxPage == old(maxPage)
    {
      releasedPages := releasedPages + [page];
    }
  }

  /** The database as a transaction sees it: decoded pages, and what the last commit published. */
  class DB {
    const fill: Fill
    var disk: Store
    var root: PageNum
    const freelistPage: PageNum
    var freelist: Freelist

    constructor (fill: Fill, disk: Store, root: PageNum, freelistPage: PageNum, freelist: Freelist)
      ensures this.fill == fill && this.disk == disk && this.root == root
      ensures this.freelistPage == freelistPage && this.freelist == freelist
    {
      this.fill := fill;
      this.disk := disk;
      this.root := root;
      this.freelistPage := freelistPage;
      this.freelist := freelist;
    }
  }

  /** Work on t alone: other pages keep what they hold, and only pages of t get changed nodes. */
  ghost predicate Local(t: Tree, was: Store, now: Store, filed: map<PageNum, Node>, refiled: map<PageNum, Node>) {
    && (forall p :: Uses(t, p) == 0 ==> (p in was <==> p in now) && (p in was ==> was[p] == now[p]))
    && (forall p :: p in filed ==> p in refiled && refiled[p].pageNum == p)
    && (forall p :: p in filed && Uses(t, p) == 0 ==> refiled[p] == filed[p])
    && (forall p :: p in refiled ==> p in filed || Uses(t, p) > 0)
  }

  /** Whatever is filed newly or anew is one of the given nodes. */
  ghost predicate FiledFrom(was: map<PageNum, Node>, now: map<PageNum, Node>, nodes: set<Node>) {
    forall p :: p in now ==> now[p] in nodes || (p in was && now[p] == was[p])
  }

  class Tx {
    const db: DB
    const write: bool
    var dirtyNodes: map<PageNum, Node>
    var pagesToDelete: seq<PageNum>
    var root: PageNum
    const freelist: Freelist
    /** What getNode finds under each page number: the changed nodes over those on disk. */
    ghost var view: Store

    /** newTx: an empty overlay over what is committed, and a copy of the freelist. */
    constructor (db: DB, write: bool)
      requires Sound(db.freelist.State())
      ensures this.db == db && this.write == write && root == db.root
      ensures fresh(freelist) && freelist.State() == db.freelist.State()
      ensures Valid() && InSync({}) && view == db.disk && dirtyNodes == map[] && pagesToDelete == []
    {
      this.db := db;
      this.write := write;
      dirtyNodes := map[];
      pagesToDelete := [];
      root := db.root;
      freelist := new Freelist(db.freelist.maxPage, db.freelist.releasedPages);
      view := db.disk;
    }

    /** Changed nodes are filed under their own page, which the transaction has not got left to hand out. */
    ghost predicate Valid()
      reads this`dirtyNodes, this`view, freelist, db
    {
      && Sound(freelist.State())
      && (forall p :: p in dirtyNodes ==> dirtyNodes[p].pageNum == p && InUse(freelist.State(), p) && p in view)
      && (forall p :: p !in dirtyNodes ==> (p in view <==> p in db.disk))
      && (forall p :: p !in dirtyNodes && p in view ==> view[p] == db.disk[p])
    }

    /** The view is up to date, but possibly for nodes being changed on the given pages. */
    ghost predicate InSync(changing: set<PageNum>)
      reads this`dirtyNodes, this`view, set p | p in dirtyNodes :: dirtyNodes[p]
    {
      forall p :: p in dirtyNodes && p !in changing ==> p in view && view[p] == dirtyNodes[p].Rec()
    }

    /** n is the changed node of its page, if its page has one. */
    ghost predicate Owner(n: Node)
      reads this`dirtyNodes
    {
      n.pageNum in dirtyNodes ==> dirtyNodes[n.pageNum] == n
    }

    /** n is what every other holder of its page number would see. */
    ghost predicate Current(n: Node)
      reads this`dirtyNodes, this`view, n
    {
      n.pageNum in view && n.Rec() == view[n.pageNum] && Owner(n)
    }

    /** newNode: a node on the next free page, not yet in the overlay. */
    method NewNode(items: seq<Item>, childNodes: seq<PageNum>) returns (node: Node)
      requires Valid()
      modifies freelist
      ensures Valid() && !InUse(old(freelist.State()), node.pageNum) && Extends(old(freelist.State()), freelist.State())
      ensures InUse(freelist.State(), node.pageNum)
      ensures fresh(node) && node.Rec() == NodeRec(items, childNodes)
      ensures (node.pageNum, freelist.State()) == NextPage(old(freelist.State()))
    {
      NextPageFresh(freelist.State());
      var page := freelist.GetNextPage();
      node := new Node(page, items, childNodes);
    }

    /** getNode: the changed node, else a new copy of the one on disk; null is the read error. */
    method GetNode(pageNum: PageNum) returns (node: Node?)
      requires Valid() && InSync({})
      ensures node == null <==> pageNum !in view
      ensures node != null ==> node.pageNum == pageNum && Current(node)
      ensures node != null ==> if pageNum in dirtyNodes then node == dirtyNodes[pageNum] else fresh(node)
    {
      if pageNum in dirtyNodes {
        return dirtyNodes[pageNum];
      }
      if pageNum !in db.disk {
        return null;
      }
      var rec := db.disk[pageNum];
      node := new Node(pageNum, rec.items, rec.childNodes);
    }

    /** writeNode: from here on, getNode of the page finds this node. */
    method WriteNode(node: Node, ghost changing: set<PageNum> := {})
      requires Valid() && InUse(freelist.State(), node.pageNum) && InSync(changing)
      modifies this`dirtyNodes, this`view
      ensures Valid() && InSync(changing - {node.pageNum})
      ensures dirtyNodes == old(dirtyNodes)[node.pageNum := node]
      ensures view == old(view)[node.pageNum := node.Rec()]
    {
      dirtyNodes := dirtyNodes[node.pageNum := node];
      view := view[node.pageNum := node.Rec()];
    }

    /** writeNode of a node that is filed already and unchanged since: nothing changes. */
    method RewriteNode(node: Node)
      requires Valid() && InUse(freelist.State(), node.pageNum) && InSync({})
      requires node.pageNum in dirtyNodes && dirtyNodes[node.pageNum] == node
      modifies this`dirtyNodes, this`view
      ensures Valid() && InSync({}) && dirtyNodes == old(dirtyNodes) && view == old(view)
    {
      WriteNode(node);
      assert dirtyNodes == old(dirtyNodes);
      assert view == old(view);
    }

    /** writeNode(newNode(...)): a new node goes into the overlay at once. */
    method WriteNewNode(items: seq<Item>, childNodes: seq<PageNum>) returns (node: Node)
      requires Valid() && InSync({})
      modifies freelist, this`dirtyNodes, this`view
      ensures Valid() && InSync({})
      ensures fresh(node) && node.Rec() == NodeRec(items, childNodes)
      ensures (node.pageNum, freelist.State()) == NextPage(old(freelist.State()))
      ensures !InUse(old(freelist.State()), node.pageNum) && Extends(old(freelist.State()), freelist.State())
      ensures InUse(freelist.State(), node.pageNum)
      ensures dirtyNodes == old(dirtyNodes)[node.pageNum := node]
      ensures view == old(view)[node.pageNum := NodeRec(items, childNodes)]
    {
      node := NewNode(items, childNodes);
      WriteNode(node);
    }

    /** writeNodes, with two nodes and with three. */
    method WriteTwo(a: Node, b: Node)
      requires Valid() && InUse(freelist.State(), a.pageNum) && InUse(freelist.State(), b.pageNum)
      requires a.pageNum != b.pageNum && InSync({a.pageNum, b.pageNum})
      modifies this`dirtyNodes, this`view
      ensures Valid() && InSync({})
      ensures dirtyNodes == old(dirtyNodes)[a.pageNum := a][b.pageNum := b]
      ensures view == old(view)[a.pageNum := a.Rec()][b.pageNum := b.Rec()]
    {
      WriteNode(a, {a.pageNum, b.pageNum});
      WriteNode(b, {b.pageNum});
    }

    method WriteThree(a: Node, b: Node, c: Node)
      requires Valid() && InUse(freelist.State(), a.pageNum) && InUse(freelist.State(), b.pageNum) && InUse(freelist.State(), c.pageNum)
      requires a.pageNum != b.pageNum && a.pageNum != c.pageNum && b.pageNum != c.pageNum
      requires InSync({a.pageNum, b.pageNum, c.pageNum})
      modifies this`dirtyNodes, this`view
      ensures Valid() && InSync({})
      ensures dirtyNodes == old(dirtyNodes)[a.pageNum := a][b.pageNum := b][c.pageNum := c]
      ensures view == old(view)[a.pageNum := a.Rec()][b.pageNum := b.Rec()][c.pageNum := c.Rec()]
    {
      WriteNode(a, {a.pageNum, b.pageNum, c.pageNum});
      WriteTwo(b, c);
    }

    method DeleteNode(node: Node)
      modifies this`pagesToDelete
      ensures pagesToDelete == old(pagesToDelete) + [node.pageNum]
    {
      pagesToDelete := pagesToDelete + [node.pageNum];
    }
  }
}
