/**
 * Write transactions as sequences of operations, with commit and rollback
 * (tx.go). What a transaction means is, for every collection name, either
 * nothing or the number of IDs issued and a map of items; pages do not appear.
 */
module Database {
  import opened Maybe
  import opened Keys
  import opened Items
  import opened Fill
  import opened Trees
  import opened Pool
  import opened TreeRemove
  import opened HeadCodec
  import opened Forest
  import opened Lifecycle

  // ---------------------------------------------------------------- the specification

  /** A collection as its users see it. */
  datatype View = View(issued: nat, items: map<Key, seq<Byte>>)

  datatype Op =
    | Put(name: Key, item: Item)
    | Remove(name: Key, key: Key)
    | Id(name: Key)
    | CreateColl(name: Key)
    | DeleteColl(name: Key)

  /** The name and its metadata fit an item. */
  predicate ValidName(f: Fill, name: Key) {
    ValidItem(f, Item(name, CollectionValue(0, 0)))
  }

  /** In bytes: 16 of metadata and 19 of the node go with the name. */
  lemma ValidNameExact(f: Fill, name: Key)
    ensures ValidName(f, name) <==> |name| <= 255 && |name| + 35 <= f.pageSize
  {
    ValidItemExact(f, Item(name, CollectionValue(0, 0)));
  }

  /** What an operation does to the collection it names. */
  function OnNamed(f: Fill, op: Op, v: Option<View>): Option<View> {
    match op
    case Put(_, x) => if v.Some? && ValidItem(f, x) then Some(v.value.(items := v.value.items[x.key := x.value])) else v
    case Remove(_, k) => if v.Some? then Some(v.value.(items := v.value.items - {k})) else v
    case Id(_) => if v.Some? then Some(v.value.(issued := v.value.issued + 1)) else v
    case CreateColl(name) => if ValidName(f, name) then Some(View(0, map[])) else v
    case DeleteColl(_) => None
  }

  /** What is seen under a name after an operation: other names are not affected. */
  function Effect(f: Fill, op: Op, name: Key, v: Option<View>): Option<View> {
    if name == op.name then OnNamed(f, op, v) else v
  }

  // ---------------------------------------------------------------- the implementation

  /** The code's predecessor descent and root collapse are right here; always so in the documented mode. */
  ghost predicate Allowed(u: Setup, s: State, op: Op)
    requires Inv(u, s)
  {
    match op
    case Remove(name, k) =>
      var i := At(s.colls, name);
      i != -1 ==> s.colls[i] in s.colls && Removable(u, s.colls[i].tree, s.colls[i].height, k)
    case DeleteColl(name) => Removable(u, s.root, s.rootHeight, name)
    case _ => true
  }

  /** One operation. GetCollection of a missing name gives no collection to work on; an item too large is an error. */
  ghost function Do(u: Setup, s: State, op: Op): State
    requires Inv(u, s) && Allowed(u, s, op)
  {
    match op
    case Put(name, x) => var i := At(s.colls, name); if i != -1 && ValidItem(u.fill, x) then PutIn(u, s, i, x) else s
    case Remove(name, k) => var i := At(s.colls, name); if i != -1 then RemoveIn(u, s, i, k) else s
    case Id(name) => var i := At(s.colls, name); if i != -1 then IdIn(s, i).1 else s
    case CreateColl(name) => Create(u, s, name)
    case DeleteColl(name) => DropColl(u, s, name)
  }

  function ViewOf(c: Coll): View {
    View(|c.issued|, ToMap(InOrder(c.tree)))
  }

  /** The collection of a name. */
  function Named(colls: seq<Coll>, name: Key): Option<Coll> {
    var i := At(colls, name);
    if i == -1 then None else Some(colls[i])
  }

  /** What is seen under a name. */
  function Sees(colls: seq<Coll>, name: Key): Option<View> {
    var c := Named(colls, name);
    if c.None? then None else Some(ViewOf(c.value))
  }

  lemma AtUnique(colls: seq<Coll>, i: nat)
    requires NamesApart(colls) && i < |colls|
    ensures At(colls, colls[i].name) == i
  {
    var j := At(colls, colls[i].name);
    AtFinds(colls, colls[i].name);
    assert IsName(colls, colls[i].name);
    assert colls[j].name == colls[i].name;
  }

  /** Only collection i changes, and keeps its name. */
  lemma NamedOne(colls: seq<Coll>, i: nat, c: Coll, name: Key)
    requires NamesApart(colls) && i < |colls| && c.name == colls[i].name
    ensures Named(colls[i := c], name) == if name == c.name then Some(c) else Named(colls, name)
    ensures Named(colls, c.name) == Some(colls[i])
  {
    var r := colls[i := c];
    AtUnique(colls, i);
    AtUnique(r, i);
    AtFinds(colls, name);
    AtFinds(r, name);
    var j := At(colls, name);
    assert IsName(r, name) ==> IsName(colls, name) by {
      if IsName(r, name) {
        var k :| 0 <= k < |r| && r[k].name == name;
        assert colls[k].name == name;
      }
    }
    if name != c.name && j != -1 { AtUnique(r, j); }
  }

  lemma NamedWithout(colls: seq<Coll>, name: Key, other: Key)
    requires NamesApart(colls)
    ensures Named(Without(colls, name), other) == if other == name then None else Named(colls, other)
  {
    var w, j := Without(colls, name), At(colls, other);
    WithoutNames(colls, name);
    AtFinds(colls, other);
    AtFinds(w, other);
    if other != name && j != -1 {
      assert colls[j] in w;
      var k :| 0 <= k < |w| && w[k] == colls[j];
      AtUnique(w, k);
    }
  }

  lemma NamedAppend(colls: seq<Coll>, c: Coll, name: Key)
    requires NamesApart(colls) && !IsName(colls, c.name)
    ensures Named(colls + [c], name) == if name == c.name then Some(c) else Named(colls, name)
  {
    var r, j := colls + [c], At(colls, name);
    assert NamesApart(r) by { assert forall k :: 0 <= k < |colls| ==> IsName(colls, colls[k].name); }
    AtUnique(r, |colls|);
    AtFinds(colls, name);
    AtFinds(r, name);
    assert name != c.name && IsName(r, name) ==> IsName(colls, name) by {
      if name != c.name && IsName(r, name) {
        var k :| 0 <= k < |r| && r[k].name == name;
        assert colls[k].name == name;
      }
    }
    if name != c.name && j != -1 { AtUnique(r, j); }
  }

  // ---------------------------------------------------------------- refinement

  lemma CreatedColls(u: Setup, s: State, name: Key)
    requires Inv(u, s)
    ensures var t, c := Create(u, s, name), NewColl(name, NextPage(s.pool).0);
      t.colls == if ValidName(u.fill, name) then Without(s.colls, name) + [c] else s.colls
  {
    var c := NewColl(name, NextPage(s.pool).0);
    if ValidName(u.fill, name) { ValueFits(u.fill, name, CollectionValue(0, 0), Value(c)); }
    if ValidItem(u.fill, Item(name, Value(c))) { ValueFits(u.fill, name, Value(c), CollectionValue(0, 0)); }
  }

  lemma SeesCreated(colls: seq<Coll>, c: Coll, other: Key)
    requires NamesApart(colls) && c == NewColl(c.name, c.tree.page)
    ensures Sees(Without(colls, c.name) + [c], other) == if other == c.name then Some(View(0, map[])) else Sees(colls, other)
  {
    WithoutNames(colls, c.name);
    NamedWithout(colls, c.name, other);
    NamedAppend(Without(colls, c.name), c, other);
    assert ViewOf(c) == View(0, map[]);
  }

  lemma CreateRefines(u: Setup, s: State, name: Key, other: Key)
    requires Inv(u, s)
    ensures var t := Create(u, s, name);
      Inv(u, t) && Sees(t.colls, other) == Effect(u.fill, CreateColl(name), other, Sees(s.colls, other))
  {
    CreateKeeps(u, s, name);
    CreatedColls(u, s, name);
    SeesCreated(s.colls, NewColl(name, NextPage(s.pool).0), other);
  }

  lemma PutRefines(u: Setup, s: State, i: nat, x: Item, other: Key)
    requires Inv(u, s) && i < |s.colls| && ValidItem(u.fill, x)
    ensures var t := PutIn(u, s, i, x);
      Inv(u, t) && Sees(t.colls, other) == Effect(u.fill, Put(s.colls[i].name, x), other, Sees(s.colls, other))
  {
    PutInKeeps(u, s, i, x);
    NamedOne(s.colls, i, PutIn(u, s, i, x).colls[i], other);
  }

  lemma RemoveRefines(u: Setup, s: State, i: nat, k: Key, other: Key)
    requires Inv(u, s) && i < |s.colls| && Removable(u, s.colls[i].tree, s.colls[i].height, k)
    ensures var t := RemoveIn(u, s, i, k);
      Inv(u, t) && Sees(t.colls, other) == Effect(u.fill, Remove(s.colls[i].name, k), other, Sees(s.colls, other))
  {
    RemoveInKeeps(u, s, i, k);
    NamedOne(s.colls, i, RemoveIn(u, s, i, k).colls[i], other);
  }

  lemma IdRefines(u: Setup, s: State, i: nat, other: Key)
    requires Inv(u, s) && i < |s.colls|
    ensures var t := IdIn(s, i).1;
      Inv(u, t) && Sees(t.colls, other) == Effect(u.fill, Id(s.colls[i].name), other, Sees(s.colls, other))
  {
    IdInKeeps(u, s, i);
    NamedOne(s.colls, i, Counted(s.colls[i]), other);
  }

  lemma DropRefines(u: Setup, s: State, name: Key, other: Key)
    requires Inv(u, s) && Removable(u, s.root, s.rootHeight, name)
    ensures var t := DropColl(u, s, name);
      Inv(u, t) && Sees(t.colls, other) == Effect(u.fill, DeleteColl(name), other, Sees(s.colls, other))
  {
    DropCollKeeps(u, s, name);
    NamedWithout(s.colls, name, other);
  }

  /** Every operation keeps the invariant and does to what is seen under any name what the specification says. */
  lemma OpRefines(u: Setup, s: State, op: Op, other: Key)
    requires Inv(u, s) && Allowed(u, s, op)
    ensures var t := Do(u, s, op); Inv(u, t) && Sees(t.colls, other) == Effect(u.fill, op, other, Sees(s.colls, other))
  {
    var i := At(s.colls, op.name);
    match op
    case CreateColl(name) => CreateRefines(u, s, name, other);
    case DeleteColl(name) => DropRefines(u, s, name, other);
    case Put(_, x) => if i != -1 && ValidItem(u.fill, x) { PutRefines(u, s, i, x, other); }
    case Remove(_, k) => if i != -1 { RemoveRefines(u, s, i, k, other); }
    case Id(_) => if i != -1 { IdRefines(u, s, i, other); }
  }

  // ---------------------------------------------------------------- flush and commit

  /** flushCollectionMetadata, meeting the collections in the given order; those that are clean, or gone, are skipped. */
  ghost function Flush(u: Setup, s: State, order: seq<Key>): (t: State)
    requires Inv(u, s)
    ensures Inv(u, t)
  {
    if order == [] then s else FlushNamed(u, Flush(u, s, order[..|order| - 1]), order[|order| - 1])
  }

  /** Only what is marked dirty is flushed: without any, nothing changes. */
  lemma {:induction false} FlushSkips(u: Setup, s: State, order: seq<Key>)
    requires Inv(u, s) && forall c :: c in s.colls && c.dirty ==> c.name !in order
    ensures Flush(u, s, order) == s
  {
    if order != [] {
      var n := |order| - 1;
      FlushSkips(u, s, order[..n]);
      var i := At(s.colls, order[n]);
      if i != -1 { assert s.colls[i] in s.colls && order[n] in order; }
    }
  }

  /** One turn of the loop. */
  ghost function FlushNamed(u: Setup, s: State, name: Key): (t: State)
    requires Inv(u, s)
    ensures Inv(u, t)
  {
    var i := At(s.colls, name);
    if i == -1 || !s.colls[i].dirty then s
    else
      MetadataFits(u, s, i);
      FlushOneKeeps(u, s, i);
      FlushOne(u, s, i)
  }

  lemma FlushNext(u: Setup, s: State, order: seq<Key>, name: Key)
    requires Inv(u, s)
    ensures Flush(u, s, order + [name]) == FlushNamed(u, Flush(u, s, order), name)
  {
    var r := order + [name];
    assert r[..|r| - 1] == order && r[|r| - 1] == name;
  }

  /** The collections after flushing the given names: only the marks change. */
  function Flushed(colls: seq<Coll>, names: seq<Key>): (r: seq<Coll>)
    ensures |r| == |colls|
  {
    seq(|colls|, i requires 0 <= i < |colls| => colls[i].(dirty := colls[i].dirty && colls[i].name !in names))
  }

  lemma {:induction false} FlushIs(u: Setup, s: State, order: seq<Key>)
    requires Inv(u, s)
    ensures Flush(u, s, order).colls == Flushed(s.colls, order)
  {
    if order == [] {
      assert Flushed(s.colls, []) == s.colls;
    } else {
      var n := |order| - 1;
      FlushIs(u, s, order[..n]);
      var t := Flush(u, s, order[..n]);
      var i := At(t.colls, order[n]);
      if i != -1 && t.colls[i].dirty {
        MetadataFits(u, t, i);
        FlushOneKeeps(u, t, i);
      }
      FlushedStep(s.colls, order, t.colls, i);
    }
  }

  lemma FlushedStep(colls: seq<Coll>, order: seq<Key>, r: seq<Coll>, i: int)
    requires order != [] && NamesApart(colls)
    requires r == Flushed(colls, order[..|order| - 1]) && i == At(r, order[|order| - 1])
    ensures Flushed(colls, order) == if i == -1 || !r[i].dirty then r else Clean(r, i)
  {
    var n := |order| - 1;
    forall k | 0 <= k < |colls| ensures colls[k].name in order <==> colls[k].name in order[..n] || colls[k].name == order[n] {
      assert order == order[..n] + [order[n]];
    }
    AtFinds(r, order[n]);
    forall k | 0 <= k < |colls| && k != i ensures colls[k].name != order[n] {
      assert r[k].name == colls[k].name;
      if r[k].name == order[n] { assert IsName(r, order[n]); }
    }
  }

  /** Every collection whose metadata is out of date is met. */
  ghost predicate Covers(order: seq<Key>, colls: seq<Coll>) {
    forall c :: c in colls && c.dirty ==> c.name in order
  }

  ghost predicate AllClean(colls: seq<Coll>) {
    forall c :: c in colls ==> !c.dirty
  }

  lemma FlushCleans(u: Setup, s: State, order: seq<Key>, name: Key)
    requires Inv(u, s) && Covers(order, s.colls)
    ensures var t := Flush(u, s, order); AllClean(t.colls) && Sees(t.colls, name) == Sees(s.colls, name)
  {
    var t := Flush(u, s, order);
    FlushIs(u, s, order);
    forall i | 0 <= i < |t.colls| ensures !t.colls[i].dirty && t.colls[i].name == s.colls[i].name { assert s.colls[i] in s.colls; }
    assert IsName(t.colls, name) <==> IsName(s.colls, name) by {
      if IsName(s.colls, name) {
        var k :| 0 <= k < |s.colls| && s.colls[k].name == name;
        assert t.colls[k].name == name;
      }
    }
    var j := At(s.colls, name);
    AtFinds(s.colls, name);
    AtFinds(t.colls, name);
    if j != -1 { AtUnique(t.colls, j); }
  }

  /** Whatever order the flush takes, the root collection ends up holding the same. */
  lemma FlushOrderIrrelevant(u: Setup, s: State, a: seq<Key>, b: seq<Key>)
    requires Inv(u, s) && Covers(a, s.colls) && Covers(b, s.colls)
    ensures Metadata(Flush(u, s, a)) == Metadata(Flush(u, s, b))
  {
    var x, y := Flush(u, s, a), Flush(u, s, b);
    FlushIs(u, s, a);
    FlushIs(u, s, b);
    forall i | 0 <= i < |s.colls| ensures x.colls[i] == y.colls[i] && !x.colls[i].dirty { assert s.colls[i] in s.colls; }
    assert x.colls == y.colls;
    forall name | name in Metadata(x) ensures name in Metadata(y) && Metadata(x)[name] == Metadata(y)[name] {
      var i :| 0 <= i < |x.colls| && x.colls[i].name == name;
      assert x.colls[i] in x.colls && y.colls[i] in y.colls;
      assert y.colls[i].name == name;
    }
  }

  /** Publishing: the pages to be released are free from now on. */
  function Publish(s: State): State {
    s.(pool := ReleaseAll(s.pool, s.toDelete), toDelete := [])
  }

  lemma CountTwo(pages: seq<PageNum>, i: nat, j: nat)
    requires i < j < |pages| && pages[i] == pages[j]
    ensures Count(pages, pages[i]) >= 2
  {
    assert pages == pages[..j] + pages[j..];
    assert pages[..j][i] == pages[i] && pages[j..][0] == pages[i];
    CountAppend(pages[..j], pages[j..], pages[i]);
    assert pages[i] in multiset(pages[..j]) && pages[i] in multiset(pages[j..]);
  }

  lemma PublishKeeps(u: Setup, s: State)
    requires Inv(u, s)
    ensures Inv(u, Publish(s))
  {
    var t := Publish(s);
    var m := |s.pool.released|;
    forall p ensures p in s.toDelete <==> Count(s.toDelete, p) > 0 {}
    forall p ensures Owners(u, s, p) == One(InUse(s.pool, p)) && Owners(u, t, p) + Count(s.toDelete, p) == Owners(u, s, p) {}
    forall p ensures Owners(u, t, p) == One(InUse(t.pool, p)) {}
    forall i | 0 <= i < |s.toDelete| ensures InUse(s.pool, s.toDelete[i]) && s.toDelete[i] > 0 {
      assert Count(s.toDelete, s.toDelete[i]) > 0;
    }
    forall i, j | 0 <= i < j < |s.toDelete| ensures s.toDelete[i] != s.toDelete[j] {
      if s.toDelete[i] == s.toDelete[j] { CountTwo(s.toDelete, i, j); }
    }
  }
}
