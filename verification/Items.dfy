/** Key-value items, and sorted sequences of them read as maps. */
module Items {
  import opened Seqs
  import opened Keys

  datatype Item = Item(key: Key, value: seq<Byte>)

  predicate Sorted(s: seq<Item>) {
    forall i, j :: 0 <= i < j < |s| ==> Less(s[i].key, s[j].key)
  }

  /** The number of leading items whose key is below k: where k is, or would go. */
  function Pos(s: seq<Item>, k: Key): (i: nat)
    ensures i <= |s|
    ensures forall j :: 0 <= j < i ==> Less(s[j].key, k)
    ensures i < |s| ==> !Less(s[i].key, k)
  {
    if s == [] || !Less(s[0].key, k) then 0 else 1 + Pos(s[1..], k)
  }

  predicate HasAt(s: seq<Item>, k: Key, i: int) {
    0 <= i < |s| && s[i].key == k
  }

  predicate Has(s: seq<Item>, k: Key) {
    HasAt(s, k, Pos(s, k))
  }

  /** Replaces the item with x's key, or puts x where it belongs. */
  function Upsert(s: seq<Item>, x: Item): seq<Item> {
    var i := Pos(s, x.key);
    if HasAt(s, x.key, i) then s[i := x] else s[..i] + [x] + s[i..]
  }

  function Delete(s: seq<Item>, k: Key): seq<Item> {
    var i := Pos(s, k);
    if HasAt(s, k, i) then s[..i] + s[i + 1..] else s
  }

  function KeysOf(s: seq<Item>): set<Key> {
    set x | x in s :: x.key
  }

  /** The map that looking keys up in s answers from. EveryItemMapped: nothing in a sorted s is missing from it. */
  function ToMap(s: seq<Item>): map<Key, seq<Byte>> {
    map k | k in KeysOf(s) && Has(s, k) :: s[Pos(s, k)].value
  }

  ghost predicate AllBelow(s: seq<Item>, k: Key) {
    forall i :: 0 <= i < |s| ==> Less(s[i].key, k)
  }

  ghost predicate AllAbove(k: Key, s: seq<Item>) {
    forall i :: 0 <= i < |s| ==> Less(k, s[i].key)
  }

  /** In a sorted sequence only one position splits the keys below k from the others. */
  lemma PosUnique(s: seq<Item>, k: Key, i: nat)
    requires i <= |s|
    requires forall j :: 0 <= j < i ==> Less(s[j].key, k)
    requires i < |s| ==> !Less(s[i].key, k)
    ensures Pos(s, k) == i
  {
  }

  lemma PosAbove(s: seq<Item>, k: Key)
    requires Sorted(s)
    ensures forall j :: Pos(s, k) <= j < |s| && !HasAt(s, k, j) ==> Less(k, s[j].key)
    ensures !Has(s, k) ==> AllAbove(k, s[Pos(s, k)..])
    ensures Has(s, k) ==> AllAbove(k, s[Pos(s, k) + 1..])
  {
    StrictTotalOrder();
  }

  lemma HasIsKey(s: seq<Item>, k: Key)
    ensures Has(s, k) <==> k in ToMap(s)
    ensures Has(s, k) ==> ToMap(s)[k] == s[Pos(s, k)].value
  {
    if Has(s, k) {
      assert s[Pos(s, k)] in s;
    }
  }

  /** An item of a sorted sequence is where its key is looked for. */
  lemma PosOfItem(s: seq<Item>, i: nat)
    requires Sorted(s) && i < |s|
    ensures Pos(s, s[i].key) == i && Has(s, s[i].key)
  {
    LessIrreflexive(s[i].key);
    PosUnique(s, s[i].key, i);
  }

  /** The map of a sorted sequence holds exactly its items. */
  lemma EveryItemMapped(s: seq<Item>, i: nat)
    requires Sorted(s) && i < |s|
    ensures Pos(s, s[i].key) == i
    ensures s[i].key in ToMap(s) && ToMap(s)[s[i].key] == s[i].value
  {
    PosOfItem(s, i);
    HasIsKey(s, s[i].key);
  }

  lemma UpsertSorted(s: seq<Item>, x: Item)
    requires Sorted(s)
    ensures Sorted(Upsert(s, x))
  {
    StrictTotalOrder();
    PosAbove(s, x.key);
  }

  lemma DeleteSorted(s: seq<Item>, k: Key)
    requires Sorted(s)
    ensures Sorted(Delete(s, k))
  {
  }

  lemma UpsertElements(s: seq<Item>, x: Item)
    ensures var i, u := Pos(s, x.key), Upsert(s, x);
      && |u| == (if Has(s, x.key) then |s| else |s| + 1)
      && u[i] == x
      && (forall j :: 0 <= j < i ==> u[j] == s[j])
      && (forall j :: i < j < |u| ==> u[j] == s[if Has(s, x.key) then j else j - 1])
  {
  }

  /** Which keys are in s after an upsert, and with what item. */
  lemma UpsertHas(s: seq<Item>, x: Item, k: Key)
    requires Sorted(s)
    ensures Has(Upsert(s, x), k) <==> k == x.key || Has(s, k)
    ensures Has(Upsert(s, x), k) ==> Upsert(s, x)[Pos(Upsert(s, x), k)] == if k == x.key then x else s[Pos(s, k)]
  {
    var u, i := Upsert(s, x), Pos(s, x.key);
    UpsertSorted(s, x);
    UpsertElements(s, x);
    if k == x.key { PosOfItem(u, i); }
    if k != x.key && Has(s, k) {
      var j := Pos(s, k);
      var j' := if Has(s, x.key) || j < i then j else j + 1;
      assert u[j'] == s[j];
      PosOfItem(u, j');
    }
    if k != x.key && Has(u, k) {
      var j := Pos(u, k);
      var j' := if Has(s, x.key) || j < i then j else j - 1;
      assert u[j] == s[j'];
      PosOfItem(s, j');
    }
  }

  lemma DeleteElements(s: seq<Item>, k: Key)
    ensures var i, d := Pos(s, k), Delete(s, k);
      && |d| == (if Has(s, k) then |s| - 1 else |s|)
      && (forall j :: 0 <= j < |d| ==> d[j] == s[if !Has(s, k) || j < i then j else j + 1])
  {
  }

  /** What is left after a deletion was there before. */
  lemma DeleteOnly(s: seq<Item>, k: Key, q: Key)
    requires Sorted(s) && Has(Delete(s, k), q)
    ensures q != k && Has(s, q) && Delete(s, k)[Pos(Delete(s, k), q)] == s[Pos(s, q)]
  {
    var d, i := Delete(s, k), Pos(s, k);
    DeleteElements(s, k);
    var j := Pos(d, q);
    var j' := if !Has(s, k) || j < i then j else j + 1;
    assert d[j] == s[j'];
    PosOfItem(s, j');
  }

  /** What had another key is left after a deletion. */
  lemma DeleteKeeps(s: seq<Item>, k: Key, q: Key)
    requires Sorted(s) && q != k && Has(s, q)
    ensures Has(Delete(s, k), q)
  {
    var d, i := Delete(s, k), Pos(s, k);
    DeleteSorted(s, k);
    DeleteElements(s, k);
    var j := Pos(s, q);
    var j' := if !Has(s, k) || j < i then j else j - 1;
    assert d[j'] == s[j];
    PosOfItem(d, j');
  }

  /** Which keys are in s after a deletion, and with what item. */
  lemma DeleteHas(s: seq<Item>, k: Key, q: Key)
    requires Sorted(s)
    ensures Has(Delete(s, k), q) <==> q != k && Has(s, q)
    ensures Has(Delete(s, k), q) ==> Delete(s, k)[Pos(Delete(s, k), q)] == s[Pos(s, q)]
  {
    if Has(Delete(s, k), q) { DeleteOnly(s, k, q); }
    if q != k && Has(s, q) { DeleteKeeps(s, k, q); }
  }

  /** Upsert is map update. */
  lemma UpsertIsUpdate(s: seq<Item>, x: Item)
    requires Sorted(s)
    ensures Sorted(Upsert(s, x))
    ensures ToMap(Upsert(s, x)) == ToMap(s)[x.key := x.value]
  {
    UpsertSorted(s, x);
    forall k: Key
      ensures k in ToMap(Upsert(s, x)) <==> k in ToMap(s)[x.key := x.value]
      ensures k in ToMap(Upsert(s, x)) ==> ToMap(Upsert(s, x))[k] == ToMap(s)[x.key := x.value][k]
    {
      UpsertHas(s, x, k); HasIsKey(s, k); HasIsKey(Upsert(s, x), k);
    }
  }

  /** Delete is map removal. */
  lemma DeleteIsRemoval(s: seq<Item>, k: Key)
    requires Sorted(s)
    ensures Sorted(Delete(s, k))
    ensures ToMap(Delete(s, k)) == ToMap(s) - {k}
  {
    DeleteSorted(s, k);
    forall q: Key
      ensures q in ToMap(Delete(s, k)) <==> q in ToMap(s) - {k}
      ensures q in ToMap(Delete(s, k)) ==> ToMap(Delete(s, k))[q] == ToMap(s)[q]
    {
      DeleteHas(s, k, q); HasIsKey(s, q); HasIsKey(Delete(s, k), q);
    }
  }

  lemma PosInContext(a: seq<Item>, b: seq<Item>, c: seq<Item>, k: Key)
    requires AllBelow(a, k) && AllAbove(k, c)
    ensures Pos(a + b + c, k) == |a| + Pos(b, k)
    ensures Has(a + b + c, k) <==> Has(b, k)
  {
    StrictTotalOrder();
    var s := a + b + c;
    var i := Pos(b, k);
    forall j | 0 <= j < |a| + i ensures Less(s[j].key, k) {
      if j >= |a| { assert s[j] == b[j - |a|]; }
    }
    assert |a| + i < |s| ==> s[|a| + i] == if i < |b| then b[i] else c[0];
    PosUnique(s, k, |a| + i);
  }

  lemma ItemInContext(a: seq<Item>, b: seq<Item>, c: seq<Item>, k: Key)
    requires AllBelow(a, k) && AllAbove(k, c) && Has(b, k)
    ensures Has(a + b + c, k) && (a + b + c)[Pos(a + b + c, k)] == b[Pos(b, k)]
  {
    PosInContext(a, b, c, k);
  }

  /** A key that belongs in the middle part is deleted there. */
  lemma DeleteInContext(a: seq<Item>, b: seq<Item>, c: seq<Item>, k: Key)
    requires AllBelow(a, k) && AllAbove(k, c)
    ensures Delete(a + b + c, k) == a + Delete(b, k) + c
  {
    PosInContext(a, b, c, k);
    DeleteInMiddle(a, b, c, k);
  }

  lemma DeleteInMiddle(a: seq<Item>, b: seq<Item>, c: seq<Item>, k: Key)
    requires Pos(a + b + c, k) == |a| + Pos(b, k) && (Has(a + b + c, k) <==> Has(b, k))
    ensures Delete(a + b + c, k) == a + Delete(b, k) + c
  {
    if Has(b, k) { TakeOutOfMiddle(a, b, c, Pos(b, k)); }
  }

  /** A key that belongs in the middle part is put there. */
  lemma UpsertInContext(a: seq<Item>, b: seq<Item>, c: seq<Item>, x: Item)
    requires AllBelow(a, x.key) && AllAbove(x.key, c)
    ensures Upsert(a + b + c, x) == a + Upsert(b, x) + c
  {
    PosInContext(a, b, c, x.key);
    var i := Pos(b, x.key);
    InMiddle(a, b, c, i);
    if Has(b, x.key) {
      UpdateInMiddle(a, b, c, i, x);
    } else {
      Inward(a, b[..i], [x], b[i..], c);
    }
  }

  lemma UpdateInMiddle<T>(a: seq<T>, b: seq<T>, c: seq<T>, i: nat, x: T)
    requires i < |b|
    ensures (a + b + c)[|a| + i := x] == a + b[i := x] + c
  {
  }

  lemma SortedParts(a: seq<Item>, b: seq<Item>)
    requires Sorted(a + b)
    ensures Sorted(a) && Sorted(b)
    ensures forall i, j :: 0 <= i < |a| && 0 <= j < |b| ==> Less(a[i].key, b[j].key)
  {
    var s := a + b;
    forall i, j | 0 <= i < j < |a| ensures Less(a[i].key, a[j].key) { assert s[i] == a[i] && s[j] == a[j]; }
    forall i, j | 0 <= i < j < |b| ensures Less(b[i].key, b[j].key) { assert s[|a| + i] == b[i] && s[|a| + j] == b[j]; }
    forall i, j | 0 <= i < |a| && 0 <= j < |b| ensures Less(a[i].key, b[j].key) { assert s[i] == a[i] && s[|a| + j] == b[j]; }
  }
}
