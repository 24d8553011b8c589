/**
 * What Remove leaves in each node on its path (collection.go), from the items of
 * the tree before the call: the nodes of the path and their direct siblings. So
 * it can be told beforehand when a root is dropped for the wrong child.
 */
module RunsLow {
  import opened Seqs
  import opened Maybe
  import opened Keys
  import opened Items
  import opened Fill
  import opened Trees
  import opened TreeOps
  import opened TreeSearch
  import opened TreeRemove
  import opened RemoveProofs

  /** The items of node t, which are own before, once its child i is left with c and rebalanced if it has run low. */
  function AfterChild(f: Fill, t: Tree, own: seq<Item>, i: nat, c: seq<Item>): seq<Item>
    requires |t.kids| == |own| + 1 && i < |t.kids| && own != []
  {
    if !Under(f, c) then own
    else if i != 0 && CanSpare(f, t.kids[i - 1].items) then own[i - 1 := t.kids[i - 1].items[|t.kids[i - 1].items| - 1]]
    else if i != |own| && CanSpare(f, t.kids[i + 1].items) then own[i := t.kids[i + 1].items[0]]
    else own[..if i == 0 then 0 else i - 1] + own[if i == 0 then 1 else i..]
  }

  /** The items t is left with when the leaf at d loses its last item. */
  function WithoutPredecessor(f: Fill, t: Tree, h: nat, d: Path): seq<Item>
    requires Shape(t, h) && ValidPath(t, d) && Full(t) && t.items != []
    decreases h
  {
    if d == [] then t.items[..|t.items| - 1]
    else AfterChild(f, t, t.items, d[0], WithoutPredecessor(f, t.kids[d[0]], h - 1, d[1..]))
  }

  /** The items t is left with when k is removed below it or in it; None where the code indexes out of range. */
  function LeftWith(mode: Mode, f: Fill, t: Tree, h: nat, k: Key): Option<seq<Item>>
    requires Shape(t, h) && WellFilled(t) && Has(Sub(t, SearchPath(t, h, k)).items, k)
    decreases h
  {
    var i := Pos(t.items, k);
    if t.kids == [] then Some(Delete(t.items, k))
    else if HasAt(t.items, k, i) then
      match Descend(mode, |t.kids|, t.kids[i], h - 1)
      case None => None
      case Some(d) =>
        SubNonEmpty(t.kids[i], d);
        var x := Sub(t.kids[i], d).items;
        Some(AfterChild(f, t, t.items[i := x[|x| - 1]], i, WithoutPredecessor(f, t.kids[i], h - 1, d)))
    else
      match LeftWith(mode, f, t.kids[i], h - 1, k)
      case None => None
      case Some(c) => Some(AfterChild(f, t, t.items, i, c))
  }

  predicate RunsLow(mode: Mode, f: Fill, t: Tree, h: nat, k: Key)
    requires Shape(t, h) && WellFilled(t) && Has(Sub(t, SearchPath(t, h, k)).items, k)
  {
    var s := LeftWith(mode, f, t, h, k); s.Some? && Under(f, s.value)
  }

  /** One turn of the upward loop. */
  lemma FixItems(f: Fill, t: Tree, h: nat, path: Path)
    requires Shape(t, h) && ValidPath(t, path) && NearFull(t, path) && path != []
    ensures Fix(f, t, h, path).tree.items == AfterChild(f, t, t.items, path[0], Fix(f, t.kids[path[0]], h - 1, path[1..]).tree.items)
  {
  }

  /** Only the direct siblings of child i matter. */
  lemma SameSiblings(f: Fill, t: Tree, r: Tree, own: seq<Item>, i: nat, c: seq<Item>)
    requires |t.kids| == |own| + 1 && i < |t.kids| && own != []
    requires |r.kids| == |t.kids| && forall j :: 0 <= j < |t.kids| && j != i ==> r.kids[j] == t.kids[j]
    ensures AfterChild(f, r, own, i, c) == AfterChild(f, t, own, i, c)
  {
  }

  /** r is t with other items, and another child i that the path to be rebalanced goes through. */
  ghost predicate Beside(t: Tree, r: Tree, h: nat, i: nat, d: Path) {
    && Shape(r, h) && ValidPath(r, [i] + d) && NearFull(r, [i] + d) && i < |t.kids|
    && |r.kids| == |t.kids| == |r.items| + 1 && r.items != [] && forall j :: 0 <= j < |t.kids| && j != i ==> r.kids[j] == t.kids[j]
  }

  /** One turn of the upward loop over such a tree. */
  lemma FixedBeside(f: Fill, t: Tree, r: Tree, h: nat, i: nat, d: Path)
    requires Beside(t, r, h, i, d)
    ensures h > 0 && Shape(r.kids[i], h - 1) && ValidPath(r.kids[i], d) && NearFull(r.kids[i], d)
    ensures Fix(f, r, h, [i] + d).tree.items == AfterChild(f, t, r.items, i, Fix(f, r.kids[i], h - 1, d).tree.items)
  {
    AppendTail([i], d);
    FixItems(f, r, h, [i] + d);
    SameSiblings(f, t, r, r.items, i, Fix(f, r.kids[i], h - 1, d).tree.items);
  }

  lemma {:induction false} PredecessorTaken(f: Fill, t: Tree, h: nat, d: Path)
    requires Shape(t, h) && ValidPath(t, d) && Full(t) && t.items != [] && Sub(t, d).kids == [] && Sub(t, d).items != []
    ensures var r := Plug(t, d, WithoutLast(Sub(t, d)));
      && Shape(r, h) && ValidPath(r, d) && NearFull(r, d)
      && Fix(f, r, h, d).tree.items == WithoutPredecessor(f, t, h, d)
    decreases h
  {
    var r := Plug(t, d, WithoutLast(Sub(t, d)));
    if d != [] {
      var i := d[0];
      PredecessorTaken(f, t.kids[i], h - 1, d[1..]);
      PluggedBeside(t, h, d, WithoutLast(Sub(t, d)));
      FixedBeside(f, t, r, h, i, d[1..]);
    }
  }

  lemma PluggedBeside(t: Tree, h: nat, d: Path, s: Tree)
    requires Shape(t, h) && ValidPath(t, d) && Full(t) && t.items != [] && d != []
    requires var c := Plug(t.kids[d[0]], d[1..], s); Shape(c, h - 1) && ValidPath(c, d[1..]) && NearFull(c, d[1..])
    ensures Plug(t, d, s).kids[d[0]] == Plug(t.kids[d[0]], d[1..], s) && d == [d[0]] + d[1..]
    ensures Beside(t, Plug(t, d, s), h, d[0], d[1..])
  {
    assert d == [d[0]] + d[1..];
  }

  /** Below the node where the search stops or turns, Remove works as on the child alone. */
  lemma RemovalBelow(mode: Mode, t: Tree, h: nat, k: Key)
    requires Shape(t, h) && WellFilled(t) && Has(Sub(t, SearchPath(t, h, k)).items, k)
    requires t.kids != [] && !HasAt(t.items, k, Pos(t.items, k))
    ensures var i, r := Pos(t.items, k), Removal(mode, t, h, k);
      && Has(Sub(t.kids[i], SearchPath(t.kids[i], h - 1, k)).items, k)
      && var s := Removal(mode, t.kids[i], h - 1, k);
        && r == (if s.None? then None else Some((t.(kids := t.kids[i := s.value.0]), [i] + s.value.1)))
        && (s.Some? ==> Beside(t, r.value.0, h, i, s.value.1))
  {
    var i := Pos(t.items, k);
    var c := t.kids[i];
    var p := SearchPath(c, h - 1, k);
    AppendTail([i], p);
    Ends(p);
    var n := Sub(c, p);
    PathLength(c, h - 1, p);
    var j := Pos(n.items, k);
    if n.kids != [] {
      SubFull(c, p);
      var d := Descend(mode, |n.kids|, n.kids[j], h - 1 - |p| - 1);
      if d.Some? { Assoc([i], p, [j] + d.value); }
    }
  }

  lemma RemovalHere(mode: Mode, t: Tree, h: nat, k: Key)
    requires Shape(t, h) && WellFilled(t) && t.kids != [] && HasAt(t.items, k, Pos(t.items, k))
    ensures var i, r := Pos(t.items, k), Removal(mode, t, h, k);
      var d := Descend(mode, |t.kids|, t.kids[i], h - 1);
      if d.None? then r.None?
      else
        && ValidPath(t.kids[i], d.value) && Sub(t.kids[i], d.value).items != []
        && r == Some((TakenOut(t, i, d.value), [i] + d.value)) && Beside(t, TakenOut(t, i, d.value), h, i, d.value)
  {
    var i := Pos(t.items, k);
    var d := Descend(mode, |t.kids|, t.kids[i], h - 1);
    if d.Some? {
      SubNonEmpty(t.kids[i], d.value);
      Ends([i] + d.value);
    }
  }

  /** The items after the upward loop are those told beforehand. */
  ghost predicate ToldBefore(mode: Mode, f: Fill, t: Tree, h: nat, k: Key)
    requires Shape(t, h) && WellFilled(t) && Has(Sub(t, SearchPath(t, h, k)).items, k)
  {
    var r, s := Removal(mode, t, h, k), LeftWith(mode, f, t, h, k);
    (r.Some? <==> s.Some?) && (r.Some? ==> Fix(f, r.value.0, h, r.value.1).tree.items == s.value)
  }

  lemma {:induction false} LeftWithIs(mode: Mode, f: Fill, t: Tree, h: nat, k: Key)
    requires Shape(t, h) && WellFilled(t) && Has(Sub(t, SearchPath(t, h, k)).items, k)
    ensures ToldBefore(mode, f, t, h, k)
    decreases h
  {
    var i := Pos(t.items, k);
    if t.kids != [] && HasAt(t.items, k, i) {
      LeftWithHere(mode, f, t, h, k);
    } else if t.kids != [] {
      RemovalBelow(mode, t, h, k);
      LeftWithIs(mode, f, t.kids[i], h - 1, k);
      LeftWithBelow(mode, f, t, h, k);
    }
  }

  /** The same at a node the search goes through. */
  lemma LeftWithBelow(mode: Mode, f: Fill, t: Tree, h: nat, k: Key)
    requires Shape(t, h) && WellFilled(t) && t.kids != [] && !HasAt(t.items, k, Pos(t.items, k))
    requires Has(Sub(t, SearchPath(t, h, k)).items, k)
    requires var c := t.kids[Pos(t.items, k)]; Has(Sub(c, SearchPath(c, h - 1, k)).items, k) && ToldBefore(mode, f, c, h - 1, k)
    ensures ToldBefore(mode, f, t, h, k)
  {
    var i := Pos(t.items, k);
    RemovalBelow(mode, t, h, k);
    var s := Removal(mode, t.kids[i], h - 1, k);
    if s.Some? {
      var r := t.(kids := t.kids[i := s.value.0]);
      FixedBeside(f, t, r, h, i, s.value.1);
    }
  }

  /** The same at the node that holds the key, over its predecessor. */
  lemma LeftWithHere(mode: Mode, f: Fill, t: Tree, h: nat, k: Key)
    requires Shape(t, h) && WellFilled(t) && t.kids != [] && HasAt(t.items, k, Pos(t.items, k))
    ensures ToldBefore(mode, f, t, h, k)
  {
    var i := Pos(t.items, k);
    RemovalHere(mode, t, h, k);
    var d := Descend(mode, |t.kids|, t.kids[i], h - 1);
    if d.Some? {
      PredecessorTaken(f, t.kids[i], h - 1, d.value);
      var r := TakenOut(t, i, d.value);
      FixedBeside(f, t, r, h, i, d.value);
    }
  }

  /**
   * The root is dropped for the wrong child exactly if it has one item, k is
   * below it on the right, its left child cannot spare an element and its right
   * child will run low: all of it said of the tree before the call.
   */
  lemma DropsLeftChildExact(f: Fill, t: Tree, h: nat, k: Key)
    requires Shape(t, h) && WellFilled(t)
    ensures DropsLeftChild(AsWritten, f, t, h, k) <==>
      && |t.items| == 1 && |t.kids| == 2 && Less(t.items[0].key, k) && !CanSpare(f, t.kids[0].items)
      && Has(Sub(t.kids[1], SearchPath(t.kids[1], h - 1, k)).items, k) && RunsLow(AsWritten, f, t.kids[1], h - 1, k)
  {
    if Has(Sub(t, SearchPath(t, h, k)).items, k) && t.kids != [] {
      if HasAt(t.items, k, Pos(t.items, k)) {
        if DropsLeftChild(AsWritten, f, t, h, k) { DropsLeftChildNeeds(AsWritten, f, t, h, k); }
        LessIrreflexive(k);
      } else {
        RemovalBelow(AsWritten, t, h, k);
        LeftWithIs(AsWritten, f, t.kids[Pos(t.items, k)], h - 1, k);
      }
    }
  }
}
