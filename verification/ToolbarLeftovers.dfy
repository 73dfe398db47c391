/** What becomes of the children that the requested ids do not take, for any request whatever. */
module ToolbarLeftovers {
  import opened ToolbarModel
  import opened ToolbarConservation
  import opened ToolbarSetGet

  /** The element was asked for, by what it shows as or by its id. */
  predicate AskedFor(e: Element, ids: seq<string>) {
    IdFromNode(e) in ids || e.id in ids
  }

  /** Half-way: old children are in place or behind, and as they were if they are behind; what is in
      place was asked for; and the palette has gained nothing. */
  ghost predicate Waiting(l0: Layout, p: Progress, ids: seq<string>) {
    var children, n := p.layout.children, p.nodeidx;
    && n <= |children|
    && (forall i :: n <= i < |children| ==> children[i] in l0.children)
    && (forall e :: e in l0.children ==> e in children[n..] || InPlace(p, e.key))
    && (forall i :: 0 <= i < n ==> AskedFor(children[i], ids))
    && (forall e :: e in Palette(p.layout) ==> e in Palette(l0))
  }

  ghost predicate InPlace(p: Progress, key: nat) {
    exists i :: 0 <= i < p.nodeidx && i < |p.layout.children| && p.layout.children[i].key == key
  }

  lemma PlacedWaits(l0: Layout, p: Progress, ids: seq<string>, id: string, node: Element)
    requires Waiting(l0, p, ids) && p.added == Ids(p.layout.children[..p.nodeidx]) && NotInPlace(p, node)
    requires IdFromNode(node) == id || node.id == id
    ensures Waiting(l0, Placed(p, node), ids + [id])
  {
    hide Ids, IdFromNode, Without, WithoutEach;
    var children, n, p' := p.layout.children, p.nodeidx, Placed(p, node);
    var children' := p'.layout.children;
    PrefixKeeps(p, node);
    WithoutTwice(children[n..], node.key);
    WithoutTwice(Palette(p.layout), node.key);
    assert children'[n] == node && children'[n + 1..] == Without(children[n..], node.key);
    assert forall i :: 0 <= i < n ==> children'[i] == children[i];
    forall i | n + 1 <= i < |children'| ensures children'[i] in l0.children {
      assert children'[i] == children'[n + 1..][i - n - 1] && children'[i] in children[n..];
    }
    forall e | e in l0.children ensures e in children'[n + 1..] || InPlace(p', e.key) {
      StillInPlace(p, p', e.key);
    }
    PaletteLoses(p.layout, n, node);
  }

  lemma StillInPlace(p: Progress, p': Progress, key: nat)
    requires p.nodeidx <= p'.nodeidx && p.nodeidx <= |p.layout.children| && p.nodeidx <= |p'.layout.children|
    requires forall i :: 0 <= i < p.nodeidx ==> p'.layout.children[i] == p.layout.children[i]
    ensures InPlace(p, key) ==> InPlace(p', key)
  {
    if InPlace(p, key) {
      var i :| 0 <= i < p.nodeidx && i < |p.layout.children| && p.layout.children[i].key == key;
      assert p'.layout.children[i].key == key;
    }
  }

  lemma PaletteLoses(l: Layout, at: nat, node: Element)
    ensures forall e :: e in Palette(Inserted(l, at, node)) ==> e in Palette(l)
  {
    hide Without, WithoutEach;
    WithoutTwice(Palette(l), node.key);
  }

  /** Nothing has moved. */
  lemma SameWaits(l0: Layout, p: Progress, p': Progress, ids: seq<string>, ids': seq<string>)
    requires Waiting(l0, p, ids) && p'.nodeidx == p.nodeidx && forall id :: id in ids ==> id in ids'
    requires p'.layout.children == p.layout.children && p'.layout.toolbox == p.layout.toolbox
    ensures Waiting(l0, p', ids')
  {
    hide IdFromNode;
    forall e | e in l0.children ensures e in p'.layout.children[p'.nodeidx..] || InPlace(p', e.key) {
      StillInPlace(p, p', e.key);
    }
  }

  lemma AdoptedWaits(l0: Layout, p: Progress, ids: seq<string>, id: string, item: Element, supply: Supply)
    requires Kempt(l0, p, supply) && Waiting(l0, p, ids) && Bare(item) in All(p.layout) && item.id == id
    ensures Waiting(l0, Adopted(p, Some(item)), ids + [id])
  {
    hide Kempt, Placed, All, Waiting, Ids;
    KemptChildren(l0, p, supply);
    if item.id !in p.added {
      NotAddedNotInPlace(l0, p, item, supply);
      PlacedWaits(l0, p, ids, id, item.(removable := true));
    } else {
      SameWaits(l0, p, p, ids, ids + [id]);
    }
  }

  lemma StepWaits(l0: Layout, p: Progress, items: map<string, Element>, ids: seq<string>, id: string, supply: Supply)
    requires Kempt(l0, p, supply) && Waiting(l0, p, ids) && Cached(items, l0)
    ensures Waiting(l0, Place(p, items, id, supply), ids + [id])
  {
    hide Kempt, All, Bag, Placed, ToolbarItem, NewItem, Waiting, Ids, IdFromNode, IsSpecial;
    KemptChildren(l0, p, supply);
    KemptIsAll(l0, p, supply);
    var children := p.layout.children;
    var i := FirstMatch(children, p.nodeidx, id);
    if i < |children| {
      if i == p.nodeidx {
        NextWaits(l0, p, ids, id);
      } else {
        ChildIsPlaceable(p, i);
        PlacedWaits(l0, p, ids, id, children[i]);
      }
    } else if id in items {
      InSum(All(l0), Bag(p.made), Bare(items[id]));
      AdoptedWaits(l0, p, ids, id, items[id], supply);
    } else if IsSpecial(id) {
      SpecialWaits(l0, p, ids, id, supply);
    } else {
      ToolbarItemExists(p.layout, id);
      if ToolbarItem(p.layout, id).Some? {
        AdoptedWaits(l0, p, ids, id, ToolbarItem(p.layout, id).value, supply);
      } else {
        SameWaits(l0, p, p, ids, ids + [id]);
      }
    }
  }

  lemma KemptIsAll(l0: Layout, p: Progress, supply: Supply)
    requires Kempt(l0, p, supply)
    ensures All(p.layout) == All(l0) + Bag(p.made)
  {
  }

  /** The next child is the one asked for. */
  lemma NextWaits(l0: Layout, p: Progress, ids: seq<string>, id: string)
    requires Waiting(l0, p, ids) && p.nodeidx < |p.layout.children| && IdFromNode(p.layout.children[p.nodeidx]) == id
    ensures Waiting(l0, p.(nodeidx := p.nodeidx + 1, added := p.added + {p.layout.children[p.nodeidx].id}), ids + [id])
  {
    hide IdFromNode;
    var children, n := p.layout.children, p.nodeidx;
    var p' := p.(nodeidx := n + 1, added := p.added + {children[n].id});
    assert children[n..] == [children[n]] + children[n + 1..];
    forall e | e in l0.children ensures e in children[n + 1..] || InPlace(p', e.key) {
      StillInPlace(p, p', e.key);
      if e == children[n] {
        assert p'.layout.children[n].key == e.key;
      }
    }
  }

  lemma SpecialWaits(l0: Layout, p: Progress, ids: seq<string>, id: string, supply: Supply)
    requires Kempt(l0, p, supply) && Waiting(l0, p, ids) && IsSpecial(id)
    ensures var item := NewItem(id, supply(p.layout.count + 1));
            var p1 := p.(layout := p.layout.(count := p.layout.count + 1), made := p.made + [item]);
            Waiting(l0, Adopted(p1, Some(item)), ids + [id])
  {
    hide Kempt, All, Bag, Placed, NewItem, Waiting, Ids, IdFromNode, IsSpecial;
    var item := NewItem(id, supply(p.layout.count + 1));
    var p1 := p.(layout := p.layout.(count := p.layout.count + 1), made := p.made + [item]);
    NewItemShows(id, supply(p.layout.count + 1));
    ShowsAlike(item);
    KemptChildren(l0, p, supply);
    NewItemKeeps(l0, p, id, supply);
    NewItemNotInPlace(l0, p, id, supply);
    SameWaits(l0, p, p1, ids, ids);
    PlacedWaits(l0, p1, ids, id, item.(removable := true));
  }

  lemma NewItemNotInPlace(l0: Layout, p: Progress, id: string, supply: Supply)
    requires Kempt(l0, p, supply)
    ensures NotInPlace(p, NewItem(id, supply(p.layout.count + 1)))
  {
    hide Bag, NewItem;
    NewestIsNew(p.layout, id, supply);
    NewIsNotAdded(p, NewItem(id, supply(p.layout.count + 1)));
  }

  lemma {:induction false} AllWait(l: Layout, ids: seq<string>, supply: Supply)
    requires Valid(l) && Fresh(supply, l)
    ensures Waiting(l, PlacedAll(l, ids, supply), ids)
    decreases ids
  {
    hide Place, Kempt, Cached, Valid, Fresh, PaletteItems, Waiting;
    StartKept(l, supply);
    if ids == [] {
      StartWaits(l);
    } else {
      var init, id := ids[..|ids| - 1], ids[|ids| - 1];
      assert ids == init + [id];
      AllWait(l, init, supply);
      PlaceAllKeeps(l, Start(l), PaletteItems(Palette(l)), init, supply);
      StepWaits(l, PlacedAll(l, init, supply), PaletteItems(Palette(l)), init, id, supply);
    }
  }

  lemma StartWaits(l: Layout)
    ensures Waiting(l, Start(l), [])
  {
    assert l.children[0..] == l.children;
  }

  // ---- The sweep ----

  lemma {:induction false} KeptAre(xs: seq<Element>)
    ensures forall e :: e in Kept(xs) <==> e in xs && !(e.removable && IdFromNode(e) != "")
  {
    hide IdFromNode;
    if xs != [] {
      KeptAre(xs[1..]);
      assert xs == [xs[0]] + xs[1..];
    }
  }

  lemma {:induction false} SweptAre(xs: seq<Element>)
    ensures forall e :: e in Swept(xs) <==> e in xs && e.removable && IdFromNode(e) != ""
  {
    hide IdFromNode;
    if xs != [] {
      SweptAre(xs[1..]);
      assert xs == [xs[0]] + xs[1..];
    }
  }

  /** The removable children that show an id, first child first. */
  function Removable(xs: seq<Element>): seq<Element> {
    if xs == [] then []
    else (if xs[0].removable && IdFromNode(xs[0]) != "" then [xs[0]] else []) + Removable(xs[1..])
  }

  /** They are swept last child first. */
  lemma {:induction false} SweptBackwards(xs: seq<Element>)
    ensures |Swept(xs)| == |Removable(xs)|
    ensures forall k :: 0 <= k < |Swept(xs)| ==> Swept(xs)[k] == Removable(xs)[|Removable(xs)| - 1 - k]
  {
    hide IdFromNode;
    if xs != [] {
      SweptBackwards(xs[1..]);
    }
  }

  // ---- The whole setter ----

  /** Fixed items, and children that show no id, are never taken off the toolbar. */
  lemma FixedStay(l: Layout, ids: seq<string>, supply: Supply, e: Element)
    requires Valid(l) && Fresh(supply, l)
    requires e in l.children && (!e.removable || IdFromNode(e) == "")
    ensures exists e' :: e' in Reconciled(l, ids, supply).children && e'.key == e.key
  {
    hide PlaceAll, IdFromNode, Kept, Swept;
    AllWait(l, ids, supply);
    var p := PlacedAll(l, ids, supply);
    var children, n := p.layout.children, p.nodeidx;
    KeptAre(children[n..]);
    assert Before(children, n) == children[..n] && From(children, n) == children[n..];
    if InPlace(p, e.key) {
      var i :| 0 <= i < n && i < |children| && children[i].key == e.key;
      assert children[..n][i] in Reconciled(l, ids, supply).children;
    } else {
      assert e in Reconciled(l, ids, supply).children;
    }
  }

  /** And of the others only those remain that were asked for. */
  lemma OthersWereAskedFor(l: Layout, ids: seq<string>, supply: Supply, e: Element)
    requires Valid(l) && Fresh(supply, l)
    requires e in Reconciled(l, ids, supply).children && e.removable && IdFromNode(e) != ""
    ensures IdFromNode(e) in ids || e.id in ids
  {
    hide PlaceAll, IdFromNode, Kept, Swept;
    AllWait(l, ids, supply);
    var p := PlacedAll(l, ids, supply);
    var children, n := p.layout.children, p.nodeidx;
    KeptAre(children[n..]);
    assert Before(children, n) == children[..n] && From(children, n) == children[n..];
    assert e in children[..n];
    var i :| 0 <= i < n && children[i] == e;
    assert AskedFor(children[i], ids);
  }

  ghost predicate WasRemovable(e: Element, children: seq<Element>) {
    e in children && e.removable && IdFromNode(e) != ""
  }

  /** What the palette gains were removable children that showed an id; it gains them at its end. */
  lemma PaletteGains(l: Layout, ids: seq<string>, supply: Supply)
    requires Valid(l) && Fresh(supply, l)
    ensures exists stayed, gained :: Palette(Reconciled(l, ids, supply)) == stayed + gained
                                     && (forall e :: e in stayed ==> e in Palette(l))
                                     && forall e :: e in gained ==> WasRemovable(e, l.children)
  {
    hide PlaceAll, IdFromNode, Kept, Swept;
    AllWait(l, ids, supply);
    var p := PlacedAll(l, ids, supply);
    var tail, stayed := From(p.layout.children, p.nodeidx), Palette(p.layout);
    SweptAre(tail);
    var gained := if p.layout.toolbox.Some? && p.layout.toolbox.value.palette.Some? then Swept(tail) else [];
    assert Palette(Reconciled(l, ids, supply)) == stayed + gained;
    forall e | e in gained ensures WasRemovable(e, l.children) {
      assert e in tail;
    }
  }
}
