/** What setting the current set of one toolbar takes from the other toolbars of the toolbox. */
module ToolbarOthers {
  import opened ToolbarModel
  import opened ToolbarConservation
  import opened ToolbarSetGet

  /** The element is asked for by its own id. */
  predicate Wanted(e: Element, ids: seq<string>) {
    IdFromNode(e) in ids && !IsSpecial(IdFromNode(e)) && IdFromNode(e) != ""
  }

  function Drop(xs: seq<Element>, ids: seq<string>): seq<Element> {
    if xs == [] then [] else (if Wanted(xs[0], ids) then [] else [xs[0]]) + Drop(xs[1..], ids)
  }

  function DropEach(xss: seq<seq<Element>>, ids: seq<string>): (r: seq<seq<Element>>)
    ensures |r| == |xss| && forall i :: 0 <= i < |r| ==> r[i] == Drop(xss[i], ids)
  {
    if xss == [] then [] else [Drop(xss[0], ids)] + DropEach(xss[1..], ids)
  }

  function OtherBars(l: Layout): seq<seq<Element>> {
    if l.toolbox.Some? then l.toolbox.value.others else []
  }

  lemma {:induction false} DropJoin(xs: seq<Element>, ys: seq<Element>, ids: seq<string>)
    ensures Drop(xs + ys, ids) == Drop(xs, ids) + Drop(ys, ids)
  {
    hide Wanted;
    if xs == [] {
      assert xs + ys == ys;
    } else {
      assert (xs + ys)[1..] == xs[1..] + ys;
      DropJoin(xs[1..], ys, ids);
    }
  }

  lemma {:induction false} DropMore(xs: seq<Element>, ids: seq<string>, id: string)
    ensures Drop(xs, ids + [id]) == Drop(Drop(xs, ids), [id])
  {
    hide IdFromNode, IsSpecial;
    if xs != [] {
      DropMore(xs[1..], ids, id);
      DropJoin(if Wanted(xs[0], ids) then [] else [xs[0]], Drop(xs[1..], ids), [id]);
    }
  }

  lemma {:induction false} DropEachMore(xss: seq<seq<Element>>, ids: seq<string>, id: string)
    ensures DropEach(xss, ids + [id]) == DropEach(DropEach(xss, ids), [id])
  {
    forall i | 0 <= i < |xss| ensures DropEach(xss, ids + [id])[i] == DropEach(DropEach(xss, ids), [id])[i] {
      DropMore(xss[i], ids, id);
    }
  }

  lemma {:induction false} DropNothing(xs: seq<Element>, ids: seq<string>)
    requires forall e :: e in xs ==> !Wanted(e, ids)
    ensures Drop(xs, ids) == xs
  {
    hide Wanted;
    if xs != [] {
      assert xs[0] in xs;
      DropNothing(xs[1..], ids);
    }
  }

  /** Taking one element away takes exactly what the id asks for. */
  lemma {:induction false} TakesOne(xs: seq<Element>, key: nat, id: string)
    requires forall e :: e in xs ==> (e.key == key <==> Wanted(e, [id]))
    ensures Without(xs, key) == Drop(xs, [id])
  {
    hide Wanted;
    if xs != [] {
      assert xs[0] in xs;
      TakesOne(xs[1..], key, id);
    }
  }

  lemma {:induction false} TakesFromEach(xss: seq<seq<Element>>, key: nat, id: string)
    requires forall e :: e in Flatten(xss) ==> (e.key == key <==> Wanted(e, [id]))
    ensures WithoutEach(xss, key) == DropEach(xss, [id])
  {
    hide Wanted, Without, Drop;
    if xss != [] {
      assert forall e :: e in xss[0] || e in Flatten(xss[1..]) ==> e in Flatten(xss);
      TakesOne(xss[0], key, id);
      TakesFromEach(xss[1..], key, id);
    }
  }

  lemma {:induction false} WithoutEachAbsent(xss: seq<seq<Element>>, key: nat)
    requires forall e :: e in Flatten(xss) ==> e.key != key
    ensures WithoutEach(xss, key) == xss
  {
    hide Without;
    if xss != [] {
      assert forall e :: e in xss[0] || e in Flatten(xss[1..]) ==> e in Flatten(xss);
      WithoutAbsent(xss[0], key);
      WithoutEachAbsent(xss[1..], key);
    }
  }

  /** No element is on this toolbar and on another. */
  lemma NotInBoth(l: Layout, i: nat, e: Element)
    requires Unique(All(l)) && i < |l.children| && e in Others(l)
    ensures l.children[i].key != e.key && (l.children[i].id == e.id ==> e.id == "")
    ensures Bare(e) in All(l)
  {
    hide Bag, Others;
    var x, y := Bare(l.children[i]), Bare(e);
    var j :| 0 <= j < |Others(l)| && Others(l)[j] == e;
    BagHas(l.children, i);
    BagHas(Others(l), j);
    assert x in All(l) && y in All(l);
    assert All(l)[x] <= 1;
    assert All(l)[x] == Bag(l.children)[x] + Bag(Palette(l))[x] + Bag(Others(l))[x];
  }

  /** The node that a step places, and that it is what the id asks for on the other toolbars. */
  ghost predicate Takes(p: Progress, p': Progress, key: nat, id: string) {
    && OtherBars(p'.layout) == WithoutEach(OtherBars(p.layout), key)
    && forall e :: e in Others(p.layout) ==> (e.key == key <==> Wanted(e, [id]))
  }

  lemma MatchTakes(l0: Layout, p: Progress, ids: seq<string>, id: string, items: map<string, Element>, supply: Supply)
    requires OnTrack(l0, p, ids, supply) && FirstMatch(p.layout.children, p.nodeidx, id) < |p.layout.children|
    ensures exists key :: Takes(p, Place(p, items, id, supply), key, id)
  {
    hide Kempt, Unmatched, Ids, All, Others, WithoutEach, Without, OnTrack, IdFromNode, IsSpecial;
    TrackKept(l0, p, ids, supply);
    KemptChildren(l0, p, supply);
    var i := FirstMatch(p.layout.children, p.nodeidx, id);
    var child := p.layout.children[i];
    forall e | e in Others(p.layout) ensures e.key != child.key && !Wanted(e, [id]) {
      NotInBoth(p.layout, i, e);
      if Wanted(e, [id]) {
        ShownId(e);
        ShownId(child);
      }
    }
    OthersAreFlat(p.layout);
    WithoutEachAbsent(OtherBars(p.layout), child.key);
    assert Takes(p, Place(p, items, id, supply), child.key, id);
  }

  lemma PlacedBars(p: Progress, node: Element)
    ensures OtherBars(Placed(p, node).layout) == WithoutEach(OtherBars(p.layout), node.key)
  {
  }

  lemma OthersAreFlat(l: Layout)
    ensures Others(l) == Flatten(OtherBars(l))
  {
  }

  lemma SpecialTakes(l0: Layout, p: Progress, ids: seq<string>, id: string, items: map<string, Element>, supply: Supply)
    requires OnTrack(l0, p, ids, supply) && NoSpecialIds(l0) && Cached(items, l0) && IsSpecial(id)
    requires FirstMatch(p.layout.children, p.nodeidx, id) >= |p.layout.children|
    ensures exists key :: Takes(p, Place(p, items, id, supply), key, id)
  {
    hide Kempt, Unmatched, Ids, All, Others, OtherBars, WithoutEach, Without, OnTrack, IdFromNode, IsSpecial, NewItem, Unique, Wanted, Placed, FirstMatch;
    TrackKept(l0, p, ids, supply);
    forall k | k in items ensures k != id {
      assert Bare(items[k]).id == k && Bare(items[k]) in All(l0);
    }
    var item := NewItem(id, supply(p.layout.count + 1));
    var l1 := p.layout.(count := p.layout.count + 1);
    var p1 := p.(layout := l1, made := p.made + [item]);
    NewItemKeeps(l0, p, id, supply);
    SameBars(p.layout, l1);
    PlacedBars(p1, item.(removable := true));
    assert Place(p, items, id, supply) == Placed(p1, item.(removable := true));
    forall e | e in Others(p.layout) ensures e.key != item.key && !Wanted(e, [id]) {
      OtherIsSomewhere(p.layout, e);
      KemptIsFresh(l0, p, supply);
      NewestIsNew(p.layout, id, supply);
      SpecialNotWanted(e, id);
      assert Bare(e).key == e.key;
    }
    assert Takes(p, Place(p, items, id, supply), item.key, id);
  }

  lemma SpecialNotWanted(e: Element, id: string)
    requires IsSpecial(id)
    ensures !Wanted(e, [id])
  {
  }

  lemma SameBars(l: Layout, l': Layout)
    requires l.toolbox == l'.toolbox
    ensures OtherBars(l) == OtherBars(l') && Others(l) == Others(l')
  {
  }

  lemma KemptIsFresh(l0: Layout, p: Progress, supply: Supply)
    requires Kempt(l0, p, supply)
    ensures Fresh(supply, p.layout) && All(p.layout) == All(l0) + Bag(p.made)
  {
  }

  lemma OtherIsSomewhere(l: Layout, e: Element)
    requires e in Others(l)
    ensures Bare(e) in All(l)
  {
    hide Bag, Others;
    var j :| 0 <= j < |Others(l)| && Others(l)[j] == e;
    BagHas(Others(l), j);
  }

  lemma AvailableTakes(l0: Layout, p: Progress, ids: seq<string>, id: string, items: map<string, Element>, supply: Supply)
    requires OnTrack(l0, p, ids, supply) && Cached(items, l0) && !IsSpecial(id) && Available(l0, id) && id !in ids
    requires FirstMatch(p.layout.children, p.nodeidx, id) >= |p.layout.children|
    ensures exists key :: Takes(p, Place(p, items, id, supply), key, id)
  {
    hide Kempt, Unmatched, Ids, IdFromNode, All, Bag, IsSpecial, OnTrack, ToolbarItem, FirstMatch, WithoutEach, Without, Others, OtherBars, Placed;
    TrackKept(l0, p, ids, supply);
    KemptChildren(l0, p, supply);
    KemptIsFresh(l0, p, supply);
    var x :| x in All(l0) && x.id == id && IdFromNode(x) == id;
    InSum(All(l0), Bag(p.made), x);
    NoChildHasId(l0, p, ids, id, x, supply);
    NotAmongIds(p.layout.children[..p.nodeidx], id);
    var node := FoundItem(l0, p, id, x, items);
    PlacedBars(p, node.(removable := true));
    assert Place(p, items, id, supply) == Placed(p, node.(removable := true)) by {
      NoneLeft(p, id);
    }
    forall e | e in Others(p.layout) ensures e.key == node.key <==> Wanted(e, [id]) {
      OtherIsSomewhere(p.layout, e);
      ShowsAlike(e);
      assert Bare(e).key == e.key && Bare(e).id == e.id && node.key == x.key;
      if Wanted(e, [id]) {
        ShownId(e);
      }
    }
    assert Takes(p, Place(p, items, id, supply), node.key, id);
  }

  /** Each requested id takes from the other toolbars what it asks for, and no more. */
  lemma {:induction false} PlacedTakes(l: Layout, ids: seq<string>, supply: Supply)
    requires Valid(l) && NoSpecialIds(l) && Fresh(supply, l) && Requestable(l, ids)
    ensures OtherBars(PlacedAll(l, ids, supply).layout) == DropEach(OtherBars(l), ids)
    decreases ids
  {
    hide Place, OnTrack, Cached, Valid, NoSpecialIds, Fresh, PaletteItems, Available, IsSpecial, Flatten, WithoutEach, OtherBars, Takes;
    var items := PaletteItems(Palette(l));
    StartKept(l, supply);
    if ids == [] {
      DropEachNothing(OtherBars(l));
    } else {
      var init, id := ids[..|ids| - 1], ids[|ids| - 1];
      assert ids == init + [id] && id == ids[|init|];
      assert forall i :: 0 <= i < |init| ==> init[i] == ids[i];
      var p := PlacedAll(l, init, supply);
      PlacedTakes(l, init, supply);
      AllOnTrack(l, init, supply);
      assert exists key :: Takes(p, Place(p, items, id, supply), key, id) by {
        if FirstMatch(p.layout.children, p.nodeidx, id) < |p.layout.children| {
          MatchTakes(l, p, init, id, items, supply);
        } else if IsSpecial(id) {
          SpecialTakes(l, p, init, id, items, supply);
        } else {
          AvailableTakes(l, p, init, id, items, supply);
        }
      }
      var key :| Takes(p, Place(p, items, id, supply), key, id);
      TakenIsDropped(p, Place(p, items, id, supply), key, id);
      DropEachMore(OtherBars(l), init, id);
    }
  }

  lemma TakenIsDropped(p: Progress, p': Progress, key: nat, id: string)
    requires Takes(p, p', key, id)
    ensures OtherBars(p'.layout) == DropEach(OtherBars(p.layout), [id])
  {
    hide Wanted;
    OthersAreFlat(p.layout);
    TakesFromEach(OtherBars(p.layout), key, id);
  }

  lemma DropEachNothing(xss: seq<seq<Element>>)
    ensures DropEach(xss, []) == xss
  {
    forall i | 0 <= i < |xss| ensures DropEach(xss, [])[i] == xss[i] {
      DropNothing(xss[i], []);
    }
  }

  /** The setter takes from the other toolbars exactly the items it was asked for by their ids. */
  lemma OthersLose(l: Layout, ids: seq<string>, supply: Supply)
    requires Valid(l) && NoSpecialIds(l) && Fresh(supply, l) && Requestable(l, ids)
    ensures OtherBars(Reconciled(l, ids, supply)) == DropEach(OtherBars(l), ids)
  {
    hide PlaceAll, Kept, Swept;
    PlacedTakes(l, ids, supply);
  }
}
