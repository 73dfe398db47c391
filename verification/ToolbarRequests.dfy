/** What a request means: which items its ids stand for, and which of its ids count. */
module ToolbarRequests {
  import opened ToolbarModel
  import opened ToolbarConservation
  import opened ToolbarSetGet

  // ---- Names ----

  const SPECIAL_NAMES := ["separator", "spring", "spacer"]

  /** A separator, spring or spacer shows as that, any other item as its id, and a skipped one not at
      all. */
  lemma ShownAs(e: Element)
    ensures e.skip ==> IdFromNode(e) == ""
    ensures forall name :: name in SPECIAL_NAMES && e.localName == "toolbar" + name && !e.skip ==> IdFromNode(e) == name
    ensures (forall name :: name in SPECIAL_NAMES ==> e.localName != "toolbar" + name) && !e.skip ==> IdFromNode(e) == e.id
  {
    SpecialIsListed();
    assert "toolbar" + "separator" == "toolbarseparator";
    assert "toolbar" + "spring" == "toolbarspring";
    assert "toolbar" + "spacer" == "toolbarspacer";
  }

  lemma SpecialIsListed()
    ensures forall id :: IsSpecial(id) <==> id in SPECIAL_NAMES
    ensures SPECIAL_NAMES[0] == "separator" && SPECIAL_NAMES[1] == "spring" && SPECIAL_NAMES[2] == "spacer"
  {
  }

  /** An item with an ordinary id that shows as a special name is of that kind. */
  lemma ShownSpecial(e: Element)
    requires IsSpecial(IdFromNode(e)) && !IsSpecial(e.id)
    ensures !e.skip && e.localName == "toolbar" + IdFromNode(e)
  {
    assert "toolbar" + "separator" == "toolbarseparator";
    assert "toolbar" + "spring" == "toolbarspring";
    assert "toolbar" + "spacer" == "toolbarspacer";
  }

  function NotSkipped(xs: seq<Element>): seq<Element> {
    if xs == [] then [] else (if xs[0].skip then [] else [xs[0]]) + NotSkipped(xs[1..])
  }

  /** Skipped items are never printed. */
  lemma {:induction false} SkippedNeverPrinted(xs: seq<Element>)
    ensures Printed(xs) == Printed(NotSkipped(xs))
  {
    if xs != [] {
      SkippedNeverPrinted(xs[1..]);
      ShownAs(xs[0]);
      var rest := NotSkipped(xs[1..]);
      assert [] + rest == rest && ([xs[0]] + rest)[1..] == rest;
    }
  }

  // ---- The items that come to stand on the toolbar ----

  /** The item that an id stands for: a new or old one of the kind, or the one with the id. */
  predicate StandsFor(e: Element, id: string) {
    !e.skip && if id in SPECIAL_NAMES then e.localName == "toolbar" + id else e.id == id
  }

  /** After a list that can be asked for, the items it names stand first, in its order. */
  lemma ItemsStandInOrder(l: Layout, ids: seq<string>, supply: Supply)
    requires Valid(l) && NoSpecialIds(l) && Fresh(supply, l) && Requestable(l, ids)
    ensures var children := Reconciled(l, ids, supply).children;
            |ids| <= |children| && forall k :: 0 <= k < |ids| ==> StandsFor(children[k], ids[k])
  {
    hide PlaceAll, IdFromNode, Kept, Swept, Unmatched, Kempt, StandsFor, Requestable, OnTrack, NoSpecialIds;
    AllOnTrack(l, ids, supply);
    var p := PlacedAll(l, ids, supply);
    TrackKept(l, p, ids, supply);
    var children, n := p.layout.children, p.nodeidx;
    assert Before(children, n) == children[..n];
    forall k | 0 <= k < |ids| ensures StandsFor(children[k], ids[k]) {
      RequestedNonEmpty(l, ids, k);
      ChildStandsFor(l, p, k, supply);
    }
  }

  lemma RequestedNonEmpty(l: Layout, ids: seq<string>, k: nat)
    requires Requestable(l, ids) && k < |ids|
    ensures ids[k] != ""
  {
    hide IsSpecial;
    AvailableNonEmpty(l, ids[k]);
  }

  lemma ChildStandsFor(l: Layout, p: Progress, k: nat, supply: Supply)
    requires Kempt(l, p, supply) && NoSpecialIds(l) && k < |p.layout.children| && IdFromNode(p.layout.children[k]) != ""
    ensures StandsFor(p.layout.children[k], IdFromNode(p.layout.children[k]))
  {
    hide All, Bag, IsSpecial, IdFromNode, Fresh, Unique;
    var e := p.layout.children[k];
    var x := Bare(e);
    KemptChildren(l, p, supply);
    ShowsAlike(e);
    SpecialIsListed();
    NotSkippedShows(e);
    if IsSpecial(IdFromNode(e)) {
      if x in All(l) {
        ShownSpecial(x);
      } else {
        var i := BagIndex(p.made, x);
        ShowsAlike(p.made[i]);
        assert IsMade(p.made[i], supply(l.count + 1 + i));
      }
    } else {
      ShownId(e);
    }
  }

  lemma NotSkippedShows(e: Element)
    ensures IdFromNode(e) != "" ==> !e.skip
  {
  }

  /** Separators, springs and spacers can always be asked for, in any number. */
  lemma SpecialsAlways(l: Layout, ids: seq<string>, supply: Supply)
    requires Valid(l) && NoSpecialIds(l) && Fresh(supply, l) && forall id :: id in ids ==> id in SPECIAL_NAMES
    ensures Printed(Reconciled(l, ids, supply).children) == ids + FixedIds(Unmatched(l.children, ids))
    ensures forall k :: 0 <= k < |ids| ==>
              k < |Reconciled(l, ids, supply).children| && Reconciled(l, ids, supply).children[k].localName == "toolbar" + ids[k]
  {
    hide Reconciled, Printed, FixedIds, Unmatched, Valid, NoSpecialIds, Fresh, Available, IsSpecial;
    SpecialIsListed();
    assert forall i :: 0 <= i < |ids| ==> ids[i] in ids;
    SetThenGet(l, ids, supply);
    ItemsStandInOrder(l, ids, supply);
    var children := Reconciled(l, ids, supply).children;
    assert forall k :: 0 <= k < |ids| ==> StandsFor(children[k], ids[k]);
  }

  // ---- Ids that are passed over ----

  /** No element has this id, or will get it when it is created. */
  ghost predicate Absent(l: Layout, id: string, supply: Supply) {
    && id != "" && !IsSpecial(id) && (forall x :: x in All(l) ==> x.id != id)
    && forall n :: l.count < n ==> supply(n).id != id
  }

  /** The ids that count: special names, and the first mention of every id that is available. */
  ghost function Counting(l: Layout, ids: seq<string>): seq<string>
    decreases ids
  {
    if ids == [] then []
    else
      var init, id := Counting(l, ids[..|ids| - 1]), ids[|ids| - 1];
      if IsSpecial(id) || (Available(l, id) && id !in init) then init + [id] else init
  }

  lemma {:induction false} CountingIsRequestable(l: Layout, ids: seq<string>)
    ensures Requestable(l, Counting(l, ids))
    decreases ids
  {
    hide IsSpecial, Available;
    if ids != [] {
      CountingIsRequestable(l, ids[..|ids| - 1]);
    }
  }

  /** A child behind the placed ones, or an item from elsewhere, that a passed-over id could stand
      for: there is none that would be placed. */
  lemma PassedOver(l0: Layout, p: Progress, ids: seq<string>, id: string, items: map<string, Element>, supply: Supply)
    requires OnTrack(l0, p, ids, supply) && Cached(items, l0) && !IsSpecial(id) && id != ""
    requires Absent(l0, id, supply) || id in ids
    ensures Place(p, items, id, supply) == p
  {
    hide Unmatched, Ids, IdFromNode, All, Bag, IsSpecial, Placed, OnTrack, ToolbarItem, FirstMatch, Unique, Absent, Kempt;
    TrackKept(l0, p, ids, supply);
    KemptChildren(l0, p, supply);
    var children, n := p.layout.children, p.nodeidx;
    NobodyHasAbsent(l0, p, id, supply);
    if FirstMatch(children, n, id) < |children| {
      var i := FirstMatch(children, n, id);
      FirstMatchIsFirst(p, id);
      ShownId(children[i]);
      NotPlacedAgain(p, ids, i);
      assert false;
    }
    ToolbarItemExists(p.layout, id);
    if id in ids {
      PlacedIsAdded(p, ids, id);
    } else {
      assert id !in items by { AbsentFromCache(l0, id, items, supply); }
    }
  }

  lemma AbsentFromCache(l0: Layout, id: string, items: map<string, Element>, supply: Supply)
    requires Cached(items, l0) && Absent(l0, id, supply)
    ensures id !in items
  {
    hide All, IsSpecial;
    forall k | k in items ensures k != id {
      assert Bare(items[k]).id == k && Bare(items[k]) in All(l0);
    }
  }

  lemma NobodyHasAbsent(l0: Layout, p: Progress, id: string, supply: Supply)
    requires Kempt(l0, p, supply)
    ensures Absent(l0, id, supply) ==> forall x :: x in All(p.layout) ==> x.id != id
  {
    hide All, Bag, IsSpecial, Fresh, Unique;
    if Absent(l0, id, supply) {
      forall x | x in All(p.layout) ensures x.id != id {
        if x !in All(l0) {
          var i := BagIndex(p.made, x);
          assert IsMade(p.made[i], supply(l0.count + 1 + i));
        }
      }
    }
  }

  /** A child in place shows as the id, so no other child does. */
  lemma NotPlacedAgain(p: Progress, ids: seq<string>, i: nat)
    requires p.nodeidx == |ids| <= i < |p.layout.children| && Unique(All(p.layout))
    requires forall k :: 0 <= k < |ids| ==> IdFromNode(p.layout.children[k]) == ids[k]
    requires p.layout.children[i].id != "" && !IsSpecial(p.layout.children[i].id)
    ensures p.layout.children[i].id !in ids
  {
    hide Bag, IdFromNode, IsSpecial;
    var children := p.layout.children;
    UniquePart(Bag(children), Bag(Palette(p.layout)) + Bag(Others(p.layout)), All(p.layout));
    forall k | 0 <= k < |ids| ensures ids[k] != children[i].id {
      if ids[k] == children[i].id {
        ShownId(children[k]);
      }
      NoneTwice(children, k, i);
    }
  }

  lemma PlacedIsAdded(p: Progress, ids: seq<string>, id: string)
    requires p.nodeidx == |ids| <= |p.layout.children| && p.added == Ids(p.layout.children[..p.nodeidx])
    requires forall k :: 0 <= k < |ids| ==> IdFromNode(p.layout.children[k]) == ids[k]
    requires id in ids && id != "" && !IsSpecial(id)
    ensures id in p.added
  {
    hide IdFromNode, IsSpecial;
    var k :| 0 <= k < |ids| && ids[k] == id;
    ShownId(p.layout.children[k]);
    assert p.layout.children[..p.nodeidx][k].id == id;
  }

  /** Every id is a special name, or is available, or absent. */
  ghost predicate Ordinary(l: Layout, ids: seq<string>, supply: Supply) {
    forall id :: id in ids ==> IsSpecial(id) || Available(l, id) || Absent(l, id, supply)
  }

  lemma OrdinaryNonEmpty(l: Layout, id: string, supply: Supply)
    ensures IsSpecial(id) || Available(l, id) || Absent(l, id, supply) ==> id != ""
  {
  }

  lemma {:induction false} OnlyCountingPlaced(l: Layout, ids: seq<string>, supply: Supply)
    requires Valid(l) && NoSpecialIds(l) && Fresh(supply, l) && Ordinary(l, ids, supply)
    ensures PlacedAll(l, ids, supply) == PlacedAll(l, Counting(l, ids), supply)
    decreases ids
  {
    hide Place, Kempt, Cached, Valid, Fresh, NoSpecialIds, PaletteItems, Available, Absent, IsSpecial, OnTrack, Requestable;
    if ids != [] {
      var init, id := ids[..|ids| - 1], ids[|ids| - 1];
      assert ids == init + [id] && id in ids;
      OnlyCountingPlaced(l, init, supply);
      var counting := Counting(l, init);
      if IsSpecial(id) || (Available(l, id) && id !in counting) {
        assert (counting + [id])[..|counting|] == counting;
      } else {
        StartKept(l, supply);
        CountingIsRequestable(l, init);
        AllOnTrack(l, counting, supply);
        OrdinaryNonEmpty(l, id, supply);
        PassedOver(l, PlacedAll(l, counting, supply), counting, id, PaletteItems(Palette(l)), supply);
      }
    }
  }

  /** Set, then get, for any list of ordinary ids: ids that nothing has and ids asked for again are
      passed over, and the rest is printed as requested, before the fixed items it does not take. */
  lemma SetThenGetAny(l: Layout, ids: seq<string>, supply: Supply)
    requires Valid(l) && NoSpecialIds(l) && Fresh(supply, l) && Ordinary(l, ids, supply)
    ensures var counting := Counting(l, ids);
            && Reconciled(l, ids, supply) == Reconciled(l, counting, supply)
            && Printed(Reconciled(l, ids, supply).children) == counting + FixedIds(Unmatched(l.children, counting))
  {
    hide PlacedAll, Printed, FixedIds, Unmatched, Valid, Fresh, NoSpecialIds, Ordinary, Counting, Requestable;
    OnlyCountingPlaced(l, ids, supply);
    CountingIsRequestable(l, ids);
    SetThenGet(l, Counting(l, ids), supply);
  }
}
