/** What the getter prints after the setter has run. */
module ToolbarSetGet {
  import opened ToolbarModel
  import opened ToolbarConservation

  function RemoveFirst(xs: seq<Element>, id: string): seq<Element> {
    if xs == [] then [] else if IdFromNode(xs[0]) == id then xs[1..] else [xs[0]] + RemoveFirst(xs[1..], id)
  }

  /** The children that no requested id takes: each id takes the first one left that shows as it. */
  function Unmatched(children: seq<Element>, ids: seq<string>): seq<Element>
    decreases ids
  {
    if ids == [] then children else RemoveFirst(Unmatched(children, ids[..|ids| - 1]), ids[|ids| - 1])
  }

  /** Some element anywhere has this id and shows as it. */
  ghost predicate Available(l: Layout, id: string) {
    id != "" && exists x :: x in All(l) && x.id == id && IdFromNode(x) == id
  }

  /** A list the toolbar can be asked for: special names as often as wanted, every other id once and
      only if it is available. */
  ghost predicate Requestable(l: Layout, ids: seq<string>) {
    && (forall i, j :: 0 <= i < j < |ids| && ids[i] == ids[j] ==> IsSpecial(ids[i]))
    && (forall i :: 0 <= i < |ids| && !IsSpecial(ids[i]) ==> Available(l, ids[i]))
  }

  // ---- Printing ----

  lemma {:induction false} PrintedJoin(xs: seq<Element>, ys: seq<Element>)
    ensures Printed(xs + ys) == Printed(xs) + Printed(ys)
  {
    hide IdFromNode;
    if xs == [] {
      assert xs + ys == ys;
    } else {
      assert (xs + ys)[1..] == xs[1..] + ys;
      PrintedJoin(xs[1..], ys);
    }
  }

  lemma {:induction false} PrintedIs(xs: seq<Element>, ids: seq<string>)
    requires |xs| == |ids| && forall i :: 0 <= i < |ids| ==> IdFromNode(xs[i]) == ids[i] && ids[i] != ""
    ensures Printed(xs) == ids
  {
    hide IdFromNode;
    if xs != [] {
      assert IdFromNode(xs[0]) == ids[0] && ids == [ids[0]] + ids[1..];
      PrintedIs(xs[1..], ids[1..]);
    }
  }

  /** Every printed id comes from a child of its own, in order. */
  lemma {:induction false} PrintedFrom(xs: seq<Element>, k: nat) returns (i: nat)
    requires k < |Printed(xs)|
    ensures i < |xs| && IdFromNode(xs[i]) == Printed(xs)[k] && Printed(xs)[k] != ""
    ensures |Printed(xs[..i])| == k
  {
    hide IdFromNode;
    if IdFromNode(xs[0]) != "" && k == 0 {
      i := 0;
    } else {
      var n := if IdFromNode(xs[0]) == "" then k else k - 1;
      i := PrintedFrom(xs[1..], n);
      assert xs[..i + 1] == [xs[0]] + xs[1..][..i] && xs[..i + 1][1..] == xs[1..][..i];
      i := i + 1;
    }
  }

  lemma {:induction false} JoinSplit(val: string)
    ensures Join(Split(val)) == val
    ensures |Split(val)| == 1 ==> Split(val)[0] == val
  {
    if val != "" {
      JoinSplit(val[1..]);
      var rest := Split(val[1..]);
      assert val == [val[0]] + val[1..];
      if val[0] == ',' {
        assert ([""] + rest)[1..] == rest;
      } else if |rest| > 1 {
        assert ([[val[0]] + rest[0]] + rest[1..])[1..] == rest[1..];
        assert [val[0]] + rest[0] + "," + Join(rest[1..]) == [val[0]] + (rest[0] + "," + Join(rest[1..]));
      }
    }
  }

  // ---- One requested id ----

  /** The ids so far are in place, and what lies behind them is what they do not take. */
  ghost predicate OnTrack(l0: Layout, p: Progress, ids: seq<string>, supply: Supply) {
    && Kempt(l0, p, supply) && p.nodeidx == |ids|
    && (forall k :: 0 <= k < |ids| ==> IdFromNode(p.layout.children[k]) == ids[k])
    && p.layout.children[p.nodeidx..] == Unmatched(l0.children, ids)
  }

  lemma {:induction false} RemoveFirstAt(xs: seq<Element>, id: string, j: nat)
    requires j < |xs| && IdFromNode(xs[j]) == id && forall i :: 0 <= i < j ==> IdFromNode(xs[i]) != id
    ensures RemoveFirst(xs, id) == xs[..j] + xs[j + 1..]
  {
    hide IdFromNode;
    if j != 0 {
      assert IdFromNode(xs[0]) != id;
      RemoveFirstAt(xs[1..], id, j - 1);
    }
  }

  lemma {:induction false} RemoveFirstNone(xs: seq<Element>, id: string)
    requires forall i :: 0 <= i < |xs| ==> IdFromNode(xs[i]) != id
    ensures RemoveFirst(xs, id) == xs
  {
    hide IdFromNode;
    if xs != [] {
      assert IdFromNode(xs[0]) != id;
      RemoveFirstNone(xs[1..], id);
    }
  }

  lemma {:induction false} WithoutAt(xs: seq<Element>, j: nat)
    requires j < |xs| && forall i :: 0 <= i < |xs| && i != j ==> xs[i].key != xs[j].key
    ensures Without(xs, xs[j].key) == xs[..j] + xs[j + 1..]
  {
    if j == 0 {
      WithoutAbsent(xs[1..], xs[0].key);
    } else {
      assert xs[0].key != xs[j].key;
      forall i | 0 <= i < |xs[1..]| && i != j - 1 ensures xs[1..][i].key != xs[1..][j - 1].key {
        assert xs[i + 1].key != xs[j].key;
      }
      WithoutAt(xs[1..], j - 1);
    }
  }

  lemma UnmatchedMore(children: seq<Element>, ids: seq<string>, id: string)
    ensures Unmatched(children, ids + [id]) == RemoveFirst(Unmatched(children, ids), id)
  {
    assert (ids + [id])[..|ids|] == ids;
  }

  /** What a step does to the children, `gone` being what it takes out of those behind the placed. */
  ghost predicate PutsNext(p: Progress, p': Progress, node: Element, tail: seq<Element>) {
    var children, children', n := p.layout.children, p'.layout.children, p.nodeidx;
    && p'.nodeidx == n + 1 <= |children'| && n <= |children| && children'[n] == node
    && (forall k :: 0 <= k < n ==> children'[k] == children[k])
    && children'[n + 1..] == tail
  }

  /** A step that puts the right element next keeps on track. */
  lemma NextOnTrack(l0: Layout, p: Progress, p': Progress, ids: seq<string>, id: string, node: Element, supply: Supply)
    requires OnTrack(l0, p, ids, supply) && Kempt(l0, p', supply) && IdFromNode(node) == id
    requires PutsNext(p, p', node, RemoveFirst(p.layout.children[p.nodeidx..], id))
    ensures OnTrack(l0, p', ids + [id], supply)
  {
    hide Kempt, Unmatched, RemoveFirst, IdFromNode;
    UnmatchedMore(l0.children, ids, id);
    forall k | 0 <= k < |ids + [id]| ensures IdFromNode(p'.layout.children[k]) == (ids + [id])[k] {
      if k < |ids| {
        assert p'.layout.children[k] == p.layout.children[k];
      }
    }
  }

  /** A child that shows as the id comes to its place, unless it is there already. */
  lemma MatchOnTrack(l0: Layout, p: Progress, ids: seq<string>, id: string, items: map<string, Element>, supply: Supply)
    requires OnTrack(l0, p, ids, supply) && Cached(items, l0)
    requires FirstMatch(p.layout.children, p.nodeidx, id) < |p.layout.children|
    ensures OnTrack(l0, Place(p, items, id, supply), ids + [id], supply)
  {
    hide Kempt, Unmatched, RemoveFirst, Ids, Place, IdFromNode, FirstMatch, Cached, OnTrack, PutsNext;
    TrackKept(l0, p, ids, supply);
    KemptChildren(l0, p, supply);
    var i := FirstMatch(p.layout.children, p.nodeidx, id);
    FirstMatchIsFirst(p, id);
    PlaceKeeps(l0, p, items, id, supply);
    PlaceMatches(p, items, id, supply);
    NextOnTrack(l0, p, Place(p, items, id, supply), ids, id, p.layout.children[i], supply);
  }

  /** The first match is what RemoveFirst removes. */
  lemma FirstMatchIsFirst(p: Progress, id: string)
    requires p.nodeidx <= |p.layout.children| && FirstMatch(p.layout.children, p.nodeidx, id) < |p.layout.children|
    ensures var i, n := FirstMatch(p.layout.children, p.nodeidx, id), p.nodeidx;
            var tail := p.layout.children[n..];
            && n <= i && IdFromNode(p.layout.children[i]) == id
            && RemoveFirst(tail, id) == tail[..i - n] + tail[i - n + 1..]
  {
    hide IdFromNode, RemoveFirst;
    var i, n := FirstMatch(p.layout.children, p.nodeidx, id), p.nodeidx;
    var tail := p.layout.children[n..];
    forall j | 0 <= j < i - n ensures IdFromNode(tail[j]) != id {
      assert IdFromNode(p.layout.children[n + j]) != id;
    }
    RemoveFirstAt(tail, id, i - n);
  }

  lemma PlaceMatches(p: Progress, items: map<string, Element>, id: string, supply: Supply)
    requires p.nodeidx <= |p.layout.children| && p.added == Ids(p.layout.children[..p.nodeidx])
    requires DistinctKeys(p.layout.children)
    requires FirstMatch(p.layout.children, p.nodeidx, id) < |p.layout.children|
    ensures var i, n := FirstMatch(p.layout.children, p.nodeidx, id), p.nodeidx;
            var tail := p.layout.children[n..];
            n <= i && PutsNext(p, Place(p, items, id, supply), p.layout.children[i], tail[..i - n] + tail[i - n + 1..])
  {
    hide Placed, Ids;
    var i, n := FirstMatch(p.layout.children, p.nodeidx, id), p.nodeidx;
    if i == n {
      var tail := p.layout.children[n..];
      assert tail[..0] + tail[1..] == p.layout.children[n + 1..];
    } else {
      MovedChildren(p, i);
    }
  }

  predicate DistinctKeys(xs: seq<Element>) {
    forall j, k :: 0 <= j < |xs| && 0 <= k < |xs| && j != k ==> xs[j].key != xs[k].key
  }

  /** Moving a child forward takes it out of the tail. */
  lemma MovedChildren(p: Progress, i: nat)
    requires p.nodeidx <= i < |p.layout.children| && p.added == Ids(p.layout.children[..p.nodeidx])
    requires DistinctKeys(p.layout.children)
    ensures var tail, n := p.layout.children[p.nodeidx..], p.nodeidx;
            PutsNext(p, Placed(p, p.layout.children[i]), p.layout.children[i], tail[..i - n] + tail[i - n + 1..])
  {
    hide Inserted, Without, Ids;
    var children, n := p.layout.children, p.nodeidx;
    var tail, c := children[n..], children[i];
    PrefixKeeps(p, c);
    forall j | 0 <= j < |tail| && j != i - n ensures tail[j].key != tail[i - n].key {
    }
    WithoutAt(tail, i - n);
    var children' := Placed(p, c).layout.children;
    assert children' == children[..n] + [c] + Without(tail, c.key);
    assert children'[n + 1..] == Without(tail, c.key);
  }

  /** Facts about the children that Kempt implies. */
  lemma KemptChildren(l0: Layout, p: Progress, supply: Supply)
    requires Kempt(l0, p, supply)
    ensures p.nodeidx <= |p.layout.children| && p.added == Ids(p.layout.children[..p.nodeidx])
    ensures DistinctKeys(p.layout.children)
    ensures forall i :: 0 <= i < |p.layout.children| ==> Bare(p.layout.children[i]) in All(p.layout)
    ensures Unique(All(p.layout))
  {
    hide Bag;
    var children := p.layout.children;
    UniquePart(Bag(children), Bag(Palette(p.layout)) + Bag(Others(p.layout)), All(p.layout));
    forall i, j | 0 <= i < |children| && 0 <= j < |children| && i != j ensures children[i].key != children[j].key {
      if i < j {
        NoneTwice(children, i, j);
      } else {
        NoneTwice(children, j, i);
      }
    }
    forall i | 0 <= i < |children| ensures Bare(children[i]) in All(p.layout) {
      BagHas(children, i);
    }
  }

  /** An item from elsewhere, which is no child and shows as no child behind the placed ones, comes
      in before them. */
  lemma NewcomerOnTrack(l0: Layout, p: Progress, p1: Progress, ids: seq<string>, id: string, node: Element, supply: Supply)
    requires OnTrack(l0, p, ids, supply) && p1.layout.children == p.layout.children && p1.nodeidx == p.nodeidx && p1.added == p.added
    requires Kempt(l0, Placed(p1, node), supply) && IdFromNode(node) == id
    requires forall i :: 0 <= i < |p.layout.children| ==> p.layout.children[i].key != node.key
    requires forall i :: p.nodeidx <= i < |p.layout.children| ==> IdFromNode(p.layout.children[i]) != id
    ensures OnTrack(l0, Placed(p1, node), ids + [id], supply)
  {
    hide Kempt, Inserted, Without, Unmatched, RemoveFirst, Ids, IdFromNode, OnTrack;
    TrackKept(l0, p, ids, supply);
    KemptChildren(l0, p, supply);
    var children, n := p.layout.children, p.nodeidx;
    var tail := children[n..];
    PrefixKeeps(p1, node);
    WithoutAbsent(tail, node.key);
    RemoveFirstNone(tail, id);
    var children' := Placed(p1, node).layout.children;
    assert children'[n + 1..] == tail;
    assert forall k :: 0 <= k < n ==> children'[k] == children[k];
    NextOnTrack(l0, p, Placed(p1, node), ids, id, node, supply);
  }

  lemma NotAmongIds(xs: seq<Element>, id: string)
    requires forall i :: 0 <= i < |xs| ==> xs[i].id != id
    ensures id !in Ids(xs)
  {
  }

  /** No element has one of the special names for an id. */
  ghost predicate NoSpecialIds(l: Layout) {
    forall x :: x in All(l) ==> !IsSpecial(x.id)
  }

  /** A special name that no child is left for: a new item. */
  lemma SpecialOnTrack(l0: Layout, p: Progress, ids: seq<string>, id: string, items: map<string, Element>, supply: Supply)
    requires OnTrack(l0, p, ids, supply) && NoSpecialIds(l0) && Cached(items, l0) && IsSpecial(id)
    requires FirstMatch(p.layout.children, p.nodeidx, id) >= |p.layout.children|
    ensures OnTrack(l0, Place(p, items, id, supply), ids + [id], supply)
  {
    hide Inserted, Without, Unmatched, RemoveFirst, Ids, IdFromNode, NewItem, All, Bag, IsSpecial, Placed, OnTrack, FirstMatch, Unique;
    TrackKept(l0, p, ids, supply);
    KemptChildren(l0, p, supply);
    NoneLeft(p, id);
    forall k | k in items ensures k != id {
      assert Bare(items[k]).id == k && Bare(items[k]) in All(l0);
    }
    var item := NewItem(id, supply(p.layout.count + 1));
    var p1 := p.(layout := p.layout.(count := p.layout.count + 1), made := p.made + [item]);
    NewItemKeeps(l0, p, id, supply);
    NewItemShows(id, supply(p.layout.count + 1));
    ShowsAlike(item);
    forall i | 0 <= i < |p.layout.children| ensures p.layout.children[i].key != item.key {
      assert Bare(p.layout.children[i]) in All(p.layout);
    }
    NewcomerOnTrack(l0, p, p1, ids, id, item.(removable := true), supply);
  }

  lemma TrackKept(l0: Layout, p: Progress, ids: seq<string>, supply: Supply)
    requires OnTrack(l0, p, ids, supply)
    ensures Kempt(l0, p, supply) && p.nodeidx == |ids| <= |p.layout.children|
    ensures forall k :: 0 <= k < |ids| ==> IdFromNode(p.layout.children[k]) == ids[k]
    ensures p.layout.children[p.nodeidx..] == Unmatched(l0.children, ids)
  {
    hide All, Unmatched, IdFromNode;
  }

  lemma ShowsAlike(e: Element)
    ensures IdFromNode(Bare(e)) == IdFromNode(e) && IdFromNode(e.(removable := true)) == IdFromNode(e)
  {
  }

  /** If no child is left that shows as an available id not asked for yet, no child is the element
      with that id. */
  lemma NoChildHasId(l0: Layout, p: Progress, ids: seq<string>, id: string, x: Element, supply: Supply)
    requires OnTrack(l0, p, ids, supply) && id !in ids && x in All(p.layout) && x.id == id != "" && IdFromNode(x) == id
    requires FirstMatch(p.layout.children, p.nodeidx, id) >= |p.layout.children|
    ensures forall i :: 0 <= i < |p.layout.children| ==> p.layout.children[i].id != id && p.layout.children[i].key != x.key
  {
    hide Unmatched, Ids, IdFromNode, All, Bag, OnTrack, Kempt;
    TrackKept(l0, p, ids, supply);
    KemptChildren(l0, p, supply);
    var children := p.layout.children;
    forall i | 0 <= i < |children| ensures children[i].id != id && children[i].key != x.key {
      ShowsAlike(children[i]);
      assert IdFromNode(children[i]) != id by {
        if i < p.nodeidx {
          assert ids[i] in ids;
        }
      }
      assert Bare(children[i]).id == children[i].id && Bare(children[i]).key == children[i].key;
      assert Bare(children[i]) in All(p.layout);
    }
  }

  /** An id that is available but not left on the toolbar: the item that has it, wherever it is. */
  lemma AvailableOnTrack(l0: Layout, p: Progress, ids: seq<string>, id: string, items: map<string, Element>, supply: Supply)
    requires OnTrack(l0, p, ids, supply) && Cached(items, l0) && !IsSpecial(id) && Available(l0, id) && id !in ids
    requires FirstMatch(p.layout.children, p.nodeidx, id) >= |p.layout.children|
    ensures OnTrack(l0, Place(p, items, id, supply), ids + [id], supply)
  {
    hide Ids, IdFromNode, All, Bag, IsSpecial, Placed, OnTrack, ToolbarItem, Fresh, FirstMatch, Unique;
    TrackKept(l0, p, ids, supply);
    KemptChildren(l0, p, supply);
    NoneLeft(p, id);
    var x :| x in All(l0) && x.id == id && IdFromNode(x) == id;
    InSum(All(l0), Bag(p.made), x);
    NoChildHasId(l0, p, ids, id, x, supply);
    NotAmongIds(p.layout.children[..p.nodeidx], id);
    var node := FoundItem(l0, p, id, x, items);
    ShowsAlike(node);
    PlacedKeeps(l0, p, node.(removable := true), supply);
    NewcomerOnTrack(l0, p, p, ids, id, node.(removable := true), supply);
  }

  /** The setter finds the element with the id, in its cache or by looking for it. */
  lemma FoundItem(l0: Layout, p: Progress, id: string, x: Element, items: map<string, Element>) returns (node: Element)
    requires Unique(All(p.layout)) && All(p.layout) == All(l0) + Bag(p.made) && Cached(items, l0)
    requires x in All(p.layout) && x.id == id != "" && forall i :: 0 <= i < |p.layout.children| ==> p.layout.children[i].id != id
    ensures Bare(node) == x && node.id == id
    ensures if id in items then node == items[id] else ToolbarItem(p.layout, id) == Some(node)
  {
    hide Bag, All, ToolbarItem;
    if id in items {
      node := items[id];
      InSum(All(l0), Bag(p.made), Bare(node));
    } else {
      ItemFound(p.layout, id, x);
      ToolbarItemExists(p.layout, id);
      node := ToolbarItem(p.layout, id).value;
    }
    assert Bare(node).id == node.id;
  }

  lemma NoneLeft(p: Progress, id: string)
    requires p.nodeidx <= |p.layout.children| && FirstMatch(p.layout.children, p.nodeidx, id) >= |p.layout.children|
    ensures forall i :: p.nodeidx <= i < |p.layout.children| ==> IdFromNode(p.layout.children[i]) != id
  {
    hide IdFromNode;
    var k := FirstMatch(p.layout.children, p.nodeidx, id);
    assert forall j :: p.nodeidx <= j < k && j < |p.layout.children| ==> IdFromNode(p.layout.children[j]) != id;
  }

  lemma ItemFound(l: Layout, id: string, x: Element)
    requires x in All(l) && x.id == id != "" && forall i :: 0 <= i < |l.children| ==> l.children[i].id != id
    ensures ToolbarItem(l, id).Some?
  {
    hide Flatten;
    if x in Bag(l.children) {
      var i := BagIndex(l.children, x);
      assert false;
    }
    FindFinds(l.children + Others(l), id);
    FindFinds(Palette(l), id);
    if x in Bag(Others(l)) {
      var i := BagIndex(Others(l), x);
      assert (l.children + Others(l))[|l.children| + i].id == id;
    } else {
      var i := BagIndex(Palette(l), x);
    }
  }

  // ---- What stays behind ----

  /** The ids that fixed items show, in order. */
  function FixedIds(xs: seq<Element>): seq<string> {
    if xs == [] then []
    else (if !xs[0].removable && IdFromNode(xs[0]) != "" then [IdFromNode(xs[0])] else []) + FixedIds(xs[1..])
  }

  predicate NoneFixed(xs: seq<Element>) {
    forall e :: e in xs ==> e.removable || IdFromNode(e) == ""
  }

  lemma {:induction false} KeptShowsFixed(xs: seq<Element>)
    ensures Printed(Kept(xs)) == FixedIds(xs)
  {
    hide IdFromNode;
    if xs != [] {
      KeptShowsFixed(xs[1..]);
      var kept := Kept(xs[1..]);
      assert [] + kept == kept && ([xs[0]] + kept)[1..] == kept;
    }
  }

  lemma {:induction false} NoFixedIds(xs: seq<Element>)
    ensures FixedIds(xs) == [] <==> NoneFixed(xs)
  {
    hide IdFromNode;
    if xs != [] {
      NoFixedIds(xs[1..]);
      assert xs == [xs[0]] + xs[1..];
    }
  }

  // ---- The whole setter ----

  lemma {:induction false} AllOnTrack(l: Layout, ids: seq<string>, supply: Supply)
    requires Valid(l) && NoSpecialIds(l) && Fresh(supply, l) && Requestable(l, ids)
    ensures OnTrack(l, PlacedAll(l, ids, supply), ids, supply)
    decreases ids
  {
    hide Place, Kempt, Cached, Valid, NoSpecialIds, Fresh, PaletteItems, Available, IsSpecial;
    StartKept(l, supply);
    if ids == [] {
      assert l.children[0..] == l.children;
      assert Ids([]) == {};
      assert OnTrack(l, Start(l), [], supply);
    } else {
      var init, id := ids[..|ids| - 1], ids[|ids| - 1];
      assert ids == init + [id];
      assert forall i :: 0 <= i < |init| ==> init[i] == ids[i];
      AllOnTrack(l, init, supply);
      OneOnTrack(l, PlacedAll(l, init, supply), init, id, supply);
    }
  }

  lemma OneOnTrack(l: Layout, p: Progress, ids: seq<string>, id: string, supply: Supply)
    requires NoSpecialIds(l) && OnTrack(l, p, ids, supply) && Cached(PaletteItems(Palette(l)), l)
    requires Requestable(l, ids + [id])
    ensures OnTrack(l, Place(p, PaletteItems(Palette(l)), id, supply), ids + [id], supply)
  {
    hide Place, OnTrack, Cached, NoSpecialIds, PaletteItems, Available, IsSpecial;
    var items := PaletteItems(Palette(l));
    if FirstMatch(p.layout.children, p.nodeidx, id) < |p.layout.children| {
      MatchOnTrack(l, p, ids, id, items, supply);
    } else if IsSpecial(id) {
      SpecialOnTrack(l, p, ids, id, items, supply);
    } else {
      assert (ids + [id])[|ids|] == id;
      forall i | 0 <= i < |ids| ensures ids[i] != id {
        assert (ids + [id])[i] == ids[i];
      }
      AvailableOnTrack(l, p, ids, id, items, supply);
    }
  }

  /** Set, then get: a requestable list is printed as requested, followed by the fixed items that it
      does not take, in their old order. */
  lemma SetThenGet(l: Layout, ids: seq<string>, supply: Supply)
    requires Valid(l) && NoSpecialIds(l) && Fresh(supply, l) && Requestable(l, ids)
    ensures Printed(Reconciled(l, ids, supply).children) == ids + FixedIds(Unmatched(l.children, ids))
  {
    hide PlaceAll, Printed, Kept, Unmatched, Kempt, IdFromNode, Available;
    AllOnTrack(l, ids, supply);
    var p := PlacedAll(l, ids, supply);
    TrackKept(l, p, ids, supply);
    var children, n := p.layout.children, p.nodeidx;
    assert Before(children, n) == children[..n] && From(children, n) == children[n..];
    forall i | 0 <= i < |ids| ensures ids[i] != "" {
      assert Available(l, ids[i]) || IsSpecial(ids[i]);
      AvailableNonEmpty(l, ids[i]);
    }
    PrintedIs(children[..n], ids);
    PrintedJoin(children[..n], Kept(children[n..]));
    KeptShowsFixed(children[n..]);
  }

  lemma AvailableNonEmpty(l: Layout, id: string)
    ensures Available(l, id) || IsSpecial(id) ==> id != ""
  {
  }

  /** An element that shows as an id that is no special name has that id. */
  lemma ShownId(e: Element)
    requires IdFromNode(e) != "" && !IsSpecial(IdFromNode(e))
    ensures e.id == IdFromNode(e)
  {
  }

  lemma PrintedIsAvailable(l: Layout, ids: seq<string>, supply: Supply, i: nat)
    requires Valid(l) && Fresh(supply, l) && i < |ids| && !IsSpecial(ids[i])
    requires Printed(Reconciled(l, ids, supply).children) == ids
    ensures Available(l, ids[i])
  {
    hide Reconciled, Printed, PlacedAll, All, Bag, IdFromNode, Dropped, IsSpecial;
    var children, made := Reconciled(l, ids, supply).children, PlacedAll(l, ids, supply).made;
    Conservation(l, ids, supply);
    var k := PrintedFrom(children, i);
    var x := Bare(children[k]);
    ShowsAlike(children[k]);
    ShownId(x);
    ChildInAll(Reconciled(l, ids, supply), k);
    InSum(All(Reconciled(l, ids, supply)), Bag(Dropped(l, ids, supply)), x);
    assert x in All(l) + Bag(made);
    NotMade(made, x);
  }

  lemma NotMade(made: seq<Element>, x: Element)
    requires forall i :: 0 <= i < |made| ==> IsSpecial(IdFromNode(made[i]))
    requires !IsSpecial(IdFromNode(x))
    ensures x !in Bag(made)
  {
    hide IsSpecial, IdFromNode;
    if x in Bag(made) {
      var i := BagIndex(made, x);
      ShowsAlike(made[i]);
      assert false;
    }
  }

  lemma ChildInAll(l: Layout, k: nat)
    requires k < |l.children|
    ensures Bare(l.children[k]) in All(l)
  {
    BagHas(l.children, k);
  }

  lemma PrintedIsDistinct(l: Layout, ids: seq<string>, supply: Supply, i: nat, j: nat)
    requires Valid(l) && Fresh(supply, l) && i < j < |ids| && ids[i] == ids[j]
    requires Printed(Reconciled(l, ids, supply).children) == ids
    ensures IsSpecial(ids[i])
  {
    hide Reconciled, Printed, PlacedAll, Bag, IdFromNode, Dropped, IsSpecial;
    var l' := Reconciled(l, ids, supply);
    Conservation(l, ids, supply);
    var a := PrintedFrom(l'.children, i);
    var b := PrintedFrom(l'.children, j);
    UniquePart(Bag(l'.children), Bag(Palette(l')) + Bag(Others(l')), All(l'));
    assert l'.children[a].id == l'.children[b].id ==> l'.children[a].id == "" by {
      if a < b {
        NoneTwice(l'.children, a, b);
      } else {
        NoneTwice(l'.children, b, a);
      }
    }
    if !IsSpecial(ids[i]) {
      ShownId(l'.children[a]);
      ShownId(l'.children[b]);
    }
  }

  /** The getter prints exactly the request if and only if the list can be asked for and every child
      that it does not take may be removed or shows no id. */
  lemma GetsWhatWasSet(l: Layout, ids: seq<string>, supply: Supply)
    requires Valid(l) && NoSpecialIds(l) && Fresh(supply, l)
    ensures Printed(Reconciled(l, ids, supply).children) == ids
            <==> Requestable(l, ids) && NoneFixed(Unmatched(l.children, ids))
  {
    hide Reconciled, Printed, FixedIds, NoneFixed, Unmatched, Available, IsSpecial, Valid, NoSpecialIds, Fresh;
    if Printed(Reconciled(l, ids, supply).children) == ids {
      forall i, j | 0 <= i < j < |ids| && ids[i] == ids[j] ensures IsSpecial(ids[i]) {
        PrintedIsDistinct(l, ids, supply, i, j);
      }
      forall i | 0 <= i < |ids| && !IsSpecial(ids[i]) ensures Available(l, ids[i]) {
        PrintedIsAvailable(l, ids, supply, i);
      }
      assert Requestable(l, ids);
    }
    if Requestable(l, ids) {
      SetThenGet(l, ids, supply);
      var rest := FixedIds(Unmatched(l.children, ids));
      NoFixedIds(Unmatched(l.children, ids));
      assert ids + rest == ids ==> |rest| == 0;
      assert ids + [] == ids;
    }
  }

  /** As strings: assigning a requestable list makes the property read as assigned, and assigning it
      again changes nothing. */
  lemma CurrentSetReadsBack(l: Layout, val: string, supply: Supply)
    requires Valid(l) && NoSpecialIds(l) && Fresh(supply, l)
    requires Requestable(l, Requested(val)) && NoneFixed(Unmatched(l.children, Requested(val)))
    ensures var l' := WithCurrentSet(l, val, supply);
            Shown(Printed(l'.children)) == val && forall again :: WithCurrentSet(l', val, again) == l'
  {
    hide Reconciled, Printed, NoneFixed, Unmatched, Split, Join, Valid, NoSpecialIds, Fresh, All, Requestable, Requested, Shown;
    GetsWhatWasSet(l, Requested(val), supply);
    RequestedIsShown(l, val);
  }

  /** A list that can be asked for is the list its ids are shown as. */
  lemma RequestedIsShown(l: Layout, val: string)
    requires Requestable(l, Requested(val))
    ensures Shown(Requested(val)) == val
  {
    hide Split, Join;
    JoinSplit(val);
    SplitNothing();
    JoinNothing();
    EmptyIdIsNotRequestable(l);
  }

  lemma EmptyIdIsNotRequestable(l: Layout)
    ensures !Requestable(l, [""])
  {
    assert [""][0] == "" && !Available(l, "");
  }

  lemma SplitNothing()
    ensures Split("") == [""]
  {
  }

  lemma JoinNothing()
    ensures Join([]) == ""
  {
  }

  // ---- What comes in can go out again ----

  predicate OldOrRemovable(before: seq<Element>, xs: seq<Element>) {
    forall i :: 0 <= i < |xs| ==> xs[i] in before || xs[i].removable
  }

  lemma {:induction false} WithoutKeepsOld(before: seq<Element>, xs: seq<Element>, key: nat)
    requires OldOrRemovable(before, xs)
    ensures OldOrRemovable(before, Without(xs, key))
  {
    if xs != [] {
      assert OldOrRemovable(before, xs[1..]);
      WithoutKeepsOld(before, xs[1..], key);
    }
  }

  lemma InsertedKeepsOld(before: seq<Element>, l: Layout, at: nat, node: Element)
    requires OldOrRemovable(before, l.children) && (node in before || node.removable)
    ensures OldOrRemovable(before, Inserted(l, at, node).children)
  {
    hide Without;
    WithoutKeepsOld(before, Before(l.children, at), node.key);
    WithoutKeepsOld(before, From(l.children, at), node.key);
  }

  lemma {:induction false} PlacedAllKeepsOld(before: seq<Element>, p: Progress, items: map<string, Element>, ids: seq<string>, supply: Supply)
    requires OldOrRemovable(before, p.layout.children)
    ensures OldOrRemovable(before, PlaceAll(p, items, ids, supply).layout.children)
    decreases ids
  {
    hide Inserted, OldOrRemovable, ToolbarItem;
    if ids != [] {
      var q, id := PlaceAll(p, items, ids[..|ids| - 1], supply), ids[|ids| - 1];
      PlacedAllKeepsOld(before, p, items, ids[..|ids| - 1], supply);
      var i := FirstMatch(q.layout.children, q.nodeidx, id);
      var l1 := q.layout.(count := q.layout.count + 1);
      if i < |q.layout.children| {
        MemberIsOld(before, q.layout.children, i);
        InsertedKeepsOld(before, q.layout, q.nodeidx, q.layout.children[i]);
      } else if id in items {
        InsertedKeepsOld(before, q.layout, q.nodeidx, items[id].(removable := true));
      } else if IsSpecial(id) {
        InsertedKeepsOld(before, l1, q.nodeidx, NewItem(id, supply(l1.count)).(removable := true));
      } else if ToolbarItem(q.layout, id).Some? {
        InsertedKeepsOld(before, q.layout, q.nodeidx, ToolbarItem(q.layout, id).value.(removable := true));
      }
    }
  }

  lemma MemberIsOld(before: seq<Element>, xs: seq<Element>, i: nat)
    requires OldOrRemovable(before, xs) && i < |xs|
    ensures xs[i] in before || xs[i].removable
  {
  }

  lemma {:induction false} KeptAreOld(before: seq<Element>, xs: seq<Element>)
    requires OldOrRemovable(before, xs)
    ensures OldOrRemovable(before, Kept(xs))
  {
    if xs != [] {
      assert OldOrRemovable(before, xs[1..]);
      KeptAreOld(before, xs[1..]);
    }
  }

  /** Whatever the setter brings onto the toolbar is removable; what was there keeps its mark. */
  lemma NewcomersAreRemovable(l: Layout, ids: seq<string>, supply: Supply)
    ensures forall e :: e in Reconciled(l, ids, supply).children ==> e in l.children || e.removable
  {
    hide PlaceAll, Kept;
    var p := PlacedAll(l, ids, supply);
    PlacedAllKeepsOld(l.children, Start(l), PaletteItems(Palette(l)), ids, supply);
    KeptAreOld(l.children, From(p.layout.children, p.nodeidx));
  }
}
