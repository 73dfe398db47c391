/** Setting the current set loses no element, doubles none, and leaves each with one parent. */
module ToolbarConservation {
  import opened ToolbarModel

  /** An element but for the attribute the setter writes. */
  function Bare(e: Element): Element {
    e.(removable := false)
  }

  function Bag(xs: seq<Element>): multiset<Element> {
    if xs == [] then multiset{} else multiset{Bare(xs[0])} + Bag(xs[1..])
  }

  /** Everything there is: on the toolbar, in the palette, and on the other toolbars. */
  function All(l: Layout): multiset<Element> {
    Bag(l.children) + Bag(Palette(l)) + Bag(Others(l))
  }

  /** Each element occurs once, in one place; and no two have the same id, unless they have none. */
  ghost predicate Unique(m: multiset<Element>) {
    && (forall x :: m[x] <= 1)
    && (forall x, y :: x in m && y in m && x.key == y.key ==> x == y)
    && (forall x, y :: x in m && y in m && x.id == y.id != "" ==> x == y)
  }

  ghost predicate Valid(l: Layout) {
    Unique(All(l))
  }

  /** Two creations never yield the same element or the same id. */
  predicate Differ(a: Created, b: Created) {
    a.key != b.key && a.id != b.id
  }

  /** The elements still to be created are new, and so are their ids. */
  ghost predicate Fresh(supply: Supply, l: Layout) {
    && (forall n :: l.count < n ==> supply(n).id != "")
    && (forall n, x :: l.count < n && x in All(l) ==> supply(n).key != x.key && supply(n).id != x.id)
    && (forall n, m :: l.count < n < m ==> Differ(supply(n), supply(m)))
  }

  // ---- Bags ----

  lemma {:induction false} BagJoin(xs: seq<Element>, ys: seq<Element>)
    ensures Bag(xs + ys) == Bag(xs) + Bag(ys)
  {
    if xs == [] {
      assert xs + ys == ys;
    } else {
      assert (xs + ys)[1..] == xs[1..] + ys;
      BagJoin(xs[1..], ys);
    }
  }

  lemma {:induction false} BagHas(xs: seq<Element>, i: nat)
    requires i < |xs|
    ensures Bare(xs[i]) in Bag(xs)
  {
    if i != 0 {
      BagHas(xs[1..], i - 1);
    }
  }

  lemma {:induction false} BagIndex(xs: seq<Element>, x: Element) returns (i: nat)
    requires x in Bag(xs)
    ensures i < |xs| && Bare(xs[i]) == x
  {
    if Bare(xs[0]) == x {
      i := 0;
    } else {
      i := BagIndex(xs[1..], x);
      i := i + 1;
    }
  }

  lemma {:induction false} BagCountsTwo(xs: seq<Element>, i: nat, j: nat)
    requires i < j < |xs|
    ensures Bare(xs[i]) == Bare(xs[j]) ==> 2 <= Bag(xs)[Bare(xs[i])]
  {
    if i == 0 {
      BagHas(xs[1..], j - 1);
    } else {
      BagCountsTwo(xs[1..], i - 1, j - 1);
    }
  }

  /** No two positions hold the same element, or elements with the same id. */
  lemma NoneTwice(xs: seq<Element>, i: nat, j: nat)
    requires i < j < |xs| && Unique(Bag(xs))
    ensures xs[i].key != xs[j].key
    ensures xs[i].id == xs[j].id ==> xs[i].id == ""
  {
    hide Bag;
    BagHas(xs, i);
    BagHas(xs, j);
    BagCountsTwo(xs, i, j);
    assert Bag(xs)[Bare(xs[i])] <= 1;
  }

  lemma {:induction false} WithoutCount(xs: seq<Element>, key: nat, x: Element)
    ensures Bag(Without(xs, key))[x] == if x.key == key then 0 else Bag(xs)[x]
  {
    if xs != [] {
      WithoutCount(xs[1..], key, x);
      var w := Without(xs[1..], key);
      if xs[0].key != key {
        assert ([xs[0]] + w)[1..] == w;
      } else {
        assert [] + w == w;
      }
    }
  }

  lemma {:induction false} WithoutEachCount(xss: seq<seq<Element>>, key: nat, x: Element)
    ensures Bag(Flatten(WithoutEach(xss, key)))[x] == if x.key == key then 0 else Bag(Flatten(xss))[x]
  {
    if xss != [] {
      WithoutCount(xss[0], key, x);
      WithoutEachCount(xss[1..], key, x);
      BagJoin(xss[0], Flatten(xss[1..]));
      BagJoin(Without(xss[0], key), Flatten(WithoutEach(xss[1..], key)));
      assert WithoutEach(xss, key)[1..] == WithoutEach(xss[1..], key);
    }
  }

  lemma {:induction false} WithoutAbsent(xs: seq<Element>, key: nat)
    requires forall i :: 0 <= i < |xs| ==> xs[i].key != key
    ensures Without(xs, key) == xs
  {
    if xs != [] {
      assert xs[0].key != key;
      WithoutAbsent(xs[1..], key);
    }
  }

  lemma BeforeFrom<T>(xs: seq<T>, at: nat)
    ensures Before(xs, at) + From(xs, at) == xs
  {
  }

  /** Inserting a node takes it away from wherever it is and puts it in once; nothing else changes. */
  lemma InsertedCount(l: Layout, at: nat, node: Element, x: Element)
    ensures All(Inserted(l, at, node))[x] ==
            if x.key == node.key then (if x == Bare(node) then 1 else 0) else All(l)[x]
  {
    hide Bag, Without, WithoutEach, Flatten, Before, From;
    var a, b := Before(l.children, at), From(l.children, at);
    BeforeFrom(l.children, at);
    BagJoin(a, b);
    WithoutCount(a, node.key, x);
    WithoutCount(b, node.key, x);
    BagOne(node);
    BagJoin(Without(a, node.key), [node]);
    BagJoin(Without(a, node.key) + [node], Without(b, node.key));
    WithoutCount(Palette(l), node.key, x);
    BagNothing();
    if l.toolbox.Some? {
      WithoutEachCount(l.toolbox.value.others, node.key, x);
    }
  }

  lemma {:induction false} WithoutJoin(xs: seq<Element>, ys: seq<Element>, key: nat)
    ensures Without(xs + ys, key) == Without(xs, key) + Without(ys, key)
  {
    if xs == [] {
      assert xs + ys == ys;
    } else {
      assert (xs + ys)[1..] == xs[1..] + ys;
      WithoutJoin(xs[1..], ys, key);
    }
  }

  lemma {:induction false} WithoutTwice(xs: seq<Element>, key: nat)
    ensures Without(Without(xs, key), key) == Without(xs, key)
    ensures forall e :: e in Without(xs, key) <==> e in xs && e.key != key
  {
    if xs != [] {
      WithoutTwice(xs[1..], key);
      WithoutJoin(if xs[0].key == key then [] else [xs[0]], Without(xs[1..], key), key);
    }
  }

  /** `node` is child `k` and no other child, right before what `b` begins with, last if `b` is empty. */
  predicate StandsAt(children: seq<Element>, k: nat, node: Element, b: seq<Element>) {
    && k < |children| && children[k] == node
    && (forall j :: 0 <= j < |children| && j != k ==> children[j].key != node.key)
    && (b == [] ==> k + 1 == |children|)
    && (b != [] && b[0].key != node.key ==> k + 1 < |children| && children[k + 1] == b[0])
  }

  lemma PutBetween(a: seq<Element>, b: seq<Element>, node: Element)
    ensures StandsAt(Without(a, node.key) + [node] + Without(b, node.key), |Without(a, node.key)|, node, b)
  {
    hide Without;
    var a', b' := Without(a, node.key), Without(b, node.key);
    var children := a' + [node] + b';
    WithoutTwice(a, node.key);
    WithoutTwice(b, node.key);
    WithoutStart(b, node.key);
    forall j | 0 <= j < |children| && j != |a'| ensures children[j].key != node.key {
      assert if j < |a'| then children[j] in a' else children[j] in b';
    }
  }

  lemma WithoutStart(b: seq<Element>, key: nat)
    ensures b == [] ==> Without(b, key) == []
    ensures b != [] && b[0].key != key ==> Without(b, key) != [] && Without(b, key)[0] == b[0]
  {
  }

  /** Where an inserted node is: on the toolbar only, right before the child at the given place, and
      last if there is none; every other element keeps its place among the rest. */
  lemma InsertedOrder(l: Layout, at: nat, node: Element)
    ensures var l' := Inserted(l, at, node);
            && (exists k :: StandsAt(l'.children, k, node, From(l.children, at)))
            && Without(l'.children, node.key) == Without(l.children, node.key)
            && Palette(l') == Without(Palette(l), node.key)
            && Others(l') == Without(Others(l), node.key)
  {
    hide StandsAt, Before, From, Without, Flatten, WithoutEach;
    var a, b := Before(l.children, at), From(l.children, at);
    var a', b' := Without(a, node.key), Without(b, node.key);
    PutBetween(a, b, node);
    BeforeFrom(l.children, at);
    WithoutJoin(a, b, node.key);
    WithoutTwice(a, node.key);
    WithoutTwice(b, node.key);
    WithoutJoin(a' + [node], b', node.key);
    WithoutJoin(a', [node], node.key);
    WithoutOnly(node);
    assert a' + [] + b' == a' + b';
    assert StandsAt(Inserted(l, at, node).children, |a'|, node, b);
    if l.toolbox.Some? {
      FlattenWithout(l.toolbox.value.others, node.key);
    }
  }

  lemma WithoutOnly(e: Element)
    ensures Without([e], e.key) == [] && Without([], e.key) == [] && Flatten([]) == []
  {
  }

  lemma {:induction false} FlattenWithout(xss: seq<seq<Element>>, key: nat)
    ensures Flatten(WithoutEach(xss, key)) == Without(Flatten(xss), key)
  {
    if xss != [] {
      FlattenWithout(xss[1..], key);
      WithoutJoin(xss[0], Flatten(xss[1..]), key);
      assert WithoutEach(xss, key)[1..] == WithoutEach(xss[1..], key);
    }
  }

  lemma BagOne(e: Element)
    ensures Bag([e]) == multiset{Bare(e)}
  {
  }

  lemma BagNothing()
    ensures Bag([]) == multiset{}
  {
  }

  // ---- What every requested id keeps ----

  function Ids(xs: seq<Element>): set<string> {
    set i | 0 <= i < |xs| :: xs[i].id
  }

  /** All there was is still there, and the new items; the children in place are the added ones. */
  ghost predicate Kempt(l0: Layout, p: Progress, supply: Supply) {
    && All(p.layout) == All(l0) + Bag(p.made)
    && Valid(p.layout) && Fresh(supply, p.layout)
    && p.nodeidx <= |p.layout.children| && p.added == Ids(p.layout.children[..p.nodeidx])
    && p.layout.count == l0.count + |p.made|
    && forall i :: 0 <= i < |p.made| ==>
         IsMade(p.made[i], supply(l0.count + 1 + i))
  }

  /** An item made for a special name by this creation. */
  predicate IsMade(item: Element, created: Created) {
    && item.key == created.key && item.id == created.id && IsSpecial(IdFromNode(item))
    && item.localName == "toolbar" + IdFromNode(item)
  }

  /** No child in place is this node. */
  predicate NotInPlace(p: Progress, node: Element) {
    forall i :: 0 <= i < p.nodeidx && i < |p.layout.children| ==> p.layout.children[i].key != node.key
  }

  lemma PrefixKeeps(p: Progress, node: Element)
    requires p.nodeidx <= |p.layout.children| && p.added == Ids(p.layout.children[..p.nodeidx]) && NotInPlace(p, node)
    ensures var p' := Placed(p, node);
            var children := p.layout.children;
            && p'.layout.children == children[..p.nodeidx] + [node] + Without(children[p.nodeidx..], node.key)
            && p'.nodeidx <= |p'.layout.children|
            && p'.added == Ids(p'.layout.children[..p'.nodeidx])
            && p'.layout.children[..p'.nodeidx] == children[..p.nodeidx] + [node]
  {
    hide WithoutEach;
    var prefix, tail := p.layout.children[..p.nodeidx], p.layout.children[p.nodeidx..];
    assert Before(p.layout.children, p.nodeidx) == prefix && From(p.layout.children, p.nodeidx) == tail;
    WithoutAbsent(prefix, node.key);
    var p' := Placed(p, node);
    assert p'.layout.children[..p.nodeidx + 1] == prefix + [node];
    IdsAppend(prefix, node);
  }

  lemma IdsAppend(xs: seq<Element>, x: Element)
    ensures Ids(xs + [x]) == Ids(xs) + {x.id}
  {
    var ys := xs + [x];
    assert forall i :: 0 <= i < |xs| ==> ys[i] == xs[i];
    assert ys[|xs|] == x;
  }

  /** Placing an element that exists somewhere changes only where it is. */
  lemma PlacedKeeps(l0: Layout, p: Progress, node: Element, supply: Supply)
    requires Kempt(l0, p, supply) && NotInPlace(p, node) && Bare(node) in All(p.layout)
    ensures Kempt(l0, Placed(p, node), supply)
  {
    hide Inserted, All, Bag, Ids;
    var p' := Placed(p, node);
    PrefixKeeps(p, node);
    forall x ensures All(p'.layout)[x] == All(p.layout)[x] {
      InsertedCount(p.layout, p.nodeidx, node, x);
    }
    assert All(p'.layout) == All(p.layout);
    InsertedCounter(p.layout, p.nodeidx, node);
  }

  lemma InsertedCounter(l: Layout, at: nat, node: Element)
    ensures Inserted(l, at, node).count == l.count
  {
  }

  /** A node with a new id is added to all there is. */
  lemma InsertedNew(l: Layout, at: nat, node: Element)
    requires forall x :: x in All(l) ==> x.key != node.key
    ensures All(Inserted(l, at, node)) == All(l) + multiset{Bare(node)}
  {
    hide Inserted, All;
    forall x ensures All(Inserted(l, at, node))[x] == (All(l) + multiset{Bare(node)})[x] {
      InsertedCount(l, at, node, x);
      assert x.key == node.key ==> x !in All(l);
    }
  }

  lemma GrownIsUnique(m: multiset<Element>, item: Element)
    requires Unique(m) && forall x :: x in m ==> x.key != item.key && x.id != item.id
    ensures Unique(m + multiset{item})
  {
    var m' := m + multiset{item};
    forall x ensures m'[x] <= 1 {
      assert m[x] <= 1 && (x == item ==> x !in m);
    }
    forall x, y | x in m' && y in m' && (x.key == y.key || x.id == y.id != "") ensures x == y {
      assert (x in m || x == item) && (y in m || y == item);
    }
  }

  lemma NewItemShows(id: string, created: Created)
    requires IsSpecial(id)
    ensures IdFromNode(NewItem(id, created)) == id && IsMade(NewItem(id, created), created)
    ensures Bare(NewItem(id, created)) == NewItem(id, created)
    ensures Bare(NewItem(id, created).(removable := true)) == NewItem(id, created)
  {
    assert "toolbar" + "separator" == "toolbarseparator";
    assert "toolbar" + "spring" == "toolbarspring";
    assert "toolbar" + "spacer" == "toolbarspacer";
  }

  /** Placing a new item adds it. */
  lemma NewItemKeeps(l0: Layout, p: Progress, id: string, supply: Supply)
    requires Kempt(l0, p, supply) && IsSpecial(id)
    ensures var item := NewItem(id, supply(p.layout.count + 1));
            var p1 := p.(layout := p.layout.(count := p.layout.count + 1), made := p.made + [item]);
            item.id !in p.added && Kempt(l0, Placed(p1, item.(removable := true)), supply)
  {
    hide Inserted, Bag, Ids, Palette, Others, All, Unique, IdFromNode, NewItem, Without, Fresh, IsMade, Placed;
    NewestIsNew(p.layout, id, supply);
    NewItemShows(id, supply(p.layout.count + 1));
    var item := NewItem(id, supply(p.layout.count + 1));
    var node := item.(removable := true);
    var l1 := p.layout.(count := p.layout.count + 1);
    var p1 := p.(layout := l1, made := p.made + [item]);
    SameElements(p.layout, l1);
    NewIsNotAdded(p, item);
    PrefixKeeps(p1, node);
    InsertedCounter(l1, p.nodeidx, node);
    BagOne(item);
    BagJoin(p.made, [item]);
    InsertedNew(l1, p.nodeidx, node);
    GrownIsUnique(All(p.layout), item);
    FreshStays(p.layout, Inserted(l1, p.nodeidx, node), item, supply);
    PlacedParts(p1, node);
  }

  lemma PlacedParts(p: Progress, node: Element)
    ensures var p' := Placed(p, node);
            && p'.layout == Inserted(p.layout, p.nodeidx, node) && p'.nodeidx == p.nodeidx + 1 && p'.made == p.made
  {
  }

  /** The next new item is none of the elements there are. */
  lemma NewestIsNew(l: Layout, id: string, supply: Supply)
    requires Fresh(supply, l)
    ensures var item := NewItem(id, supply(l.count + 1));
            forall x :: x in All(l) ==> x.key != item.key && x.id != item.id
  {
  }

  /** Once it is there, the creations to come are still new. */
  lemma FreshStays(l: Layout, l': Layout, item: Element, supply: Supply)
    requires Fresh(supply, l) && l'.count == l.count + 1 && All(l') == All(l) + multiset{item}
    requires IsMade(item, supply(l.count + 1))
    ensures Fresh(supply, l')
  {
    hide All;
    forall n, x | l'.count < n && x in All(l') ensures supply(n).key != x.key && supply(n).id != x.id {
      assert Differ(supply(l.count + 1), supply(n));
      assert x in All(l) || x == item;
    }
  }

  lemma SameElements(l: Layout, l': Layout)
    requires l'.children == l.children && l'.toolbox == l.toolbox
    ensures All(l') == All(l)
  {
  }

  lemma NewIsNotAdded(p: Progress, item: Element)
    requires p.nodeidx <= |p.layout.children| && p.added == Ids(p.layout.children[..p.nodeidx])
    requires forall x :: x in All(p.layout) ==> x.key != item.key && x.id != item.id
    ensures item.id !in p.added && NotInPlace(p, item)
  {
    hide Bag;
    var prefix := p.layout.children[..p.nodeidx];
    forall i | 0 <= i < |prefix| ensures prefix[i].id != item.id && prefix[i].key != item.key {
      BagHas(p.layout.children, i);
      assert Bare(prefix[i]) in All(p.layout);
    }
  }

  lemma {:induction false} FindFinds(xs: seq<Element>, id: string)
    ensures Find(xs, id).Some? ==> Find(xs, id).value.id == id && Bare(Find(xs, id).value) in Bag(xs)
    ensures Find(xs, id).None? ==> forall i :: 0 <= i < |xs| ==> xs[i].id != id
  {
    if xs != [] {
      FindFinds(xs[1..], id);
    }
  }

  /** What _getToolbarItem finds is somewhere, under that id. */
  lemma ToolbarItemExists(l: Layout, id: string)
    ensures ToolbarItem(l, id).Some? ==> ToolbarItem(l, id).value.id == id && Bare(ToolbarItem(l, id).value) in All(l)
  {
    hide Bag, Find, Flatten;
    FindFinds(l.children + Others(l), id);
    FindFinds(Palette(l), id);
    BagJoin(l.children, Others(l));
  }

  /** The cache holds items of the palette under their ids. */
  ghost predicate Cached(items: map<string, Element>, l: Layout) {
    forall id :: id in items ==> items[id].id == id && Bare(items[id]) in All(l)
  }

  lemma {:induction false} PaletteItemsCached(palette: seq<Element>)
    ensures forall id :: id in PaletteItems(palette) ==>
              PaletteItems(palette)[id].id == id && Bare(PaletteItems(palette)[id]) in Bag(palette)
    ensures forall i :: 0 <= i < |palette| ==> palette[i].id in PaletteItems(palette)
    decreases palette
  {
    if palette != [] {
      var init, e := palette[..|palette| - 1], palette[|palette| - 1];
      PaletteItemsCached(init);
      assert palette == init + [e];
      BagJoin(init, [e]);
      BagOne(e);
      forall i | 0 <= i < |palette| ensures palette[i].id in PaletteItems(palette) {
        if i < |init| {
          assert palette[i] == init[i];
        }
      }
    }
  }

  lemma InSum(a: multiset<Element>, b: multiset<Element>, x: Element)
    requires x in a
    ensures x in a + b
  {
  }

  lemma PlaceKeeps(l0: Layout, p: Progress, items: map<string, Element>, id: string, supply: Supply)
    requires Kempt(l0, p, supply) && Cached(items, l0)
    ensures Kempt(l0, Place(p, items, id, supply), supply)
  {
    hide All, Bag, Placed, ToolbarItem, Fresh, NewItem, Unique;
    var children := p.layout.children;
    var i := FirstMatch(children, p.nodeidx, id);
    if i < |children| {
      if i == p.nodeidx {
        assert children[..i + 1] == children[..i] + [children[i]];
        IdsAppend(children[..i], children[i]);
      } else {
        ChildIsPlaceable(p, i);
        PlacedKeeps(l0, p, children[i], supply);
      }
    } else if id in items {
      assert Bare(items[id]) in All(p.layout) by { InSum(All(l0), Bag(p.made), Bare(items[id])); }
      AdoptedKeeps(l0, p, items[id], supply);
    } else if IsSpecial(id) {
      NewItemKeeps(l0, p, id, supply);
    } else {
      ToolbarItemExists(p.layout, id);
      if ToolbarItem(p.layout, id).Some? {
        AdoptedKeeps(l0, p, ToolbarItem(p.layout, id).value, supply);
      }
    }
  }

  lemma AdoptedKeeps(l0: Layout, p: Progress, item: Element, supply: Supply)
    requires Kempt(l0, p, supply) && Bare(item) in All(p.layout)
    ensures Kempt(l0, Adopted(p, Some(item)), supply)
  {
    hide Kempt, Placed, All;
    if item.id !in p.added {
      NotAddedNotInPlace(l0, p, item, supply);
      PlacedKeeps(l0, p, item.(removable := true), supply);
    }
  }

  /** An element whose id has not been added is not in place. */
  lemma NotAddedNotInPlace(l0: Layout, p: Progress, item: Element, supply: Supply)
    requires Kempt(l0, p, supply) && Bare(item) in All(p.layout) && item.id !in p.added
    ensures NotInPlace(p, item.(removable := true))
  {
    hide Bag;
    var prefix := p.layout.children[..p.nodeidx];
    forall i | 0 <= i < p.nodeidx ensures p.layout.children[i].key != item.key {
      BagHas(p.layout.children, i);
      assert Bare(prefix[i]) in All(p.layout) && prefix[i].id in Ids(prefix);
    }
  }

  /** A child behind the placed ones is none of them. */
  lemma ChildIsPlaceable(p: Progress, i: nat)
    requires Unique(All(p.layout)) && p.nodeidx <= i < |p.layout.children|
    ensures NotInPlace(p, p.layout.children[i])
    ensures Bare(p.layout.children[i]) in All(p.layout)
  {
    hide Bag;
    var children := p.layout.children;
    assert Unique(Bag(children)) by { UniquePart(Bag(children), Bag(Palette(p.layout)) + Bag(Others(p.layout)), All(p.layout)); }
    forall j | 0 <= j < p.nodeidx ensures children[j].key != children[i].key {
      NoneTwice(children, j, i);
    }
    BagHas(children, i);
  }

  lemma UniquePart(a: multiset<Element>, b: multiset<Element>, m: multiset<Element>)
    requires m == a + b && Unique(m)
    ensures Unique(a)
  {
    forall x ensures a[x] <= 1 {
      assert m[x] <= 1;
    }
    forall x, y | x in a && y in a && (x.key == y.key || x.id == y.id != "") ensures x == y {
      assert x in m && y in m;
    }
  }

  lemma {:induction false} PlaceAllKeeps(l0: Layout, p: Progress, items: map<string, Element>, ids: seq<string>, supply: Supply)
    requires Kempt(l0, p, supply) && Cached(items, l0)
    ensures Kempt(l0, PlaceAll(p, items, ids, supply), supply)
    decreases ids
  {
    hide Kempt, Place;
    if ids != [] {
      PlaceAllKeeps(l0, p, items, ids[..|ids| - 1], supply);
      PlaceKeeps(l0, PlaceAll(p, items, ids[..|ids| - 1], supply), items, ids[|ids| - 1], supply);
    }
  }

  lemma StartKept(l: Layout, supply: Supply)
    requires Valid(l) && Fresh(supply, l)
    ensures Kempt(l, Start(l), supply) && Cached(PaletteItems(Palette(l)), l)
  {
    hide Bag;
    BagNothing();
    PaletteItemsCached(Palette(l));
    assert All(l) + Bag([]) == All(l);
  }

  // ---- The sweep ----

  lemma {:induction false} SweepSplits(xs: seq<Element>)
    ensures Bag(xs) == Bag(Kept(xs)) + Bag(Swept(xs))
  {
    if xs != [] {
      SweepSplits(xs[1..]);
      BagOne(xs[0]);
      BagNothing();
      BagJoin(if Leaves(xs[0]) then [] else [xs[0]], Kept(xs[1..]));
      BagJoin(Swept(xs[1..]), if Leaves(xs[0]) then [xs[0]] else []);
    }
  }

  /** The elements the setter drops: what it sweeps when there is no palette to take it. */
  function Dropped(l: Layout, ids: seq<string>, supply: Supply): seq<Element> {
    var p := PlacedAll(l, ids, supply);
    if p.layout.toolbox.Some? && p.layout.toolbox.value.palette.Some? then []
    else Swept(From(p.layout.children, p.nodeidx))
  }

  /** Conservation, for any requested ids whatever: toolbars and palette hold exactly what they held,
      the special items created, and not what was dropped for want of a palette; every element
      occurs once, and so has one parent. */
  lemma Conservation(l: Layout, ids: seq<string>, supply: Supply)
    requires Valid(l) && Fresh(supply, l)
    ensures var l', made := Reconciled(l, ids, supply), PlacedAll(l, ids, supply).made;
            && All(l') + Bag(Dropped(l, ids, supply)) == All(l) + Bag(made)
            && Valid(l') && Fresh(supply, l') && l'.count == l.count + |made|
            && forall i :: 0 <= i < |made| ==> IsMade(made[i], supply(l.count + 1 + i))
  {
    hide Bag, PlaceAll, Start, Valid, Fresh, All, Dropped;
    var p, l' := PlacedAll(l, ids, supply), Reconciled(l, ids, supply);
    StartKept(l, supply);
    PlaceAllKeeps(l, Start(l), PaletteItems(Palette(l)), ids, supply);
    SweepKeeps(l, ids, supply);
    assert All(l) + Bag(p.made) == All(p.layout);
    SubLayout(p.layout, l', Bag(Dropped(l, ids, supply)), supply);
  }

  lemma SweepKeeps(l: Layout, ids: seq<string>, supply: Supply)
    ensures All(Reconciled(l, ids, supply)) + Bag(Dropped(l, ids, supply)) == All(PlacedAll(l, ids, supply).layout)
  {
    hide Bag, PlaceAll, Kept, Swept, Start, Before, From, PaletteItems;
    var p, l' := PlacedAll(l, ids, supply), Reconciled(l, ids, supply);
    var a, b := Before(p.layout.children, p.nodeidx), From(p.layout.children, p.nodeidx);
    BeforeFrom(p.layout.children, p.nodeidx);
    BagJoin(a, b);
    SweepSplits(b);
    BagJoin(a, Kept(b));
    BagJoin(Palette(p.layout), Swept(b));
    BagNothing();
  }

  lemma SubLayout(l: Layout, l': Layout, dropped: multiset<Element>, supply: Supply)
    requires Valid(l) && Fresh(supply, l) && All(l) == All(l') + dropped && l'.count == l.count
    ensures Valid(l') && Fresh(supply, l')
  {
    hide All;
    UniquePart(All(l'), dropped, All(l));
    assert forall x :: x in All(l') ==> x in All(l);
  }
}
