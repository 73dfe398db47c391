/** Several toolbars of one toolbox: setting each to its default set, one after another, leaves every
    one of them with it. */
module ToolbarRestore {
  import opened ToolbarModel
  import opened ToolbarConservation
  import opened ToolbarSetGet
  import opened ToolbarOthers

  // ---- Items taken away and what is left of another toolbar's list ----

  ghost predicate Apart(ids: seq<string>, ids': seq<string>) {
    forall id :: id in ids && id in ids' ==> IsSpecial(id)
  }

  lemma {:induction false} RemoveFirstDrop(xs: seq<Element>, ids: seq<string>, id: string)
    requires id in ids ==> IsSpecial(id)
    ensures RemoveFirst(Drop(xs, ids), id) == Drop(RemoveFirst(xs, id), ids)
  {
    hide IdFromNode, IsSpecial;
    if xs != [] {
      RemoveFirstDrop(xs[1..], ids, id);
      var dropped, removed := Drop(xs[1..], ids), RemoveFirst(xs[1..], id);
      assert [] + dropped == dropped && ([xs[0]] + dropped)[1..] == dropped && ([xs[0]] + removed)[1..] == removed;
    }
  }

  lemma {:induction false} UnmatchedDrop(xs: seq<Element>, ids: seq<string>, ids': seq<string>)
    requires Apart(ids, ids')
    ensures Unmatched(Drop(xs, ids), ids') == Drop(Unmatched(xs, ids'), ids)
    decreases ids'
  {
    hide Drop, RemoveFirst, IsSpecial;
    if ids' != [] {
      UnmatchedDrop(xs, ids, ids'[..|ids'| - 1]);
      RemoveFirstDrop(Unmatched(xs, ids'[..|ids'| - 1]), ids, ids'[|ids'| - 1]);
    }
  }

  lemma {:induction false} PrintedAll(xs: seq<Element>, e: Element)
    requires e in xs && IdFromNode(e) != ""
    ensures IdFromNode(e) in Printed(xs)
  {
    hide IdFromNode;
    if e != xs[0] {
      PrintedAll(xs[1..], e);
    }
  }

  /** Nothing is taken from a toolbar that shows only ids asked for by no one else. */
  lemma ShownStays(xs: seq<Element>, ids: seq<string>)
    requires Apart(ids, Printed(xs))
    ensures Drop(xs, ids) == xs
  {
    hide IdFromNode, Printed, IsSpecial;
    forall e | e in xs ensures !Wanted(e, ids) {
      if Wanted(e, ids) {
        PrintedAll(xs, e);
      }
    }
    DropNothing(xs, ids);
  }

  lemma {:induction false} DropFewer(xs: seq<Element>, ids: seq<string>)
    ensures forall e :: e in Drop(xs, ids) ==> e in xs
  {
    hide Wanted;
    if xs != [] {
      DropFewer(xs[1..], ids);
    }
  }

  lemma RestStaysRemovable(xs: seq<Element>, ids: seq<string>, ids': seq<string>)
    requires Apart(ids, ids') && NoneFixed(Unmatched(xs, ids'))
    ensures NoneFixed(Unmatched(Drop(xs, ids), ids'))
  {
    hide Unmatched, Drop;
    UnmatchedDrop(xs, ids, ids');
    DropFewer(Unmatched(xs, ids'), ids);
  }

  // ---- Lists as strings ----

  /** An id that can stand in a list: it is neither cut up nor read as the empty list. */
  predicate PlainId(id: string) {
    ',' !in id && id != "__empty"
  }

  lemma {:induction false} SplitFirst(id: string, rest: string)
    requires ',' !in id
    ensures Split(id) == [id] && Split(id + "," + rest) == [id] + Split(rest)
  {
    if id == "" {
      assert id + "," + rest == "," + rest && ("," + rest)[1..] == rest;
    } else {
      SplitFirst(id[1..], rest);
      assert (id + "," + rest)[1..] == id[1..] + "," + rest;
      assert id == [id[0]] + id[1..];
    }
  }

  /** Splitting what was joined gives back the ids. */
  lemma {:induction false} SplitJoin(ids: seq<string>)
    requires ids != [] && forall id :: id in ids ==> ',' !in id
    ensures Split(Join(ids)) == ids
  {
    hide Split;
    assert ids[0] in ids;
    if |ids| == 1 {
      SplitFirst(ids[0], "");
    } else {
      assert forall id :: id in ids[1..] ==> id in ids;
      SplitJoin(ids[1..]);
      SplitFirst(ids[0], Join(ids[1..]));
    }
  }

  /** What a toolbar of plain ids reads as asks for just these ids. */
  lemma {:induction false} ShownIsRequested(ids: seq<string>)
    requires forall id :: id in ids ==> PlainId(id) && id != ""
    ensures Requested(Shown(ids)) == ids
  {
    hide Split;
    if ids != [] {
      assert ids[0] in ids;
      SplitJoin(ids);
      assert Join(ids) != "" by {
        SplitNothing();
      }
      if |ids| > 1 {
        assert Join(ids)[|ids[0]|] == ',' && ',' in Join(ids);
      }
    }
  }

  // ---- One toolbox with several toolbars ----

  datatype Bar = Bar(children: seq<Element>, count: nat)
  datatype Box = Box(palette: seq<Element>, bars: seq<Bar>)

  function ChildrenOf(bars: seq<Bar>): seq<seq<Element>> {
    seq(|bars|, i requires 0 <= i < |bars| => bars[i].children)
  }

  /** The toolbox as its toolbar `k` sees it. */
  function Seen(box: Box, k: nat): Layout
    requires k < |box.bars|
  {
    Layout(box.bars[k].children, Some(Toolbox(Some(box.palette), ChildrenOf(box.bars[..k]) + ChildrenOf(box.bars[k + 1..]))),
           box.bars[k].count)
  }

  predicate Shaped(l: Layout, others: nat) {
    l.toolbox.Some? && l.toolbox.value.palette.Some? && |l.toolbox.value.others| == others
  }

  /** Assigning the current set of toolbar `k`. */
  function Assigned(box: Box, k: nat, val: string, supply: Supply): Box
    requires k < |box.bars|
  {
    var l := WithCurrentSet(Seen(box, k), val, supply);
    ShapeKept(Seen(box, k), val, supply, |box.bars| - 1);
    var others := l.toolbox.value.others;
    Box(l.toolbox.value.palette.value,
        seq(|box.bars|, j requires 0 <= j < |box.bars| =>
          if j == k then Bar(l.children, l.count) else Bar(others[if j < k then j else j - 1], box.bars[j].count)))
  }

  /** Toolbars with a default set get it, one after another; the first `n` of them. */
  function Restored(box: Box, sets: seq<string>, supplies: seq<Supply>, n: nat): (r: Box)
    requires n <= |sets| == |supplies| == |box.bars|
    ensures |r.bars| == |box.bars|
  {
    if n == 0 then box
    else
      var r := Restored(box, sets, supplies, n - 1);
      if sets[n - 1] == "" then r else Assigned(r, n - 1, sets[n - 1], supplies[n - 1])
  }

  lemma PlaceShaped(p: Progress, items: map<string, Element>, id: string, supply: Supply, others: nat)
    requires Shaped(p.layout, others)
    ensures Shaped(Place(p, items, id, supply).layout, others)
  {
    hide ToolbarItem, FirstMatch, NewItem, WithoutEach;
  }

  lemma {:induction false} PlaceAllShaped(p: Progress, items: map<string, Element>, ids: seq<string>, supply: Supply, others: nat)
    requires Shaped(p.layout, others)
    ensures Shaped(PlaceAll(p, items, ids, supply).layout, others)
    decreases ids
  {
    hide Place, Shaped;
    if ids != [] {
      PlaceAllShaped(p, items, ids[..|ids| - 1], supply, others);
      PlaceShaped(PlaceAll(p, items, ids[..|ids| - 1], supply), items, ids[|ids| - 1], supply, others);
    }
  }

  lemma ShapeKept(l: Layout, val: string, supply: Supply, others: nat)
    requires Shaped(l, others)
    ensures Shaped(WithCurrentSet(l, val, supply), others)
  {
    hide PlaceAll;
    PlaceAllShaped(Start(l), PaletteItems(Palette(l)), Requested(val), supply, others);
  }

  /** Everything in the toolbox, whichever toolbar looks at it. */
  function Everything(box: Box): multiset<Element> {
    Bag(box.palette) + Bag(Flatten(ChildrenOf(box.bars)))
  }

  lemma {:induction false} FlattenJoin(a: seq<seq<Element>>, b: seq<seq<Element>>)
    ensures Flatten(a + b) == Flatten(a) + Flatten(b)
  {
    if a == [] {
      assert a + b == b;
    } else {
      assert (a + b)[1..] == a[1..] + b;
      FlattenJoin(a[1..], b);
    }
  }

  lemma SeenAll(box: Box, k: nat)
    requires k < |box.bars|
    ensures All(Seen(box, k)) == Everything(box)
  {
    hide Bag, Flatten;
    var a, c, b := ChildrenOf(box.bars[..k]), box.bars[k].children, ChildrenOf(box.bars[k + 1..]);
    assert ChildrenOf(box.bars) == a + ([c] + b);
    FlattenJoin(a, [c] + b);
    FlattenJoin([c], b);
    FlattenJoin(a, b);
    FlattenOne(c);
    BagJoin(Flatten(a), c + Flatten(b));
    BagJoin(c, Flatten(b));
    BagJoin(Flatten(a), Flatten(b));
  }

  lemma FlattenOne(xs: seq<Element>)
    ensures Flatten([xs]) == xs
  {
    assert Flatten([]) == [] && xs + [] == xs;
  }

  /** Which toolbar is which before and after. */
  lemma AssignedSeen(box: Box, k: nat, val: string, supply: Supply)
    requires k < |box.bars|
    ensures var l, l', box' := Seen(box, k), WithCurrentSet(Seen(box, k), val, supply), Assigned(box, k, val, supply);
            && |box'.bars| == |box.bars| && Seen(box', k) == l'
            && box'.bars[k] == Bar(l'.children, l'.count)
            && |OtherBars(l)| == |OtherBars(l')| == |box.bars| - 1
            && forall j :: 0 <= j < |box.bars| && j != k ==>
                 var i := if j < k then j else j - 1;
                 && box.bars[j].children == OtherBars(l)[i] && box'.bars[j].children == OtherBars(l')[i]
                 && box'.bars[j].count == box.bars[j].count
  {
    hide WithCurrentSet;
    var l', box' := WithCurrentSet(Seen(box, k), val, supply), Assigned(box, k, val, supply);
    ShapeKept(Seen(box, k), val, supply, |box.bars| - 1);
    assert ChildrenOf(box'.bars[..k]) + ChildrenOf(box'.bars[k + 1..]) == l'.toolbox.value.others;
  }

  // ---- Each setter ----

  /** Whatever is there, or one of the creations after the first `count` up to `count'`. */
  ghost predicate OldOrMade(x: Element, before: multiset<Element>, supply: Supply, count: nat, count': nat) {
    x in before || exists i :: count < i <= count' && x.key == supply(i).key && x.id == supply(i).id
  }

  ghost predicate PlainIds(m: multiset<Element>) {
    forall x :: x in m ==> PlainId(x.id)
  }

  lemma {:induction false} PrintedIsPlain(xs: seq<Element>)
    requires PlainIds(Bag(xs))
    ensures forall id :: id in Printed(xs) ==> PlainId(id) && id != ""
  {
    hide IdFromNode, PlainId;
    if xs != [] {
      assert Bare(xs[0]) in Bag(xs) && forall x :: x in Bag(xs[1..]) ==> x in Bag(xs);
      PrintedIsPlain(xs[1..]);
      ShownIsPlain(xs[0]);
    }
  }

  lemma ShownIsPlain(e: Element)
    requires PlainId(e.id)
    ensures PlainId(IdFromNode(e))
  {
  }

  /** The setter on one of several toolbars: what it reads as, what is there afterwards, and what the
      others have lost. */
  lemma OneRestored(l: Layout, val: string, supply: Supply)
    requires Shaped(l, |OtherBars(l)|) && Valid(l) && NoSpecialIds(l) && PlainIds(All(l)) && Fresh(supply, l)
    requires Requestable(l, Requested(val)) && NoneFixed(Unmatched(l.children, Requested(val)))
    ensures var l', ids := WithCurrentSet(l, val, supply), Requested(val);
            && Printed(l'.children) == ids && Valid(l') && l.count <= l'.count
            && (forall x :: x in All(l) ==> x in All(l'))
            && (forall x :: x in All(l') ==> OldOrMade(x, All(l), supply, l.count, l'.count))
            && (OtherBars(l') == OtherBars(l) || OtherBars(l') == DropEach(OtherBars(l), ids))
  {
    hide Reconciled, Printed, NoneFixed, Unmatched, Split, Requestable, NoSpecialIds, Valid, Fresh, All, Shown, Requested, DropEach, OldOrMade;
    var ids := Requested(val);
    if val == Shown(Printed(l.children)) {
      ChildrenArePlain(l);
      PrintedIsPlain(l.children);
      ShownIsRequested(Printed(l.children));
      OldIsThere(l, supply, l.count);
    } else {
      GetsWhatWasSet(l, ids, supply);
      Conservation(l, ids, supply);
      NothingDropped(l, ids, supply);
      OthersLose(l, ids, supply);
      NewIsMade(l, ids, supply);
    }
  }

  lemma ChildrenArePlain(l: Layout)
    requires PlainIds(All(l))
    ensures PlainIds(Bag(l.children))
  {
    hide Bag, PlainId;
    assert forall x :: x in Bag(l.children) ==> x in All(l);
  }

  lemma OldIsThere(l: Layout, supply: Supply, count: nat)
    ensures forall x :: x in All(l) ==> OldOrMade(x, All(l), supply, l.count, count)
  {
  }

  lemma NothingDropped(l: Layout, ids: seq<string>, supply: Supply)
    requires Shaped(l, |OtherBars(l)|)
    ensures Bag(Dropped(l, ids, supply)) == multiset{}
  {
    hide PlaceAll;
    PlaceAllShaped(Start(l), PaletteItems(Palette(l)), ids, supply, |OtherBars(l)|);
  }

  lemma NewIsMade(l: Layout, ids: seq<string>, supply: Supply)
    requires Valid(l) && Fresh(supply, l) && Bag(Dropped(l, ids, supply)) == multiset{}
    ensures var l' := Reconciled(l, ids, supply);
            && (forall x :: x in All(l) ==> x in All(l'))
            && (forall x :: x in All(l') ==> OldOrMade(x, All(l), supply, l.count, l'.count))
  {
    hide Reconciled, PlacedAll, All, Bag, Valid, Fresh, Dropped;
    var l', made := Reconciled(l, ids, supply), PlacedAll(l, ids, supply).made;
    Conservation(l, ids, supply);
    assert All(l') == All(l) + Bag(made);
    forall x | x in All(l') ensures OldOrMade(x, All(l), supply, l.count, l'.count) {
      if x !in All(l) {
        var i := BagIndex(made, x);
        assert IsMade(made[i], supply(l.count + 1 + i));
      }
    }
  }

  // ---- All of them ----

  /** Elements and ids are unique, and ids are neither special names nor unfit for a list. */
  ghost predicate Sane(box: Box) {
    && Unique(Everything(box)) && PlainIds(Everything(box))
    && forall x :: x in Everything(box) ==> !IsSpecial(x.id)
  }

  predicate GoodId(created: Created) {
    created.id != "" && PlainId(created.id) && !IsSpecial(created.id)
  }

  /** What the toolbars still have to create is new, and differs from one to another. */
  ghost predicate Supplied(box: Box, supplies: seq<Supply>) {
    && |supplies| == |box.bars|
    && (forall k, n :: 0 <= k < |supplies| && box.bars[k].count < n ==> GoodId(supplies[k](n)))
    && (forall k, n, x :: 0 <= k < |supplies| && box.bars[k].count < n && x in Everything(box) ==>
          supplies[k](n).key != x.key && supplies[k](n).id != x.id)
    && (forall k, n, j, m :: 0 <= k < |supplies| && 0 <= j < |supplies| && box.bars[k].count < n && box.bars[j].count < m ==>
          (k == j && n == m) || Differ(supplies[k](n), supplies[j](m)))
  }

  /** Toolbar `k` can get this set: a list it can be asked for, and nothing fixed beside it. */
  ghost predicate CanGet(box: Box, k: nat, val: string)
    requires k < |box.bars|
  {
    Requestable(Seen(box, k), Requested(val)) && NoneFixed(Unmatched(box.bars[k].children, Requested(val)))
  }

  /** Two toolbars never ask for the same item. */
  ghost predicate AllApart(sets: seq<string>) {
    forall j, k :: 0 <= j < |sets| && 0 <= k < |sets| && j != k && sets[j] != "" && sets[k] != "" ==>
      Apart(Requested(sets[j]), Requested(sets[k]))
  }

  /** Half-way: the first `n` toolbars have their sets, and the others can get theirs. */
  ghost predicate Going(box: Box, sets: seq<string>, supplies: seq<Supply>, n: nat) {
    && |supplies| == |sets| == |box.bars| && n <= |sets| && Sane(box) && Supplied(box, supplies) && AllApart(sets)
    && (forall k :: 0 <= k < n && sets[k] != "" ==> Printed(box.bars[k].children) == Requested(sets[k]))
    && (forall k :: n <= k < |sets| && sets[k] != "" ==> CanGet(box, k, sets[k]))
  }

  lemma SeenIsReady(box: Box, supplies: seq<Supply>, n: nat)
    requires Sane(box) && Supplied(box, supplies) && n < |box.bars|
    ensures var l := Seen(box, n);
            Shaped(l, |OtherBars(l)|) && Valid(l) && NoSpecialIds(l) && PlainIds(All(l)) && Fresh(supplies[n], l)
  {
    hide All, Everything, Unique, IsSpecial, PlainId;
    SeenAll(box, n);
    assert forall i :: box.bars[n].count < i ==> GoodId(supplies[n](i));
  }

  /** Everything afterwards was there or is a creation of this toolbar. */
  lemma StillSupplied(box: Box, box': Box, supplies: seq<Supply>, n: nat)
    requires Sane(box) && Supplied(box, supplies) && n < |box.bars| == |box'.bars| && Unique(Everything(box'))
    requires box.bars[n].count <= box'.bars[n].count
    requires forall j :: 0 <= j < |box.bars| && j != n ==> box'.bars[j].count == box.bars[j].count
    requires forall x :: x in Everything(box') ==>
               OldOrMade(x, Everything(box), supplies[n], box.bars[n].count, box'.bars[n].count)
    ensures Sane(box') && Supplied(box', supplies)
  {
    hide Everything, Unique, IsSpecial, PlainId, Differ;
    forall x | x in Everything(box') ensures PlainId(x.id) && !IsSpecial(x.id) {
      if x !in Everything(box) {
        var i :| box.bars[n].count < i <= box'.bars[n].count && x.key == supplies[n](i).key && x.id == supplies[n](i).id;
        assert GoodId(supplies[n](i));
      }
    }
    forall k, m, x | 0 <= k < |supplies| && box'.bars[k].count < m && x in Everything(box')
      ensures supplies[k](m).key != x.key && supplies[k](m).id != x.id
    {
      if x !in Everything(box) {
        var i :| box.bars[n].count < i <= box'.bars[n].count && x.key == supplies[n](i).key && x.id == supplies[n](i).id;
        CreationsDiffer(box, supplies, k, m, n, i);
      }
    }
  }

  lemma CreationsDiffer(box: Box, supplies: seq<Supply>, k: nat, m: nat, j: nat, i: nat)
    requires Supplied(box, supplies) && k < |supplies| && j < |supplies| && (k != j || m != i)
    requires box.bars[k].count < m && box.bars[j].count < i
    ensures supplies[k](m).key != supplies[j](i).key && supplies[k](m).id != supplies[j](i).id
  {
    assert Differ(supplies[k](m), supplies[j](i));
  }

  lemma RequestableGrows(l: Layout, l': Layout, ids: seq<string>)
    requires Requestable(l, ids) && forall x :: x in All(l) ==> x in All(l')
    ensures Requestable(l', ids)
  {
    hide All, IdFromNode, IsSpecial;
    forall i | 0 <= i < |ids| && !IsSpecial(ids[i]) ensures Available(l', ids[i]) {
      assert Available(l, ids[i]);
    }
  }

  /** Another toolbar keeps the set it has, or can still get its own. */
  lemma OtherBarGoing(box: Box, sets: seq<string>, supplies: seq<Supply>, n: nat, j: nat, box': Box)
    requires Going(box, sets, supplies, n) && n < |sets| && sets[n] != "" && j < |sets| && j != n && sets[j] != ""
    requires |box'.bars| == |box.bars|
    requires box'.bars[j].children == box.bars[j].children || box'.bars[j].children == Drop(box.bars[j].children, Requested(sets[n]))
    requires forall x :: x in Everything(box) ==> x in Everything(box')
    ensures j < n ==> Printed(box'.bars[j].children) == Requested(sets[j])
    ensures n < j ==> CanGet(box', j, sets[j])
  {
    hide Everything, All, Requested, Printed, NoneFixed, Unmatched, Drop, Requestable, Seen, Sane, Supplied, IsSpecial;
    assert Apart(Requested(sets[n]), Requested(sets[j]));
    if j < n {
      ShownStays(box.bars[j].children, Requested(sets[n]));
    } else {
      assert CanGet(box, j, sets[j]);
      RestStaysRemovable(box.bars[j].children, Requested(sets[n]), Requested(sets[j]));
      SeenAll(box, j);
      SeenAll(box', j);
      RequestableGrows(Seen(box, j), Seen(box', j), Requested(sets[j]));
    }
  }

  lemma OneMoreRestored(box: Box, sets: seq<string>, supplies: seq<Supply>, n: nat)
    requires Going(box, sets, supplies, n) && n < |sets| && sets[n] != ""
    ensures Going(Assigned(box, n, sets[n], supplies[n]), sets, supplies, n + 1)
  {
    hide Assigned, WithCurrentSet, Requested, Printed, NoneFixed, Unmatched, DropEach, Everything, All, Sane, Supplied, Seen, OldOrMade, AllApart;
    var l, box' := Seen(box, n), Assigned(box, n, sets[n], supplies[n]);
    SeenIsReady(box, supplies, n);
    SeenParts(box, n);
    assert CanGet(box, n, sets[n]);
    OneRestored(l, sets[n], supplies[n]);
    AssignedSeen(box, n, sets[n], supplies[n]);
    SeenAll(box, n);
    SeenAll(box', n);
    StillSupplied(box, box', supplies, n);
    forall j | 0 <= j < |sets| && j != n && sets[j] != ""
      ensures j < n ==> Printed(box'.bars[j].children) == Requested(sets[j])
      ensures n < j ==> CanGet(box', j, sets[j])
    {
      OtherBarGoing(box, sets, supplies, n, j, box');
    }
  }

  lemma SeenParts(box: Box, n: nat)
    requires n < |box.bars|
    ensures Seen(box, n).children == box.bars[n].children && Seen(box, n).count == box.bars[n].count
  {
  }

  lemma {:induction false} AllGoing(box: Box, sets: seq<string>, supplies: seq<Supply>, n: nat)
    requires Going(box, sets, supplies, 0) && n <= |sets|
    ensures Going(Restored(box, sets, supplies, n), sets, supplies, n)
  {
    hide Sane, Supplied, Assigned, CanGet, Printed, Requested, AllApart;
    if n != 0 {
      AllGoing(box, sets, supplies, n - 1);
      if sets[n - 1] != "" {
        OneMoreRestored(Restored(box, sets, supplies, n - 1), sets, supplies, n - 1);
      }
    }
  }

  /** Restoring the default sets: if each toolbar could get its own, and no two ask for the same item,
      then after setting them in turn each toolbar with a default set reads as that set. */
  lemma DefaultSetsRestored(box: Box, sets: seq<string>, supplies: seq<Supply>)
    requires |supplies| == |sets| == |box.bars| && Sane(box) && Supplied(box, supplies) && AllApart(sets)
    requires forall k :: 0 <= k < |sets| && sets[k] != "" ==> CanGet(box, k, sets[k])
    ensures var r := Restored(box, sets, supplies, |sets|);
            && Sane(r)
            && forall k :: 0 <= k < |sets| && sets[k] != "" ==> Shown(Printed(r.bars[k].children)) == sets[k]
  {
    hide Sane, Supplied, Restored, Shown, Requested, Printed, AllApart, Requestable, NoneFixed, Unmatched, Seen;
    AllGoing(box, sets, supplies, |sets|);
    forall k | 0 <= k < |sets| && sets[k] != "" ensures Shown(Requested(sets[k])) == sets[k] {
      assert CanGet(box, k, sets[k]);
      RequestedIsShown(Seen(box, k), sets[k]);
    }
  }
}
