/** The toolbar element itself: the getter and setter of currentSet as they edit the live lists. */
module CustomizableToolbar {
  import opened ToolbarModel

  class CustomizableToolbar {
    var children: seq<Element>
    var toolbox: Option<Toolbox>
    var newElementCount: nat

    constructor (children: seq<Element>, toolbox: Option<Toolbox>)
      ensures State() == Layout(children, toolbox, 0)
    {
      this.children, this.toolbox, newElementCount := children, toolbox, 0;
    }

    function State(): Layout
      reads this
    {
      Layout(children, toolbox, newElementCount)
    }

    /** The currentSet getter. */
    method GetCurrentSet() returns (val: string)
      ensures val == Shown(Printed(children))
    {
      var node, ids := 0, [];
      while node < |children|
        invariant node <= |children| && ids == Printed(children[..node])
      {
        var id := IdFromNode(children[node]);
        PrintedMore(children[..node], children[node]);
        assert children[..node + 1] == children[..node] + [children[node]];
        if id != "" {
          ids := ids + [id];
        }
        node := node + 1;
      }
      assert children[..node] == children;
      var joined := Join(ids);
      val := if joined == "" then "__empty" else joined;
    }

    /** insertBefore(node, children[at] || null): the node leaves its parent first. */
    method InsertBefore(node: Element, at: nat)
      modifies this
      ensures State() == Inserted(old(State()), at, node)
    {
      children := Without(Before(children, at), node.key) + [node] + Without(From(children, at), node.key);
      if toolbox.Some? {
        var palette := toolbox.value.palette;
        if palette.Some? {
          palette := Some(Without(palette.value, node.key));
        }
        toolbox := Some(Toolbox(palette, WithoutEach(toolbox.value.others, node.key)));
      }
    }

    /** _getToolbarItem. `supply` gives the n-th item ever created. Toolbars come before the palette. */
    method GetToolbarItem(id: string, supply: Supply) returns (item: Option<Element>)
      modifies this
      ensures if IsSpecial(id) then
                && item == Some(NewItem(id, supply(old(newElementCount) + 1)))
                && State() == old(State()).(count := old(newElementCount) + 1)
                && item.value.localName == "toolbar" + id && item.value.id == supply(old(newElementCount) + 1).id
              else item == ToolbarItem(old(State()), id) && State() == old(State())
      ensures !IsSpecial(id) && item.Some? ==>
                && toolbox.Some? && item.value.id == id
                && ((item.value in OnToolbars() && id != "") || (item.value in Palette(State()) && !OnSomeToolbar(id)))
      ensures !IsSpecial(id) && item.None? ==>
                toolbox.None? || (!OnSomeToolbar(id) && forall e :: e in Palette(State()) ==> e.id != id)
    {
      if IsSpecial(id) {
        newElementCount := newElementCount + 1;
        return Some(NewItem(id, supply(newElementCount)));
      }
      if toolbox.None? {
        return None;
      }
      if id != "" {
        item := Find(OnToolbars(), id);
        if item.Some? {
          return;
        }
      }
      if toolbox.value.palette.Some? {
        var palette := toolbox.value.palette.value;
        var i := 0;
        while i < |palette|
          invariant i <= |palette| && Find(palette, id) == Find(palette[i..], id)
        {
          if palette[i].id == id {
            return Some(palette[i]);
          }
          i := i + 1;
        }
      }
      return None;
    }

    /** The elements on the toolbars of the toolbox, this one among them. */
    function OnToolbars(): seq<Element>
      reads this
    {
      children + Others(State())
    }

    /** The document finds an element by an id that is not empty. */
    predicate OnSomeToolbar(id: string)
      reads this
    {
      id != "" && exists e :: e in OnToolbars() && e.id == id
    }

    /** The currentSet setter. */
    method SetCurrentSet(val: string, supply: Supply)
      modifies this
      ensures State() == WithCurrentSet(old(State()), val, supply)
    {
      hide PlaceAll, Place, Printed, PaletteItems, Kept, Swept, IdFromNode, Split;
      var current := GetCurrentSet();
      if val == current {
        return;
      }
      var paletteItems := CachePalette();
      var ids := if val == "__empty" then [] else Split(val);
      var nodeidx, added := PlaceIds(ids, paletteItems, supply);
      SweepLeftovers(nodeidx);
    }

    method CachePalette() returns (items: map<string, Element>)
      ensures items == PaletteItems(Palette(State()))
      ensures forall id :: id in items ==> LastWith(Palette(State()), id, items[id])
    {
      var palette := if toolbox.Some? && toolbox.value.palette.Some? then toolbox.value.palette.value else [];
      items := map[];
      for i := 0 to |palette|
        invariant items == PaletteItems(palette[..i])
      {
        assert palette[..i + 1][..i] == palette[..i];
        items := items[palette[i].id := palette[i]];
      }
      assert palette[..|palette|] == palette;
      LaterCounts(palette);
    }

    /** The loop over the requested ids. */
    method PlaceIds(ids: seq<string>, items: map<string, Element>, supply: Supply)
      returns (nodeidx: nat, added: set<string>)
      modifies this
      ensures exists made :: PlaceAll(Start(old(State())), items, ids, supply) == Progress(State(), nodeidx, added, made)
    {
      nodeidx, added := 0, {};
      ghost var start, p := Start(State()), Start(State());
      for k := 0 to |ids|
        invariant p == PlaceAll(start, items, ids[..k], supply)
        invariant p == Progress(State(), nodeidx, added, p.made)
      {
        assert ids[..k + 1][..k] == ids[..k];
        nodeidx, added := PlaceId(ids[k], nodeidx, added, items, supply, p);
        p := Place(p, items, ids[k], supply);
      }
      assert ids[..|ids|] == ids;
    }

    /** One round of it. */
    method PlaceId(id: string, idx: nat, was: set<string>, items: map<string, Element>, supply: Supply, ghost p: Progress)
      returns (nodeidx: nat, added: set<string>)
      requires p == Progress(State(), idx, was, p.made)
      modifies this
      ensures var p' := Place(p, items, id, supply); p' == Progress(State(), nodeidx, added, p'.made)
    {
      hide Inserted, ToolbarItem;
      nodeidx, added := idx, was;
      var i := nodeidx;
      while i < |children|
        invariant idx <= i
        invariant FirstMatch(children, idx, id) == FirstMatch(children, i, id)
        decreases |children| - i
      {
        var curNode := children[i];
        if IdFromNode(curNode) == id {
          if i != nodeidx {
            InsertBefore(curNode, nodeidx);
          }
          added := added + {curNode.id};
          nodeidx := nodeidx + 1;
          return;
        }
        i := i + 1;
      }
      var nodeToAdd;
      if id in items {
        nodeToAdd := Some(items[id]);
      } else {
        nodeToAdd := GetToolbarItem(id, supply);
      }
      if nodeToAdd.Some? && nodeToAdd.value.id !in added {
        added := added + {nodeToAdd.value.id};
        InsertBefore(nodeToAdd.value.(removable := true), nodeidx);
        nodeidx := nodeidx + 1;
      }
    }

    /** The backward loop over the children behind the placed ones. */
    method SweepLeftovers(nodeidx: nat)
      modifies this
      ensures var l := old(State());
              var tail := From(l.children, nodeidx);
              State() == Layout(Before(l.children, nodeidx) + Kept(tail), SweptInto(l.toolbox, Swept(tail)), l.count)
    {
      hide Leaves, Kept, Swept;
      ghost var l := State();
      var i := |children|;
      ghost var swept: seq<Element> := [];
      assert l.children[i..] == [] && l.children[..i] == l.children && l.children + [] == l.children;
      SweptNothing(l.toolbox);
      KeptNothing();
      while i > nodeidx
        invariant i <= |l.children| && (nodeidx <= |l.children| ==> nodeidx <= i)
        invariant nodeidx > |l.children| ==> i == |l.children|
        invariant swept == Swept(l.children[i..])
        invariant children == l.children[..i] + Kept(l.children[i..]) && newElementCount == l.count
        invariant toolbox == SweptInto(l.toolbox, swept)
      {
        i := i - 1;
        var curNode := children[i];
        assert curNode == l.children[i] && l.children[i..] == [curNode] + l.children[i + 1..];
        assert l.children[..i + 1] == l.children[..i] + [curNode];
        OneSwept(curNode, l.children[i + 1..], l.toolbox, swept);
        if Leaves(curNode) {
          children := children[..i] + children[i + 1..];
          if toolbox.Some? && toolbox.value.palette.Some? {
            toolbox := Some(toolbox.value.(palette := Some(toolbox.value.palette.value + [curNode])));
          }
          swept := swept + [curNode];
        }
      }
    }
  }

  /** Of the items with this id, this one comes last. */
  ghost predicate LastWith(palette: seq<Element>, id: string, e: Element) {
    exists i :: 0 <= i < |palette| && palette[i] == e && e.id == id && forall j :: i < j < |palette| ==> palette[j].id != id
  }

  lemma {:induction false} LaterCounts(palette: seq<Element>)
    ensures forall id :: id in PaletteItems(palette) ==> LastWith(palette, id, PaletteItems(palette)[id])
    decreases palette
  {
    if palette != [] {
      hide LastWith;
      var init, last := palette[..|palette| - 1], palette[|palette| - 1];
      LaterCounts(init);
      assert palette == init + [last];
      forall id | id in PaletteItems(palette) ensures LastWith(palette, id, PaletteItems(palette)[id]) {
        LastOneMore(init, last, id, PaletteItems(palette)[id]);
      }
    }
  }

  lemma LastOneMore(palette: seq<Element>, last: Element, id: string, e: Element)
    ensures last.id == id && e == last ==> LastWith(palette + [last], id, e)
    ensures last.id != id && LastWith(palette, id, e) ==> LastWith(palette + [last], id, e)
  {
    var more := palette + [last];
    assert more[|palette|] == last && forall j :: 0 <= j < |palette| ==> more[j] == palette[j];
  }

  lemma KeptNothing()
    ensures Kept([]) == [] && Swept([]) == []
  {
  }

  lemma SweptNothing(t: Option<Toolbox>)
    ensures SweptInto(t, []) == t
  {
    if t.Some? && t.value.palette.Some? {
      assert t.value.palette.value + [] == t.value.palette.value;
    }
  }

  lemma OneSwept(e: Element, xs: seq<Element>, t: Option<Toolbox>, swept: seq<Element>)
    ensures Kept([e] + xs) == (if Leaves(e) then [] else [e]) + Kept(xs)
    ensures Swept([e] + xs) == Swept(xs) + if Leaves(e) then [e] else []
    ensures SweptInto(SweptInto(t, swept), [e]) == SweptInto(t, swept + [e])
  {
    assert ([e] + xs)[1..] == xs;
    if t.Some? && t.value.palette.Some? {
      var p := t.value.palette.value;
      assert p + swept + [e] == p + (swept + [e]);
    }
  }

  lemma PrintedMore(xs: seq<Element>, x: Element)
    ensures Printed(xs + [x]) == Printed(xs) + if IdFromNode(x) == "" then [] else [IdFromNode(x)]
  {
    hide IdFromNode;
    if xs == [] {
      assert [] + [x] == [x] && [x][1..] == [];
    } else {
      assert (xs + [x])[1..] == xs[1..] + [x];
      PrintedMore(xs[1..], x);
    }
  }
}
