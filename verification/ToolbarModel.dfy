/** A customizable toolbar as values: its elements, where they live, and what setting the current
    set does to them step by step. */
module ToolbarModel {
  datatype Option<T> = None | Some(value: T)

  /** A toolbar item. The key tells elements apart; the id is empty where the document gives none.
      `skip` and `removable` stand for the attributes skipintoolbarset and removable being "true". */
  datatype Element = Element(key: nat, id: string, localName: string, skip: bool, removable: bool)

  /** What the n-th creation of an element yields: a new element, by its key, and its id. */
  datatype Created = Created(key: nat, id: string)
  type Supply = nat -> Created

  /** The toolbox: its palette, if any, and the children of its other toolbars. */
  datatype Toolbox = Toolbox(palette: Option<seq<Element>>, others: seq<seq<Element>>)

  /** The toolbar's children, its toolbox, and how many special items it has created. */
  datatype Layout = Layout(children: seq<Element>, toolbox: Option<Toolbox>, count: nat)

  predicate IsSpecial(id: string) {
    id == "separator" || id == "spring" || id == "spacer"
  }

  function SpecialName(localName: string): string {
    if localName == "toolbarseparator" then "separator"
    else if localName == "toolbarspring" then "spring"
    else if localName == "toolbarspacer" then "spacer"
    else ""
  }

  function IdFromNode(e: Element): string {
    if e.skip then "" else if SpecialName(e.localName) != "" then SpecialName(e.localName) else e.id
  }

  // ---- The comma-separated list ----

  function Join(ids: seq<string>): string {
    if ids == [] then "" else if |ids| == 1 then ids[0] else ids[0] + "," + Join(ids[1..])
  }

  function Split(val: string): (ids: seq<string>)
    ensures ids != []
  {
    if val == "" then [""]
    else
      var rest := Split(val[1..]);
      if val[0] == ',' then [""] + rest else [[val[0]] + rest[0]] + rest[1..]
  }

  function Requested(val: string): seq<string> {
    if val == "__empty" then [] else Split(val)
  }

  function Shown(ids: seq<string>): string {
    if Join(ids) == "" then "__empty" else Join(ids)
  }

  /** The ids the getter collects. */
  function Printed(children: seq<Element>): seq<string> {
    if children == [] then []
    else
      var id := IdFromNode(children[0]);
      (if id == "" then [] else [id]) + Printed(children[1..])
  }

  // ---- Moving elements ----

  function Without(xs: seq<Element>, key: nat): seq<Element> {
    if xs == [] then []
    else (if xs[0].key == key then [] else [xs[0]]) + Without(xs[1..], key)
  }

  function WithoutEach(xss: seq<seq<Element>>, key: nat): (r: seq<seq<Element>>)
    ensures |r| == |xss|
  {
    if xss == [] then [] else [Without(xss[0], key)] + WithoutEach(xss[1..], key)
  }

  function Flatten(xss: seq<seq<Element>>): seq<Element> {
    if xss == [] then [] else xss[0] + Flatten(xss[1..])
  }

  function Before<T>(xs: seq<T>, at: nat): seq<T> {
    if at < |xs| then xs[..at] else xs
  }

  function From<T>(xs: seq<T>, at: nat): seq<T> {
    if at < |xs| then xs[at..] else []
  }

  /** insertBefore: the node leaves its parent, whichever that is, and comes before the child at
      `at`, or last if there is none. */
  function Inserted(l: Layout, at: nat, node: Element): Layout {
    Layout(
      Without(Before(l.children, at), node.key) + [node] + Without(From(l.children, at), node.key),
      match l.toolbox
      case None => None
      case Some(t) => Some(Toolbox(
        match t.palette
        case None => None
        case Some(p) => Some(Without(p, node.key)),
        WithoutEach(t.others, node.key))),
      l.count)
  }

  function Find(xs: seq<Element>, id: string): (found: Option<Element>)
    ensures match found
            case Some(e) => e in xs && e.id == id
            case None => forall e :: e in xs ==> e.id != id
  {
    if xs == [] then None else if xs[0].id == id then Some(xs[0]) else Find(xs[1..], id)
  }

  /** The first child from `from` on that shows as `id`, or past the end if there is none. */
  function FirstMatch(children: seq<Element>, from: nat, id: string): (i: nat)
    ensures from <= i && (from <= |children| ==> i <= |children|)
    ensures i < |children| ==> IdFromNode(children[i]) == id
    ensures forall j :: from <= j < i && j < |children| ==> IdFromNode(children[j]) != id
    decreases |children| - from
  {
    if from >= |children| || IdFromNode(children[from]) == id then from else FirstMatch(children, from + 1, id)
  }

  /** The cache of palette items by id; of two items with one id the later counts. */
  function PaletteItems(palette: seq<Element>): map<string, Element> {
    if palette == [] then map[]
    else PaletteItems(palette[..|palette| - 1])[palette[|palette| - 1].id := palette[|palette| - 1]]
  }

  function Palette(l: Layout): seq<Element> {
    if l.toolbox.Some? && l.toolbox.value.palette.Some? then l.toolbox.value.palette.value else []
  }

  function Others(l: Layout): seq<Element> {
    if l.toolbox.Some? then Flatten(l.toolbox.value.others) else []
  }

  function NewItem(id: string, created: Created): Element {
    Element(created.key, created.id, "toolbar" + id, false, false)
  }

  /** _getToolbarItem for an id that is not special: the item with this id on some toolbar of the
      toolbox, or in the palette. The document finds nothing under an empty id; the palette may. */
  function ToolbarItem(l: Layout, id: string): Option<Element> {
    if l.toolbox.None? then None
    else if id != "" && Find(l.children + Others(l), id).Some? then Find(l.children + Others(l), id)
    else Find(Palette(l), id)
  }

  // ---- The setter ----

  /** Half-way through the setter: `nodeidx` children are in place, their ids are in `added`, and
      `made` are the special items created so far. */
  datatype Progress = Progress(layout: Layout, nodeidx: nat, added: set<string>, made: seq<Element>)

  /** The next child is now `node`. */
  function Placed(p: Progress, node: Element): Progress {
    Progress(Inserted(p.layout, p.nodeidx, node), p.nodeidx + 1, p.added + {node.id}, p.made)
  }

  /** One requested id: a child that shows as it, or else an item from elsewhere. */
  function Place(p: Progress, items: map<string, Element>, id: string, supply: Supply): Progress {
    var i := FirstMatch(p.layout.children, p.nodeidx, id);
    if i < |p.layout.children| then
      if i == p.nodeidx then p.(nodeidx := i + 1, added := p.added + {p.layout.children[i].id})
      else Placed(p, p.layout.children[i])
    else if id in items then Adopted(p, Some(items[id]))
    else if IsSpecial(id) then
      var item := NewItem(id, supply(p.layout.count + 1));
      Adopted(p.(layout := p.layout.(count := p.layout.count + 1), made := p.made + [item]), Some(item))
    else Adopted(p, ToolbarItem(p.layout, id))
  }

  /** An item from elsewhere comes in unless its id is in place already, and is removable then. */
  function Adopted(p: Progress, item: Option<Element>): Progress {
    if item.Some? && item.value.id !in p.added then Placed(p, item.value.(removable := true)) else p
  }

  function PlaceAll(p: Progress, items: map<string, Element>, ids: seq<string>, supply: Supply): Progress
    decreases ids
  {
    if ids == [] then p else Place(PlaceAll(p, items, ids[..|ids| - 1], supply), items, ids[|ids| - 1], supply)
  }

  predicate Leaves(e: Element) {
    IdFromNode(e) != "" && e.removable
  }

  /** The children behind the placed ones that stay, and those that are swept, last child first. */
  function Kept(xs: seq<Element>): seq<Element> {
    if xs == [] then [] else (if Leaves(xs[0]) then [] else [xs[0]]) + Kept(xs[1..])
  }

  function Swept(xs: seq<Element>): seq<Element> {
    if xs == [] then [] else Swept(xs[1..]) + (if Leaves(xs[0]) then [xs[0]] else [])
  }

  /** Swept children go to the palette, or nowhere if there is none. */
  function SweptInto(t: Option<Toolbox>, swept: seq<Element>): Option<Toolbox> {
    if t.Some? && t.value.palette.Some? then Some(t.value.(palette := Some(t.value.palette.value + swept))) else t
  }

  function Start(l: Layout): Progress {
    Progress(l, 0, {}, [])
  }

  function PlacedAll(l: Layout, ids: seq<string>, supply: Supply): Progress {
    PlaceAll(Start(l), PaletteItems(Palette(l)), ids, supply)
  }

  /** The setter after its first test. */
  function Reconciled(l: Layout, ids: seq<string>, supply: Supply): Layout {
    var p := PlacedAll(l, ids, supply);
    var tail := From(p.layout.children, p.nodeidx);
    Layout(Before(p.layout.children, p.nodeidx) + Kept(tail), SweptInto(p.layout.toolbox, Swept(tail)), p.layout.count)
  }

  /** The whole setter. */
  function WithCurrentSet(l: Layout, val: string, supply: Supply): Layout {
    if val == Shown(Printed(l.children)) then l else Reconciled(l, Requested(val), supply)
  }
}
