/** cJSON_Duplicate on the heap. A ghost shape names the nodes of a tree; allocation does not fail, and
    strings are values, so that it does not show which of them a copy shares. */
module JsonDuplicate {
  import opened Options
  import opened JsonText
  import JsonCompare

  datatype Kind = Invalid | False | True | Null | Number | String | Raw | Array | Object

  class Item {
    var next: Item?
    var prev: Item?
    var child: Item?
    var kind: Kind                  // the low byte of type, and two of its flags
    var isReference: bool
    var stringIsConst: bool
    var valueString: Option<Bytes>
    var valueInt: int
    var valueDouble: real
    var name: Option<Bytes>

    /** cJSON_New_Item: all bits zero. */
    constructor ()
      ensures next == null && prev == null && child == null && kind == Invalid && !isReference && !stringIsConst
      ensures valueString == None && valueInt == 0 && valueDouble == 0.0 && name == None
    {
      next, prev, child, kind, isReference, stringIsConst := null, null, null, Invalid, false, false;
      valueString, valueInt, valueDouble, name := None, 0, 0.0, None;
    }
  }

  /** The nodes of a tree, in the order in which they hang together. */
  datatype Shape = Shape(item: Item, children: seq<Shape>)

  ghost function Items(s: Shape): (r: set<Item>)
    ensures s.item in r && Below(s) <= r
    decreases s, 1
  {
    {s.item} + Below(s)
  }

  ghost function Below(s: Shape): (r: set<Item>)
    ensures r == ItemsOf(s.children)
    decreases s, 0
  {
    ItemsOf(s.children)
  }

  ghost function ItemsOf(cs: seq<Shape>): (r: set<Item>)
    ensures forall i :: 0 <= i < |cs| ==> Items(cs[i]) <= r
    decreases cs, 0
  {
    if cs == [] then {} else ItemsOf(cs[..|cs| - 1]) + Items(cs[|cs| - 1])
  }

  ghost function First(cs: seq<Shape>): Item? { if cs == [] then null else cs[0].item }

  ghost function NextIn(cs: seq<Shape>, i: int): Item? {
    if -1 <= i && i + 1 < |cs| then cs[i + 1].item else null
  }

  ghost function PrevIn(cs: seq<Shape>, i: int): Item? {
    if 0 < i <= |cs| then cs[i - 1].item else null
  }

  /** What a walk along child and next sees. */
  ghost predicate Walk(s: Shape)
    reads Items(s)`child, Below(s)`next
    decreases s, 1
  {
    WalkChildren(s.item, s.children)
  }

  ghost predicate WalkChildren(item: Item, cs: seq<Shape>)
    reads item`child, ItemsOf(cs)`child, ItemsOf(cs)`next
    decreases cs, 0
  {
    && item.child == First(cs)
    && forall i :: 0 <= i < |cs| ==>
         Walk(cs[i]) && cs[i].item.next == NextIn(cs, i)
  }

  /** Children linked both ways, at every level. */
  ghost predicate Linked(s: Shape)
    reads Items(s)`child, Below(s)`next, Below(s)`prev
    decreases s, 1
  {
    LinkedChildren(s.item, s.children)
  }

  ghost predicate LinkedChildren(item: Item, cs: seq<Shape>)
    reads item`child, ItemsOf(cs)`child, ItemsOf(cs)`next, ItemsOf(cs)`prev
    decreases cs, 0
  {
    && item.child == First(cs)
    && forall i :: 0 <= i < |cs| ==>
         Linked(cs[i]) && cs[i].item.next == NextIn(cs, i) && cs[i].item.prev == PrevIn(cs, i)
  }

  /** No node occurs twice. */
  ghost predicate Separate(s: Shape)
    decreases s, 1
  {
    SeparateChildren(s.item, s.children)
  }

  ghost predicate SeparateChildren(item: Item, cs: seq<Shape>)
    decreases cs, 0
  {
    && item !in ItemsOf(cs)
    && (forall i :: 0 <= i < |cs| ==> Separate(cs[i]))
    && forall i, j :: 0 <= i < j < |cs| ==> Items(cs[i]) !! Items(cs[j])
  }

  /** The contents of a node, without its links; a copy is never marked as a reference. */
  ghost predicate Copied(a: Item, b: Item)
    reads a`kind, a`stringIsConst, a`valueString, a`valueInt, a`valueDouble, a`name
    reads b`kind, b`stringIsConst, b`valueString, b`valueInt, b`valueDouble, b`name, b`isReference
  {
    && b.kind == a.kind && b.stringIsConst == a.stringIsConst && !b.isReference
    && b.valueString == a.valueString && b.valueInt == a.valueInt && b.valueDouble == a.valueDouble
    && b.name == a.name
  }

  ghost predicate Same(a: Shape, b: Shape)
    reads Items(a)`kind, Items(a)`stringIsConst, Items(a)`valueString, Items(a)`valueInt
    reads Items(a)`valueDouble, Items(a)`name
    reads Items(b)`kind, Items(b)`stringIsConst, Items(b)`valueString, Items(b)`valueInt
    reads Items(b)`valueDouble, Items(b)`name, Items(b)`isReference
    decreases a
  {
    && Copied(a.item, b.item) && |a.children| == |b.children|
    && forall i :: 0 <= i < |a.children| ==> Same(a.children[i], b.children[i])
  }

  /** The tree that cJSON_Compare sees. */
  ghost function TreeOf(s: Shape): JsonCompare.Tree
    reads Items(s)`kind, Items(s)`valueString, Items(s)`valueDouble, Items(s)`name
    decreases s
  {
    match s.item.kind
    case Invalid => JsonCompare.Tree.Invalid
    case False => JsonCompare.Tree.False
    case True => JsonCompare.Tree.True
    case Null => JsonCompare.Tree.Null
    case Number => JsonCompare.Num(s.item.valueDouble)
    case String => JsonCompare.Str(s.item.valueString)
    case Raw => JsonCompare.Tree.Raw(s.item.valueString)
    case Array => JsonCompare.Arr(TreesOf(s.children))
    case Object => JsonCompare.Obj(FieldsOf(s.children))
  }

  ghost function TreesOf(cs: seq<Shape>): seq<JsonCompare.Tree>
    reads ItemsOf(cs)`kind, ItemsOf(cs)`valueString, ItemsOf(cs)`valueDouble, ItemsOf(cs)`name
    decreases cs
  {
    if cs == [] then [] else TreesOf(cs[..|cs| - 1]) + [TreeOf(cs[|cs| - 1])]
  }

  ghost function FieldsOf(cs: seq<Shape>): seq<JsonCompare.Field>
    reads ItemsOf(cs)`kind, ItemsOf(cs)`valueString, ItemsOf(cs)`valueDouble, ItemsOf(cs)`name
    decreases cs
  {
    if cs == [] then []
    else FieldsOf(cs[..|cs| - 1]) + [JsonCompare.Field(cs[|cs| - 1].item.name, TreeOf(cs[|cs| - 1]))]
  }

  lemma SameTree(a: Shape, b: Shape)
    requires Same(a, b)
    ensures TreeOf(a) == TreeOf(b)
    decreases a
  {
    SameTrees(a.children, b.children);
  }

  lemma SameTrees(cs: seq<Shape>, ds: seq<Shape>)
    requires |cs| == |ds| && forall i :: 0 <= i < |cs| ==> Same(cs[i], ds[i])
    ensures TreesOf(cs) == TreesOf(ds) && FieldsOf(cs) == FieldsOf(ds)
    decreases cs
  {
    if cs != [] {
      SameTrees(cs[..|cs| - 1], ds[..|ds| - 1]);
      SameTree(cs[|cs| - 1], ds[|ds| - 1]);
    }
  }

  /** A copy compares equal to its original exactly when that is coherent: every member named, and no
      two of one name that denote different values. */
  lemma CopyCompares(a: Shape, b: Shape, cs: bool)
    requires Same(a, b)
    ensures JsonCompare.Compare(TreeOf(a), TreeOf(b), cs) <==> JsonCompare.Coherent(TreeOf(a), cs)
  {
    SameTree(a, b);
    JsonCompare.CompareIsEquality(TreeOf(a), TreeOf(b), cs);
  }

  /** cJSON_Duplicate modifies nothing that was there. The copy is new through and through, hangs
      together, is linked both ways and has the same contents; without recurse it is one node. */
  method Duplicate(item: Item?, recurse: bool, ghost s: Shape, ghost all: set<Item>)
    returns (copy: Item?, ghost t: Shape, ghost made: set<Item>)
    requires item != null ==> item == s.item && Walk(s) && Items(s) <= all
    ensures item == null ==> copy == null
    ensures item != null ==>
              && copy != null && copy == t.item && made == Items(t) && fresh(made) && Separate(t) && Linked(t)
              && copy.next == null && copy.prev == null
              && if recurse then Same(s, t) else t.children == [] && Copied(s.item, t.item)
    decreases s, 1
  {
    hide Items, Below, ItemsOf, Linked, LinkedChildren, Separate, SeparateChildren, Same, Hung, Walk, WalkChildren;
    t, made := s, {};
    if item == null {
      return null, t, made;
    }
    RootItem(s);
    var newItem := new Item();
    newItem.kind, newItem.isReference, newItem.stringIsConst := item.kind, false, item.stringIsConst;
    newItem.valueInt, newItem.valueDouble := item.valueInt, item.valueDouble;
    newItem.valueString, newItem.name := item.valueString, item.name;
    copy, t, made := newItem, Shape(newItem, []), {newItem};
    OneNode(newItem);
    if recurse {
      ghost var ts, below := DuplicateChildren(item, newItem, s, all);
      Assembled(s, newItem, ts);
      t, made := Shape(newItem, ts), {newItem} + below;
    }
  }

  lemma Assembled(s: Shape, newItem: Item, ts: seq<Shape>)
    requires Hung(newItem, ts) && Copied(s.item, newItem)
    requires |ts| == |s.children| && forall i :: 0 <= i < |ts| ==> Same(s.children[i], ts[i])
    ensures var t := Shape(newItem, ts);
            Linked(t) && Separate(t) && Same(s, t) && Items(t) == {newItem} + ItemsOf(ts)
  {
  }

  lemma OneNode(item: Item)
    ensures Items(Shape(item, [])) == {item} && ItemsOf([]) == {} && Separate(Shape(item, []))
    ensures item.child == null ==> Linked(Shape(item, []))
  {
  }

  /** Copies of the first children, hanging below a new node. */
  ghost predicate Hung(newItem: Item, ts: seq<Shape>)
    reads newItem`child, newItem`next, newItem`prev, ItemsOf(ts)`child, ItemsOf(ts)`next, ItemsOf(ts)`prev
  {
    LinkedChildren(newItem, ts) && SeparateChildren(newItem, ts) && newItem.next == null && newItem.prev == null
  }

  ghost function Last(ts: seq<Shape>): Item? { if ts == [] then null else ts[|ts| - 1].item }

  method DuplicateChildren(item: Item, newItem: Item, ghost s: Shape, ghost all: set<Item>)
    returns (ghost ts: seq<Shape>, ghost made: set<Item>)
    requires item == s.item && Walk(s) && Items(s) <= all && newItem !in all && newItem.child == null
    requires newItem.next == null && newItem.prev == null
    modifies newItem`child
    ensures made == ItemsOf(ts) && fresh(made) && Hung(newItem, ts)
    ensures |ts| == |s.children| && forall i :: 0 <= i < |ts| ==> Same(s.children[i], ts[i])
    decreases s, 0
  {
    hide Same, Linked, Separate, Hung, Items, Below, ItemsOf, LinkedChildren, SeparateChildren;
    hide Walk, WalkChildren, NextIn;
    WalkBegins(s);
    var child, next: Item? := item.child, null;
    ts, made := [], {};
    HungNothing(newItem);
    while child != null
      invariant |ts| <= |s.children| && child == NextIn(s.children, |ts| - 1)
      invariant Walk(s)
      invariant made == ItemsOf(ts) && fresh(made) && newItem !in made && Hung(newItem, ts) && next == Last(ts)
      invariant next != null ==> next in made
      invariant forall i :: 0 <= i < |ts| ==> Same(s.children[i], ts[i])
      decreases |s.children| - |ts|
    {
      WalkGoesOn(s, |ts|);
      ghost var c := s.children[|ts|];
      ChildItems(s, |ts|);
      ghost var u, more;
      var newChild;
      newChild, u, more := Duplicate(child, true, c, all);
      RootItem(u);
      HangUp(newItem, next, newChild, ts, u);
      ItemsMore(ts, u);
      next := newChild;
      ts, made := ts + [u], made + more;
      child := child.next;
    }
    WalkEnds(s, |ts|);
  }

  lemma WalkBegins(s: Shape)
    requires Walk(s)
    ensures s.item.child == NextIn(s.children, -1)
  {
  }

  lemma WalkGoesOn(s: Shape, i: nat)
    requires Walk(s) && i <= |s.children| && NextIn(s.children, i - 1) != null
    ensures i < |s.children| && s.children[i].item == NextIn(s.children, i - 1) && Walk(s.children[i])
    ensures s.children[i].item.next == NextIn(s.children, i)
  {
  }

  lemma WalkEnds(s: Shape, i: nat)
    requires i <= |s.children| && NextIn(s.children, i - 1) == null
    ensures i == |s.children|
  {
  }

  lemma ChildItems(s: Shape, i: nat)
    requires i < |s.children|
    ensures Items(s.children[i]) <= Items(s) && s.children[i].item in Items(s)
  {
  }

  lemma RootItem(s: Shape)
    ensures s.item in Items(s) && Below(s) <= Items(s)
  {
  }

  lemma HungNothing(newItem: Item)
    requires newItem.child == null && newItem.next == null && newItem.prev == null
    ensures Hung(newItem, []) && ItemsOf([]) == {}
  {
  }

  lemma ItemsMore(ts: seq<Shape>, u: Shape)
    ensures ItemsOf(ts + [u]) == ItemsOf(ts) + Items(u)
  {
  }

  /** Set newitem->child, or crosswire next and prev with the last child. */
  method HangUp(newItem: Item, next: Item?, newChild: Item, ghost ts: seq<Shape>, ghost u: Shape)
    requires Hung(newItem, ts) && next == Last(ts)
    requires newChild == u.item && Linked(u) && Separate(u) && newChild.next == null && newChild.prev == null
    requires Items(u) !! ItemsOf(ts) && newItem !in Items(u)
    modifies newItem`child, (if next == null then {} else {next})`next, newChild`prev
    ensures Hung(newItem, ts + [u])
  {
    hide Linked, Separate, SeparateChildren, Items, Below, ItemsOf, NextIn, PrevIn, First, Last;
    Apart(newItem, ts, u);
    Neighbours(ts, u);
    if next != null {
      next.next := newChild;
      newChild.prev := next;
    } else {
      newItem.child := newChild;
    }
    ghost var us := ts + [u];
    forall i | 0 <= i < |us|
      ensures Linked(us[i]) && us[i].item.next == NextIn(us, i) && us[i].item.prev == PrevIn(us, i)
    {
      assert us[i] == if i < |ts| then ts[i] else u;
      if i < |ts| {
        assert ts[i].item in Items(ts[i]) && u.item !in Items(ts[i]);
      }
    }
  }

  lemma Neighbours(ts: seq<Shape>, u: Shape)
    ensures var us := ts + [u];
            && First(us) == (if ts == [] then u.item else First(ts)) && (Last(ts) == null <==> ts == [])
            && (ts != [] ==> Last(ts) == ts[|ts| - 1].item)
            && NextIn(us, |ts|) == null && PrevIn(us, |ts|) == Last(ts)
            && forall i :: 0 <= i < |ts| ==>
                 NextIn(us, i) == (if i == |ts| - 1 then u.item else NextIn(ts, i)) && PrevIn(us, i) == PrevIn(ts, i)
  {
  }

  /** The links set when u is hung behind ts are read by none of the trees. */
  lemma Apart(newItem: Item, ts: seq<Shape>, u: Shape)
    requires SeparateChildren(newItem, ts) && Separate(u) && Items(u) !! ItemsOf(ts) && newItem !in Items(u)
    ensures SeparateChildren(newItem, ts + [u])
    ensures forall i :: 0 <= i < |ts| ==>
              && newItem !in Items(ts[i]) && Last(ts) !in Below(ts[i])
              && u.item !in Items(ts[i]) && u.item !in Below(ts[i])
              && ts[i].item in Items(ts[i]) && ts[i].item != newItem && (i < |ts| - 1 ==> ts[i].item != Last(ts))
    ensures u.item !in Below(u) && newItem != u.item && Last(ts) !in Items(u) && Last(ts) !in Below(u)
  {
    hide Items, Below, ItemsOf, Separate;
    ItemsMore(ts, u);
    var us := ts + [u];
    RootApart(u);
    forall i | 0 <= i < |ts|
      ensures Items(ts[i]) <= ItemsOf(ts) && Below(ts[i]) <= Items(ts[i]) && ts[i].item in Items(ts[i])
      ensures ts[i].item !in Below(ts[i])
    {
      RootApart(ts[i]);
      ItemsHas(ts, i);
    }
    assert us[|ts|] == u && forall i :: 0 <= i < |ts| ==> us[i] == ts[i];
  }

  lemma RootApart(s: Shape)
    requires Separate(s)
    ensures s.item in Items(s) && Below(s) <= Items(s) && s.item !in Below(s)
  {
  }

  lemma ItemsHas(cs: seq<Shape>, i: nat)
    requires i < |cs|
    ensures Items(cs[i]) <= ItemsOf(cs)
  {
  }
}
