/**
 * The data-item tree: DataItem, ComplexDataItem and CollectionChildItem.
 *
 * Items live in an arena, a map from item id to item record; Parent, Children,
 * Attributes and the wrapped-item links are ids into that map. The fields of
 * the subclasses sit in the item's Kind. The document an undoable edit works
 * on is the arena together with the graph-node registry (Grid.GraphNodeItems).
 */
module DataItems {
  import opened Wrappers
  import opened Text
  import opened Visibility
  import UndoRedo

  type ItemId = nat

  /** The parts of an item's DataDefinition the tree code reads. */
  datatype ItemDef = ItemDef(name: Option<string>, toolTip: Option<string>, textColour: Option<string>, visibleIf: Option<string>)

  /** GraphReferenceItem.LinkType */
  datatype LinkType = Duplicate | Reference

  /** The concrete item classes, with the fields each adds to DataItem. */
  datatype Kind =
    | PrimitiveItem(value: Value, defaultValue: Value)
    | StructItem(descriptionChild: Option<string>)
    | CollectionItem(isAtMin: bool)
    | CollectionChildItem(wrapped: Option<ItemId>)
    | ReferenceItem(wrapped: Option<ItemId>)
    | GraphNodeItem(linkParents: seq<ItemId>, guid: Option<string>)
    | GraphReferenceItem(wrapped: Option<ItemId>, chosen: Option<ItemDef>, guidToResolve: Option<string>,
                         waiting: bool, linkType: LinkType)

  /** The flags IsVisible reads, and IsExpanded. */
  datatype Flags = Flags(isVisible: bool, isSearchFiltered: bool, isMultiselectFiltered: bool, isExpanded: bool)

  /** A new item is visible, not filtered and not expanded. */
  const DefaultFlags := Flags(true, false, false, false)

  /** The flags of every item, kept apart from the item records because Filter changes only them. */
  type FlagMap = map<ItemId, Flags>

  function FlagsOf(fl: FlagMap, x: ItemId): Flags {
    if x in fl then fl[x] else DefaultFlags
  }

  datatype Item = Item(
    kind: Kind,
    def: ItemDef,
    name: Option<string>,
    toolTip: Option<string>,
    textColour: Option<string>,
    parent: Option<ItemId>,
    index: int,
    children: seq<ItemId>,
    attributes: seq<ItemId>,
    groups: seq<seq<Statement>>)

  type Items = map<ItemId, Item>

  /** The document an undoable edit changes: the items and the graph-node registry. */
  datatype Doc = Doc(items: Items, registry: seq<ItemId>)

  predicate Present(items: Items, ids: seq<ItemId>) {
    forall k | 0 <= k < |ids| :: ids[k] in items
  }

  predicate Distinct(ids: seq<ItemId>) {
    forall j, k | 0 <= j < k < |ids| :: ids[j] != ids[k]
  }

  /** The value a statement bound to this item compares against. */
  function ValueOf(it: Item): Value {
    if it.kind.PrimitiveItem? then it.kind.value else NotPrimitive
  }

  /** The current value of every item, by id. */
  function Values(items: Items): (r: map<nat, Value>)
    ensures forall x :: x in r <==> x in items
  {
    map x | x in items :: ValueOf(items[x])
  }

  /**
   * The items of `cs` as a binding sees them: identity, Name and value, in
   * order (an id the arena lacks shows as a nameless non-primitive).
   */
  function SiblingsOf(items: Items, cs: seq<ItemId>): (r: seq<Sibling>)
    ensures |r| == |cs|
    ensures forall k | 0 <= k < |r| :: r[k].id == cs[k]
    ensures forall k | 0 <= k < |r| && cs[k] in items :: r[k].name == items[cs[k]].name && r[k].value == ValueOf(items[cs[k]])
  {
    seq(|cs|, k requires 0 <= k < |cs| =>
      if cs[k] in items then Sibling(cs[k], items[cs[k]].name, ValueOf(items[cs[k]])) else Sibling(cs[k], None, NotPrimitive))
  }

  /** The siblings of an item whose parent is `p`: p's children, in order. */
  function Siblings(items: Items, p: ItemId): (r: seq<Sibling>)
    requires p in items
    ensures |r| == |items[p].children|
    ensures forall k | 0 <= k < |r| :: r[k].id == items[p].children[k]
  {
    SiblingsOf(items, items[p].children)
  }

  /** Two arenas whose items a binding sees alike: the same ids, with the same Names and kinds. */
  predicate SeenAlike(a: Items, b: Items) {
    a.Keys == b.Keys && forall x | x in a :: a[x].name == b[x].name && a[x].kind == b[x].kind
  }

  /** Only the Names and values of the items are part of what a binding sees. */
  lemma SiblingsFrame(a: Items, b: Items, cs: seq<ItemId>)
    requires SeenAlike(a, b)
    ensures SiblingsOf(a, cs) == SiblingsOf(b, cs)
  {
  }

  // ---------------------------------------------------------------------------
  // Children bookkeeping (OnChildrenCollectionChanged)

  /** The last position of `x` in `cs`: the Index the re-indexing loop leaves on it. */
  function LastPos(cs: seq<ItemId>, x: ItemId): (k: nat)
    requires x in cs
    ensures k < |cs| && cs[k] == x
    ensures forall j | k < j < |cs| :: cs[j] != x
  {
    if cs[|cs| - 1] == x then |cs| - 1 else LastPos(cs[..|cs| - 1], x)
  }

  lemma LastPosDistinct(cs: seq<ItemId>, k: nat)
    requires Distinct(cs) && k < |cs|
    ensures LastPos(cs, cs[k]) == k
  {
  }

  /** What an event handler leaves: the items, and the exception it threw, if any. */
  datatype Outcome = Outcome(items: Items, thrown: Option<VisError>)

  /**
   * How UpdateVisibleIfBinding ends for an item, from its VisibleIf, its
   * siblings and its id. The handlers are stated for any such function; the
   * editor's is Visibility.Rebind, which the ItemTree methods run.
   */
  type Binder = (Option<string>, seq<Sibling>, ItemId) -> Rebinding

  /** Whether `x.Parent = owner` throws: the parent changes and rebinding against `sibs` throws. */
  predicate Raises(items: Items, owner: ItemId, x: ItemId, sibs: seq<Sibling>, rebind: Binder)
    requires x in items
  {
    items[x].parent != Some(owner) && rebind(items[x].def.visibleIf, sibs, x).thrown.Some?
  }

  /**
   * The item after `x.Parent = owner`: unchanged when the parent is already
   * `owner`; otherwise the new parent and the VisibleIf groups rebuilt
   * against `sibs`, as far as they got when the binding threw.
   */
  function Reparented(items: Items, owner: ItemId, x: ItemId, sibs: seq<Sibling>, rebind: Binder): Item
    requires x in items
  {
    if items[x].parent == Some(owner) then items[x]
    else items[x].(parent := Some(owner), groups := rebind(items[x].def.visibleIf, sibs, x).groups)
  }

  /**
   * The Parent setter. A different parent is recorded and UpdateVisibleIfBinding
   * rebuilds the groups against `sibs`, the new parent's children; its
   * exception escapes the setter.
   */
  function ParentSet(items: Items, owner: ItemId, x: ItemId, sibs: seq<Sibling>, rebind: Binder): (r: Outcome)
    requires x in items
    ensures r.items == items[x := Reparented(items, owner, x, sibs, rebind)]
    ensures r.thrown.Some? <==> Raises(items, owner, x, sibs, rebind)
    ensures r.thrown.Some? ==> r.thrown == rebind(items[x].def.visibleIf, sibs, x).thrown
  {
    if items[x].parent == Some(owner) then Outcome(items, None)
    else
      var b := rebind(items[x].def.visibleIf, sibs, x);
      Outcome(items[x := items[x].(parent := Some(owner), groups := b.groups)], b.thrown)
  }

  /**
   * With the editor's binding, the setter leaves `x` with `owner` as parent
   * and, when the parent changed, throws exactly when the binding of its
   * VisibleIf against `sibs` fails, holding that binding when it does not;
   * no other item changes.
   */
  lemma ParentSetBinds(items: Items, owner: ItemId, x: ItemId, sibs: seq<Sibling>)
    requires x in items
    ensures var r := ParentSet(items, owner, x, sibs, Rebind);
      var b := Binding(items[x].def.visibleIf, sibs, x);
      && r.items.Keys == items.Keys
      && r.items[x].parent == Some(owner)
      && (forall y | y in items && y != x :: r.items[y] == items[y])
      && (items[x].parent == Some(owner) ==> r == Outcome(items, None))
      && (items[x].parent != Some(owner) ==>
            && (r.thrown.None? <==> b.Success?)
            && (b.Success? ==> r.items[x].groups == b.value)
            && (b.Failure? ==> r.thrown == Some(b.error)))
  {
  }

  /**
   * The `NewItems` loop of the handler: `i.Parent = this` for each added
   * item, in order, against the owner's children; the first exception ends it.
   */
  function Adopted(items: Items, owner: ItemId, added: seq<ItemId>, rebind: Binder): (r: Outcome)
    requires owner in items
    ensures r.items.Keys == items.Keys
    decreases |added|
  {
    if |added| == 0 then Outcome(items, None)
    else
      var p := Adopted(items, owner, added[..|added| - 1], rebind);
      var x := added[|added| - 1];
      if p.thrown.Some? || x !in p.items then p
      else ParentSet(p.items, owner, x, Siblings(p.items, owner), rebind)
  }

  /** The first added item whose Parent setter throws. */
  function FirstRaising(items: Items, owner: ItemId, added: seq<ItemId>, sibs: seq<Sibling>, rebind: Binder): (r: Option<nat>)
    ensures r.Some? ==> r.value < |added| && added[r.value] in items && Raises(items, owner, added[r.value], sibs, rebind)
    ensures r.Some? ==> forall j | 0 <= j < r.value && added[j] in items :: !Raises(items, owner, added[j], sibs, rebind)
    ensures r.None? ==> forall j | 0 <= j < |added| && added[j] in items :: !Raises(items, owner, added[j], sibs, rebind)
    decreases |added|
  {
    if |added| == 0 then None
    else
      match FirstRaising(items, owner, added[..|added| - 1], sibs, rebind)
      case Some(k) => Some(k)
      case None =>
        var x := added[|added| - 1];
        if x in items && Raises(items, owner, x, sibs, rebind) then Some(|added| - 1) else None
  }

  /** How many added items the loop reaches: all of them, or up to the one that throws. */
  function Reached(f: Option<nat>, n: nat): nat {
    if f.Some? then f.value + 1 else n
  }

  /**
   * The loop in closed form: the items it reaches are reparented against the
   * owner's children, all others are untouched, and the exception is that of
   * the first item whose setter throws.
   */
  lemma {:induction false} AdoptedShape(items: Items, owner: ItemId, added: seq<ItemId>, rebind: Binder)
    requires owner in items
    ensures var sibs := Siblings(items, owner);
      var f := FirstRaising(items, owner, added, sibs, rebind);
      var r := Adopted(items, owner, added, rebind);
      && Reached(f, |added|) <= |added|
      && r.thrown == (if f.Some? then rebind(items[added[f.value]].def.visibleIf, sibs, added[f.value]).thrown else None)
      && forall x | x in items ::
           r.items[x] == if x in added[..Reached(f, |added|)] then Reparented(items, owner, x, sibs, rebind) else items[x]
    decreases |added|
  {
    if |added| > 0 {
      var sibs := Siblings(items, owner);
      var init := added[..|added| - 1];
      var x := added[|added| - 1];
      AdoptedShape(items, owner, init, rebind);
      var p := Adopted(items, owner, init, rebind);
      var f0 := FirstRaising(items, owner, init, sibs, rebind);
      if f0.Some? {
        assert added[..f0.value + 1] == init[..f0.value + 1];
      } else {
        assert init[..|init|] == init;
        assert added[..|added|] == init + [x];
        if x in p.items {
          AdoptedAlike(items, owner, init, rebind);
          SiblingsFrame(p.items, items, items[owner].children);
          AdoptedStep(items, owner, init, x, p, sibs, rebind);
        }
      }
    }
  }

  /** The loop changes no Name and no kind, and no children list. */
  lemma {:induction false} AdoptedAlike(items: Items, owner: ItemId, added: seq<ItemId>, rebind: Binder)
    requires owner in items
    ensures var r := Adopted(items, owner, added, rebind).items;
      SeenAlike(r, items) && forall x | x in items :: r[x].children == items[x].children
    decreases |added|
  {
    if |added| > 0 {
      AdoptedAlike(items, owner, added[..|added| - 1], rebind);
    }
  }

  /** The last step of the loop, when the earlier ones raised nothing. */
  lemma AdoptedStep(items: Items, owner: ItemId, init: seq<ItemId>, x: ItemId, p: Outcome, sibs: seq<Sibling>, rebind: Binder)
    requires x in items && p.thrown.None? && p.items.Keys == items.Keys
    requires forall y | y in items :: p.items[y] == if y in init then Reparented(items, owner, y, sibs, rebind) else items[y]
    requires forall j | 0 <= j < |init| && init[j] in items :: !Raises(items, owner, init[j], sibs, rebind)
    ensures var r := ParentSet(p.items, owner, x, sibs, rebind);
      && (r.thrown.Some? <==> Raises(items, owner, x, sibs, rebind))
      && (r.thrown.Some? ==> r.thrown == rebind(items[x].def.visibleIf, sibs, x).thrown)
      && forall y | y in items :: r.items[y] == if y in init + [x] then Reparented(items, owner, y, sibs, rebind) else items[y]
  {
    if x in init {
      var j :| 0 <= j < |init| && init[j] == x;
      assert !Raises(items, owner, x, sibs, rebind);
      assert p.items[x].parent == Some(owner);
    } else {
      assert p.items[x] == items[x];
    }
  }

  /** One more added item: the loop so far, then that item's setter unless something was thrown. */
  lemma AdoptedSnoc(items: Items, owner: ItemId, added: seq<ItemId>, i: nat, rebind: Binder)
    requires owner in items && i < |added|
    ensures var p := Adopted(items, owner, added[..i], rebind);
      Adopted(items, owner, added[..i + 1], rebind) ==
        if p.thrown.Some? || added[i] !in p.items then p
        else ParentSet(p.items, owner, added[i], Siblings(p.items, owner), rebind)
  {
    assert added[..i + 1][..i] == added[..i];
  }

  /** Once an item's setter has thrown, the later items are not reached. */
  lemma {:induction false} AdoptedStops(items: Items, owner: ItemId, added: seq<ItemId>, n: nat, rebind: Binder)
    requires owner in items && n <= |added| && Adopted(items, owner, added[..n], rebind).thrown.Some?
    ensures Adopted(items, owner, added, rebind) == Adopted(items, owner, added[..n], rebind)
    decreases |added|
  {
    if n < |added| {
      var init := added[..|added| - 1];
      assert init[..n] == added[..n];
      AdoptedStops(items, owner, init, n, rebind);
    } else {
      assert added[..n] == added;
    }
  }

  /** Setting each child's Index to its position, in list order. */
  function Reindexed(items: Items, cs: seq<ItemId>): (r: Items)
    ensures forall x :: x in r <==> x in items
  {
    map x | x in items :: if x in cs then items[x].(index := LastPos(cs, x)) else items[x]
  }

  /** Re-indexing one more child: that child alone gets the new last position. */
  lemma ReindexedSnoc(items: Items, cs: seq<ItemId>, c: ItemId)
    requires c in items
    ensures Reindexed(items, cs + [c]) == Reindexed(items, cs)[c := items[c].(index := |cs|)]
  {
    var l := Reindexed(items, cs + [c]);
    var r := Reindexed(items, cs)[c := items[c].(index := |cs|)];
    forall x | x in items
      ensures l[x] == r[x]
    {
      if x != c && x in cs {
        assert LastPos(cs + [c], x) == LastPos(cs, x) by {
          assert (cs + [c])[..|cs|] == cs;
        }
      }
    }
  }

  /**
   * OnChildrenCollectionChanged: the added (or replacing) items get `owner` as
   * Parent, then every child of `owner` gets its position as Index. An
   * exception from a Parent setter leaves the handler before the re-indexing.
   */
  function ChildrenChanged(items: Items, owner: ItemId, added: seq<ItemId>, rebind: Binder): Outcome
    requires owner in items
  {
    var a := Adopted(items, owner, added, rebind);
    if a.thrown.Some? then a else Outcome(Reindexed(a.items, items[owner].children), None)
  }

  /**
   * After the handler, when no Parent setter throws: every child's Index is
   * its position, every added item has `owner` as parent, and an added item
   * whose parent changed holds the groups rebuilt against the owner's
   * children; nothing else changed. When one throws: its exception escapes,
   * nothing is re-indexed, and only the items up to it are reparented.
   */
  lemma ChildrenChangedBookkeeping(items: Items, owner: ItemId, added: seq<ItemId>, rebind: Binder)
    requires owner in items && Distinct(items[owner].children)
    ensures var r := ChildrenChanged(items, owner, added, rebind);
      var cs := items[owner].children;
      var sibs := Siblings(items, owner);
      var f := FirstRaising(items, owner, added, sibs, rebind);
      && r.items.Keys == items.Keys
      && (forall x | x in items :: r.items[x].children == items[x].children && r.items[x].kind == items[x].kind)
      && (f.None? ==>
           && r.thrown.None?
           && (forall k | 0 <= k < |cs| && cs[k] in items :: r.items[cs[k]].index == k)
           && (forall x | x in added && x in items :: r.items[x].parent == Some(owner))
           && (forall x | x in added && x in items && items[x].parent != Some(owner) ::
                 r.items[x].groups == rebind(items[x].def.visibleIf, sibs, x).groups)
           && (forall x | x in items && x !in added && x !in cs :: r.items[x] == items[x]))
      && (f.Some? ==>
           && r.thrown == rebind(items[added[f.value]].def.visibleIf, sibs, added[f.value]).thrown
           && forall x | x in items ::
                r.items[x] == if x in added[..f.value + 1] then Reparented(items, owner, x, sibs, rebind) else items[x])
  {
    AdoptedAlike(items, owner, added, rebind);
    if FirstRaising(items, owner, added, Siblings(items, owner), rebind).None? {
      ChildrenChangedDone(items, owner, added, rebind);
    } else {
      ChildrenChangedThrown(items, owner, added, rebind);
    }
  }

  /** The handler when no Parent setter throws. */
  lemma ChildrenChangedDone(items: Items, owner: ItemId, added: seq<ItemId>, rebind: Binder)
    requires owner in items && Distinct(items[owner].children)
    requires FirstRaising(items, owner, added, Siblings(items, owner), rebind).None?
    ensures var r := ChildrenChanged(items, owner, added, rebind);
      var cs := items[owner].children;
      var sibs := Siblings(items, owner);
      && r.thrown.None?
      && (forall k | 0 <= k < |cs| && cs[k] in items :: r.items[cs[k]].index == k)
      && (forall x | x in added && x in items :: r.items[x].parent == Some(owner))
      && (forall x | x in added && x in items && items[x].parent != Some(owner) ::
            r.items[x].groups == rebind(items[x].def.visibleIf, sibs, x).groups)
      && (forall x | x in items && x !in added && x !in cs :: r.items[x] == items[x])
  {
    var cs := items[owner].children;
    AdoptedShape(items, owner, added, rebind);
    assert added[..|added|] == added;
    forall k | 0 <= k < |cs| && cs[k] in items
      ensures ChildrenChanged(items, owner, added, rebind).items[cs[k]].index == k
    {
      LastPosDistinct(cs, k);
    }
  }

  /** The handler when a Parent setter throws: nothing is re-indexed. */
  lemma ChildrenChangedThrown(items: Items, owner: ItemId, added: seq<ItemId>, rebind: Binder)
    requires owner in items
    requires FirstRaising(items, owner, added, Siblings(items, owner), rebind).Some?
    ensures var r := ChildrenChanged(items, owner, added, rebind);
      var sibs := Siblings(items, owner);
      var f := FirstRaising(items, owner, added, sibs, rebind);
      && r.thrown == rebind(items[added[f.value]].def.visibleIf, sibs, added[f.value]).thrown
      && forall x | x in items ::
           r.items[x] == if x in added[..f.value + 1] then Reparented(items, owner, x, sibs, rebind) else items[x]
  {
    AdoptedShape(items, owner, added, rebind);
  }

  /** A binder whose every binding that completes is bound as TargetOk says. */
  ghost predicate BindsTargets(rebind: Binder) {
    forall vi, sibs, x | rebind(vi, sibs, x).thrown.None? :: GroupsBound(rebind(vi, sibs, x).groups, sibs, x)
  }

  /** The editor's binding completes only with every statement bound as TargetOk says. */
  lemma RebindBindsTargets()
    ensures BindsTargets(Rebind)
  {
    forall vi, sibs, x | Rebind(vi, sibs, x).thrown.None?
      ensures GroupsBound(Rebind(vi, sibs, x).groups, sibs, x)
    {
      BindingTargets(vi, sibs, x);
    }
  }

  /**
   * When the handler raises nothing, an added item whose parent changed holds
   * the groups its binder built among the owner's children, and with a binder
   * that BindsTargets every statement of them is bound there: to the first
   * other child with its target name, which is primitive, or to nothing.
   */
  lemma AdoptedBound(items: Items, owner: ItemId, added: seq<ItemId>, x: ItemId, rebind: Binder)
    requires owner in items && Distinct(items[owner].children) && x in added && x in items && items[x].parent != Some(owner)
    requires ChildrenChanged(items, owner, added, rebind).thrown.None? && BindsTargets(rebind)
    ensures var r := ChildrenChanged(items, owner, added, rebind).items;
      var b := rebind(items[x].def.visibleIf, Siblings(items, owner), x);
      && b.thrown.None? && r[x].groups == b.groups
      && GroupsBound(r[x].groups, Siblings(r, owner), x)
  {
    var r := ChildrenChanged(items, owner, added, rebind).items;
    var sibs := Siblings(items, owner);
    AdoptedShape(items, owner, added, rebind);
    var f := FirstRaising(items, owner, added, sibs, rebind);
    assert f.None?;
    assert added[..|added|] == added;
    ChildrenChangedAlike(items, owner, added, rebind);
    SiblingsFrame(r, items, items[owner].children);
  }

  /** The handler changes no Name and no kind. */
  lemma ChildrenChangedAlike(items: Items, owner: ItemId, added: seq<ItemId>, rebind: Binder)
    requires owner in items
    ensures SeenAlike(ChildrenChanged(items, owner, added, rebind).items, items)
  {
    AdoptedAlike(items, owner, added, rebind);
  }

  /**
   * ComplexDataItem.OnAttributesCollectionChanged has the same body: the added
   * attributes are adopted, binding against the owner's Children, and the
   * Children (not the Attributes) are re-indexed, so an attribute keeps its Index.
   */
  lemma AttributesKeepIndex(items: Items, owner: ItemId, added: seq<ItemId>, a: ItemId, rebind: Binder)
    requires owner in items && a in items && a !in items[owner].children
    ensures ChildrenChanged(items, owner, added, rebind).items[a].index == items[a].index
    ensures a in added && ChildrenChanged(items, owner, added, rebind).thrown.None? ==>
      ChildrenChanged(items, owner, added, rebind).items[a].parent == Some(owner)
  {
    AdoptedShape(items, owner, added, rebind);
    if ChildrenChanged(items, owner, added, rebind).thrown.None? {
      assert added[..|added|] == added;
    }
  }

  /** The live tree: the arena and the registry, updated in place by the handlers. */
  class ItemTree {
    var items: Items
    var flags: FlagMap
    var registry: seq<ItemId>

    constructor (items0: Items, registry0: seq<ItemId>)
      ensures items == items0 && flags == map[] && registry == registry0
    {
      items := items0;
      flags := map[];
      registry := registry0;
    }

    function Document(): Doc
      reads this
    {
      Doc(items, registry)
    }

    /** The Parent setter `x.Parent = owner`, which runs UpdateVisibleIfBinding against the owner's children. */
    method SetParent(x: ItemId, owner: ItemId) returns (thrown: Option<VisError>)
      requires x in items && owner in items
      modifies this
      ensures Outcome(items, thrown) == ParentSet(old(items), owner, x, Siblings(old(items), owner), Rebind)
      ensures registry == old(registry) && flags == old(flags)
    {
      if items[x].parent == Some(owner) {
        return None;
      }
      var sibs := Siblings(items, owner);
      items := items[x := items[x].(parent := Some(owner))];
      var b := UpdateVisibleIfBinding(items[x].def.visibleIf, sibs, x);
      items := items[x := items[x].(groups := b.groups)];
      thrown := b.thrown;
    }

    /** The handler's `NewItems` loop: Parent set on each added item, in order, until one throws. */
    method AdoptAll(owner: ItemId, added: seq<ItemId>) returns (thrown: Option<VisError>)
      requires owner in items && Present(items, added)
      modifies this
      ensures Outcome(items, thrown) == Adopted(old(items), owner, added, Rebind)
      ensures registry == old(registry) && flags == old(flags)
    {
      thrown := None;
      var i := 0;
      while i < |added|
        invariant 0 <= i <= |added| && owner in items && thrown.None?
        invariant Outcome(items, thrown) == Adopted(old(items), owner, added[..i], Rebind)
        invariant registry == old(registry) && flags == old(flags)
      {
        AdoptedSnoc(old(items), owner, added, i, Rebind);
        thrown := SetParent(added[i], owner);
        if thrown.Some? {
          AdoptedStops(old(items), owner, added, i + 1, Rebind);
          return;
        }
        i := i + 1;
      }
      assert added[..i] == added;
    }

    /** The re-indexing loop: `Children[i].Index = i` for every position. */
    method ReindexChildren(owner: ItemId)
      requires owner in items && Present(items, items[owner].children)
      modifies this
      ensures items == Reindexed(old(items), old(items)[owner].children) && registry == old(registry)
      ensures flags == old(flags)
    {
      var cs := items[owner].children;
      var k := 0;
      while k < |cs|
        invariant 0 <= k <= |cs|
        invariant items == Reindexed(old(items), cs[..k]) && registry == old(registry) && flags == old(flags)
      {
        var c := cs[k];
        assert cs[..k + 1] == cs[..k] + [c];
        ReindexedSnoc(old(items), cs[..k], c);
        items := items[c := items[c].(index := k)];
        k := k + 1;
      }
      assert cs[..k] == cs;
    }

    /** DataItem.OnChildrenCollectionChanged, with the event's NewItems as `added`. */
    method OnChildrenCollectionChanged(owner: ItemId, added: seq<ItemId>) returns (thrown: Option<VisError>)
      requires owner in items && Present(items, items[owner].children) && Present(items, added)
      modifies this
      ensures Outcome(items, thrown) == ChildrenChanged(old(items), owner, added, Rebind)
      ensures registry == old(registry) && flags == old(flags)
    {
      thrown := AdoptAll(owner, added);
      if thrown.None? {
        AdoptedAlike(old(items), owner, added, Rebind);
        ReindexChildren(owner);
      }
    }

    /** ComplexDataItem.OnAttributesCollectionChanged, with the event's NewItems as `added`. */
    method OnAttributesCollectionChanged(owner: ItemId, added: seq<ItemId>) returns (thrown: Option<VisError>)
      requires owner in items && Present(items, items[owner].children) && Present(items, added)
      modifies this
      ensures Outcome(items, thrown) == ChildrenChanged(old(items), owner, added, Rebind)
      ensures registry == old(registry) && flags == old(flags)
    {
      thrown := AdoptAll(owner, added);
      if thrown.None? {
        AdoptedAlike(old(items), owner, added, Rebind);
        ReindexChildren(owner);
      }
    }

    /**
     * DataItem.Filter(filter, null, caseSensitive, showMatchesOnly) on `x`;
     * `depth` bounds the height of the subtree (see Bounded).
     */
    method Filter(x: ItemId, q: Query, depth: nat) returns (r: Result<bool, FilterError>)
      requires Closed(items) && AllBound(items) && x in items && Bounded(items, x, depth)
      modifies this
      ensures items == old(items) && registry == old(registry)
      ensures Filtered(flags, r) == FilterItem(items, old(flags), x, q, depth)
      decreases depth
    {
      var cs := items[x].children;
      var matchFound := false;
      var i := 0;
      while i < |cs|
        invariant 0 <= i <= |cs| && items == old(items) && registry == old(registry)
        invariant FilterChildren(items, old(flags), cs[..i], q, depth - 1) == Filtered(flags, Success(matchFound))
      {
        FilterChildrenSnoc(items, old(flags), cs, q, depth - 1, i, flags, matchFound);
        var b := Filter(cs[i], q, depth - 1);
        if b.Failure? {
          FilterChildrenStuck(items, old(flags), cs, q, depth - 1, i + 1);
          assert cs[..|cs|] == cs;
          return b;
        }
        if b.value {
          matchFound := true;
        }
        i := i + 1;
      }
      assert cs[..i] == cs;
      if matchFound && !q.showMatchesOnly && Unfolds(items, x) {
        UnfilterDescendants(x, depth);
      }
      r := FilterSelfStep(x, q, matchFound);
    }

    /** The loop over Descendants that clears IsSearchFiltered. */
    method UnfilterDescendants(x: ItemId, depth: nat)
      requires Closed(items) && x in items
      modifies this
      ensures items == old(items) && registry == old(registry)
      ensures flags == Unfiltered(old(flags), Descendants(items, x, depth))
    {
      var ds := Descendants(items, x, depth);
      var k := 0;
      while k < |ds|
        invariant 0 <= k <= |ds| && items == old(items) && registry == old(registry)
        invariant flags == Unfiltered(old(flags), ds[..k])
      {
        var y := ds[k];
        flags := flags[y := FlagsOf(flags, y).(isSearchFiltered := false)];
        assert ds[..k + 1] == ds[..k] + [y];
        k := k + 1;
      }
      assert ds[..k] == ds;
    }

    /** The end of Filter: the item's own test and flags, given whether a child matched. */
    method FilterSelfStep(x: ItemId, q: Query, matchFound: bool) returns (r: Result<bool, FilterError>)
      requires x in items && AllBound(items)
      modifies this
      ensures items == old(items) && registry == old(registry)
      ensures Filtered(flags, r) == FilterSelf(items, old(flags), x, q, matchFound)
    {
      var f := FlagsOf(flags, x);
      if q.filter.None? {
        flags := flags[x := f.(isSearchFiltered := false)];
        r := Success(matchFound);
      } else if !matchFound {
        var vis := VisibleFromBindings(items[x].groups, Values(items));
        if vis.Failure? {
          return Failure(BindingFailed(vis.error));
        }
        if vis.value {
          var it := items[x];
          var mf := MatchesText(it.name, it.kind.PrimitiveItem?, GetValue(ValueOf(it)), q.filter.value, q.caseSensitive);
          if mf.Failure? {
            return Failure(mf.error);
          }
          flags := flags[x := f.(isSearchFiltered := !mf.value)];
          r := mf;
        } else {
          flags := flags[x := f.(isSearchFiltered := true)];
          r := Success(false);
        }
      } else {
        flags := flags[x := f.(isExpanded := true, isSearchFiltered := false)];
        r := Success(true);
      }
    }
  }

  // ---------------------------------------------------------------------------
  // IsVisible

  /** Every item's visibility statements refer to existing items when bound. */
  predicate AllBound(items: Items) {
    forall y | y in items :: WellBound(items[y].groups, Values(items))
  }

  /**
   * IsVisible: the visible flag, not search-filtered, not multiselect-filtered,
   * and IsVisibleFromBindings; the && chain stops before evaluating the
   * bindings when a flag already decides it.
   */
  function IsVisible(items: Items, fl: FlagMap, x: ItemId): (r: Result<bool, VisError>)
    requires x in items && AllBound(items)
    ensures var f := FlagsOf(fl, x);
      && (!(f.isVisible && !f.isSearchFiltered && !f.isMultiselectFiltered) ==> r == Success(false))
      && ((r.Success? && r.value) <==>
            (f.isVisible && !f.isSearchFiltered && !f.isMultiselectFiltered
             && VisibleFromBindings(items[x].groups, Values(items)) == Success(true)))
  {
    var f := FlagsOf(fl, x);
    if f.isVisible && !f.isSearchFiltered && !f.isMultiselectFiltered then
      VisibleFromBindings(items[x].groups, Values(items))
    else Success(false)
  }

  // ---------------------------------------------------------------------------
  // FocusName

  /**
   * Where the lazy match `<.*?>` that starts with a '<' just before position i
   * ends: the first '>' at or after i, provided no line break comes first
   * ('.' does not match a line break).
   */
  /** No line break in s[i..j]. */
  predicate OnOneLine(s: string, i: nat, j: nat)
    requires i <= j <= |s|
  {
    forall m | i <= m < j :: s[m] != '\n'
  }

  function TagEnd(s: string, i: nat): (r: Option<nat>)
    requires i <= |s|
    ensures r.Some? ==> i <= r.value < |s| && s[r.value] == '>'
    ensures r.Some? ==> forall j | i <= j < r.value :: s[j] != '>' && s[j] != '\n'
    ensures r.None? ==> forall j | i <= j < |s| && s[j] == '>' :: !OnOneLine(s, i, j)
    decreases |s| - i
  {
    if i == |s| then None
    else if s[i] == '>' then Some(i)
    else if s[i] == '\n' then None
    else TagEnd(s, i + 1)
  }

  /** Regex.Replace(s, "<.*?>", ""): every tag is removed, scanning left to right. */
  function StripTags(s: string): (r: string)
    ensures |r| <= |s|
    decreases |s|
  {
    if |s| == 0 then ""
    else if s[0] == '<' && TagEnd(s, 1).Some? then StripTags(s[TagEnd(s, 1).value + 1..])
    else [s[0]] + StripTags(s[1..])
  }

  /** No '<' in `s` is followed by a '>' on the same line. */
  predicate TagFree(s: string) {
    forall i | 0 <= i < |s| && s[i] == '<' :: TagEnd(s, i + 1).None?
  }

  lemma TagEndShift(c: char, t: string, i: nat)
    requires i <= |t|
    ensures TagEnd([c] + t, i + 1) == (match TagEnd(t, i) case None => None case Some(j) => Some(j + 1))
    decreases |t| - i
  {
    var s := [c] + t;
    if i < |t| {
      assert s[i + 1] == t[i];
      TagEndShift(c, t, i + 1);
    }
  }

  /** A text with no closing '>' before its first line break keeps that property when stripped. */
  lemma {:induction false} StripKeepsOpenLine(t: string)
    requires TagEnd(t, 0).None?
    ensures TagEnd(StripTags(t), 0).None?
    decreases |t|
  {
    if |t| > 0 {
      if t[0] == '\n' {
        var r := StripTags(t);
        assert r == [t[0]] + StripTags(t[1..]);
        assert r[0] == '\n';
      } else {
        assert t[0] != '>';
        assert TagEnd(t, 1).None?;
        StripKeepsOpenLine(t[1..]);
        TagEndShift(t[0], StripTags(t[1..]), 0);
        TagEndShift(t[0], t[1..], 0);
        assert [t[0]] + t[1..] == t;
      }
    }
  }

  /** After stripping no tag is left: `<` never again starts a same-line `<...>`. */
  lemma {:induction false} StripTagsTagFree(s: string)
    ensures TagFree(StripTags(s))
    decreases |s|
  {
    if |s| > 0 {
      if s[0] == '<' && TagEnd(s, 1).Some? {
        StripTagsTagFree(s[TagEnd(s, 1).value + 1..]);
      } else {
        var rest := StripTags(s[1..]);
        StripTagsTagFree(s[1..]);
        var r := [s[0]] + rest;
        forall i | 0 <= i < |r| && r[i] == '<'
          ensures TagEnd(r, i + 1).None?
        {
          if i == 0 {
            // s[0] == '<' and no '>' follows on its line
            TagEndShift(s[0], s[1..], 0);
            assert [s[0]] + s[1..] == s;
            assert TagEnd(s[1..], 0).None?;
            StripKeepsOpenLine(s[1..]);
            TagEndShift(s[0], rest, 0);
          } else {
            assert rest[i - 1] == '<';
            TagEndShift(s[0], rest, i);
          }
        }
      }
    }
  }

  /** FocusName: the name, then ':' and the tag-stripped description cut to 10 characters plus "...". */
  function FocusName(name: Option<string>, desc: Option<string>): (r: Option<string>)
    ensures IsNullOrWhiteSpace(desc) ==> r == name
  {
    if IsNullOrWhiteSpace(desc) then name
    else
      var d := StripTags(desc.value);
      Some(name.GetOr("") + ":" + (if |d| > 13 then d[..10] + "..." else d))
  }

  /**
   * A non-blank description is shown after the name and a ':' as at most 13
   * characters without tags: the whole stripped text when it is short enough,
   * otherwise its first 10 characters and "...".
   */
  lemma FocusNameShape(name: Option<string>, desc: string)
    requires !IsBlank(desc)
    ensures var r := FocusName(name, Some(desc));
      var d := StripTags(desc);
      var shown := r.value[|name.GetOr("")| + 1..];
      && r.Some? && |r.value| > |name.GetOr("")|
      && r.value[..|name.GetOr("")| + 1] == name.GetOr("") + ":"
      && |shown| <= 13 && TagFree(d)
      && (|d| <= 13 ==> shown == d)
      && (|d| > 13 ==> shown[..10] == d[..10] && shown[10..] == "...")
  {
    StripTagsTagFree(desc);
  }

  // ---------------------------------------------------------------------------
  // Descendants and Filter

  /** Every child list refers to existing items. */
  predicate Closed(items: Items) {
    forall y | y in items :: Present(items, items[y].children)
  }

  /** The subtree below `x` is at most `n - 1` levels deep: `n` bounds the recursion. */
  predicate Bounded(items: Items, x: ItemId, n: nat)
    requires Closed(items) && x in items
    decreases n
  {
    n > 0 && forall k | 0 <= k < |items[x].children| :: Bounded(items, items[x].children[k], n - 1)
  }

  /** DataItem.Descendants: every child, each followed by its own descendants (pre-order). */
  function Descendants(items: Items, x: ItemId, n: nat): (r: seq<ItemId>)
    requires Closed(items) && x in items
    ensures Present(items, r)
    decreases n, 0
  {
    if n == 0 then [] else DescendantsOf(items, items[x].children, n - 1)
  }

  function DescendantsOf(items: Items, cs: seq<ItemId>, n: nat): (r: seq<ItemId>)
    requires Closed(items) && Present(items, cs)
    ensures Present(items, r)
    decreases n, 1, |cs|
  {
    if |cs| == 0 then []
    else [cs[0]] + Descendants(items, cs[0], n) + DescendantsOf(items, cs[1..], n)
  }

  lemma {:induction false} DescendantsOfContains(items: Items, cs: seq<ItemId>, n: nat, k: nat)
    requires Closed(items) && Present(items, cs) && k < |cs|
    ensures cs[k] in DescendantsOf(items, cs, n)
    ensures forall y | y in Descendants(items, cs[k], n) :: y in DescendantsOf(items, cs, n)
    decreases |cs|
  {
    if k > 0 {
      DescendantsOfContains(items, cs[1..], n, k - 1);
    }
  }

  /**
   * Descendants is closed downwards: each child of `x` is a descendant of `x`,
   * and so is every descendant of that child.
   */
  lemma DescendantsOfChild(items: Items, x: ItemId, n: nat, k: nat)
    requires Closed(items) && x in items && n > 0 && k < |items[x].children|
    ensures var c := items[x].children[k];
      c in Descendants(items, x, n) && forall y | y in Descendants(items, c, n - 1) :: y in Descendants(items, x, n)
  {
    DescendantsOfContains(items, items[x].children, n - 1, k);
  }

  /** The search options of Filter; only the substring mode (no regex) is modelled. */
  datatype Query = Query(filter: Option<string>, caseSensitive: bool, showMatchesOnly: bool)

  /** What makes Filter throw: evaluating a visibility statement, or a null string. */
  datatype FilterError = BindingFailed(e: VisError) | NullText

  /** The flags after a Filter call, and what the call returned (or threw). */
  datatype Filtered = Filtered(flags: FlagMap, outcome: Result<bool, FilterError>)

  /** DataItem.GetValue: numbers and booleans printed, text as it is; non-primitives give null. */
  function GetValue(v: Value): (r: Option<string>)
    ensures v.NumberValue? ==> r.Some? && ParseInt(r.value) == Some(v.n)
  {
    match v
    case NumberValue(n) => ParseIntToString(n); Some(IntToString(n))
    case BoolValue(b) => Some(if b then "True" else "False")
    case TextValue(s) => s
    case NotPrimitive => None
  }

  /**
   * The string test of Filter for one item. Case-sensitive: the name, then the
   * value of a primitive, stopping at the first that contains the filter; a
   * null string reached throws. Otherwise both are lower-cased first, so a null
   * name or a null value of a primitive throws before any test.
   */
  function MatchesText(name: Option<string>, primitive: bool, value: Option<string>, filter: string, caseSensitive: bool): (r: Result<bool, FilterError>)
    ensures r.Success? && r.value ==> name.Some?
    ensures name.Some? && (!primitive || value.Some?) ==>
      r.Success? && (r.value <==>
        if caseSensitive then Contains(name.value, filter) || (primitive && Contains(value.value, filter))
        else Contains(ToLower(name.value), filter) || (primitive && Contains(ToLower(value.value), filter)))
  {
    if name.None? then Failure(NullText)
    else if caseSensitive then
      if Contains(name.value, filter) then Success(true)
      else if !primitive then Success(false)
      else if value.None? then Failure(NullText)
      else Success(Contains(value.value, filter))
    else if primitive && value.None? then Failure(NullText)
    else Success(Contains(ToLower(name.value), filter) || (primitive && Contains(ToLower(value.value), filter)))
  }

  /**
   * What the item's own test gives when no descendant matched: false when the
   * statements hide it, else the string test. A null filter matches nothing.
   */
  function SelfMatch(items: Items, x: ItemId, q: Query): Result<bool, FilterError>
    requires x in items && AllBound(items)
  {
    if q.filter.None? then Success(false)
    else
      match VisibleFromBindings(items[x].groups, Values(items))
      case Failure(e) => Failure(BindingFailed(e))
      case Success(vis) =>
        if vis then
          var it := items[x];
          MatchesText(it.name, it.kind.PrimitiveItem?, GetValue(ValueOf(it)), q.filter.value, q.caseSensitive)
        else Success(false)
  }

  /** The reference meaning of a filter result: some item of the subtree passes its own test. */
  predicate SubtreeMatches(items: Items, x: ItemId, q: Query, n: nat)
    requires Closed(items) && AllBound(items) && x in items
    decreases n, 0
  {
    n > 0 && (SelfMatch(items, x, q) == Success(true) || AnyMatches(items, items[x].children, q, n - 1))
  }

  /** Some subtree rooted in `cs` matches. */
  predicate AnyMatches(items: Items, cs: seq<ItemId>, q: Query, n: nat)
    requires Closed(items) && AllBound(items) && Present(items, cs)
    decreases n, 1, |cs|
  {
    |cs| > 0 && (AnyMatches(items, cs[..|cs| - 1], q, n) || SubtreeMatches(items, cs[|cs| - 1], q, n))
  }

  /** The loop over Descendants that clears IsSearchFiltered. */
  function Unfiltered(fl: FlagMap, ds: seq<ItemId>): (r: FlagMap)
    ensures forall y :: FlagsOf(r, y) == if y in ds then FlagsOf(fl, y).(isSearchFiltered := false) else FlagsOf(fl, y)
    decreases |ds|
  {
    if |ds| == 0 then fl
    else var y := ds[|ds| - 1]; var p := Unfiltered(fl, ds[..|ds| - 1]); p[y := FlagsOf(p, y).(isSearchFiltered := false)]
  }

  /** A struct inside a collection child, or a collection child wrapping a struct. */
  predicate Unfolds(items: Items, x: ItemId)
    requires x in items
  {
    var it := items[x];
    (it.kind.StructItem? && it.parent.Some? && it.parent.value in items && items[it.parent.value].kind.CollectionChildItem?)
    || (it.kind.CollectionChildItem? && it.kind.wrapped.Some? && it.kind.wrapped.value in items
        && items[it.kind.wrapped.value].kind.StructItem?)
  }

  /** The part of Filter after the children: the item's own flags and result. */
  function FilterSelf(items: Items, fl: FlagMap, x: ItemId, q: Query, m: bool): (r: Filtered)
    requires x in items && AllBound(items)
    ensures r.outcome == if m then Success(true) else SelfMatch(items, x, q)
    ensures r.outcome.Success? ==> FlagsOf(r.flags, x).isSearchFiltered == (q.filter.Some? && !r.outcome.value)
  {
    var f := FlagsOf(fl, x);
    if q.filter.None? then Filtered(fl[x := f.(isSearchFiltered := false)], Success(m))
    else if !m then
      match VisibleFromBindings(items[x].groups, Values(items))
      case Failure(e) => Filtered(fl, Failure(BindingFailed(e)))
      case Success(vis) =>
        if vis then
          var it := items[x];
          match MatchesText(it.name, it.kind.PrimitiveItem?, GetValue(ValueOf(it)), q.filter.value, q.caseSensitive)
          case Failure(e) => Filtered(fl, Failure(e))
          case Success(mf) => Filtered(fl[x := f.(isSearchFiltered := !mf)], Success(mf))
        else Filtered(fl[x := f.(isSearchFiltered := true)], Success(false))
    else Filtered(fl[x := f.(isExpanded := true, isSearchFiltered := false)], Success(true))
  }

  /**
   * DataItem.Filter on `x`: filter the children in order, un-filter the
   * descendants of a matching struct in a collection child, then test the item
   * itself. `n` bounds the depth (see Bounded).
   */
  function FilterItem(items: Items, fl: FlagMap, x: ItemId, q: Query, n: nat): (r: Filtered)
    requires Closed(items) && AllBound(items) && x in items
    ensures n > 0 && r.outcome.Success? ==> FlagsOf(r.flags, x).isSearchFiltered == (q.filter.Some? && !r.outcome.value)
    decreases n, 0
  {
    if n == 0 then Filtered(fl, Success(false))
    else
      var c := FilterChildren(items, fl, items[x].children, q, n - 1);
      match c.outcome
      case Failure(_) => c
      case Success(m) => FilterSelf(items, Prepared(items, c.flags, x, q, n, m), x, q, m)
  }

  /** The flags FilterSelf starts from: descendants un-filtered when a child matched in an unfolding item. */
  function Prepared(items: Items, fl: FlagMap, x: ItemId, q: Query, n: nat, m: bool): FlagMap
    requires Closed(items) && x in items
  {
    if m && !q.showMatchesOnly && Unfolds(items, x) then Unfiltered(fl, Descendants(items, x, n)) else fl
  }

  /** The children loop of Filter: every child is filtered; the result is whether any matched. */
  function FilterChildren(items: Items, fl: FlagMap, cs: seq<ItemId>, q: Query, n: nat): (r: Filtered)
    requires Closed(items) && AllBound(items) && Present(items, cs)
    decreases n, 1, |cs|
  {
    if |cs| == 0 then Filtered(fl, Success(false))
    else
      var p := FilterChildren(items, fl, cs[..|cs| - 1], q, n);
      match p.outcome
      case Failure(_) => p
      case Success(b) =>
        var f := FilterItem(items, p.flags, cs[|cs| - 1], q, n);
        match f.outcome
        case Failure(_) => f
        case Success(b2) => Filtered(f.flags, Success(b || b2))
  }

  /** The children loop one child further, from flags `g` and match `m` so far. */
  lemma FilterChildrenSnoc(items: Items, fl: FlagMap, cs: seq<ItemId>, q: Query, n: nat, i: nat, g: FlagMap, m: bool)
    requires Closed(items) && AllBound(items) && Present(items, cs) && i < |cs|
    requires FilterChildren(items, fl, cs[..i], q, n) == Filtered(g, Success(m))
    ensures var f := FilterItem(items, g, cs[i], q, n);
      FilterChildren(items, fl, cs[..i + 1], q, n) == if f.outcome.Failure? then f else Filtered(f.flags, Success(m || f.outcome.value))
  {
    assert cs[..i + 1][..i] == cs[..i];
  }

  /** Once a child's Filter throws, the later children are not filtered. */
  lemma {:induction false} FilterChildrenStuck(items: Items, fl: FlagMap, cs: seq<ItemId>, q: Query, n: nat, k: nat)
    requires Closed(items) && AllBound(items) && Present(items, cs) && 0 < k <= |cs|
    requires FilterChildren(items, fl, cs[..k], q, n).outcome.Failure?
    ensures FilterChildren(items, fl, cs, q, n) == FilterChildren(items, fl, cs[..k], q, n)
    decreases |cs|
  {
    if k < |cs| {
      var init := cs[..|cs| - 1];
      assert init[..k] == cs[..k];
      FilterChildrenStuck(items, fl, init, q, n, k);
    } else {
      assert cs[..k] == cs;
    }
  }

  /**
   * When Filter returns without throwing, it returns true iff some item of the
   * subtree (the item or a descendant) is visible from its bindings and its
   * name or value contains the filter; a null filter matches nothing.
   */
  lemma {:induction false} FilterFinds(items: Items, fl: FlagMap, x: ItemId, q: Query, n: nat)
    requires Closed(items) && AllBound(items) && x in items
    ensures var r := FilterItem(items, fl, x, q, n);
      r.outcome.Success? ==> (r.outcome.value <==> SubtreeMatches(items, x, q, n))
    decreases n, 0
  {
    if n > 0 {
      FilterChildrenFinds(items, fl, items[x].children, q, n - 1);
    }
  }

  lemma {:induction false} FilterChildrenFinds(items: Items, fl: FlagMap, cs: seq<ItemId>, q: Query, n: nat)
    requires Closed(items) && AllBound(items) && Present(items, cs)
    ensures var r := FilterChildren(items, fl, cs, q, n);
      r.outcome.Success? ==> (r.outcome.value <==> AnyMatches(items, cs, q, n))
    decreases n, 1, |cs|
  {
    if |cs| > 0 {
      FilterChildrenFinds(items, fl, cs[..|cs| - 1], q, n);
      var p := FilterChildren(items, fl, cs[..|cs| - 1], q, n);
      if p.outcome.Success? {
        FilterFinds(items, p.flags, cs[|cs| - 1], q, n);
      }
    }
  }

  /** A null filter never throws and matches nothing, however deep the tree. */
  lemma {:induction false} FilterNullMatchesNothing(items: Items, fl: FlagMap, x: ItemId, q: Query, n: nat)
    requires Closed(items) && AllBound(items) && x in items && q.filter.None?
    ensures FilterItem(items, fl, x, q, n).outcome == Success(false)
    decreases n, 0
  {
    if n > 0 {
      FilterChildrenNullMatchesNothing(items, fl, items[x].children, q, n - 1);
    }
  }

  lemma {:induction false} FilterChildrenNullMatchesNothing(items: Items, fl: FlagMap, cs: seq<ItemId>, q: Query, n: nat)
    requires Closed(items) && AllBound(items) && Present(items, cs) && q.filter.None?
    ensures FilterChildren(items, fl, cs, q, n).outcome == Success(false)
    decreases n, 1, |cs|
  {
    if |cs| > 0 {
      FilterChildrenNullMatchesNothing(items, fl, cs[..|cs| - 1], q, n);
      var p := FilterChildren(items, fl, cs[..|cs| - 1], q, n);
      FilterNullMatchesNothing(items, p.flags, cs[|cs| - 1], q, n);
    }
  }
}
