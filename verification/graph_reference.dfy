/**
 * GraphReferenceItem: a data item that points at a graph node. Setting the
 * wrapped node moves this item from the old node's LinkParents to the new
 * node's, takes the node's definition as the chosen one, and copies the node's
 * Name, ToolTip and TextColour (or the item's own definition's when unset).
 * A reference loaded with only a GUID resolves it against the grid's node
 * registry when it joins a grid, or later, when the registry changes.
 */
module GraphReferences {
  import opened Wrappers
  import opened Text
  import opened DataItems
  import Visibility
  import UndoRedo

  predicate IsRef(items: Items, x: ItemId) {
    x in items && items[x].kind.GraphReferenceItem?
  }

  predicate IsNode(items: Items, x: ItemId) {
    x in items && items[x].kind.GraphNodeItem?
  }

  /** List.Remove: drops the first occurrence of `x`, if there is one. */
  function RemoveFirst(s: seq<ItemId>, x: ItemId): (r: seq<ItemId>)
    ensures multiset(r) == multiset(s) - multiset{x}
    ensures x !in s ==> r == s
  {
    if |s| == 0 then s
    else if s[0] == x then (assert s == [s[0]] + s[1..]; s[1..])
    else (assert s == [s[0]] + s[1..]; [s[0]] + RemoveFirst(s[1..], x))
  }

  lemma {:induction false} RemoveFirstAppend(s: seq<ItemId>, x: ItemId)
    requires x !in s
    ensures RemoveFirst(s + [x], x) == s
  {
    if |s| > 0 {
      assert (s + [x])[1..] == s[1..] + [x];
      RemoveFirstAppend(s[1..], x);
      assert s == [s[0]] + s[1..];
    }
  }

  // ---------------------------------------------------------------------------
  // The link invariant

  /**
   * Every target of a reference is a graph node, and a node's LinkParents hold
   * each reference exactly once when it targets that node and never otherwise;
   * nothing but references appears there.
   */
  predicate LinksOk(items: Items) {
    && (forall q | q in items && IsRef(items, q) && items[q].kind.wrapped.Some? :: IsNode(items, items[q].kind.wrapped.value))
    && (forall n, q | n in items && q in items && IsNode(items, n) ::
          multiset(items[n].kind.linkParents)[q] == if IsRef(items, q) && items[q].kind.wrapped == Some(n) then 1 else 0)
  }

  // ---------------------------------------------------------------------------
  // The WrappedItem setter

  /** The old target's LinkParents.Remove(this). */
  function Unlinked(items: Items, r: ItemId, o: Option<ItemId>): (u: Items)
    ensures u.Keys == items.Keys
  {
    if o.Some? && IsNode(items, o.value) then
      var it := items[o.value];
      items[o.value := it.(kind := it.kind.(linkParents := RemoveFirst(it.kind.linkParents, r)))]
    else items
  }

  /** The new target's LinkParents.Add(this). */
  function Linked(items: Items, r: ItemId, t: Option<ItemId>): (u: Items)
    ensures u.Keys == items.Keys
  {
    if t.Some? && IsNode(items, t.value) then
      var it := items[t.value];
      items[t.value := it.(kind := it.kind.(linkParents := it.kind.linkParents + [r]))]
    else items
  }

  /**
   * The reference's own fields after the setter: the target, its definition as
   * ChosenDefinition, and Name, ToolTip and TextColour from the target, or from
   * the reference's definition when there is no target.
   */
  function Pointed(it: Item, t: Option<ItemId>, items: Items): Item
    requires it.kind.GraphReferenceItem? && (t.Some? ==> t.value in items)
  {
    if t.Some? then
      var tg := items[t.value];
      it.(kind := it.kind.(wrapped := t, chosen := Some(tg.def)), name := tg.name, toolTip := tg.toolTip, textColour := tg.textColour)
    else
      it.(kind := it.kind.(wrapped := None, chosen := None), name := it.def.name, toolTip := it.def.toolTip, textColour := it.def.textColour)
  }

  /** The WrappedItem setter on reference `r`: unlink from the old target, point at `t`, link into `t`. */
  function Retarget(items: Items, r: ItemId, t: Option<ItemId>): (u: Items)
    requires IsRef(items, r) && (t.Some? ==> IsNode(items, t.value))
    ensures u.Keys == items.Keys && IsRef(u, r)
  {
    var s1 := Unlinked(items, r, items[r].kind.wrapped);
    var s2 := s1[r := Pointed(s1[r], t, items)];
    Linked(s2, r, t)
  }

  /** Node `n`'s LinkParents after the setter: `r` removed if `n` was the old target, appended if it is the new one. */
  function LinkParentsAfter(items: Items, r: ItemId, t: Option<ItemId>, n: ItemId): seq<ItemId>
    requires IsRef(items, r) && IsNode(items, n)
  {
    var lp := items[n].kind.linkParents;
    (if items[r].kind.wrapped == Some(n) then RemoveFirst(lp, r) else lp) + (if t == Some(n) then [r] else [])
  }

  /**
   * What the setter does to each item: the reference is pointed at `t`, a node
   * changes only its LinkParents, every other item is left alone.
   */
  lemma RetargetAt(items: Items, r: ItemId, t: Option<ItemId>, y: ItemId)
    requires IsRef(items, r) && (t.Some? ==> IsNode(items, t.value)) && y in items
    ensures var u := Retarget(items, r, t);
      u[y] == if y == r then Pointed(items[r], t, items)
              else if IsNode(items, y) then items[y].(kind := items[y].kind.(linkParents := LinkParentsAfter(items, r, t, y)))
              else items[y]
  {
    if y == r {
      RetargetAtRef(items, r, t);
    } else if IsNode(items, y) {
      RetargetAtNode(items, r, t, y);
    } else {
      RetargetAtOther(items, r, t, y);
    }
  }

  lemma RetargetAtRef(items: Items, r: ItemId, t: Option<ItemId>)
    requires IsRef(items, r) && (t.Some? ==> IsNode(items, t.value))
    ensures Retarget(items, r, t)[r] == Pointed(items[r], t, items)
  {
    var s1 := Unlinked(items, r, items[r].kind.wrapped);
    var s2 := s1[r := Pointed(s1[r], t, items)];
    UnlinkedLeaves(items, r, items[r].kind.wrapped, r);
    assert s2[r].kind.GraphReferenceItem?;
    LinkedLeaves(s2, r, t, r);
  }

  lemma UnlinkedLeaves(items: Items, r: ItemId, o: Option<ItemId>, y: ItemId)
    requires y in items && !IsNode(items, y)
    ensures Unlinked(items, r, o)[y] == items[y]
  {
  }

  lemma LinkedLeaves(s2: Items, r: ItemId, t: Option<ItemId>, y: ItemId)
    requires y in s2 && !IsNode(s2, y)
    ensures Linked(s2, r, t)[y] == s2[y]
  {
  }

  lemma RetargetAtNode(items: Items, r: ItemId, t: Option<ItemId>, y: ItemId)
    requires IsRef(items, r) && (t.Some? ==> IsNode(items, t.value)) && IsNode(items, y)
    ensures Retarget(items, r, t)[y] == items[y].(kind := items[y].kind.(linkParents := LinkParentsAfter(items, r, t, y)))
  {
    var o := items[r].kind.wrapped;
    var s1 := Unlinked(items, r, o);
    var s2 := s1[r := Pointed(s1[r], t, items)];
    UnlinkedAt(items, r, o, y);
    assert s2[y] == s1[y];
    LinkedAt(s2, r, t, y);
  }

  lemma UnlinkedAt(items: Items, r: ItemId, o: Option<ItemId>, y: ItemId)
    requires IsNode(items, y)
    ensures var k := items[y].kind;
      Unlinked(items, r, o)[y] == items[y].(kind := k.(linkParents := if o == Some(y) then RemoveFirst(k.linkParents, r) else k.linkParents))
  {
    var k := items[y].kind;
    if o != Some(y) {
      assert k.(linkParents := k.linkParents) == k;
    }
  }

  lemma RetargetAtOther(items: Items, r: ItemId, t: Option<ItemId>, y: ItemId)
    requires IsRef(items, r) && (t.Some? ==> IsNode(items, t.value)) && y in items && y != r && !IsNode(items, y)
    ensures Retarget(items, r, t)[y] == items[y]
  {
    var s1 := Unlinked(items, r, items[r].kind.wrapped);
    var s2 := s1[r := Pointed(s1[r], t, items)];
    UnlinkedLeaves(items, r, items[r].kind.wrapped, y);
    assert s2[y] == items[y];
    LinkedLeaves(s2, r, t, y);
  }

  lemma LinkedAt(s2: Items, r: ItemId, t: Option<ItemId>, y: ItemId)
    requires IsNode(s2, y)
    ensures var k := s2[y].kind;
      Linked(s2, r, t)[y] == s2[y].(kind := k.(linkParents := k.linkParents + (if t == Some(y) then [r] else [])))
  {
    var k := s2[y].kind;
    if t != Some(y) {
      assert k.linkParents + [] == k.linkParents;
      assert k.(linkParents := k.linkParents) == k;
    }
  }

  /** A reference's fields agree with its target, as the setter leaves them. */
  predicate Consistent(items: Items, r: ItemId) {
    && IsRef(items, r)
    && (items[r].kind.wrapped.Some? ==> items[r].kind.wrapped.value in items)
    && items[r] == Pointed(items[r], items[r].kind.wrapped, items)
  }

  lemma LinksAt(items: Items, r: ItemId, t: Option<ItemId>, n: ItemId, q: ItemId)
    requires LinksOk(items) && IsRef(items, r) && (t.Some? ==> IsNode(items, t.value))
    requires IsNode(items, n) && q in items
    ensures var u := Retarget(items, r, t);
      multiset(u[n].kind.linkParents)[q] == if IsRef(u, q) && u[q].kind.wrapped == Some(n) then 1 else 0
  {
    var lp: seq<ItemId> := items[n].kind.linkParents;
    assert multiset(lp)[r] == if items[r].kind.wrapped == Some(n) then 1 else 0;
    assert multiset(lp)[q] == if IsRef(items, q) && items[q].kind.wrapped == Some(n) then 1 else 0;
    LinksAtOne(items, r, t, n, q);
  }

  /** LinksAt for one node and one item, from the two counts it needs before the setter. */
  lemma LinksAtOne(items: Items, r: ItemId, t: Option<ItemId>, n: ItemId, q: ItemId)
    requires IsRef(items, r) && (t.Some? ==> IsNode(items, t.value))
    requires IsNode(items, n) && q in items
    requires multiset(items[n].kind.linkParents)[r] == if items[r].kind.wrapped == Some(n) then 1 else 0
    requires multiset(items[n].kind.linkParents)[q] == if IsRef(items, q) && items[q].kind.wrapped == Some(n) then 1 else 0
    ensures var u := Retarget(items, r, t);
      multiset(u[n].kind.linkParents)[q] == if IsRef(u, q) && u[q].kind.wrapped == Some(n) then 1 else 0
  {
    var u := Retarget(items, r, t);
    var lp: seq<ItemId> := items[n].kind.linkParents;
    var removed: seq<ItemId> := if items[r].kind.wrapped == Some(n) then RemoveFirst(lp, r) else lp;
    var added: seq<ItemId> := if t == Some(n) then [r] else [];
    RetargetAt(items, r, t, n);
    assert u[n].kind.linkParents == removed + added;
    assert multiset(u[n].kind.linkParents)[q] == multiset(removed)[q] + multiset(added)[q];
    RetargetAt(items, r, t, q);
    if q == r {
      assert multiset(removed)[r] == 0;
      assert u[r].kind.wrapped == t;
    } else {
      assert multiset(removed)[q] == multiset(lp)[q];
      assert multiset(added)[q] == 0;
      assert IsRef(u, q) == IsRef(items, q);
      assert IsRef(u, q) ==> u[q].kind.wrapped == items[q].kind.wrapped;
    }
  }

  /** The setter keeps the link invariant and leaves the reference consistent with its new target. */
  lemma RetargetKeepsLinks(items: Items, r: ItemId, t: Option<ItemId>)
    requires LinksOk(items) && IsRef(items, r) && (t.Some? ==> IsNode(items, t.value))
    ensures LinksOk(Retarget(items, r, t)) && Consistent(Retarget(items, r, t), r)
  {
    var u := Retarget(items, r, t);
    RetargetCounts(items, r, t);
    RetargetTargets(items, r, t);
    RetargetAt(items, r, t, r);
    if t.Some? {
      RetargetAt(items, r, t, t.value);
    }
  }

  /** After the setter every node lists each reference that targets it exactly once. */
  lemma RetargetCounts(items: Items, r: ItemId, t: Option<ItemId>)
    requires LinksOk(items) && IsRef(items, r) && (t.Some? ==> IsNode(items, t.value))
    ensures var u := Retarget(items, r, t);
      forall n, q | n in u && q in u && IsNode(u, n) ::
        multiset(u[n].kind.linkParents)[q] == if IsRef(u, q) && u[q].kind.wrapped == Some(n) then 1 else 0
  {
    var u := Retarget(items, r, t);
    forall n, q | n in u && q in u && IsNode(u, n)
      ensures multiset(u[n].kind.linkParents)[q] == if IsRef(u, q) && u[q].kind.wrapped == Some(n) then 1 else 0
    {
      RetargetAt(items, r, t, n);
      LinksAt(items, r, t, n, q);
    }
  }

  /** After the setter every reference with a target still targets a node. */
  lemma RetargetTargets(items: Items, r: ItemId, t: Option<ItemId>)
    requires LinksOk(items) && IsRef(items, r) && (t.Some? ==> IsNode(items, t.value))
    ensures var u := Retarget(items, r, t);
      forall q | q in u && IsRef(u, q) && u[q].kind.wrapped.Some? :: IsNode(u, u[q].kind.wrapped.value)
  {
    var u := Retarget(items, r, t);
    forall q | q in u && IsRef(u, q) && u[q].kind.wrapped.Some?
      ensures IsNode(u, u[q].kind.wrapped.value)
    {
      RetargetAt(items, r, t, q);
      RetargetAt(items, r, t, u[q].kind.wrapped.value);
    }
  }

  /** The setter on the live tree, in the order the source takes: unlink, point, link. */
  method SetWrapped(t: ItemTree, r: ItemId, target: Option<ItemId>)
    requires IsRef(t.items, r) && (target.Some? ==> IsNode(t.items, target.value))
    modifies t
    ensures t.flags == old(t.flags) && t.registry == old(t.registry)
    ensures t.items == Retarget(old(t.items), r, target)
  {
    var items := t.items;
    Unlink(t, r, items[r].kind.wrapped);
    t.items := t.items[r := Pointed(t.items[r], target, items)];
    Link(t, r, target);
  }

  /** LinkParents.Remove(this) on the old target. */
  method Unlink(t: ItemTree, r: ItemId, o: Option<ItemId>)
    modifies t
    ensures t.flags == old(t.flags) && t.registry == old(t.registry)
    ensures t.items == Unlinked(old(t.items), r, o)
  {
    if o.Some? && IsNode(t.items, o.value) {
      var it := t.items[o.value];
      t.items := t.items[o.value := it.(kind := it.kind.(linkParents := RemoveFirst(it.kind.linkParents, r)))];
    }
  }

  /** LinkParents.Add(this) on the new target. */
  method Link(t: ItemTree, r: ItemId, target: Option<ItemId>)
    modifies t
    ensures t.flags == old(t.flags) && t.registry == old(t.registry)
    ensures t.items == Linked(old(t.items), r, target)
  {
    if target.Some? && IsNode(t.items, target.value) {
      var it := t.items[target.value];
      t.items := t.items[target.value := it.(kind := it.kind.(linkParents := it.kind.linkParents + [r]))];
    }
  }

  // ---------------------------------------------------------------------------
  // HasContent and Description

  /** HasContent: a definition has been chosen. */
  predicate HasContent(items: Items, r: ItemId)
    requires IsRef(items, r)
  {
    items[r].kind.chosen.Some?
  }

  /** A consistent reference has content exactly when it has a target. */
  lemma HasContentIffTarget(items: Items, r: ItemId)
    requires Consistent(items, r)
    ensures HasContent(items, r) <==> items[r].kind.wrapped.Some?
  {
  }

  /**
   * Description: the target's description (`describe` gives each node's), or
   * "Unset" without a target.
   */
  function Description(items: Items, r: ItemId, describe: ItemId -> string): (d: string)
    requires IsRef(items, r)
    ensures items[r].kind.wrapped.None? ==> d == "Unset"
  {
    match items[r].kind.wrapped
    case Some(w) => describe(w)
    case None => "Unset"
  }

  /** A reference without content describes itself as "Unset"; one with content shows its target's description. */
  lemma DescriptionFollowsContent(items: Items, r: ItemId, describe: ItemId -> string)
    requires Consistent(items, r)
    ensures !HasContent(items, r) ==> Description(items, r, describe) == "Unset"
    ensures HasContent(items, r) ==> Description(items, r, describe) == describe(items[r].kind.wrapped.value)
  {
  }

  // ---------------------------------------------------------------------------
  // Undoing a change of target

  lemma RemoveFirstGone(s: seq<ItemId>, x: ItemId)
    requires multiset(s)[x] == 1
    ensures x !in RemoveFirst(s, x)
  {
    assert multiset(RemoveFirst(s, x))[x] == 0;
  }

  /** Setting the target back after a change: every item is as before, except the old target's LinkParents order. */
  lemma RetargetBackAt(items: Items, r: ItemId, t: Option<ItemId>, y: ItemId)
    requires LinksOk(items) && Consistent(items, r) && (t.Some? ==> IsNode(items, t.value)) && y in items
    requires var m := Retarget(items, r, t); IsRef(m, r) && (items[r].kind.wrapped.Some? ==> IsNode(m, items[r].kind.wrapped.value))
    ensures var o := items[r].kind.wrapped;
      var u := Retarget(Retarget(items, r, t), r, o);
      u[y] == if Some(y) == o then items[y].(kind := items[y].kind.(linkParents := RemoveFirst(items[y].kind.linkParents, r) + [r]))
              else items[y]
  {
    if y == r {
      RetargetBackRef(items, r, t);
    } else if IsNode(items, y) {
      RetargetBackNode(items, r, t, y);
    } else {
      var m := Retarget(items, r, t);
      RetargetAtOther(items, r, t, y);
      RetargetAtOther(m, r, items[r].kind.wrapped, y);
    }
  }

  /** RetargetBackAt for the reference itself: pointed back at its old target, it is as before. */
  lemma RetargetBackRef(items: Items, r: ItemId, t: Option<ItemId>)
    requires LinksOk(items) && Consistent(items, r) && (t.Some? ==> IsNode(items, t.value))
    requires var m := Retarget(items, r, t); IsRef(m, r) && (items[r].kind.wrapped.Some? ==> IsNode(m, items[r].kind.wrapped.value))
    ensures Retarget(Retarget(items, r, t), r, items[r].kind.wrapped)[r] == items[r]
  {
    var o := items[r].kind.wrapped;
    var m := Retarget(items, r, t);
    RetargetAtRef(items, r, t);
    RetargetAtRef(m, r, o);
    if o.Some? {
      RetargetAt(items, r, t, o.value);
      assert m[o.value].def == items[o.value].def && m[o.value].name == items[o.value].name;
      assert m[o.value].toolTip == items[o.value].toolTip && m[o.value].textColour == items[o.value].textColour;
    }
  }

  /** RetargetBackAt for a node other than the reference: only the old target's LinkParents differ. */
  lemma RetargetBackNode(items: Items, r: ItemId, t: Option<ItemId>, y: ItemId)
    requires LinksOk(items) && Consistent(items, r) && (t.Some? ==> IsNode(items, t.value)) && IsNode(items, y) && y != r
    requires var m := Retarget(items, r, t); IsRef(m, r) && (items[r].kind.wrapped.Some? ==> IsNode(m, items[r].kind.wrapped.value))
    ensures var o := items[r].kind.wrapped;
      var u := Retarget(Retarget(items, r, t), r, o);
      u[y] == if Some(y) == o then items[y].(kind := items[y].kind.(linkParents := RemoveFirst(items[y].kind.linkParents, r) + [r]))
              else items[y]
  {
    var o := items[r].kind.wrapped;
    var m := Retarget(items, r, t);
    RetargetAtRef(items, r, t);
    RetargetAtNode(m, r, o, y);
    assert m[r].kind.wrapped == t;
    RetargetAtNode(items, r, t, y);
    var lp: seq<ItemId> := items[y].kind.linkParents;
    assert multiset(lp)[r] == if o == Some(y) then 1 else 0;
    if o != Some(y) {
      assert r !in lp by {
        assert multiset(lp)[r] == 0 as nat;
      }
    }
    BackParents(lp, r, o == Some(y), t == Some(y));
    assert LinkParentsAfter(m, r, o, y) == if Some(y) == o then RemoveFirst(lp, r) + [r] else lp;
    if o != Some(y) {
      assert items[y].(kind := items[y].kind.(linkParents := lp)) == items[y];
    }
  }

  /** A LinkParents list after `r` moved away and back: `r` is at the end if it was there before, else gone. */
  lemma BackParents(lp: seq<ItemId>, r: ItemId, wasOld: bool, isNew: bool)
    requires wasOld ==> multiset(lp)[r] == 1
    requires !wasOld ==> r !in lp
    ensures var mid := (if wasOld then RemoveFirst(lp, r) else lp) + (if isNew then [r] else []);
      (if isNew then RemoveFirst(mid, r) else mid) + (if wasOld then [r] else [])
        == if wasOld then RemoveFirst(lp, r) + [r] else lp
  {
    if wasOld {
      RemoveFirstGone(lp, r);
      if isNew {
        RemoveFirstAppend(RemoveFirst(lp, r), r);
      }
    } else if isNew {
      RemoveFirstAppend(lp, r);
    }
  }

  /**
   * `u` is `d` again after a change of `r`'s target was undone, except that the
   * old target `o` has `r` moved to the end of its LinkParents (same members).
   */
  predicate RestoredBut(u: Doc, d: Doc, r: ItemId, o: Option<ItemId>) {
    && u.registry == d.registry && u.items.Keys == d.items.Keys
    && (forall y | y in d.items && Some(y) != o :: u.items[y] == d.items[y])
    && (o.Some? && IsNode(d.items, o.value) ==>
          var lp := d.items[o.value].kind.linkParents;
          && u.items[o.value] == d.items[o.value].(kind := d.items[o.value].kind.(linkParents := RemoveFirst(lp, r) + [r]))
          && multiset(u.items[o.value].kind.linkParents) == multiset(lp))
  }

  /** The setter applied to a document, doing nothing when `r` or `t` is not of the right class. */
  function RetargetDoc(d: Doc, r: ItemId, t: Option<ItemId>): Doc {
    if IsRef(d.items, r) && (t.Some? ==> IsNode(d.items, t.value)) then d.(items := Retarget(d.items, r, t)) else d
  }

  /** Changing the target and setting the old one back restores the document, up to LinkParents order. */
  lemma RetargetBack(d: Doc, r: ItemId, t: Option<ItemId>)
    requires LinksOk(d.items) && Consistent(d.items, r) && (t.Some? ==> IsNode(d.items, t.value))
    ensures RestoredBut(RetargetDoc(RetargetDoc(d, r, t), r, d.items[r].kind.wrapped), d, r, d.items[r].kind.wrapped)
  {
    var o := d.items[r].kind.wrapped;
    var m := Retarget(d.items, r, t);
    RetargetAtRef(d.items, r, t);
    if o.Some? {
      RetargetAtNode(d.items, r, t, o.value);
    }
    var u := Retarget(m, r, o);
    forall y | y in d.items
      ensures u[y] == if Some(y) == o then d.items[y].(kind := d.items[y].kind.(linkParents := RemoveFirst(d.items[y].kind.linkParents, r) + [r]))
                      else d.items[y]
    {
      RetargetBackAt(d.items, r, t, y);
    }
    if o.Some? {
      var lp: seq<ItemId> := d.items[o.value].kind.linkParents;
      assert multiset(lp)[r] == 1;
      calc {
        multiset(RemoveFirst(lp, r) + [r]);
        multiset(RemoveFirst(lp, r)) + multiset{r};
        (multiset(lp) - multiset{r}) + multiset{r};
        multiset(lp);
      }
    }
  }

  lemma RemoveFirstLast(s: seq<ItemId>, x: ItemId)
    requires |s| > 0 && s[|s| - 1] == x && multiset(s)[x] == 1
    ensures RemoveFirst(s, x) + [x] == s
  {
    var p := s[..|s| - 1];
    assert s == p + [x];
    assert multiset(s) == multiset(p) + multiset{x};
    assert x !in p;
    RemoveFirstAppend(p, x);
  }

  /** When the reference is the last of its old target's LinkParents, the undo restores the document exactly. */
  lemma RetargetBackExact(d: Doc, r: ItemId, t: Option<ItemId>)
    requires LinksOk(d.items) && Consistent(d.items, r) && (t.Some? ==> IsNode(d.items, t.value))
    requires var o := d.items[r].kind.wrapped;
      o.Some? ==> var lp := d.items[o.value].kind.linkParents; |lp| > 0 && lp[|lp| - 1] == r
    ensures RetargetDoc(RetargetDoc(d, r, t), r, d.items[r].kind.wrapped) == d
  {
    var o := d.items[r].kind.wrapped;
    RetargetBack(d, r, t);
    if o.Some? {
      assert multiset(d.items[o.value].kind.linkParents)[r] == 1;
      RemoveFirstLast(d.items[o.value].kind.linkParents, r);
    }
    RestoredExactly(RetargetDoc(RetargetDoc(d, r, t), r, o), d, r, o);
  }

  lemma RestoredExactly(u: Doc, d: Doc, r: ItemId, o: Option<ItemId>)
    requires RestoredBut(u, d, r, o) && (o.Some? ==> IsNode(d.items, o.value))
    requires o.Some? ==>
      RemoveFirst(d.items[o.value].kind.linkParents, r) + [r] == d.items[o.value].kind.linkParents
    ensures u == d
  {
    if o.Some? && IsNode(d.items, o.value) {
      var x := d.items[o.value];
      assert x.(kind := x.kind.(linkParents := x.kind.linkParents)) == x;
    }
    assert u.items == d.items;
  }

  // ---------------------------------------------------------------------------
  // The undoable edits

  /** Clear: the target is dropped; the undo sets the previous target `prev` back. */
  function ClearAction(r: ItemId, prev: Option<ItemId>, defName: Option<string>): (a: UndoRedo.Action<Doc>)
    ensures a.desc == "Clear Item " + defName.GetOr("")
  {
    UndoRedo.Action(d => RetargetDoc(d, r, None), d => RetargetDoc(d, r, prev), "Clear Item " + defName.GetOr(""))
  }

  /** SetWrappedItem: the target becomes `item`; the undo sets `prev` back. */
  function SetItemAction(r: ItemId, prev: Option<ItemId>, item: ItemId, itemName: Option<string>): (a: UndoRedo.Action<Doc>)
    ensures a.desc == "Set Item " + itemName.GetOr("")
  {
    UndoRedo.Action(d => RetargetDoc(d, r, Some(item)), d => RetargetDoc(d, r, prev), "Set Item " + itemName.GetOr(""))
  }

  /** The do of Create: target the new node, then add it to the registry. */
  function CreatedDoc(d: Doc, r: ItemId, item: ItemId): Doc {
    var e := RetargetDoc(d, r, Some(item));
    e.(registry := e.registry + [item])
  }

  /** The undo of Create: no target, and the node leaves the registry. */
  function UncreatedDoc(d: Doc, r: ItemId, item: ItemId): Doc {
    var e := RetargetDoc(d, r, None);
    e.(registry := RemoveFirst(e.registry, item))
  }

  function CreateAction(r: ItemId, item: ItemId, itemName: Option<string>): (a: UndoRedo.Action<Doc>)
    ensures a.desc == "Create Item " + itemName.GetOr("")
  {
    UndoRedo.Action(d => CreatedDoc(d, r, item), d => UncreatedDoc(d, r, item), "Create Item " + itemName.GetOr(""))
  }

  /** Clear leaves the reference without content, keeps the link invariant, and its undo gives the document back. */
  lemma ClearUndoRestores(d: Doc, r: ItemId, defName: Option<string>)
    requires LinksOk(d.items) && Consistent(d.items, r)
    ensures var a := ClearAction(r, d.items[r].kind.wrapped, defName);
      && IsRef(a.do(d).items, r) && !HasContent(a.do(d).items, r) && LinksOk(a.do(d).items)
      && RestoredBut(a.undo(a.do(d)), d, r, d.items[r].kind.wrapped)
  {
    RetargetKeepsLinks(d.items, r, None);
    RetargetAtRef(d.items, r, None);
    RetargetBack(d, r, None);
  }

  /** SetWrappedItem targets `item` and links into it; its undo gives the document back. */
  lemma SetItemUndoRestores(d: Doc, r: ItemId, item: ItemId, itemName: Option<string>)
    requires LinksOk(d.items) && Consistent(d.items, r) && IsNode(d.items, item)
    ensures var a := SetItemAction(r, d.items[r].kind.wrapped, item, itemName);
      var e := a.do(d);
      && IsRef(e.items, r) && e.items[r].kind.wrapped == Some(item) && HasContent(e.items, r) && LinksOk(e.items)
      && IsNode(e.items, item) && r in e.items[item].kind.linkParents
      && RestoredBut(a.undo(e), d, r, d.items[r].kind.wrapped)
  {
    RetargetKeepsLinks(d.items, r, Some(item));
    RetargetAtRef(d.items, r, Some(item));
    RetargetAtNode(d.items, r, Some(item), item);
    RetargetBack(d, r, Some(item));
  }

  /** Undoing Create on an unset reference removes the node from the registry and restores the document exactly. */
  lemma CreateUndoRestores(d: Doc, r: ItemId, item: ItemId, itemName: Option<string>)
    requires LinksOk(d.items) && Consistent(d.items, r) && d.items[r].kind.wrapped.None?
    requires IsNode(d.items, item) && item !in d.registry
    ensures var a := CreateAction(r, item, itemName);
      var e := a.do(d);
      && e.registry == d.registry + [item] && IsRef(e.items, r) && e.items[r].kind.wrapped == Some(item) && LinksOk(e.items)
      && a.undo(e) == d
  {
    RetargetKeepsLinks(d.items, r, Some(item));
    RetargetAtRef(d.items, r, Some(item));
    RetargetBackExact(d, r, Some(item));
    RemoveFirstAppend(d.registry, item);
  }

  /**
   * The undo of Create sets no target rather than the previous one: a reference
   * that had a target before Create has none after the undo.
   */
  lemma CreateUndoUnsets(d: Doc, r: ItemId, item: ItemId, itemName: Option<string>)
    requires LinksOk(d.items) && IsRef(d.items, r) && d.items[r].kind.wrapped.Some? && IsNode(d.items, item)
    ensures var a := CreateAction(r, item, itemName);
      var u := a.undo(a.do(d));
      IsRef(u.items, r) && u.items[r].kind.wrapped.None?
  {
    RetargetAtRef(d.items, r, Some(item));
    var m := Retarget(d.items, r, Some(item));
    RetargetAtRef(m, r, None);
  }

  /** Clear as the editor issues it: one ApplyDoUndo of the Clear action. */
  method Clear(mgr: UndoRedo.UndoRedoManager<Doc>, r: ItemId, now: int)
    requires mgr.Valid() && IsRef(mgr.doc.items, r)
    modifies mgr
    ensures mgr.Valid()
    ensures mgr.State() == UndoRedo.Applied(old(mgr.State()), ClearAction(r, old(mgr.doc.items[r].kind.wrapped), old(mgr.doc.items[r].def.name)), now, [])
  {
    var prev := mgr.doc.items[r].kind.wrapped;
    mgr.ApplyDoUndo(ClearAction(r, prev, mgr.doc.items[r].def.name), now, []);
  }

  /** SetWrappedItem: one ApplyDoUndo that targets `item`, described by the item's name. */
  method SetWrappedItem(mgr: UndoRedo.UndoRedoManager<Doc>, r: ItemId, item: ItemId, now: int)
    requires mgr.Valid() && IsRef(mgr.doc.items, r) && item in mgr.doc.items
    modifies mgr
    ensures mgr.Valid()
    ensures mgr.State() == UndoRedo.Applied(old(mgr.State()),
              SetItemAction(r, old(mgr.doc.items[r].kind.wrapped), item, old(mgr.doc.items[item].name)), now, [])
  {
    var prev := mgr.doc.items[r].kind.wrapped;
    mgr.ApplyDoUndo(SetItemAction(r, prev, item, mgr.doc.items[item].name), now, []);
  }

  /** What the chosen definition's CreateData built: fresh items, one of them the new graph node. */
  datatype NewNode = NewNode(loaded: Items, node: ItemId)

  /**
   * Create: the node is built with undo recording disabled and joins the
   * document; then one ApplyDoUndo targets it and adds it to the registry.
   */
  method Create(mgr: UndoRedo.UndoRedoManager<Doc>, r: ItemId, created: NewNode, now: int)
    requires mgr.Valid() && IsRef(mgr.doc.items, r) && created.node in created.loaded
    requires created.loaded.Keys !! mgr.doc.items.Keys
    modifies mgr
    ensures mgr.Valid()
    ensures var s1 := UndoRedo.ScopeOpened(old(mgr.State()));
      var s2 := UndoRedo.ScopeClosed(s1.(doc := s1.doc.(items := s1.doc.items + created.loaded)));
      mgr.State() == UndoRedo.Applied(s2, CreateAction(r, created.node, created.loaded[created.node].name), now, [])
  {
    mgr.DisableUndoScope();
    ghost var s1 := mgr.State();
    mgr.doc := mgr.doc.(items := mgr.doc.items + created.loaded);
    UndoRedo.ValidLogFrame(s1, mgr.State());
    mgr.EndUndoScope();
    mgr.ApplyDoUndo(CreateAction(r, created.node, created.loaded[created.node].name), now, []);
  }

  // ---------------------------------------------------------------------------
  // LinkType

  /** The enum's ToString. */
  function LinkTypeName(l: LinkType): string {
    match l
    case Duplicate => "Duplicate"
    case Reference => "Reference"
  }

  function WithLinkType(d: Doc, r: ItemId, l: LinkType): Doc {
    if IsRef(d.items, r) then d.(items := d.items[r := d.items[r].(kind := d.items[r].kind.(linkType := l))]) else d
  }

  function LinkTypeAction(r: ItemId, from: LinkType, to: LinkType): (a: UndoRedo.Action<Doc>)
    ensures a.desc == "Change LinkType from " + LinkTypeName(from) + " to " + LinkTypeName(to)
  {
    UndoRedo.Action(d => WithLinkType(d, r, to), d => WithLinkType(d, r, from),
                    "Change LinkType from " + LinkTypeName(from) + " to " + LinkTypeName(to))
  }

  /** The change sets the new link type and nothing else; undoing it restores the document. */
  lemma LinkTypeUndoRestores(d: Doc, r: ItemId, to: LinkType)
    requires IsRef(d.items, r)
    ensures var a := LinkTypeAction(r, d.items[r].kind.linkType, to);
      && a.do(d).items.Keys == d.items.Keys && a.do(d).registry == d.registry
      && a.do(d).items[r].kind.linkType == to
      && (forall y | y in d.items && y != r :: a.do(d).items[y] == d.items[y])
      && a.undo(a.do(d)) == d
  {
    var it := d.items[r];
    assert it.(kind := it.kind.(linkType := to)).(kind := it.kind.(linkType := to).(linkType := it.kind.linkType)) == it;
  }

  /** The LinkType setter: a change only when the value differs. */
  method SetLinkType(mgr: UndoRedo.UndoRedoManager<Doc>, r: ItemId, value: LinkType, now: int)
    requires mgr.Valid() && IsRef(mgr.doc.items, r)
    modifies mgr
    ensures mgr.Valid()
    ensures old(mgr.doc.items[r].kind.linkType) == value ==> mgr.State() == old(mgr.State())
    ensures old(mgr.doc.items[r].kind.linkType) != value ==>
      mgr.State() == UndoRedo.Applied(old(mgr.State()), LinkTypeAction(r, old(mgr.doc.items[r].kind.linkType), value), now, [])
  {
    var oldType := mgr.doc.items[r].kind.linkType;
    if oldType != value {
      mgr.ApplyDoUndo(LinkTypeAction(r, oldType, value), now, []);
    }
  }

  // ---------------------------------------------------------------------------
  // GUID resolution

  predicate HasGuid(items: Items, x: ItemId, g: Option<string>) {
    IsNode(items, x) && items[x].kind.guid == g
  }

  /** GraphNodeItems.FirstOrDefault(e => e.GUID == g). */
  function FirstWithGuid(items: Items, reg: seq<ItemId>, g: Option<string>): (r: Option<ItemId>)
    ensures r.Some? ==> r.value in reg && HasGuid(items, r.value, g)
    ensures r.Some? ==> exists k | 0 <= k < |reg| :: reg[k] == r.value && forall j | 0 <= j < k :: !HasGuid(items, reg[j], g)
    ensures r.None? ==> forall k | 0 <= k < |reg| :: !HasGuid(items, reg[k], g)
  {
    if |reg| == 0 then None
    else if HasGuid(items, reg[0], g) then Some(reg[0])
    else
      var t := FirstWithGuid(items, reg[1..], g);
      if t.Some? then
        assert exists k | 0 <= k < |reg| :: reg[k] == t.value && forall j | 0 <= j < k :: !HasGuid(items, reg[j], g) by {
          var k :| 0 <= k < |reg| - 1 && reg[1..][k] == t.value && forall j | 0 <= j < k :: !HasGuid(items, reg[1..][j], g);
          assert forall j | 0 <= j < k + 1 :: !HasGuid(items, reg[j], g) by {
            forall j | 0 <= j < k + 1 ensures !HasGuid(items, reg[j], g) {
              if j > 0 { assert reg[j] == reg[1..][j - 1]; }
            }
          }
        }
        t
      else
        assert forall k | 0 <= k < |reg| :: !HasGuid(items, reg[k], g) by {
          forall k | 0 <= k < |reg| ensures !HasGuid(items, reg[k], g) {
            if k > 0 { assert reg[k] == reg[1..][k - 1]; }
          }
        }
        None
  }

  /** A node added to the registry is found by its GUID when no earlier node has it. */
  lemma {:induction false} FirstWithGuidAppend(items: Items, reg: seq<ItemId>, g: Option<string>, n: ItemId)
    requires FirstWithGuid(items, reg, g).None? && HasGuid(items, n, g)
    ensures FirstWithGuid(items, reg + [n], g) == Some(n)
  {
    if |reg| > 0 {
      assert (reg + [n])[1..] == reg[1..] + [n];
      FirstWithGuidAppend(items, reg[1..], g, n);
    }
  }

  /** The target is set to `e` and the pending GUID cleared; `w` is whether a registry handler stays subscribed. */
  function Resolved(items: Items, r: ItemId, e: ItemId, w: bool): (u: Items)
    requires IsRef(items, r) && IsNode(items, e)
    ensures u.Keys == items.Keys && IsRef(u, r)
  {
    var m := Retarget(items, r, Some(e));
    m[r := m[r].(kind := m[r].kind.(guidToResolve := None, waiting := w))]
  }

  lemma ResolvedKeepsLinks(items: Items, r: ItemId, e: ItemId, w: bool)
    requires LinksOk(items) && IsRef(items, r) && IsNode(items, e)
    ensures var u := Resolved(items, r, e, w);
      && LinksOk(u) && u[r].kind.wrapped == Some(e) && u[r].kind.guidToResolve.None? && u[r].kind.waiting == w
      && (forall y | y in items && y != r :: u[y] == Retarget(items, r, Some(e))[y])
  {
    RetargetKeepsLinks(items, r, Some(e));
    RetargetAtRef(items, r, Some(e));
    PendingKeepsLinks(Retarget(items, r, Some(e)), r, w);
  }

  /** Clearing the pending GUID or the subscription flag does not touch the links. */
  lemma PendingKeepsLinks(m: Items, r: ItemId, w: bool)
    requires LinksOk(m) && IsRef(m, r)
    ensures LinksOk(m[r := m[r].(kind := m[r].kind.(guidToResolve := None, waiting := w))])
  {
    var u := m[r := m[r].(kind := m[r].kind.(guidToResolve := None, waiting := w))];
    assert u[r].kind.wrapped == m[r].kind.wrapped;
    forall n, q | n in u && q in u && IsNode(u, n)
      ensures multiset(u[n].kind.linkParents)[q] == if IsRef(u, q) && u[q].kind.wrapped == Some(n) then 1 else 0
    {
      assert u[n] == m[n];
      assert IsRef(u, q) == IsRef(m, q);
    }
    forall q | q in u && IsRef(u, q) && u[q].kind.wrapped.Some?
      ensures IsNode(u, u[q].kind.wrapped.value)
    {
      assert u[q].kind.wrapped == m[q].kind.wrapped;
    }
  }

  /**
   * The handler for a change of Grid, when the grid is set. A pending GUID is
   * looked up in the registry: the first node with it becomes the target, or
   * a registry handler is subscribed to try again later. Otherwise a target
   * missing from the registry is swapped for a registered node with the same
   * non-blank GUID, or is added to the registry.
   */
  function GridAttached(d: Doc, r: ItemId): (e: Doc)
    requires IsRef(d.items, r) && LinksOk(d.items)
  {
    var k := d.items[r].kind;
    if k.guidToResolve.Some? then
      match FirstWithGuid(d.items, d.registry, k.guidToResolve)
      case Some(found) => d.(items := Resolved(d.items, r, found, k.waiting))
      case None => d.(items := d.items[r := d.items[r].(kind := k.(waiting := true))])
    else if k.wrapped.Some? && k.wrapped.value !in d.registry then
      var w := k.wrapped.value;
      var g := d.items[w].kind.guid;
      if !IsNullOrWhiteSpace(g) then
        match FirstWithGuid(d.items, d.registry, g)
        case Some(existing) => d.(items := Retarget(d.items, r, Some(existing)))
        case None => d.(registry := d.registry + [w])
      else d.(registry := d.registry + [w])
    else d
  }

  /** The subscribed registry handler, run when the registry changes: resolve and unsubscribe once found. */
  function RegistryChanged(d: Doc, r: ItemId): (e: Doc)
    requires IsRef(d.items, r) && LinksOk(d.items)
  {
    var k := d.items[r].kind;
    if !k.waiting then d
    else
      match FirstWithGuid(d.items, d.registry, k.guidToResolve)
      case Some(found) => d.(items := Resolved(d.items, r, found, false))
      case None => d
  }

  /** A pending GUID that a registered node carries is resolved to the first such node. */
  lemma GridAttachedResolves(d: Doc, r: ItemId, k: nat)
    requires IsRef(d.items, r) && LinksOk(d.items) && d.items[r].kind.guidToResolve.Some?
    requires k < |d.registry| && HasGuid(d.items, d.registry[k], d.items[r].kind.guidToResolve)
    ensures var e := GridAttached(d, r);
      && e.registry == d.registry && LinksOk(e.items) && IsRef(e.items, r)
      && e.items[r].kind.guidToResolve.None?
      && e.items[r].kind.wrapped == FirstWithGuid(d.items, d.registry, d.items[r].kind.guidToResolve)
      && e.items[r].kind.wrapped.Some?
      && HasGuid(d.items, e.items[r].kind.wrapped.value, d.items[r].kind.guidToResolve)
  {
    var found := FirstWithGuid(d.items, d.registry, d.items[r].kind.guidToResolve);
    ResolvedKeepsLinks(d.items, r, found.value, d.items[r].kind.waiting);
  }

  /** A pending GUID no registered node carries leaves everything as it was, with a registry handler subscribed. */
  lemma GridAttachedWaits(d: Doc, r: ItemId)
    requires IsRef(d.items, r) && LinksOk(d.items) && d.items[r].kind.guidToResolve.Some?
    requires forall k | 0 <= k < |d.registry| :: !HasGuid(d.items, d.registry[k], d.items[r].kind.guidToResolve)
    ensures var e := GridAttached(d, r);
      && e.registry == d.registry && e.items.Keys == d.items.Keys
      && e.items[r] == d.items[r].(kind := d.items[r].kind.(waiting := true))
      && forall y | y in d.items && y != r :: e.items[y] == d.items[y]
  {
  }

  /** Without a pending GUID, a reference with a target ends up targeting a registered node. */
  lemma GridAttachedRegisters(d: Doc, r: ItemId)
    requires IsRef(d.items, r) && LinksOk(d.items) && d.items[r].kind.guidToResolve.None? && d.items[r].kind.wrapped.Some?
    ensures var e := GridAttached(d, r);
      && LinksOk(e.items) && IsRef(e.items, r) && e.items[r].kind.wrapped.Some?
      && e.items[r].kind.wrapped.value in e.registry
      && (forall x | x in d.registry :: x in e.registry)
  {
    var w := d.items[r].kind.wrapped.value;
    var g := d.items[w].kind.guid;
    var e := GridAttached(d, r);
    if w !in d.registry && !IsNullOrWhiteSpace(g) {
      var existing := FirstWithGuid(d.items, d.registry, g);
      if existing.Some? {
        RetargetKeepsLinks(d.items, r, existing);
        RetargetAtRef(d.items, r, existing);
      }
    }
  }

  /** A waiting reference is resolved once a node carrying its GUID is added to the registry. */
  lemma RegistryAddResolves(d: Doc, r: ItemId, n: ItemId)
    requires IsRef(d.items, r) && LinksOk(d.items) && d.items[r].kind.waiting
    requires FirstWithGuid(d.items, d.registry, d.items[r].kind.guidToResolve).None?
    requires HasGuid(d.items, n, d.items[r].kind.guidToResolve)
    ensures var e := RegistryChanged(d.(registry := d.registry + [n]), r);
      && LinksOk(e.items) && IsRef(e.items, r)
      && e.items[r].kind.wrapped == Some(n) && e.items[r].kind.guidToResolve.None? && !e.items[r].kind.waiting
      && e.registry == d.registry + [n]
  {
    FirstWithGuidAppend(d.items, d.registry, d.items[r].kind.guidToResolve, n);
    ResolvedKeepsLinks(d.items, r, n, false);
  }

  /** The Grid handler on the live tree. */
  method OnGridChanged(t: ItemTree, r: ItemId)
    requires IsRef(t.items, r) && LinksOk(t.items)
    modifies t
    ensures t.flags == old(t.flags)
    ensures t.Document() == GridAttached(old(t.Document()), r)
  {
    var k := t.items[r].kind;
    if k.guidToResolve.Some? {
      var found := FirstWithGuid(t.items, t.registry, k.guidToResolve);
      if found.Some? {
        SetWrapped(t, r, found);
        t.items := t.items[r := t.items[r].(kind := t.items[r].kind.(guidToResolve := None))];
      } else {
        t.items := t.items[r := t.items[r].(kind := k.(waiting := true))];
      }
    } else if k.wrapped.Some? && k.wrapped.value !in t.registry {
      var w := k.wrapped.value;
      var g := t.items[w].kind.guid;
      var existing := if !IsNullOrWhiteSpace(g) then FirstWithGuid(t.items, t.registry, g) else None;
      if existing.Some? {
        SetWrapped(t, r, existing);
      } else {
        t.registry := t.registry + [w];
      }
    }
  }

  /** The registry handler on the live tree. */
  method OnRegistryChanged(t: ItemTree, r: ItemId)
    requires IsRef(t.items, r) && LinksOk(t.items)
    modifies t
    ensures t.flags == old(t.flags)
    ensures t.Document() == RegistryChanged(old(t.Document()), r)
  {
    var k := t.items[r].kind;
    if k.waiting {
      var found := FirstWithGuid(t.items, t.registry, k.guidToResolve);
      if found.Some? {
        SetWrapped(t, r, found);
        t.items := t.items[r := t.items[r].(kind := t.items[r].kind.(guidToResolve := None, waiting := false))];
      }
    }
  }

  // ---------------------------------------------------------------------------
  // Walking up the parents

  /** The chain of parents from `c` ends within `n` steps: the tree has no cycle above `c`. */
  predicate Rooted(items: Items, c: Option<ItemId>, n: nat)
    decreases n
  {
    c.None? || (c.value in items && n > 0 && Rooted(items, items[c.value].parent, n - 1))
  }

  /** `c` and its ancestors, nearest first. */
  function Ancestry(items: Items, c: Option<ItemId>, n: nat): (r: seq<ItemId>)
    requires Rooted(items, c, n)
    ensures forall k | 0 <= k < |r| :: r[k] in items
    decreases n
  {
    if c.None? then [] else [c.value] + Ancestry(items, items[c.value].parent, n - 1)
  }

  /** The first graph node met walking up from `c`. */
  function ParentNode(items: Items, c: Option<ItemId>, n: nat): (r: Option<ItemId>)
    requires Rooted(items, c, n)
    decreases n
  {
    if c.None? then None
    else if IsNode(items, c.value) then c
    else ParentNode(items, items[c.value].parent, n - 1)
  }

  /** ParentNode gives the nearest graph node among the ancestors, and none when there is none. */
  lemma {:induction false} ParentNodeNearest(items: Items, c: Option<ItemId>, n: nat)
    requires Rooted(items, c, n)
    ensures var a := Ancestry(items, c, n); var r := ParentNode(items, c, n);
      && (r.None? <==> forall k | 0 <= k < |a| :: !IsNode(items, a[k]))
      && (r.Some? ==> exists k | 0 <= k < |a| :: a[k] == r.value && IsNode(items, r.value) && forall j | 0 <= j < k :: !IsNode(items, a[j]))
    decreases n
  {
    if c.Some? && !IsNode(items, c.value) {
      var p := items[c.value].parent;
      ParentNodeNearest(items, p, n - 1);
      var a := Ancestry(items, c, n);
      var t := Ancestry(items, p, n - 1);
      assert a == [c.value] + t;
      assert forall k | 1 <= k < |a| :: a[k] == t[k - 1];
      var r := ParentNode(items, c, n);
      if r.Some? {
        var k :| 0 <= k < |t| && t[k] == r.value && forall j | 0 <= j < k :: !IsNode(items, t[j]);
        assert a[k + 1] == r.value;
        assert forall j | 0 <= j < k + 1 :: !IsNode(items, a[j]);
      }
    } else if c.Some? {
      var a := Ancestry(items, c, n);
      assert a[0] == c.value;
    }
  }

  /** GetParentNode: walks up from the reference's parent to the first graph node. */
  method GetParentNode(items: Items, r: ItemId, ghost n: nat) returns (node: Option<ItemId>)
    requires r in items && Rooted(items, items[r].parent, n)
    ensures node == ParentNode(items, items[r].parent, n)
  {
    var current := items[r].parent;
    ghost var k := n;
    while current.Some? && !IsNode(items, current.value)
      invariant Rooted(items, current, k)
      invariant ParentNode(items, current, k) == ParentNode(items, items[r].parent, n)
      decreases k
    {
      current := items[current.value].parent;
      k := k - 1;
    }
    node := current;
  }

  /** The wrapper classes GetParentPath skips over without naming them. */
  predicate Unnamed(k: Kind) {
    k.CollectionChildItem? || k.ReferenceItem?
  }

  /**
   * The definition names GetParentPath collects walking up from `c`, nearest
   * first: it stops at a graph node or a graph reference, and skips collection
   * children and references.
   */
  function PathNames(items: Items, c: Option<ItemId>, n: nat): (r: seq<string>)
    requires Rooted(items, c, n)
    decreases n
  {
    if c.None? || IsNode(items, c.value) || IsRef(items, c.value) then []
    else
      var it := items[c.value];
      (if Unnamed(it.kind) then [] else [it.def.name.GetOr("")]) + PathNames(items, it.parent, n - 1)
  }

  lemma {:induction false} PathNamesDotFree(items: Items, c: Option<ItemId>, n: nat)
    requires Rooted(items, c, n)
    requires forall y | y in items :: !Contains(items[y].def.name.GetOr(""), ".")
    ensures forall k | 0 <= k < |PathNames(items, c, n)| :: !Contains(PathNames(items, c, n)[k], ".")
    decreases n
  {
    if c.Some? && !IsNode(items, c.value) && !IsRef(items, c.value) {
      PathNamesDotFree(items, items[c.value].parent, n - 1);
    }
  }

  /** GetParentPath: the collected names, outermost first, joined with dots; the item's own definition name comes last. */
  method GetParentPath(items: Items, r: ItemId, ghost n: nat) returns (path: string)
    requires r in items && Rooted(items, items[r].parent, n)
    ensures path == Join(".", UndoRedo.Reversed([items[r].def.name.GetOr("")] + PathNames(items, items[r].parent, n)))
  {
    var nodes := [items[r].def.name.GetOr("")];
    var current := items[r].parent;
    ghost var k := n;
    ghost var all := nodes + PathNames(items, current, k);
    while current.Some? && !IsNode(items, current.value) && !IsRef(items, current.value)
      invariant Rooted(items, current, k)
      invariant nodes + PathNames(items, current, k) == all
      decreases k
    {
      var it := items[current.value];
      ghost var rest := PathNames(items, it.parent, k - 1);
      if !Unnamed(it.kind) {
        assert PathNames(items, current, k) == [it.def.name.GetOr("")] + rest;
        assert nodes + ([it.def.name.GetOr("")] + rest) == (nodes + [it.def.name.GetOr("")]) + rest;
        nodes := nodes + [it.def.name.GetOr("")];
      } else {
        assert PathNames(items, current, k) == [] + rest;
      }
      current := it.parent;
      k := k - 1;
    }
    assert nodes + [] == nodes;
    path := Join(".", UndoRedo.Reversed(nodes));
  }

  /**
   * When no definition name on the way contains a dot, splitting the path at
   * the dots gives the names back, outermost first, with the item's own
   * definition name as the last piece.
   */
  lemma ParentPathSplits(items: Items, r: ItemId, n: nat)
    requires r in items && Rooted(items, items[r].parent, n)
    requires forall y | y in items :: !Contains(items[y].def.name.GetOr(""), ".")
    ensures var names := [items[r].def.name.GetOr("")] + PathNames(items, items[r].parent, n);
      var pieces := SplitOn(Join(".", UndoRedo.Reversed(names)), ".");
      && pieces == UndoRedo.Reversed(names)
      && pieces[|pieces| - 1] == items[r].def.name.GetOr("")
  {
    var names := [items[r].def.name.GetOr("")] + PathNames(items, items[r].parent, n);
    var rev := UndoRedo.Reversed(names);
    UndoRedo.ReversedIndex(names, |names| - 1);
    PathNamesDotFree(items, items[r].parent, n);
    forall k | 0 <= k < |rev|
      ensures !Contains(rev[k], ".")
    {
      UndoRedo.ReversedIndex(names, k);
      var j := |names| - 1 - k;
      if j > 0 {
        assert names[j] == PathNames(items, items[r].parent, n)[j - 1];
      }
    }
    SplitJoin(rev, ".");
  }
}
