/**
 * CollectionChildItem: the element wrapper a collection holds for each entry.
 * Its Name is "[i] " followed by the wrapped item's name, it shares the wrapped
 * item's children, and it finds the collection it belongs to through its parent.
 */
module CollectionChildren {
  import opened Wrappers
  import opened Text
  import opened DataItems

  /** List.IndexOf: the first position of `x`, or -1. */
  function IndexOfItem(cs: seq<ItemId>, x: ItemId): (r: int)
    ensures -1 <= r < |cs|
    ensures r == -1 <==> x !in cs
    ensures r >= 0 ==> cs[r] == x && forall j | 0 <= j < r :: cs[j] != x
  {
    if |cs| == 0 then -1
    else if cs[0] == x then 0
    else var k := IndexOfItem(cs[1..], x); if k == -1 then -1 else k + 1
  }

  /** The links a collection child's name is computed from lead to existing items. */
  predicate LinksPresent(items: Items, x: ItemId) {
    && x in items
    && (items[x].parent.Some? ==> items[x].parent.value in items)
    && (items[x].kind.CollectionChildItem? && items[x].kind.wrapped.Some? ==> items[x].kind.wrapped.value in items)
  }

  /** The wrapped item of a collection child, if it has one. */
  function Wrapped(items: Items, x: ItemId): Option<ItemId>
    requires x in items
  {
    if items[x].kind.CollectionChildItem? then items[x].kind.wrapped else None
  }

  /**
   * The Name the setter and the property handlers compute: "[" + the position in
   * the parent's children + "] " when there is a parent, then the wrapped item's name.
   */
  function ChildName(items: Items, x: ItemId): string
    requires LinksPresent(items, x)
  {
    var it := items[x];
    var prefix := if it.parent.Some? then "[" + IntToString(IndexOfItem(items[it.parent.value].children, x)) + "] " else "";
    var w := Wrapped(items, x);
    prefix + (if w.Some? then items[w.value].name.GetOr("") else "")
  }

  /** Reads the position back from a name: the number between a leading '[' and the first ']'. */
  function PositionInName(n: string): Option<int> {
    if |n| > 0 && n[0] == '[' then
      match IndexOf(n, "]")
      case None => None
      case Some(j) => if j >= 1 then ParseInt(n[1..j]) else None
    else None
  }

  lemma IntToStringNoBracket(i: int)
    ensures forall k | 0 <= k < |IntToString(i)| :: IntToString(i)[k] != ']' && IntToString(i)[k] != '['
  {
    var d := NatToString(if i < 0 then -i else i);
    assert AllDigits(d);
  }

  /** The name of a child with a parent gives back its position in the parent's children. */
  lemma NameRoundTrip(items: Items, x: ItemId)
    requires LinksPresent(items, x) && items[x].parent.Some?
    ensures PositionInName(ChildName(items, x)) == Some(IndexOfItem(items[items[x].parent.value].children, x))
  {
    var i := IndexOfItem(items[items[x].parent.value].children, x);
    var w := Wrapped(items, x);
    var rest := if w.Some? then items[w.value].name.GetOr("") else "";
    assert ChildName(items, x) == "[" + IntToString(i) + "] " + rest;
    PositionOfBracketed(i, rest);
  }

  lemma PositionOfBracketed(i: int, rest: string)
    ensures PositionInName("[" + IntToString(i) + "] " + rest) == Some(i)
  {
    var digits := IntToString(i);
    var n := "[" + digits + "] " + rest;
    IntToStringNoBracket(i);
    FirstCloseBracket(digits, rest);
    var j := |digits| + 1;
    assert n[1..j] == digits;
    ParseIntToString(i);
  }

  /** In "[" + d + "] " + rest, with no ']' in d, the first ']' is the one after d. */
  lemma FirstCloseBracket(d: string, rest: string)
    requires forall k | 0 <= k < |d| :: d[k] != ']'
    ensures IndexOf("[" + d + "] " + rest, "]") == Some(|d| + 1)
  {
    var n := "[" + d + "] " + rest;
    var j := |d| + 1;
    assert OccursAt(n, "]", j) by {
      assert n[j] == ']';
      assert n[j..j + 1] == "]";
    }
    forall m | 0 <= m < j
      ensures !OccursAt(n, "]", m)
    {
      assert n[m..m + 1][0] == n[m];
      if m > 0 {
        assert n[m] == d[m - 1];
      }
    }
  }

  /** Once the parent's children are re-indexed, the name shows the child's index. */
  lemma NameShowsIndex(items: Items, x: ItemId, k: nat)
    requires LinksPresent(items, x) && items[x].parent.Some?
    requires var cs := items[items[x].parent.value].children; Distinct(cs) && k < |cs| && cs[k] == x
    ensures PositionInName(ChildName(items, x)) == Some(k)
  {
    var cs := items[items[x].parent.value].children;
    var i := IndexOfItem(cs, x);
    assert i >= 0 && cs[i] == x;
    assert i == k;
    NameRoundTrip(items, x);
  }

  /** Without a parent the name is just the wrapped item's name. */
  lemma NameWithoutParent(items: Items, x: ItemId)
    requires LinksPresent(items, x) && items[x].parent.None? && Wrapped(items, x).Some?
    ensures ChildName(items, x) == items[Wrapped(items, x).value].name.GetOr("")
  {
  }

  // ---------------------------------------------------------------------------
  // The WrappedItem setter

  /**
   * The WrappedItem setter, step by step: the wrapped item gets this item as
   * Parent, this item takes the wrapped item's children, the Name is recomputed,
   * and ToolTip and TextColour are copied. Clearing it only recomputes the name.
   */
  function WrappedSet(items: Items, x: ItemId, w: Option<ItemId>): (r: Items)
    requires x in items && items[x].kind.CollectionChildItem?
    requires items[x].parent.Some? ==> items[x].parent.value in items
    requires w.Some? ==> w.value in items
    ensures r.Keys == items.Keys
  {
    var s1 := if w.Some? then items[w.value := items[w.value].(parent := Some(x))] else items;
    var kids := if w.Some? then s1[w.value].children else s1[x].children;
    var s2 := s1[x := s1[x].(kind := CollectionChildItem(w), children := kids)];
    var n := ChildName(s2, x);
    if w.Some? then
      s2[x := s2[x].(name := Some(n), toolTip := s2[w.value].toolTip, textColour := s2[w.value].textColour)]
    else s2[x := s2[x].(name := Some(n))]
  }

  /**
   * After setting a wrapped item other than itself: it has this item as parent,
   * this item wraps it and shows its children, tooltip and colour, the name
   * gives back the position in the parent, and no other item changed.
   */
  lemma WrappedSetEffects(items: Items, x: ItemId, w: ItemId)
    requires x in items && items[x].kind.CollectionChildItem? && w in items && w != x
    requires items[x].parent.Some? ==> items[x].parent.value in items
    ensures var r := WrappedSet(items, x, Some(w));
      && r[w] == items[w].(parent := Some(x))
      && r[x].kind == CollectionChildItem(Some(w))
      && r[x].children == items[w].children
      && r[x].toolTip == items[w].toolTip && r[x].textColour == items[w].textColour
      && r[x].parent == items[x].parent
      && LinksPresent(r, x) && r[x].name == Some(ChildName(r, x))
      && (forall y | y in items && y != x && y != w :: r[y] == items[y])
  {
  }

  /** The name a set wrapped item ends with: its own name after the position prefix. */
  lemma WrappedSetName(items: Items, x: ItemId, w: ItemId)
    requires x in items && items[x].kind.CollectionChildItem? && w in items && w != x && items[x].parent.None?
    ensures WrappedSet(items, x, Some(w))[x].name == Some(items[w].name.GetOr(""))
  {
    var s1 := items[w := items[w].(parent := Some(x))];
    var s2 := s1[x := s1[x].(kind := CollectionChildItem(Some(w)), children := s1[w].children)];
    assert s2[x].parent.None? && Wrapped(s2, x) == Some(w) && s2[w].name == items[w].name;
    var own := items[w].name.GetOr("");
    assert "" + own == own;
    assert ChildName(s2, x) == own;
    assert WrappedSet(items, x, Some(w)) == s2[x := s2[x].(name := Some(own), toolTip := s2[w].toolTip, textColour := s2[w].textColour)];
  }

  /** The setter as the class runs it, on the live tree. */
  method SetWrappedItem(t: ItemTree, x: ItemId, w: Option<ItemId>)
    requires x in t.items && t.items[x].kind.CollectionChildItem?
    requires t.items[x].parent.Some? ==> t.items[x].parent.value in t.items
    requires w.Some? ==> w.value in t.items
    modifies t
    ensures t.flags == old(t.flags) && t.registry == old(t.registry)
    ensures t.items == WrappedSet(old(t.items), x, w)
  {
    if w.Some? {
      t.items := t.items[w.value := t.items[w.value].(parent := Some(x))];
      t.items := t.items[x := t.items[x].(kind := CollectionChildItem(w), children := t.items[w.value].children)];
    } else {
      t.items := t.items[x := t.items[x].(kind := CollectionChildItem(w))];
    }
    var n := ChildName(t.items, x);
    t.items := t.items[x := t.items[x].(name := Some(n))];
    if w.Some? {
      var wi := t.items[w.value];
      t.items := t.items[x := t.items[x].(toolTip := wi.toolTip, textColour := wi.textColour)];
    }
  }

  /** The wrapped item's properties a collection child listens to. */
  datatype WrappedProperty = NameChanged | ToolTipChanged | TextColourChanged | DescriptionChanged

  /**
   * OnPropertyChanged for Parent or Index and WrappedItemPropertyChanged for
   * Name: the name is recomputed. The wrapped item's ToolTip and TextColour are
   * copied when they change; a Description change is only passed on.
   */
  function Refreshed(items: Items, x: ItemId, p: WrappedProperty): (r: Items)
    requires LinksPresent(items, x)
    requires p == ToolTipChanged || p == TextColourChanged ==> Wrapped(items, x).Some?
    ensures r.Keys == items.Keys
    ensures forall y | y in items && y != x :: r[y] == items[y]
  {
    match p
    case NameChanged => items[x := items[x].(name := Some(ChildName(items, x)))]
    case ToolTipChanged => items[x := items[x].(toolTip := items[Wrapped(items, x).value].toolTip)]
    case TextColourChanged => items[x := items[x].(textColour := items[Wrapped(items, x).value].textColour)]
    case DescriptionChanged => items
  }

  /** Recomputing the name twice is recomputing it once: it depends only on the links. */
  lemma RefreshIdempotent(items: Items, x: ItemId, p: WrappedProperty)
    requires LinksPresent(items, x) && Wrapped(items, x) != Some(x)
    requires p == ToolTipChanged || p == TextColourChanged ==> Wrapped(items, x).Some?
    ensures var r := Refreshed(items, x, p); LinksPresent(r, x) && Refreshed(r, x, p) == r
  {
    var r := Refreshed(items, x, p);
    if p == NameChanged {
      assert ChildName(r, x) == ChildName(items, x) by {
        var it := items[x];
        if it.parent.Some? {
          assert it.parent.value != x ==> r[it.parent.value] == items[it.parent.value];
          assert r[it.parent.value].children == items[it.parent.value].children;
        }
        var w := Wrapped(items, x);
        if w.Some? {
          assert r[w.value].name == items[w.value].name;
        }
      }
    }
  }

  // ---------------------------------------------------------------------------
  // ParentCollection, CanRemove, the insertion point of AddNew and Duplicate

  /** `y` as a CollectionItem, or null. */
  function AsCollection(items: Items, y: Option<ItemId>): (r: Option<ItemId>)
    ensures r.Some? ==> r == y && y.value in items && items[y.value].kind.CollectionItem?
  {
    if y.Some? && y.value in items && items[y.value].kind.CollectionItem? then y else None
  }

  /** The item a ReferenceItem wraps. */
  function RefWrapped(items: Items, y: ItemId): Option<ItemId>
    requires y in items && items[y].kind.ReferenceItem?
  {
    items[y].kind.wrapped
  }

  /**
   * ParentCollection: a collection parent; else, for a collection-child parent,
   * the collection it wraps or the collection its wrapped reference wraps;
   * else, for a reference parent, the collection it wraps; else null.
   */
  function ParentCollection(items: Items, x: ItemId): (r: Option<ItemId>)
    requires x in items
    ensures r.Some? ==> r.value in items && items[r.value].kind.CollectionItem?
  {
    var p := items[x].parent;
    if p.None? || p.value !in items then None
    else
      var pk := items[p.value].kind;
      if pk.CollectionItem? then p
      else if pk.CollectionChildItem? then
        var w := pk.wrapped;
        if w.Some? && w.value in items && items[w.value].kind.CollectionItem? then w
        else if w.Some? && w.value in items && items[w.value].kind.ReferenceItem? then AsCollection(items, RefWrapped(items, w.value))
        else None
      else if pk.ReferenceItem? then AsCollection(items, pk.wrapped)
      else None
  }

  /** The collection found is the parent, or one or two wrapper hops below it. */
  lemma ParentCollectionNear(items: Items, x: ItemId)
    requires x in items
    ensures var r := ParentCollection(items, x); var p := items[x].parent;
      r.Some? ==> (p.Some? && p.value in items &&
        (r == p
         || ((items[p.value].kind.CollectionChildItem? || items[p.value].kind.ReferenceItem?) && r == items[p.value].kind.wrapped)
         || (items[p.value].kind.CollectionChildItem? && items[p.value].kind.wrapped.Some?
             && items[p.value].kind.wrapped.value in items
             && items[items[p.value].kind.wrapped.value].kind.ReferenceItem?
             && r == items[items[p.value].kind.wrapped.value].kind.wrapped)))
  {
  }

  /** A direct collection parent is always the one found. */
  lemma ParentCollectionDirect(items: Items, x: ItemId)
    requires x in items && items[x].parent.Some? && items[x].parent.value in items
    requires items[items[x].parent.value].kind.CollectionItem?
    ensures ParentCollection(items, x) == items[x].parent
  {
  }

  /** A null ParentCollection dereferenced. */
  datatype NullReference = NullReference

  /** CanRemove: the parent collection is not at its minimum count; no parent collection throws. */
  function CanRemove(items: Items, x: ItemId): (r: Result<bool, NullReference>)
    requires x in items
    ensures r.Failure? <==> ParentCollection(items, x).None?
    ensures r.Success? ==> (r.value <==> !items[ParentCollection(items, x).value].kind.isAtMin)
  {
    match ParentCollection(items, x)
    case None => Failure(NullReference)
    case Some(c) => Success(!items[c].kind.isAtMin)
  }

  /** Where AddNew and Duplicate insert the new child: one past this item in the collection. */
  function InsertPosition(items: Items, x: ItemId): (r: Result<int, NullReference>)
    requires x in items
    ensures r.Failure? <==> ParentCollection(items, x).None?
    ensures r.Success? ==> 0 <= r.value <= |items[ParentCollection(items, x).value].children|
  {
    match ParentCollection(items, x)
    case None => Failure(NullReference)
    case Some(c) => Success(IndexOfItem(items[c].children, x) + 1)
  }

  /** Collection.Insert(index, child) on the list of children. */
  function Inserted(cs: seq<ItemId>, i: nat, c: ItemId): (r: seq<ItemId>)
    requires i <= |cs|
    ensures |r| == |cs| + 1 && r[i] == c
    ensures forall k | 0 <= k < i :: r[k] == cs[k]
    ensures forall k | i < k < |r| :: r[k] == cs[k - 1]
  {
    cs[..i] + [c] + cs[i..]
  }

  /**
   * The new child lands right after the item it was created from; an item the
   * collection does not list sends it to the front.
   */
  lemma NewChildFollows(items: Items, x: ItemId, c: ItemId)
    requires x in items && ParentCollection(items, x).Some?
    ensures var cs := items[ParentCollection(items, x).value].children;
      var i := InsertPosition(items, x).value;
      var r := Inserted(cs, i, c);
      && (x in cs ==> i >= 1 && r[i - 1] == x && r[i] == c)
      && (x !in cs ==> i == 0 && r == [c] + cs)
  {
  }
}
