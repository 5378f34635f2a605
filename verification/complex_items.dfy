/**
 * ComplexDataItem: HasContent, the Description summary with its 500-character
 * cap, ResetToDefault over the children, and the undoable Clear and Paste.
 *
 * Description reads each child's own Description, TextColour and visibility;
 * those are computed by the child's class and arrive here as a view.
 */
module ComplexItems {
  import opened Wrappers
  import opened Text
  import opened DataItems
  import opened Visibility
  import UndoRedo

  /** ComplexDataItem.HasContent: some child or some attribute. */
  predicate HasContent(items: Items, x: ItemId)
    requires x in items
  {
    |items[x].children| > 0 || |items[x].attributes| != 0
  }

  // ---------------------------------------------------------------------------
  // Description

  /**
   * What Description reads of a child: its definition's name, its colour, its
   * own Description, and IsVisibleFromBindings. The child's Description throws
   * when it is a complex item whose own summary evaluates a binding that
   * throws, so both it and the visibility either give a value or throw.
   */
  datatype ChildView = ChildView(defName: Option<string>, textColour: Option<string>,
                                 description: Result<Option<string>, VisError>, visible: Result<bool, VisError>)

  /** What Description reads of an attribute, with the two strings its definition writes for it. */
  datatype AttrView = AttrView(name: Option<string>, description: Option<string>, skipIfDefault: bool,
                               written: Option<string>, defaultString: Option<string>)

  /**
   * The item as Description sees it: EmptyString of its class, the
   * DescriptionChild of a struct definition (None for other definitions or
   * when unset), the children and the attributes.
   */
  datatype ComplexView = ComplexView(emptyString: Option<string>, descriptionChild: Option<string>,
                                     children: seq<ChildView>, attributes: seq<AttrView>)

  /** The longest the children summary may grow before it is cut. */
  const DescriptionCap := 500

  /** "<" + colour + ">" + description + "</>"; a null string concatenates as "". */
  function Piece(colour: Option<string>, description: Option<string>): (r: string)
    ensures |r| >= 5
  {
    "<" + colour.GetOr("") + ">" + description.GetOr("") + "</>"
  }

  /** IsVisibleFromBindings evaluates to true. */
  predicate Shows(c: ChildView) {
    c.visible == Success(true)
  }

  /**
   * The loop throws at this child: its IsVisibleFromBindings throws, or it is
   * shown and its own Description throws.
   */
  predicate Throws(c: ChildView) {
    c.visible.Failure? || (Shows(c) && c.description.Failure?)
  }

  /** The exception the loop gets from a child that throws. */
  function Thrown(c: ChildView): VisError
    requires Throws(c)
  {
    if c.visible.Failure? then c.visible.error else c.description.error
  }

  /** The pieces of the children shown with a description, in order. */
  function VisiblePieces(cs: seq<ChildView>): (r: seq<string>)
    ensures |r| <= |cs|
    ensures forall k | 0 <= k < |r| :: |r[k]| >= 5
    ensures (forall k | 0 <= k < |cs| :: !Shows(cs[k])) ==> r == []
  {
    if |cs| == 0 then []
    else
      var c := cs[0];
      (if Shows(c) && c.description.Success? then [Piece(c.textColour, c.description.value)] else []) + VisiblePieces(cs[1..])
  }

  /** The first child at which the loop throws, or |cs| when none throws. */
  function FirstFailing(cs: seq<ChildView>): (j: nat)
    ensures j <= |cs|
    ensures j < |cs| ==> Throws(cs[j])
    ensures forall i | 0 <= i < j :: !Throws(cs[i])
  {
    if |cs| == 0 then 0
    else if Throws(cs[0]) then 0
    else 1 + FirstFailing(cs[1..])
  }

  /** One step of the builder: ", " first unless it is still empty, then the piece. */
  function Append(acc: string, p: string): string {
    (if |acc| > 0 then acc + ", " else acc) + p
  }

  /**
   * The StringBuilder loop from `acc` on: append each piece; as soon as the
   * text is longer than the cap, add "..." unless it already ends with it, and stop.
   */
  function Capped(acc: string, ps: seq<string>): string
    decreases |ps|
  {
    if |ps| == 0 then acc
    else
      var b := Append(acc, ps[0]);
      if |b| > DescriptionCap then (if EndsWith(b, "...") then b else b + "...")
      else Capped(b, ps[1..])
  }

  /** The first number of pieces whose join is longer than the cap, if there is one. */
  function CutPoint(ps: seq<string>): (k: nat)
    ensures k <= |ps|
    ensures k < |ps| ==> |Join(", ", ps[..k + 1])| > DescriptionCap
    ensures forall j | 0 < j <= k :: |Join(", ", ps[..j])| <= DescriptionCap
  {
    CutPointFrom(ps, 0)
  }

  function CutPointFrom(ps: seq<string>, i: nat): (k: nat)
    requires i <= |ps|
    requires forall j | 0 < j <= i :: |Join(", ", ps[..j])| <= DescriptionCap
    ensures i <= k <= |ps|
    ensures k < |ps| ==> |Join(", ", ps[..k + 1])| > DescriptionCap
    ensures forall j | 0 < j <= k :: |Join(", ", ps[..j])| <= DescriptionCap
    decreases |ps| - i
  {
    if i == |ps| || |Join(", ", ps[..i + 1])| > DescriptionCap then i
    else CutPointFrom(ps, i + 1)
  }

  /** Joining one more piece onto a non-empty list adds the separator and the piece. */
  lemma {:induction false} JoinSnoc(sep: string, ps: seq<string>, p: string)
    ensures Join(sep, ps + [p]) == if |ps| == 0 then p else Join(sep, ps) + sep + p
    decreases |ps|
  {
    if |ps| == 1 {
      assert (ps + [p])[1..] == [p];
    } else if |ps| > 1 {
      assert (ps + [p])[1..] == ps[1..] + [p];
      JoinSnoc(sep, ps[1..], p);
    }
  }

  /** The builder text after `i` pieces is their join. */
  lemma AppendJoins(ps: seq<string>, i: nat)
    requires i < |ps| && forall k | 0 <= k < |ps| :: |ps[k]| > 0
    ensures Append(Join(", ", ps[..i]), ps[i]) == Join(", ", ps[..i + 1])
  {
    assert ps[..i + 1] == ps[..i] + [ps[i]];
    JoinSnoc(", ", ps[..i], ps[i]);
    if i > 0 {
      assert |Join(", ", ps[..i])| >= |ps[0]| by {
        JoinHead(ps[..i]);
      }
    }
  }

  lemma JoinHead(ps: seq<string>)
    requires |ps| > 0
    ensures |Join(", ", ps)| >= |ps[0]|
  {
  }

  /**
   * Running the builder over the pieces left after `i`, from the join of the
   * first `i`, gives the join of the first CutPoint + 1 pieces, followed by
   * "..." unless it already ends so; or the whole join when no prefix passes the cap.
   */
  lemma {:induction false} CappedFrom(ps: seq<string>, i: nat)
    requires i <= CutPoint(ps) && forall k | 0 <= k < |ps| :: |ps[k]| > 0
    ensures var k := CutPoint(ps);
      Capped(Join(", ", ps[..i]), ps[i..]) ==
        if k == |ps| then Join(", ", ps)
        else var j := Join(", ", ps[..k + 1]); if EndsWith(j, "...") then j else j + "..."
    decreases |ps| - i
  {
    var k := CutPoint(ps);
    if i == |ps| {
      assert ps[..i] == ps;
    } else {
      AppendJoins(ps, i);
      assert ps[i..][0] == ps[i] && ps[i..][1..] == ps[i + 1..];
      if i < k {
        CappedFrom(ps, i + 1);
      }
    }
  }

  /**
   * The summary of the visible children: their pieces joined with ", " when
   * that stays within 500 characters; otherwise the join of the pieces up to
   * the first one that passes 500, ending in "...".
   */
  lemma DescriptionCapLemma(ps: seq<string>)
    requires forall k | 0 <= k < |ps| :: |ps[k]| > 0
    ensures var r := Capped("", ps); var k := CutPoint(ps);
      && (k == |ps| ==> r == Join(", ", ps))
      && (k < |ps| ==>
            EndsWith(r, "...") && |r| > DescriptionCap
            && StartsWith(r, Join(", ", ps[..k + 1]))
            && |r| <= |Join(", ", ps[..k + 1])| + 3)
  {
    CappedFrom(ps, 0);
    assert ps[..0] == [] && ps[0..] == ps;
  }

  /** Within the cap nothing is cut: a short summary is exactly the joined pieces. */
  lemma ShortDescriptionUncut(ps: seq<string>)
    requires forall k | 0 <= k < |ps| :: |ps[k]| > 0
    requires |Join(", ", ps)| <= DescriptionCap
    ensures Capped("", ps) == Join(", ", ps)
  {
    DescriptionCapLemma(ps);
    var k := CutPoint(ps);
    if k < |ps| {
      JoinPrefixShorter(ps, k + 1);
    }
  }

  /** A prefix of the pieces joins to no more characters than all of them. */
  lemma {:induction false} JoinPrefixShorter(ps: seq<string>, j: nat)
    requires j <= |ps|
    ensures |Join(", ", ps[..j])| <= |Join(", ", ps)|
    decreases |ps| - j
  {
    if j < |ps| {
      JoinPrefixShorter(ps, j + 1);
      assert ps[..j + 1] == ps[..j] + [ps[j]];
      JoinSnoc(", ", ps[..j], ps[j]);
    } else {
      assert ps[..j] == ps;
    }
  }

  /** The attribute filter: named "Name", or not skip-if-default, or written differently from its default. */
  predicate Shown(a: AttrView) {
    a.name == Some("Name") || !a.skipIfDefault || a.written != a.defaultString
  }

  function AttrPiece(a: AttrView): string {
    "<200,180,200>" + a.name.GetOr("") + "=</>" + a.description.GetOr("")
  }

  /** The pieces of the shown attributes, in order. */
  function ShownPieces(attrs: seq<AttrView>): (r: seq<string>)
    ensures |r| <= |attrs|
    ensures forall a | a in attrs :: Shown(a) ==> AttrPiece(a) in r
    ensures forall p | p in r :: exists a | a in attrs :: Shown(a) && p == AttrPiece(a)
  {
    if |attrs| == 0 then []
    else
      var rest := ShownPieces(attrs[1..]);
      assert forall a | a in attrs :: a == attrs[0] || a in attrs[1..];
      (if Shown(attrs[0]) then [AttrPiece(attrs[0])] else []) + rest
  }

  /** Children.FirstOrDefault(e => e.Definition.Name == name). */
  function FirstNamed(cs: seq<ChildView>, name: string): (r: Option<nat>)
    ensures r.Some? ==> r.value < |cs| && cs[r.value].defName == Some(name)
    ensures r.Some? ==> forall j | 0 <= j < r.value :: cs[j].defName != Some(name)
    ensures r.None? ==> forall j | 0 <= j < |cs| :: cs[j].defName != Some(name)
  {
    if |cs| == 0 then None
    else if cs[0].defName == Some(name) then Some(0)
    else match FirstNamed(cs[1..], name)
      case None => None
      case Some(k) => Some(k + 1)
  }

  /**
   * Whether the builder, starting from `acc`, grows past the cap somewhere
   * within the pieces `ps` (and so breaks off before the children after them).
   */
  predicate Cuts(acc: string, ps: seq<string>)
    decreases |ps|
  {
    |ps| > 0 && (|Append(acc, ps[0])| > DescriptionCap || Cuts(Append(acc, ps[0]), ps[1..]))
  }

  /**
   * The foreach of Description from `acc` on. `Children.Where` is lazy, so
   * each child's IsVisibleFromBindings is evaluated only when the loop gets
   * to it, and a shown child's own Description right after: their exceptions
   * escape, but children after the break are never evaluated.
   */
  function Summary(acc: string, cs: seq<ChildView>): (r: Result<string, VisError>)
    ensures r.Failure? ==> exists k | 0 <= k < |cs| :: Throws(cs[k]) && Thrown(cs[k]) == r.error
    ensures (forall k | 0 <= k < |cs| :: !Throws(cs[k])) ==> r.Success?
    decreases |cs|
  {
    if |cs| == 0 then Success(acc)
    else
      match cs[0].visible
      case Failure(e) => Failure(e)
      case Success(shown) =>
        if !shown then Summary(acc, cs[1..])
        else
          match cs[0].description
          case Failure(e) => Failure(e)
          case Success(d) =>
            var b := Append(acc, Piece(cs[0].textColour, d));
            if |b| > DescriptionCap then Success(if EndsWith(b, "...") then b else b + "...")
            else Summary(b, cs[1..])
  }

  /**
   * The loop in closed form: with `j` the first child at which it throws, it
   * throws that child's exception unless the builder passes the cap on the
   * visible children before `j`; otherwise it is the capped join of those children.
   */
  lemma {:induction false} SummaryShape(acc: string, cs: seq<ChildView>)
    ensures var j := FirstFailing(cs); var ps := VisiblePieces(cs[..j]);
      Summary(acc, cs) == if j < |cs| && !Cuts(acc, ps) then Failure(Thrown(cs[j])) else Success(Capped(acc, ps))
    decreases |cs|
  {
    if |cs| == 0 || Throws(cs[0]) {
      assert cs[..0] == [];
    } else {
      var t := cs[1..];
      HeadPieces(cs);
      var ps' := VisiblePieces(t[..FirstFailing(t)]);
      if Shows(cs[0]) {
        var p := Piece(cs[0].textColour, cs[0].description.value);
        SummaryShape(Append(acc, p), t);
        CappedStep(acc, p, ps');
        CutsStep(acc, p, ps');
      } else {
        SummaryShape(acc, t);
        assert [] + ps' == ps';
      }
      var j := FirstFailing(cs);
      assert j < |cs| ==> cs[j] == t[j - 1];
    }
  }

  /** Past a first child that does not throw, the first failing child and the pieces before it shift by one. */
  lemma HeadPieces(cs: seq<ChildView>)
    requires |cs| > 0 && !Throws(cs[0])
    ensures FirstFailing(cs) == 1 + FirstFailing(cs[1..])
    ensures VisiblePieces(cs[..FirstFailing(cs)])
         == (if Shows(cs[0]) then [Piece(cs[0].textColour, cs[0].description.value)] else [])
            + VisiblePieces(cs[1..][..FirstFailing(cs[1..])])
  {
    var j := FirstFailing(cs);
    assert cs[..j][0] == cs[0] && cs[..j][1..] == cs[1..][..j - 1];
  }

  /** One step of Cuts: the next piece passes the cap, or the rest does from there. */
  lemma CutsStep(acc: string, p: string, rest: seq<string>)
    ensures Cuts(acc, [p] + rest) == (|Append(acc, p)| > DescriptionCap || Cuts(Append(acc, p), rest))
  {
    assert ([p] + rest)[0] == p && ([p] + rest)[1..] == rest;
  }

  /** From an empty builder, passing the cap within `ps` means a prefix of their join is longer than the cap. */
  lemma CutsIffCutPoint(ps: seq<string>)
    requires forall k | 0 <= k < |ps| :: |ps[k]| > 0
    ensures Cuts("", ps) <==> CutPoint(ps) < |ps|
  {
    CutsFrom(ps, 0);
    assert ps[..0] == [] && ps[0..] == ps;
  }

  lemma {:induction false} CutsFrom(ps: seq<string>, i: nat)
    requires i <= CutPoint(ps) && forall k | 0 <= k < |ps| :: |ps[k]| > 0
    ensures Cuts(Join(", ", ps[..i]), ps[i..]) <==> CutPoint(ps) < |ps|
    decreases |ps| - i
  {
    if i == |ps| {
      assert ps[i..] == [];
    } else {
      AppendJoins(ps, i);
      assert ps[i..][0] == ps[i] && ps[i..][1..] == ps[i + 1..];
      if i < CutPoint(ps) {
        CutsFrom(ps, i + 1);
      }
    }
  }

  /**
   * What the children summary of Description comes to. With `j` the first
   * child whose IsVisibleFromBindings throws, or that is shown and whose own
   * Description throws: the summary throws exactly when there is such a child
   * and the visible children before it join within 500 characters, and then it
   * throws that child's exception; otherwise it is the capped join of the
   * visible children before `j`. When no child throws, it is the capped join
   * of all the visible children.
   */
  lemma SummaryOutcome(cs: seq<ChildView>)
    ensures var r := Summary("", cs); var j := FirstFailing(cs); var ps := VisiblePieces(cs[..j]);
      && (r.Failure? <==> j < |cs| && CutPoint(ps) == |ps|)
      && (r.Failure? ==> r.error == Thrown(cs[j]))
      && (r.Success? ==> r.value == Capped("", ps))
      && ((forall k | 0 <= k < |cs| :: !Throws(cs[k])) ==> r == Success(Capped("", VisiblePieces(cs))))
  {
    SummaryShape("", cs);
    var j := FirstFailing(cs);
    CutsIffCutPoint(VisiblePieces(cs[..j]));
    if forall k | 0 <= k < |cs| :: !Throws(cs[k]) {
      assert j == |cs| && cs[..j] == cs;
    }
  }

  /**
   * ComplexDataItem.Description; None stands for a null EmptyString, Failure
   * for an exception from a child's IsVisibleFromBindings or from a child's
   * own Description.
   */
  function DescriptionOf(v: ComplexView): (r: Result<Option<string>, VisError>)
    ensures |v.children| == 0 && |v.attributes| == 0 ==> r == Success(v.emptyString)
    ensures (|v.children| > 0 || |v.attributes| > 0) && v.descriptionChild.None? && |v.attributes| > 0 ==>
      r == Success(Some(Join(", ", ShownPieces(v.attributes))))
    ensures r.Failure? && v.descriptionChild.Some? ==>
      exists k | 0 <= k < |v.children| :: v.children[k].defName == v.descriptionChild && v.children[k].description == Failure(r.error)
    ensures r.Failure? && v.descriptionChild.None? ==>
      && |v.attributes| == 0
      && exists k | 0 <= k < |v.children| :: Throws(v.children[k]) && Thrown(v.children[k]) == r.error
    ensures (forall k | 0 <= k < |v.children| :: v.children[k].visible.Success? && v.children[k].description.Success?) ==> r.Success?
  {
    if |v.children| == 0 && |v.attributes| == 0 then Success(v.emptyString)
    else if v.descriptionChild.Some? then
      match FirstNamed(v.children, v.descriptionChild.value)
      case Some(k) =>
        var c := v.children[k];
        (match c.description
         case Failure(e) => Failure(e)
         case Success(d) => Success(Some(Piece(c.textColour, d))))
      case None => Success(Some("null"))
    else if |v.attributes| > 0 then Success(Some(Join(", ", ShownPieces(v.attributes))))
    else
      match Summary("", v.children)
      case Failure(e) => Failure(e)
      case Success(s) => Success(Some(s))
  }

  /**
   * With a description child declared, the first child of that name is shown
   * in its colour, whatever its visibility; its Description's exception escapes.
   */
  lemma DescriptionChildShown(v: ComplexView, k: nat)
    requires |v.children| > 0 && v.descriptionChild.Some?
    requires k < |v.children| && v.children[k].defName == v.descriptionChild
    requires forall j | 0 <= j < k :: v.children[j].defName != v.descriptionChild
    ensures v.children[k].description.Success? ==>
      DescriptionOf(v) == Success(Some("<" + v.children[k].textColour.GetOr("") + ">" + v.children[k].description.value.GetOr("") + "</>"))
    ensures v.children[k].description.Failure? ==> DescriptionOf(v) == Failure(v.children[k].description.error)
  {
    var r := FirstNamed(v.children, v.descriptionChild.value);
    assert r.Some? && r.value == k;
  }

  lemma CappedStep(b: string, p: string, rest: seq<string>)
    ensures Capped(b, [p] + rest) ==
      var b' := Append(b, p); if |b'| > DescriptionCap then (if EndsWith(b', "...") then b' else b' + "...") else Capped(b', rest)
  {
    assert ([p] + rest)[0] == p && ([p] + rest)[1..] == rest;
  }

  /** The StringBuilder loop of Description over the children, evaluating each one's visibility as it goes. */
  method ChildrenSummary(cs: seq<ChildView>) returns (s: Result<string, VisError>)
    ensures s == Summary("", cs)
  {
    var b := "";
    var i := 0;
    while i < |cs|
      invariant 0 <= i <= |cs|
      invariant Summary(b, cs[i..]) == Summary("", cs)
    {
      var child := cs[i];
      assert cs[i..][0] == child && cs[i..][1..] == cs[i + 1..];
      match child.visible {
        case Failure(e) =>
          return Failure(e);
        case Success(shown) =>
          if shown {
            if child.description.Failure? {
              return Failure(child.description.error);
            }
            b := Append(b, Piece(child.textColour, child.description.value));
            if |b| > DescriptionCap {
              if !EndsWith(b, "...") {
                b := b + "...";
              }
              return Success(b);
            }
          }
      }
      i := i + 1;
    }
    assert cs[i..] == [];
    s := Success(b);
  }

  /** The Description getter. */
  method Description(v: ComplexView) returns (r: Result<Option<string>, VisError>)
    ensures r == DescriptionOf(v)
  {
    if |v.children| == 0 && |v.attributes| == 0 {
      return Success(v.emptyString);
    }
    if v.descriptionChild.Some? {
      var k := FirstNamed(v.children, v.descriptionChild.value);
      if k.Some? {
        var child := v.children[k.value];
        if child.description.Failure? {
          return Failure(child.description.error);
        }
        return Success(Some("<" + child.textColour.GetOr("") + ">" + child.description.value.GetOr("") + "</>"));
      }
      return Success(Some("null"));
    }
    if |v.attributes| > 0 {
      return Success(Some(Join(", ", ShownPieces(v.attributes))));
    }
    var s := ChildrenSummary(v.children);
    match s {
      case Failure(e) => r := Failure(e);
      case Success(text) => r := Success(Some(text));
    }
  }

  // ---------------------------------------------------------------------------
  // ResetToDefault

  /** A primitive's value goes back to its definition's default; other kinds keep theirs. */
  function ResetKind(k: Kind): (r: Kind)
    ensures r.PrimitiveItem? <==> k.PrimitiveItem?
    ensures r.PrimitiveItem? ==> r.value == r.defaultValue && r.defaultValue == k.defaultValue
    ensures !k.PrimitiveItem? ==> r == k
  {
    if k.PrimitiveItem? then k.(value := k.defaultValue) else k
  }

  /** Every item of `ts` reset to its default, and nothing else changed. */
  function Defaulted(items: Items, ts: set<ItemId>): (r: Items)
    ensures r.Keys == items.Keys
    ensures forall y | y in items :: r[y].children == items[y].children
    ensures Closed(items) ==> Closed(r)
  {
    map y | y in items :: if y in ts then items[y].(kind := ResetKind(items[y].kind)) else items[y]
  }

  /** The classes whose ResetToDefault resets every child (the ComplexDataItem override). */
  predicate IsComplex(k: Kind) {
    k.StructItem? || k.CollectionItem? || k.GraphNodeItem?
  }

  /**
   * The primitives a ResetToDefault call on `x` reaches: `x` itself for a
   * primitive, the wrapped item's for a collection child, every child's for a
   * complex item. `n` bounds the depth.
   */
  function Targets(items: Items, x: ItemId, n: nat): (r: set<ItemId>)
    requires Closed(items) && x in items
    ensures forall y | y in r :: y in items && items[y].kind.PrimitiveItem?
    decreases n, 0
  {
    if n == 0 then {}
    else
      var k := items[x].kind;
      if k.PrimitiveItem? then {x}
      else if k.CollectionChildItem? && k.wrapped.Some? && k.wrapped.value in items then Targets(items, k.wrapped.value, n - 1)
      else if IsComplex(k) then TargetsOf(items, items[x].children, n - 1)
      else {}
  }

  function TargetsOf(items: Items, cs: seq<ItemId>, n: nat): (r: set<ItemId>)
    requires Closed(items) && Present(items, cs)
    ensures forall y | y in r :: y in items && items[y].kind.PrimitiveItem?
    decreases n, 1, |cs|
  {
    if |cs| == 0 then {}
    else TargetsOf(items, cs[..|cs| - 1], n) + Targets(items, cs[|cs| - 1], n)
  }

  /** Resetting values leaves the tree's shape alone. */
  lemma DefaultedShape(items: Items, ts: set<ItemId>)
    ensures var r := Defaulted(items, ts);
      forall y | y in items :: r[y].children == items[y].children && r[y].kind.PrimitiveItem? == items[y].kind.PrimitiveItem?
        && (!items[y].kind.PrimitiveItem? ==> r[y].kind == items[y].kind)
  {
  }

  /** Resetting values does not change which primitives a later reset reaches. */
  lemma {:induction false} TargetsStable(items: Items, ts: set<ItemId>, x: ItemId, n: nat)
    requires Closed(items) && x in items
    ensures Targets(Defaulted(items, ts), x, n) == Targets(items, x, n)
    decreases n, 0
  {
    DefaultedShape(items, ts);
    if n > 0 {
      var k := items[x].kind;
      if k.CollectionChildItem? && k.wrapped.Some? && k.wrapped.value in items {
        TargetsStable(items, ts, k.wrapped.value, n - 1);
      } else if IsComplex(k) {
        TargetsOfStable(items, ts, items[x].children, n - 1);
      }
    }
  }

  lemma {:induction false} TargetsOfStable(items: Items, ts: set<ItemId>, cs: seq<ItemId>, n: nat)
    requires Closed(items) && Present(items, cs)
    ensures TargetsOf(Defaulted(items, ts), cs, n) == TargetsOf(items, cs, n)
    decreases n, 1, |cs|
  {
    if |cs| > 0 {
      TargetsOfStable(items, ts, cs[..|cs| - 1], n);
      TargetsStable(items, ts, cs[|cs| - 1], n);
    }
  }

  /** Two resets in a row are one reset of both sets. */
  lemma DefaultedTwice(items: Items, s: set<ItemId>, t: set<ItemId>)
    ensures Defaulted(Defaulted(items, s), t) == Defaulted(items, s + t)
  {
  }

  lemma DefaultedOne(items: Items, x: ItemId)
    requires x in items
    ensures Defaulted(items, {x}) == items[x := items[x].(kind := ResetKind(items[x].kind))]
  {
  }

  /**
   * ResetToDefault on `x`: a primitive takes its default value, a collection
   * child resets its wrapped item, a complex item resets each child in order.
   */
  method ResetToDefault(t: ItemTree, x: ItemId, n: nat)
    requires Closed(t.items) && x in t.items
    modifies t
    ensures t.flags == old(t.flags) && t.registry == old(t.registry)
    ensures t.items == Defaulted(old(t.items), Targets(old(t.items), x, n))
    decreases n, 1
  {
    if n == 0 {
      return;
    }
    var it := t.items[x];
    if it.kind.PrimitiveItem? {
      DefaultedOne(t.items, x);
      t.items := t.items[x := it.(kind := ResetKind(it.kind))];
    } else if it.kind.CollectionChildItem? && it.kind.wrapped.Some? && it.kind.wrapped.value in t.items {
      ResetToDefault(t, it.kind.wrapped.value, n - 1);
    } else if IsComplex(it.kind) {
      ResetChildren(t, it.children, n - 1);
    } else {
      assert Targets(t.items, x, n) == {};
    }
  }

  /** The ComplexDataItem override: ResetToDefault on each child, in order. */
  method ResetChildren(t: ItemTree, cs: seq<ItemId>, n: nat)
    requires Closed(t.items) && Present(t.items, cs)
    modifies t
    ensures t.flags == old(t.flags) && t.registry == old(t.registry)
    ensures t.items == Defaulted(old(t.items), TargetsOf(old(t.items), cs, n))
    decreases n, 2
  {
    ghost var a := t.items;
    var i := 0;
    while i < |cs|
      invariant 0 <= i <= |cs| && t.flags == old(t.flags) && t.registry == old(t.registry)
      invariant t.items == Defaulted(a, TargetsOf(a, cs[..i], n))
    {
      ghost var s := TargetsOf(a, cs[..i], n);
      ResetToDefault(t, cs[i], n);
      TargetsStable(a, s, cs[i], n);
      DefaultedTwice(a, s, Targets(a, cs[i], n));
      assert cs[..i + 1][..i] == cs[..i];
      i := i + 1;
    }
    assert cs[..i] == cs;
  }

  /** After a reset every primitive it reached holds its default, and no other item changed. */
  lemma ResetReachesDefaults(items: Items, x: ItemId, n: nat)
    requires Closed(items) && x in items
    ensures var ts := Targets(items, x, n); var r := Defaulted(items, ts);
      && (forall y | y in ts :: r[y].kind.PrimitiveItem? && r[y].kind.value == r[y].kind.defaultValue)
      && (forall y | y in items && y !in ts :: r[y] == items[y])
  {
  }

  /** ResetToDefault is idempotent: a second reset changes nothing. */
  lemma ResetIdempotent(items: Items, x: ItemId, n: nat)
    requires Closed(items) && x in items
    ensures var r := Defaulted(items, Targets(items, x, n));
      Defaulted(r, Targets(r, x, n)) == r
  {
    var ts := Targets(items, x, n);
    TargetsStable(items, ts, x, n);
    DefaultedTwice(items, ts, ts);
    assert ts + ts == ts;
  }

  // ---------------------------------------------------------------------------
  // Clear and Paste

  /** Children.Clear(): the list empties; the Reset event adopts nothing and re-indexes an empty list. */
  function Emptied(items: Items, owner: ItemId, rebind: Binder): (r: Outcome)
    requires owner in items
    ensures r == Outcome(items[owner := items[owner].(children := [])], None)
  {
    ChildrenChanged(items[owner := items[owner].(children := [])], owner, [], rebind)
  }

  /** Children.Add(c): the child is appended, adopted, and the list re-indexed, unless its Parent setter throws. */
  function Added(items: Items, owner: ItemId, c: ItemId, rebind: Binder): (r: Outcome)
    requires owner in items
    ensures r.items.Keys == items.Keys
  {
    ChildrenChanged(items[owner := items[owner].(children := items[owner].children + [c])], owner, [c], rebind)
  }

  /** The first position of `x` in `cs`. */
  function FirstPos(cs: seq<ItemId>, x: ItemId): (k: nat)
    requires x in cs
    ensures k < |cs| && cs[k] == x && x !in cs[..k]
  {
    if cs[0] == x then 0
    else
      assert x in cs[1..];
      var k := FirstPos(cs[1..], x);
      assert cs[..k + 1] == [cs[0]] + cs[1..][..k];
      k + 1
  }

  /**
   * Whether the `k`-th Add throws: `cs[k]` is added for the first time, its
   * parent is not `owner`, and rebinding it against the list as it then
   * stands throws.
   */
  predicate AddRaises(items: Items, owner: ItemId, cs: seq<ItemId>, k: nat, rebind: Binder)
    requires owner in items && k < |cs|
  {
    && cs[k] in items && cs[k] !in cs[..k]
    && Raises(items, owner, cs[k], SiblingsOf(items, items[owner].children + cs[..k + 1]), rebind)
  }

  /** No Add of `cs` throws. */
  predicate NoAddRaises(items: Items, owner: ItemId, cs: seq<ItemId>, rebind: Binder)
    requires owner in items
  {
    forall k | 0 <= k < |cs| :: !AddRaises(items, owner, cs, k, rebind)
  }

  /**
   * What one `Add` after another leaves on item `x` when none throws: the
   * owner's list extended by `cs`, each added item with `owner` as parent and,
   * if that changed, the groups rebuilt against the list as it stood when the
   * item was first added, and every child's last position as its index.
   */
  function Spliced(items: Items, owner: ItemId, cs: seq<ItemId>, x: ItemId, rebind: Binder): Item
    requires owner in items && x in items
  {
    var all := items[owner].children + cs;
    items[x].(children := if x == owner then all else items[x].children,
              parent := if x in cs then Some(owner) else items[x].parent,
              index := if |cs| > 0 && x in all then LastPos(all, x) else items[x].index,
              groups := if x in cs && items[x].parent != Some(owner)
                        then rebind(items[x].def.visibleIf, SiblingsOf(items, items[owner].children + cs[..FirstPos(cs, x) + 1]), x).groups
                        else items[x].groups)
  }

  /**
   * `foreach (var child in cs) Children.Add(child)`: the loop stops at the
   * first Add whose handler throws, and throws exactly when some Add does.
   * When none does, the children are appended in order with the bookkeeping
   * Spliced states, and nothing else changes.
   */
  function AddedAll(items: Items, owner: ItemId, cs: seq<ItemId>, rebind: Binder): (r: Outcome)
    requires owner in items
    ensures r.items.Keys == items.Keys
    ensures r.thrown.None? <==> NoAddRaises(items, owner, cs, rebind)
    ensures r.thrown.None? ==> forall x | x in items :: r.items[x] == Spliced(items, owner, cs, x, rebind)
    decreases |cs|
  {
    if |cs| == 0 then
      assert items[owner].children + cs == items[owner].children;
      Outcome(items, None)
    else
      var p := AddedAll(items, owner, cs[..|cs| - 1], rebind);
      if p.thrown.Some? then
        AddedAllStopped(items, owner, cs, rebind);
        p
      else
        AddedAllStep(items, owner, cs, p.items, rebind);
        Added(p.items, owner, cs[|cs| - 1], rebind)
  }

  /** An Add that throws among the first ones is one among them all. */
  lemma AddedAllStopped(items: Items, owner: ItemId, cs: seq<ItemId>, rebind: Binder)
    requires owner in items && |cs| > 0 && !NoAddRaises(items, owner, cs[..|cs| - 1], rebind)
    ensures !NoAddRaises(items, owner, cs, rebind)
  {
    var init := cs[..|cs| - 1];
    var k :| 0 <= k < |init| && AddRaises(items, owner, init, k, rebind);
    assert init[..k] == cs[..k] && init[..k + 1] == cs[..k + 1];
    assert AddRaises(items, owner, cs, k, rebind);
  }

  /** One more Add after the first ones, none of which threw. */
  lemma AddedAllStep(items: Items, owner: ItemId, cs: seq<ItemId>, p: Items, rebind: Binder)
    requires owner in items && p.Keys == items.Keys && |cs| > 0
    requires NoAddRaises(items, owner, cs[..|cs| - 1], rebind)
    requires forall x | x in items :: p[x] == Spliced(items, owner, cs[..|cs| - 1], x, rebind)
    ensures var r := Added(p, owner, cs[|cs| - 1], rebind);
      && (r.thrown.None? <==> NoAddRaises(items, owner, cs, rebind))
      && (r.thrown.None? ==> forall x | x in items :: r.items[x] == Spliced(items, owner, cs, x, rebind))
  {
    var init, c := cs[..|cs| - 1], cs[|cs| - 1];
    assert SeenAlike(p, items);
    assert p[owner] == Spliced(items, owner, init, owner, rebind);
    assert p[owner].children == items[owner].children + init;
    AddedRaises(items, owner, cs, p, rebind);
    AddedOne(p, owner, c, rebind);
    forall x | x in items
      ensures AddedForm(p, owner, c, rebind)[x] == Spliced(items, owner, cs, x, rebind)
    {
      AddedAllStepAt(items, owner, cs, p, x, rebind);
    }
  }

  /** What a single Add that does not throw leaves: `c` appended and adopted, the list re-indexed. */
  function AddedForm(items: Items, owner: ItemId, c: ItemId, rebind: Binder): Items
    requires owner in items
  {
    var all := items[owner].children + [c];
    var p1 := items[owner := items[owner].(children := all)];
    Reindexed(if c in items then p1[c := Reparented(p1, owner, c, SiblingsOf(items, all), rebind)] else p1, all)
  }

  /** A single Add: whether it throws, and what it leaves when it does not. */
  lemma AddedOne(items: Items, owner: ItemId, c: ItemId, rebind: Binder)
    requires owner in items
    ensures var all := items[owner].children + [c];
      var p1 := items[owner := items[owner].(children := all)];
      var r := Added(items, owner, c, rebind);
      && (r.thrown.None? <==> !(c in items && Raises(items, owner, c, SiblingsOf(items, all), rebind)))
      && (r.thrown.None? ==> r.items == AddedForm(items, owner, c, rebind))
  {
    var all := items[owner].children + [c];
    var p1 := items[owner := items[owner].(children := all)];
    assert SeenAlike(p1, items);
    SiblingsFrame(p1, items, all);
    var sibs := SiblingsOf(items, all);
    assert Siblings(p1, owner) == sibs;
    assert [c][..|[c]| - 1] == [] && [c][|[c]| - 1] == c;
    assert Adopted(p1, owner, [], rebind) == Outcome(p1, None);
    var a := Adopted(p1, owner, [c], rebind);
    assert a == if c in p1 then ParentSet(p1, owner, c, sibs, rebind) else Outcome(p1, None);
    if c in items {
      assert p1[c].parent == items[c].parent && p1[c].def == items[c].def;
      assert Raises(p1, owner, c, sibs, rebind) == Raises(items, owner, c, sibs, rebind);
    }
  }

  /** NoAddRaises of one more item: none of the first ones throws, and neither does the last. */
  lemma NoAddRaisesSnoc(items: Items, owner: ItemId, cs: seq<ItemId>, rebind: Binder)
    requires owner in items && |cs| > 0
    ensures NoAddRaises(items, owner, cs, rebind) <==>
      NoAddRaises(items, owner, cs[..|cs| - 1], rebind) && !AddRaises(items, owner, cs, |cs| - 1, rebind)
  {
    var init := cs[..|cs| - 1];
    forall k | 0 <= k < |init|
      ensures AddRaises(items, owner, cs, k, rebind) == AddRaises(items, owner, init, k, rebind)
    {
      assert cs[..k] == init[..k] && cs[..k + 1] == init[..k + 1];
    }
  }

  /** The last Add throws exactly when AddRaises says so of it. */
  lemma AddedRaises(items: Items, owner: ItemId, cs: seq<ItemId>, p: Items, rebind: Binder)
    requires owner in items && p.Keys == items.Keys && |cs| > 0
    requires NoAddRaises(items, owner, cs[..|cs| - 1], rebind)
    requires SeenAlike(p, items) && p[owner].children == items[owner].children + cs[..|cs| - 1]
    requires cs[|cs| - 1] in items ==> p[cs[|cs| - 1]] == Spliced(items, owner, cs[..|cs| - 1], cs[|cs| - 1], rebind)
    ensures Added(p, owner, cs[|cs| - 1], rebind).thrown.None? <==> NoAddRaises(items, owner, cs, rebind)
  {
    var init, c := cs[..|cs| - 1], cs[|cs| - 1];
    assert cs == init + [c];
    var all' := items[owner].children + cs;
    assert p[owner].children + [c] == all';
    AddedOne(p, owner, c, rebind);
    SiblingsFrame(p, items, all');
    NoAddRaisesSnoc(items, owner, cs, rebind);
    assert cs[..|cs| - 1 + 1] == cs;
  }

  lemma AddedAllStepAt(items: Items, owner: ItemId, cs: seq<ItemId>, p: Items, x: ItemId, rebind: Binder)
    requires owner in items && p.Keys == items.Keys && |cs| > 0 && x in items
    requires p[x] == Spliced(items, owner, cs[..|cs| - 1], x, rebind)
    requires p[owner] == Spliced(items, owner, cs[..|cs| - 1], owner, rebind)
    requires cs[|cs| - 1] in items ==> p[cs[|cs| - 1]] == Spliced(items, owner, cs[..|cs| - 1], cs[|cs| - 1], rebind)
    requires SeenAlike(p, items)
    ensures AddedForm(p, owner, cs[|cs| - 1], rebind)[x] == Spliced(items, owner, cs, x, rebind)
  {
    var c := cs[|cs| - 1];
    var all' := items[owner].children + cs;
    assert p[owner].children + [c] == all' by {
      assert cs == cs[..|cs| - 1] + [c];
    }
    SiblingsFrame(p, items, all');
    if x == c {
      StepAtLast(items, owner, cs, p, rebind);
    } else {
      StepAtOther(items, owner, cs, p, x, rebind);
    }
  }

  /** The item just added, after its Add. */
  lemma StepAtLast(items: Items, owner: ItemId, cs: seq<ItemId>, p: Items, rebind: Binder)
    requires owner in items && p.Keys == items.Keys && |cs| > 0 && cs[|cs| - 1] in items
    requires p[cs[|cs| - 1]] == Spliced(items, owner, cs[..|cs| - 1], cs[|cs| - 1], rebind)
    requires p[owner] == Spliced(items, owner, cs[..|cs| - 1], owner, rebind)
    ensures var c, all' := cs[|cs| - 1], items[owner].children + cs;
      var p1 := p[owner := p[owner].(children := all')];
      Reparented(p1, owner, c, SiblingsOf(items, all'), rebind).(index := LastPos(all', c)) == Spliced(items, owner, cs, c, rebind)
  {
    var c, all' := cs[|cs| - 1], items[owner].children + cs;
    SplicedLast(items, owner, cs, rebind);
    var sp := Spliced(items, owner, cs[..|cs| - 1], c, rebind);
    assert p[owner := p[owner].(children := all')][c] == if c == owner then sp.(children := all') else sp;
  }

  /**
   * The item added last, among `cs`: the owner as parent, bound against the
   * list up to it when its parent changes, and the last position as index.
   */
  lemma SplicedLast(items: Items, owner: ItemId, cs: seq<ItemId>, rebind: Binder)
    requires owner in items && |cs| > 0 && cs[|cs| - 1] in items
    ensures var init, c, all' := cs[..|cs| - 1], cs[|cs| - 1], items[owner].children + cs;
      var sp := Spliced(items, owner, init, c, rebind);
      var bound := if sp.parent == Some(owner) then sp
        else sp.(parent := Some(owner), groups := rebind(items[c].def.visibleIf, SiblingsOf(items, all'), c).groups);
      Spliced(items, owner, cs, c, rebind)
        == bound.(children := if c == owner then all' else sp.children, index := |all'| - 1)
  {
    var init, c := cs[..|cs| - 1], cs[|cs| - 1];
    assert cs == init + [c];
    var all' := items[owner].children + cs;
    SplicedGroups(cs, c);
    assert LastPos(all', c) == |all'| - 1;
    if c !in init {
      assert cs[..FirstPos(cs, c) + 1] == cs;
    }
  }

  /** An item other than the one just added, after the Add. */
  lemma StepAtOther(items: Items, owner: ItemId, cs: seq<ItemId>, p: Items, x: ItemId, rebind: Binder)
    requires owner in items && p.Keys == items.Keys && |cs| > 0 && x in items && x != cs[|cs| - 1]
    requires p[x] == Spliced(items, owner, cs[..|cs| - 1], x, rebind)
    requires p[owner] == Spliced(items, owner, cs[..|cs| - 1], owner, rebind)
    ensures var all' := items[owner].children + cs;
      var p1 := p[owner := p[owner].(children := all')];
      p1[x].(index := if x in all' then LastPos(all', x) else p1[x].index) == Spliced(items, owner, cs, x, rebind)
  {
    var all' := items[owner].children + cs;
    SplicedSnoc(items, owner, cs, x, rebind);
    if x == owner {
      assert p[owner := p[owner].(children := all')][x] == p[owner].(children := all');
    } else {
      assert p[owner := p[owner].(children := all')][x] == p[x];
    }
  }

  /** One more item at the end of `cs` only changes another item's children (for the owner) and index. */
  lemma SplicedSnoc(items: Items, owner: ItemId, cs: seq<ItemId>, x: ItemId, rebind: Binder)
    requires owner in items && x in items && |cs| > 0 && x != cs[|cs| - 1]
    ensures var init, all' := cs[..|cs| - 1], items[owner].children + cs;
      var sp := Spliced(items, owner, init, x, rebind);
      Spliced(items, owner, cs, x, rebind)
        == sp.(children := if x == owner then all' else sp.children,
               index := if x in all' then LastPos(all', x) else sp.index)
  {
    var init := cs[..|cs| - 1];
    var all' := items[owner].children + cs;
    SnocFacts(items[owner].children, cs, x);
    var sp := Spliced(items, owner, init, x, rebind);
    var sc := Spliced(items, owner, cs, x, rebind);
    assert sc.parent == sp.parent;
    assert sc.groups == sp.groups;
  }

  /** What one more item `c` at the end of `cs` leaves unchanged about another item `x`. */
  lemma SnocFacts(pre: seq<ItemId>, cs: seq<ItemId>, x: ItemId)
    requires |cs| > 0 && x != cs[|cs| - 1]
    ensures var init := cs[..|cs| - 1];
      && (x in cs <==> x in init)
      && (x in pre + cs <==> x in pre + init)
      && (x in pre + cs ==> LastPos(pre + cs, x) == LastPos(pre + init, x))
      && (x in cs ==> FirstPos(init, x) == FirstPos(cs, x) && init[..FirstPos(init, x) + 1] == cs[..FirstPos(cs, x) + 1])
  {
    var init, c := cs[..|cs| - 1], cs[|cs| - 1];
    assert cs == init + [c];
    assert pre + cs == (pre + init) + [c];
    if x in pre + cs {
      LastPosSnoc(pre + init, c, x);
    }
    if x in cs {
      SplicedGroups(cs, x);
    }
  }

  /** The list an added item was first bound against is the same among `cs` as among `cs` and one more. */
  lemma SplicedGroups(cs: seq<ItemId>, x: ItemId)
    requires |cs| > 0 && x in cs
    ensures var init := cs[..|cs| - 1];
      x in init ==> FirstPos(init, x) == FirstPos(cs, x) && init[..FirstPos(init, x) + 1] == cs[..FirstPos(cs, x) + 1]
    ensures var init := cs[..|cs| - 1];
      x !in init ==> FirstPos(cs, x) == |init| && cs[..FirstPos(cs, x) + 1] == cs
  {
  }

  lemma LastPosSnoc(cs: seq<ItemId>, c: ItemId, x: ItemId)
    requires x in cs && x != c
    ensures LastPos(cs + [c], x) == LastPos(cs, x)
  {
    assert (cs + [c])[..|cs|] == cs;
  }

  /**
   * The bookkeeping every child list keeps: its children exist, are distinct,
   * do not include the owner, have the owner as parent and their position as index.
   */
  predicate InPlace(items: Items, owner: ItemId) {
    && owner in items
    && var cs := items[owner].children;
    && Present(items, cs) && Distinct(cs) && owner !in cs
    && forall k | 0 <= k < |cs| :: items[cs[k]].parent == Some(owner) && items[cs[k]].index == k
  }

  /** The do of Clear. */
  function ClearedDoc(d: Doc, owner: ItemId, rebind: Binder): Doc {
    if owner in d.items then d.(items := Emptied(d.items, owner, rebind).items) else d
  }

  /** The undo of Clear: the previous children added back, in order. */
  function RefilledDoc(d: Doc, owner: ItemId, prev: seq<ItemId>, rebind: Binder): Doc {
    if owner in d.items then d.(items := AddedAll(d.items, owner, prev, rebind).items) else d
  }

  /** The do and the undo of Paste: clear, then add the given children in order. */
  function PastedDoc(d: Doc, owner: ItemId, cs: seq<ItemId>, rebind: Binder): Doc {
    if owner in d.items then d.(items := AddedAll(Emptied(d.items, owner, rebind).items, owner, cs, rebind).items) else d
  }

  /** The action Clear records: `prev` is the children list when Clear is called. */
  function ClearAction(owner: ItemId, prev: seq<ItemId>, name: Option<string>, rebind: Binder): (a: UndoRedo.Action<Doc>)
    ensures a.desc == name.GetOr("") + " cleared"
  {
    UndoRedo.Action(d => ClearedDoc(d, owner, rebind), d => RefilledDoc(d, owner, prev, rebind), name.GetOr("") + " cleared")
  }

  /** The action Paste records: `prev` is the children list before, `pasted` the loaded item's children. */
  function PasteAction(owner: ItemId, prev: seq<ItemId>, pasted: seq<ItemId>, name: Option<string>, rebind: Binder): (a: UndoRedo.Action<Doc>)
    ensures a.desc == name.GetOr("") + " pasted"
  {
    UndoRedo.Action(d => PastedDoc(d, owner, pasted, rebind), d => PastedDoc(d, owner, prev, rebind), name.GetOr("") + " pasted")
  }

  /** Clear empties the children list and leaves every other item, and the registry, as it was. */
  lemma ClearEmpties(d: Doc, owner: ItemId, name: Option<string>, rebind: Binder)
    requires owner in d.items
    ensures var r := ClearAction(owner, d.items[owner].children, name, rebind).do(d);
      && r.registry == d.registry && r.items.Keys == d.items.Keys
      && r.items[owner].children == []
      && (HasContent(r.items, owner) <==> |d.items[owner].attributes| != 0)
      && forall x | x in d.items && x != owner :: r.items[x] == d.items[x]
  {
  }

  /** No Add throws when every item added already has `owner` as its parent. */
  lemma NoneRaise(items: Items, owner: ItemId, cs: seq<ItemId>, rebind: Binder)
    requires owner in items
    requires forall k | 0 <= k < |cs| && cs[k] in items :: items[cs[k]].parent == Some(owner)
    ensures NoAddRaises(items, owner, cs, rebind)
  {
  }

  /** Adding the previous children back to the emptied list throws nothing and gives each item back as it was. */
  lemma RefillRestoresAt(items: Items, owner: ItemId, x: ItemId, rebind: Binder)
    requires InPlace(items, owner) && x in items
    ensures var r := AddedAll(Emptied(items, owner, rebind).items, owner, items[owner].children, rebind);
      r.thrown.None? && r.items[x] == items[x]
  {
    var prev := items[owner].children;
    var e := Emptied(items, owner, rebind).items;
    NoneRaise(e, owner, prev, rebind);
    var t := Spliced(e, owner, prev, x, rebind);
    assert AddedAll(e, owner, prev, rebind).items[x] == t;
    assert e[owner].children + prev == prev;
    if x in prev {
      var k :| 0 <= k < |prev| && prev[k] == x;
      LastPosDistinct(prev, k);
      assert items[x].parent == Some(owner) && items[x].index == k;
      assert t == items[x];
    } else if x == owner {
      assert t == items[x];
    } else {
      assert t == items[x];
    }
  }

  /** Undoing Clear right after it restores the document, the children in their original order. */
  lemma ClearUndoRestores(d: Doc, owner: ItemId, name: Option<string>, rebind: Binder)
    requires InPlace(d.items, owner)
    ensures var a := ClearAction(owner, d.items[owner].children, name, rebind); a.undo(a.do(d)) == d
  {
    var a := ClearAction(owner, d.items[owner].children, name, rebind);
    var e := Emptied(d.items, owner, rebind).items;
    var r := AddedAll(e, owner, d.items[owner].children, rebind).items;
    assert a.do(d) == d.(items := e);
    assert a.undo(a.do(d)) == d.(items := r);
    assert r.Keys == d.items.Keys;
    forall x | x in d.items
      ensures r[x] == d.items[x]
    {
      RefillRestoresAt(d.items, owner, x, rebind);
    }
    SameItems(r, d.items);
  }

  /** Two item maps with the same keys that agree at every key are equal. */
  lemma SameItems(a: Items, b: Items)
    requires a.Keys == b.Keys && forall x | x in a :: a[x] == b[x]
    ensures a == b
  {
  }

  /**
   * Paste throws exactly when adding one of the pasted items does; when none
   * does, the owner's children are the pasted ones, in order, each in place.
   */
  lemma PasteInPlace(d: Doc, owner: ItemId, pasted: seq<ItemId>, rebind: Binder)
    requires owner in d.items && Present(d.items, pasted) && Distinct(pasted) && owner !in pasted
    ensures var e := Emptied(d.items, owner, rebind).items;
      var r := AddedAll(e, owner, pasted, rebind);
      && PastedDoc(d, owner, pasted, rebind) == d.(items := r.items)
      && (r.thrown.None? <==> NoAddRaises(e, owner, pasted, rebind))
      && (r.thrown.None? ==> r.items[owner].children == pasted && InPlace(r.items, owner))
  {
    var e := Emptied(d.items, owner, rebind).items;
    var r := AddedAll(e, owner, pasted, rebind);
    if r.thrown.None? {
      assert [] + pasted == pasted;
      forall k | 0 <= k < |pasted|
        ensures r.items[pasted[k]].parent == Some(owner) && r.items[pasted[k]].index == k
      {
        assert r.items[pasted[k]] == Spliced(e, owner, pasted, pasted[k], rebind);
        LastPosDistinct(pasted, k);
      }
    }
  }

  /** After pasting and pasting the previous children back, an item is as before unless it was pasted only. */
  lemma RepasteAt(items: Items, owner: ItemId, pasted: seq<ItemId>, x: ItemId, rebind: Binder)
    requires InPlace(items, owner) && owner !in pasted && x in items
    requires NoAddRaises(Emptied(items, owner, rebind).items, owner, pasted, rebind)
    ensures var prev := items[owner].children;
      var m := AddedAll(Emptied(items, owner, rebind).items, owner, pasted, rebind).items;
      var u := AddedAll(Emptied(m, owner, rebind).items, owner, prev, rebind);
      && u.thrown.None?
      && (x !in pasted || x in prev ==> u.items[x] == items[x])
      && (x in pasted ==> u.items[x].parent == Some(owner))
  {
    var prev := items[owner].children;
    var m := AddedAll(Emptied(items, owner, rebind).items, owner, pasted, rebind).items;
    forall k | 0 <= k < |prev|
      ensures m[prev[k]].parent == Some(owner)
    {
      PastedAt(items, owner, pasted, prev[k], rebind);
    }
    NoneRaise(Emptied(m, owner, rebind).items, owner, prev, rebind);
    PastedAt(items, owner, pasted, x, rebind);
    RefilledAt(m, owner, prev, x, rebind);
    if x in prev {
      var k :| 0 <= k < |prev| && prev[k] == x;
      LastPosDistinct(prev, k);
      assert items[x].parent == Some(owner) && items[x].index == k;
    }
  }

  /** One item after the owner of `m` is emptied and given `cs` as its children, when no Add throws. */
  lemma RefilledAt(m: Items, owner: ItemId, cs: seq<ItemId>, x: ItemId, rebind: Binder)
    requires owner in m && owner !in cs && x in m
    requires NoAddRaises(Emptied(m, owner, rebind).items, owner, cs, rebind)
    ensures var u := AddedAll(Emptied(m, owner, rebind).items, owner, cs, rebind).items;
      && (x == owner ==> u[x] == m[x].(children := cs))
      && (x in cs ==> u[x].parent == Some(owner))
      && (x in cs && m[x].parent == Some(owner) ==> u[x] == m[x].(index := LastPos(cs, x)))
      && (x != owner && x !in cs ==> u[x] == m[x])
  {
    var e := Emptied(m, owner, rebind).items;
    assert AddedAll(e, owner, cs, rebind).items[x] == Spliced(e, owner, cs, x, rebind);
    assert e[owner].children + cs == cs;
  }

  /** One item after the first paste, when no Add throws: the owner holds the pasted children, a pasted item names the owner. */
  lemma PastedAt(items: Items, owner: ItemId, pasted: seq<ItemId>, x: ItemId, rebind: Binder)
    requires owner in items && owner !in pasted && x in items
    requires NoAddRaises(Emptied(items, owner, rebind).items, owner, pasted, rebind)
    ensures var m := AddedAll(Emptied(items, owner, rebind).items, owner, pasted, rebind).items;
      && (x == owner ==> m[x] == items[x].(children := pasted))
      && (x != owner && x !in pasted ==> m[x] == items[x])
      && (x != owner ==> m[x].children == items[x].children)
      && (x in pasted ==> m[x].parent == Some(owner))
      && (x in pasted && items[x].parent == Some(owner) ==> m[x] == items[x].(index := LastPos(pasted, x)))
  {
    RefilledAt(items, owner, pasted, x, rebind);
  }

  /**
   * Undoing a Paste whose do threw nothing gives the previous children back,
   * and throws nothing: every item that was not pasted is as before. A pasted
   * item that was not a child before stays detached, still naming the owner
   * as its parent.
   */
  lemma PasteUndoRestores(d: Doc, owner: ItemId, pasted: seq<ItemId>, name: Option<string>, rebind: Binder)
    requires InPlace(d.items, owner) && owner !in pasted
    requires NoAddRaises(Emptied(d.items, owner, rebind).items, owner, pasted, rebind)
    ensures var a := PasteAction(owner, d.items[owner].children, pasted, name, rebind);
      var u := a.undo(a.do(d));
      && u.registry == d.registry && u.items.Keys == d.items.Keys
      && (forall x | x in d.items && (x !in pasted || x in d.items[owner].children) :: u.items[x] == d.items[x])
      && (forall x | x in d.items && x in pasted :: u.items[x].parent == Some(owner))
  {
    var prev := d.items[owner].children;
    var a := PasteAction(owner, prev, pasted, name, rebind);
    var m := AddedAll(Emptied(d.items, owner, rebind).items, owner, pasted, rebind).items;
    var u := AddedAll(Emptied(m, owner, rebind).items, owner, prev, rebind).items;
    assert a.do(d) == d.(items := m);
    assert a.undo(a.do(d)) == d.(items := u);
    forall x | x in d.items {
      RepasteAt(d.items, owner, pasted, x, rebind);
    }
  }

  /** Clear as the editor issues it: one ApplyDoUndo of the Clear action. */
  method Clear(mgr: UndoRedo.UndoRedoManager<Doc>, owner: ItemId, now: int)
    requires mgr.Valid() && owner in mgr.doc.items
    modifies mgr
    ensures mgr.Valid()
    ensures mgr.State() == UndoRedo.Applied(old(mgr.State()), ClearAction(owner, old(mgr.doc.items[owner].children), old(mgr.doc.items[owner].name), Rebind), now, [])
  {
    var prev := mgr.doc.items[owner].children;
    mgr.ApplyDoUndo(ClearAction(owner, prev, mgr.doc.items[owner].name, Rebind), now, []);
  }

  /** What LoadData built from the clipboard text: fresh items, and the children of the loaded item. */
  datatype Payload = Payload(loaded: Items, children: seq<ItemId>)

  /**
   * Paste: with no data on the clipboard nothing happens. Otherwise the loaded
   * items, fresh ones, join the document with undo recording disabled, then
   * one ApplyDoUndo replaces the children with the loaded item's children.
   */
  method Paste(mgr: UndoRedo.UndoRedoManager<Doc>, owner: ItemId, payload: Option<Payload>, now: int)
    requires mgr.Valid() && owner in mgr.doc.items
    requires payload.Some? ==> payload.value.loaded.Keys !! mgr.doc.items.Keys
    modifies mgr
    ensures mgr.Valid()
    ensures payload.None? ==> mgr.State() == old(mgr.State())
    ensures payload.Some? ==>
      var s1 := UndoRedo.ScopeOpened(old(mgr.State()));
      var s2 := UndoRedo.ScopeClosed(s1.(doc := s1.doc.(items := s1.doc.items + payload.value.loaded)));
      mgr.State() == UndoRedo.Applied(s2, PasteAction(owner, old(mgr.doc.items[owner].children), payload.value.children,
                                             old(mgr.doc.items[owner].name), Rebind), now, [])
  {
    if payload.None? {
      return;
    }
    var prev := mgr.doc.items[owner].children;
    var name := mgr.doc.items[owner].name;
    mgr.DisableUndoScope();
    ghost var s1 := mgr.State();
    mgr.doc := mgr.doc.(items := mgr.doc.items + payload.value.loaded);
    UndoRedo.ValidLogFrame(s1, mgr.State());
    mgr.EndUndoScope();
    mgr.ApplyDoUndo(PasteAction(owner, prev, payload.value.children, name, Rebind), now, []);
  }
}
