/**
 * GraphCollectionDefinition: a graph node whose children are collection
 * children, with a child-count range, link options, a background colour and
 * primitive attributes.
 *
 * Child definitions are seen only through their Name; what a child item loads
 * from, or saves as, is a parameter of the model. The meta and json namespaces
 * are written as name prefixes.
 */
module GraphCollections {
  import opened Wrappers
  import opened Text
  import opened Markup
  import D = Definitions

  const MetaX: string := "meta:X"
  const MetaY: string := "meta:Y"
  const MetaComment: string := "meta:Comment"
  const MetaCommentData: string := "meta:CommentData"
  const JsonXmlns: string := "xmlns:json"
  const JsonArray: string := "json:Array"
  /** Stands for the JsonNS namespace name, whose value is not part of this model. */
  const JsonNamespace: string := "json"

  /** Color.FromArgb(a, r, g, b) */
  datatype Colour = Colour(a: int, r: int, g: int, b: int)

  /** A CollectionChildDefinition, known by its Name. */
  datatype ChildDef = ChildDef(name: Option<string>)

  datatype GraphDef = GraphDef(
    name: Option<string>,
    childrenAreUnique: bool,
    minCount: int,
    maxCount: int,
    allowReferenceLinks: bool,
    allowCircularLinks: bool,
    flattenData: bool,
    nodeStoreName: string,
    background: Option<Colour>,
    childDefs: seq<ChildDef>,
    attributes: seq<D.PrimDef>)

  // ---------------------------------------------------------------------------
  // Parse

  /** byte.TryParse, leaving 0 on failure. */
  function ByteOrZero(s: string): (r: int)
    ensures 0 <= r <= 255
  {
    match ParseInt(s)
    case Some(v) => if 0 <= v <= 255 then v else 0
    case None => 0
  }

  /** Background: "R,G,B,A"; fewer than four pieces fail on the missing index. */
  function ParseBackground(v: string): (r: Result<Colour, string>)
    ensures r.Failure? <==> |Split(v, ',')| < 4
  {
    var parts := Split(v, ',');
    if |parts| < 4 then Failure("IndexOutOfRangeException")
    else Success(Colour(ByteOrZero(parts[3]), ByteOrZero(parts[0]), ByteOrZero(parts[1]), ByteOrZero(parts[2])))
  }

  /** The element children other than Attributes, each of which declares a child definition. */
  function ChildDefElements(es: seq<Element>): (r: seq<Element>)
    ensures forall c | c in r :: c in es && c.name != "Attributes"
    ensures forall c | c in es && c.name != "Attributes" :: c in r
  {
    if |es| == 0 then []
    else (if es[0].name != "Attributes" then [es[0]] else []) + ChildDefElements(es[1..])
  }

  /** The scalar fields Parse reads, each with its fallback. */
  function WithFields(d: GraphDef, e: Element): GraphDef {
    d.(
      childrenAreUnique := TryParseBool(e, "ChildrenAreUnique", false),
      minCount := TryParseInt(e, "MinCount", 0),
      maxCount := TryParseInt(e, "MaxCount", Int32Max),
      allowReferenceLinks := TryParseBool(e, "AllowReferenceLinks", true),
      allowCircularLinks := TryParseBool(e, "AllowCircularLinks", false),
      flattenData := TryParseBool(e, "FlattenData", false),
      nodeStoreName := Attribute(e, "NodeStoreName").GetOr("Nodes"))
  }

  /** The Background attribute, when present, replaces the background colour. */
  function WithBackground(g: GraphDef, e: Element): (r: Result<GraphDef, string>)
    ensures r.Success? ==> r.value.childDefs == g.childDefs
  {
    match Attribute(e, "Background")
    case None => Success(g)
    case Some(v) =>
      match ParseBackground(v)
      case Failure(m) => Failure(m)
      case Success(c) => Success(g.(background := Some(c)))
  }

  /** The definition after Parse, or the failure of a short Background. */
  function Parsed(d: GraphDef, e: Element, parseChild: Element -> ChildDef): (r: Result<GraphDef, string>)
  {
    var cs := ChildDefElements(Elements(e.nodes));
    match WithBackground(WithFields(d, e), e)
    case Failure(m) => Failure(m)
    case Success(g) => Success(g.(childDefs := d.childDefs + seq(|cs|, i requires 0 <= i < |cs| => parseChild(cs[i]))))
  }

  /** Parse: the fields in order, then one child definition per child element. */
  method Parse(d: GraphDef, e: Element, parseChild: Element -> ChildDef) returns (r: Result<GraphDef, string>)
    ensures r == Parsed(d, e, parseChild)
  {
    var g := WithFields(d, e);
    var backgroundCol := Attribute(e, "Background");
    if backgroundCol.Some? {
      var split := Split(backgroundCol.value, ',');
      if |split| < 4 {
        return Failure("IndexOutOfRangeException");
      }
      g := g.(background := Some(Colour(ByteOrZero(split[3]), ByteOrZero(split[0]), ByteOrZero(split[1]), ByteOrZero(split[2]))));
    }
    assert WithBackground(WithFields(d, e), e) == Success(g);
    var cs := ChildDefElements(Elements(e.nodes));
    var defs := ParseChildDefs(cs, parseChild);
    r := Success(g.(childDefs := d.childDefs + defs));
  }

  /** The loop appending one parsed child definition per child element. */
  method ParseChildDefs(cs: seq<Element>, parseChild: Element -> ChildDef) returns (defs: seq<ChildDef>)
    ensures defs == seq(|cs|, i requires 0 <= i < |cs| => parseChild(cs[i]))
  {
    defs := [];
    for i := 0 to |cs|
      invariant defs == seq(i, j requires 0 <= j < i => parseChild(cs[j]))
    {
      defs := defs + [parseChild(cs[i])];
    }
  }

  /** With none of the attributes present, Parse leaves the documented defaults. */
  lemma ParseDefaults(d: GraphDef, e: Element, parseChild: Element -> ChildDef)
    requires forall n | n in ["ChildrenAreUnique", "MinCount", "MaxCount", "AllowReferenceLinks",
                              "AllowCircularLinks", "FlattenData", "NodeStoreName", "Background"] :: n !in e.attrs
    ensures Parsed(d, e, parseChild).Success?
    ensures var g := Parsed(d, e, parseChild).value;
      && !g.childrenAreUnique && g.minCount == 0 && g.maxCount == 0x7FFF_FFFF
      && g.allowReferenceLinks && !g.allowCircularLinks && !g.flattenData
      && g.nodeStoreName == "Nodes" && g.background == d.background
  {
    assert "Background" !in e.attrs;
    assert "MinCount" !in e.attrs && "MaxCount" !in e.attrs && "NodeStoreName" !in e.attrs;
    assert "ChildrenAreUnique" !in e.attrs && "AllowReferenceLinks" !in e.attrs;
    assert "AllowCircularLinks" !in e.attrs && "FlattenData" !in e.attrs;
  }

  /** Four bytes written as "R,G,B,A" parse back into that colour. */
  lemma BackgroundRoundTrip(r: nat, g: nat, b: nat, a: nat)
    requires r <= 255 && g <= 255 && b <= 255 && a <= 255
    ensures ParseBackground(Join(",", [IntToString(r), IntToString(g), IntToString(b), IntToString(a)]))
         == Success(Colour(a, r, g, b))
  {
    var parts := [IntToString(r), IntToString(g), IntToString(b), IntToString(a)];
    assert Split(Join(",", parts), ',') == parts by {
      forall k | 0 <= k < |parts|
        ensures !Contains(parts[k], ",")
      {
        DigitStringsHaveNoComma(if k == 0 then r else if k == 1 then g else if k == 2 then b else a);
      }
      SplitJoin(parts, ",");
    }
    ByteRoundTrip(r);
    ByteRoundTrip(g);
    ByteRoundTrip(b);
    ByteRoundTrip(a);
  }

  lemma ByteRoundTrip(n: nat)
    requires n <= 255
    ensures ByteOrZero(IntToString(n)) == n
  {
    ParseIntToString(n);
  }

  lemma DigitStringsHaveNoComma(n: nat)
    ensures !Contains(IntToString(n), ",")
  {
    var t := IntToString(n);
    forall j | 0 <= j <= |t|
      ensures !OccursAt(t, ",", j)
    {
      if j + 1 <= |t| {
        assert t[j..j + 1][0] == t[j];
        assert IsDigit(t[j]);
      }
    }
  }

  // ---------------------------------------------------------------------------
  // Items

  /** A child of a graph collection item: a comment, or an item of the child definition at an index. */
  datatype GChild = CommentChild(text: string) | LoadedChild(def: nat, el: Element) | CreatedChild(def: nat)

  /** The number of children that are not comments. */
  function ElementCount(cs: seq<GChild>): (r: nat)
    ensures r <= |cs|
  {
    if |cs| == 0 then 0 else ElementCount(cs[..|cs| - 1]) + (if cs[|cs| - 1].CommentChild? then 0 else 1)
  }

  lemma ElementCountAppend(cs: seq<GChild>, ds: seq<GChild>)
    ensures ElementCount(cs + ds) == ElementCount(cs) + ElementCount(ds)
    decreases |ds|
  {
    if |ds| > 0 {
      assert (cs + ds)[..|cs + ds| - 1] == cs + ds[..|ds| - 1];
      ElementCountAppend(cs, ds[..|ds| - 1]);
    } else {
      assert cs + ds == cs;
    }
  }

  /** The default children CreateData makes. */
  function CreatedChildren(d: GraphDef): (r: seq<GChild>)
    ensures |d.childDefs| != 1 ==> r == []
    ensures |d.childDefs| == 1 ==> |r| == (if d.minCount < 0 then 0 else d.minCount)
    ensures forall i | 0 <= i < |r| :: r[i] == CreatedChild(0)
  {
    if |d.childDefs| == 1 && d.minCount > 0 then seq(d.minCount, _ => CreatedChild(0)) else []
  }

  /** CreateData: MinCount default children of the only child definition, then one default per attribute. */
  method CreateData(d: GraphDef) returns (children: seq<GChild>, attributes: seq<D.PrimData>)
    ensures children == CreatedChildren(d)
    ensures |attributes| == |d.attributes|
    ensures forall i | 0 <= i < |d.attributes| :: attributes[i] == D.Created(d.attributes[i])
  {
    children := [];
    if |d.childDefs| == 1 {
      var i := 0;
      while i < d.minCount
        invariant 0 <= i && (d.minCount > 0 ==> i <= d.minCount) && (d.minCount <= 0 ==> i == 0)
        invariant |children| == i && forall j | 0 <= j < i :: children[j] == CreatedChild(0)
      {
        children := children + [CreatedChild(0)];
        i := i + 1;
      }
      if d.minCount > 0 {
        assert |children| == |CreatedChildren(d)|;
        assert forall j | 0 <= j < |children| :: children[j] == CreatedChildren(d)[j];
        assert children == CreatedChildren(d);
      } else {
        assert CreatedChildren(d) == [];
      }
    }
    attributes := [];
    for i := 0 to |d.attributes|
      invariant |attributes| == i
      invariant forall j | 0 <= j < i :: attributes[j] == D.Created(d.attributes[j])
    {
      var attItem := D.CreateData(d.attributes[i]);
      attributes := attributes + [attItem];
    }
  }

  // ---------------------------------------------------------------------------
  // LoadData

  /** FirstOrDefault over the child definitions by name. */
  function FirstNamed(defs: seq<ChildDef>, n: string): (r: Option<nat>)
    ensures r.Some? ==>
      r.value < |defs| && defs[r.value].name == Some(n) && forall j | 0 <= j < r.value :: defs[j].name != Some(n)
    ensures r.None? ==> forall j | 0 <= j < |defs| :: defs[j].name != Some(n)
  {
    if |defs| == 0 then None
    else if defs[0].name == Some(n) then Some(0)
    else match FirstNamed(defs[1..], n)
      case None => None
      case Some(i) => Some(i + 1)
  }

  /** The loop state: children so far, and whether the loop has broken off. */
  datatype Scanned = Scanned(children: seq<GChild>, stopped: bool)

  /**
   * The break test: as written, the child count equals MaxCount; corrected,
   * the non-comment count reaches a positive MaxCount (a MaxCount below one
   * never breaks the loop, as it never does as written).
   */
  predicate Stops(cs: seq<GChild>, max: int, asWritten: bool) {
    if asWritten then |cs| == max else max >= 1 && ElementCount(cs) >= max
  }

  /** The comment child added for a comment node right before the element at `k`. */
  function PrecedingComment(ns: seq<Node>, k: nat): seq<GChild>
    requires k < |ns|
  {
    if k > 0 && ns[k - 1].CommentNode? then [CommentChild(ns[k - 1].comment)] else []
  }

  /** The loop over the element children after handling the nodes before `k`. */
  function Scan(ns: seq<Node>, defs: seq<ChildDef>, max: int, k: nat, asWritten: bool): Result<Scanned, string>
    requires k <= |ns|
  {
    if k == 0 then Success(Scanned([], false))
    else match Scan(ns, defs, max, k - 1, asWritten)
      case Failure(m) => Failure(m)
      case Success(s) =>
        if s.stopped || !ns[k - 1].ElementNode? then Success(s)
        else match FirstNamed(defs, ns[k - 1].e.name)
          case None => Failure("NullReferenceException")
          case Some(i) =>
            var cs := s.children + PrecedingComment(ns, k - 1) + [LoadedChild(i, ns[k - 1].e)];
            Success(Scanned(cs, Stops(cs, max, asWritten)))
  }

  /** One more node of the loop, from a state where it has neither failed nor broken off. */
  lemma ScanStep(ns: seq<Node>, defs: seq<ChildDef>, max: int, k: nat, asWritten: bool)
    requires k < |ns| && Scan(ns, defs, max, k, asWritten).Success? && !Scan(ns, defs, max, k, asWritten).value.stopped
    ensures var s := Scan(ns, defs, max, k, asWritten).value;
      Scan(ns, defs, max, k + 1, asWritten) ==
        if !ns[k].ElementNode? then Success(s)
        else match FirstNamed(defs, ns[k].e.name)
          case None => Failure("NullReferenceException")
          case Some(i) =>
            var cs := s.children + PrecedingComment(ns, k) + [LoadedChild(i, ns[k].e)];
            Success(Scanned(cs, Stops(cs, max, asWritten)))
  {
  }

  /** The comment child for a comment that is the element's last node. */
  function TrailingComment(ns: seq<Node>): seq<GChild> {
    if |ns| > 0 && ns[|ns| - 1].CommentNode? then [CommentChild(ns[|ns| - 1].comment)] else []
  }

  /** The children LoadData reads. */
  function LoadedChildren(ns: seq<Node>, defs: seq<ChildDef>, max: int, asWritten: bool): Result<seq<GChild>, string> {
    match Scan(ns, defs, max, |ns|, asWritten)
    case Failure(m) => Failure(m)
    case Success(s) => Success(s.children + TrailingComment(ns))
  }

  /**
   * As written, a comment before an element is counted with it, so the count
   * can step over MaxCount: with MaxCount 1 a comment and two elements all load.
   */
  lemma CommentSkipsMaxCount()
    ensures var ns := [CommentNode("c"), ElementNode(Leaf("a", "")), ElementNode(Leaf("b", ""))];
      var defs := [ChildDef(Some("a")), ChildDef(Some("b"))];
      && LoadedChildren(ns, defs, 1, true) == Success([CommentChild("c"), LoadedChild(0, Leaf("a", "")), LoadedChild(1, Leaf("b", ""))])
      && ElementCount(LoadedChildren(ns, defs, 1, true).value) == 2
  {
    var ns := [CommentNode("c"), ElementNode(Leaf("a", "")), ElementNode(Leaf("b", ""))];
    var defs := [ChildDef(Some("a")), ChildDef(Some("b"))];
    assert FirstNamed(defs, "a") == Some(0);
    assert FirstNamed(defs, "b") == Some(1);
    assert ns[1].e.name == "a" && ns[2].e.name == "b";
    assert PrecedingComment(ns, 1) == [CommentChild("c")];
    assert PrecedingComment(ns, 2) == [];
    assert Scan(ns, defs, 1, 1, true) == Success(Scanned([], false));
    var two := [CommentChild("c"), LoadedChild(0, Leaf("a", ""))];
    assert [] + PrecedingComment(ns, 1) + [LoadedChild(0, Leaf("a", ""))] == two;
    assert Scan(ns, defs, 1, 2, true) == Success(Scanned(two, false));
    var three := two + [LoadedChild(1, Leaf("b", ""))];
    assert two + PrecedingComment(ns, 2) + [LoadedChild(1, Leaf("b", ""))] == three;
    assert Scan(ns, defs, 1, 3, true) == Success(Scanned(three, false));
    assert three[..2] == two && two[..1] == [CommentChild("c")] && [CommentChild("c")][..0] == [];
    assert ElementCount(three[..2]) == 1;
    assert TrailingComment(ns) == [] && three + [] == three;
    assert LoadedChildren(ns, defs, 1, true) == Success(three);
    assert ElementCount(three) == 2;
    assert three == [CommentChild("c"), LoadedChild(0, Leaf("a", "")), LoadedChild(1, Leaf("b", ""))];
  }

  /** One step of the loop over nodes that are all elements: the child is appended with no comment before it. */
  lemma ScanElementStep(ns: seq<Node>, defs: seq<ChildDef>, max: int, k: nat, i: nat)
    requires 0 < k <= |ns| && forall j | 0 <= j < |ns| :: ns[j].ElementNode?
    requires Scan(ns, defs, max, k - 1, true).Success? && !Scan(ns, defs, max, k - 1, true).value.stopped
    requires FirstNamed(defs, ns[k - 1].e.name) == Some(i)
    ensures var cs := Scan(ns, defs, max, k - 1, true).value.children + [LoadedChild(i, ns[k - 1].e)];
      Scan(ns, defs, max, k, true) == Success(Scanned(cs, |cs| == max))
  {
    var c := LoadedChild(i, ns[k - 1].e);
    var prev := Scan(ns, defs, max, k - 1, true).value.children;
    assert PrecedingComment(ns, k - 1) == [] by {
      if k - 1 > 0 {
        assert ns[k - 2].ElementNode?;
      }
    }
    assert prev + PrecedingComment(ns, k - 1) + [c] == prev + [c];
  }

  /** As written, MaxCount does bound the children when there are no comments. */
  lemma {:induction false} AsWrittenBoundWithoutComments(ns: seq<Node>, defs: seq<ChildDef>, max: int, k: nat)
    requires k <= |ns| && max >= 1 && forall j | 0 <= j < |ns| :: ns[j].ElementNode?
    requires Scan(ns, defs, max, k, true).Success?
    ensures var s := Scan(ns, defs, max, k, true).value;
      |s.children| == ElementCount(s.children) <= max && (!s.stopped ==> |s.children| < max)
  {
    if k > 0 {
      AsWrittenBoundWithoutComments(ns, defs, max, k - 1);
      var s := Scan(ns, defs, max, k - 1, true).value;
      if !s.stopped {
        assert ns[k - 1].ElementNode?;
        var i := FirstNamed(defs, ns[k - 1].e.name).value;
        var c := LoadedChild(i, ns[k - 1].e);
        ScanElementStep(ns, defs, max, k, i);
        ElementCountAppend(s.children, [c]);
        assert ElementCount([c]) == 1;
      }
    }
  }

  /** Corrected, the loaded non-comment children never exceed a positive MaxCount. */
  lemma {:induction false} ScanBound(ns: seq<Node>, defs: seq<ChildDef>, max: int, k: nat)
    requires k <= |ns| && max >= 1
    requires Scan(ns, defs, max, k, false).Success?
    ensures var s := Scan(ns, defs, max, k, false).value;
      ElementCount(s.children) <= max && (!s.stopped ==> ElementCount(s.children) < max)
  {
    if k > 0 {
      ScanBound(ns, defs, max, k - 1);
      var s := Scan(ns, defs, max, k - 1, false).value;
      if !s.stopped && ns[k - 1].ElementNode? {
        var i := FirstNamed(defs, ns[k - 1].e.name).value;
        var pc := PrecedingComment(ns, k - 1);
        ElementCountAppend(s.children, pc);
        ElementCountAppend(s.children + pc, [LoadedChild(i, ns[k - 1].e)]);
        assert ElementCount(pc) == 0;
        assert ElementCount([LoadedChild(i, ns[k - 1].e)]) == 1;
      }
    }
  }

  /** With MaxCount below one the loop never breaks off, and the corrected loop loads what the loop as written does. */
  lemma {:induction false} ScanNonPositiveMax(ns: seq<Node>, defs: seq<ChildDef>, max: int, k: nat)
    requires k <= |ns| && max < 1
    ensures Scan(ns, defs, max, k, false) == Scan(ns, defs, max, k, true)
    ensures Scan(ns, defs, max, k, false).Success? ==> !Scan(ns, defs, max, k, false).value.stopped
  {
    if k > 0 {
      ScanNonPositiveMax(ns, defs, max, k - 1);
      var p := Scan(ns, defs, max, k - 1, false);
      if p.Success? && ns[k - 1].ElementNode? && FirstNamed(defs, ns[k - 1].e.name).Some? {
        var i := FirstNamed(defs, ns[k - 1].e.name).value;
        var cs := p.value.children + PrecedingComment(ns, k - 1) + [LoadedChild(i, ns[k - 1].e)];
        assert |cs| >= 1;
        assert !Stops(cs, max, true) && !Stops(cs, max, false);
      }
    }
  }

  lemma LoadedChildrenBound(ns: seq<Node>, defs: seq<ChildDef>, max: int)
    requires max >= 1 && LoadedChildren(ns, defs, max, false).Success?
    ensures ElementCount(LoadedChildren(ns, defs, max, false).value) <= max
  {
    ScanBound(ns, defs, max, |ns|);
    var s := Scan(ns, defs, max, |ns|, false).value;
    ElementCountAppend(s.children, TrailingComment(ns));
    assert ElementCount(TrailingComment(ns)) == 0;
  }

  /** The elements behind the loaded children, in order. */
  function LoadedElements(cs: seq<GChild>): seq<Element> {
    if |cs| == 0 then []
    else LoadedElements(cs[..|cs| - 1]) + (if cs[|cs| - 1].LoadedChild? then [cs[|cs| - 1].el] else [])
  }

  lemma LoadedElementsAppend(cs: seq<GChild>, ds: seq<GChild>)
    ensures LoadedElements(cs + ds) == LoadedElements(cs) + LoadedElements(ds)
    decreases |ds|
  {
    if |ds| > 0 {
      assert (cs + ds)[..|cs + ds| - 1] == cs + ds[..|ds| - 1];
      LoadedElementsAppend(cs, ds[..|ds| - 1]);
    } else {
      assert cs + ds == cs;
    }
  }

  /** Until the loop breaks off, the loaded children hold every child element so far, in order. */
  lemma {:induction false} ScanLoadsInOrder(ns: seq<Node>, defs: seq<ChildDef>, max: int, k: nat, asWritten: bool)
    requires k <= |ns| && Scan(ns, defs, max, k, asWritten).Success?
    requires !Scan(ns, defs, max, k, asWritten).value.stopped
    ensures LoadedElements(Scan(ns, defs, max, k, asWritten).value.children) == Elements(ns[..k])
  {
    if k > 0 {
      ScanWasRunning(ns, defs, max, k, asWritten);
      ScanLoadsInOrder(ns, defs, max, k - 1, asWritten);
      ScanLoadsOne(ns, defs, max, k, asWritten);
      ElementsOfLonger(ns, k);
    }
  }

  lemma ElementsOfLonger(ns: seq<Node>, k: nat)
    requires 0 < k <= |ns|
    ensures Elements(ns[..k]) == Elements(ns[..k - 1]) + (if ns[k - 1].ElementNode? then [ns[k - 1].e] else [])
  {
    assert ns[..k] == ns[..k - 1] + [ns[k - 1]];
    ElementsSnoc(ns[..k - 1], ns[k - 1]);
  }

  /** A loop still running at `k` was running at k - 1. */
  lemma ScanWasRunning(ns: seq<Node>, defs: seq<ChildDef>, max: int, k: nat, asWritten: bool)
    requires 0 < k <= |ns| && Scan(ns, defs, max, k, asWritten).Success? && !Scan(ns, defs, max, k, asWritten).value.stopped
    ensures Scan(ns, defs, max, k - 1, asWritten).Success? && !Scan(ns, defs, max, k - 1, asWritten).value.stopped
  {
  }

  /** One node adds its element, if it is one, to the loaded elements. */
  lemma ScanLoadsOne(ns: seq<Node>, defs: seq<ChildDef>, max: int, k: nat, asWritten: bool)
    requires 0 < k <= |ns| && Scan(ns, defs, max, k, asWritten).Success?
    requires Scan(ns, defs, max, k - 1, asWritten).Success? && !Scan(ns, defs, max, k - 1, asWritten).value.stopped
    ensures var n := ns[k - 1];
      LoadedElements(Scan(ns, defs, max, k, asWritten).value.children) ==
        LoadedElements(Scan(ns, defs, max, k - 1, asWritten).value.children) + (if n.ElementNode? then [n.e] else [])
  {
    var s := Scan(ns, defs, max, k - 1, asWritten).value;
    var t := Scan(ns, defs, max, k, asWritten).value;
    var n := ns[k - 1];
    if n.ElementNode? {
      var fi := FirstNamed(defs, n.e.name);
      var pc := PrecedingComment(ns, k - 1);
      assert fi.Some? && t.children == s.children + pc + [LoadedChild(fi.value, n.e)] by {
        ScanStep(ns, defs, max, k - 1, asWritten);
      }
      LoadedAfterComment(s.children, pc, LoadedChild(fi.value, n.e));
    } else {
      assert t == s by {
        ScanStep(ns, defs, max, k - 1, asWritten);
      }
    }
  }

  /** Comments add no element, a loaded child adds its own. */
  lemma LoadedAfterComment(cs: seq<GChild>, pc: seq<GChild>, c: GChild)
    requires |pc| <= 1 && (|pc| == 1 ==> pc[0].CommentChild?) && c.LoadedChild?
    ensures LoadedElements(cs + pc + [c]) == LoadedElements(cs) + [c.el]
  {
    LoadedElementsAppend(cs, pc);
    LoadedElementsAppend(cs + pc, [c]);
    if |pc| == 1 {
      assert pc[..0] == [];
    }
    assert LoadedElements(pc) == [];
    assert [c][..0] == [];
  }

  /** Once the loop has failed, later nodes change nothing. */
  lemma {:induction false} ScanStaysFailed(ns: seq<Node>, defs: seq<ChildDef>, max: int, k: nat, m: nat, asWritten: bool)
    requires k <= m <= |ns| && Scan(ns, defs, max, k, asWritten).Failure?
    ensures Scan(ns, defs, max, m, asWritten) == Scan(ns, defs, max, k, asWritten)
    decreases m
  {
    if m > k {
      ScanStaysFailed(ns, defs, max, k, m - 1, asWritten);
    }
  }

  /** Once the loop has broken off, later nodes change nothing. */
  lemma {:induction false} ScanStaysStopped(ns: seq<Node>, defs: seq<ChildDef>, max: int, k: nat, m: nat, asWritten: bool)
    requires k <= m <= |ns| && Scan(ns, defs, max, k, asWritten).Success? && Scan(ns, defs, max, k, asWritten).value.stopped
    ensures Scan(ns, defs, max, m, asWritten) == Scan(ns, defs, max, k, asWritten)
    decreases m
  {
    if m > k {
      ScanStaysStopped(ns, defs, max, k, m - 1, asWritten);
    }
  }

  /** A graph collection item as LoadData builds it. */
  datatype GraphItem = GraphItem(x: int, y: int, guid: Option<string>, comment: Option<string>,
                                 commentData: Option<string>, children: seq<GChild>, attributes: seq<D.PrimData>)

  /** Every declared attribute has a name, at every depth. */
  predicate AttributesNamed(atts: seq<D.PrimDef>) {
    forall i | 0 <= i < |atts| :: atts[i].name.Some? && D.AttributesNamed(atts[i])
  }

  /**
   * LoadData (with the corrected break test): the position, GUID and comments
   * from attributes, the children from the element children, then each
   * declared attribute loaded when present and created otherwise.
   */
  method LoadData(d: GraphDef, e: Element) returns (r: Result<GraphItem, string>)
    requires AttributesNamed(d.attributes)
    ensures LoadedChildren(e.nodes, d.childDefs, d.maxCount, false).Failure? ==>
      r == Failure(LoadedChildren(e.nodes, d.childDefs, d.maxCount, false).error)
    ensures LoadedChildren(e.nodes, d.childDefs, d.maxCount, false).Success? ==>
      && r.Success?
      && r.value.children == LoadedChildren(e.nodes, d.childDefs, d.maxCount, false).value
      && r.value.x == TryParseFloat(e, MetaX, 0) && r.value.y == TryParseFloat(e, MetaY, 0)
      && r.value.guid == Attribute(e, "GUID") && r.value.comment == Attribute(e, MetaComment)
      && r.value.commentData == Attribute(e, MetaCommentData)
      && |r.value.attributes| == |d.attributes|
      && forall i | 0 <= i < |d.attributes| :: r.value.attributes[i] == D.LoadedAttribute(e, d.attributes[i])
  {
    var children := LoadChildren(e.nodes, d.childDefs, d.maxCount);
    if children.Failure? {
      return Failure(children.error);
    }
    var attributes := LoadAttributes(e, d.attributes);
    r := Success(GraphItem(TryParseFloat(e, MetaX, 0), TryParseFloat(e, MetaY, 0), Attribute(e, "GUID"),
                           Attribute(e, MetaComment), Attribute(e, MetaCommentData), children.value, attributes));
  }

  /**
   * The loop over the element children: the comment right before an element
   * is loaded first, the element by the first child definition of its name,
   * and the loop breaks off once MaxCount non-comment children are loaded; a
   * trailing comment is loaded last.
   */
  method LoadChildren(ns: seq<Node>, defs: seq<ChildDef>, max: int) returns (r: Result<seq<GChild>, string>)
    ensures r == LoadedChildren(ns, defs, max, false)
  {
    var children: seq<GChild> := [];
    var k := 0;
    while k < |ns|
      invariant 0 <= k <= |ns|
      invariant Scan(ns, defs, max, k, false) == Success(Scanned(children, false))
    {
      if ns[k].ElementNode? {
        ghost var before := children;
        var el := ns[k].e;
        if k > 0 && ns[k - 1].CommentNode? {
          children := children + [CommentChild(ns[k - 1].comment)];
        }
        var cdef := FirstNamed(defs, el.name);
        if cdef.None? {
          ScanStepFails(ns, defs, max, k, false);
          ScanStaysFailed(ns, defs, max, k + 1, |ns|, false);
          return Failure("NullReferenceException");
        }
        children := children + [LoadedChild(cdef.value, el)];
        assert children == before + PrecedingComment(ns, k) + [LoadedChild(cdef.value, el)];
        ScanStepLoads(ns, defs, max, k, false, cdef.value);
        if max >= 1 && ElementCount(children) >= max {
          ScanStaysStopped(ns, defs, max, k + 1, |ns|, false);
          break;
        }
      } else {
        ScanStepSkips(ns, defs, max, k, false);
      }
      k := k + 1;
    }
    assert Scan(ns, defs, max, |ns|, false) == Success(Scanned(children, Scan(ns, defs, max, |ns|, false).value.stopped));
    ghost var scanned := children;
    if |ns| > 0 && ns[|ns| - 1].CommentNode? {
      children := children + [CommentChild(ns[|ns| - 1].comment)];
    }
    assert children == scanned + TrailingComment(ns);
    r := Success(children);
  }

  /** A node that is not an element leaves the loop as it was. */
  lemma ScanStepSkips(ns: seq<Node>, defs: seq<ChildDef>, max: int, k: nat, asWritten: bool)
    requires k < |ns| && !ns[k].ElementNode?
    ensures Scan(ns, defs, max, k + 1, asWritten) == Scan(ns, defs, max, k, asWritten)
  {
  }

  /** An element no child definition names fails the running loop. */
  lemma ScanStepFails(ns: seq<Node>, defs: seq<ChildDef>, max: int, k: nat, asWritten: bool)
    requires k < |ns| && ns[k].ElementNode? && FirstNamed(defs, ns[k].e.name).None?
    requires Scan(ns, defs, max, k, asWritten).Success? && !Scan(ns, defs, max, k, asWritten).value.stopped
    ensures Scan(ns, defs, max, k + 1, asWritten) == Failure("NullReferenceException")
  {
  }

  /** An element of definition `i` is loaded after the comment before it, and the break test is applied. */
  lemma ScanStepLoads(ns: seq<Node>, defs: seq<ChildDef>, max: int, k: nat, asWritten: bool, i: nat)
    requires k < |ns| && ns[k].ElementNode? && FirstNamed(defs, ns[k].e.name) == Some(i)
    requires Scan(ns, defs, max, k, asWritten).Success? && !Scan(ns, defs, max, k, asWritten).value.stopped
    ensures var cs := Scan(ns, defs, max, k, asWritten).value.children + PrecedingComment(ns, k) + [LoadedChild(i, ns[k].e)];
      Scan(ns, defs, max, k + 1, asWritten) == Success(Scanned(cs, Stops(cs, max, asWritten)))
  {
  }

  /** The loop over the declared attributes: loaded when the element has them, created otherwise. */
  method LoadAttributes(e: Element, atts: seq<D.PrimDef>) returns (attributes: seq<D.PrimData>)
    requires AttributesNamed(atts)
    ensures |attributes| == |atts|
    ensures forall j | 0 <= j < |atts| :: attributes[j] == D.LoadedAttribute(e, atts[j])
  {
    attributes := [];
    for i := 0 to |atts|
      invariant |attributes| == i
      invariant forall j | 0 <= j < i :: attributes[j] == D.LoadedAttribute(e, atts[j])
    {
      var att := atts[i];
      var el := Attribute(e, att.name.value);
      var attItem;
      if el.Some? {
        attItem := D.LoadData(Leaf(att.name.value, el.value), att);
      } else {
        attItem := D.CreateData(att);
      }
      attributes := attributes + [attItem];
    }
  }

  /** A declared attribute the element lacks is loaded as its default. */
  lemma MissingAttributeCreated(e: Element, att: D.PrimDef)
    requires att.name.Some? && D.AttributesNamed(att) && Attribute(e, att.name.value).None?
    ensures D.LoadedAttribute(e, att) == D.Created(att)
  {
  }

  // ---------------------------------------------------------------------------
  // DoSaveData

  /**
   * A child as saving sees it: whether it is an unchosen reference, and how
   * its SaveData ends: the nodes it appends, or the exception it throws.
   */
  datatype SaveChild = SaveChild(isReference: bool, chosen: bool, output: Result<seq<Node>, D.SaveError>)

  /** What DoSaveData reads from a graph collection item. */
  datatype NodeToSave = NodeToSave(x: int, y: int, guid: Option<string>, linkParents: nat,
                                   children: seq<SaveChild>, attributes: seq<D.PrimData>)

  predicate Omitted(c: SaveChild) {
    c.isReference && !c.chosen
  }

  /**
   * The children's output, in order, skipping references with nothing chosen;
   * the first exception from a child's SaveData ends the loop.
   */
  function ChildOutput(cs: seq<SaveChild>): (r: Result<seq<Node>, D.SaveError>)
    ensures r.Failure? ==> exists k | 0 <= k < |cs| :: !Omitted(cs[k]) && cs[k].output == Failure(r.error)
    ensures (forall k | 0 <= k < |cs| :: Omitted(cs[k]) || cs[k].output.Success?) ==> r.Success?
    decreases |cs|
  {
    if |cs| == 0 then Success([])
    else
      var last := cs[|cs| - 1];
      match ChildOutput(cs[..|cs| - 1])
      case Failure(e) => Failure(e)
      case Success(out) =>
        if Omitted(last) then Success(out)
        else match last.output
          case Failure(e) => Failure(e)
          case Success(o) => Success(out + o)
  }

  /**
   * The root element before the children, or the exception: `new XElement(Name)`
   * throws for a definition without a Name, and the GUID is written, after the
   * duplicate check, when there are several link parents or the document
   * model (not this definition) flattens its data.
   */
  function SavedRoot(d: GraphDef, n: NodeToSave, otherGuids: seq<Option<string>>, flattenData: bool): (r: Result<Element, D.SaveError>)
    ensures r.Success? ==> d.name.Some? && r.value.name == d.name.value && r.value.nodes == []
  {
    if d.name.None? then Failure(D.Raised("ArgumentNullException"))
    else
      var root := Element(d.name.value, "", map[MetaX := IntToString(n.x), MetaY := IntToString(n.y)], []);
      if n.linkParents > 1 || flattenData then
        if n.guid in otherGuids then Failure(D.Raised("Duplicate GUID '" + n.guid.GetOr("") + "' in items!"))
        else if n.guid.None? then Failure(D.Raised("ArgumentNullException"))
        else Success(root.(attrs := root.attrs["GUID" := n.guid.value]))
      else Success(root)
  }

  /** In JSON or YAML output, a single element child is marked as an array. */
  function MarkArray(es: seq<Element>): seq<Element> {
    if |es| == 1 then [SetAttributeValue(SetAttributeValue(es[0], JsonXmlns, JsonNamespace), JsonArray, "true")] else es
  }

  /** The element children, each renamed to the node's own name. */
  function Renamed(es: seq<Element>, name: string): (r: seq<Node>)
    ensures |r| == |es|
    ensures forall i | 0 <= i < |es| :: r[i] == ElementNode(es[i].(name := name))
  {
    seq(|es|, i requires 0 <= i < |es| => ElementNode(es[i].(name := name)))
  }

  /**
   * The parent after DoSaveData. `flattenData` is the document model's
   * FlattenData and `jsonOrYaml` its IsJson || IsYaml. The attribute loop runs
   * on the root in both output forms, so a written attribute without a Name
   * throws in both.
   */
  function Saved(d: GraphDef, n: NodeToSave, otherGuids: seq<Option<string>>, flattenData: bool, jsonOrYaml: bool,
                 parent: Element): (r: Result<Element, D.SaveError>)
    ensures r.Success? ==> d.name.Some? && ChildOutput(n.children).Success? && !D.NamelessWrite(n.attributes)
  {
    match SavedRoot(d, n, otherGuids, flattenData)
    case Failure(m) => Failure(m)
    case Success(root0) =>
      match ChildOutput(n.children)
      case Failure(e) => Failure(e)
      case Success(content) =>
        var root := root0.(nodes := content);
        if D.NamelessWrite(n.attributes) then Failure(D.Raised("ArgumentNullException"))
        else if jsonOrYaml then
          Success(parent.(nodes := parent.nodes + Renamed(MarkArray(Elements(root.nodes)), root.name)))
        else
          Success(AddElement(parent, D.WithAttributes(root, n.attributes)))
  }

  /**
   * DoSaveData. The root is added to the parent before its attributes are set,
   * and being the same object it carries them; in JSON or YAML output only the
   * root's children reach the parent, so the attributes set on the root are lost.
   */
  method DoSaveData(d: GraphDef, n: NodeToSave, otherGuids: seq<Option<string>>, flattenData: bool, jsonOrYaml: bool,
                    parent: Element) returns (r: Result<Element, D.SaveError>)
    ensures r == Saved(d, n, otherGuids, flattenData, jsonOrYaml, parent)
  {
    if d.name.None? {
      return Failure(D.Raised("ArgumentNullException"));
    }
    var root := Element(d.name.value, "", map[], []);
    root := root.(attrs := root.attrs[MetaX := IntToString(n.x)]);
    root := root.(attrs := root.attrs[MetaY := IntToString(n.y)]);
    if n.linkParents > 1 || flattenData {
      if n.guid in otherGuids {
        return Failure(D.Raised("Duplicate GUID '" + n.guid.GetOr("") + "' in items!"));
      }
      if n.guid.None? {
        return Failure(D.Raised("ArgumentNullException"));
      }
      root := root.(attrs := root.attrs["GUID" := n.guid.value]);
    }
    assert SavedRoot(d, n, otherGuids, flattenData) == Success(root);
    var content := SaveChildren(n.children);
    if content.Failure? {
      return Failure(content.error);
    }
    root := root.(nodes := content.value);
    var out := parent;
    if jsonOrYaml {
      out := MoveElements(parent, MarkArray(Elements(root.nodes)), root.name);
    }
    var attributed := SaveAttributes(root, n.attributes);
    if attributed.Failure? {
      return Failure(attributed.error);
    }
    if jsonOrYaml {
      r := Success(out);
    } else {
      r := Success(AddElement(parent, attributed.value));
    }
  }

  /** The loop over the children, skipping references with nothing chosen and stopping at the first exception. */
  method SaveChildren(cs: seq<SaveChild>) returns (out: Result<seq<Node>, D.SaveError>)
    ensures out == ChildOutput(cs)
  {
    var nodes: seq<Node> := [];
    for i := 0 to |cs|
      invariant ChildOutput(cs[..i]) == Success(nodes)
    {
      var child := cs[i];
      assert cs[..i + 1][..i] == cs[..i];
      if child.isReference && !child.chosen {
        continue;
      }
      if child.output.Failure? {
        ChildOutputStaysFailed(cs, i + 1);
        return Failure(child.output.error);
      }
      nodes := nodes + child.output.value;
    }
    assert cs[..|cs|] == cs;
    out := Success(nodes);
  }

  /** Once a child's SaveData has thrown, the children after it change nothing. */
  lemma {:induction false} ChildOutputStaysFailed(cs: seq<SaveChild>, k: nat)
    requires k <= |cs| && ChildOutput(cs[..k]).Failure?
    ensures ChildOutput(cs) == ChildOutput(cs[..k])
    decreases |cs| - k
  {
    if k == |cs| {
      assert cs[..k] == cs;
    } else {
      assert cs[..|cs| - 1][..k] == cs[..k];
      ChildOutputStaysFailed(cs[..|cs| - 1], k);
    }
  }

  /** The loop renaming each element to the node's name and adding it to the parent. */
  method MoveElements(parent: Element, els: seq<Element>, name: string) returns (r: Element)
    ensures r == parent.(nodes := parent.nodes + Renamed(els, name))
  {
    var out := parent.nodes;
    for i := 0 to |els|
      invariant out == parent.nodes + Renamed(els[..i], name)
    {
      out := out + [ElementNode(els[i].(name := name))];
    }
    assert els[..|els|] == els;
    r := parent.(nodes := out);
  }

  /** The attribute loop: the rule of Definitions.ShouldWrite applied in order; a written attribute without a Name throws. */
  method SaveAttributes(root: Element, atts: seq<D.PrimData>) returns (r: Result<Element, D.SaveError>)
    ensures r.Failure? <==> D.NamelessWrite(atts)
    ensures r.Failure? ==> r.error == D.Raised("ArgumentNullException")
    ensures r.Success? ==> r.value == D.WithAttributes(root, atts)
  {
    var el := root;
    for i := 0 to |atts|
      invariant el == D.WithAttributes(root, atts[..i])
      invariant forall k | 0 <= k < i :: !(D.ShouldWrite(atts[k]) && atts[k].def.name.None?)
    {
      var att := atts[i];
      assert atts[..i + 1][..i] == atts[..i];
      if D.ShouldWrite(att) {
        if att.def.name.None? {
          return Failure(D.Raised("ArgumentNullException"));
        }
        el := D.SetOrRemove(el, att.def.name.value, D.WriteToString(att));
      }
    }
    assert atts[..|atts|] == atts;
    r := Success(el);
  }

  /**
   * Saving fails when the definition has no Name; otherwise, when the GUID
   * must be written and another registry node has the same one, or there is
   * none; otherwise when a child's SaveData throws. When it succeeds the GUID
   * is written exactly when there is more than one link parent or the
   * document model flattens its data.
   */
  lemma GuidRule(d: GraphDef, n: NodeToSave, otherGuids: seq<Option<string>>, flattenData: bool, parent: Element)
    requires forall i | 0 <= i < |n.attributes| :: n.attributes[i].def.name.Some? && n.attributes[i].def.name.value != "GUID"
    ensures var r := Saved(d, n, otherGuids, flattenData, false, parent);
      var written := n.linkParents > 1 || flattenData;
      && (r.Failure? <==> d.name.None? || (written && (n.guid in otherGuids || n.guid.None?)) || ChildOutput(n.children).Failure?)
      && (d.name.None? ==> r == Failure(D.Raised("ArgumentNullException")))
      && (d.name.Some? && written && n.guid in otherGuids ==> r == Failure(D.Raised("Duplicate GUID '" + n.guid.GetOr("") + "' in items!")))
      && (r.Success? ==>
            r.value.nodes[|r.value.nodes| - 1].ElementNode? && Attribute(r.value.nodes[|r.value.nodes| - 1].e, "GUID") == (if written then n.guid else None))
  {
    var r := Saved(d, n, otherGuids, flattenData, false, parent);
    assert !D.NamelessWrite(n.attributes);
    if r.Success? {
      var root := SavedRoot(d, n, otherGuids, flattenData).value.(nodes := ChildOutput(n.children).value);
      D.NotWrittenKeeps(root, n.attributes, "GUID");
    }
  }

  /** The saved node holds, in order, the output of every child but the references with nothing chosen. */
  lemma SavedChildrenOutput(d: GraphDef, n: NodeToSave, otherGuids: seq<Option<string>>, flattenData: bool, parent: Element)
    requires Saved(d, n, otherGuids, flattenData, false, parent).Success?
    ensures var ns := Saved(d, n, otherGuids, flattenData, false, parent).value.nodes;
      ns[..|ns| - 1] == parent.nodes && ns[|ns| - 1].ElementNode? && ns[|ns| - 1].e.nodes == ChildOutput(n.children).value
  {
    var ns := Saved(d, n, otherGuids, flattenData, false, parent).value.nodes;
    assert ns[..|ns| - 1] == parent.nodes;
  }

  /** A reference child with nothing chosen adds nothing; any other child adds its whole output. */
  lemma ChildOutputSnoc(cs: seq<SaveChild>, c: SaveChild)
    ensures ChildOutput(cs + [c]) ==
      match ChildOutput(cs)
      case Failure(e) => Failure(e)
      case Success(out) =>
        if c.isReference && !c.chosen then Success(out)
        else match c.output
          case Failure(e) => Failure(e)
          case Success(o) => Success(out + o)
  {
    assert (cs + [c])[..|cs|] == cs;
  }

  /**
   * A declared attribute is on the saved node exactly when it is named Name,
   * is not skip-if-default, or differs from its default.
   */
  lemma SavedAttributeRule(d: GraphDef, n: NodeToSave, otherGuids: seq<Option<string>>, flattenData: bool, parent: Element, i: int)
    requires Saved(d, n, otherGuids, flattenData, false, parent).Success?
    requires 0 <= i < |n.attributes|
    requires forall j | 0 <= j < |n.attributes| :: n.attributes[j].def.name.Some?
    requires forall j | 0 <= j < |n.attributes| && j != i :: n.attributes[j].def.name != n.attributes[i].def.name
    requires n.attributes[i].def.name.value !in {MetaX, MetaY, "GUID"}
    ensures var ns := Saved(d, n, otherGuids, flattenData, false, parent).value.nodes;
      ns[|ns| - 1].ElementNode?
      && Attribute(ns[|ns| - 1].e, n.attributes[i].def.name.value)
         == if D.ShouldWrite(n.attributes[i]) then D.WriteToString(n.attributes[i]) else None
  {
    var root := SavedRoot(d, n, otherGuids, flattenData).value.(nodes := ChildOutput(n.children).value);
    D.AttributeAfterLoop(root, n.attributes, i);
  }

  /** In JSON or YAML output the parent gets the node's element children renamed, and none of its attributes. */
  lemma JsonOutputShape(d: GraphDef, n: NodeToSave, otherGuids: seq<Option<string>>, flattenData: bool, parent: Element)
    requires Saved(d, n, otherGuids, flattenData, true, parent).Success?
    ensures d.name.Some? && ChildOutput(n.children).Success?
    ensures var es := Elements(ChildOutput(n.children).value);
      var ns := Saved(d, n, otherGuids, flattenData, true, parent).value.nodes;
      && |ns| == |parent.nodes| + |es|
      && ns[..|parent.nodes|] == parent.nodes
      && forall i | 0 <= i < |es| :: ns[|parent.nodes| + i].ElementNode? && ns[|parent.nodes| + i].e.name == d.name.value
           && ns[|parent.nodes| + i].e.nodes == es[i].nodes
  {
    var es := Elements(ChildOutput(n.children).value);
    var ns := Saved(d, n, otherGuids, flattenData, true, parent).value.nodes;
    var m := MarkArray(es);
    assert |m| == |es|;
    forall i | 0 <= i < |es|
      ensures ns[|parent.nodes| + i].ElementNode? && ns[|parent.nodes| + i].e.name == d.name.value
           && ns[|parent.nodes| + i].e.nodes == es[i].nodes
    {
      assert ns[|parent.nodes| + i] == ElementNode(m[i].(name := d.name.value));
    }
  }
}
