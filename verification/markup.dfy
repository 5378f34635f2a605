/**
 * The markup the definitions read and write: an element with a name, its text
 * (XElement.Value), an attribute map and an ordered list of child nodes, each
 * an element or a comment. Also the attribute readers with fallbacks that
 * DataDefinition offers its subclasses.
 */
module Markup {
  import opened Wrappers
  import opened Text

  datatype Node = ElementNode(e: Element) | CommentNode(comment: string)

  datatype Element = Element(name: string, text: string, attrs: map<string, string>, nodes: seq<Node>)

  /** new XElement(name, text) */
  function Leaf(name: string, text: string): Element {
    Element(name, text, map[], [])
  }

  /** element.Attribute(n)?.Value */
  function Attribute(e: Element, n: string): (r: Option<string>)
    ensures r.Some? <==> n in e.attrs
  {
    if n in e.attrs then Some(e.attrs[n]) else None
  }

  /** element.SetAttributeValue(n, v) */
  function SetAttributeValue(e: Element, n: string, v: string): (r: Element)
    ensures Attribute(r, n) == Some(v)
    ensures forall m | m != n :: Attribute(r, m) == Attribute(e, m)
    ensures r.name == e.name && r.text == e.text && r.nodes == e.nodes
  {
    e.(attrs := e.attrs[n := v])
  }

  /** parent.Add(child) */
  function AddElement(parent: Element, child: Element): (r: Element)
    ensures r.nodes == parent.nodes + [ElementNode(child)]
  {
    parent.(nodes := parent.nodes + [ElementNode(child)])
  }

  /** element.Elements(): the element children, in order. */
  function Elements(ns: seq<Node>): (r: seq<Element>)
    ensures |r| <= |ns|
  {
    if |ns| == 0 then []
    else (if ns[0].ElementNode? then [ns[0].e] else []) + Elements(ns[1..])
  }

  lemma {:induction false} ElementsSnoc(ns: seq<Node>, n: Node)
    ensures Elements(ns + [n]) == Elements(ns) + (if n.ElementNode? then [n.e] else [])
  {
    if |ns| == 0 {
      assert Elements([n]) == (if n.ElementNode? then [n.e] else []) + Elements([]);
    } else {
      var head := if ns[0].ElementNode? then [ns[0].e] else [];
      var last := if n.ElementNode? then [n.e] else [];
      assert (ns + [n])[0] == ns[0];
      assert (ns + [n])[1..] == ns[1..] + [n];
      calc {
        Elements(ns + [n]);
        head + Elements(ns[1..] + [n]);
        { ElementsSnoc(ns[1..], n); }
        head + (Elements(ns[1..]) + last);
        (head + Elements(ns[1..])) + last;
        Elements(ns) + last;
      }
    }
  }

  // ---------------------------------------------------------------------------
  // Number syntax

  const Int32Min: int := -0x8000_0000
  const Int32Max: int := 0x7FFF_FFFF

  /** float.MaxValue, exactly. */
  const FloatMax: int := 340282346638528859811704183484516925440

  /** int.TryParse: the integer syntax, and a value that fits 32 bits. */
  function ParseInt32(s: Option<string>): (r: Option<int>)
    ensures r.Some? ==> Int32Min <= r.value <= Int32Max
  {
    if s.None? then None
    else match ParseInt(s.value)
      case Some(v) => if Int32Min <= v <= Int32Max then Some(v) else None
      case None => None
  }

  /** float.TryParse, over the integers this model uses for numbers. */
  function ParseFloat(s: Option<string>): Option<int> {
    if s.None? then None else ParseInt(s.value)
  }

  /** bool.TryParse: "true" or "false" in any letter case, surrounding white space allowed. */
  function ParseBool(s: Option<string>): (r: Option<bool>)
    ensures r == Some(true) ==> s.Some? && EqualsIgnoreCase(Trim(s.value), "true")
    ensures r == Some(false) ==> s.Some? && EqualsIgnoreCase(Trim(s.value), "false")
    ensures s.Some? && r.None? ==> !EqualsIgnoreCase(Trim(s.value), "true") && !EqualsIgnoreCase(Trim(s.value), "false")
  {
    if s.None? then None
    else if EqualsIgnoreCase(Trim(s.value), "true") then Some(true)
    else if EqualsIgnoreCase(Trim(s.value), "false") then Some(false)
    else None
  }

  /** bool.ToString() */
  function BoolToString(b: bool): string {
    if b then "True" else "False"
  }

  /** The out value TryParse leaves: the parsed number, or 0 when parsing fails. */
  function ParsedOrZero(s: string): int {
    match ParseFloat(Some(s))
    case Some(v) => v
    case None => 0
  }

  // ---------------------------------------------------------------------------
  // DataDefinition.TryParseInt, TryParseFloat, TryParseBool

  function TryParseInt(e: Element, att: string, fallback: int): (r: int)
    ensures ParseInt32(Attribute(e, att)).None? ==> r == fallback
    ensures ParseInt32(Attribute(e, att)).Some? ==> r == ParseInt32(Attribute(e, att)).value
  {
    match ParseInt32(Attribute(e, att))
    case Some(v) => v
    case None => fallback
  }

  function TryParseFloat(e: Element, att: string, fallback: int): (r: int)
    ensures ParseFloat(Attribute(e, att)).None? ==> r == fallback
  {
    match ParseFloat(Attribute(e, att))
    case Some(v) => v
    case None => fallback
  }

  function TryParseBool(e: Element, att: string, fallback: bool): (r: bool)
    ensures ParseBool(Attribute(e, att)).None? ==> r == fallback
  {
    match ParseBool(Attribute(e, att))
    case Some(v) => v
    case None => fallback
  }

  /** A missing attribute reads as the fallback, for all three readers. */
  lemma MissingAttributeFallsBack(e: Element, att: string, i: int, f: int, b: bool)
    requires att !in e.attrs
    ensures TryParseInt(e, att, i) == i && TryParseFloat(e, att, f) == f && TryParseBool(e, att, b) == b
  {
  }

  /** A 32-bit integer written into an attribute reads back as itself. */
  lemma TryParseIntWritten(e: Element, att: string, v: int, fallback: int)
    requires Int32Min <= v <= Int32Max
    ensures TryParseInt(SetAttributeValue(e, att, IntToString(v)), att, fallback) == v
  {
    ParseIntToString(v);
  }

  /** An integer written into an attribute reads back as itself as a float. */
  lemma TryParseFloatWritten(e: Element, att: string, v: int, fallback: int)
    ensures TryParseFloat(SetAttributeValue(e, att, IntToString(v)), att, fallback) == v
  {
    ParseIntToString(v);
  }

  /** A boolean written with bool.ToString reads back as itself. */
  lemma TryParseBoolWritten(e: Element, att: string, v: bool, fallback: bool)
    ensures TryParseBool(SetAttributeValue(e, att, BoolToString(v)), att, fallback) == v
  {
    var s := BoolToString(v);
    TrimNoWhiteSpace(s);
    assert ToUpper(s) == (if v then "TRUE" else "FALSE");
    assert ToUpper("true") == "TRUE";
    assert ToUpper("false") == "FALSE";
  }

  /** Out of the 32-bit range, int.TryParse fails and the fallback is used. */
  lemma TryParseIntOverflow(e: Element, att: string, fallback: int)
    ensures TryParseInt(SetAttributeValue(e, att, IntToString(Int32Max + 1)), att, fallback) == fallback
  {
    ParseIntToString(Int32Max + 1);
  }
}
