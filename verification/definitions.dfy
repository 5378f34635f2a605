/**
 * DataDefinition and the primitive definitions String, Number and Enum: how a
 * definition is read from markup, how it creates a default data item, loads
 * one from markup, and writes one back.
 *
 * Numbers are integers here: float parsing and printing become decimal
 * integer parsing and printing.
 */
module Definitions {
  import opened Wrappers
  import opened Text
  import opened Markup
  import Visibility

  // ---------------------------------------------------------------------------
  // Tag dispatch (DataDefinition.LoadDefinition)

  /** The definition classes LoadDefinition can build. */
  datatype DefKind =
    | StringKind | MultilineStringKind | StructKind | CollectionKind | NumberKind | BooleanKind
    | ColourKind | EnumKind | PairKind | FileKind | TreeKind

  /** The kind an upper-cased tag names, with STRUCTDEF and ENUMDEF as aliases. */
  function KindOfTag(tag: string): (k: Option<DefKind>)
  {
    if tag == "STRING" then Some(StringKind)
    else if tag == "MULTILINESTRING" then Some(MultilineStringKind)
    else if tag == "STRUCT" || tag == "STRUCTDEF" then Some(StructKind)
    else if tag == "COLLECTION" then Some(CollectionKind)
    else if tag == "NUMBER" then Some(NumberKind)
    else if tag == "BOOLEAN" then Some(BooleanKind)
    else if tag == "COLOUR" then Some(ColourKind)
    else if tag == "ENUM" || tag == "ENUMDEF" then Some(EnumKind)
    else if tag == "PAIR" then Some(PairKind)
    else if tag == "FILE" then Some(FileKind)
    else if tag == "TREE" then Some(TreeKind)
    else None
  }

  /** The tags that name each kind. */
  function TagsOf(k: DefKind): set<string> {
    match k
    case StringKind => {"STRING"}
    case MultilineStringKind => {"MULTILINESTRING"}
    case StructKind => {"STRUCT", "STRUCTDEF"}
    case CollectionKind => {"COLLECTION"}
    case NumberKind => {"NUMBER"}
    case BooleanKind => {"BOOLEAN"}
    case ColourKind => {"COLOUR"}
    case EnumKind => {"ENUM", "ENUMDEF"}
    case PairKind => {"PAIR"}
    case FileKind => {"FILE"}
    case TreeKind => {"TREE"}
  }

  /** A tag selects a kind exactly when it is one of that kind's tags; the kinds' tags do not overlap. */
  lemma KindOfTagExact(tag: string, k: DefKind)
    ensures KindOfTag(tag) == Some(k) <==> tag in TagsOf(k)
  {
  }

  /** The class name GetType() reports, for CopyKey. */
  function ClassName(k: DefKind): string {
    match k
    case StringKind => "StringDefinition"
    case MultilineStringKind => "MultilineStringDefinition"
    case StructKind => "StructDefinition"
    case CollectionKind => "CollectionDefinition"
    case NumberKind => "NumberDefinition"
    case BooleanKind => "BooleanDefinition"
    case ColourKind => "ColourDefinition"
    case EnumKind => "EnumDefinition"
    case PairKind => "PairDefinition"
    case FileKind => "FileDefinition"
    case TreeKind => "TreeDefinition"
  }

  /** DataDefinition.CopyKey: the full type name followed by "Copy". */
  function CopyKey(k: DefKind): string {
    "StructuredXmlEditor.Definition." + ClassName(k) + "Copy"
  }

  /** Different definition classes copy under different keys, each ending in "Copy". */
  lemma CopyKeyDistinct(a: DefKind, b: DefKind)
    ensures EndsWith(CopyKey(a), "Copy")
    ensures a != b ==> CopyKey(a) != CopyKey(b)
  {
    var p := "StructuredXmlEditor.Definition.";
    assert CopyKey(a)[|p|..|CopyKey(a)| - 4] == ClassName(a);
    assert CopyKey(b)[|p|..|CopyKey(b)| - 4] == ClassName(b);
  }

  // ---------------------------------------------------------------------------
  // Primitive definitions and their items

  /** The fields String, Number and Enum definitions add. */
  datatype PrimBody =
    | StringBody(default: string, maxLength: int)
    | NumberBody(numDefault: int, min: int, max: int, useIntegers: bool)
    | EnumBody(key: Option<string>, values: seq<string>, enumDefault: Option<string>)

  /**
   * A primitive definition: Name, VisibleIf, the SkipIfDefault flag and the
   * attribute definitions of PrimitiveDataDefinition, and the class's own fields.
   */
  datatype PrimDef = PrimDef(name: Option<string>, visibleIf: Option<string>, skipIfDefault: bool,
                             attributes: seq<PrimDef>, body: PrimBody)

  datatype PrimValue = Str(s: Option<string>) | Num(n: int)

  /** A StringItem, NumberItem or EnumItem: its definition, its Value and its attribute items. */
  datatype PrimData = PrimData(def: PrimDef, value: PrimValue, attributes: seq<PrimData>)

  /** Every attribute definition, at every depth, has a name to look it up by. */
  predicate AttributesNamed(d: PrimDef) {
    forall i | 0 <= i < |d.attributes| :: d.attributes[i].name.Some? && AttributesNamed(d.attributes[i])
  }

  /** DefaultValueString */
  function DefaultValueString(d: PrimDef): Option<string> {
    match d.body
    case StringBody(dflt, _) => Some(dflt)
    case NumberBody(dflt, _, _, _) => Some(IntToString(dflt))
    case EnumBody(_, _, dflt) => dflt
  }

  /** WriteToString */
  function WriteToString(item: PrimData): Option<string> {
    match item.value
    case Str(s) => s
    case Num(n) => Some(IntToString(n))
  }

  /** Min then Max, in the order the source reassigns. */
  function Clamp(v: int, min: int, max: int): (r: int)
    ensures min <= max ==> min <= r <= max
    ensures min <= v <= max ==> r == v
  {
    var a := if v < min then min else v;
    if a > max then max else a
  }

  /** LoadFromString: the value from text, without attributes; numbers are not clamped. */
  function LoadFromString(d: PrimDef, data: string): (r: PrimData)
    ensures r.def == d && r.attributes == []
  {
    match d.body
    case StringBody(_, _) => PrimData(d, Str(Some(data)), [])
    case NumberBody(_, _, _, _) => PrimData(d, Num(ParsedOrZero(data)), [])
    case EnumBody(_, _, _) => PrimData(d, Str(Some(data)), [])
  }

  /** String and enum text survives a trip through LoadFromString and WriteToString. */
  lemma TextRoundTrip(d: PrimDef, s: string)
    requires !d.body.NumberBody?
    ensures WriteToString(LoadFromString(d, s)) == Some(s)
  {
  }

  /** A number survives a trip through WriteToString and LoadFromString, in range or not. */
  lemma NumberRoundTrip(d: PrimDef, n: int)
    requires d.body.NumberBody?
    ensures LoadFromString(d, IntToString(n)).value == Num(n)
  {
    ParseIntToString(n);
  }

  /** CreateData: the value is the default, and one default item per declared attribute (String only). */
  function Created(d: PrimDef): (r: PrimData)
    ensures r.def == d
  {
    match d.body
    case StringBody(dflt, _) => PrimData(d, Str(Some(dflt)), seq(|d.attributes|, i requires 0 <= i < |d.attributes| => Created(d.attributes[i])))
    case NumberBody(dflt, _, _, _) => PrimData(d, Num(dflt), [])
    case EnumBody(_, _, dflt) => PrimData(d, Str(dflt), [])
  }

  /** A created item's value, written as text, is the default value string. */
  lemma CreatedIsDefault(d: PrimDef)
    ensures WriteToString(Created(d)) == DefaultValueString(d)
    ensures d.body.StringBody? ==>
      |Created(d).attributes| == |d.attributes| && forall i | 0 <= i < |d.attributes| :: Created(d).attributes[i].def == d.attributes[i]
  {
  }

  /** The value LoadData reads from element text: numbers are parsed (0 when that fails) and clamped. */
  function LoadedValue(d: PrimDef, text: string): PrimValue {
    match d.body
    case StringBody(_, _) => Str(Some(text))
    case NumberBody(_, min, max, _) => Num(Clamp(ParsedOrZero(text), min, max))
    case EnumBody(_, _, _) => Str(Some(text))
  }

  /** A declared attribute is loaded from the element when present, else created with its default. */
  function LoadedAttribute(e: Element, att: PrimDef): PrimData
    requires att.name.Some? && AttributesNamed(att)
    decreases att, 2
  {
    match Attribute(e, att.name.value)
    case Some(v) => Loaded(Leaf(att.name.value, v), att)
    case None => Created(att)
  }

  /** LoadData */
  function Loaded(e: Element, d: PrimDef): (r: PrimData)
    requires AttributesNamed(d)
    ensures r.def == d && r.value == LoadedValue(d, e.text)
    decreases d, 1
  {
    var atts := if d.body.StringBody? then
      seq(|d.attributes|, i requires 0 <= i < |d.attributes| => LoadedAttribute(e, d.attributes[i]))
    else [];
    PrimData(d, LoadedValue(d, e.text), atts)
  }

  /** A loaded number lies within [Min, Max]; text that does not parse loads as 0, clamped. */
  lemma LoadedNumberInRange(e: Element, d: PrimDef)
    requires AttributesNamed(d) && d.body.NumberBody? && d.body.min <= d.body.max
    ensures d.body.min <= Loaded(e, d).value.n <= d.body.max
    ensures ParseFloat(Some(e.text)).None? ==> Loaded(e, d).value.n == Clamp(0, d.body.min, d.body.max)
  {
  }

  /** CreateData: the default value, then one created item per declared attribute, in order. */
  method CreateData(d: PrimDef) returns (item: PrimData)
    ensures item == Created(d)
    decreases d
  {
    match d.body
    case StringBody(dflt, _) =>
      var atts: seq<PrimData> := [];
      for i := 0 to |d.attributes|
        invariant |atts| == i
        invariant forall j | 0 <= j < i :: atts[j] == Created(d.attributes[j])
      {
        var attItem := CreateData(d.attributes[i]);
        atts := atts + [attItem];
      }
      item := PrimData(d, Str(Some(dflt)), atts);
    case NumberBody(dflt, _, _, _) =>
      item := PrimData(d, Num(dflt), []);
    case EnumBody(_, _, dflt) =>
      item := PrimData(d, Str(dflt), []);
  }

  /**
   * LoadData: the value from the element text; for a string, each declared
   * attribute loaded from a new element holding the attribute's value, or
   * created when the element lacks it.
   */
  method LoadData(e: Element, d: PrimDef) returns (item: PrimData)
    requires AttributesNamed(d)
    ensures item == Loaded(e, d)
    decreases d
  {
    match d.body
    case StringBody(_, _) =>
      var atts: seq<PrimData> := [];
      for i := 0 to |d.attributes|
        invariant |atts| == i
        invariant forall j | 0 <= j < i :: atts[j] == LoadedAttribute(e, d.attributes[j])
      {
        var att := d.attributes[i];
        var el := Attribute(e, att.name.value);
        var attItem;
        if el.Some? {
          attItem := LoadData(Leaf(att.name.value, el.value), att);
        } else {
          attItem := CreateData(att);
        }
        atts := atts + [attItem];
      }
      item := PrimData(d, Str(Some(e.text)), atts);
    case NumberBody(_, min, max, _) =>
      var val := ParsedOrZero(e.text);
      if val < min { val := min; }
      if val > max { val := max; }
      item := PrimData(d, Num(val), []);
    case EnumBody(_, _, _) =>
      item := PrimData(d, Str(Some(e.text)), []);
  }

  // ---------------------------------------------------------------------------
  // Parse

  /** StringDefinition.Parse: Default, "" when absent; MaxLength, 999999999 when absent or unparsable. */
  function ParseString(e: Element): (b: PrimBody)
    ensures b.StringBody?
    ensures Attribute(e, "Default").None? ==> b.default == ""
    ensures Attribute(e, "Default").Some? ==> b.default == Attribute(e, "Default").value
    ensures ParseInt32(Attribute(e, "MaxLength")).None? ==> b.maxLength == 999999999
  {
    StringBody(Attribute(e, "Default").GetOr(""), TryParseInt(e, "MaxLength", 999999999))
  }

  /**
   * NumberDefinition.Parse: Default (0), Min (-float.MaxValue) and Max
   * (float.MaxValue), the default clamped to Min then Max; a Type of INT in
   * any letter case selects integers.
   */
  function ParseNumber(e: Element): (b: PrimBody)
    ensures b.NumberBody?
    ensures b.min == TryParseFloat(e, "Min", -FloatMax) && b.max == TryParseFloat(e, "Max", FloatMax)
    ensures b.min <= b.max ==> b.min <= b.numDefault <= b.max
    ensures b.useIntegers <==> Attribute(e, "Type").Some? && ToUpper(Attribute(e, "Type").value) == "INT"
  {
    var min := TryParseFloat(e, "Min", -FloatMax);
    var max := TryParseFloat(e, "Max", FloatMax);
    var t := Attribute(e, "Type");
    NumberBody(Clamp(TryParseFloat(e, "Default", 0), min, max), min, max, t.Some? && ToUpper(t.value) == "INT")
  }

  /** Without Min and Max the range is that of a float, and the default stays within it. */
  lemma NumberParseDefaults(e: Element)
    requires "Min" !in e.attrs && "Max" !in e.attrs && "Default" !in e.attrs
    ensures ParseNumber(e) == NumberBody(0, -FloatMax, FloatMax, ParseNumber(e).useIntegers)
  {
  }

  /**
   * EnumDefinition.Parse: Key; the values split on ',' from the EnumValues
   * attribute, or else from the element text; Default, or else the first value.
   */
  function ParseEnum(e: Element): (b: PrimBody)
    ensures b.EnumBody? && |b.values| >= 1 && b.enumDefault.Some?
    ensures b.values == Split(Attribute(e, "EnumValues").GetOr(e.text), ',')
    ensures Attribute(e, "Default").None? ==> b.enumDefault == Some(b.values[0])
  {
    var values := Split(Attribute(e, "EnumValues").GetOr(e.text), ',');
    var dflt := if Attribute(e, "Default").Some? then Attribute(e, "Default") else Some(values[0]);
    EnumBody(Attribute(e, "Key"), values, dflt)
  }

  /**
   * What LoadDefinition builds: a primitive definition parsed here, or a kind
   * whose Parse is not part of this model, with its Name and VisibleIf.
   */
  datatype LoadedDefinition =
    | Primitive(def: PrimDef)
    | OtherKind(kind: DefKind, name: Option<string>, visibleIf: Option<string>)

  /** The definition a tag and attributes describe; `skip` is the SkipIfDefault a new primitive definition starts with. */
  function Dispatched(e: Element, skip: bool): (r: Result<LoadedDefinition, string>)
    ensures r.Failure? <==> KindOfTag(ToUpper(e.name)).None?
    ensures r.Failure? ==> r.error == "Unknown definition type " + ToUpper(e.name) + "!"
  {
    var tag := ToUpper(e.name);
    var name := Attribute(e, "Name");
    var visibleIf := Attribute(e, "VisibleIf");
    match KindOfTag(tag)
    case None => Failure("Unknown definition type " + tag + "!")
    case Some(StringKind) => Success(Primitive(PrimDef(name, visibleIf, skip, [], ParseString(e))))
    case Some(NumberKind) => Success(Primitive(PrimDef(name, visibleIf, skip, [], ParseNumber(e))))
    case Some(EnumKind) => Success(Primitive(PrimDef(name, visibleIf, skip, [], ParseEnum(e))))
    case Some(k) => Success(OtherKind(k, name, visibleIf))
  }

  /** LoadDefinition: the if-chain over the upper-cased tag, then Name and VisibleIf, then Parse. */
  method LoadDefinition(e: Element, skip: bool) returns (r: Result<LoadedDefinition, string>)
    ensures r == Dispatched(e, skip)
  {
    var tag := ToUpper(e.name);
    var kind: Option<DefKind> := None;
    if tag == "STRING" { kind := Some(StringKind); }
    else if tag == "MULTILINESTRING" { kind := Some(MultilineStringKind); }
    else if tag == "STRUCT" || tag == "STRUCTDEF" { kind := Some(StructKind); }
    else if tag == "COLLECTION" { kind := Some(CollectionKind); }
    else if tag == "NUMBER" { kind := Some(NumberKind); }
    else if tag == "BOOLEAN" { kind := Some(BooleanKind); }
    else if tag == "COLOUR" { kind := Some(ColourKind); }
    else if tag == "ENUM" || tag == "ENUMDEF" { kind := Some(EnumKind); }
    else if tag == "PAIR" { kind := Some(PairKind); }
    else if tag == "FILE" { kind := Some(FileKind); }
    else if tag == "TREE" { kind := Some(TreeKind); }
    else {
      return Failure("Unknown definition type " + tag + "!");
    }
    var name := Attribute(e, "Name");
    var visibleIf := Attribute(e, "VisibleIf");
    match kind.value
    case StringKind => r := Success(Primitive(PrimDef(name, visibleIf, skip, [], ParseString(e))));
    case NumberKind => r := Success(Primitive(PrimDef(name, visibleIf, skip, [], ParseNumber(e))));
    case EnumKind => r := Success(Primitive(PrimDef(name, visibleIf, skip, [], ParseEnum(e))));
    case _ => r := Success(OtherKind(kind.value, name, visibleIf));
  }

  /** A definition's Name and VisibleIf are the element's attributes, absent when missing. */
  lemma DispatchedCopiesNames(e: Element, skip: bool)
    requires Dispatched(e, skip).Success?
    ensures var d := Dispatched(e, skip).value;
      match d
      case Primitive(p) => p.name == Attribute(e, "Name") && p.visibleIf == Attribute(e, "VisibleIf")
      case OtherKind(_, n, v) => n == Attribute(e, "Name") && v == Attribute(e, "VisibleIf")
  {
  }

  // ---------------------------------------------------------------------------
  // EnumDefinition.RecursivelyResolve

  /** The enum definition after key resolution, and whether the "Failed to find key" warning was shown. */
  datatype Resolution = Resolution(def: PrimDef, warned: bool)

  /**
   * With a Key, the definition registered under its lower-cased form donates
   * its values, and its first value fills a missing default. A key that is
   * not registered only warns. A registered definition that is not an enum
   * fails when its values are read.
   */
  function ResolveEnum(d: PrimDef, defs: map<string, PrimDef>): (r: Result<Resolution, string>)
    requires d.body.EnumBody?
  {
    match d.body.key
    case None => Success(Resolution(d, false))
    case Some(k) =>
      if ToLower(k) in defs then
        var src := defs[ToLower(k)];
        if !src.body.EnumBody? then Failure("NullReferenceException")
        else
          var values := src.body.values;
          if d.body.enumDefault.None? && |values| == 0 then Failure("ArgumentOutOfRangeException")
          else
            var dflt := if d.body.enumDefault.None? then Some(values[0]) else d.body.enumDefault;
            Success(Resolution(d.(body := d.body.(values := values, enumDefault := dflt)), false))
      else Success(Resolution(d, true))
  }

  /** A missing key changes nothing and warns; a found enum key copies the values and keeps a set default. */
  lemma ResolveEnumOutcome(d: PrimDef, defs: map<string, PrimDef>)
    requires d.body.EnumBody? && d.body.key.Some?
    ensures ToLower(d.body.key.value) !in defs ==> ResolveEnum(d, defs) == Success(Resolution(d, true))
    ensures var k := ToLower(d.body.key.value);
      k in defs && defs[k].body.EnumBody? && d.body.enumDefault.Some? ==>
        && ResolveEnum(d, defs).Success? && !ResolveEnum(d, defs).value.warned
        && ResolveEnum(d, defs).value.def.body.values == defs[k].body.values
        && ResolveEnum(d, defs).value.def.body.enumDefault == d.body.enumDefault
        && ResolveEnum(d, defs).value.def.name == d.name
  {
  }

  // ---------------------------------------------------------------------------
  // Saving

  /** An attribute item is written when it is the Name, is not skip-if-default, or differs from its default. */
  predicate ShouldWrite(att: PrimData) {
    att.def.name == Some("Name") || !att.def.skipIfDefault || WriteToString(att) != DefaultValueString(att.def)
  }

  /** SetAttributeValue, which removes the attribute when the value is null. */
  function SetOrRemove(e: Element, n: string, v: Option<string>): (r: Element)
    ensures Attribute(r, n) == v
    ensures forall m | m != n :: Attribute(r, m) == Attribute(e, m)
    ensures r.name == e.name && r.text == e.text && r.nodes == e.nodes
  {
    match v
    case Some(s) => SetAttributeValue(e, n, s)
    case None => e.(attrs := e.attrs - {n})
  }

  function WriteAttribute(el: Element, att: PrimData): Element {
    if ShouldWrite(att) then SetOrRemove(el, att.def.name.GetOr(""), WriteToString(att)) else el
  }

  /** The element after the attribute loop has handled `atts`, in order. */
  function WithAttributes(el: Element, atts: seq<PrimData>): (r: Element)
    ensures r.name == el.name && r.text == el.text && r.nodes == el.nodes
    decreases |atts|
  {
    if |atts| == 0 then el else WriteAttribute(WithAttributes(el, atts[..|atts| - 1]), atts[|atts| - 1])
  }

  /** The element DoSaveData appends for an item. */
  function SavedElement(item: PrimData): (r: Element)
    requires item.def.name.Some? && KindMatches(item)
    ensures r.name == item.def.name.value && r.nodes == []
  {
    match item.def.body
    case StringBody(_, _) => WithAttributes(Leaf(item.def.name.value, item.value.s.GetOr("")), item.attributes)
    case NumberBody(_, _, _, _) => Leaf(item.def.name.value, IntToString(item.value.n))
    case EnumBody(_, _, _) => Leaf(item.def.name.value, item.value.s.GetOr(""))
  }

  /** A number definition holds a number; the others hold text. */
  predicate KindMatches(item: PrimData) {
    item.def.body.NumberBody? <==> item.value.Num?
  }

  /** An item whose value has its definition's kind, and whose attribute items follow the declared attributes. */
  predicate WellFormed(item: PrimData) {
    && KindMatches(item)
    && (item.def.body.StringBody? ==>
          && |item.attributes| == |item.def.attributes|
          && forall i | 0 <= i < |item.attributes| :: item.attributes[i].def == item.def.attributes[i] && WellFormed(item.attributes[i]))
    && (!item.def.body.StringBody? ==> item.attributes == [])
  }

  /**
   * Some attribute item is written although its definition has no Name, so
   * SetAttributeValue gets a null name.
   */
  predicate NamelessWrite(atts: seq<PrimData>) {
    exists i | 0 <= i < |atts| :: ShouldWrite(atts[i]) && atts[i].def.name.None?
  }

  /** How saving an item ends when it does not end in an element: an exception from the bindings, or one thrown while writing. */
  datatype SaveError = BindingFailed(e: Visibility.VisError) | Raised(message: string)

  /**
   * DoSaveData: the item's element appended to the parent. A definition
   * without a Name throws ArgumentNullException in `new XElement(Name, …)`,
   * and so does writing an attribute whose definition has no Name.
   */
  method DoSaveData(parent: Element, item: PrimData) returns (r: Result<Element, string>)
    requires KindMatches(item)
    ensures r.Failure? <==> item.def.name.None? || (item.def.body.StringBody? && NamelessWrite(item.attributes))
    ensures r.Failure? ==> r.error == "ArgumentNullException"
    ensures r.Success? ==> r.value == AddElement(parent, SavedElement(item))
  {
    if item.def.name.None? {
      return Failure("ArgumentNullException");
    }
    match item.def.body
    case StringBody(_, _) =>
      var el := Leaf(item.def.name.value, item.value.s.GetOr(""));
      var i := 0;
      while i < |item.attributes|
        invariant 0 <= i <= |item.attributes|
        invariant el == WithAttributes(Leaf(item.def.name.value, item.value.s.GetOr("")), item.attributes[..i])
        invariant forall k | 0 <= k < i :: !(ShouldWrite(item.attributes[k]) && item.attributes[k].def.name.None?)
      {
        var att := item.attributes[i];
        var asString := WriteToString(att);
        var defaultAsString := DefaultValueString(att.def);
        if att.def.name == Some("Name") || !att.def.skipIfDefault || asString != defaultAsString {
          if att.def.name.None? {
            return Failure("ArgumentNullException");
          }
          el := SetOrRemove(el, att.def.name.value, asString);
        }
        assert item.attributes[..i + 1][..i] == item.attributes[..i];
        i := i + 1;
      }
      assert item.attributes[..i] == item.attributes;
      r := Success(AddElement(parent, el));
    case NumberBody(_, _, _, _) =>
      r := Success(AddElement(parent, Leaf(item.def.name.value, IntToString(item.value.n))));
    case EnumBody(_, _, _) =>
      r := Success(AddElement(parent, Leaf(item.def.name.value, item.value.s.GetOr(""))));
  }

  /**
   * SaveData: IsVisibleFromBindings is evaluated first; its exception
   * escapes, and an item it hides writes nothing.
   */
  method SaveData(parent: Element, item: PrimData, visibleFromBindings: Result<bool, Visibility.VisError>)
    returns (r: Result<Element, SaveError>)
    requires KindMatches(item)
    ensures visibleFromBindings.Failure? ==> r == Failure(BindingFailed(visibleFromBindings.error))
    ensures visibleFromBindings == Success(false) ==> r == Success(parent)
    ensures visibleFromBindings == Success(true) ==>
      && (r.Failure? <==> item.def.name.None? || (item.def.body.StringBody? && NamelessWrite(item.attributes)))
      && (r.Failure? ==> r.error == Raised("ArgumentNullException"))
      && (r.Success? ==> r.value == AddElement(parent, SavedElement(item)))
  {
    match visibleFromBindings {
      case Failure(e) =>
        return Failure(BindingFailed(e));
      case Success(visible) =>
        if !visible {
          return Success(parent);
        }
    }
    var saved := DoSaveData(parent, item);
    match saved {
      case Failure(m) => r := Failure(Raised(m));
      case Success(el) => r := Success(el);
    }
  }

  // ---------------------------------------------------------------------------
  // Save then load

  /** The declared attributes have pairwise different names. */
  predicate DistinctNames(atts: seq<PrimDef>) {
    forall i, j | 0 <= i < j < |atts| :: atts[i].name != atts[j].name
  }

  /**
   * After the attribute loop, an attribute holds the text of the last item
   * written under its name, and is absent when its item was skipped as default.
   */
  lemma {:induction false} AttributeAfterLoop(el: Element, atts: seq<PrimData>, i: int)
    requires 0 <= i < |atts|
    requires forall j | 0 <= j < |atts| :: atts[j].def.name.Some?
    requires forall j | 0 <= j < |atts| && j != i :: atts[j].def.name != atts[i].def.name
    ensures Attribute(WithAttributes(el, atts), atts[i].def.name.value)
         == if ShouldWrite(atts[i]) then WriteToString(atts[i]) else Attribute(el, atts[i].def.name.value)
    decreases |atts|
  {
    var n := atts[i].def.name.value;
    var last := |atts| - 1;
    var prefix := atts[..last];
    if i == last {
      if |prefix| > 0 {
        NotWrittenKeeps(el, prefix, n);
      }
    } else {
      AttributeAfterLoop(el, prefix, i);
      assert atts[last].def.name.value != n;
    }
  }

  /** An attribute no item names is left as it was. */
  lemma {:induction false} NotWrittenKeeps(el: Element, atts: seq<PrimData>, n: string)
    requires forall j | 0 <= j < |atts| :: atts[j].def.name.Some? && atts[j].def.name.value != n
    ensures Attribute(WithAttributes(el, atts), n) == Attribute(el, n)
    decreases |atts|
  {
    if |atts| > 0 {
      NotWrittenKeeps(el, atts[..|atts| - 1], n);
    }
  }

  /** An attribute item with a value that survives being written as text and read back. */
  predicate Recoverable(att: PrimData) {
    && KindMatches(att)
    && (att.value.Str? ==> att.value.s.Some?)
    && (att.def.body.NumberBody? ==> att.def.body.min <= att.value.n <= att.def.body.max)
  }

  /** One attribute: whether written or skipped as default, loading gives back its value. */
  lemma AttributeRecovered(saved: Element, att: PrimData)
    requires att.def.name.Some? && AttributesNamed(att.def) && Recoverable(att)
    requires Attribute(saved, att.def.name.value) == if ShouldWrite(att) then WriteToString(att) else None
    ensures LoadedAttribute(saved, att.def).value == att.value
  {
    if ShouldWrite(att) {
      WrittenRecovered(att);
      assert Loaded(Leaf(att.def.name.value, WriteToString(att).value), att.def).value == LoadedValue(att.def, WriteToString(att).value);
    } else {
      SkippedRecovered(att);
    }
  }

  /** A written attribute loads back from its text. */
  lemma WrittenRecovered(att: PrimData)
    requires Recoverable(att)
    ensures WriteToString(att).Some?
    ensures LoadedValue(att.def, WriteToString(att).value) == att.value
  {
    if att.value.Num? {
      ParseIntToString(att.value.n);
    }
  }

  /** An attribute skipped as default is created back with its value. */
  lemma SkippedRecovered(att: PrimData)
    requires Recoverable(att) && !ShouldWrite(att)
    ensures Created(att.def).value == att.value
  {
    if att.value.Num? {
      ParseIntToString(att.value.n);
      ParseIntToString(att.def.body.numDefault);
    }
  }

  /**
   * Saving a string item and loading the element back gives the item's value
   * and every attribute's value, skipped defaults included.
   */
  lemma StringSaveLoadRoundTrip(item: PrimData)
    requires item.def.name.Some? && item.def.body.StringBody? && item.value.Str? && item.value.s.Some?
    requires WellFormed(item) && AttributesNamed(item.def) && DistinctNames(item.def.attributes)
    requires forall i | 0 <= i < |item.attributes| :: Recoverable(item.attributes[i])
    ensures var back := Loaded(SavedElement(item), item.def);
      back.value == item.value && |back.attributes| == |item.attributes|
      && forall i | 0 <= i < |item.attributes| :: back.attributes[i].value == item.attributes[i].value
  {
    var saved := SavedElement(item);
    var back := Loaded(saved, item.def);
    var leaf := Leaf(item.def.name.value, item.value.s.value);
    forall i | 0 <= i < |item.attributes|
      ensures back.attributes[i].value == item.attributes[i].value
    {
      var att := item.attributes[i];
      assert att.def == item.def.attributes[i];
      forall j | 0 <= j < |item.attributes| && j != i
        ensures item.attributes[j].def.name != att.def.name
      {
        assert item.attributes[j].def == item.def.attributes[j];
      }
      AttributeAfterLoop(leaf, item.attributes, i);
      AttributeRecovered(saved, att);
    }
  }

  /** A saved number loads back as itself exactly when it lies within [Min, Max]. */
  lemma NumberSaveLoadRoundTrip(item: PrimData)
    requires item.def.name.Some? && item.def.body.NumberBody? && KindMatches(item)
    requires AttributesNamed(item.def) && item.def.body.min <= item.def.body.max
    ensures Loaded(SavedElement(item), item.def).value == item.value
      <==> item.def.body.min <= item.value.n <= item.def.body.max
  {
    var n := item.value.n;
    ParseIntToString(n);
    assert SavedElement(item).text == IntToString(n);
    assert ParsedOrZero(IntToString(n)) == n;
    assert Loaded(SavedElement(item), item.def).value == Num(Clamp(n, item.def.body.min, item.def.body.max));
  }

  /** A saved enum value loads back as itself. */
  lemma EnumSaveLoadRoundTrip(item: PrimData)
    requires item.def.name.Some? && item.def.body.EnumBody? && KindMatches(item) && item.value.s.Some?
    requires AttributesNamed(item.def)
    ensures Loaded(SavedElement(item), item.def).value == item.value
  {
  }
}
