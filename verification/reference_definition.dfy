/**
 * ReferenceDefinition: a slot that holds an item of one of several named
 * definitions. The chosen definition is recorded on save in a RefKey
 * attribute and looked up again on load.
 *
 * The definitions a reference can choose are seen only through their Name;
 * what they save for the wrapped item is a parameter of the model.
 */
module ReferenceDefinitions {
  import opened Wrappers
  import opened Text
  import opened Markup
  import Definitions

  /** A definition a reference may choose, known by its Name and an identity. */
  datatype Target = Target(name: Option<string>, id: nat)

  /** Dictionary<string, DataDefinition>, in insertion order. */
  type Entries = seq<(string, Target)>

  /** definitions[k], or None where the dictionary would throw. */
  function Lookup(es: Entries, k: string): (r: Option<Target>)
    ensures r.Some? <==> exists i | 0 <= i < |es| :: es[i].0 == k
    ensures r.Some? ==> exists i | 0 <= i < |es| :: es[i] == (k, r.value)
  {
    if |es| == 0 then None
    else if es[0].0 == k then Some(es[0].1)
    else
      var r := Lookup(es[1..], k);
      assert forall i | 0 <= i < |es[1..]| :: es[1..][i] == es[i + 1];
      r
  }

  /** definitions[k] = v: replaces in place when the key is present, else appends. */
  function Put(es: Entries, k: string, v: Target): (r: Entries)
    ensures Lookup(r, k) == Some(v)
    ensures forall m | m != k :: Lookup(r, m) == Lookup(es, m)
    ensures |r| == if Lookup(es, k).Some? then |es| else |es| + 1
  {
    if |es| == 0 then [(k, v)]
    else if es[0].0 == k then [(k, v)] + es[1..]
    else [es[0]] + Put(es[1..], k, v)
  }

  datatype RefDef = RefDef(name: Option<string>, keys: seq<string>, definitions: Entries, isNullable: bool)

  /**
   * Parse: Keys extended with the non-empty comma-separated pieces of the
   * Keys attribute, which must be present; Nullable, true when absent.
   */
  function Parse(d: RefDef, e: Element): (r: Result<RefDef, string>)
    ensures r.Failure? <==> Attribute(e, "Keys").None?
    ensures r.Success? ==>
      && r.value.keys == d.keys + RemoveEmpty(Split(Attribute(e, "Keys").value, ','))
      && (forall k | k in r.value.keys[|d.keys|..] :: k != "")
      && r.value.isNullable == TryParseBool(e, "Nullable", true)
  {
    match Attribute(e, "Keys")
    case None => Failure("NullReferenceException")
    case Some(v) => Success(d.(keys := d.keys + RemoveEmpty(Split(v, ',')), isNullable := TryParseBool(e, "Nullable", true)))
  }

  /** Without a Nullable attribute a reference may be left empty. */
  lemma ParseNullableByDefault(d: RefDef, e: Element)
    requires "Keys" in e.attrs && "Nullable" !in e.attrs
    ensures Parse(d, e).Success? && Parse(d, e).value.isNullable
  {
  }

  // ---------------------------------------------------------------------------
  // RecursivelyResolve

  /** The dictionary after the loop has handled `keys`, or the failure of the first missing key. */
  function ResolvedEntries(keys: seq<string>, defs: map<string, Target>, es: Entries): (r: Result<Entries, string>)
    decreases |keys|
  {
    if |keys| == 0 then Success(es)
    else if ToLower(keys[0]) !in defs then Failure("Failed to find key " + keys[0] + "!")
    else ResolvedEntries(keys[1..], defs, Put(es, keys[0], defs[ToLower(keys[0])]))
  }

  /** RecursivelyResolve: every key, looked up lower-cased, stored under the key as written. */
  method RecursivelyResolve(d: RefDef, defs: map<string, Target>) returns (r: Result<RefDef, string>)
    ensures ResolvedEntries(d.keys, defs, d.definitions).Failure? ==>
      r == Failure(ResolvedEntries(d.keys, defs, d.definitions).error)
    ensures ResolvedEntries(d.keys, defs, d.definitions).Success? ==>
      r == Success(d.(definitions := ResolvedEntries(d.keys, defs, d.definitions).value))
  {
    var es := d.definitions;
    for i := 0 to |d.keys|
      invariant ResolvedEntries(d.keys, defs, d.definitions) == ResolvedEntries(d.keys[i..], defs, es)
    {
      var key := d.keys[i];
      assert d.keys[i..][1..] == d.keys[i + 1..];
      if ToLower(key) !in defs {
        return Failure("Failed to find key " + key + "!");
      }
      es := Put(es, key, defs[ToLower(key)]);
    }
    assert d.keys[|d.keys|..] == [];
    r := Success(d.(definitions := es));
  }

  /** Resolution fails exactly when some key, lower-cased, is not registered; the message names the first. */
  lemma {:induction false} ResolveFailsIff(keys: seq<string>, defs: map<string, Target>, es: Entries)
    ensures ResolvedEntries(keys, defs, es).Success? <==> forall i | 0 <= i < |keys| :: ToLower(keys[i]) in defs
    ensures ResolvedEntries(keys, defs, es).Failure? ==>
      exists i | 0 <= i < |keys| :: ToLower(keys[i]) !in defs
        && ResolvedEntries(keys, defs, es).error == "Failed to find key " + keys[i] + "!"
        && forall j | 0 <= j < i :: ToLower(keys[j]) in defs
    decreases |keys|
  {
    if |keys| > 0 && ToLower(keys[0]) in defs {
      ResolveFailsIff(keys[1..], defs, Put(es, keys[0], defs[ToLower(keys[0])]));
      assert forall i | 1 <= i < |keys| :: keys[1..][i - 1] == keys[i];
      if ResolvedEntries(keys, defs, es).Failure? {
        var i :| 0 <= i < |keys[1..]| && ToLower(keys[1..][i]) !in defs
          && ResolvedEntries(keys[1..], defs, Put(es, keys[0], defs[ToLower(keys[0])])).error == "Failed to find key " + keys[1..][i] + "!"
          && forall j | 0 <= j < i :: ToLower(keys[1..][j]) in defs;
        assert ToLower(keys[i + 1]) !in defs;
      }
    }
  }

  /**
   * After a successful resolution every key maps to the definition registered
   * under its lower-cased form, and entries for other keys are untouched.
   */
  lemma {:induction false} ResolveMapsEveryKey(keys: seq<string>, defs: map<string, Target>, es: Entries)
    requires ResolvedEntries(keys, defs, es).Success?
    ensures forall i | 0 <= i < |keys| ::
      ToLower(keys[i]) in defs && Lookup(ResolvedEntries(keys, defs, es).value, keys[i]) == Some(defs[ToLower(keys[i])])
    ensures forall m | m !in keys :: Lookup(ResolvedEntries(keys, defs, es).value, m) == Lookup(es, m)
    decreases |keys|
  {
    if |keys| > 0 {
      var es' := Put(es, keys[0], defs[ToLower(keys[0])]);
      ResolveMapsEveryKey(keys[1..], defs, es');
      var r := ResolvedEntries(keys, defs, es).value;
      assert r == ResolvedEntries(keys[1..], defs, es').value;
      forall i | 0 <= i < |keys|
        ensures ToLower(keys[i]) in defs && Lookup(r, keys[i]) == Some(defs[ToLower(keys[i])])
      {
        if i > 0 {
          assert keys[1..][i - 1] == keys[i];
        } else if keys[0] in keys[1..] {
          var j :| 0 <= j < |keys[1..]| && keys[1..][j] == keys[0];
        }
      }
      forall m | m !in keys
        ensures Lookup(r, m) == Lookup(es, m)
      {
        assert m !in keys[1..] && m != keys[0];
      }
    }
  }

  // ---------------------------------------------------------------------------
  // Items

  /**
   * A ReferenceItem: the chosen definition, or none, and how the chosen
   * definition's DoSaveData ends for the wrapped item: the nodes it appends,
   * or the exception it throws.
   */
  datatype RefData = RefData(chosen: Option<Target>, wrappedOutput: Result<seq<Node>, string>)

  /** CreateData: the single candidate is chosen when there is exactly one and the slot may not be empty. */
  function CreatedChoice(d: RefDef): (r: Option<Target>)
    ensures r.Some? <==> |d.definitions| == 1 && !d.isNullable
    ensures r.Some? ==> Lookup(d.definitions, d.definitions[0].0) == r
  {
    if |d.definitions| == 1 && !d.isNullable then Some(d.definitions[0].1) else None
  }

  /** IsDefault */
  predicate IsDefault(item: RefData) {
    item.chosen.None?
  }

  /** A created item is default exactly when no single non-nullable candidate exists. */
  lemma CreatedIsDefaultIff(d: RefDef)
    ensures IsDefault(RefData(CreatedChoice(d), Success([]))) <==> |d.definitions| != 1 || d.isNullable
  {
  }

  /** The index of the last element among the nodes. */
  function LastElement(ns: seq<Node>): (r: Option<nat>)
    ensures r.Some? ==>
      r.value < |ns| && ns[r.value].ElementNode? && forall j | r.value < j < |ns| :: !ns[j].ElementNode?
    ensures r.None? <==> |Elements(ns)| == 0
  {
    if |ns| == 0 then None
    else if ns[|ns| - 1].ElementNode? then
      ElementsSnoc(ns[..|ns| - 1], ns[|ns| - 1]);
      assert ns[..|ns| - 1] + [ns[|ns| - 1]] == ns;
      Some(|ns| - 1)
    else
      ElementsSnoc(ns[..|ns| - 1], ns[|ns| - 1]);
      assert ns[..|ns| - 1] + [ns[|ns| - 1]] == ns;
      LastElement(ns[..|ns| - 1])
  }

  /**
   * The parent after DoSaveData: the wrapped output, with RefKey set on the
   * last element; an exception from the chosen definition's DoSaveData escapes.
   */
  function Saved(parent: Element, item: RefData): (r: Result<Element, string>)
    ensures item.chosen.None? ==> r == Success(parent)
    ensures item.chosen.Some? && item.wrappedOutput.Failure? ==> r == Failure(item.wrappedOutput.error)
    ensures r.Success? ==>
      && r.value.name == parent.name && r.value.attrs == parent.attrs
      && |r.value.nodes| == |parent.nodes| + if item.chosen.None? then 0 else |item.wrappedOutput.value|
  {
    match item.chosen
    case None => Success(parent)
    case Some(c) =>
      match item.wrappedOutput
      case Failure(m) => Failure(m)
      case Success(out) =>
        var ns := parent.nodes + out;
        match LastElement(ns)
        case None => Success(parent.(nodes := ns))
        case Some(k) => Success(parent.(nodes := ns[k := ElementNode(Definitions.SetOrRemove(ns[k].e, "RefKey", c.name))]))
  }

  /** DoSaveData */
  method DoSaveData(parent: Element, item: RefData) returns (r: Result<Element, string>)
    ensures r == Saved(parent, item)
  {
    if item.chosen.None? {
      return Success(parent);
    }
    if item.wrappedOutput.Failure? {
      return Failure(item.wrappedOutput.error);
    }
    var out := parent.(nodes := parent.nodes + item.wrappedOutput.value);
    var last := LastElement(out.nodes);
    if last.None? {
      return Success(out);
    }
    var el := Definitions.SetOrRemove(out.nodes[last.value].e, "RefKey", item.chosen.value.name);
    r := Success(out.(nodes := out.nodes[last.value := ElementNode(el)]));
  }

  /** An unchosen item writes nothing; a chosen one whose payload ends in an element marks that element. */
  lemma SavedMarksPayload(parent: Element, item: RefData, el: Element)
    ensures item.chosen.None? ==> Saved(parent, item) == Success(parent)
    ensures (item.chosen.Some? && item.wrappedOutput.Success? && |item.wrappedOutput.value| > 0
        && item.wrappedOutput.value[|item.wrappedOutput.value| - 1] == ElementNode(el)) ==>
      Saved(parent, item).Success? &&
      var out := item.wrappedOutput.value;
      var ns := Saved(parent, item).value.nodes;
      && ns[..|ns| - 1] == parent.nodes + out[..|out| - 1]
      && ns[|ns| - 1].ElementNode?
      && Attribute(ns[|ns| - 1].e, "RefKey") == item.chosen.value.name
      && ns[|ns| - 1].e.name == el.name && ns[|ns| - 1].e.nodes == el.nodes
  {
    if item.chosen.Some? && item.wrappedOutput.Success? && |item.wrappedOutput.value| > 0
        && item.wrappedOutput.value[|item.wrappedOutput.value| - 1] == ElementNode(el) {
      var out := item.wrappedOutput.value;
      var ns := parent.nodes + out;
      assert ns[|ns| - 1] == ElementNode(el);
      assert ns[..|ns| - 1] == parent.nodes + out[..|out| - 1];
    }
  }

  /** LoadData as written: the definition stored under exactly the RefKey text. */
  function LoadedChoiceAsWritten(d: RefDef, e: Element): (r: Result<Target, string>)
    ensures r.Success? ==> Attribute(e, "RefKey").Some? && Lookup(d.definitions, Attribute(e, "RefKey").value) == Some(r.value)
  {
    match Attribute(e, "RefKey")
    case None => Failure("NullReferenceException")
    case Some(key) =>
      match Lookup(d.definitions, key)
      case None => Failure("KeyNotFoundException")
      case Some(t) => Success(t)
  }

  /**
   * Keys "foo" resolved to a definition named "Foo": the item saves with
   * RefKey "Foo", and loading that element back finds no such key.
   */
  lemma RefKeyCaseMismatch()
    ensures var foo := Target(Some("Foo"), 0);
      var d := RefDef(None, ["foo"], [("foo", foo)], true);
      var saved := Saved(Leaf("Root", ""), RefData(Some(foo), Success([ElementNode(Leaf("Foo", ""))])));
      && ResolvedEntries(["foo"], map["foo" := foo], []) == Success(d.definitions)
      && saved.Success? && saved.value.nodes[0].ElementNode?
      && LoadedChoiceAsWritten(d, saved.value.nodes[0].e) == Failure("KeyNotFoundException")
  {
    var foo := Target(Some("Foo"), 0);
    assert ToLower("foo") == "foo";
    assert Lookup([("foo", foo)], "Foo") == None;
  }

  /** The first entry whose key equals `k` ignoring letter case. */
  function LookupIgnoreCase(es: Entries, k: string): (r: Option<Target>)
    ensures r.Some? ==> exists i | 0 <= i < |es| :: ToLower(es[i].0) == ToLower(k) && es[i].1 == r.value
    ensures r.None? ==> forall i | 0 <= i < |es| :: ToLower(es[i].0) != ToLower(k)
  {
    if |es| == 0 then None
    else if ToLower(es[0].0) == ToLower(k) then Some(es[0].1)
    else
      var r := LookupIgnoreCase(es[1..], k);
      assert forall i | 0 <= i < |es[1..]| :: es[1..][i] == es[i + 1];
      r
  }

  /** LoadData with the key compared ignoring case, as the lower-cased registry implies. */
  function LoadedChoice(d: RefDef, e: Element): (r: Result<Target, string>)
    ensures r.Success? ==> Attribute(e, "RefKey").Some?
  {
    match Attribute(e, "RefKey")
    case None => Failure("NullReferenceException")
    case Some(key) =>
      match LookupIgnoreCase(d.definitions, key)
      case None => Failure("KeyNotFoundException")
      case Some(t) => Success(t)
  }

  /** LoadData: the chosen definition, with the element handed on to it for the wrapped item. */
  method LoadData(d: RefDef, e: Element) returns (r: Result<Target, string>)
    ensures r == LoadedChoice(d, e)
  {
    var key := Attribute(e, "RefKey");
    if key.None? {
      return Failure("NullReferenceException");
    }
    var def := LookupIgnoreCase(d.definitions, key.value);
    if def.None? {
      return Failure("KeyNotFoundException");
    }
    r := Success(def.value);
  }

  /** Every registered definition is registered under its lower-cased Name. */
  predicate RegisteredByName(defs: map<string, Target>) {
    forall k | k in defs :: defs[k].name.Some? && ToLower(defs[k].name.value) == k
  }

  /** Every entry holds the definition registered under its key, lower-cased. */
  predicate CaseConsistent(es: Entries, defs: map<string, Target>) {
    forall i | 0 <= i < |es| :: ToLower(es[i].0) in defs && es[i].1 == defs[ToLower(es[i].0)]
  }

  /** Resolution only ever stores, under a key, the definition registered for it lower-cased. */
  lemma {:induction false} ResolvedCaseConsistent(keys: seq<string>, defs: map<string, Target>, es: Entries)
    requires ResolvedEntries(keys, defs, es).Success? && CaseConsistent(es, defs)
    ensures CaseConsistent(ResolvedEntries(keys, defs, es).value, defs)
    decreases |keys|
  {
    if |keys| > 0 {
      PutKeepsCase(es, keys[0], defs);
      ResolvedCaseConsistent(keys[1..], defs, Put(es, keys[0], defs[ToLower(keys[0])]));
    }
  }

  lemma {:induction false} PutKeepsCase(es: Entries, k: string, defs: map<string, Target>)
    requires ToLower(k) in defs && CaseConsistent(es, defs)
    ensures CaseConsistent(Put(es, k, defs[ToLower(k)]), defs)
  {
    var v := defs[ToLower(k)];
    var r := Put(es, k, v);
    if |es| > 0 && es[0].0 != k {
      assert CaseConsistent(es[1..], defs) by {
        assert forall i | 0 <= i < |es[1..]| :: es[1..][i] == es[i + 1];
      }
      PutKeepsCase(es[1..], k, defs);
      var t := Put(es[1..], k, v);
      assert r == [es[0]] + t;
      forall i | 0 <= i < |r|
        ensures ToLower(r[i].0) in defs && r[i].1 == defs[ToLower(r[i].0)]
      {
        if i > 0 {
          assert r[i] == t[i - 1];
        }
      }
    } else if |es| > 0 {
      assert r == [(k, v)] + es[1..];
      forall i | 0 <= i < |r|
        ensures ToLower(r[i].0) in defs && r[i].1 == defs[ToLower(r[i].0)]
      {
        if i > 0 {
          assert r[i] == es[i];
        }
      }
    }
  }

  /**
   * With names registered lower-cased, saving an item chosen among the
   * resolved definitions and loading the marked element gives the same choice.
   */
  lemma SaveLoadKeepsChoice(d: RefDef, defs: map<string, Target>, parent: Element, item: RefData, el: Element)
    requires RegisteredByName(defs) && ResolvedEntries(d.keys, defs, []).Success?
    requires item.chosen.Some? && exists i | 0 <= i < |d.keys| :: ToLower(d.keys[i]) in defs && item.chosen.value == defs[ToLower(d.keys[i])]
    requires item.wrappedOutput.Success? && |item.wrappedOutput.value| > 0
    requires item.wrappedOutput.value[|item.wrappedOutput.value| - 1] == ElementNode(el)
    ensures Saved(parent, item).Success?
    ensures var resolved := d.(definitions := ResolvedEntries(d.keys, defs, []).value);
      var ns := Saved(parent, item).value.nodes;
      ns[|ns| - 1].ElementNode? && LoadedChoice(resolved, ns[|ns| - 1].e) == Success(item.chosen.value)
  {
    var es := ResolvedEntries(d.keys, defs, []).value;
    var c := item.chosen.value;
    var i :| 0 <= i < |d.keys| && ToLower(d.keys[i]) in defs && c == defs[ToLower(d.keys[i])];
    ResolveMapsEveryKey(d.keys, defs, []);
    ResolvedCaseConsistent(d.keys, defs, []);
    SavedMarksPayload(parent, item, el);
    var ns := Saved(parent, item).value.nodes;
    var key := ns[|ns| - 1].e.attrs["RefKey"];
    assert key == c.name.value;
    assert ToLower(key) == ToLower(d.keys[i]);
    assert Lookup(es, d.keys[i]) == Some(c);
    var j :| 0 <= j < |es| && es[j] == (d.keys[i], c);
    assert ToLower(es[j].0) == ToLower(key);
    var found := LookupIgnoreCase(es, key);
    assert found.Some?;
    var k :| 0 <= k < |es| && ToLower(es[k].0) == ToLower(key) && es[k].1 == found.value;
    assert found.value == defs[ToLower(es[k].0)];
  }
}
