/**
 * The VisibleIf engine of a data item: the Statement class (parse, SetTarget,
 * Evaluate), UpdateVisibleIfBinding and IsVisibleFromBindings.
 *
 * A VisibleIf text is an OR ("||") of ANDs ("&&") of statements
 * `name op literal`. The siblings of the item (its parent's children) are
 * given as a sequence of id/name/value views; a bound statement refers to its
 * target item by id, and evaluation reads the target's current value from a
 * map of values by id. Exceptions of the source are Failure results.
 */
module Visibility {
  import opened Wrappers
  import opened Text

  /** Statement.ComparisonOperation */
  datatype Operator = Equal | NotEqual | LessThan | LessThanOrEqual | GreaterThan | GreaterThanOrEqual

  /** The Description attribute of each operator. */
  function OpText(op: Operator): (r: string)
    ensures 1 <= |r| <= 2
  {
    match op
    case Equal => "=="
    case NotEqual => "!="
    case LessThan => "<"
    case LessThanOrEqual => "<="
    case GreaterThan => ">"
    case GreaterThanOrEqual => ">="
  }

  /** The order Enum.GetValues yields the operators in: declaration order. */
  const DeclarationOrder: seq<Operator> :=
    [Equal, NotEqual, LessThan, LessThanOrEqual, GreaterThan, GreaterThanOrEqual]

  /** Two-character operators before their one-character prefixes. */
  const CorrectedOrder: seq<Operator> :=
    [Equal, NotEqual, LessThanOrEqual, GreaterThanOrEqual, LessThan, GreaterThan]

  /**
   * What a statement's target currently holds: a NumberItem's value, a
   * BooleanItem's value, the GetValue() text of any other primitive item
   * (null when its value is null), or a non-primitive item.
   */
  datatype Value = NumberValue(n: int) | BoolValue(b: bool) | TextValue(s: Option<string>) | NotPrimitive

  /** A sibling item as the binding sees it: its identity, its Name (possibly null) and its value. */
  datatype Sibling = Sibling(id: nat, name: Option<string>, value: Value)

  /** A Statement; `target` is the id of the bound sibling, if any. */
  datatype Statement = Statement(op: Operator, targetName: Option<string>, targetValue: Option<string>, target: Option<nat>)

  datatype VisError =
    | MissingOperand          // split[1] out of range in the constructor
    | NonPrimitiveTarget      // "Cannot do comparison operations on non-primitives!"
    | InvalidOperation        // an ordering operator on a non-number target
    | NullLiteral             // float.Parse / bool.Parse / Split on a null TargetValue
    | BadLiteral              // float.Parse / bool.Parse rejected the literal

  // ---------------------------------------------------------------------------
  // Parsing

  /** For each operator of `order`, whether its text occurs in `text`. */
  function Occurring(order: seq<Operator>, text: string): (h: seq<bool>)
    ensures |h| == |order| && forall k | 0 <= k < |order| :: h[k] == Contains(text, OpText(order[k]))
  {
    seq(|order|, k requires 0 <= k < |order| => Contains(text, OpText(order[k])))
  }

  /** The first true entry of `h` from position `from` on. */
  function FirstHit(h: seq<bool>, from: nat): (r: Option<nat>)
    requires from <= |h|
    ensures r.Some? ==> from <= r.value < |h| && h[r.value] && forall k | from <= k < r.value :: !h[k]
    ensures r.None? ==> forall k | from <= k < |h| :: !h[k]
    decreases |h| - from
  {
    if from == |h| then None
    else if h[from] then Some(from)
    else FirstHit(h, from + 1)
  }

  /** The first operator of `order`, from position `from` on, whose text occurs in `text`. */
  function FirstOccurringFrom(order: seq<Operator>, text: string, from: nat): (r: Option<nat>)
    requires from <= |order|
    ensures r.Some? ==> from <= r.value < |order| && Contains(text, OpText(order[r.value]))
    ensures r.Some? ==> forall k | from <= k < r.value :: !Contains(text, OpText(order[k]))
    ensures r.None? ==> forall k | from <= k < |order| :: !Contains(text, OpText(order[k]))
  {
    FirstHit(Occurring(order, text), from)
  }

  /**
   * The Statement constructor, trying the operators in `order`: the first one
   * whose text occurs splits the statement (empty pieces dropped) and the first
   * two pieces, trimmed, are the name and the literal. With no operator the
   * statement keeps its defaults: Equal, no name, no literal.
   */
  function ParseWith(order: seq<Operator>, text: string): Result<Statement, VisError> {
    match FirstOccurringFrom(order, text, 0)
    case None => Success(Statement(Equal, None, None, None))
    case Some(k) =>
      var pieces := RemoveEmpty(SplitOn(text, OpText(order[k])));
      if |pieces| < 2 then Failure(MissingOperand)
      else Success(Statement(order[k], Some(Trim(pieces[0])), Some(Trim(pieces[1])), None))
  }

  /** The constructor as the source writes it. */
  function ParseAsWritten(text: string): Result<Statement, VisError> {
    ParseWith(DeclarationOrder, text)
  }

  /** The constructor with the corrected operator order; the rest of the model uses this one. */
  function Parse(text: string): Result<Statement, VisError> {
    ParseWith(CorrectedOrder, text)
  }

  /** The Statement constructor: a loop over the operators that stops at the first match. */
  method NewStatement(text: string) returns (r: Result<Statement, VisError>)
    ensures r == Parse(text)
  {
    var i := 0;
    while i < |CorrectedOrder|
      invariant 0 <= i <= |CorrectedOrder|
      invariant FirstOccurringFrom(CorrectedOrder, text, i) == FirstOccurringFrom(CorrectedOrder, text, 0)
    {
      var op := CorrectedOrder[i];
      var opString := OpText(op);
      if Contains(text, opString) {
        var split := RemoveEmpty(SplitOn(text, opString));
        if |split| < 2 {
          return Failure(MissingOperand);
        }
        return Success(Statement(op, Some(Trim(split[0])), Some(Trim(split[1])), None));
      }
      i := i + 1;
    }
    return Success(Statement(Equal, None, None, None));
  }

  /** The characters operators are made of. */
  predicate IsOpChar(c: char) { c == '=' || c == '!' || c == '<' || c == '>' }

  predicate NoOpChars(s: string) { forall i | 0 <= i < |s| :: !IsOpChar(s[i]) }

  lemma OpTextChars(op: Operator)
    ensures forall i | 0 <= i < |OpText(op)| :: IsOpChar(OpText(op)[i])
  {
  }

  /** In the declaration order "<" comes before "<=" and ">" before ">=". */
  lemma LongerContainsShorter(s: string, longer: Operator, shorter: Operator)
    requires (longer, shorter) == (LessThanOrEqual, LessThan) || (longer, shorter) == (GreaterThanOrEqual, GreaterThan)
    requires Contains(s, OpText(longer))
    ensures Contains(s, OpText(shorter))
  {
    var i := IndexOf(s, OpText(longer)).value;
    assert s[i..i + 2] == OpText(longer);
    assert s[i..i + 1] == OpText(shorter) by {
      assert s[i] == s[i..i + 2][0];
    }
    assert OccursAt(s, OpText(shorter), i);
  }

  /** As written, `<=` and `>=` can never be parsed: their one-character prefixes win. */
  lemma AsWrittenNeverOrEqual(text: string)
    ensures ParseAsWritten(text).Success? ==>
      ParseAsWritten(text).value.op != LessThanOrEqual && ParseAsWritten(text).value.op != GreaterThanOrEqual
  {
    var r := FirstOccurringFrom(DeclarationOrder, text, 0);
    if r == Some(3) {
      assert DeclarationOrder[2] == LessThan;
      LongerContainsShorter(text, LessThanOrEqual, LessThan);
    } else if r == Some(5) {
      assert DeclarationOrder[4] == GreaterThan;
      LongerContainsShorter(text, GreaterThanOrEqual, GreaterThan);
    }
  }

  /** An occurrence of an operator in name + op + value lies inside op. */
  lemma OccurrenceInsideOperator(name: string, o: string, value: string, p: string, i: nat)
    requires NoOpChars(name) && NoOpChars(value)
    requires |p| > 0 && forall m | 0 <= m < |p| :: IsOpChar(p[m])
    requires OccursAt(name + o + value, p, i)
    ensures |name| <= i && i + |p| <= |name| + |o|
    ensures OccursAt(o, p, i - |name|)
  {
    var s := name + o + value;
    assert s[i..i + |p|][0] == p[0];
    assert s[i] == p[0];
    var last := i + |p| - 1;
    assert s[i..i + |p|][|p| - 1] == p[|p| - 1];
    forall m | 0 <= m < |p|
      ensures o[i - |name| + m] == p[m]
    {
      assert s[i..i + |p|][m] == p[m];
      assert s[i + m] == o[i - |name| + m];
    }
  }

  /** Which operators can be found inside which: only "<" in "<=" and ">" in ">=". */
  lemma OperatorInOperator(o: Operator, p: Operator, j: nat)
    requires OccursAt(OpText(o), OpText(p), j)
    ensures p == o || (o, p) == (LessThanOrEqual, LessThan) || (o, p) == (GreaterThanOrEqual, GreaterThan)
  {
    var so, sp := OpText(o), OpText(p);
    assert so[j..j + |sp|] == sp;
    assert so[j] == sp[0];
    if |sp| == 2 {
      assert j == 0 && so[1] == sp[1];
    } else if |so| == 2 {
      assert j == 0 || j == 1;
    }
  }

  /** The only occurrence of `o` in name + o + value is at |name|. */
  lemma SplitAtOperator(name: string, o: Operator, value: string)
    requires NoOpChars(name) && NoOpChars(value)
    ensures SplitOn(name + OpText(o) + value, OpText(o)) == [name, value]
  {
    var s := name + OpText(o) + value;
    var sep := OpText(o);
    OpTextChars(o);
    var r := IndexOf(s, sep);
    assert OccursAt(s, sep, |name|) by {
      assert s[|name|..|name| + |sep|] == sep;
    }
    var i := r.value;
    if i != |name| {
      OccurrenceInsideOperator(name, sep, value, sep, i);
    }
    assert s[..i] == name;
    assert s[i + |sep|..] == value;
    NoOccurrence(value, sep);
  }

  /** The position of each operator in CorrectedOrder. */
  function CorrectedRank(op: Operator): (k: nat)
    ensures k < |CorrectedOrder| && CorrectedOrder[k] == op
  {
    match op
    case Equal => 0
    case NotEqual => 1
    case LessThanOrEqual => 2
    case GreaterThanOrEqual => 3
    case LessThan => 4
    case GreaterThan => 5
  }

  lemma FirstOccurringIs(order: seq<Operator>, text: string, from: nat, k: nat)
    requires from <= k < |order|
    requires forall j | from <= j < k :: !Contains(text, OpText(order[j]))
    requires Contains(text, OpText(order[k]))
    ensures FirstOccurringFrom(order, text, from) == Some(k)
  {
    var r := FirstOccurringFrom(order, text, from);
    assert r.Some? && r.value >= k;
  }

  /** An operator that is not `op`, nor the one-character prefix of `op`, does not occur in name + op + value. */
  lemma OperatorAbsent(name: string, op: Operator, value: string, p: Operator)
    requires NoOpChars(name) && NoOpChars(value)
    requires p != op && (op, p) != (LessThanOrEqual, LessThan) && (op, p) != (GreaterThanOrEqual, GreaterThan)
    ensures !Contains(name + OpText(op) + value, OpText(p))
  {
    var s := name + OpText(op) + value;
    if Contains(s, OpText(p)) {
      var i := IndexOf(s, OpText(p)).value;
      OpTextChars(p);
      OccurrenceInsideOperator(name, OpText(op), value, OpText(p), i);
      OperatorInOperator(op, p, i - |name|);
    }
  }

  /** An operator ranked before `op` in CorrectedOrder does not occur in name + op + value. */
  lemma EarlierAbsent(name: string, op: Operator, value: string, j: nat)
    requires NoOpChars(name) && NoOpChars(value)
    requires j < CorrectedRank(op)
    ensures !Contains(name + OpText(op) + value, OpText(CorrectedOrder[j]))
  {
    OperatorAbsent(name, op, value, CorrectedOrder[j]);
  }

  lemma PrintedContainsOp(name: string, op: Operator, value: string)
    ensures Contains(name + OpText(op) + value, OpText(op))
  {
    var s := name + OpText(op) + value;
    assert s[|name|..|name| + |OpText(op)|] == OpText(op);
    assert OccursAt(s, OpText(op), |name|);
  }

  /**
   * With the corrected order, writing `name op value` (operands free of
   * operator characters, neither empty) and parsing it back gives `op` and the
   * trimmed operands.
   */
  lemma ParsePrinted(name: string, op: Operator, value: string)
    requires NoOpChars(name) && NoOpChars(value) && name != "" && value != ""
    ensures Parse(name + OpText(op) + value) == Success(Statement(op, Some(Trim(name)), Some(Trim(value)), None))
  {
    var s := name + OpText(op) + value;
    var k := CorrectedRank(op);
    PrintedContainsOp(name, op, value);
    forall j | 0 <= j < k
      ensures !Contains(s, OpText(CorrectedOrder[j]))
    {
      EarlierAbsent(name, op, value, j);
    }
    FirstOccurringIs(CorrectedOrder, s, 0, k);
    SplitAtOperator(name, op, value);
    assert RemoveEmpty([name, value]) == [name, value] by {
      assert [name, value][1..] == [value];
    }
  }

  // ---------------------------------------------------------------------------
  // Binding

  /** The first sibling, other than the item itself, whose Name equals `name`. */
  function FindTargetFrom(siblings: seq<Sibling>, self: nat, name: Option<string>, from: nat): (r: Option<nat>)
    requires from <= |siblings|
    ensures r.Some? ==> from <= r.value < |siblings| && siblings[r.value].id != self && siblings[r.value].name == name
    ensures r.Some? ==> forall k | from <= k < r.value :: siblings[k].id == self || siblings[k].name != name
    ensures r.None? ==> forall k | from <= k < |siblings| :: siblings[k].id == self || siblings[k].name != name
    decreases |siblings| - from
  {
    if from == |siblings| then None
    else if siblings[from].id != self && siblings[from].name == name then Some(from)
    else FindTargetFrom(siblings, self, name, from + 1)
  }

  function FindTarget(siblings: seq<Sibling>, self: nat, name: Option<string>): Option<nat> {
    FindTargetFrom(siblings, self, name, 0)
  }

  /**
   * SetTarget: the target is recorded, then a non-primitive target, or an
   * ordering operator on a target that is not a number, throws.
   */
  function SetTarget(st: Statement, j: nat, v: Value): (r: Result<Statement, VisError>)
    ensures r.Success? <==> v != NotPrimitive && (v.NumberValue? || st.op == Equal || st.op == NotEqual)
    ensures r.Success? ==> r.value == st.(target := Some(j))
  {
    if v == NotPrimitive then Failure(NonPrimitiveTarget)
    else if !v.NumberValue? && st.op != Equal && st.op != NotEqual then Failure(InvalidOperation)
    else Success(st.(target := Some(j)))
  }

  /** Parse one statement and bind it; a statement with no matching sibling stays unbound. */
  function BindText(text: string, siblings: seq<Sibling>, self: nat): Result<Statement, VisError> {
    match Parse(text)
    case Failure(e) => Failure(e)
    case Success(st) =>
      match FindTarget(siblings, self, st.targetName)
      case None => Success(st)
      case Some(j) => SetTarget(st, siblings[j].id, siblings[j].value)
  }

  /** Apply `f` to every element in order, stopping at the first failure. */
  function MapAll<A, B>(xs: seq<A>, f: A -> Result<B, VisError>): Result<seq<B>, VisError>
    decreases |xs|
  {
    if |xs| == 0 then Success([])
    else
      match MapAll(xs[..|xs| - 1], f)
      case Failure(e) => Failure(e)
      case Success(front) =>
        match f(xs[|xs| - 1])
        case Failure(e) => Failure(e)
        case Success(b) => Success(front + [b])
  }

  /** MapAll succeeds iff every element does, and then holds each element's result in order. */
  lemma {:induction false} MapAllPointwise<A, B>(xs: seq<A>, f: A -> Result<B, VisError>)
    ensures var r := MapAll(xs, f);
      && (r.Success? <==> forall k | 0 <= k < |xs| :: f(xs[k]).Success?)
      && (r.Success? ==> |r.value| == |xs| && forall k | 0 <= k < |xs| :: f(xs[k]) == Success(r.value[k]))
    decreases |xs|
  {
    if |xs| > 0 {
      var init := xs[..|xs| - 1];
      MapAllPointwise(init, f);
      assert forall k | 0 <= k < |init| :: init[k] == xs[k];
    }
  }

  /** The first failure is the one MapAll reports. */
  lemma {:induction false} MapAllFirstFailure<A, B>(xs: seq<A>, f: A -> Result<B, VisError>, k: nat)
    requires k < |xs| && MapAll(xs[..k], f).Success? && f(xs[k]).Failure?
    ensures MapAll(xs, f) == Failure(f(xs[k]).error)
    decreases |xs|
  {
    if |xs| > k + 1 {
      var front := xs[..|xs| - 1];
      assert front[..k] == xs[..k] && front[k] == xs[k];
      MapAllFirstFailure(front, f, k);
    } else {
      assert xs[..|xs| - 1] == xs[..k];
    }
  }

  lemma MapAllSnoc<A, B>(xs: seq<A>, f: A -> Result<B, VisError>, k: nat, front: seq<B>, b: B)
    requires k < |xs| && MapAll(xs[..k], f) == Success(front) && f(xs[k]) == Success(b)
    ensures MapAll(xs[..k + 1], f) == Success(front + [b])
  {
    assert xs[..k + 1][..k] == xs[..k];
  }

  function StatementBinder(siblings: seq<Sibling>, self: nat): string -> Result<Statement, VisError> {
    t => BindText(t, siblings, self)
  }

  function AndPieces(orgroup: string): seq<string> {
    RemoveEmpty(SplitOn(orgroup, "&&"))
  }

  function OrPieces(visibleIf: string): seq<string> {
    RemoveEmpty(SplitOn(visibleIf, "||"))
  }

  function GroupBinder(siblings: seq<Sibling>, self: nat): string -> Result<seq<Statement>, VisError> {
    g => MapAll(AndPieces(g), StatementBinder(siblings, self))
  }

  /** The VisibleIfStatements that UpdateVisibleIfBinding builds, or the exception it throws. */
  function Binding(visibleIf: Option<string>, siblings: seq<Sibling>, self: nat): Result<seq<seq<Statement>>, VisError> {
    match visibleIf
    case None => Success([])
    case Some(v) => MapAll(OrPieces(v), GroupBinder(siblings, self))
  }

  /**
   * What a loop leaves in its list when it appends `f(x)` for each `x` in order
   * and throws at the first failure, after the failing element has added `left(x)`.
   */
  function Built<A, B>(xs: seq<A>, f: A -> Result<B, VisError>, left: A -> seq<B>): (r: seq<B>)
    ensures MapAll(xs, f).Success? ==> r == MapAll(xs, f).value
    decreases |xs|
  {
    if |xs| == 0 then []
    else
      match MapAll(xs[..|xs| - 1], f)
      case Failure(_) => Built(xs[..|xs| - 1], f, left)
      case Success(front) =>
        match f(xs[|xs| - 1])
        case Success(b) => front + [b]
        case Failure(_) => front + left(xs[|xs| - 1])
  }

  /** When element k is the first to fail, the list holds the results before it and what it left. */
  lemma {:induction false} BuiltAtFailure<A, B>(xs: seq<A>, f: A -> Result<B, VisError>, left: A -> seq<B>, k: nat, front: seq<B>)
    requires k < |xs| && MapAll(xs[..k], f) == Success(front) && f(xs[k]).Failure?
    ensures Built(xs, f, left) == front + left(xs[k])
    decreases |xs|
  {
    if |xs| > k + 1 {
      var init := xs[..|xs| - 1];
      assert init[..k] == xs[..k] && init[k] == xs[k];
      MapAllFirstFailure(init, f, k);
      BuiltAtFailure(init, f, left, k, front);
    } else {
      assert xs[..|xs| - 1] == xs[..k];
    }
  }

  /**
   * The statement a failing `text` leaves in its group: none when the
   * constructor throws (it is added only once built), and the statement with
   * its target already recorded when SetTarget throws.
   */
  function StatementLeft(text: string, siblings: seq<Sibling>, self: nat): (r: seq<Statement>)
    ensures BindText(text, siblings, self).Success? ==> r == [BindText(text, siblings, self).value]
    ensures Parse(text).Failure? <==> r == []
  {
    match Parse(text)
    case Failure(_) => []
    case Success(st) =>
      match FindTarget(siblings, self, st.targetName)
      case None => [st]
      case Some(j) => [st.(target := Some(siblings[j].id))]
  }

  function StatementLefter(siblings: seq<Sibling>, self: nat): string -> seq<Statement> {
    t => StatementLeft(t, siblings, self)
  }

  /** A failing OR group stays in the list (it is added before its statements), holding what was built of it. */
  function GroupLefter(siblings: seq<Sibling>, self: nat): string -> seq<seq<Statement>> {
    g => [Built(AndPieces(g), StatementBinder(siblings, self), StatementLefter(siblings, self))]
  }

  /**
   * The VisibleIfStatements UpdateVisibleIfBinding leaves: the binding when it
   * succeeds, and otherwise the groups and statements built up to the one that threw.
   */
  function BindingLeft(visibleIf: Option<string>, siblings: seq<Sibling>, self: nat): (r: seq<seq<Statement>>)
    ensures Binding(visibleIf, siblings, self).Success? ==> r == Binding(visibleIf, siblings, self).value
  {
    match visibleIf
    case None => []
    case Some(v) => Built(OrPieces(v), GroupBinder(siblings, self), GroupLefter(siblings, self))
  }

  /** How UpdateVisibleIfBinding leaves its item: the groups it built, and the exception it threw, if any. */
  datatype Rebinding = Rebinding(groups: seq<seq<Statement>>, thrown: Option<VisError>)

  /** UpdateVisibleIfBinding as one value: all the groups on success, the partial list and the exception otherwise. */
  function Rebind(visibleIf: Option<string>, siblings: seq<Sibling>, self: nat): Rebinding {
    match Binding(visibleIf, siblings, self)
    case Success(gs) => Rebinding(gs, None)
    case Failure(e) => Rebinding(BindingLeft(visibleIf, siblings, self), Some(e))
  }

  /**
   * UpdateVisibleIfBinding throws exactly when the binding fails, and then the
   * binding's exception; when it does not, it leaves the binding's groups.
   */
  lemma RebindMeaning(visibleIf: Option<string>, siblings: seq<Sibling>, self: nat)
    ensures var r := Rebind(visibleIf, siblings, self);
      var b := Binding(visibleIf, siblings, self);
      && (r.thrown.None? <==> b.Success?)
      && (b.Success? ==> r.groups == b.value)
      && (b.Failure? ==> r.thrown == Some(b.error))
  {
  }

  /**
   * A bound statement refers to the first other sibling with its target name,
   * which is primitive; an unbound one has no such sibling.
   */
  predicate TargetOk(st: Statement, siblings: seq<Sibling>, self: nat) {
    match FindTarget(siblings, self, st.targetName)
    case None => st.target.None?
    case Some(k) => st.target == Some(siblings[k].id) && siblings[k].value != NotPrimitive
  }

  /** Every statement of every group is bound as TargetOk says. */
  predicate GroupsBound(gs: seq<seq<Statement>>, siblings: seq<Sibling>, self: nat) {
    forall i, k | 0 <= i < |gs| && 0 <= k < |gs[i]| :: TargetOk(gs[i][k], siblings, self)
  }

  /** Every statement of a successful binding is bound as TargetOk says. */
  lemma BindingTargets(visibleIf: Option<string>, siblings: seq<Sibling>, self: nat)
    requires Binding(visibleIf, siblings, self).Success?
    ensures GroupsBound(Binding(visibleIf, siblings, self).value, siblings, self)
  {
    var gs := Binding(visibleIf, siblings, self).value;
    if visibleIf.None? {
      return;
    }
    var ors := OrPieces(visibleIf.value);
    MapAllPointwise(ors, GroupBinder(siblings, self));
    forall i, k | 0 <= i < |gs| && 0 <= k < |gs[i]|
      ensures TargetOk(gs[i][k], siblings, self)
    {
      assert GroupBinder(siblings, self)(ors[i]) == Success(gs[i]);
      var ands := AndPieces(ors[i]);
      MapAllPointwise(ands, StatementBinder(siblings, self));
      assert StatementBinder(siblings, self)(ands[k]) == Success(gs[i][k]);
      BoundTextTarget(ands[k], siblings, self, gs[i][k]);
    }
  }

  /** A statement that BindText bound successfully is bound as TargetOk says. */
  lemma BoundTextTarget(text: string, siblings: seq<Sibling>, self: nat, st: Statement)
    requires BindText(text, siblings, self) == Success(st)
    ensures TargetOk(st, siblings, self)
  {
    var parsed := Parse(text).value;
    assert st.targetName == parsed.targetName;
  }

  /**
   * One statement of UpdateVisibleIfBinding: construct it, then search the
   * siblings for its target. `added` is what the group gains: the statement
   * once constructed, with its target when one was found.
   */
  method BindStatement(text: string, siblings: seq<Sibling>, self: nat) returns (r: Result<Statement, VisError>, added: seq<Statement>)
    ensures r == BindText(text, siblings, self)
    ensures added == StatementLeft(text, siblings, self)
  {
    var stmnt := NewStatement(text);
    if stmnt.Failure? {
      return Failure(stmnt.error), [];
    }
    var st := stmnt.value;
    // find the referenced element and bind to it
    var j := 0;
    while j < |siblings|
      invariant 0 <= j <= |siblings|
      invariant FindTargetFrom(siblings, self, st.targetName, j) == FindTarget(siblings, self, st.targetName)
    {
      if siblings[j].id != self && siblings[j].name == st.targetName {
        break;
      }
      j := j + 1;
    }
    if j < |siblings| {
      r := SetTarget(st, siblings[j].id, siblings[j].value);
      added := [st.(target := Some(siblings[j].id))];
    } else {
      r := Success(st);
      added := [st];
    }
  }

  /**
   * One OR group of UpdateVisibleIfBinding: its `&&` pieces bound in order.
   * `group` is the list as the loop leaves it, also when a statement throws.
   */
  method BindGroup(orgroup: string, siblings: seq<Sibling>, self: nat) returns (r: Result<seq<Statement>, VisError>, group: seq<Statement>)
    ensures r == GroupBinder(siblings, self)(orgroup)
    ensures group == Built(AndPieces(orgroup), StatementBinder(siblings, self), StatementLefter(siblings, self))
  {
    var statements := AndPieces(orgroup);
    group := [];
    var k := 0;
    while k < |statements|
      invariant 0 <= k <= |statements|
      invariant MapAll(statements[..k], StatementBinder(siblings, self)) == Success(group)
    {
      var st, added := BindStatement(statements[k], siblings, self);
      if st.Failure? {
        MapAllFirstFailure(statements, StatementBinder(siblings, self), k);
        BuiltAtFailure(statements, StatementBinder(siblings, self), StatementLefter(siblings, self), k, group);
        return Failure(st.error), group + added;
      }
      MapAllSnoc(statements, StatementBinder(siblings, self), k, group, st.value);
      group := group + [st.value];
      k := k + 1;
    }
    assert statements[..k] == statements;
    return Success(group), group;
  }

  /**
   * UpdateVisibleIfBinding: clears the groups and rebuilds them group by group.
   * `groups` is VisibleIfStatements afterwards, also when a statement throws.
   */
  method UpdateVisibleIfBinding(visibleIf: Option<string>, siblings: seq<Sibling>, self: nat) returns (b: Rebinding)
    ensures b == Rebind(visibleIf, siblings, self)
  {
    var groups := [];
    if visibleIf.None? {
      return Rebinding(groups, None);
    }
    var orgroups := OrPieces(visibleIf.value);
    var i := 0;
    while i < |orgroups|
      invariant 0 <= i <= |orgroups|
      invariant MapAll(orgroups[..i], GroupBinder(siblings, self)) == Success(groups)
    {
      var group, built := BindGroup(orgroups[i], siblings, self);
      if group.Failure? {
        MapAllFirstFailure(orgroups, GroupBinder(siblings, self), i);
        BuiltAtFailure(orgroups, GroupBinder(siblings, self), GroupLefter(siblings, self), i, groups);
        return Rebinding(groups + [built], Some(group.error));
      }
      MapAllSnoc(orgroups, GroupBinder(siblings, self), i, groups, group.value);
      groups := groups + [group.value];
      i := i + 1;
    }
    assert orgroups[..i] == orgroups;
    return Rebinding(groups, None);
  }

  // ---------------------------------------------------------------------------
  // Evaluation

  /** bool.Parse: "true" or "false" in any letter case, surrounding white space ignored. */
  function ParseBool(s: string): Option<bool> {
    if EqualsIgnoreCase(Trim(s), "true") then Some(true)
    else if EqualsIgnoreCase(Trim(s), "false") then Some(false)
    else None
  }

  function Compare(op: Operator, a: int, b: int): bool {
    match op
    case Equal => a == b
    case NotEqual => a != b
    case LessThan => a < b
    case LessThanOrEqual => a <= b
    case GreaterThan => a > b
    case GreaterThanOrEqual => a >= b
  }

  /**
   * The string test: the value equals the literal, or the literal is a comma
   * list of more than one entry and the value is one of them.
   */
  predicate TextEqual(val: Option<string>, literal: string) {
    val == Some(literal) || (|Split(literal, ',')| > 1 && val.Some? && val.value in Split(literal, ','))
  }

  /** Statement.Evaluate against the current sibling values. */
  function Evaluate(st: Statement, values: map<nat, Value>): (r: Result<bool, VisError>)
    requires st.target.Some? ==> st.target.value in values
    ensures st.target.None? ==> r == Success(false)
  {
    match st.target
    case None => Success(false)
    case Some(j) =>
      match values[j]
      case NumberValue(n) =>
        if st.targetValue.None? then Failure(NullLiteral)
        else
          (match ParseInt(st.targetValue.value)
           case None => Failure(BadLiteral)
           case Some(t) => Success(Compare(st.op, n, t)))
      case BoolValue(b) =>
        if st.targetValue.None? then Failure(NullLiteral)
        else
          (match ParseBool(st.targetValue.value)
           case None => Failure(BadLiteral)
           case Some(t) =>
             if st.op == Equal then Success(b == t)
             else if st.op == NotEqual then Success(b != t)
             else Failure(InvalidOperation))
      case TextValue(v) =>
        if st.targetValue.None? then Failure(NullLiteral)
        else if st.op == Equal then Success(TextEqual(v, st.targetValue.value))
        else if st.op == NotEqual then Success(!TextEqual(v, st.targetValue.value))
        else Failure(InvalidOperation)
      case NotPrimitive =>
        // GetValue() of a non-primitive is null and the literal is compared as text
        if st.targetValue.None? then Failure(NullLiteral)
        else if st.op == Equal then Success(TextEqual(None, st.targetValue.value))
        else if st.op == NotEqual then Success(!TextEqual(None, st.targetValue.value))
        else Failure(InvalidOperation)
  }

  /** For a text target, `==` and `!=` are each other's negation. */
  lemma TextNotEqualNegates(st: Statement, values: map<nat, Value>)
    requires st.target.Some? && st.target.value in values && values[st.target.value].TextValue?
    requires st.op == Equal && st.targetValue.Some?
    ensures Evaluate(st, values).Success? && Evaluate(st.(op := NotEqual), values).Success?
    ensures Evaluate(st.(op := NotEqual), values).value == !Evaluate(st, values).value
  {
  }

  /** A comma list literal matches exactly its entries. */
  lemma CommaListMembership(val: string, entries: seq<string>)
    requires |entries| > 1 && forall k | 0 <= k < |entries| :: !Contains(entries[k], ",")
    ensures TextEqual(Some(val), Join(",", entries)) <==> val in entries || val == Join(",", entries)
  {
    JoinSplitOn(Join(",", entries), ",");
    SplitJoin(entries, ",");
  }

  lemma IndexOfAbsent(s: string, p: string)
    requires !Contains(s, p)
    ensures IndexOf(s, p).None?
  {
  }

  /** Every statement of every group refers to an existing sibling, if bound. */
  predicate WellBound(groups: seq<seq<Statement>>, values: map<nat, Value>) {
    forall i | 0 <= i < |groups| :: InRange(groups[i], values)
  }

  predicate InRange(group: seq<Statement>, values: map<nat, Value>) {
    forall k | 0 <= k < |group| :: group[k].target.Some? ==> group[k].target.value in values
  }

  /** Every statement of the group evaluates to true. */
  predicate AllHold(group: seq<Statement>, values: map<nat, Value>)
    requires InRange(group, values)
  {
    forall k | 0 <= k < |group| :: Evaluate(group[k], values) == Success(true)
  }

  /** An AND group: statements in order, stopping at the first false. */
  function GroupHolds(group: seq<Statement>, values: map<nat, Value>): (r: Result<bool, VisError>)
    requires InRange(group, values)
    ensures r == Success(true) <==> AllHold(group, values)
    ensures (forall k | 0 <= k < |group| :: Evaluate(group[k], values).Success?) ==> r.Success?
  {
    if |group| == 0 then Success(true)
    else
      match Evaluate(group[0], values)
      case Failure(e) => Failure(e)
      case Success(b) =>
        if !b then Success(false)
        else
          assert forall k | 1 <= k < |group| :: group[1..][k - 1] == group[k];
          assert InRange(group[1..], values);
          GroupHolds(group[1..], values)
  }

  /**
   * IsVisibleFromBindings: true with no groups; otherwise the groups are tried
   * in order and the first one that holds makes it true.
   */
  function VisibleFromBindings(groups: seq<seq<Statement>>, values: map<nat, Value>): (r: Result<bool, VisError>)
    requires WellBound(groups, values)
  {
    if |groups| == 0 then Success(true) else AnyGroupHolds(groups, values)
  }

  function AnyGroupHolds(groups: seq<seq<Statement>>, values: map<nat, Value>): (r: Result<bool, VisError>)
    requires WellBound(groups, values)
    ensures r == Success(true) ==> exists i | 0 <= i < |groups| :: GroupHolds(groups[i], values) == Success(true)
    ensures r == Success(false) ==> forall i | 0 <= i < |groups| :: GroupHolds(groups[i], values) == Success(false)
    ensures (forall i | 0 <= i < |groups| :: GroupHolds(groups[i], values).Success?) ==> r.Success?
  {
    if |groups| == 0 then Success(false)
    else
      match GroupHolds(groups[0], values)
      case Failure(e) => Failure(e)
      case Success(b) =>
        if b then Success(true)
        else
          assert forall i | 1 <= i < |groups| :: groups[1..][i - 1] == groups[i];
          AnyGroupHolds(groups[1..], values)
  }

  /**
   * When evaluation raises nothing, the item is visible iff there are no groups
   * or some group has every statement true.
   */
  lemma VisibleIffSomeGroupHolds(groups: seq<seq<Statement>>, values: map<nat, Value>)
    requires WellBound(groups, values)
    requires forall i, k | 0 <= i < |groups| && 0 <= k < |groups[i]| :: Evaluate(groups[i][k], values).Success?
    ensures VisibleFromBindings(groups, values).Success?
    ensures VisibleFromBindings(groups, values).value <==>
      |groups| == 0 || exists i | 0 <= i < |groups| :: AllHold(groups[i], values)
  {
    if |groups| > 0 {
      var r := AnyGroupHolds(groups, values);
      forall i | 0 <= i < |groups|
        ensures GroupHolds(groups[i], values).Success?
      {
        assert forall k | 0 <= k < |groups[i]| :: Evaluate(groups[i][k], values).Success?;
      }
      assert r.Success?;
      if r.value {
        var i :| 0 <= i < |groups| && GroupHolds(groups[i], values) == Success(true);
        assert AllHold(groups[i], values);
      } else {
        forall i | 0 <= i < |groups|
          ensures !AllHold(groups[i], values)
        {
          assert GroupHolds(groups[i], values) == Success(false);
        }
      }
    }
  }

  // ---------------------------------------------------------------------------
  // The finding: "a<=5" as written

  lemma NoOccurrence(s: string, p: string)
    requires |p| > 0 && forall i | 0 <= i < |s| :: s[i] != p[0]
    ensures !Contains(s, p)
  {
    forall j | 0 <= j <= |s|
      ensures !OccursAt(s, p, j)
    {
      if j + |p| <= |s| {
        assert s[j..j + |p|][0] == s[j];
      }
    }
  }

  /** Splitting name + "<=" + value at "<" (or at ">" for ">=") leaves the "=" on the literal. */
  lemma ShorterSplit(name: string, longer: Operator, shorter: Operator, value: string)
    requires (longer, shorter) == (LessThanOrEqual, LessThan) || (longer, shorter) == (GreaterThanOrEqual, GreaterThan)
    requires NoOpChars(name) && NoOpChars(value)
    ensures SplitOn(name + OpText(longer) + value, OpText(shorter)) == [name, "=" + value]
  {
    var sep, rest := OpText(shorter), "=" + value;
    var s := name + OpText(longer) + value;
    assert s == name + sep + rest;
    forall j | 0 <= j < |name|
      ensures !OccursAt(s, sep, j)
    {
      assert s[j..j + 1][0] == s[j] == name[j];
    }
    assert OccursAt(s, sep, |name|) by {
      assert s[|name|..|name| + 1] == sep;
    }
    assert IndexOf(s, sep) == Some(|name|);
    assert s[..|name|] == name && s[|name| + 1..] == rest;
    NoOccurrence(rest, sep);
    IndexOfAbsent(rest, sep);
  }

  /**
   * As written, `name <= value` is read as `name < "=value"` (and `>=` as `>`
   * with "=value"): the one-character operator is tried first.
   */
  lemma AsWrittenMisreadsOrEqual(name: string, longer: Operator, shorter: Operator, value: string)
    requires (longer, shorter) == (LessThanOrEqual, LessThan) || (longer, shorter) == (GreaterThanOrEqual, GreaterThan)
    requires NoOpChars(name) && NoOpChars(value) && name != ""
    ensures ParseAsWritten(name + OpText(longer) + value)
         == Success(Statement(shorter, Some(Trim(name)), Some(Trim("=" + value)), None))
  {
    var s := name + OpText(longer) + value;
    var k := if shorter == LessThan then 2 else 4;
    assert DeclarationOrder[k] == shorter;
    forall j | 0 <= j < k
      ensures !Contains(s, OpText(DeclarationOrder[j]))
    {
      OperatorAbsent(name, longer, value, DeclarationOrder[j]);
    }
    PrintedContainsOp(name, longer, value);
    LongerContainsShorter(s, longer, shorter);
    FirstOccurringIs(DeclarationOrder, s, 0, k);
    ShorterSplit(name, longer, shorter, value);
    var pieces := [name, "=" + value];
    assert RemoveEmpty(pieces) == pieces by {
      assert pieces[1..] == ["=" + value];
    }
  }

  /** ...and the misread statement, bound to a number target, throws when it is evaluated. */
  lemma MisreadNumberThrows(name: string, shorter: Operator, value: string, values: map<nat, Value>, t: nat)
    requires shorter == LessThan || shorter == GreaterThan
    requires t in values && values[t].NumberValue?
    ensures Evaluate(Statement(shorter, Some(Trim(name)), Some(Trim("=" + value)), Some(t)), values) == Failure(BadLiteral)
  {
    var lit := Trim("=" + value);
    TrimKeepsFirst("=" + value);
    TrimKeepsFirst(lit);
    assert ParseInt(lit) == None by {
      var t := Trim(lit);
      assert !IsDigit(t[0]) && t[0] != '-' && t[0] != '+';
    }
  }
}
