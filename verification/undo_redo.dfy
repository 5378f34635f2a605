/**
 * The undo/redo transaction log of the editor (UndoRedoManager, UndoRedoGroup,
 * UndoRedoAction).
 *
 * The do/undo closures become transformers of an abstract document state `D`,
 * and the manager carries that state in its `doc` field. The wall clock becomes
 * an explicit `now` argument in milliseconds. The object identity of a group,
 * which the save point compares against, is a fresh number handed out from a
 * counter. The error dialog of a nested call is the `warned` flag.
 *
 * Stacks are sequences whose LAST element is the top.
 */
module UndoRedo {
  import opened Wrappers
  import Text

  /** UndoRedoManager.GroupingMS starts out at 500. */
  const DefaultGroupingMS: int := 500

  /** UndoRedoAction: a do transformer, its undo transformer and a description. */
  datatype Action<!D> = Action(do: D -> D, undo: D -> D, desc: string)

  /** UndoRedoGroup; `id` stands for the group object's identity. */
  datatype Group<!D> = Group(id: nat, actions: seq<Action<D>>, lastActionTime: int)

  /**
   * What MarkSavePoint remembers: the identity of the undo top and, in this
   * model (see Modified), how many actions that group held at the time.
   */
  datatype SavePoint = SavePoint(id: nat, count: nat)

  /** The whole state of one UndoRedoManager, plus the document its actions edit. */
  datatype Log<!D> = Log(
    groupingMS: int,
    undoStack: seq<Group<D>>,
    redoStack: seq<Group<D>>,
    enableUndoRedo: int,
    isInApplyUndo: bool,
    savePoint: Option<SavePoint>,
    nextId: nat,
    doc: D,
    warned: bool)

  function Top<D>(st: seq<Group<D>>): Group<D>
    requires |st| > 0
  {
    st[|st| - 1]
  }

  function Pop<D>(st: seq<Group<D>>): seq<Group<D>>
    requires |st| > 0
  {
    st[..|st| - 1]
  }

  /** A fresh manager: GroupingMS 500, both stacks empty, recording enabled, no save point. */
  function Initial<D>(d: D): (s: Log<D>)
    ensures ValidLog(s)
  {
    Log(DefaultGroupingMS, [], [], 0, false, None, 0, d, false)
  }

  // ---------------------------------------------------------------------------
  // Running groups

  /** UndoRedoGroup.Do: every action's do, first action first. */
  function RunDo<D>(acts: seq<Action<D>>, d: D): D
    decreases |acts|
  {
    if |acts| == 0 then d else RunDo(acts[1..], acts[0].do(d))
  }

  /** UndoRedoGroup.Undo: every action's undo, last action first. */
  function RunUndo<D>(acts: seq<Action<D>>, d: D): D
    decreases |acts|
  {
    if |acts| == 0 then d else acts[0].undo(RunUndo(acts[1..], d))
  }

  /** Each action's undo takes the document back to the state its do started from. */
  ghost predicate InvertsAlong<D>(acts: seq<Action<D>>, d: D)
    decreases |acts|
  {
    |acts| == 0 || (acts[0].undo(acts[0].do(d)) == d && InvertsAlong(acts[1..], acts[0].do(d)))
  }

  lemma {:induction false} RunDoSnoc<D>(acts: seq<Action<D>>, x: Action<D>, d: D)
    ensures RunDo(acts + [x], d) == x.do(RunDo(acts, d))
    decreases |acts|
  {
    if |acts| > 0 {
      assert (acts + [x])[1..] == acts[1..] + [x];
      RunDoSnoc(acts[1..], x, acts[0].do(d));
    }
  }

  lemma {:induction false} RunUndoSnoc<D>(acts: seq<Action<D>>, x: Action<D>, d: D)
    ensures RunUndo(acts + [x], d) == RunUndo(acts, x.undo(d))
    decreases |acts|
  {
    if |acts| > 0 {
      assert (acts + [x])[1..] == acts[1..] + [x];
      RunUndoSnoc(acts[1..], x, d);
    } else {
      assert (acts + [x])[1..] == [];
    }
  }

  /** Undoing a group right after doing it restores the document. */
  lemma {:induction false} UndoAfterDo<D>(acts: seq<Action<D>>, d: D)
    requires InvertsAlong(acts, d)
    ensures RunUndo(acts, RunDo(acts, d)) == d
    decreases |acts|
  {
    if |acts| > 0 {
      var d1 := acts[0].do(d);
      UndoAfterDo(acts[1..], d1);
      assert RunUndo(acts[1..], RunDo(acts[1..], d1)) == d1;
    }
  }

  // ---------------------------------------------------------------------------
  // The operations of UndoRedoManager, as functions of the log state

  /** The grouping rule: join the top group iff there is one and it is recent enough. */
  predicate JoinsTop<D>(s: Log<D>, now: int) {
    |s.undoStack| > 0 && now - Top(s.undoStack).lastActionTime <= s.groupingMS
  }

  /** Appends `a` to the undo stack, merging it into the top group when JoinsTop. */
  function Record<D>(s: Log<D>, a: Action<D>, now: int): Log<D> {
    if JoinsTop(s, now) then
      var g := Top(s.undoStack);
      s.(undoStack := Pop(s.undoStack) + [g.(actions := g.actions + [a], lastActionTime := now)])
    else
      s.(undoStack := s.undoStack + [Group(s.nextId, [a], now)], nextId := s.nextId + 1)
  }

  /**
   * ApplyDoUndo(do, undo, desc) at time `now`. `inner` lists the ApplyDoUndo
   * calls that `do` itself issues while it runs (each runs its own do after the
   * outer one). With a disable scope open only the transformers run. During a
   * recorded do, a nested call shows the error and only runs its do. Otherwise
   * the redo stack is cleared and `a` is recorded.
   */
  function Applied<D>(s: Log<D>, a: Action<D>, now: int, inner: seq<Action<D>>): Log<D> {
    var done := RunDo(inner, a.do(s.doc));
    if s.enableUndoRedo != 0 then s.(doc := done)
    else if s.isInApplyUndo then s.(doc := done, warned := true)
    else Record(s.(doc := done, redoStack := [], warned := s.warned || |inner| > 0), a, now)
  }

  /** Undo(): pop the top group, run its undos in reverse, push it onto redo. */
  function Undone<D>(s: Log<D>): Log<D> {
    if |s.undoStack| == 0 then s
    else
      var g := Top(s.undoStack);
      s.(undoStack := Pop(s.undoStack), redoStack := s.redoStack + [g], doc := RunUndo(g.actions, s.doc))
  }

  /** Redo(): pop the redo top, run its dos forward, push it onto undo. */
  function Redone<D>(s: Log<D>): Log<D> {
    if |s.redoStack| == 0 then s
    else
      var g := Top(s.redoStack);
      s.(redoStack := Pop(s.redoStack), undoStack := s.undoStack + [g], doc := RunDo(g.actions, s.doc))
  }

  /** Undo(count): Undo() `n` times. */
  function UndoneN<D>(s: Log<D>, n: nat): Log<D> {
    if n == 0 then s else Undone(UndoneN(s, n - 1))
  }

  /** Redo(count): Redo() `n` times. */
  function RedoneN<D>(s: Log<D>, n: nat): Log<D> {
    if n == 0 then s else Redone(RedoneN(s, n - 1))
  }

  /** DisableUndoScope(): the counter goes down by one. */
  function ScopeOpened<D>(s: Log<D>): Log<D> {
    s.(enableUndoRedo := s.enableUndoRedo - 1)
  }

  /** Disposing the scope's guard: the counter goes back up by one. */
  function ScopeClosed<D>(s: Log<D>): Log<D> {
    s.(enableUndoRedo := s.enableUndoRedo + 1)
  }

  /** MarkSavePoint(): remember the undo top, or nothing on an empty stack. */
  function SaveMarked<D>(s: Log<D>): Log<D> {
    if |s.undoStack| > 0 then
      s.(savePoint := Some(SavePoint(Top(s.undoStack).id, |Top(s.undoStack).actions|)))
    else s.(savePoint := None)
  }

  /** The UndoStack.Peek() of IsModified, which throws on an empty stack. */
  datatype PeekError = EmptyStack

  /**
   * IsModified as the source writes it: with no save point, "the undo stack is
   * non-empty"; with one, "the top group is not the saved object", where Peek
   * throws if the stack is empty.
   */
  function ModifiedAsWritten<D>(s: Log<D>): Result<bool, PeekError> {
    match s.savePoint
    case None => Success(|s.undoStack| != 0)
    case Some(sp) =>
      if |s.undoStack| == 0 then Failure(EmptyStack)
      else Success(Top(s.undoStack).id != sp.id)
  }

  /**
   * IsModified as evidently intended: the document differs from the saved one
   * unless the undo top is the saved group holding the same actions. An empty
   * stack below a save point counts as modified.
   */
  function Modified<D>(s: Log<D>): bool {
    match s.savePoint
    case None => |s.undoStack| != 0
    case Some(sp) =>
      |s.undoStack| == 0 || Top(s.undoStack).id != sp.id || |Top(s.undoStack).actions| != sp.count
  }


  /** The descriptions of a group's actions, in order. */
  function Descs<D>(acts: seq<Action<D>>): (r: seq<string>)
    ensures |r| == |acts| && forall k | 0 <= k < |acts| :: r[k] == acts[k].desc
  {
    seq(|acts|, k requires 0 <= k < |acts| => acts[k].desc)
  }

  /** Position of the first occurrence of `x` in `xs`. */
  function FirstIndex(xs: seq<string>, x: string): (k: nat)
    requires x in xs
    ensures k < |xs| && xs[k] == x
    ensures forall j | 0 <= j < k :: xs[j] != x
  {
    if xs[0] == x then 0 else 1 + FirstIndex(xs[1..], x)
  }

  lemma FirstIndexPrefix(xs: seq<string>, n: nat, x: string)
    requires n <= |xs| && x in xs[..n]
    ensures FirstIndex(xs, x) == FirstIndex(xs[..n], x)
  {
    var k := FirstIndex(xs[..n], x);
    var m := FirstIndex(xs, x);
    assert xs[k] == x;
    assert m <= k;
    assert xs[..n][m] == x;
  }

  /** Enumerable.Distinct: each value once, in order of first occurrence. */
  function Distinct(xs: seq<string>): (r: seq<string>)
    ensures forall x :: x in r <==> x in xs
    ensures forall i, j | 0 <= i < j < |r| :: r[i] != r[j]
    ensures forall i, j | 0 <= i < j < |r| :: FirstIndex(xs, r[i]) < FirstIndex(xs, r[j])
    decreases |xs|
  {
    if |xs| == 0 then []
    else
      var front := xs[..|xs| - 1];
      var last := xs[|xs| - 1];
      var p := Distinct(front);
      assert xs == front + [last];
      assert forall x | x in p :: FirstIndex(xs, x) == FirstIndex(front, x) by {
        forall x | x in p
          ensures FirstIndex(xs, x) == FirstIndex(front, x)
        {
          FirstIndexPrefix(xs, |xs| - 1, x);
        }
      }
      if last in p then p
      else
        assert FirstIndex(xs, last) == |xs| - 1;
        p + [last]
  }

  /** UndoRedoGroup.Desc */
  function GroupDesc<D>(g: Group<D>): string {
    Text.Join(",", Distinct(Descs(g.actions)))
  }

  // ---------------------------------------------------------------------------
  // Well-formedness. The timeline lists every group from the oldest undo entry
  // to the newest redo entry; Undo and Redo only move the cursor along it.

  /** The sequence backwards. */
  function Reversed<T>(r: seq<T>): (q: seq<T>)
    ensures |q| == |r|
  {
    if |r| == 0 then [] else Reversed(r[1..]) + [r[0]]
  }

  lemma {:induction false} ReversedSnoc<T>(r: seq<T>, g: T)
    ensures Reversed(r + [g]) == [g] + Reversed(r)
    decreases |r|
  {
    if |r| == 0 {
      assert Reversed([g]) == Reversed([g][1..]) + [g];
    } else {
      assert (r + [g])[1..] == r[1..] + [g];
      ReversedSnoc(r[1..], g);
    }
  }

  function Timeline<D>(s: Log<D>): seq<Group<D>> {
    s.undoStack + Reversed(s.redoStack)
  }

  predicate GroupOk<D>(s: Log<D>, g: Group<D>) {
    && g.id < s.nextId
    && |g.actions| > 0
    && (s.savePoint.Some? && g.id == s.savePoint.value.id ==> s.savePoint.value.count <= |g.actions|)
  }

  /**
   * Group identities increase along the timeline and are below the counter;
   * the group that carries the save point's identity holds at least as many
   * actions as were saved.
   */
  predicate ValidLog<D>(s: Log<D>) {
    && (s.savePoint.Some? ==> s.savePoint.value.id < s.nextId)
    && (forall i, j | 0 <= i < j < |Timeline(s)| :: Timeline(s)[i].id < Timeline(s)[j].id)
    && (forall i | 0 <= i < |Timeline(s)| :: GroupOk(s, Timeline(s)[i]))
  }

  /** Moving the boundary between two stacks by one group keeps their timeline. */
  lemma MoveKeepsTimeline<D>(u: seq<Group<D>>, r: seq<Group<D>>, g: Group<D>)
    ensures (u + [g]) + Reversed(r) == u + Reversed(r + [g])
  {
    ReversedSnoc(r, g);
    assert Reversed(r + [g]) == [g] + Reversed(r);
  }

  /** Undo leaves the timeline as it is. */
  lemma UndoneTimeline<D>(s: Log<D>)
    ensures Timeline(Undone(s)) == Timeline(s)
  {
    if |s.undoStack| > 0 {
      var g := Top(s.undoStack);
      assert s.undoStack == Pop(s.undoStack) + [g];
      MoveKeepsTimeline(Pop(s.undoStack), s.redoStack, g);
    }
  }

  /** Redo leaves the timeline as it is. */
  lemma RedoneTimeline<D>(s: Log<D>)
    ensures Timeline(Redone(s)) == Timeline(s)
  {
    if |s.redoStack| > 0 {
      var g := Top(s.redoStack);
      assert s.redoStack == Pop(s.redoStack) + [g];
      MoveKeepsTimeline(s.undoStack, Pop(s.redoStack), g);
    }
  }

  lemma ValidLogFrame<D>(s: Log<D>, t: Log<D>)
    requires ValidLog(s)
    requires Timeline(t) == Timeline(s) && t.savePoint == s.savePoint && t.nextId == s.nextId
    ensures ValidLog(t)
  {
    assert forall g :: GroupOk(t, g) == GroupOk(s, g);
  }

  lemma UndoneValid<D>(s: Log<D>)
    requires ValidLog(s)
    ensures ValidLog(Undone(s))
  {
    UndoneTimeline(s);
    ValidLogFrame(s, Undone(s));
  }

  lemma RedoneValid<D>(s: Log<D>)
    requires ValidLog(s)
    ensures ValidLog(Redone(s))
  {
    RedoneTimeline(s);
    ValidLogFrame(s, Redone(s));
  }

  lemma AppliedValid<D>(s: Log<D>, a: Action<D>, now: int, inner: seq<Action<D>>)
    requires ValidLog(s)
    ensures ValidLog(Applied(s, a, now, inner))
  {
    var t := Applied(s, a, now, inner);
    if s.enableUndoRedo != 0 || s.isInApplyUndo {
      ValidLogFrame(s, t);
    } else {
      var p := s.(doc := RunDo(inner, a.do(s.doc)), redoStack := [], warned := s.warned || |inner| > 0);
      DroppedRedoValid(s, p);
      if JoinsTop(p, now) {
        RecordJoinValid(p, a, now);
      } else {
        RecordFreshValid(p, a, now);
      }
    }
  }

  /** Recording does not look at or change the isInApplyUndo flag. */
  lemma RecordKeepsFlag<D>(p: Log<D>, a: Action<D>, now: int)
    ensures Record(p.(isInApplyUndo := true), a, now).(isInApplyUndo := p.isInApplyUndo) == Record(p, a, now)
  {
  }

  /** Clearing the redo stack keeps the log valid. */
  lemma DroppedRedoValid<D>(s: Log<D>, t: Log<D>)
    requires ValidLog(s)
    requires t.undoStack == s.undoStack && t.redoStack == [] && t.savePoint == s.savePoint && t.nextId == s.nextId
    ensures ValidLog(t)
  {
    var u := s.undoStack;
    assert Timeline(t) == u;
    assert forall i | 0 <= i < |u| :: u[i] == Timeline(s)[i];
    assert forall g :: GroupOk(t, g) == GroupOk(s, g);
  }

  /** Merging an action into the top group keeps a log without redo groups valid. */
  lemma RecordJoinValid<D>(p: Log<D>, a: Action<D>, now: int)
    requires ValidLog(p) && p.redoStack == [] && JoinsTop(p, now)
    ensures ValidLog(Record(p, a, now))
  {
    var t := Record(p, a, now);
    var u := p.undoStack;
    var n := |u| - 1;
    assert Timeline(p) == u;
    assert Timeline(t) == t.undoStack;
    assert |t.undoStack| == |u|;
    assert forall i | 0 <= i < n :: t.undoStack[i] == u[i];
    assert t.undoStack[n].id == u[n].id && |t.undoStack[n].actions| > |u[n].actions|;
    assert GroupOk(p, u[n]);
  }

  /** Pushing a new one-action group keeps a log without redo groups valid. */
  lemma RecordFreshValid<D>(p: Log<D>, a: Action<D>, now: int)
    requires ValidLog(p) && p.redoStack == [] && !JoinsTop(p, now)
    ensures ValidLog(Record(p, a, now))
  {
    var t := Record(p, a, now);
    var u := p.undoStack;
    assert Timeline(p) == u;
    assert Timeline(t) == t.undoStack;
    assert forall i | 0 <= i < |u| :: t.undoStack[i] == u[i];
    assert forall i | 0 <= i < |u| :: GroupOk(p, u[i]);
  }

  lemma SaveMarkedValid<D>(s: Log<D>)
    requires ValidLog(s)
    ensures ValidLog(SaveMarked(s))
  {
    var t := SaveMarked(s);
    assert Timeline(t) == Timeline(s);
    if |s.undoStack| > 0 {
      var n := |s.undoStack| - 1;
      assert Timeline(s)[n] == Top(s.undoStack);
      forall i | 0 <= i < |Timeline(t)|
        ensures GroupOk(t, Timeline(t)[i])
      {
        assert GroupOk(s, Timeline(s)[i]);
        if i < n {
          assert Timeline(s)[i].id < Timeline(s)[n].id;
        } else if i > n {
          assert Timeline(s)[n].id < Timeline(s)[i].id;
        }
      }
    }
  }

  // ---------------------------------------------------------------------------
  // Properties

  /**
   * A recorded ApplyDoUndo runs `do` (and the nested calls' dos) once, clears
   * redo and adds exactly one action: to the top group, refreshing its time,
   * iff JoinsTop, and as a new one-action group otherwise.
   */
  lemma AppliedRecordsOne<D>(s: Log<D>, a: Action<D>, now: int, inner: seq<Action<D>>)
    requires s.enableUndoRedo == 0 && !s.isInApplyUndo
    ensures var t := Applied(s, a, now, inner);
      && t.redoStack == []
      && t.doc == RunDo(inner, a.do(s.doc))
      && |t.undoStack| > 0 && Top(t.undoStack).lastActionTime == now
      && Top(t.undoStack).actions[|Top(t.undoStack).actions| - 1] == a
      && (JoinsTop(s, now) ==>
            && Pop(t.undoStack) == Pop(s.undoStack)
            && Top(t.undoStack).id == Top(s.undoStack).id
            && Top(t.undoStack).actions == Top(s.undoStack).actions + [a])
      && (!JoinsTop(s, now) ==>
            && Pop(t.undoStack) == s.undoStack
            && Top(t.undoStack) == Group(s.nextId, [a], now))
      && t.savePoint == s.savePoint && t.enableUndoRedo == 0 && !t.isInApplyUndo
  {
    var t := Applied(s, a, now, inner);
    if JoinsTop(s, now) {
      assert Pop(t.undoStack) == Pop(s.undoStack);
    } else {
      assert Pop(t.undoStack) == s.undoStack;
    }
  }

  /** The total number of actions held by a stack. */
  function ActionCount<D>(st: seq<Group<D>>): nat {
    if |st| == 0 then 0 else ActionCount(Pop(st)) + |Top(st).actions|
  }

  /** A recorded ApplyDoUndo adds exactly one action to the undo stack. */
  lemma AppliedCountsOne<D>(s: Log<D>, a: Action<D>, now: int, inner: seq<Action<D>>)
    requires s.enableUndoRedo == 0 && !s.isInApplyUndo
    ensures ActionCount(Applied(s, a, now, inner).undoStack) == ActionCount(s.undoStack) + 1
  {
    AppliedRecordsOne(s, a, now, inner);
  }

  /** With a disable scope open, ApplyDoUndo runs the dos and records nothing. */
  lemma AppliedWhileDisabled<D>(s: Log<D>, a: Action<D>, now: int, inner: seq<Action<D>>)
    requires s.enableUndoRedo != 0
    ensures Applied(s, a, now, inner) == s.(doc := RunDo(inner, a.do(s.doc)))
  {
  }

  /** A nested ApplyDoUndo during a recorded do warns, runs its do and records nothing. */
  lemma AppliedWhileNested<D>(s: Log<D>, a: Action<D>, now: int, inner: seq<Action<D>>)
    requires s.enableUndoRedo == 0 && s.isInApplyUndo
    ensures Applied(s, a, now, inner) == s.(doc := RunDo(inner, a.do(s.doc)), warned := true)
  {
  }

  function OpenScopes<D>(s: Log<D>, k: nat): Log<D> {
    if k == 0 then s else ScopeOpened(OpenScopes(s, k - 1))
  }

  function CloseScopes<D>(s: Log<D>, k: nat): Log<D> {
    if k == 0 then s else ScopeClosed(CloseScopes(s, k - 1))
  }

  lemma {:induction false} OpenCloseCounter<D>(s: Log<D>, k: nat)
    ensures OpenScopes(s, k) == s.(enableUndoRedo := s.enableUndoRedo - k)
    ensures CloseScopes(s, k) == s.(enableUndoRedo := s.enableUndoRedo + k)
  {
    if k > 0 {
      OpenCloseCounter(s, k - 1);
    }
  }

  /**
   * Scopes nest: inside k >= 1 open scopes (starting from an enabled log) an
   * ApplyDoUndo leaves both stacks alone, and closing the k scopes re-enables
   * recording with the counter back where it started.
   */
  lemma {:induction false} ScopesNest<D>(s: Log<D>, k: nat, a: Action<D>, now: int, inner: seq<Action<D>>)
    requires s.enableUndoRedo == 0 && k >= 1
    ensures var inside := Applied(OpenScopes(s, k), a, now, inner);
      && inside.undoStack == s.undoStack && inside.redoStack == s.redoStack
      && CloseScopes(inside, k) == s.(doc := inside.doc)
  {
    OpenCloseCounter(s, k);
    var inside := Applied(OpenScopes(s, k), a, now, inner);
    OpenCloseCounter(inside, k);
  }

  /** Undo then Redo restores both stacks, and the document when the top group inverts. */
  lemma UndoThenRedo<D>(s: Log<D>, d0: D)
    requires |s.undoStack| > 0
    requires s.doc == RunDo(Top(s.undoStack).actions, d0)
    requires InvertsAlong(Top(s.undoStack).actions, d0)
    ensures Undone(s).doc == d0
    ensures Redone(Undone(s)) == s
  {
    var g := Top(s.undoStack);
    UndoAfterDo(g.actions, d0);
    var u := Undone(s);
    assert Top(u.redoStack) == g && Pop(u.redoStack) == s.redoStack;
    assert Pop(s.undoStack) + [g] == s.undoStack;
  }

  /** Redo then Undo restores the whole log when the redone group inverts. */
  lemma RedoThenUndo<D>(s: Log<D>)
    requires |s.redoStack| > 0
    requires InvertsAlong(Top(s.redoStack).actions, s.doc)
    ensures Undone(Redone(s)) == s
  {
    var g := Top(s.redoStack);
    UndoAfterDo(g.actions, s.doc);
    var r := Redone(s);
    assert Top(r.undoStack) == g && Pop(r.undoStack) == s.undoStack;
    assert Pop(s.redoStack) + [g] == s.redoStack;
  }

  /** Undo makes redo available and Redo makes undo available. */
  lemma UndoRedoAvailability<D>(s: Log<D>)
    ensures |s.undoStack| > 0 ==> |Undone(s).redoStack| > 0 && |Undone(s).undoStack| == |s.undoStack| - 1
    ensures |s.redoStack| > 0 ==> |Redone(s).undoStack| > 0 && |Redone(s).redoStack| == |s.redoStack| - 1
    ensures |s.undoStack| == 0 ==> Undone(s) == s
    ensures |s.redoStack| == 0 ==> Redone(s) == s
  {
  }

  /** Right after MarkSavePoint the document is not modified. */
  lemma SavedIsUnmodified<D>(s: Log<D>)
    ensures !Modified(SaveMarked(s))
  {
  }

  /** Every recorded edit, merged into a group or not, makes the document modified. */
  lemma RecordedEditIsModified<D>(s: Log<D>, a: Action<D>, now: int, inner: seq<Action<D>>)
    requires ValidLog(s)
    requires s.enableUndoRedo == 0 && !s.isInApplyUndo
    ensures Modified(Applied(s, a, now, inner))
  {
    AppliedRecordsOne(s, a, now, inner);
    if s.savePoint.Some? && JoinsTop(s, now) {
      var n := |s.undoStack| - 1;
      assert Timeline(s)[n] == Top(s.undoStack);
      assert GroupOk(s, Timeline(s)[n]);
    }
  }

  /** Saving, making a separate edit and undoing it comes back to "not modified". */
  lemma UndoBackToSavePoint<D>(s: Log<D>, a: Action<D>, now: int)
    requires ValidLog(s)
    requires s.enableUndoRedo == 0 && !s.isInApplyUndo
    requires !JoinsTop(s, now)
    ensures !Modified(Undone(Applied(SaveMarked(s), a, now, [])))
  {
    var m := SaveMarked(s);
    AppliedRecordsOne(m, a, now, []);
  }

  // ---------------------------------------------------------------------------
  // A spaced-out run of edits can be undone and redone in full.

  /** ApplyDoUndo of acts[k] at time times[k], one after the other, none nested. */
  function ApplyAll<D>(s: Log<D>, acts: seq<Action<D>>, times: seq<int>): Log<D>
    requires |acts| == |times|
    decreases |acts|
  {
    if |acts| == 0 then s
    else Applied(ApplyAll(s, acts[..|acts| - 1], times[..|times| - 1]), acts[|acts| - 1], times[|times| - 1], [])
  }

  /** Every edit falls outside the grouping window of the one before it. */
  predicate Spaced<D>(s: Log<D>, times: seq<int>) {
    && (|times| > 0 && |s.undoStack| > 0 ==> times[0] - Top(s.undoStack).lastActionTime > s.groupingMS)
    && (forall k | 0 < k < |times| :: times[k] - times[k - 1] > s.groupingMS)
  }

  /** The one-action groups such a run pushes, with identities from `id` on. */
  function NewGroups<D>(acts: seq<Action<D>>, times: seq<int>, id: nat): (r: seq<Group<D>>)
    requires |acts| == |times|
    ensures |r| == |acts|
  {
    seq(|acts|, k requires 0 <= k < |acts| => Group(id + k, [acts[k]], times[k]))
  }

  /** A recorded ApplyDoUndo outside the grouping window pushes a one-action group. */
  lemma AppliedFresh<D>(p: Log<D>, a: Action<D>, now: int)
    requires p.enableUndoRedo == 0 && !p.isInApplyUndo && !JoinsTop(p, now)
    ensures Applied(p, a, now, []) == p.(
      undoStack := p.undoStack + [Group(p.nextId, [a], now)],
      redoStack := [],
      nextId := p.nextId + 1,
      doc := a.do(p.doc))
  {
  }

  lemma NewGroupsSnoc<D>(acts: seq<Action<D>>, times: seq<int>, id: nat)
    requires |acts| == |times| && |acts| > 0
    ensures NewGroups(acts, times, id)
         == NewGroups(acts[..|acts| - 1], times[..|times| - 1], id)
            + [Group(id + (|acts| - 1), [acts[|acts| - 1]], times[|times| - 1])]
  {
  }

  /** The log after a spaced run of `acts` from `s`: one new group per action. */
  function AfterRun<D>(s: Log<D>, acts: seq<Action<D>>, times: seq<int>): Log<D>
    requires |acts| == |times|
  {
    s.(undoStack := s.undoStack + NewGroups(acts, times, s.nextId),
       redoStack := if |acts| == 0 then s.redoStack else [],
       nextId := s.nextId + |acts|,
       doc := RunDo(acts, s.doc))
  }

  lemma SpacedNoJoin<D>(s: Log<D>, acts: seq<Action<D>>, times: seq<int>)
    requires |acts| == |times| && |acts| > 0 && Spaced(s, times)
    ensures !JoinsTop(AfterRun(s, acts[..|acts| - 1], times[..|times| - 1]), times[|times| - 1])
  {
    var n := |acts|;
    var p := AfterRun(s, acts[..n - 1], times[..n - 1]);
    if n > 1 {
      assert Top(p.undoStack) == NewGroups(acts[..n - 1], times[..n - 1], s.nextId)[n - 2];
    }
  }

  lemma AfterRunStep<D>(s: Log<D>, acts: seq<Action<D>>, times: seq<int>)
    requires |acts| == |times| && |acts| > 0 && s.enableUndoRedo == 0 && !s.isInApplyUndo
    requires !JoinsTop(AfterRun(s, acts[..|acts| - 1], times[..|times| - 1]), times[|times| - 1])
    ensures Applied(AfterRun(s, acts[..|acts| - 1], times[..|times| - 1]), acts[|acts| - 1], times[|times| - 1], [])
         == AfterRun(s, acts, times)
  {
    var n := |acts|;
    var fa, ft := acts[..n - 1], times[..n - 1];
    var p := AfterRun(s, fa, ft);
    AppliedFresh(p, acts[n - 1], times[n - 1]);
    NewGroupsSnoc(acts, times, s.nextId);
    assert acts == fa + [acts[n - 1]];
    RunDoSnoc(fa, acts[n - 1], s.doc);
  }

  lemma {:induction false} ApplyAllShape<D>(s: Log<D>, acts: seq<Action<D>>, times: seq<int>)
    requires |acts| == |times| && s.enableUndoRedo == 0 && !s.isInApplyUndo && Spaced(s, times)
    ensures ApplyAll(s, acts, times) == AfterRun(s, acts, times)
    decreases |acts|
  {
    var n := |acts|;
    if n == 0 {
      assert s.undoStack + NewGroups(acts, times, s.nextId) == s.undoStack;
    } else {
      var fa, ft := acts[..n - 1], times[..n - 1];
      assert Spaced(s, ft);
      ApplyAllShape(s, fa, ft);
      SpacedNoJoin(s, acts, times);
      AfterRunStep(s, acts, times);
    }
  }

  /** Each action undoes its own do from the state where it was applied. */
  lemma {:induction false} InvertsAlongAt<D>(acts: seq<Action<D>>, d: D, k: nat)
    requires InvertsAlong(acts, d) && k < |acts|
    ensures acts[k].undo(acts[k].do(RunDo(acts[..k], d))) == RunDo(acts[..k], d)
    decreases k
  {
    if k > 0 {
      InvertsAlongAt(acts[1..], acts[0].do(d), k - 1);
      assert acts[..k][1..] == acts[1..][..k - 1];
    }
  }

  /**
   * The log after a spaced run with the cursor at `k`: the first k new groups
   * are on the undo stack, the rest on redo, and the document is as after k edits.
   */
  function Cursor<D>(s: Log<D>, acts: seq<Action<D>>, times: seq<int>, k: nat): Log<D>
    requires |acts| == |times| && k <= |acts|
  {
    var g := NewGroups(acts, times, s.nextId);
    AfterRun(s, acts, times).(
      undoStack := s.undoStack + g[..k],
      redoStack := Reversed(g[k..]),
      doc := RunDo(acts[..k], s.doc))
  }

  lemma CursorAtEnd<D>(s: Log<D>, acts: seq<Action<D>>, times: seq<int>)
    requires |acts| == |times| && |acts| > 0
    ensures Cursor(s, acts, times, |acts|) == AfterRun(s, acts, times)
  {
    var g := NewGroups(acts, times, s.nextId);
    assert g[..|acts|] == g && g[|acts|..] == [] && acts[..|acts|] == acts;
  }

  lemma CursorAtStart<D>(s: Log<D>, acts: seq<Action<D>>, times: seq<int>)
    requires |acts| == |times|
    ensures Cursor(s, acts, times, 0).undoStack == s.undoStack
    ensures Cursor(s, acts, times, 0).doc == s.doc
  {
    var g := NewGroups(acts, times, s.nextId);
    assert g[..0] == [] && acts[..0] == [];
    assert s.undoStack + [] == s.undoStack;
  }

  lemma ReversedFrom<T>(g: seq<T>, k: nat)
    requires k < |g|
    ensures Reversed(g[k..]) == Reversed(g[k + 1..]) + [g[k]]
  {
    assert g[k..][1..] == g[k + 1..];
  }

  lemma RunSingle<D>(x: Action<D>, d: D)
    ensures RunDo([x], d) == x.do(d) && RunUndo([x], d) == x.undo(d)
  {
    assert [x][1..] == [];
  }

  /** Undo with the cursor at k + 1 moves it to k. */
  lemma CursorUndo<D>(s: Log<D>, acts: seq<Action<D>>, times: seq<int>, k: nat)
    requires |acts| == |times| && k < |acts|
    requires InvertsAlong(acts, s.doc)
    ensures Undone(Cursor(s, acts, times, k + 1)) == Cursor(s, acts, times, k)
  {
    var g := NewGroups(acts, times, s.nextId);
    var c := Cursor(s, acts, times, k + 1);
    var d := Cursor(s, acts, times, k);
    assert Top(c.undoStack) == g[k];
    var r := Undone(c);
    assert r.undoStack == d.undoStack by {
      assert Pop(c.undoStack) == s.undoStack + g[..k];
    }
    assert r.redoStack == d.redoStack by {
      ReversedFrom(g, k);
    }
    assert r.doc == d.doc by {
      InvertsAlongAt(acts, s.doc, k);
      assert acts[..k + 1] == acts[..k] + [acts[k]];
      RunDoSnoc(acts[..k], acts[k], s.doc);
      RunSingle(acts[k], c.doc);
    }
  }

  /** Redo with the cursor at k moves it to k + 1. */
  lemma CursorRedo<D>(s: Log<D>, acts: seq<Action<D>>, times: seq<int>, k: nat)
    requires |acts| == |times| && k < |acts|
    ensures Redone(Cursor(s, acts, times, k)) == Cursor(s, acts, times, k + 1)
  {
    var g := NewGroups(acts, times, s.nextId);
    var c := Cursor(s, acts, times, k);
    var d := Cursor(s, acts, times, k + 1);
    ReversedFrom(g, k);
    assert Top(c.redoStack) == g[k];
    var r := Redone(c);
    assert r.redoStack == d.redoStack by {
      assert Pop(c.redoStack) == Reversed(g[k + 1..]);
    }
    assert r.undoStack == d.undoStack by {
      assert s.undoStack + g[..k] + [g[k]] == s.undoStack + g[..k + 1];
    }
    assert r.doc == d.doc by {
      assert acts[..k + 1] == acts[..k] + [acts[k]];
      RunDoSnoc(acts[..k], acts[k], s.doc);
      RunSingle(acts[k], c.doc);
    }
  }

  lemma {:induction false} UndoneNCursor<D>(s: Log<D>, acts: seq<Action<D>>, times: seq<int>, j: nat)
    requires |acts| == |times| && |acts| > 0 && j <= |acts|
    requires InvertsAlong(acts, s.doc)
    ensures UndoneN(AfterRun(s, acts, times), j) == Cursor(s, acts, times, |acts| - j)
    decreases j
  {
    if j == 0 {
      CursorAtEnd(s, acts, times);
    } else {
      UndoneNCursor(s, acts, times, j - 1);
      CursorUndo(s, acts, times, |acts| - j);
    }
  }

  lemma {:induction false} RedoneNCursor<D>(s: Log<D>, acts: seq<Action<D>>, times: seq<int>, j: nat)
    requires |acts| == |times| && j <= |acts|
    ensures RedoneN(Cursor(s, acts, times, 0), j) == Cursor(s, acts, times, j)
    decreases j
  {
    if j > 0 {
      var c := Cursor(s, acts, times, 0);
      calc {
        RedoneN(c, j);
        Redone(RedoneN(c, j - 1));
        { RedoneNCursor(s, acts, times, j - 1); }
        Redone(Cursor(s, acts, times, j - 1));
        { CursorRedo(s, acts, times, j - 1); }
        Cursor(s, acts, times, j);
      }
    }
  }

  /**
   * Edits applied further apart than GroupingMS form one group each: Undo(n)
   * then takes the document and the undo stack back to where they were, and
   * Redo(n) after that reproduces the log exactly.
   */
  lemma UndoAllRedoAll<D>(s: Log<D>, acts: seq<Action<D>>, times: seq<int>)
    requires |acts| == |times| && |acts| > 0
    requires s.enableUndoRedo == 0 && !s.isInApplyUndo && Spaced(s, times)
    requires InvertsAlong(acts, s.doc)
    ensures var t := ApplyAll(s, acts, times);
      && UndoneN(t, |acts|).doc == s.doc
      && UndoneN(t, |acts|).undoStack == s.undoStack
      && RedoneN(UndoneN(t, |acts|), |acts|) == t
  {
    ApplyAllShape(s, acts, times);
    UndoneNCursor(s, acts, times, |acts|);
    CursorAtStart(s, acts, times);
    RedoneNCursor(s, acts, times, |acts|);
    CursorAtEnd(s, acts, times);
  }

  // ---------------------------------------------------------------------------
  // Two ways the IsModified of the source goes wrong (see ModifiedAsWritten).

  function Inc(): Action<int> {
    Action((x: int) => x + 1, (x: int) => x - 1, "inc")
  }

  /** Saving after one edit and undoing it: Peek on the now empty stack throws. */
  lemma AsWrittenPeekFails()
    ensures var s := Undone(SaveMarked(Applied(Initial(0), Inc(), 0, [])));
      ModifiedAsWritten(s) == Failure(EmptyStack) && Modified(s) && s.doc == 0
  {
  }

  /** An edit 100 ms after saving joins the saved group, so IsModified stays false. */
  lemma AsWrittenMissesMergedEdit()
    ensures var s := Applied(SaveMarked(Applied(Initial(0), Inc(), 0, [])), Inc(), 100, []);
      ModifiedAsWritten(s) == Success(false) && Modified(s) && s.doc == 2
  {
  }

  // ---------------------------------------------------------------------------
  // DescriptionStack: the history list of the editor's undo/redo panel.

  /** UndoRedoDescription: one line of the history list. */
  datatype Entry = Entry(
    description: string,
    isUndo: bool,
    isRedo: bool,
    isSavePoint: bool,
    isCurrentPoint: bool,
    countFromCurrent: nat)

  /** Whether `g` is the group object MarkSavePoint remembered. */
  predicate IsSaved<D>(sp: Option<SavePoint>, g: Group<D>) {
    sp.Some? && g.id == sp.value.id
  }

  /** The line of an undo group at distance `count` from the undo top. */
  function UndoLine<D>(sp: Option<SavePoint>, g: Group<D>, count: nat): Entry {
    Entry(GroupDesc(g), true, false, IsSaved(sp, g), count == 0, count)
  }

  /** The line of a redo group, the `count`-th to redo. */
  function RedoLine<D>(sp: Option<SavePoint>, g: Group<D>, count: nat): Entry {
    Entry(GroupDesc(g), false, true, IsSaved(sp, g), false, count)
  }

  /**
   * The line for the k-th group of the timeline: an undo line counted back
   * from the undo top (which is the current point), or a redo line counted
   * forward from 1.
   */
  function HistoryEntry<D>(s: Log<D>, k: nat): Entry
    requires k < |Timeline(s)|
  {
    var n := |s.undoStack|;
    if k < n then UndoLine(s.savePoint, Timeline(s)[k], n - 1 - k)
    else RedoLine(s.savePoint, Timeline(s)[k], k - n + 1)
  }

  /** The history list: one line per group of the timeline, oldest first. */
  function History<D>(s: Log<D>): seq<Entry> {
    seq(|Timeline(s)|, k requires 0 <= k < |Timeline(s)| => HistoryEntry(s, k))
  }

  lemma {:induction false} ReversedIndex<T>(r: seq<T>, k: nat)
    requires k < |r|
    ensures Reversed(r)[k] == r[|r| - 1 - k]
    decreases |r|
  {
    if k < |r| - 1 {
      ReversedIndex(r[1..], k);
    }
  }

  lemma HistoryLines<D>(s: Log<D>, k: nat)
    requires k < |Timeline(s)|
    ensures k < |s.undoStack| ==>
      HistoryEntry(s, k) == UndoLine(s.savePoint, s.undoStack[k], |s.undoStack| - 1 - k)
    ensures k >= |s.undoStack| ==>
      HistoryEntry(s, k) == RedoLine(s.savePoint, s.redoStack[|s.redoStack| - 1 - (k - |s.undoStack|)], k - |s.undoStack| + 1)
  {
    if k >= |s.undoStack| {
      ReversedIndex(s.redoStack, k - |s.undoStack|);
    }
  }

  /** The foreach over UndoStack: top first, counting from 0. */
  method UndoLines<D>(u: seq<Group<D>>, sp: Option<SavePoint>) returns (temp: seq<Entry>)
    ensures |temp| == |u|
    ensures forall m | 0 <= m < |u| :: temp[m] == UndoLine(sp, u[|u| - 1 - m], m)
  {
    temp := [];
    var count := 0;
    var i := |u|;
    while i > 0
      invariant 0 <= i <= |u| && count == |u| - i && |temp| == count
      invariant forall m | 0 <= m < |temp| :: temp[m] == UndoLine(sp, u[|u| - 1 - m], m)
    {
      i := i - 1;
      var g := u[i];
      temp := temp + [UndoLine(sp, g, count)];
      count := count + 1;
    }
  }

  /** The foreach over RedoStack: top first, counting from 1. */
  method RedoLines<D>(rd: seq<Group<D>>, sp: Option<SavePoint>) returns (r: seq<Entry>)
    ensures |r| == |rd|
    ensures forall m | 0 <= m < |rd| :: r[m] == RedoLine(sp, rd[|rd| - 1 - m], m + 1)
  {
    r := [];
    var count := 1;
    var j := |rd|;
    while j > 0
      invariant 0 <= j <= |rd| && count == |rd| - j + 1 && |r| == count - 1
      invariant forall m | 0 <= m < |r| :: r[m] == RedoLine(sp, rd[|rd| - 1 - m], m + 1)
    {
      j := j - 1;
      var g := rd[j];
      r := r + [RedoLine(sp, g, count)];
      count := count + 1;
    }
  }

  /** The two foreach loops together build the history list. */
  lemma {:induction false} HistoryFromLines<D>(s: Log<D>, temp: seq<Entry>, redo: seq<Entry>)
    requires |temp| == |s.undoStack|
    requires forall m | 0 <= m < |temp| :: temp[m] == UndoLine(s.savePoint, s.undoStack[|temp| - 1 - m], m)
    requires |redo| == |s.redoStack|
    requires forall m | 0 <= m < |redo| :: redo[m] == RedoLine(s.savePoint, s.redoStack[|redo| - 1 - m], m + 1)
    ensures Reversed(temp) + redo == History(s)
  {
    var r := Reversed(temp) + redo;
    forall k: nat | k < |r|
      ensures r[k] == HistoryEntry(s, k)
    {
      if k < |temp| {
        assert r[k] == Reversed(temp)[k];
        HistoryUndoAt(s, temp, k);
      } else {
        assert r[k] == redo[k - |s.undoStack|];
        HistoryRedoAt(s, redo, k);
      }
    }
  }

  /** The k-th line of the reversed undo loop is the k-th line of the history. */
  lemma {:induction false} HistoryUndoAt<D>(s: Log<D>, temp: seq<Entry>, k: nat)
    requires |temp| == |s.undoStack| && k < |temp|
    requires forall m | 0 <= m < |temp| :: temp[m] == UndoLine(s.savePoint, s.undoStack[|temp| - 1 - m], m)
    ensures Reversed(temp)[k] == HistoryEntry(s, k)
  {
    ReversedIndex(temp, k);
    HistoryLines(s, k);
  }

  /** The i-th line of the redo loop is the line after the undo lines and i more. */
  lemma {:induction false} HistoryRedoAt<D>(s: Log<D>, redo: seq<Entry>, k: nat)
    requires |redo| == |s.redoStack| && |s.undoStack| <= k < |s.undoStack| + |redo|
    requires forall m | 0 <= m < |redo| :: redo[m] == RedoLine(s.savePoint, s.redoStack[|redo| - 1 - m], m + 1)
    ensures redo[k - |s.undoStack|] == HistoryEntry(s, k)
  {
    HistoryLines(s, k);
  }

  /**
   * The history list names every group, and only the undo top is the current
   * point, at distance 0; every other line is at distance 1 or more.
   */
  lemma HistoryCurrentPoint<D>(s: Log<D>)
    ensures |History(s)| == |s.undoStack| + |s.redoStack|
    ensures forall k | 0 <= k < |History(s)| ::
      && (History(s)[k].isCurrentPoint <==> History(s)[k].countFromCurrent == 0)
      && (History(s)[k].isCurrentPoint <==> k == |s.undoStack| - 1)
      && (History(s)[k].isUndo <==> !History(s)[k].isRedo)
      && History(s)[k].description == GroupDesc(Timeline(s)[k])
  {
  }

  /** Undo and Redo keep the lines' descriptions and only move the current point. */
  lemma HistoryKeepsDescriptions<D>(s: Log<D>)
    ensures |History(Undone(s))| == |History(s)| == |History(Redone(s))|
    ensures forall k | 0 <= k < |History(s)| ::
      History(Undone(s))[k].description == History(s)[k].description == History(Redone(s))[k].description
  {
    UndoneTimeline(s);
    RedoneTimeline(s);
  }

  // ---------------------------------------------------------------------------
  // The manager itself

  class UndoRedoManager<D> {
    var groupingMS: int
    var undoStack: seq<Group<D>>
    var redoStack: seq<Group<D>>
    var enableUndoRedo: int
    var isInApplyUndo: bool
    var savePoint: Option<SavePoint>
    var nextId: nat
    var doc: D
    var warned: bool

    ghost function State(): Log<D>
      reads this
    {
      Log(groupingMS, undoStack, redoStack, enableUndoRedo, isInApplyUndo, savePoint, nextId, doc, warned)
    }

    ghost predicate Valid()
      reads this
    {
      ValidLog(State())
    }

    constructor (d: D)
      ensures State() == Initial(d) && Valid()
    {
      groupingMS := DefaultGroupingMS;
      undoStack := [];
      redoStack := [];
      enableUndoRedo := 0;
      isInApplyUndo := false;
      savePoint := None;
      nextId := 0;
      doc := d;
      warned := false;
    }

    /** IsModified, in the corrected form. */
    function IsModified(): (r: bool)
      reads this
      ensures r == Modified(State())
    {
      match savePoint
      case None => |undoStack| != 0
      case Some(sp) =>
        |undoStack| == 0 || undoStack[|undoStack| - 1].id != sp.id
          || |undoStack[|undoStack| - 1].actions| != sp.count
    }

    function CanUndo(): (r: bool)
      reads this
      ensures r <==> |State().undoStack| > 0
    {
      |undoStack| > 0
    }

    function CanRedo(): (r: bool)
      reads this
      ensures r <==> |State().redoStack| > 0
    {
      |redoStack| > 0
    }

    /** DisableUndoScope(); the guard it returns is closed by EndUndoScope. */
    method DisableUndoScope()
      requires Valid()
      modifies this
      ensures Valid() && State() == ScopeOpened(old(State()))
    {
      ghost var s0 := State();
      enableUndoRedo := enableUndoRedo - 1;
      ValidLogFrame(s0, State());
    }

    /** The Dispose of the guard DisableUndoScope returned. */
    method EndUndoScope()
      requires Valid()
      modifies this
      ensures Valid() && State() == ScopeClosed(old(State()))
    {
      ghost var s0 := State();
      enableUndoRedo := enableUndoRedo + 1;
      ValidLogFrame(s0, State());
    }

    /**
     * ApplyDoUndo at time `now`; `inner` are the ApplyDoUndo calls that `a.do`
     * makes while it runs, which re-enter this method.
     */
    method ApplyDoUndo(a: Action<D>, now: int, inner: seq<Action<D>>)
      requires Valid()
      modifies this
      ensures Valid() && State() == Applied(old(State()), a, now, inner)
      decreases |inner|, 1
    {
      ghost var s0 := State();
      AppliedValid(s0, a, now, inner);
      if enableUndoRedo == 0 {
        if isInApplyUndo {
          warned := true;  // the "Nested ApplyDoUndo calls" message
          doc := a.do(doc);
          ValidLogFrame(s0, State());
          RunNested(inner, now);
          return;
        }
        isInApplyUndo := true;
        doc := a.do(doc);
        ValidLogFrame(s0, State());
        RunNested(inner, now);
        redoStack := [];
        ghost var p := s0.(doc := RunDo(inner, a.do(s0.doc)), redoStack := [], warned := s0.warned || |inner| > 0);
        assert State() == p.(isInApplyUndo := true);
        Push(a, now);
        isInApplyUndo := false;
        RecordKeepsFlag(p, a, now);
      } else {
        doc := a.do(doc);
        ValidLogFrame(s0, State());
        RunNested(inner, now);
      }
    }

    /** The ApplyDoUndo calls a running `do` makes, one after the other. */
    method RunNested(inner: seq<Action<D>>, now: int)
      requires Valid() && (enableUndoRedo != 0 || isInApplyUndo)
      modifies this
      ensures Valid()
      ensures State() == old(State()).(
        doc := RunDo(inner, old(doc)),
        warned := old(warned) || (enableUndoRedo == 0 && |inner| > 0))
      decreases |inner|, 0
    {
      ghost var s0 := State();
      var i := 0;
      while i < |inner|
        invariant 0 <= i <= |inner|
        invariant Valid()
        invariant State() == s0.(
          doc := RunDo(inner[..i], s0.doc),
          warned := s0.warned || (s0.enableUndoRedo == 0 && i > 0))
      {
        ApplyDoUndo(inner[i], now, []);
        RunDoSnoc(inner[..i], inner[i], s0.doc);
        assert inner[..i + 1] == inner[..i] + [inner[i]];
        i := i + 1;
      }
      assert inner[..i] == inner;
    }

    /** The grouping step of ApplyDoUndo: join the top group or push a new one. */
    method Push(a: Action<D>, now: int)
      modifies this
      ensures State() == Record(old(State()), a, now)
    {
      if |undoStack| > 0 {
        var lastGroup := undoStack[|undoStack| - 1];
        var diff := now - lastGroup.lastActionTime;
        if diff <= groupingMS {
          undoStack := undoStack[..|undoStack| - 1]
            + [lastGroup.(actions := lastGroup.actions + [a], lastActionTime := now)];
        } else {
          undoStack := undoStack + [Group(nextId, [a], now)];
          nextId := nextId + 1;
        }
      } else {
        undoStack := undoStack + [Group(nextId, [a], now)];
        nextId := nextId + 1;
      }
    }

    method Undo()
      requires Valid()
      modifies this
      ensures Valid() && State() == Undone(old(State()))
    {
      ghost var s0 := State();
      UndoneValid(s0);
      if |undoStack| > 0 {
        var group := undoStack[|undoStack| - 1];
        undoStack := undoStack[..|undoStack| - 1];
        // group.Undo(): the actions' undos, last action first
        var d := doc;
        var i := |group.actions|;
        assert group.actions[..i] == group.actions;
        while i > 0
          invariant 0 <= i <= |group.actions|
          invariant RunUndo(group.actions[..i], d) == RunUndo(group.actions, s0.doc)
          modifies {}
        {
          i := i - 1;
          assert group.actions[..i + 1] == group.actions[..i] + [group.actions[i]];
          RunUndoSnoc(group.actions[..i], group.actions[i], d);
          d := group.actions[i].undo(d);
        }
        assert group.actions[..0] == [];
        doc := d;
        redoStack := redoStack + [group];
      }
    }

    method Redo()
      requires Valid()
      modifies this
      ensures Valid() && State() == Redone(old(State()))
    {
      ghost var s0 := State();
      RedoneValid(s0);
      if |redoStack| > 0 {
        var group := redoStack[|redoStack| - 1];
        redoStack := redoStack[..|redoStack| - 1];
        // group.Do(): the actions' dos, first action first
        var d := doc;
        var i := 0;
        while i < |group.actions|
          invariant 0 <= i <= |group.actions|
          invariant d == RunDo(group.actions[..i], s0.doc)
          modifies {}
        {
          assert group.actions[..i + 1] == group.actions[..i] + [group.actions[i]];
          RunDoSnoc(group.actions[..i], group.actions[i], s0.doc);
          d := group.actions[i].do(d);
          i := i + 1;
        }
        assert group.actions[..i] == group.actions;
        doc := d;
        undoStack := undoStack + [group];
      }
    }

    /** Undo(count); a count below one does nothing. */
    method UndoMany(count: int)
      requires Valid()
      modifies this
      ensures Valid() && State() == UndoneN(old(State()), if count < 0 then 0 else count)
    {
      var i := 0;
      while i < count
        invariant 0 <= i <= if count < 0 then 0 else count
        invariant Valid() && State() == UndoneN(old(State()), i)
      {
        Undo();
        i := i + 1;
      }
    }

    /** Redo(count); a count below one does nothing. */
    method RedoMany(count: int)
      requires Valid()
      modifies this
      ensures Valid() && State() == RedoneN(old(State()), if count < 0 then 0 else count)
    {
      var i := 0;
      while i < count
        invariant 0 <= i <= if count < 0 then 0 else count
        invariant Valid() && State() == RedoneN(old(State()), i)
      {
        Redo();
        i := i + 1;
      }
    }

    method MarkSavePoint()
      requires Valid()
      modifies this
      ensures Valid() && State() == SaveMarked(old(State()))
    {
      SaveMarkedValid(State());
      if |undoStack| > 0 {
        var top := undoStack[|undoStack| - 1];
        savePoint := Some(SavePoint(top.id, |top.actions|));
      } else {
        savePoint := None;
      }
    }

    /**
     * DescriptionStack: the undo groups counted back from the top, listed
     * oldest first, then the redo groups from the next one to redo.
     */
    method DescriptionStack() returns (r: seq<Entry>)
      ensures r == History(State())
    {
      var temp := UndoLines(undoStack, savePoint);
      var redo := RedoLines(redoStack, savePoint);
      HistoryFromLines(State(), temp, redo);
      // temp.Reverse()
      r := Reversed(temp) + redo;
    }
  }
}
