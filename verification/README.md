# StructuredXmlEditor core, modelled in Dafny

StructuredXmlEditor is a desktop editor for XML data files. The files are
described by definition files, and the editor works on a tree of data items
built from those definitions. This project models the core of that editor and
proves properties of the model:

- **Undo/redo log** (`undo_redo.dfy`, module `UndoRedo`). Edits are recorded
  as do/undo pairs. Edits less than `GroupingMS` apart are merged into one
  group. The log also keeps a save point and nested disable scopes.
- **Data-item tree** (`data_items.dfy`, `complex_items.dfy`,
  `collection_child.dfy`, `graph_reference.dfy`). This covers the children and
  index bookkeeping, `IsVisible` and `FocusName`, `Descendants`, and the
  substring mode of `Filter`. It also covers the complex item's description,
  `ResetToDefault`, `Clear` and `Paste`; the naming and lookups of collection
  children; and the graph reference item's retargeting, GUID resolution, undo
  actions and parent walks.
- **VisibleIf engine** (`visibility.dfy`). A `VisibleIf` text is an OR of ANDs
  of statements such as `Name == value`. The model covers how it is parsed,
  bound to sibling items and evaluated.
- **Definitions**:
  - `definitions.dfy`: dispatch on the element name; `CopyKey`; the string,
    number and enum definitions (parse, create, load, save, text round trips).
  - `reference_definition.dfy`: reference definitions.
  - `graph_collection.dfy`: graph collections.
  - `markup.dfy`: the attribute readers of `DataDefinition` and a small XML
    element model.
- **ASCII grid editor** (`ascii_grid.dfy`). This is the text-art control of a
  multi-line string item: the character grid and the source text, grid
  expansion and contraction, and the selection updates made by keys, clicks
  and marquee drags.
- **Extension helpers** (`extensions.dfy`): `Capitalise` and `GetDescription`.
- **Shared modules**: `text.dfy` holds the .NET string operations the code
  relies on (`Split`, `Join`, `Trim`, `IndexOf`, integer printing and
  parsing); `wrappers.dfy` holds `Option` and `Result`.

Where the source changes an object in place, the model is a class whose
methods are proved against pure functions of the old state. Examples are
`UndoRedoManager`, the item tree (`ItemTree`) and `AsciiGrid`. The
properties of those functions are then proved as lemmas. The .NET delegates,
the clock and the WPF events are parameters:

- A recorded action is a pair of transformers on an abstract document.
- `now` is the current time in milliseconds.
- The typed character is an argument.


Two invariants carry most of the proofs about state:

- `UndoRedo.ValidLog` says that group identities increase from the oldest
  undo group to the newest redo group, that no group is empty, and that the
  saved group still holds at least the actions it held when saved.
- `GraphReferences.LinksOk` says that every reference target is a graph node,
  and that a node's `LinkParents` hold a reference exactly once when it
  targets that node, and never otherwise.

The rows below name, for each member, the source lines it models and what
its contract states.

## Model

| member | source | states |
|---|---|---|
| UndoRedo.Initial | StructuredXmlEditor/Util/UndoRedoManager.cs:25-30 | a new manager (GroupingMS 500, both stacks empty, recording enabled, no save point) satisfies the log invariant |
| UndoRedo.RunDoSnoc | StructuredXmlEditor/Util/UndoRedoManager.cs:234-237 | a group's Do runs the actions first to last: the appended action runs last |
| UndoRedo.RunUndoSnoc | StructuredXmlEditor/Util/UndoRedoManager.cs:239-244 | a group's Undo runs the undos last to first: the appended action is undone first |
| UndoRedo.UndoAfterDo | StructuredXmlEditor/Util/UndoRedoManager.cs:234-244 | when every action's undo inverts its do, undoing a group right after doing it restores the document |
| UndoRedo.Descs | StructuredXmlEditor/Util/UndoRedoManager.cs:250 | the action descriptions of a group, one per action, in order |
| UndoRedo.FirstIndex | StructuredXmlEditor/Util/UndoRedoManager.cs:250 | the first position of a description in the list |
| UndoRedo.Distinct | StructuredXmlEditor/Util/UndoRedoManager.cs:250 | Enumerable.Distinct: the same set of descriptions, each once, in order of first occurrence |
| UndoRedo.FirstIndexPrefix | StructuredXmlEditor/Util/UndoRedoManager.cs:250 | the first occurrence within a prefix is the first occurrence in the whole list |
| UndoRedo.Reversed | StructuredXmlEditor/Util/UndoRedoManager.cs:241-242 | List.Reverse keeps the length |
| UndoRedo.ReversedSnoc | StructuredXmlEditor/Util/UndoRedoManager.cs:241-242 | reversing a list with one more element at the end puts that element first |
| UndoRedo.ReversedIndex | StructuredXmlEditor/Util/UndoRedoManager.cs:50 | position k of the reversed list holds the element k places from the end |
| UndoRedo.MoveKeepsTimeline | StructuredXmlEditor/Util/UndoRedoManager.cs:182-199 | moving one group from the top of one stack to the top of the other keeps the timeline (undo stack followed by the reversed redo stack) |
| UndoRedo.UndoneTimeline | StructuredXmlEditor/Util/UndoRedoManager.cs:178-191 | Undo keeps the timeline and only moves the cursor |
| UndoRedo.RedoneTimeline | StructuredXmlEditor/Util/UndoRedoManager.cs:193-206 | Redo keeps the timeline and only moves the cursor |
| UndoRedo.ValidLogFrame | StructuredXmlEditor/Util/UndoRedoManager.cs:178-206 | a state with the same timeline, save point and counter as a valid one is valid |
| UndoRedo.UndoneValid | StructuredXmlEditor/Util/UndoRedoManager.cs:178-191 | Undo preserves the log invariant |
| UndoRedo.RedoneValid | StructuredXmlEditor/Util/UndoRedoManager.cs:193-206 | Redo preserves the log invariant |
| UndoRedo.AppliedValid | StructuredXmlEditor/Util/UndoRedoManager.cs:102-160 | ApplyDoUndo preserves the log invariant, in every branch (disabled, nested, merged, new group) |
| UndoRedo.DroppedRedoValid | StructuredXmlEditor/Util/UndoRedoManager.cs:116 | clearing the redo stack keeps the log invariant |
| UndoRedo.RecordJoinValid | StructuredXmlEditor/Util/UndoRedoManager.cs:120-131 | adding the action to the top group, when the last action is recent enough, keeps the log invariant |
| UndoRedo.RecordFreshValid | StructuredXmlEditor/Util/UndoRedoManager.cs:132-146 | pushing a new group holding only the action keeps the log invariant |
| UndoRedo.SaveMarkedValid | StructuredXmlEditor/Util/UndoRedoManager.cs:208-221 | MarkSavePoint preserves the log invariant |
| UndoRedo.AppliedRecordsOne | StructuredXmlEditor/Util/UndoRedoManager.cs:113-147 | a recorded ApplyDoUndo runs the do (and the dos of calls nested in it), clears the redo stack and appends the action: to the top group, refreshing its time, when the top group is at most GroupingMS old, and as a new one-action group otherwise; nothing else on the undo stack changes |
| UndoRedo.AppliedCountsOne | StructuredXmlEditor/Util/UndoRedoManager.cs:121-147 | a recorded ApplyDoUndo adds exactly one action to the undo stack |
| UndoRedo.AppliedWhileDisabled | StructuredXmlEditor/Util/UndoRedoManager.cs:104-159 | inside a disable scope ApplyDoUndo only runs the do: the log is otherwise unchanged |
| UndoRedo.AppliedWhileNested | StructuredXmlEditor/Util/UndoRedoManager.cs:106-111 | an ApplyDoUndo issued from inside a recorded do shows the warning, runs its do and records nothing |
| UndoRedo.OpenCloseCounter | StructuredXmlEditor/Util/UndoRedoManager.cs:92-100 | opening k scopes lowers the counter by k and closing them raises it by k, changing nothing else |
| UndoRedo.ScopesNest | StructuredXmlEditor/Util/UndoRedoManager.cs:92-159 | inside one or more nested disable scopes an edit leaves both stacks alone, and closing the scopes re-enables recording with the counter back at its start |
| UndoRedo.UndoThenRedo | StructuredXmlEditor/Util/UndoRedoManager.cs:178-206 | Undo takes the document back to the state before the top group, and Redo after it restores the whole log |
| UndoRedo.RedoThenUndo | StructuredXmlEditor/Util/UndoRedoManager.cs:178-206 | Redo then Undo restores the whole log when the redone group's undos invert its dos |
| UndoRedo.UndoRedoAvailability | StructuredXmlEditor/Util/UndoRedoManager.cs:82-90 | Undo moves one group to the redo stack and Redo one group back; each does nothing on an empty stack |
| UndoRedo.SavedIsUnmodified | StructuredXmlEditor/Util/UndoRedoManager.cs:208-221 | right after MarkSavePoint the document is not modified |
| UndoRedo.RecordedEditIsModified | StructuredXmlEditor/Util/UndoRedoManager.cs:67-80 | every recorded edit makes the document modified, whether it was merged into the top group or not |
| UndoRedo.UndoBackToSavePoint | StructuredXmlEditor/Util/UndoRedoManager.cs:67-80 | after saving, making an edit in a new group and undoing it, the document is unmodified again |
| UndoRedo.NewGroups | StructuredXmlEditor/Util/UndoRedoManager.cs:133-147 | the one-action groups that a run of spaced-out edits pushes, one per edit |
| UndoRedo.AppliedFresh | StructuredXmlEditor/Util/UndoRedoManager.cs:133-147 | an edit outside the grouping window pushes a new one-action group with a fresh identity, clears redo and runs the do |
| UndoRedo.NewGroupsSnoc | StructuredXmlEditor/Util/UndoRedoManager.cs:133-147 | one more spaced edit appends one more group |
| UndoRedo.SpacedNoJoin | StructuredXmlEditor/Util/UndoRedoManager.cs:126-128 | in a run of edits further apart than GroupingMS, no edit joins the group of the one before |
| UndoRedo.AfterRunStep | StructuredXmlEditor/Util/UndoRedoManager.cs:102-160 | one more spaced edit moves the log from the state after n edits to the state after n + 1 |
| UndoRedo.ApplyAllShape | StructuredXmlEditor/Util/UndoRedoManager.cs:102-160 | a run of spaced edits gives one new group per edit, an empty redo stack and the document after all the dos |
| UndoRedo.InvertsAlongAt | StructuredXmlEditor/Util/UndoRedoManager.cs:239-244 | each action of an inverting run undoes its own do from the state where it was applied |
| UndoRedo.CursorAtEnd | StructuredXmlEditor/Util/UndoRedoManager.cs:162-176 | with the cursor after the last edit, the log is the one the run produced |
| UndoRedo.CursorAtStart | StructuredXmlEditor/Util/UndoRedoManager.cs:162-176 | with the cursor before the first edit, the undo stack and the document are as before the run |
| UndoRedo.ReversedFrom | StructuredXmlEditor/Util/UndoRedoManager.cs:182-184 | the reversed suffix from k is the reversed suffix from k + 1 followed by element k |
| UndoRedo.RunSingle | StructuredXmlEditor/Util/UndoRedoManager.cs:234-244 | a one-action group's Do and Undo are that action's do and undo |
| UndoRedo.CursorUndo | StructuredXmlEditor/Util/UndoRedoManager.cs:178-191 | Undo moves the cursor over a spaced run back by one edit and restores the document to before that edit |
| UndoRedo.CursorRedo | StructuredXmlEditor/Util/UndoRedoManager.cs:193-206 | Redo moves the cursor over a spaced run forward by one edit |
| UndoRedo.UndoneNCursor | StructuredXmlEditor/Util/UndoRedoManager.cs:162-168 | Undo(j) after a spaced run of n edits leaves the cursor at n - j |
| UndoRedo.RedoneNCursor | StructuredXmlEditor/Util/UndoRedoManager.cs:170-176 | Redo(j) from the start of a spaced run leaves the cursor at j |
| UndoRedo.UndoAllRedoAll | StructuredXmlEditor/Util/UndoRedoManager.cs:102-176 | after n edits further apart than GroupingMS, Undo(n) restores the document and the undo stack, and Redo(n) after it reproduces the log exactly |
| UndoRedo.HistoryLines | StructuredXmlEditor/Util/UndoRedoManager.cs:32-65 | a line of the history list is an undo line counted back from the undo top, or a redo line counted forward from 1 |
| UndoRedo.HistoryFromLines | StructuredXmlEditor/Util/UndoRedoManager.cs:36-63 | the undo lines (top first, then reversed) followed by the redo lines (top first) make up the history list |
| UndoRedo.HistoryCurrentPoint | StructuredXmlEditor/Util/UndoRedoManager.cs:32-65 | the history list has one line per group, in timeline order; exactly the undo top is the current point, at distance 0; each line is undo or redo, never both |
| UndoRedo.HistoryKeepsDescriptions | StructuredXmlEditor/Util/UndoRedoManager.cs:32-65 | Undo and Redo keep every line's description and only move the current point |
| UndoRedo.UndoLines | StructuredXmlEditor/Util/UndoRedoManager.cs:36-48 | the loop over UndoStack gives one line per undo group, top first, counted from 0 |
| UndoRedo.RedoLines | StructuredXmlEditor/Util/UndoRedoManager.cs:53-63 | the loop over RedoStack gives one line per redo group, top first, counted from 1 |
| UndoRedo.AsWrittenPeekFails | StructuredXmlEditor/Util/UndoRedoManager.cs:67-80 | as written, IsModified throws after one edit, a save and an undo; the corrected IsModified says modified |
| UndoRedo.AsWrittenMissesMergedEdit | StructuredXmlEditor/Util/UndoRedoManager.cs:67-80 | as written, an edit 100 ms after a save joins the saved group and IsModified stays false; the corrected IsModified says modified |
| UndoRedo.UndoRedoManager.constructor | StructuredXmlEditor/Util/UndoRedoManager.cs:25-30 | a new manager is in the initial state |
| UndoRedo.UndoRedoManager.IsModified | StructuredXmlEditor/Util/UndoRedoManager.cs:67-80 | the IsModified property equals the corrected Modified of the log |
| UndoRedo.UndoRedoManager.CanUndo | StructuredXmlEditor/Util/UndoRedoManager.cs:82-85 | true iff the undo stack is non-empty |
| UndoRedo.UndoRedoManager.CanRedo | StructuredXmlEditor/Util/UndoRedoManager.cs:87-90 | true iff the redo stack is non-empty |
| UndoRedo.UndoRedoManager.DescriptionStack | StructuredXmlEditor/Util/UndoRedoManager.cs:32-65 | the two loops give the history list: one line per group in timeline order, the undo top at distance 0 as the current point |
| UndoRedo.UndoRedoManager.DisableUndoScope | StructuredXmlEditor/Util/UndoRedoManager.cs:92-95 | the counter goes down by one and the invariant is kept |
| UndoRedo.UndoRedoManager.EndUndoScope | StructuredXmlEditor/Util/UndoRedoManager.cs:96-99 | disposing the guard raises the counter by one and keeps the invariant |
| UndoRedo.UndoRedoManager.ApplyDoUndo | StructuredXmlEditor/Util/UndoRedoManager.cs:102-160 | the new state is the ApplyDoUndo transition of the old one (including the re-entrant calls the do makes), and the invariant is kept |
| UndoRedo.UndoRedoManager.RunNested | StructuredXmlEditor/Util/UndoRedoManager.cs:106-159 | the ApplyDoUndo calls a running do makes only run their dos; the warning is raised when recording was enabled |
| UndoRedo.UndoRedoManager.Push | StructuredXmlEditor/Util/UndoRedoManager.cs:121-147 | the grouping step: the action joins the top group or starts a new one, as the grouping rule says |
| UndoRedo.UndoRedoManager.Undo | StructuredXmlEditor/Util/UndoRedoManager.cs:178-191 | pops the top group, runs its undos in reverse and pushes it on the redo stack; the invariant is kept |
| UndoRedo.UndoRedoManager.Redo | StructuredXmlEditor/Util/UndoRedoManager.cs:193-206 | pops the redo top, runs its dos and pushes it on the undo stack; the invariant is kept |
| UndoRedo.UndoRedoManager.UndoMany | StructuredXmlEditor/Util/UndoRedoManager.cs:162-168 | Undo(count) is count single Undos; a count below one does nothing |
| UndoRedo.UndoRedoManager.RedoMany | StructuredXmlEditor/Util/UndoRedoManager.cs:170-176 | Redo(count) is count single Redos; a count below one does nothing |
| UndoRedo.UndoRedoManager.MarkSavePoint | StructuredXmlEditor/Util/UndoRedoManager.cs:208-221 | remembers the undo top (or nothing on an empty stack) and keeps the invariant |
| UndoRedo.RunDo | StructuredXmlEditor/Util/UndoRedoManager.cs:234-237 | a group's Do: each action's do in list order; RunDoSnoc and RunSingle state its steps |
| UndoRedo.RunUndo | StructuredXmlEditor/Util/UndoRedoManager.cs:239-244 | a group's Undo: each action's undo, last action first; RunUndoSnoc and UndoAfterDo state its order and that it inverts RunDo |
| UndoRedo.JoinsTop | StructuredXmlEditor/Util/UndoRedoManager.cs:121-128 | the grouping test: an undo stack with a top group whose last action is at most GroupingMS before now; SpacedNoJoin shows that spaced edits never join |
| UndoRedo.Record | StructuredXmlEditor/Util/UndoRedoManager.cs:118-147 | the action joins the top group (refreshing its time) when JoinsTop and is pushed as a new group otherwise; RecordJoinValid, RecordFreshValid and AppliedRecordsOne state it |
| UndoRedo.RecordKeepsFlag | StructuredXmlEditor/Util/UndoRedoManager.cs:113-153 | recording the action neither reads nor changes isInApplyUndo, so setting the flag around the recording leaves the same log |
| UndoRedo.Applied | StructuredXmlEditor/Util/UndoRedoManager.cs:102-160 | the ApplyDoUndo transition: the do and the dos it issues always run; disabled, nothing else changes; nested, only the warning; otherwise the redo stack is cleared and the action recorded; AppliedValid, AppliedRecordsOne, AppliedWhileDisabled and AppliedWhileNested state it |
| UndoRedo.Undone | StructuredXmlEditor/Util/UndoRedoManager.cs:178-191 | Undo: on a non-empty undo stack the top group moves to the redo stack and its undos run; UndoneTimeline, UndoneValid and UndoThenRedo state it |
| UndoRedo.Redone | StructuredXmlEditor/Util/UndoRedoManager.cs:193-206 | Redo: on a non-empty redo stack the top group moves back to the undo stack and its dos run; RedoneTimeline, RedoneValid and RedoThenUndo state it |
| UndoRedo.ScopeOpened | StructuredXmlEditor/Util/UndoRedoManager.cs:92-95 | DisableUndoScope lowers the counter by one and changes nothing else; OpenCloseCounter and ScopesNest state it |
| UndoRedo.ScopeClosed | StructuredXmlEditor/Util/UndoRedoManager.cs:96-99 | disposing the scope raises the counter by one and changes nothing else; OpenCloseCounter and ScopesNest state it |
| UndoRedo.SaveMarked | StructuredXmlEditor/Util/UndoRedoManager.cs:208-221 | MarkSavePoint remembers the undo top (its id and action count) or clears the save point on an empty stack; SaveMarkedValid and SavedIsUnmodified state it |
| UndoRedo.ModifiedAsWritten | StructuredXmlEditor/Util/UndoRedoManager.cs:67-80 | IsModified as written: with a save point it peeks the undo stack, which throws when it is empty, and compares only the group; AsWrittenPeekFails and AsWrittenMissesMergedEdit show both defects |
| UndoRedo.Modified | StructuredXmlEditor/Util/UndoRedoManager.cs:67-80 | IsModified as intended: unmodified exactly when the undo top is the saved group with the saved action count; SavedIsUnmodified, RecordedEditIsModified and UndoBackToSavePoint state it |
| UndoRedo.GroupDesc | StructuredXmlEditor/Util/UndoRedoManager.cs:246-252 | a group's description: its action descriptions, duplicates dropped in first-occurrence order, joined with ","; Distinct states the dropping |
| UndoRedo.HistoryUndoAt | StructuredXmlEditor/Util/UndoRedoManager.cs:36-48 | the k-th line of the reversed undo-stack loop is the k-th history line |
| UndoRedo.HistoryRedoAt | StructuredXmlEditor/Util/UndoRedoManager.cs:53-63 | each line of the redo-stack loop is the history line after the undo lines at its position |
| Visibility.OpText | StructuredXmlEditor/Data/DataItem.cs:777-791 | each operator's Description text is one or two characters long |
| Visibility.FirstOccurringFrom | StructuredXmlEditor/Data/DataItem.cs:803-806 | the first operator, in the given order, whose text occurs in the statement; none before it occurs, and no operator occurs when none is found |
| Visibility.NewStatement | StructuredXmlEditor/Data/DataItem.cs:801-816 | the constructor's loop over the operators, which stops at the first one found, gives the corrected parse |
| Visibility.OpTextChars | StructuredXmlEditor/Data/DataItem.cs:777-791 | operator texts are made of the characters = ! < > only |
| Visibility.LongerContainsShorter | StructuredXmlEditor/Data/DataItem.cs:783-790 | a text that contains "<=" contains "<", and one that contains ">=" contains ">" |
| Visibility.AsWrittenNeverOrEqual | StructuredXmlEditor/Data/DataItem.cs:801-816 | with the declaration order, no statement is ever parsed as <= or >= |
| Visibility.OccurrenceInsideOperator | StructuredXmlEditor/Data/DataItem.cs:806-808 | in name + op + value, with operands free of operator characters, every occurrence of an operator text lies inside op |
| Visibility.OperatorInOperator | StructuredXmlEditor/Data/DataItem.cs:777-791 | the only operator texts found inside another are "<" in "<=" and ">" in ">=" |
| Visibility.SplitAtOperator | StructuredXmlEditor/Data/DataItem.cs:808 | splitting name + op + value at op gives exactly [name, value] |
| Visibility.CorrectedRank | StructuredXmlEditor/Data/DataItem.cs:803 | each operator's position in the corrected order |
| Visibility.FirstOccurringIs | StructuredXmlEditor/Data/DataItem.cs:803-814 | when operator k occurs and none of the earlier ones does, the search stops at k |
| Visibility.OperatorAbsent | StructuredXmlEditor/Data/DataItem.cs:806 | an operator that is neither op nor op's one-character prefix does not occur in name + op + value |
| Visibility.EarlierAbsent | StructuredXmlEditor/Data/DataItem.cs:803-806 | no operator ranked before op in the corrected order occurs in name + op + value |
| Visibility.PrintedContainsOp | StructuredXmlEditor/Data/DataItem.cs:806 | name + op + value contains op |
| Visibility.ParsePrinted | StructuredXmlEditor/Data/DataItem.cs:801-816 | round trip: parsing name + op + value with the corrected order gives op and the trimmed operands, for every operator |
| Visibility.FindTargetFrom | StructuredXmlEditor/Data/DataItem.cs:382-394 | the first sibling other than the item itself whose Name equals the target name; every sibling before it fails the test, and all do when none is found |
| Visibility.SetTarget | StructuredXmlEditor/Data/DataItem.cs:819-831 | binding succeeds iff the target is primitive and is a number item or the operator is == or !=; on success the target is recorded |
| Visibility.MapAll | StructuredXmlEditor/Data/DataItem.cs:367-395 | the loops' build-in-order-stop-at-first-throw shape; its properties are stated by MapAllPointwise, MapAllFirstFailure and MapAllSnoc |
| Visibility.MapAllPointwise | StructuredXmlEditor/Data/DataItem.cs:367-395 | the statements are built in order: success iff every one succeeds, and then the list has one result per element, each that element's |
| Visibility.MapAllFirstFailure | StructuredXmlEditor/Data/DataItem.cs:367-395 | the exception raised is the first failing statement's |
| Visibility.MapAllSnoc | StructuredXmlEditor/Data/DataItem.cs:376-379 | one more successful statement appends its result |
| Visibility.BindingTargets | StructuredXmlEditor/Data/DataItem.cs:359-398 | after a successful binding every bound statement refers to the first other sibling with its target name, which is primitive, and every unbound statement has no such sibling |
| Visibility.BindStatement | StructuredXmlEditor/Data/DataItem.cs:378-394 | the loop over the siblings finds the statement's target as the binding function says |
| Visibility.BindGroup | StructuredXmlEditor/Data/DataItem.cs:369-395 | one OR group: its && pieces, empty pieces dropped, constructed and bound in order |
| Visibility.UpdateVisibleIfBinding | StructuredXmlEditor/Data/DataItem.cs:359-398 | the Rebinding the method leaves is Rebind's: on success the binding of the VisibleIf text (its \|\| pieces, each split into bound && statements); on a throw the groups and statements built before it and the first exception; statements are parsed with the corrected operator order |
| Visibility.Evaluate | StructuredXmlEditor/Data/DataItem.cs:834-839 | an unbound statement evaluates to false |
| Visibility.TextNotEqualNegates | StructuredXmlEditor/Data/DataItem.cs:862-872 | for a text target, != is the negation of == |
| Visibility.CommaListMembership | StructuredXmlEditor/Data/DataItem.cs:866-867 | a comma list literal of two or more entries matches exactly its entries or the whole literal |
| Visibility.IndexOfAbsent | StructuredXmlEditor/Data/DataItem.cs:866 | IndexOf of an absent text finds nothing |
| Visibility.GroupHolds | StructuredXmlEditor/Data/DataItem.cs:142-150 | an AND group is true iff every statement holds; it raises nothing when no statement does |
| Visibility.AnyGroupHolds | StructuredXmlEditor/Data/DataItem.cs:140-155 | true only when some group holds, false only when every group is false, and raises nothing when no group does |
| Visibility.VisibleIffSomeGroupHolds | StructuredXmlEditor/Data/DataItem.cs:134-157 | when evaluation raises nothing, the item is visible from its bindings iff it has no groups or some group has every statement true |
| Visibility.NoOccurrence | StructuredXmlEditor/Data/DataItem.cs:806 | a text without the first character of a pattern does not contain the pattern |
| Visibility.ShorterSplit | StructuredXmlEditor/Data/DataItem.cs:808 | splitting name + "<=" + value at "<" leaves the "=" on the literal (and likewise for ">=") |
| Visibility.AsWrittenMisreadsOrEqual | StructuredXmlEditor/Data/DataItem.cs:801-816 | as written, name <= value is parsed as name < "=value", and >= as > |
| Visibility.MisreadNumberThrows | StructuredXmlEditor/Data/DataItem.cs:840-843 | the misread statement, bound to a number item, throws when evaluated |
| Visibility.Occurring | StructuredXmlEditor/Data/DataItem.cs:803-806 | one entry per operator of the order, true exactly when that operator's text occurs in the statement |
| Visibility.FirstHit | StructuredXmlEditor/Data/DataItem.cs:803-814 | the loop's stop: the first true entry from the start position, every entry before it false; none when all are false |
| Visibility.ParseWith | StructuredXmlEditor/Data/DataItem.cs:801-816 | the constructor over a given operator order; NewStatement and ParsePrinted state its properties |
| Visibility.ParseAsWritten | StructuredXmlEditor/Data/DataItem.cs:803 | the constructor with the enum's declaration order; AsWrittenNeverOrEqual and AsWrittenMisreadsOrEqual state what it does to <= and >= |
| Visibility.Parse | StructuredXmlEditor/Data/DataItem.cs:801-816 | the constructor with the corrected order; ParsePrinted states its round trip |
| Visibility.FindTarget | StructuredXmlEditor/Data/DataItem.cs:382-394 | the sibling search from the first sibling; FindTargetFrom states its result |
| Visibility.BindText | StructuredXmlEditor/Data/DataItem.cs:378-394 | one statement constructed, then bound to the first matching sibling or left unbound; BoundTextTarget and BindStatement state its result; statements are parsed with the corrected operator order |
| Visibility.BoundTextTarget | StructuredXmlEditor/Data/DataItem.cs:382-387 | a statement bound without a throw refers to the first other sibling with its target name, which is primitive, or is unbound when there is none |
| Visibility.Binding | StructuredXmlEditor/Data/DataItem.cs:359-398 | the groups of a VisibleIf text with no throw, or the first exception; BindingTargets and RebindMeaning state its properties; statements are parsed with the corrected operator order |
| Visibility.Built | StructuredXmlEditor/Data/DataItem.cs:367-395 | what a loop that appends before it can throw leaves in its list: when nothing throws, exactly the mapped list |
| Visibility.BuiltAtFailure | StructuredXmlEditor/Data/DataItem.cs:367-395 | when element k throws first, the list holds the results of the elements before it followed by what element k left |
| Visibility.StatementLeft | StructuredXmlEditor/Data/DataItem.cs:378-387 | what one statement leaves in its group: the statement when binding succeeds, nothing exactly when the constructor throws |
| Visibility.BindingLeft | StructuredXmlEditor/Data/DataItem.cs:361-398 | the VisibleIfStatements left after the method: the binding's groups when it does not throw |
| Visibility.Rebind | StructuredXmlEditor/Data/DataItem.cs:359-398 | UpdateVisibleIfBinding's outcome as one value; RebindMeaning states it; statements are parsed with the corrected operator order |
| Visibility.RebindMeaning | StructuredXmlEditor/Data/DataItem.cs:359-398 | the method throws exactly when the binding fails, and then the binding's exception; without a throw it leaves the binding's groups |
| Visibility.GroupsBound | StructuredXmlEditor/Data/DataItem.cs:382-387 | every statement of every group is bound to the first other sibling with its name, or unbound when there is none |
| Visibility.ParseBool | StructuredXmlEditor/Data/DataItem.cs:855 | bool.Parse: "true" or "false" in any letter case, white space around ignored, anything else rejected |
| Visibility.Compare | StructuredXmlEditor/Data/DataItem.cs:845-850 | the six float comparisons of Evaluate, on the model's integer values |
| Visibility.TextEqual | StructuredXmlEditor/Data/DataItem.cs:862-865 | the string test; CommaListMembership states which values it accepts |
| Visibility.VisibleFromBindings | StructuredXmlEditor/Data/DataItem.cs:134-157 | true with no groups, otherwise the groups tried in order; VisibleIffSomeGroupHolds states its meaning |
| DataItems.Values | StructuredXmlEditor/Data/DataItem.cs:834-864 | the current value of every item, by id, for every item of the tree |
| DataItems.Siblings | StructuredXmlEditor/Data/DataItem.cs:382 | the siblings a statement is bound among: the parent's children, in order |
| DataItems.LastPos | StructuredXmlEditor/Data/DataItem.cs:585-588 | the last position of a child in the list, which is the Index the re-indexing loop leaves on it |
| DataItems.LastPosDistinct | StructuredXmlEditor/Data/DataItem.cs:585-588 | in a list without repeats, each child's Index is its position |
| DataItems.Adopted | StructuredXmlEditor/Data/DataItem.cs:539-544 | setting Parent on the added items, in order, until a setter throws, keeps the set of items; AdoptedShape states its closed form |
| DataItems.Reindexed | StructuredXmlEditor/Data/DataItem.cs:585-588 | re-indexing keeps the set of items |
| DataItems.ChildrenChangedBookkeeping | StructuredXmlEditor/Data/DataItem.cs:533-589 | after the handler, each child's Index is its position, each added item has the owner as Parent, the child lists and kinds are unchanged, and every other item is untouched |
| DataItems.AttributesKeepIndex | StructuredXmlEditor/Data/ComplexDataItem.cs:98-154 | the attributes handler re-indexes the Children and not the Attributes: an attribute keeps its Index, and an added attribute gets the owner as Parent |
| DataItems.ItemTree.constructor | StructuredXmlEditor/Data/DataItem.cs:53-70 | a tree over the given items and registry, with default flags |
| DataItems.ItemTree.AdoptAll | StructuredXmlEditor/Data/DataItem.cs:539-544 | the loop over NewItems sets Parent on each added item, rebinding it, and stops at the first exception, which it returns: the items and exception are Adopted's |
| DataItems.ItemTree.ReindexChildren | StructuredXmlEditor/Data/DataItem.cs:585-588 | the loop sets each child's Index to its position |
| DataItems.ReindexedSnoc | StructuredXmlEditor/Data/DataItem.cs:585-588 | one more step of the loop sets only that child's Index, to its position |
| DataItems.ItemTree.OnChildrenCollectionChanged | StructuredXmlEditor/Data/DataItem.cs:533-589 | the items and the escaping exception are ChildrenChanged's on the old items, with the editor's binding; the registry and flags are unchanged |
| DataItems.ItemTree.OnAttributesCollectionChanged | StructuredXmlEditor/Data/ComplexDataItem.cs:98-154 | the same bookkeeping as the children handler, over the added attributes: each gets the owner as Parent and is rebound among the owner's Children, an exception escapes before the re-indexing |
| DataItems.ItemTree.Filter | StructuredXmlEditor/Data/DataItem.cs:604-692 | the method changes only the flags, and its flags and result (or exception) are those of the recursive Filter function |
| DataItems.ItemTree.UnfilterDescendants | StructuredXmlEditor/Data/DataItem.cs:622-629 | clears IsSearchFiltered on exactly the descendants |
| DataItems.ItemTree.FilterSelfStep | StructuredXmlEditor/Data/DataItem.cs:633-691 | the item's own test and flags after the children loop |
| DataItems.IsVisible | StructuredXmlEditor/Data/DataItem.cs:119-131 | false when the visible flag is off or a filter flag is on; true iff the flags allow it and the item is visible from its bindings |
| DataItems.TagEnd | StructuredXmlEditor/Data/DataItem.cs:235-237 | where a lazy match of a tag ends: the first '>' on the same line, or no match |
| DataItems.StripTags | StructuredXmlEditor/Data/DataItem.cs:235-237 | removing the tags never makes the text longer |
| DataItems.TagEndShift | StructuredXmlEditor/Data/DataItem.cs:235-237 | the tag search on a text with one more character in front is the same search, shifted by one |
| DataItems.StripKeepsOpenLine | StructuredXmlEditor/Data/DataItem.cs:235-237 | a text with no '>' on its first line before a line break keeps that property once stripped |
| DataItems.StripTagsTagFree | StructuredXmlEditor/Data/DataItem.cs:235-237 | after the replace no tag is left: no '<' is followed by a '>' on the same line |
| DataItems.FocusName | StructuredXmlEditor/Data/DataItem.cs:226-246 | a null or blank description gives just the name |
| DataItems.FocusNameShape | StructuredXmlEditor/Data/DataItem.cs:226-246 | a non-blank description shows as name + ":" + at most 13 tag-free characters: the whole stripped text when it fits, otherwise its first 10 characters and "..." |
| DataItems.Descendants | StructuredXmlEditor/Data/DataItem.cs:73-87 | Descendants lists items of the tree only |
| DataItems.DescendantsOf | StructuredXmlEditor/Data/DataItem.cs:77-85 | each child followed by its own descendants, pre-order |
| DataItems.DescendantsOfContains | StructuredXmlEditor/Data/DataItem.cs:77-85 | every child, and every descendant of a child, is in the list |
| DataItems.DescendantsOfChild | StructuredXmlEditor/Data/DataItem.cs:73-87 | Descendants is closed downwards: a child and all its descendants are descendants of the item |
| DataItems.GetValue | StructuredXmlEditor/Data/DataItem.cs:749-755 | a number item's value prints as text that reads back as the same number |
| DataItems.MatchesText | StructuredXmlEditor/Data/DataItem.cs:641-674 | the substring test: a match needs a name; with a name (and a value for primitives) it succeeds, and matches iff the name or the primitive's value (lower-cased unless case-sensitive) contains the filter; a null string reached throws |
| DataItems.Unfiltered | StructuredXmlEditor/Data/DataItem.cs:624-628 | exactly the listed items get IsSearchFiltered cleared; nothing else changes |
| DataItems.FilterSelf | StructuredXmlEditor/Data/DataItem.cs:633-687 | the item's result is true when a child matched and its own test otherwise; IsSearchFiltered ends up true iff there is a filter and the result is false |
| DataItems.FilterItem | StructuredXmlEditor/Data/DataItem.cs:604-692 | the recursive Filter: when it returns, IsSearchFiltered is set iff there is a filter and nothing matched |
| DataItems.FilterChildrenStuck | StructuredXmlEditor/Data/DataItem.cs:612-618 | once a child's Filter throws, later children are not filtered |
| DataItems.FilterFinds | StructuredXmlEditor/Data/DataItem.cs:604-692 | when Filter returns, it returns true iff some item of the subtree is visible from its bindings and its name or value contains the filter |
| DataItems.FilterChildrenFinds | StructuredXmlEditor/Data/DataItem.cs:610-619 | the children loop returns true iff some child's subtree matches |
| DataItems.FilterNullMatchesNothing | StructuredXmlEditor/Data/DataItem.cs:633-636 | a null filter never throws and matches nothing, however deep the tree |
| DataItems.FilterChildrenNullMatchesNothing | StructuredXmlEditor/Data/DataItem.cs:610-636 | with a null filter no child matches |
| DataItems.SiblingsOf | StructuredXmlEditor/Data/DataItem.cs:382-384 | one sibling per listed child, in order, with that child's id, Name and value |
| DataItems.SiblingsFrame | StructuredXmlEditor/Data/DataItem.cs:382-384 | a binding sees only the children's Names and values: arenas alike in those give the same siblings |
| DataItems.ParentSet | StructuredXmlEditor/Data/DataItem.cs:89-108 | the setter: the same parent changes nothing; a different one is recorded and the groups rebuilt among the new parent's children, and it throws exactly when that binding throws, with its exception |
| DataItems.ParentSetBinds | StructuredXmlEditor/Data/DataItem.cs:89-108 | with the editor's binding, the item ends with the new parent, no other item changes, and after a change it throws iff the VisibleIf binding fails, holding that binding's groups when it does not |
| DataItems.ItemTree.SetParent | StructuredXmlEditor/Data/DataItem.cs:89-108 | the setter on the tree: the items and exception are ParentSet's with the editor's binding; registry and flags unchanged |
| DataItems.FirstRaising | StructuredXmlEditor/Data/DataItem.cs:539-544 | the first added item whose setter throws: every one before it does not, and none does when there is none |
| DataItems.AdoptedShape | StructuredXmlEditor/Data/DataItem.cs:539-544 | the loop in closed form: the items up to the first throw are reparented, all others untouched, and the exception is that item's |
| DataItems.AdoptedAlike | StructuredXmlEditor/Data/DataItem.cs:539-544 | the loop changes no Name, kind or children list |
| DataItems.AdoptedStep | StructuredXmlEditor/Data/DataItem.cs:541 | one more setter after a loop that threw nothing extends the closed form by that item |
| DataItems.AdoptedSnoc | StructuredXmlEditor/Data/DataItem.cs:539-544 | one more added item: the loop so far, then that item's setter unless something was thrown |
| DataItems.AdoptedStops | StructuredXmlEditor/Data/DataItem.cs:539-544 | once a setter has thrown, the later items are not reached |
| DataItems.ChildrenChanged | StructuredXmlEditor/Data/DataItem.cs:533-589 | the handler as one value; ChildrenChangedBookkeeping states its meaning |
| DataItems.ChildrenChangedDone | StructuredXmlEditor/Data/DataItem.cs:533-589 | with no throwing setter: positions as Indexes, the owner as every added item's parent, the rebuilt groups on every reparented item, nothing else changed |
| DataItems.ChildrenChangedThrown | StructuredXmlEditor/Data/DataItem.cs:539-544 | with a throwing setter: its exception escapes, nothing is re-indexed, and only the items up to it are reparented |
| DataItems.RebindBindsTargets | StructuredXmlEditor/Data/DataItem.cs:359-398 | every binding of the editor's that completes has each statement bound to the first other sibling with its name, which is primitive, or unbound |
| DataItems.AdoptedBound | StructuredXmlEditor/Data/DataItem.cs:89-108 | after a handler that threw nothing, a reparented item holds its binding among the owner's children, every statement bound there as the binding says |
| DataItems.ChildrenChangedAlike | StructuredXmlEditor/Data/DataItem.cs:533-589 | the handler changes no Name and no kind |
| DataItems.SelfMatch | StructuredXmlEditor/Data/DataItem.cs:632-687 | the item's own test when no child matched: nothing for a null filter, false when its statements hide it, else the string test; FilterSelf and FilterFinds state it |
| DataItems.Unfolds | StructuredXmlEditor/Data/DataItem.cs:621 | a struct whose parent is a collection child, or a collection child wrapping a struct |
| DataItems.Prepared | StructuredXmlEditor/Data/DataItem.cs:619-628 | the descendants un-filtered when a child matched, matches are not shown alone and the item unfolds; Unfiltered states which flags change |
| DataItems.FilterChildren | StructuredXmlEditor/Data/DataItem.cs:609-618 | the children loop; FilterChildrenFinds, FilterChildrenStuck and FilterChildrenSnoc state it |
| DataItems.FilterChildrenSnoc | StructuredXmlEditor/Data/DataItem.cs:611-617 | one more child: its Filter from the flags so far, the match or-ed in unless it throws |
| ComplexItems.Piece | StructuredXmlEditor/Data/ComplexDataItem.cs:64-68 | a child's piece, "<" + colour + ">" + description + "</>", is at least 5 characters long |
| ComplexItems.VisiblePieces | StructuredXmlEditor/Data/ComplexDataItem.cs:60-68 | one piece per child whose visibility evaluates to true and whose own Description gives a value, in order, so no more pieces than children; no piece when no child shows |
| ComplexItems.CutPoint | StructuredXmlEditor/Data/ComplexDataItem.cs:70-77 | the number of pieces after which the joined summary first passes 500 characters; every shorter prefix stays within the cap |
| ComplexItems.CutPointFrom | StructuredXmlEditor/Data/ComplexDataItem.cs:70-77 | the cut point searched from a given prefix on |
| ComplexItems.JoinSnoc | StructuredXmlEditor/Data/ComplexDataItem.cs:62-68 | one more piece joins on with the separator, or alone onto an empty summary |
| ComplexItems.AppendJoins | StructuredXmlEditor/Data/ComplexDataItem.cs:62-68 | after k pieces the builder holds their ", " join |
| ComplexItems.JoinHead | StructuredXmlEditor/Data/ComplexDataItem.cs:62-68 | a join is at least as long as its first piece |
| ComplexItems.CappedFrom | StructuredXmlEditor/Data/ComplexDataItem.cs:59-80 | the builder loop, resumed after k pieces, ends with the join up to the cut point, followed by "..." unless it already ends with it |
| ComplexItems.DescriptionCapLemma | StructuredXmlEditor/Data/ComplexDataItem.cs:57-81 | the children summary is their join when it stays within 500 characters; otherwise it is longer than 500, ends in "...", starts with the join up to the first piece that passes the cap, and is at most 3 characters longer than that join |
| ComplexItems.ShortDescriptionUncut | StructuredXmlEditor/Data/ComplexDataItem.cs:70-77 | within the cap the summary is exactly the joined pieces |
| ComplexItems.JoinPrefixShorter | StructuredXmlEditor/Data/ComplexDataItem.cs:70-77 | a prefix of the pieces joins to no more characters than all of them |
| ComplexItems.ShownPieces | StructuredXmlEditor/Data/ComplexDataItem.cs:51-55 | the shown attributes (named Name, not skip-if-default, or written differently from their default) each give a piece, and every piece comes from a shown attribute |
| ComplexItems.FirstNamed | StructuredXmlEditor/Data/ComplexDataItem.cs:41 | the first child whose definition has the name; none before it has it, and no child has it when none is found |
| ComplexItems.DescriptionOf | StructuredXmlEditor/Data/ComplexDataItem.cs:32-83 | an item with no children and no attributes shows its EmptyString; with attributes and no description child it shows the ", " join of the shown attribute pieces; with a description child declared, a failure is the exception of a child of that name's Description; with none declared, a failure needs no attributes and is the exception of some child at which the summary loop throws; it succeeds whenever every child's visibility and Description do |
| ComplexItems.DescriptionChildShown | StructuredXmlEditor/Data/ComplexDataItem.cs:38-48 | with a description child declared and present, Description is that child's description in its colour, whatever its visibility, and throws exactly the exception that child's Description throws |
| ComplexItems.CappedStep | StructuredXmlEditor/Data/ComplexDataItem.cs:60-78 | one step of the builder: append, then stop with "..." when past the cap, or go on |
| ComplexItems.Shows | StructuredXmlEditor/Data/ComplexDataItem.cs:60 | the Where filter: the child's IsVisibleFromBindings evaluates to true without throwing |
| ComplexItems.Throws | StructuredXmlEditor/Data/ComplexDataItem.cs:60-67 | the loop throws at a child: its IsVisibleFromBindings throws, or it is shown and its own Description throws |
| ComplexItems.Thrown | StructuredXmlEditor/Data/ComplexDataItem.cs:60-67 | the exception the loop gets from such a child: the visibility's first, then the Description's |
| ComplexItems.FirstFailing | StructuredXmlEditor/Data/ComplexDataItem.cs:60-67 | the index of the first child at which the loop throws (its IsVisibleFromBindings throws, or it is shown and its own Description throws), or the number of children; no child before it throws |
| ComplexItems.Cuts | StructuredXmlEditor/Data/ComplexDataItem.cs:70-77 | whether the builder, going on from a text, passes 500 characters within the given pieces |
| ComplexItems.Summary | StructuredXmlEditor/Data/ComplexDataItem.cs:57-81 | the loop over the lazy Where, reading each shown child's Description: a failure carries the exception of some child at which the loop throws, and it succeeds when no child throws |
| ComplexItems.SummaryShape | StructuredXmlEditor/Data/ComplexDataItem.cs:57-81 | from any text, the loop fails with the exception of the first child at which it throws (visibility or, for a shown child, its own Description) exactly when the builder does not pass the cap on the pieces before that child; otherwise it gives their capped summary |
| ComplexItems.HeadPieces | StructuredXmlEditor/Data/ComplexDataItem.cs:60-67 | past a first child at which the loop does not throw, the first throwing child moves back by one, and the pieces before it lose that child's piece, if it had one |
| ComplexItems.CutsStep | StructuredXmlEditor/Data/ComplexDataItem.cs:70-77 | one step of Cuts: the next piece passes the cap, or the rest passes it from there |
| ComplexItems.CutsIffCutPoint | StructuredXmlEditor/Data/ComplexDataItem.cs:70-77 | the builder passes the cap within the pieces exactly when their cut point lies inside them |
| ComplexItems.CutsFrom | StructuredXmlEditor/Data/ComplexDataItem.cs:70-77 | the same, resumed after i pieces |
| ComplexItems.SummaryOutcome | StructuredXmlEditor/Data/ComplexDataItem.cs:57-81 | the summary fails exactly when some child's visibility throws, or a shown child's own Description throws, and the pieces before that child stay within the cap, with that child's exception; otherwise it is the capped summary of those pieces, and of all visible pieces when no child throws |
| ComplexItems.ChildrenSummary | StructuredXmlEditor/Data/ComplexDataItem.cs:57-81 | the StringBuilder loop over the lazily filtered children: it stops at the first child whose visibility throws, or that is shown and whose Description throws, unless the cap was passed before it; SummaryOutcome states what it gives |
| ComplexItems.Description | StructuredXmlEditor/Data/ComplexDataItem.cs:32-83 | the getter's result, or the exception a child's visibility or a child's own Description raises, is the DescriptionOf function of the item |
| ComplexItems.ResetKind | StructuredXmlEditor/Data/ComplexDataItem.cs:92-95 | a primitive's value becomes its default value; other kinds are unchanged |
| ComplexItems.Defaulted | StructuredXmlEditor/Data/ComplexDataItem.cs:92-95 | resetting a set of items keeps the set of items, the child lists and the closure of the tree |
| ComplexItems.Targets | StructuredXmlEditor/Data/ComplexDataItem.cs:92-95 | the items one ResetToDefault call reaches are primitives of the tree |
| ComplexItems.TargetsOf | StructuredXmlEditor/Data/ComplexDataItem.cs:94 | the items reached from a list of children are primitives of the tree |
| ComplexItems.DefaultedShape | StructuredXmlEditor/Data/ComplexDataItem.cs:92-95 | resetting values leaves the tree's shape and the non-primitive items alone |
| ComplexItems.TargetsStable | StructuredXmlEditor/Data/ComplexDataItem.cs:92-95 | resetting values does not change which items a later reset reaches |
| ComplexItems.TargetsOfStable | StructuredXmlEditor/Data/ComplexDataItem.cs:94 | the same for a list of children |
| ComplexItems.DefaultedTwice | StructuredXmlEditor/Data/ComplexDataItem.cs:94 | two resets in a row are one reset of both sets |
| ComplexItems.DefaultedOne | StructuredXmlEditor/Data/ComplexDataItem.cs:94 | resetting one item only changes that item's kind |
| ComplexItems.ResetToDefault | StructuredXmlEditor/Data/ComplexDataItem.cs:92-95 | the method resets exactly the primitives its recursion reaches, and changes nothing else |
| ComplexItems.ResetChildren | StructuredXmlEditor/Data/ComplexDataItem.cs:94 | ResetToDefault on each child, in order |
| ComplexItems.ResetReachesDefaults | StructuredXmlEditor/Data/ComplexDataItem.cs:92-95 | after a reset every reached primitive holds its default value, and no other item changed |
| ComplexItems.ResetIdempotent | StructuredXmlEditor/Data/ComplexDataItem.cs:92-95 | a second reset changes nothing |
| ComplexItems.Capped | StructuredXmlEditor/Data/ComplexDataItem.cs:59-78 | the StringBuilder loop from a given text on; CappedFrom and DescriptionCapLemma state what it gives |
| ComplexItems.Shown | StructuredXmlEditor/Data/ComplexDataItem.cs:51-54 | the attribute filter: named Name, not skip-if-default, or written differently from its default |
| ComplexItems.AttrPiece | StructuredXmlEditor/Data/ComplexDataItem.cs:55 | one shown attribute's piece: the coloured name and "=" followed by its description |
| ComplexItems.Emptied | StructuredXmlEditor/Data/ComplexDataItem.cs:209 | Children.Clear: the owner's list empties, the Reset event adopts nothing and throws nothing, and no other item changes |
| ComplexItems.Added | StructuredXmlEditor/Data/ComplexDataItem.cs:256 | one Children.Add keeps the set of items; AddedOne states whether it throws and what it leaves |
| ComplexItems.AddedOne | StructuredXmlEditor/Data/ComplexDataItem.cs:256 | a single Add throws exactly when the added item is present and its Parent setter throws against the extended list; otherwise the child is appended, adopted and the list re-indexed |
| ComplexItems.FirstPos | StructuredXmlEditor/Data/ComplexDataItem.cs:256 | the first position of an item in a list: it is there, and not before |
| ComplexItems.AddRaises | StructuredXmlEditor/Data/ComplexDataItem.cs:256 | the k-th Add throws: its item is added for the first time, its parent is not the owner, and rebinding it among the list as it then stands throws |
| ComplexItems.NoAddRaises | StructuredXmlEditor/Data/ComplexDataItem.cs:256 | no Add of the loop throws |
| ComplexItems.AddedAll | StructuredXmlEditor/Data/ComplexDataItem.cs:256 | adding children one by one throws exactly when some Add does; when none does, they are appended in order, each adopted with its groups rebuilt where the parent changed, and every child has its last position as index, nothing else changed |
| ComplexItems.AddedAllStopped | StructuredXmlEditor/Data/ComplexDataItem.cs:256 | once an Add among the first ones has thrown, the loop over all of them has one that throws |
| ComplexItems.AddedAllStep | StructuredXmlEditor/Data/ComplexDataItem.cs:256 | one more Add after a loop that threw nothing throws exactly when AddRaises says so of it, and extends the closed form by that child |
| ComplexItems.AddedRaises | StructuredXmlEditor/Data/ComplexDataItem.cs:256 | the last Add throws exactly when AddRaises says so of it |
| ComplexItems.NoAddRaisesSnoc | StructuredXmlEditor/Data/ComplexDataItem.cs:256 | no Add of one more item throws iff none of the first ones does and the last does not |
| ComplexItems.AddedAllStepAt | StructuredXmlEditor/Data/ComplexDataItem.cs:256 | one more Add, item by item: the closed form of the longer list |
| ComplexItems.StepAtLast | StructuredXmlEditor/Data/ComplexDataItem.cs:256 | the item just added: adopted, rebuilt against the list when first added, with its last position as index |
| ComplexItems.StepAtOther | StructuredXmlEditor/Data/ComplexDataItem.cs:256 | an item other than the one just added: only its index can change, to its last position |
| ComplexItems.SplicedSnoc | StructuredXmlEditor/Data/ComplexDataItem.cs:256 | one more Add at the end changes another item only in its index, and the owner in its children list |
| ComplexItems.SplicedLast | StructuredXmlEditor/Data/ComplexDataItem.cs:256 | the item added last gets the owner as parent, is rebound against the list up to it when its parent changes, and has the last position as index |
| ComplexItems.SnocFacts | StructuredXmlEditor/Data/ComplexDataItem.cs:256 | one more item at the end of a list does not move another item's membership, last position or first position |
| ComplexItems.SplicedGroups | StructuredXmlEditor/Data/ComplexDataItem.cs:256 | the list an added item was first bound against is the same among a list as among it and one more |
| ComplexItems.LastPosSnoc | StructuredXmlEditor/Data/ComplexDataItem.cs:256 | appending a different child does not move an earlier child's last position |
| ComplexItems.ClearAction | StructuredXmlEditor/Data/ComplexDataItem.cs:203-220 | the action Clear records: its do empties the list, its undo adds the previous children back; described as the name followed by " cleared" |
| ComplexItems.PasteAction | StructuredXmlEditor/Data/ComplexDataItem.cs:252-267 | the action Paste records: its do and undo each clear and add a list back; described as the name followed by " pasted" |
| ComplexItems.ClearedDoc | StructuredXmlEditor/Data/ComplexDataItem.cs:209 | the do of Clear on the document |
| ComplexItems.RefilledDoc | StructuredXmlEditor/Data/ComplexDataItem.cs:215 | the undo of Clear on the document |
| ComplexItems.PastedDoc | StructuredXmlEditor/Data/ComplexDataItem.cs:255-256 | the do (and, with the previous children, the undo) of Paste on the document |
| ComplexItems.ClearEmpties | StructuredXmlEditor/Data/ComplexDataItem.cs:203-212 | Clear empties the child list (so the item has content iff it has attributes), and leaves every other item and the registry unchanged |
| ComplexItems.NoneRaise | StructuredXmlEditor/Data/ComplexDataItem.cs:215 | no Add throws when every item added already has the owner as parent, so adding the previous children back never throws |
| ComplexItems.RefillRestoresAt | StructuredXmlEditor/Data/ComplexDataItem.cs:213-218 | adding the previous children back to the emptied list throws nothing and gives each item back as it was |
| ComplexItems.SameItems | StructuredXmlEditor/Data/ComplexDataItem.cs:213-218 | two item maps with the same keys that agree at every key are equal |
| ComplexItems.ClearUndoRestores | StructuredXmlEditor/Data/ComplexDataItem.cs:203-220 | undoing Clear right after it restores the document, with the children in their original order |
| ComplexItems.PasteInPlace | StructuredXmlEditor/Data/ComplexDataItem.cs:252-259 | Paste throws exactly when one of the Adds does; when none does, the children are exactly the pasted ones, in order, each with the owner as parent and its position as index |
| ComplexItems.RefilledAt | StructuredXmlEditor/Data/ComplexDataItem.cs:209-215 | emptying an owner and adding children back changes only the owner's list and, for each added child, its parent, groups and index |
| ComplexItems.PastedAt | StructuredXmlEditor/Data/ComplexDataItem.cs:255-256 | after a paste that throws nothing the owner holds the pasted children, a pasted item names the owner as parent, and an item that is neither the owner nor pasted is unchanged |
| ComplexItems.RepasteAt | StructuredXmlEditor/Data/ComplexDataItem.cs:252-267 | when the first paste throws nothing, pasting the old children back throws nothing and gives every item back, except an item that was pasted only, which still names the owner as parent |
| ComplexItems.PasteUndoRestores | StructuredXmlEditor/Data/ComplexDataItem.cs:234-269 | when no Add of the paste throws, undoing it restores every item that was not pasted, and the registry; a pasted item that was not a child before keeps the owner as parent |
| ComplexItems.Clear | StructuredXmlEditor/Data/ComplexDataItem.cs:203-220 | Clear issues one ApplyDoUndo of the Clear action over the current children, with the editor's binding |
| ComplexItems.Paste | StructuredXmlEditor/Data/ComplexDataItem.cs:234-269 | without clipboard data nothing changes; otherwise the loaded items join the document inside a disable scope, then one ApplyDoUndo of the Paste action, with the editor's binding |
| CollectionChildren.IndexOfItem | StructuredXmlEditor/Data/CollectionChildItem.cs:48 | List.IndexOf: -1 iff the item is absent, otherwise its first position |
| CollectionChildren.IntToStringNoBracket | StructuredXmlEditor/Data/CollectionChildItem.cs:48 | a printed integer contains no bracket |
| CollectionChildren.NameRoundTrip | StructuredXmlEditor/Data/CollectionChildItem.cs:45-52 | the name of a child with a parent gives back its position in the parent's children |
| CollectionChildren.NameShowsIndex | StructuredXmlEditor/Data/CollectionChildItem.cs:160-174 | once the parent's children are distinct, the name shows the child's index |
| CollectionChildren.NameWithoutParent | StructuredXmlEditor/Data/CollectionChildItem.cs:45-52 | without a parent the name is just the wrapped item's name |
| CollectionChildren.WrappedSet | StructuredXmlEditor/Data/CollectionChildItem.cs:23-57 | setting the wrapped item keeps the set of items |
| CollectionChildren.WrappedSetEffects | StructuredXmlEditor/Data/CollectionChildItem.cs:23-57 | after setting a wrapped item, it has this item as parent, this item wraps it and takes its children, tooltip and colour, the name gives back the position, and no other item changes |
| CollectionChildren.WrappedSetName | StructuredXmlEditor/Data/CollectionChildItem.cs:45-55 | without a parent the new name is the wrapped item's name |
| CollectionChildren.SetWrappedItem | StructuredXmlEditor/Data/CollectionChildItem.cs:23-57 | the setter on the live tree gives the WrappedSet result and changes nothing else |
| CollectionChildren.Refreshed | StructuredXmlEditor/Data/CollectionChildItem.cs:160-203 | the property handlers change only this item |
| CollectionChildren.RefreshIdempotent | StructuredXmlEditor/Data/CollectionChildItem.cs:160-203 | handling the same property change twice is handling it once |
| CollectionChildren.AsCollection | StructuredXmlEditor/Data/CollectionChildItem.cs:81-84 | the cast as CollectionItem gives the item itself, and only when it is a collection |
| CollectionChildren.ParentCollection | StructuredXmlEditor/Data/CollectionChildItem.cs:73-87 | the result, when there is one, is a collection item of the tree |
| CollectionChildren.ParentCollectionNear | StructuredXmlEditor/Data/CollectionChildItem.cs:73-87 | the collection found is the parent, or what the parent wraps, or what the parent's wrapped reference wraps |
| CollectionChildren.ParentCollectionDirect | StructuredXmlEditor/Data/CollectionChildItem.cs:77 | a direct collection parent is always the one found |
| CollectionChildren.CanRemove | StructuredXmlEditor/Data/CollectionChildItem.cs:90-96 | throws iff there is no parent collection; otherwise true iff the collection is not at its minimum count |
| CollectionChildren.InsertPosition | StructuredXmlEditor/Data/CollectionChildItem.cs:256-257 | the insertion index of AddNew, or the exception for a missing collection, lies within the collection's child list |
| CollectionChildren.Inserted | StructuredXmlEditor/Data/CollectionChildItem.cs:259 | Insert puts the child at the index and shifts the later children one place on |
| CollectionChildren.NewChildFollows | StructuredXmlEditor/Data/CollectionChildItem.cs:238-259 | AddNew and Duplicate insert the new child right after this item; an item the collection does not list sends it to the front |
| CollectionChildren.Wrapped | StructuredXmlEditor/Data/CollectionChildItem.cs:23-28 | the wrapped item of a collection child, if it has one |
| CollectionChildren.ChildName | StructuredXmlEditor/Data/CollectionChildItem.cs:45-52 | the Name the setter computes; NameRoundTrip, NameShowsIndex and NameWithoutParent state it |
| CollectionChildren.PositionInName | StructuredXmlEditor/Data/CollectionChildItem.cs:48 | reads the position back from a name; NameRoundTrip states that it inverts the prefix |
| CollectionChildren.PositionOfBracketed | StructuredXmlEditor/Data/CollectionChildItem.cs:48 | the prefix "[" + i + "] " before any text reads back as i |
| CollectionChildren.FirstCloseBracket | StructuredXmlEditor/Data/CollectionChildItem.cs:48 | in "[" + d + "] " + rest, with no ']' in d, the first ']' is the one after d |
| GraphReferences.RemoveFirst | StructuredXmlEditor/Data/GraphReferenceItem.cs:39 | List.Remove drops one occurrence of the item (the multiset loses one copy) and leaves a list without it unchanged |
| GraphReferences.RemoveFirstAppend | StructuredXmlEditor/Data/GraphReferenceItem.cs:39-54 | removing an item that was appended to a list without it gives the list back |
| GraphReferences.Unlinked | StructuredXmlEditor/Data/GraphReferenceItem.cs:37-41 | unlinking from the old target keeps the set of items |
| GraphReferences.Linked | StructuredXmlEditor/Data/GraphReferenceItem.cs:46-56 | linking into the new target keeps the set of items |
| GraphReferences.Retarget | StructuredXmlEditor/Data/GraphReferenceItem.cs:29-75 | the setter keeps the set of items and this item is still a graph reference |
| GraphReferences.RetargetAt | StructuredXmlEditor/Data/GraphReferenceItem.cs:29-75 | what the setter does to each item: this reference is pointed at the target (name, tooltip and colour from the target, or from its own definition without one); a node changes only its LinkParents; every other item is untouched |
| GraphReferences.RetargetAtRef | StructuredXmlEditor/Data/GraphReferenceItem.cs:43-69 | the reference's own fields after the setter |
| GraphReferences.RetargetAtNode | StructuredXmlEditor/Data/GraphReferenceItem.cs:39-54 | a node's LinkParents after the setter: the reference removed if the node was the old target, appended if it is the new one |
| GraphReferences.UnlinkedAt | StructuredXmlEditor/Data/GraphReferenceItem.cs:37-41 | only the old target's LinkParents lose the reference |
| GraphReferences.RetargetAtOther | StructuredXmlEditor/Data/GraphReferenceItem.cs:29-75 | items other than the reference and the nodes are untouched |
| GraphReferences.LinkedAt | StructuredXmlEditor/Data/GraphReferenceItem.cs:46-56 | only the new target's LinkParents gain the reference |
| GraphReferences.LinksAt | StructuredXmlEditor/Data/GraphReferenceItem.cs:29-75 | after the setter, each node's LinkParents hold each reference once iff it targets the node |
| GraphReferences.RetargetKeepsLinks | StructuredXmlEditor/Data/GraphReferenceItem.cs:29-75 | the setter keeps the link invariant and leaves the reference consistent with its new target |
| GraphReferences.RetargetCounts | StructuredXmlEditor/Data/GraphReferenceItem.cs:29-75 | after the setter every node lists each reference that targets it exactly once, and no other |
| GraphReferences.RetargetTargets | StructuredXmlEditor/Data/GraphReferenceItem.cs:29-75 | after the setter every reference with a target still targets a node |
| GraphReferences.SetWrapped | StructuredXmlEditor/Data/GraphReferenceItem.cs:29-75 | the setter on the live tree, in the source's order (unlink, point, link), gives the Retarget result |
| GraphReferences.Unlink | StructuredXmlEditor/Data/GraphReferenceItem.cs:37-41 | the old target's LinkParents.Remove on the live tree |
| GraphReferences.Link | StructuredXmlEditor/Data/GraphReferenceItem.cs:46-56 | the new target's LinkParents.Add on the live tree |
| GraphReferences.HasContentIffTarget | StructuredXmlEditor/Data/GraphReferenceItem.cs:105 | a consistent reference has content exactly when it has a target |
| GraphReferences.Description | StructuredXmlEditor/Data/GraphReferenceItem.cs:108-114 | a reference without a target describes itself as "Unset" |
| GraphReferences.DescriptionFollowsContent | StructuredXmlEditor/Data/GraphReferenceItem.cs:105-114 | without content the description is "Unset"; with content it is the target's description |
| GraphReferences.RemoveFirstGone | StructuredXmlEditor/Data/GraphReferenceItem.cs:39 | removing the only copy leaves none |
| GraphReferences.RetargetBackAt | StructuredXmlEditor/Data/GraphReferenceItem.cs:315-328 | setting the target back after a change gives every item back, except that the old target has the reference moved to the end of its LinkParents |
| GraphReferences.RetargetBackRef | StructuredXmlEditor/Data/GraphReferenceItem.cs:315-328 | the reference pointed back at its old target is exactly as it was |
| GraphReferences.RetargetBackNode | StructuredXmlEditor/Data/GraphReferenceItem.cs:315-328 | a node other than the reference is as it was, except that the old target has the reference moved to the end of its LinkParents |
| GraphReferences.RetargetBack | StructuredXmlEditor/Data/GraphReferenceItem.cs:315-328 | changing the target and setting the old one back restores the document, up to the order of the old target's LinkParents |
| GraphReferences.RemoveFirstLast | StructuredXmlEditor/Data/GraphReferenceItem.cs:39-54 | removing the last element, when it occurs once, and appending it again gives the list back |
| GraphReferences.RetargetBackExact | StructuredXmlEditor/Data/GraphReferenceItem.cs:315-328 | when the reference was last in its old target's LinkParents, the undo restores the document exactly |
| GraphReferences.RestoredExactly | StructuredXmlEditor/Data/GraphReferenceItem.cs:39-54 | a document restored up to LinkParents order, whose order already matched, is restored exactly |
| GraphReferences.ClearAction | StructuredXmlEditor/Data/GraphReferenceItem.cs:381-395 | the action Clear records is described as "Clear Item " followed by the definition's name |
| GraphReferences.SetItemAction | StructuredXmlEditor/Data/GraphReferenceItem.cs:315-328 | the action SetWrappedItem records is described as "Set Item " followed by the item's name |
| GraphReferences.CreateAction | StructuredXmlEditor/Data/GraphReferenceItem.cs:365-375 | the action Create records is described as "Create Item " followed by the new node's name |
| GraphReferences.ClearUndoRestores | StructuredXmlEditor/Data/GraphReferenceItem.cs:381-395 | Clear leaves the reference without content and keeps the link invariant; its undo restores the document up to LinkParents order |
| GraphReferences.SetItemUndoRestores | StructuredXmlEditor/Data/GraphReferenceItem.cs:315-328 | SetWrappedItem targets the item, links the reference into it and keeps the link invariant; its undo restores the document up to LinkParents order |
| GraphReferences.CreateUndoRestores | StructuredXmlEditor/Data/GraphReferenceItem.cs:365-375 | on an unset reference, Create targets the new node and appends it to the registry, and its undo restores the document exactly |
| GraphReferences.CreateUndoUnsets | StructuredXmlEditor/Data/GraphReferenceItem.cs:370-374 | the undo of Create sets no target rather than the previous one, so a reference that had a target has none after undo |
| GraphReferences.Clear | StructuredXmlEditor/Data/GraphReferenceItem.cs:381-395 | Clear issues one ApplyDoUndo of the Clear action over the current target |
| GraphReferences.SetWrappedItem | StructuredXmlEditor/Data/GraphReferenceItem.cs:315-328 | SetWrappedItem issues one ApplyDoUndo of the Set Item action |
| GraphReferences.Create | StructuredXmlEditor/Data/GraphReferenceItem.cs:331-378 | the node is built and joins the document inside a disable scope, then one ApplyDoUndo of the Create action runs |
| GraphReferences.LinkTypeAction | StructuredXmlEditor/Data/GraphReferenceItem.cs:86-98 | the LinkType change is described as "Change LinkType from " + old + " to " + new |
| GraphReferences.LinkTypeUndoRestores | StructuredXmlEditor/Data/GraphReferenceItem.cs:86-98 | the change sets the new link type and nothing else, and its undo restores the document |
| GraphReferences.SetLinkType | StructuredXmlEditor/Data/GraphReferenceItem.cs:79-101 | setting the same link type does nothing; a different one issues one ApplyDoUndo of the change |
| GraphReferences.FirstWithGuid | StructuredXmlEditor/Data/GraphReferenceItem.cs:166-194 | the first registered node carrying the GUID; no earlier node carries it, and none does when nothing is found |
| GraphReferences.FirstWithGuidAppend | StructuredXmlEditor/Data/GraphReferenceItem.cs:175-185 | a node added to the registry is found by its GUID when no earlier node has it |
| GraphReferences.Resolved | StructuredXmlEditor/Data/GraphReferenceItem.cs:169-183 | resolving keeps the set of items and the reference's class |
| GraphReferences.ResolvedKeepsLinks | StructuredXmlEditor/Data/GraphReferenceItem.cs:169-183 | resolving keeps the link invariant, targets the node, clears the pending GUID and sets whether the handler stays subscribed; other items change as the setter changes them |
| GraphReferences.PendingKeepsLinks | StructuredXmlEditor/Data/GraphReferenceItem.cs:170-183 | clearing the pending GUID or unsubscribing does not touch the links |
| GraphReferences.GridAttachedResolves | StructuredXmlEditor/Data/GraphReferenceItem.cs:164-171 | a pending GUID that a registered node carries resolves to the first such node, keeping the registry and the link invariant |
| GraphReferences.GridAttachedWaits | StructuredXmlEditor/Data/GraphReferenceItem.cs:172-188 | a pending GUID that no registered node carries leaves everything as it was and subscribes a registry handler |
| GraphReferences.GridAttachedRegisters | StructuredXmlEditor/Data/GraphReferenceItem.cs:190-208 | without a pending GUID, a reference with a target ends up targeting a registered node, and no node leaves the registry |
| GraphReferences.RegistryAddResolves | StructuredXmlEditor/Data/GraphReferenceItem.cs:175-187 | a waiting reference is resolved, and unsubscribed, once a node carrying its GUID is added to the registry |
| GraphReferences.OnGridChanged | StructuredXmlEditor/Data/GraphReferenceItem.cs:160-219 | the Grid handler on the live tree gives the GridAttached result and leaves the flags alone |
| GraphReferences.OnRegistryChanged | StructuredXmlEditor/Data/GraphReferenceItem.cs:175-185 | the registry handler on the live tree gives the RegistryChanged result |
| GraphReferences.Ancestry | StructuredXmlEditor/Data/GraphReferenceItem.cs:282-286 | the item and its ancestors, nearest first, are items of the tree |
| GraphReferences.ParentNodeNearest | StructuredXmlEditor/Data/GraphReferenceItem.cs:280-289 | the result is the nearest graph node among the ancestors, and none when no ancestor is one |
| GraphReferences.GetParentNode | StructuredXmlEditor/Data/GraphReferenceItem.cs:280-289 | the loop up the parents finds the ParentNode result |
| GraphReferences.PathNamesDotFree | StructuredXmlEditor/Data/GraphReferenceItem.cs:298-307 | when no definition name contains a dot, no collected name does |
| GraphReferences.GetParentPath | StructuredXmlEditor/Data/GraphReferenceItem.cs:292-312 | the definition names collected walking up (stopping at a graph node or reference, skipping collection children and references), reversed and joined with dots |
| GraphReferences.ParentPathSplits | StructuredXmlEditor/Data/GraphReferenceItem.cs:292-312 | when no name contains a dot, splitting the path at the dots gives the names back outermost first, with the item's own definition name last |
| GraphReferences.UnlinkedLeaves | StructuredXmlEditor/Data/GraphReferenceItem.cs:37-41 | unlinking from the old target leaves every item that is not a graph node as it was |
| GraphReferences.LinkedLeaves | StructuredXmlEditor/Data/GraphReferenceItem.cs:46-56 | linking into the new target leaves every item that is not a graph node as it was |
| GraphReferences.LinksAtOne | StructuredXmlEditor/Data/GraphReferenceItem.cs:29-75 | for one node and one item: if the node's LinkParents counted the reference and the item correctly before the setter, the item is counted once iff it is a reference targeting the node afterwards |
| GraphReferences.BackParents | StructuredXmlEditor/Data/GraphReferenceItem.cs:315-328 | a node's LinkParents after the reference moved away and back by the undo: the reference is at the end if it was in the list before, and the list is unchanged if it was not |
| Definitions.KindOfTagExact | StructuredXmlEditor/Definition/DataDefinition.cs:33-48 | an upper-cased tag selects a definition class exactly when it is one of that class's tags (STRUCTDEF and ENUMDEF are aliases), so no tag selects two classes |
| Definitions.CopyKeyDistinct | StructuredXmlEditor/Definition/DataDefinition.cs:13 | every copy key ends in "Copy", and different definition classes copy under different keys |
| Definitions.Clamp | StructuredXmlEditor/Definition/NumberDefinition.cs:35-36 | with Min <= Max the clamped value lies in [Min, Max], and a value already in range is kept |
| Definitions.LoadFromString | StructuredXmlEditor/Definition/StringDefinition.cs:88-93 | the item has the definition and no attribute items |
| Definitions.TextRoundTrip | StructuredXmlEditor/Definition/StringDefinition.cs:82-93 | for string and enum definitions, text loaded by LoadFromString is written back unchanged by WriteToString |
| Definitions.NumberRoundTrip | StructuredXmlEditor/Definition/NumberDefinition.cs:64-79 | a number written as text and loaded by LoadFromString comes back as itself, in range or not (LoadFromString does not clamp) |
| Definitions.Created | StructuredXmlEditor/Definition/StringDefinition.cs:16-28 | the created item belongs to the definition |
| Definitions.CreatedIsDefault | StructuredXmlEditor/Definition/StringDefinition.cs:16-28 | a created item, written as text, is the definition's DefaultValueString; a string item has one created attribute item per declared attribute, in order |
| Definitions.Loaded | StructuredXmlEditor/Definition/StringDefinition.cs:30-53 | the loaded item belongs to the definition and holds the value read from the element text |
| Definitions.LoadedNumberInRange | StructuredXmlEditor/Definition/NumberDefinition.cs:27-39 | a loaded number lies in [Min, Max]; text that does not parse loads as 0 clamped to the range |
| Definitions.CreateData | StructuredXmlEditor/Definition/StringDefinition.cs:16-28 | the method's loop builds exactly the created item |
| Definitions.LoadData | StructuredXmlEditor/Definition/StringDefinition.cs:30-53 | the method's loop builds exactly the loaded item: each declared attribute read from the element when present, created otherwise |
| Definitions.ParseString | StructuredXmlEditor/Definition/StringDefinition.cs:55-60 | Default is the attribute's value, "" when absent; MaxLength is 999999999 when absent or not a 32-bit integer |
| Definitions.ParseNumber | StructuredXmlEditor/Definition/NumberDefinition.cs:41-56 | Min and Max are read with the float range as fallback, the default lies in [Min, Max] when Min <= Max, and integers are used exactly when Type is INT in any letter case |
| Definitions.NumberParseDefaults | StructuredXmlEditor/Definition/NumberDefinition.cs:43-48 | without Default, Min and Max the definition is 0 over the whole float range |
| Definitions.ParseEnum | StructuredXmlEditor/Definition/EnumDefinition.cs:35-45 | the values are the EnumValues attribute, or else the element text, split on ','; there is always at least one, and a missing Default becomes the first |
| Definitions.Dispatched | StructuredXmlEditor/Definition/DataDefinition.cs:31-56 | loading fails exactly when the upper-cased tag names no definition class, with the message "Unknown definition type <TAG>!" |
| Definitions.LoadDefinition | StructuredXmlEditor/Definition/DataDefinition.cs:31-56 | the if-chain gives the dispatched definition |
| Definitions.DispatchedCopiesNames | StructuredXmlEditor/Definition/DataDefinition.cs:50-51 | a loaded definition's Name and VisibleIf are the element's attributes, absent when missing |
| Definitions.ResolveEnumOutcome | StructuredXmlEditor/Definition/EnumDefinition.cs:67-82 | a key not registered under its lower-cased form only warns and changes nothing; a registered enum donates its values and a set default is kept |
| Definitions.SetOrRemove | StructuredXmlEditor/Definition/StringDefinition.cs:77 | SetAttributeValue sets the named attribute to the value (removes it for null) and touches nothing else |
| Definitions.WithAttributes | StructuredXmlEditor/Definition/StringDefinition.cs:69-79 | the attribute loop keeps the element's name, text and child nodes |
| Definitions.SavedElement | StructuredXmlEditor/Definition/StringDefinition.cs:62-80 | the element saved for an item whose definition has a Name: it is named after the definition and has no child nodes; DoSaveData handles the nameless case |
| Definitions.NamelessWrite | StructuredXmlEditor/Definition/StringDefinition.cs:69-78 | some attribute is written although its definition has no Name, so SetAttributeValue gets a null name |
| Definitions.DoSaveData | StructuredXmlEditor/Definition/StringDefinition.cs:62-80 | it throws ArgumentNullException exactly when the definition has no Name, or a string item writes an attribute whose definition has no Name; otherwise the parent gains the saved element as its last child |
| Definitions.SaveData | StructuredXmlEditor/Definition/DataDefinition.cs:24-29 | an exception from IsVisibleFromBindings escapes; an item it hides writes nothing; a visible one throws as DoSaveData does, or appends its saved element |
| Definitions.AttributeAfterLoop | StructuredXmlEditor/Definition/StringDefinition.cs:69-79 | after the loop an attribute holds its item's text when the rule (Name, not SkipIfDefault, or not the default) writes it, and is left as it was otherwise |
| Definitions.NotWrittenKeeps | StructuredXmlEditor/Definition/StringDefinition.cs:69-79 | an attribute no item names is left as it was |
| Definitions.AttributeRecovered | StructuredXmlEditor/Definition/StringDefinition.cs:36-79 | an attribute written or skipped as default loads back to the item's value |
| Definitions.WrittenRecovered | StructuredXmlEditor/Definition/StringDefinition.cs:36-79 | a written attribute has text, and loading that text gives back its value |
| Definitions.SkippedRecovered | StructuredXmlEditor/Definition/StringDefinition.cs:36-79 | an attribute skipped as default is created back with its value |
| Definitions.StringSaveLoadRoundTrip | StructuredXmlEditor/Definition/StringDefinition.cs:30-80 | saving a string item and loading the element gives back its value and every attribute's value, skipped defaults included |
| Definitions.NumberSaveLoadRoundTrip | StructuredXmlEditor/Definition/NumberDefinition.cs:27-62 | a saved number loads back as itself exactly when it lies in [Min, Max] |
| Definitions.EnumSaveLoadRoundTrip | StructuredXmlEditor/Definition/EnumDefinition.cs:26-52 | a saved enum value loads back as itself |
| Definitions.KindOfTag | StructuredXmlEditor/Definition/DataDefinition.cs:33-47 | the if-chain on the upper-cased tag; KindOfTagExact states which tags select each kind |
| Definitions.CopyKey | StructuredXmlEditor/Definition/DataDefinition.cs:13 | the full type name followed by "Copy"; CopyKeyDistinct states that kinds copy under distinct keys |
| Definitions.DefaultValueString | StructuredXmlEditor/Definition/StringDefinition.cs:95-98 | the default as text: a string's Default, a number's printed Default, an enum's Default (possibly null); CreatedIsDefault relates it to a created item |
| Definitions.WriteToString | StructuredXmlEditor/Definition/StringDefinition.cs:82-86 | an item's Value as text, a number printed; TextRoundTrip and NumberRoundTrip state that LoadFromString reads it back |
| Definitions.LoadedValue | StructuredXmlEditor/Definition/StringDefinition.cs:34 | the value read from element text: the text itself, or for a number the parsed and clamped value; LoadedNumberInRange states the bound |
| Definitions.LoadedAttribute | StructuredXmlEditor/Definition/StringDefinition.cs:38-49 | a declared attribute loaded from the element's attribute when present, created with its default otherwise; AttributeRecovered states the round trip |
| Definitions.ResolveEnum | StructuredXmlEditor/Definition/EnumDefinition.cs:67-82 | RecursivelyResolve; ResolveEnumOutcome states its cases |
| Definitions.ShouldWrite | StructuredXmlEditor/Definition/StringDefinition.cs:75 | the write test: the Name attribute, an attribute not skipped at its default, or one that differs from its default |
| Definitions.WriteAttribute | StructuredXmlEditor/Definition/StringDefinition.cs:72-78 | one step of the attribute loop; AttributeAfterLoop and NotWrittenKeeps state what the loop leaves |
| ReferenceDefinitions.Lookup | StructuredXmlEditor/Definition/ReferenceDefinition.cs:45 | a dictionary lookup finds a value exactly when some entry has the key, and the value is that entry's (no value where the indexer would throw) |
| ReferenceDefinitions.Put | StructuredXmlEditor/Definition/ReferenceDefinition.cs:67 | after `Definitions[key] = v` the key maps to v, every other key maps to what it did, and the entry count grows only for a new key |
| ReferenceDefinitions.Parse | StructuredXmlEditor/Definition/ReferenceDefinition.cs:56-60 | parsing fails exactly when the Keys attribute is missing; otherwise Keys gains the non-empty comma-separated pieces, in order, and Nullable is read with true as fallback |
| ReferenceDefinitions.ParseNullableByDefault | StructuredXmlEditor/Definition/ReferenceDefinition.cs:59 | without a Nullable attribute the reference may be left empty |
| ReferenceDefinitions.RecursivelyResolve | StructuredXmlEditor/Definition/ReferenceDefinition.cs:62-69 | the loop either fails with the resolution's error or stores exactly the resolved dictionary |
| ReferenceDefinitions.ResolveFailsIff | StructuredXmlEditor/Definition/ReferenceDefinition.cs:64-66 | resolution succeeds exactly when every key, lower-cased, is registered; a failure names the first key that is not, as "Failed to find key <key>!" |
| ReferenceDefinitions.ResolveMapsEveryKey | StructuredXmlEditor/Definition/ReferenceDefinition.cs:64-68 | after resolution every key, as written, maps to the definition registered under its lower-cased form, and entries for other keys are untouched |
| ReferenceDefinitions.CreatedChoice | StructuredXmlEditor/Definition/ReferenceDefinition.cs:17-26 | a new item has a chosen definition exactly when there is one candidate and the reference is not nullable, and then it is that candidate |
| ReferenceDefinitions.CreatedIsDefaultIff | StructuredXmlEditor/Definition/ReferenceDefinition.cs:17-74 | a new item is default (no chosen definition) exactly when there is not a single candidate or the reference is nullable |
| ReferenceDefinitions.LastElement | StructuredXmlEditor/Definition/ReferenceDefinition.cs:35-37 | the index found is the last element among the parent's nodes, and there is none exactly when the parent has no elements |
| ReferenceDefinitions.Saved | StructuredXmlEditor/Definition/ReferenceDefinition.cs:28-40 | with nothing chosen the parent is unchanged; an exception from the chosen definition's DoSaveData escapes; otherwise saving keeps the parent's name and attributes and adds the wrapped item's nodes |
| ReferenceDefinitions.DoSaveData | StructuredXmlEditor/Definition/ReferenceDefinition.cs:28-40 | the method gives the saved parent |
| ReferenceDefinitions.SavedMarksPayload | StructuredXmlEditor/Definition/ReferenceDefinition.cs:31-39 | an item with no chosen definition writes nothing; a chosen one whose output ends in an element saves without throwing and has that element carry RefKey = the chosen definition's Name, with everything before it unchanged |
| ReferenceDefinitions.LoadedChoiceAsWritten | StructuredXmlEditor/Definition/ReferenceDefinition.cs:42-54 | as written, loading succeeds only with a RefKey attribute whose exact text is a key of the dictionary, and yields that key's definition |
| ReferenceDefinitions.RefKeyCaseMismatch | StructuredXmlEditor/Definition/ReferenceDefinition.cs:38-45 | with key "foo" resolved to a definition named "Foo", the saved element carries RefKey "Foo" and loading it as written fails with KeyNotFoundException |
| ReferenceDefinitions.LookupIgnoreCase | StructuredXmlEditor/Definition/ReferenceDefinition.cs:44-45 | the value found belongs to an entry whose key equals the RefKey ignoring case, and none is found when no key does |
| ReferenceDefinitions.LoadedChoice | StructuredXmlEditor/Definition/ReferenceDefinition.cs:42-54 | corrected loading succeeds only when the element has a RefKey attribute |
| ReferenceDefinitions.LoadData | StructuredXmlEditor/Definition/ReferenceDefinition.cs:42-54 | the method gives the corrected choice |
| ReferenceDefinitions.ResolvedCaseConsistent | StructuredXmlEditor/Definition/ReferenceDefinition.cs:64-68 | resolution only stores, under a key, the definition registered for that key lower-cased |
| ReferenceDefinitions.PutKeepsCase | StructuredXmlEditor/Definition/ReferenceDefinition.cs:67 | one loop step keeps the dictionary case-consistent |
| ReferenceDefinitions.SaveLoadKeepsChoice | StructuredXmlEditor/Definition/ReferenceDefinition.cs:28-69 | with definitions registered under their lower-cased names, an item chosen among the resolved definitions saves an element that the corrected LoadData reads back to the same choice |
| ReferenceDefinitions.ResolvedEntries | StructuredXmlEditor/Definition/ReferenceDefinition.cs:62-69 | the dictionary after the loop over the keys, or the failure of the first missing key; ResolveFailsIff and ResolveMapsEveryKey state it |
| ReferenceDefinitions.IsDefault | StructuredXmlEditor/Definition/ReferenceDefinition.cs:71-74 | an item is default exactly when no definition is chosen |
| GraphCollections.ByteOrZero | StructuredXmlEditor/Definition/GraphCollectionDefinition.cs:119-127 | byte.TryParse leaves a value in [0, 255] |
| GraphCollections.ParseBackground | StructuredXmlEditor/Definition/GraphCollectionDefinition.cs:114-132 | reading the Background colour fails exactly when it has fewer than four comma-separated pieces (the index past the end throws) |
| GraphCollections.ChildDefElements | StructuredXmlEditor/Definition/GraphCollectionDefinition.cs:134 | the child-definition elements are exactly the element children not named Attributes |
| GraphCollections.WithBackground | StructuredXmlEditor/Definition/GraphCollectionDefinition.cs:114-132 | reading the background leaves the child definitions alone |
| GraphCollections.Parse | StructuredXmlEditor/Definition/GraphCollectionDefinition.cs:102-142 | the method gives the parsed definition, or the Background failure |
| GraphCollections.ParseChildDefs | StructuredXmlEditor/Definition/GraphCollectionDefinition.cs:135-141 | the loop appends exactly one parsed child definition per child element, in order |
| GraphCollections.ParseDefaults | StructuredXmlEditor/Definition/GraphCollectionDefinition.cs:104-114 | with none of the attributes present Parse succeeds with ChildrenAreUnique false, MinCount 0, MaxCount int.MaxValue, reference links allowed, circular links and flattening off, NodeStoreName "Nodes" and the background unchanged |
| GraphCollections.BackgroundRoundTrip | StructuredXmlEditor/Definition/GraphCollectionDefinition.cs:114-129 | four bytes written as "R,G,B,A" read back as the colour with alpha A |
| GraphCollections.ByteRoundTrip | StructuredXmlEditor/Definition/GraphCollectionDefinition.cs:124-127 | a byte written in decimal parses back as itself |
| GraphCollections.DigitStringsHaveNoComma | StructuredXmlEditor/Definition/GraphCollectionDefinition.cs:117 | a decimal number never contains the separator ',' |
| GraphCollections.ElementCount | StructuredXmlEditor/Definition/GraphCollectionDefinition.cs:74 | the non-comment children are at most all the children |
| GraphCollections.ElementCountAppend | StructuredXmlEditor/Definition/GraphCollectionDefinition.cs:61-75 | the non-comment count of two child lists joined is the sum of their counts |
| GraphCollections.CreatedChildren | StructuredXmlEditor/Definition/GraphCollectionDefinition.cs:28-35 | a new item has no children unless there is exactly one child definition, and then MinCount (none when negative) default children of it |
| GraphCollections.CreateData | StructuredXmlEditor/Definition/GraphCollectionDefinition.cs:24-44 | the loops give the created children and one created item per declared attribute, in order |
| GraphCollections.FirstNamed | StructuredXmlEditor/Definition/GraphCollectionDefinition.cs:70 | FirstOrDefault finds the first child definition with the element's name, and none when no definition has it |
| GraphCollections.CommentSkipsMaxCount | StructuredXmlEditor/Definition/GraphCollectionDefinition.cs:61-75 | as written, with MaxCount 1, a comment followed by two elements loads all three children, two of them elements |
| GraphCollections.AsWrittenBoundWithoutComments | StructuredXmlEditor/Definition/GraphCollectionDefinition.cs:61-75 | as written, without comments the loaded children never exceed MaxCount and the loop is still running only below it |
| GraphCollections.ScanBound | StructuredXmlEditor/Definition/GraphCollectionDefinition.cs:61-75 | with the break counting only non-comment children, they never exceed a positive MaxCount, and the loop is still running only below it |
| GraphCollections.LoadedChildrenBound | StructuredXmlEditor/Definition/GraphCollectionDefinition.cs:61-81 | corrected, the loaded non-comment children, trailing comment included, never exceed a positive MaxCount |
| GraphCollections.LoadedElementsAppend | StructuredXmlEditor/Definition/GraphCollectionDefinition.cs:61-75 | the elements behind two child lists joined are the elements of each, in order |
| GraphCollections.ScanLoadsInOrder | StructuredXmlEditor/Definition/GraphCollectionDefinition.cs:61-75 | until the loop breaks off, the loaded children hold every element child seen so far, in document order |
| GraphCollections.ScanStaysFailed | StructuredXmlEditor/Definition/GraphCollectionDefinition.cs:70-71 | once an element with no matching child definition has thrown, later nodes change nothing |
| GraphCollections.ScanStaysStopped | StructuredXmlEditor/Definition/GraphCollectionDefinition.cs:74 | once the loop has broken off, later nodes change nothing |
| GraphCollections.LoadData | StructuredXmlEditor/Definition/GraphCollectionDefinition.cs:46-100 | loading fails exactly when the children fail; otherwise the item has meta:X and meta:Y (0 when absent), GUID and meta:Comment as read, the loaded children and each declared attribute loaded or created |
| GraphCollections.LoadChildren | StructuredXmlEditor/Definition/GraphCollectionDefinition.cs:61-81 | the loop gives the loaded children with the corrected break |
| GraphCollections.LoadAttributes | StructuredXmlEditor/Definition/GraphCollectionDefinition.cs:83-97 | one attribute item per declared attribute, in order, each loaded from the element's attribute or created |
| GraphCollections.MissingAttributeCreated | StructuredXmlEditor/Definition/GraphCollectionDefinition.cs:88-95 | a declared attribute the element lacks loads as its default item |
| GraphCollections.Renamed | StructuredXmlEditor/Definition/GraphCollectionDefinition.cs:181-185 | each element child keeps its content and takes the node's name, in order |
| GraphCollections.DoSaveData | StructuredXmlEditor/Definition/GraphCollectionDefinition.cs:144-203 | the method gives the saved parent or the exception Saved describes |
| GraphCollections.SaveChildren | StructuredXmlEditor/Definition/GraphCollectionDefinition.cs:159-168 | the loop gives the children's output in order, skipping references with nothing chosen, and ends with the first exception a child's SaveData throws |
| GraphCollections.ChildOutputStaysFailed | StructuredXmlEditor/Definition/GraphCollectionDefinition.cs:159-168 | once a child's SaveData has thrown, the children after it change nothing |
| GraphCollections.MoveElements | StructuredXmlEditor/Definition/GraphCollectionDefinition.cs:181-185 | the parent gains the renamed elements after its own nodes |
| GraphCollections.SaveAttributes | StructuredXmlEditor/Definition/GraphCollectionDefinition.cs:192-202 | the attribute loop throws ArgumentNullException exactly when a written attribute has no Name; otherwise it applies the same write rule as a string definition's, in order |
| GraphCollections.GuidRule | StructuredXmlEditor/Definition/GraphCollectionDefinition.cs:148-168 | in XML output with named attributes, saving fails exactly when the definition has no Name (ArgumentNullException), or the GUID must be written (more than one link parent, or the document model flattens its data) and another node has the same GUID or there is none, or a child's SaveData throws; a duplicate gives the message naming the GUID; on success the GUID is on the saved node exactly when it must be written |
| GraphCollections.SavedChildrenOutput | StructuredXmlEditor/Definition/GraphCollectionDefinition.cs:148-189 | in XML output a successful save gives the parent one element holding, in order, the output of every child but the references with nothing chosen |
| GraphCollections.ChildOutputSnoc | StructuredXmlEditor/Definition/GraphCollectionDefinition.cs:159-168 | after an exception nothing more is added; a reference child with nothing chosen adds nothing; any other child adds its whole output or ends it with its exception |
| GraphCollections.SavedAttributeRule | StructuredXmlEditor/Definition/GraphCollectionDefinition.cs:192-202 | after a successful XML save, a declared attribute is on the saved node exactly when it is named Name, is not skip-if-default, or differs from its default, and then holds its text |
| GraphCollections.JsonOutputShape | StructuredXmlEditor/Definition/GraphCollectionDefinition.cs:146-202 | a successful JSON or YAML save means the definition has a Name and no child threw, and the parent gains only the node's element children, renamed to the node's name with their content kept, so the attributes set afterwards on the root do not reach the parent |
| GraphCollections.WithFields | StructuredXmlEditor/Definition/GraphCollectionDefinition.cs:104-112 | the scalar fields Parse reads, each with its fallback; ParseDefaults states the fallbacks |
| GraphCollections.Parsed | StructuredXmlEditor/Definition/GraphCollectionDefinition.cs:102-142 | Parse as one value; ParseDefaults and the Parse method state it |
| GraphCollections.Stops | StructuredXmlEditor/Definition/GraphCollectionDefinition.cs:74 | the break test: as written Children.Count == MaxCount, counting comments; corrected, a positive MaxCount reached by the non-comment children |
| GraphCollections.Scan | StructuredXmlEditor/Definition/GraphCollectionDefinition.cs:61-75 | the element loop over the first nodes; ScanStep, ScanBound and ScanLoadsInOrder state it |
| GraphCollections.ScanStep | StructuredXmlEditor/Definition/GraphCollectionDefinition.cs:61-75 | one more node of a running loop: a non-element changes nothing, an element with no child definition throws, otherwise the preceding comment and the child are appended and the break test applied |
| GraphCollections.ScanElementStep | StructuredXmlEditor/Definition/GraphCollectionDefinition.cs:61-74 | as written, with only element nodes, a step appends just the child and breaks when the count equals MaxCount |
| GraphCollections.ScanNonPositiveMax | StructuredXmlEditor/Definition/GraphCollectionDefinition.cs:74 | with MaxCount below one the loop never breaks, and the corrected loop loads exactly what the loop as written does |
| GraphCollections.ElementsOfLonger | StructuredXmlEditor/Definition/GraphCollectionDefinition.cs:61 | Elements() of one more node adds that node when it is an element |
| GraphCollections.ScanWasRunning | StructuredXmlEditor/Definition/GraphCollectionDefinition.cs:61-75 | a loop still running after a node was running before it |
| GraphCollections.ScanLoadsOne | StructuredXmlEditor/Definition/GraphCollectionDefinition.cs:61-73 | one node adds its element, if it is one, to the loaded elements |
| GraphCollections.LoadedAfterComment | StructuredXmlEditor/Definition/GraphCollectionDefinition.cs:63-72 | a comment child adds no element and a loaded child adds its own |
| GraphCollections.ScanStepSkips | StructuredXmlEditor/Definition/GraphCollectionDefinition.cs:61 | a node that is not an element leaves the loop as it was |
| GraphCollections.ScanStepFails | StructuredXmlEditor/Definition/GraphCollectionDefinition.cs:70-71 | an element no child definition names makes the running loop throw |
| GraphCollections.ScanStepLoads | StructuredXmlEditor/Definition/GraphCollectionDefinition.cs:63-74 | an element of definition i is loaded after the comment before it, then the break test is applied |
| GraphCollections.LoadedChildren | StructuredXmlEditor/Definition/GraphCollectionDefinition.cs:61-81 | the loop's children and the trailing comment; LoadedChildrenBound and the LoadChildren method state it |
| GraphCollections.SavedRoot | StructuredXmlEditor/Definition/GraphCollectionDefinition.cs:146-157 | a definition without a Name throws ArgumentNullException; the root is named after the definition and has no nodes yet; it carries X, Y and, when there are several link parents or the document model flattens its data, the GUID; GuidRule states its failures |
| GraphCollections.ChildOutput | StructuredXmlEditor/Definition/GraphCollectionDefinition.cs:159-168 | the children's output in order, skipping references with nothing chosen; an exception comes from some child that is not skipped, and none comes when no such child throws |
| GraphCollections.MarkArray | StructuredXmlEditor/Definition/GraphCollectionDefinition.cs:173-179 | a single element child marked as a JSON array; JsonOutputShape states it |
| GraphCollections.Saved | StructuredXmlEditor/Definition/GraphCollectionDefinition.cs:144-203 | the parent after DoSaveData, or the first exception: from the root, then from a child, then from a written attribute without a Name; a success means none of these threw; SavedChildrenOutput, SavedAttributeRule, GuidRule and JsonOutputShape state it |
| AsciiGrids.GridLines | StructuredXmlEditor/View/CustomControls/AsciiGrid.cs:124-125 | the lines read are those of the split at '\n', less a trailing empty line |
| AsciiGrids.TextRows | StructuredXmlEditor/View/CustomControls/AsciiGrid.cs:127-146 | one row per line, each as wide as the first line |
| AsciiGrids.NoLineBreak | StructuredXmlEditor/View/CustomControls/AsciiGrid.cs:163 | a row without '\n' characters contains no line break |
| AsciiGrids.TextRowsOfRectangular | StructuredXmlEditor/View/CustomControls/AsciiGrid.cs:132-146 | lines all of one width are read into the grid unchanged |
| AsciiGrids.TextRoundTrip | StructuredXmlEditor/View/CustomControls/AsciiGrid.cs:122-167 | text whose lines all have one non-zero length is read into a grid and written back as the same text |
| AsciiGrids.RowsRoundTrip | StructuredXmlEditor/View/CustomControls/AsciiGrid.cs:152-167 | a rectangular grid written as text and read back is the same grid, so the re-read that the property change triggers after UpdateSrcGrid changes nothing |
| AsciiGrids.EmptyTextNoRows | StructuredXmlEditor/View/CustomControls/AsciiGrid.cs:124-130 | an empty value reads as a grid with no rows |
| AsciiGrids.ExpandedRect | StructuredXmlEditor/View/CustomControls/AsciiGrid.cs:170-241 | the expanded bounds hold the point and every cell of the old bounds |
| AsciiGrids.ExpandedIsSmallest | StructuredXmlEditor/View/CustomControls/AsciiGrid.cs:189-236 | for a grid that is empty or has cells, the expanded bounds are contained in any rectangle holding the point and the old cells |
| AsciiGrids.BetweenCorners | StructuredXmlEditor/View/CustomControls/AsciiGrid.cs:635-647 | a rectangle holding the smallest and largest corner of the selection holds every selected cell |
| AsciiGrids.Shifted | StructuredXmlEditor/View/CustomControls/AsciiGrid.cs:556-559 | every selected cell moves by the same offset, in place and in order |
| AsciiGrids.Offset | StructuredXmlEditor/View/CustomControls/AsciiGrid.cs:554-605 | each arrow key moves one cell along exactly one axis |
| AsciiGrids.ShiftBack | StructuredXmlEditor/View/CustomControls/AsciiGrid.cs:554-592 | Left undoes Right and Up undoes Down |
| AsciiGrids.ShiftKeepsDistinct | StructuredXmlEditor/View/CustomControls/AsciiGrid.cs:556-605 | moving the selection keeps it free of duplicates |
| AsciiGrids.RemoveFirst | StructuredXmlEditor/View/CustomControls/AsciiGrid.cs:435 | List.Remove of a cell not in the list changes nothing and otherwise drops exactly one entry |
| AsciiGrids.RemoveFirstDistinct | StructuredXmlEditor/View/CustomControls/AsciiGrid.cs:435 | in a duplicate-free selection, removing a cell keeps it duplicate-free and leaves exactly the other cells |
| AsciiGrids.CtrlClickToggles | StructuredXmlEditor/View/CustomControls/AsciiGrid.cs:425-441 | a Ctrl-click adds the clicked cell when it is not selected and removes it when it is, leaves every other cell as it was, and keeps the selection duplicate-free |
| AsciiGrids.Column | StructuredXmlEditor/View/CustomControls/AsciiGrid.cs:491-494 | the inner loop adds exactly the cells of the column between the two rows |
| AsciiGrids.ColumnSnoc | StructuredXmlEditor/View/CustomControls/AsciiGrid.cs:491-494 | one more step of the inner loop appends the next cell down |
| AsciiGrids.BoxCells | StructuredXmlEditor/View/CustomControls/AsciiGrid.cs:484-495 | the marquee selects exactly the cells of the box between the two corners, each once |
| AsciiGrids.WrittenStep | StructuredXmlEditor/View/CustomControls/AsciiGrid.cs:156-164 | one row of UpdateSrcGrid appends the row's characters and a line break unless it is the last row |
| AsciiGrids.WrittenAll | StructuredXmlEditor/View/CustomControls/AsciiGrid.cs:152-167 | the text written is the rows joined by line breaks |
| AsciiGrids.BlankGrid | StructuredXmlEditor/View/CustomControls/AsciiGrid.cs:197-225 | a new grid of the given size holds blanks |
| AsciiGrids.CopyInto | StructuredXmlEditor/View/CustomControls/AsciiGrid.cs:206-233 | every old cell lands at the offset in the new grid and the rest of the new grid is untouched |
| AsciiGrids.Regrown | StructuredXmlEditor/View/CustomControls/AsciiGrid.cs:192-236 | the regrown grid holds the old grid at the offset and blanks elsewhere |
| AsciiGrids.RegrownKeepsCells | StructuredXmlEditor/View/CustomControls/AsciiGrid.cs:192-236 | with the zero point moved by the offset, the regrown grid shows every world cell as the old grid did |
| AsciiGrids.Crop | StructuredXmlEditor/View/CustomControls/AsciiGrid.cs:277-298 | the new grid is the box of the old grid between the two corners |
| AsciiGrids.NonBlankBox | StructuredXmlEditor/View/CustomControls/AsciiGrid.cs:246-261 | for an all-blank grid the scan finds min above max on both axes; otherwise every non-blank cell lies in the box found, and each side of the box holds one |
| AsciiGrids.Grown | StructuredXmlEditor/View/CustomControls/AsciiGrid.cs:189-236 | for a point outside a grid that has cells, the new grid and zero point span exactly the expanded rectangle of the old bounds and the point, and every world cell keeps its character |
| AsciiGrids.ScanColumn | StructuredXmlEditor/View/CustomControls/AsciiGrid.cs:251-260 | one column of the scan: afterwards every non-blank cell of the columns so far lies within the bounds, each side of the bounds passes through a non-blank cell, and the bounds keep their starting values while no non-blank cell has been met |
| AsciiGrids.Widen | StructuredXmlEditor/View/CustomControls/AsciiGrid.cs:253-259 | a non-blank cell moves each bound it lies beyond onto itself: the bounds only grow, and afterwards they hold the cell |
| AsciiGrids.CropToBox | StructuredXmlEditor/View/CustomControls/AsciiGrid.cs:272-301 | for a box that holds every non-blank cell and is tight, the new grid shows every world cell as the old one did and is itself tight, with a non-blank cell on each edge |
| AsciiGrids.Corners | StructuredXmlEditor/View/CustomControls/AsciiGrid.cs:635-644 | the loop's corners are LowCorner and HighCorner of the selection; every selected cell lies between them, and for a non-empty selection the smaller corner is reached on both axes |
| AsciiGrids.GridRow | StructuredXmlEditor/View/CustomControls/AsciiGrid.cs:158-161 | a row of the grid is as wide as the grid |
| AsciiGrids.GridRows | StructuredXmlEditor/View/CustomControls/AsciiGrid.cs:156-164 | the grid has one row per unit of height |
| AsciiGrids.AsciiGrid.constructor | StructuredXmlEditor/View/CustomControls/AsciiGrid.cs:51-96 | a new control has no grid yet and cell (0, 0) selected |
| AsciiGrids.AsciiGrid.Rows | StructuredXmlEditor/View/CustomControls/AsciiGrid.cs:156-164 | the grid read row by row has one row per unit of height |
| AsciiGrids.AsciiGrid.UpdateGrid | StructuredXmlEditor/View/CustomControls/AsciiGrid.cs:122-149 | the grid is rebuilt from the text: one row per line, as wide as the first line, short lines padded with blanks and long ones cut; nothing else changes |
| AsciiGrids.AsciiGrid.UpdateSrcGrid | StructuredXmlEditor/View/CustomControls/AsciiGrid.cs:152-167 | the text becomes the rows joined by line breaks; nothing else changes |
| AsciiGrids.AsciiGrid.Delete | StructuredXmlEditor/View/CustomControls/AsciiGrid.cs:305-314 | the cell becomes blank when the grid covers it, and every other world cell keeps its character |
| AsciiGrids.AsciiGrid.ExpandGrid | StructuredXmlEditor/View/CustomControls/AsciiGrid.cs:170-241 | the bounds become the expanded rectangle, every world cell keeps its character, the grid and text stay when the point was inside, and the text is rewritten when the grid had cells and the point lay outside |
| AsciiGrids.AsciiGrid.ContractGrid | StructuredXmlEditor/View/CustomControls/AsciiGrid.cs:244-302 | every world cell keeps its character; an all-blank grid becomes 0-by-0 with zero point (0, 0), and otherwise the grid is the tight box of its non-blank cells |
| AsciiGrids.AsciiGrid.ShiftSelection | StructuredXmlEditor/View/CustomControls/AsciiGrid.cs:556-559 | every selected cell moves by the offset; the grid, zero point and text are unchanged |
| AsciiGrids.AsciiGrid.ArrowKey | StructuredXmlEditor/View/CustomControls/AsciiGrid.cs:554-605 | the selection moves one cell in the arrow's direction, and the key fails exactly when the selection is empty (Min or Max of nothing throws) |
| AsciiGrids.AsciiGrid.DeleteKey | StructuredXmlEditor/View/CustomControls/AsciiGrid.cs:606-626 | every selected cell is blanked, the grid shrinks to its tight box, the text is written back and the selection moves one cell right; it fails only for an empty selection |
| AsciiGrids.AsciiGrid.Type | StructuredXmlEditor/View/CustomControls/AsciiGrid.cs:627-666 | a typed character that is not white space is written into every selected cell, and no other cell changes, after the bounds have grown exactly to the selection's low and then high corner; the text is written back and the selection moves one cell right; white space changes nothing, and an empty selection fails with nothing changed |
| AsciiGrids.AsciiGrid.CoverSelection | StructuredXmlEditor/View/CustomControls/AsciiGrid.cs:635-647 | the bounds become the old bounds expanded to the low and then the high corner, so every selected cell lies inside them; every world cell keeps its character and the selection is unchanged |
| AsciiGrids.AsciiGrid.WriteSelected | StructuredXmlEditor/View/CustomControls/AsciiGrid.cs:649-652 | every selected cell holds the key and every other world cell keeps its character |
| AsciiGrids.AsciiGrid.Click | StructuredXmlEditor/View/CustomControls/AsciiGrid.cs:412-447 | a click without Ctrl selects the clicked cell alone; a Ctrl-click toggles it |
| AsciiGrids.AsciiGrid.Marquee | StructuredXmlEditor/View/CustomControls/AsciiGrid.cs:474-499 | the selection becomes the box between the drag's start cell and the current cell |
| AsciiGrids.LowCorner | StructuredXmlEditor/View/CustomControls/AsciiGrid.cs:635-641 | the smallest x and y of the selection, from (int.MaxValue, int.MaxValue) on; Corners states it is what the loop finds |
| AsciiGrids.HighCorner | StructuredXmlEditor/View/CustomControls/AsciiGrid.cs:636-643 | the largest x and y of the selection, from (-int.MaxValue, -int.MaxValue) on |
| AsciiGrids.Clicked | StructuredXmlEditor/View/CustomControls/AsciiGrid.cs:425-441 | the selection after a left click; CtrlClickToggles states the Ctrl case |
| AsciiGrids.Box | StructuredXmlEditor/View/CustomControls/AsciiGrid.cs:484-495 | the marquee's cells column by column; BoxCells states which cells, each once |
| AsciiGrids.Written | StructuredXmlEditor/View/CustomControls/AsciiGrid.cs:154-164 | the text after the first rows of UpdateSrcGrid; WrittenStep and WrittenAll state it |
| AsciiGrids.CellAt | StructuredXmlEditor/View/CustomControls/AsciiGrid.cs:307-312 | the character at a world cell, indexed through the zero point, blank outside the bounds |
| AsciiGrids.CroppedCells | StructuredXmlEditor/View/CustomControls/AsciiGrid.cs:272-301 | cropping to a box that holds every non-blank cell, with the zero point moved by the box corner, keeps every world cell |
| AsciiGrids.CroppedTight | StructuredXmlEditor/View/CustomControls/AsciiGrid.cs:272-301 | the crop to a tight box is tight at its own edges, so contracting again changes nothing |
| Markup.Attribute | StructuredXmlEditor/Definition/DataDefinition.cs:66 | an attribute is read exactly when the element has it |
| Markup.SetAttributeValue | StructuredXmlEditor/Definition/StringDefinition.cs:77 | the named attribute takes the value and nothing else about the element changes |
| Markup.AddElement | StructuredXmlEditor/Definition/NumberDefinition.cs:61 | the child is appended after the parent's existing nodes |
| Markup.Elements | StructuredXmlEditor/Definition/GraphCollectionDefinition.cs:61 | the element children are at most all the nodes |
| Markup.ElementsSnoc | StructuredXmlEditor/Definition/GraphCollectionDefinition.cs:61 | one more node adds itself to the element children exactly when it is an element |
| Markup.ParseInt32 | StructuredXmlEditor/Definition/DataDefinition.cs:69 | int.TryParse only succeeds with a value in the 32-bit range |
| Markup.ParseBool | StructuredXmlEditor/Definition/DataDefinition.cs:91 | bool.TryParse gives true or false exactly for "true" or "false" in any letter case, with surrounding white space, and fails otherwise |
| Markup.TryParseInt | StructuredXmlEditor/Definition/DataDefinition.cs:64-73 | a missing or unparsable attribute gives the fallback; otherwise its 32-bit value |
| Markup.TryParseFloat | StructuredXmlEditor/Definition/DataDefinition.cs:75-84 | a missing or unparsable attribute gives the fallback |
| Markup.TryParseBool | StructuredXmlEditor/Definition/DataDefinition.cs:86-95 | a missing or unparsable attribute gives the fallback |
| Markup.MissingAttributeFallsBack | StructuredXmlEditor/Definition/DataDefinition.cs:64-95 | a missing attribute reads as the fallback in all three readers |
| Markup.TryParseIntWritten | StructuredXmlEditor/Definition/DataDefinition.cs:64-73 | a 32-bit integer written into an attribute reads back as itself |
| Markup.TryParseFloatWritten | StructuredXmlEditor/Definition/DataDefinition.cs:75-84 | a number written into an attribute reads back as itself |
| Markup.TryParseBoolWritten | StructuredXmlEditor/Definition/DataDefinition.cs:86-95 | a boolean written with bool.ToString reads back as itself |
| Markup.TryParseIntOverflow | StructuredXmlEditor/Definition/DataDefinition.cs:64-73 | int.MaxValue + 1 written into an attribute fails to parse and reads as the fallback |
| Text.Trim | StructuredXmlEditor/Data/DataItem.cs:809-810 | the trimmed string neither starts nor ends with white space |
| Text.IndexOf | StructuredXmlEditor/Data/DataItem.cs:806 | the position found is the first occurrence, and none is found when there is no occurrence |
| Text.SplitOn | StructuredXmlEditor/Data/DataItem.cs:366 | splitting always gives at least one piece |
| Text.RemoveEmpty | StructuredXmlEditor/Data/DataItem.cs:366 | the RemoveEmptyEntries filter keeps exactly the non-empty pieces, in order |
| Text.JoinSplitOn | StructuredXmlEditor/Data/DataItem.cs:366-373 | splitting a string and joining the pieces with the separator gives the string back |
| Text.SplitJoin | StructuredXmlEditor/Data/DataItem.cs:366-373 | pieces free of a one-character separator, joined and split again, come back as they were |
| Text.SplitOnPiecesFree | StructuredXmlEditor/Data/DataItem.cs:808 | no piece of a split contains the separator |
| Text.ToUpper | StructuredXmlEditor/Definition/DataDefinition.cs:33 | ToUpper keeps the length and upper-cases every letter |
| Text.ToLower | StructuredXmlEditor/Data/DataItem.cs:654 | ToLower keeps the length and lower-cases every letter |
| Text.ParseIntToString | StructuredXmlEditor/Definition/DataDefinition.cs:69 | an integer printed in decimal parses back as itself |
| Extensions.Capitalise | StructuredXmlEditor/Util/Extensions.cs:39-44 | null or empty input fails with an ArgumentException; otherwise the length is kept, the first character becomes its upper-case form (so no longer a lower-case letter) and the rest is unchanged |
| Extensions.CapitaliseIdempotent | StructuredXmlEditor/Util/Extensions.cs:39-44 | capitalising a capitalised string changes nothing |
| Extensions.CapitaliseKeepsCapitals | StructuredXmlEditor/Util/Extensions.cs:39-44 | a string starting with a capital comes back unchanged |
| Extensions.FirstWithValue | StructuredXmlEditor/Util/Extensions.cs:56-58 | the member found is the first one carrying the value, and none is found when no member carries it |
| Extensions.GetDescription | StructuredXmlEditor/Util/Extensions.cs:47-75 | the loop gives the first Description of the first member with the receiver's value, and null for anything else |
| Extensions.DescriptionOfFirstMember | StructuredXmlEditor/Util/Extensions.cs:56-71 | for the first member with the value, its first Description when it has one and null otherwise, whatever later members carry |
| Extensions.UnknownValueHasNoDescription | StructuredXmlEditor/Util/Extensions.cs:47-75 | a value that no member carries has no description |
| Extensions.Description | StructuredXmlEditor/Util/Extensions.cs:47-75 | what GetDescription returns; DescriptionOfFirstMember and UnknownValueHasNoDescription state it |
| Text.TrimStart | StructuredXmlEditor/Data/DataItem.cs:809-810 | the result is a suffix of the input that does not start with white space, and everything dropped is white space |
| Text.TrimEnd | StructuredXmlEditor/Data/DataItem.cs:809-810 | the result is a prefix of the input that does not end with white space, and everything dropped is white space |
| Text.IndexOfFrom | StructuredXmlEditor/Data/DataItem.cs:806 | the position found is the first occurrence at or after the start, and none is found when there is no occurrence from there on |
| Text.Split | StructuredXmlEditor/Data/DataItem.cs:866 | string.Split on one character always gives at least one piece |
| Text.JoinCons | StructuredXmlEditor/Data/DataItem.cs:366-373 | joining a piece in front of non-empty pieces puts the separator between it and their join |
| Text.JoinSnoc | StructuredXmlEditor/Data/DataItem.cs:366-373 | joining non-empty pieces followed by one more puts the separator between their join and it |
| Text.SliceSplit | StructuredXmlEditor/Data/DataItem.cs:806-810 | a string is its three slices at two cut points put back together |
| Text.PrefixBeforeFirstFree | StructuredXmlEditor/Data/DataItem.cs:806-808 | the text before the first occurrence of a separator does not contain it |
| Text.UpperChar | StructuredXmlEditor/Util/Extensions.cs:43 | an upper-cased character is never a lower-case ASCII letter |
| Text.LowerChar | StructuredXmlEditor/Data/DataItem.cs:654 | a lower-cased character is never an upper-case ASCII letter |
| Text.DigitChar | StructuredXmlEditor/Data/CollectionChildItem.cs:48 | the character for a digit is a decimal digit whose value is that digit |
| Text.NatToString | StructuredXmlEditor/Data/CollectionChildItem.cs:48 | a natural number prints as one or more decimal digits |
| Text.IntToString | StructuredXmlEditor/Data/CollectionChildItem.cs:48 | an integer prints as a non-empty string |
| Text.DigitsOfNat | StructuredXmlEditor/Data/CollectionChildItem.cs:48 | the value of the digits a natural number prints as is that number |
| Text.TrimNoWhiteSpace | StructuredXmlEditor/Definition/DataDefinition.cs:69 | a string that neither starts nor ends with white space is its own trim |
| Text.TrimKeepsFirst | StructuredXmlEditor/Util/Extensions.cs:43 | trimming keeps a first character that is not white space |
| Text.ParseNatString | StructuredXmlEditor/Definition/DataDefinition.cs:69 | a non-negative integer printed in decimal parses back as itself |
| Text.ParseNegativeString | StructuredXmlEditor/Definition/DataDefinition.cs:69 | a negative integer printed with its minus sign parses back as itself |
| Text.TrimmedMinus | StructuredXmlEditor/Definition/DataDefinition.cs:69 | a string starting with '-' parses as the negated value of the digits after it |
| Text.NegatedDigits | StructuredXmlEditor/Definition/DataDefinition.cs:69 | digits after a '-' parse as the negation of their value |

## Left out

- I/O and libraries are not modelled: XDocument loading, XmlSerializer (`SerializeObject`/`DeserializeObject`), the OS clipboard, Regex (the regex mode of `Filter`), `Guid.NewGuid` and `DateTime.Now`. The clock is the parameter `now`, and a copied payload is an argument of `Paste`.
- WPF is not modelled: rendering, `PropertyChanged`/`CollectionChanged` event fan-out, `Grid`/`XmlDataGrid` assignment, context menus, `RefreshChildren` lazy loading and dispatcher scheduling.
- Numbers are integers with decimal parsing and printing. Float rounding and culture-dependent formatting are not modelled, and float.MaxValue is its exact integer value.
- Letter case, white space and `Capitalise` cover ASCII only. There is no Unicode case mapping.
- `Message.Show` dialogs are a `warned` flag or an error value. The dialog itself is not modelled.
- AsciiGrid rendering, zoom, `ViewPos` scrolling, the redraw timer and `KeyCodeToUnicode` are not modelled. The typed text is an argument of `Type`.
- AsciiGrid: mouse positions are given as grid cells. The pixel-to-cell rounding and the drag-distance threshold are not modelled.
- AsciiGrid: the re-read that the property change triggers after `UpdateSrcGrid` is not modelled as a call. `RowsRoundTrip` shows that it rebuilds the same grid when the grid is `Rectangular`: at least one row, at least one column, rows of one width, and no cell holding a line break. For other grids, such as the empty one, the model does not say what the re-read gives.
- AsciiGrids.AsciiGrid.ArrowKey: `ok` only records that the scroll check (`Min`/`Max` of the selection) throws on an empty selection. The scroll position itself is not modelled.
- AsciiGrids.AsciiGrid.DeleteKey: `ok` records the same exception, which comes after the grid and text are rewritten.
- AsciiGrids.AsciiGrid.Type: requires coordinates that fit 32 bits, because 32-bit wrap-around of the corner scan is not modelled. With an empty selection the source's corners stay at (int.MaxValue, int.MaxValue) and (-int.MaxValue, -int.MaxValue) (StructuredXmlEditor/View/CustomControls/AsciiGrid.cs:635-644), and its two `ExpandGrid` calls (:646-647) overflow. On an empty grid the first call makes a 1×1 grid, and the second moves `ZeroPoint` (:195) and then writes outside the new grid (:210), which throws. On a non-empty grid the second call moves `ZeroPoint` and then computes a grid size that wraps (:197). Either way the source throws after changing the grid state; here `ok` is false and nothing changes.
- AsciiGrids.AsciiGrid.ContractGrid: requires a grid no larger than int.MaxValue in each direction, because 32-bit overflow is not modelled. The source's second test (`max != GridWidth`) is always true for a grid with cells, so the shave branch always runs; the model states only the resulting grid.
- Extensions.GetDescription: an enum type is its member list in `Enum.GetValues` order. When two members share a value, the first one's Description is used, which `GetEnumName` does not promise. Enums whose underlying type is not `int` are not modelled.
- Definition classes other than String, Number, Enum, Reference and GraphCollection are dispatched by `LoadDefinition` but not parsed. Their `Parse` is not part of this model.
- `PrimitiveDataDefinition` attribute parsing and `CollectionChildDefinition.Parse` are not part of this model. The attribute definitions are a field, and child-definition parsing is a parameter of `GraphCollections.Parse`.
- Child items of graph collections and the wrapped items of references are loaded and saved through parameters. Their own definitions are not part of this model. How a child's SaveData ends, with its nodes or with its exception, is a parameter (`GraphCollections.SaveChild.output`, `ReferenceDefinitions.RefData.wrappedOutput`). So are the result of an item's IsVisibleFromBindings and of its own Description where a parent's Description reads them (`ComplexItems.ChildView.visible`, `ComplexItems.ChildView.description`). Either may be an exception, which the parent's Description passes on.
- Definitions.DoSaveData: when an attribute without a Name throws, the source has already added the element to the parent (StructuredXmlEditor/Definition/StringDefinition.cs:67). Elements are modelled as values, so the model returns only the exception and not the parent as the exception leaves it.
- GraphCollections.Saved: the same holds when an attribute without a Name throws. By then the source has already added the root, or in JSON or YAML the moved elements, to the parent (StructuredXmlEditor/Definition/GraphCollectionDefinition.cs:181-190). An exception from a child's SaveData leaves the partly filled root unattached, as in the model.
- ReferenceDefinitions.Saved: an exception thrown by the chosen definition's DoSaveData may come after that definition has already added nodes to the parent. The model returns only the exception.
- `ParseGraphComments` is not modelled: `meta:CommentData` is kept as its raw text.
- `MetaNS` and `JsonNS` are written as prefixes (`meta:X`, `json:Array`). XML namespaces are not modelled.
- GraphCollections.JsonOutputShape: in JSON or YAML output the attributes set on the root after it is moved are lost. This is recorded as observed behaviour, not as a finding.
- The base `DataDefinition.RecursivelyResolve` does nothing. `GraphCollectionDefinition.RecursivelyResolve` only forwards to child definitions. Neither is modelled.
- ReferenceDefinitions.RecursivelyResolve: on a missing key the source has already stored the earlier keys; the model returns only the exception.
- Item positions (`X`/`Y` as floats), `Create`'s placement arithmetic and `IsExpanded = true` are not modelled beyond the loaded X/Y values.
- CollectionChildItem: `Description`, `CopyKey`, `Copy` and `Paste` forward to the wrapped item and are not modelled separately.
- CollectionChildItem: `AddNew` and `Duplicate` are modelled only through the insertion position (`NewChildFollows`, `InsertPosition`). `CollectionItem.Insert` is not part of this model.
- ComplexItems.ResetToDefault: a collection child with no wrapped item throws in the source; the model resets nothing for it.
- GraphReferenceItem: `ResetToDefault`, `CanRemove` (always true), `CopyKey` and `IsCollectionChild` are not modelled.
- Visibility.Evaluate: its own contract states only the unbound case. The other branches are stated by `TextNotEqualNegates`, `CommaListMembership`, `MisreadNumberThrows` and the group lemmas.
- UndoRedo.UndoRedoManager.Redo: runs the group's dos as document transforms and records nothing for them. In the source (StructuredXmlEditor/Util/UndoRedoManager.cs:193-206, 234-237) the dos run with recording on. So an `ApplyDoUndo` that a do issues runs again, is recorded as a new action and clears the redo stack. The same holds for `Undo` (:178-191) and an `ApplyDoUndo` issued from an undo.
- An exception that escapes a do or an undo is not propagated. In the source `ApplyDoUndo` (StructuredXmlEditor/Util/UndoRedoManager.cs:113-116) then records nothing, leaves `isInApplyUndo` set and rethrows; the model records the action with the state the do left. This applies to the Parent setter's binding exception inside Clear and Paste (`ComplexItems.ClearAction`, `ComplexItems.PasteAction`): the document functions keep the items and drop the exception that `ComplexItems.AddedAll` reports.
- ComplexItems.PasteUndoRestores: requires that no Add of the do throws. When one does, the source records no action (see above), so there is no undo to state.
- The handlers and the Clear and Paste functions are stated for any binding function (`DataItems.Binder`); `DataItems.RebindBindsTargets` and `DataItems.ParentSetBinds` connect them to the editor's `Visibility.Rebind`, which the methods run.
- CollectionChildren.WrappedSet, CollectionChildren.WrappedSetEffects, CollectionChildren.SetWrappedItem: `Children = m_wrappedItem.Children` (StructuredXmlEditor/Data/CollectionChildItem.cs:42) shares one `ObservableCollection` between the two items; the model copies the list. So later edits through one item do not show in the other, and what follows from the sharing is missing: both items' change handlers run on an edit, and a child added later ends up with the collection child as its parent.
- CollectionChildren.WrappedSet: `m_wrappedItem.Parent = this` (StructuredXmlEditor/Data/CollectionChildItem.cs:40) only sets the parent. In the source the Parent setter also rebinds the wrapped item's VisibleIf (StructuredXmlEditor/Data/DataItem.cs:106) against this item's children as they were before :42, and may throw; neither the rebinding nor the exception is modelled here.
- GraphReferences.Create: the created node is an argument. The lookup `Definitions[chosenName]` (StructuredXmlEditor/Data/GraphReferenceItem.cs:333-336), which throws KeyNotFoundException for an unknown name, is not modelled.
- Graph.cs and Future.cs are not part of this model.
- Visibility.Rebind, Visibility.Binding, Visibility.BindText, Visibility.UpdateVisibleIfBinding and the item tree built on them (DataItems.ParentSet, DataItems.ItemTree.OnChildrenCollectionChanged, DataItems.IsVisible, DataItems.FilterFinds, Definitions.SaveData): statements are parsed with the corrected operator order (`Visibility.Parse`), which tries `<=` and `>=` before `<` and `>`. The source tries the operators in declaration order (StructuredXmlEditor/Data/DataItem.cs:801-816). So `a<=5` is stored as `a < "=5"`, and against a number item every visibility check then throws when the literal is parsed (:843). The model binds and evaluates `a <= 5` instead. `Visibility.ParseAsWritten`, `Visibility.AsWrittenMisreadsOrEqual` and `Visibility.MisreadNumberThrows` model the source's order.

## Findings

| source | as written | input that shows it | evidently intended | confidence | as-written member | corrected member |
|---|---|---|---|---|---|---|
| StructuredXmlEditor/Util/UndoRedoManager.cs:67-80 | with a save point, `IsModified` calls `UndoStack.Peek()`, which throws on an empty stack | one edit, `MarkSavePoint`, then `Undo`: the undo stack is empty and the save point is set | an empty undo stack below a save point means the document differs from the saved one, so it is modified | not executed | UndoRedo.AsWrittenPeekFails | UndoRedo.UndoRedoManager.IsModified |
| StructuredXmlEditor/Util/UndoRedoManager.cs:67-80,121-147 | `IsModified` compares only the group object on top of the stack with the saved one | one edit, `MarkSavePoint`, then a second edit 100 ms later: it is merged into the saved group, and `IsModified` is false although the document changed | every recorded edit makes the document modified | not executed | UndoRedo.AsWrittenMissesMergedEdit | UndoRedo.RecordedEditIsModified |
| StructuredXmlEditor/Data/DataItem.cs:777-816 | the operators are tried in declaration order, so `<` comes before `<=` and `>` before `>=` | `a<=5` parses as `a < "=5"`, and evaluating it against a number item throws when the literal is parsed | `<=` and `>=` are recognised, which needs the two-character operators tried first | not executed | Visibility.AsWrittenMisreadsOrEqual | Visibility.ParsePrinted |
| StructuredXmlEditor/Definition/ReferenceDefinition.cs:38,44-45 | `DoSaveData` writes the chosen definition's `Name` as `RefKey`, and `LoadData` looks it up case-sensitively among the keys as written in `Keys` | `Keys="foo"` resolved to a definition named `Foo`: the element is saved with `RefKey="Foo"`, and loading it throws KeyNotFoundException | a saved reference loads back with the same chosen definition; keys are already compared lower-cased when resolving | not executed | ReferenceDefinitions.RefKeyCaseMismatch | ReferenceDefinitions.SaveLoadKeepsChoice |
| StructuredXmlEditor/Definition/GraphCollectionDefinition.cs:61-75 | the break test `Children.Count == MaxCount` counts comment children, and an equality test can be stepped over | MaxCount 1 with a comment, then elements `a` and `b`: after `a` the count is 2, so the test never fires and both elements load | at most MaxCount non-comment children are loaded when MaxCount is positive; a MaxCount below one, which the equality test never meets, still sets no limit | not executed | GraphCollections.CommentSkipsMaxCount | GraphCollections.LoadedChildrenBound |
