# InlineTemporaries, modelled in Dafny

ILSpy's C# back end runs a pass named InlineTemporaries over each decompiled method. It
removes the extra temporary variables a compiler leaves behind. A local that is first
assigned a bare copy of another variable, and is never assigned again, is eliminated. Every
reference to it is renamed to the copied variable, and the copying assignment leaves the
tree. The copied variable must never be reassigned either.

The pass has two phases, and the model keeps both:

- **The observer.** One depth-first walk over the syntax tree builds the `variables`
  dictionary. Each variable gets one record holding its first assignment, whether it is
  ever reassigned, and every identifier that names it.
  - A declaration statement's initializer starts a record, with its initializer as the
    first assignment.
  - A foreach variable or a catch variable starts a record holding the Expression.Null
    sentinel.
  - A parameter starts a record holding the sentinel the first time it is seen. A `ref` or
    `out` parameter counts as reassigned from the start.
  - A plain assignment sets an unset first assignment, or else marks the record reassigned.
  - A `ref`/`out` argument marks the record reassigned.
  - Every annotated identifier is appended to its record's usages.
- **The inliner.** `Run` takes the records in the order they were created.
  - A record is eliminated when it passes four tests. It is never reassigned. Its type is
    not a non-primitive value type. Its first assignment is a bare identifier. The record
    that identifier resolves to, through `inlinedVariables`, is never reassigned.
  - Each usage of an eliminated record is renamed to the copied variable.
  - The copying assignment is then removed. When it sits directly in an expression
    statement or a declaration statement, that statement is removed. Otherwise the
    assignment is replaced by the copied identifier.

The files:

- **`ast.dfy`** (module `Ast`): the syntax tree as an arena of nodes linked by index.
  - A child's index is always larger than its parent's.
  - It holds the depth-first pre-order, and the three tree edits the pass uses:
    AstNode.Remove, AstNode.ReplaceWith and the pass's own ReplaceVariable.
  - It proves that each edit keeps the tree well formed, keeps every node's kind, and only
    shrinks subtrees.
- **`observer.dfy`** (module `Observer`): the visitor overrides as functions over the
  table of records, folded over the pre-order (`ObserveAll`), with lemmas about what the
  finished table holds.
- **`inliner.dfy`** (module `Inliner`): one iteration of `Run`'s loop (`InlineStep`), the
  loop as a fold (`InlineAll`), the whole pass (`Transform`), and the properties of its
  result.
- **`transform.dfy`** (module `Transform`): the pass as the object it is.
  - Class `InlineTemporaries` has the `variables` field.
  - Its visiting methods update that field in place.
  - `Run` walks the tree and then rewrites an `array<Node>` in place.
  - `Run`'s loop only reads the dictionary, so it is written as module-level methods,
    `InlineRecords` and `InlineRecord` for one iteration, that take the dictionary as a
    value.
  - Each method is proved to leave exactly the state, or the fault, that the functions of
    `Observer` and `Inliner` describe.

In these cases, where the C# code throws or a debug assertion fails, the model stops with a `Fault` (the null keys listed under "Left out" are not among them):

- `Dictionary.Add` on a variable that already has a record (`DuplicateRecord`);
- `Debug.Assert(ilv.IsParameter)` at line 149 (`NotAParameter`);
- `TryGetValue(null)` on an unannotated copied identifier (`UnannotatedTarget`);
- a copied identifier without a parent (`DetachedAssignment`);
- `ReplaceWith` on a node without a parent (`CannotReplaceRoot`).

A debug assertion is checked only in debug builds. It is modelled as a fault rather than as
a precondition because a precondition would exclude inputs that the code does run on. With
the fault, the model states exactly which trees reach the assertion: those where a
variable is first met at an identifier and is not a parameter.

## Model

All source paths are relative to the repository root; the one core file is
`ICSharpCode.Decompiler/Ast/Transforms/InlineTemporaries.cs`.

| member | source | states |
|---|---|---|
| Ast.ReplaceVariable | ICSharpCode.Decompiler/Ast/Transforms/InlineTemporaries.cs:77-82 | the identifier takes the target's name and the target as its only annotation; every other node is unchanged and no parent or child link changes |
| Ast.PreOrder | ICSharpCode.Decompiler/Ast/Transforms/InlineTemporaries.cs:39 | the depth-first order the visitor walks from a node starts at that node and visits only nodes of its subtree, which come after it in the arena |
| Ast.Without | ICSharpCode.Decompiler/Ast/Transforms/InlineTemporaries.cs:71 | the parent's children after a removal are exactly its other children, with the same multiplicities; a node that is not a child leaves them unchanged |
| Ast.WithoutAppend | ICSharpCode.Decompiler/Ast/Transforms/InlineTemporaries.cs:71 | removing a child from a concatenation removes it from each part, so the remaining children keep their order |
| Ast.WithoutOnce | ICSharpCode.Decompiler/Ast/Transforms/InlineTemporaries.cs:71 | removing a child that occurs once leaves the children before it followed by the children after it |
| Ast.Substitute | ICSharpCode.Decompiler/Ast/Transforms/InlineTemporaries.cs:73 | the child at each position is unchanged, except that the replaced node's position now holds the replacement |
| Ast.LostOnlyBelow | ICSharpCode.Decompiler/Ast/Transforms/InlineTemporaries.cs:69-73 | an edit that keeps every link outside one subtree loses, from what any node reaches, only nodes of that subtree |
| Ast.Remove | ICSharpCode.Decompiler/Ast/Transforms/InlineTemporaries.cs:71 | the removed statement leaves its parent's children, which otherwise keep their order; it keeps its own subtree and only loses its parent; every other node is unchanged, so every link outside the removed subtree is kept; the tree stays well formed, keeps every kind, and no subtree grows |
| Ast.ReplaceWith | ICSharpCode.Decompiler/Ast/Transforms/InlineTemporaries.cs:73 | succeeds exactly when the replaced node has a parent; the child takes the replaced node's position among that parent's children, the replaced node loses the child and its parent, every other node is unchanged and every link outside the replaced subtree is kept; the tree stays well formed and no subtree grows |
| Ast.LinksEqualKeepTree | ICSharpCode.Decompiler/Ast/Transforms/InlineTemporaries.cs:63 | renaming identifiers, which changes no link, keeps the tree well formed and grows no subtree |
| Ast.StatementsShrink | ICSharpCode.Decompiler/Ast/Transforms/InlineTemporaries.cs:65-73 | when subtrees only shrink and kinds are kept, the statements reachable afterwards are a subset of those reachable before, and no more numerous |
| Observer.Add | ICSharpCode.Decompiler/Ast/Transforms/InlineTemporaries.cs:88 | Dictionary.Add succeeds exactly when the variable has no record yet, and adds a fresh, unreassigned record with no usages |
| Observer.TryGetVariable | ICSharpCode.Decompiler/Ast/Transforms/InlineTemporaries.cs:138-161 | an existing record is returned unchanged; a first-seen parameter gets a record holding the sentinel, reassigned exactly when it is by reference; a first-seen non-parameter fails the debug assertion |
| Observer.VisitVariableInitializer | ICSharpCode.Decompiler/Ast/Transforms/InlineTemporaries.cs:83-90 | only an initializer directly under a declaration statement adds a record, with its initializer as first assignment; a second declaration of one variable faults |
| Observer.VisitBinding | ICSharpCode.Decompiler/Ast/Transforms/InlineTemporaries.cs:91-107 | a foreach variable, or a catch variable if there is one, gets a new record holding the sentinel; `catch (Exception)` without a variable changes nothing |
| Observer.VisitAssignmentExpression | ICSharpCode.Decompiler/Ast/Transforms/InlineTemporaries.cs:108-120 | an assignment to an annotated identifier sets an unset first assignment to the right side and otherwise marks the record reassigned; no other record and no usages change |
| Observer.VisitDirectionExpression | ICSharpCode.Decompiler/Ast/Transforms/InlineTemporaries.cs:122-128 | a variable passed by `ref` or `out` is marked reassigned and keeps its first assignment and usages; no other record changes |
| Observer.VisitIdentifierExpression | ICSharpCode.Decompiler/Ast/Transforms/InlineTemporaries.cs:130-136 | an annotated identifier is appended to its record's usages; its first assignment and its reassigned flag stay as they were, or, for a parameter seen first here, are the sentinel and a flag set exactly for a by-reference type; no other record changes |
| Observer.Visit | ICSharpCode.Decompiler/Ast/Transforms/InlineTemporaries.cs:83-136 | the visitor at one node keeps the dictionary valid and only adds records or extends them; it faults only with a duplicate record or a non-parameter first seen at an identifier; statements, declarations and other nodes leave it unchanged |
| Observer.VisitAppendsUsage | ICSharpCode.Decompiler/Ast/Transforms/InlineTemporaries.cs:130-136 | at any node, the visitor appends the node to the usages of the variable it names, and to no other usages |
| Observer.VisitSetsFirstFromChild | ICSharpCode.Decompiler/Ast/Transforms/InlineTemporaries.cs:88-116 | a first assignment set at a node is one of that node's children, and the node is the initializer declaring that variable or an assignment to it |
| Observer.ObservedUsages | ICSharpCode.Decompiler/Ast/Transforms/InlineTemporaries.cs:130-136 | after a walk, each record's usages are its earlier usages followed by the walked identifiers naming it, in walk order, and every named variable has a record |
| Observer.UsagesInVisitOrder | ICSharpCode.Decompiler/Ast/Transforms/InlineTemporaries.cs:130-136 | after the whole walk, each record's usages are exactly the identifiers of the tree naming its variable, in depth-first order |
| Observer.IdentsOfMembers | ICSharpCode.Decompiler/Ast/Transforms/InlineTemporaries.cs:34 | a node is among the identifiers collected for a variable exactly when it is a walked node that names that variable |
| Observer.ObservedFirstsWithin | ICSharpCode.Decompiler/Ast/Transforms/InlineTemporaries.cs:83-120 | a walk over a set of nodes closed under children only records first assignments inside that set, each the child of the initializer or assignment that set it |
| Observer.PassedByReferenceIsReassigned | ICSharpCode.Decompiler/Ast/Transforms/InlineTemporaries.cs:122-127 | a variable passed by `ref` or `out` anywhere in the walk is reassigned at its end |
| Observer.AssignedAgainIsReassigned | ICSharpCode.Decompiler/Ast/Transforms/InlineTemporaries.cs:115-118 | once a record's first assignment is set, any later assignment to the variable leaves it reassigned |
| Observer.AssignedTwiceIsReassigned | ICSharpCode.Decompiler/Ast/Transforms/InlineTemporaries.cs:110-118 | two assignments to one variable in the walk leave it reassigned |
| Observer.VisitMarks | ICSharpCode.Decompiler/Ast/Transforms/InlineTemporaries.cs:108-158 | one visit marks a record reassigned only if it already was, it first sees a by-reference parameter, it passes the variable by `ref` or `out`, or it assigns a variable that already holds a value or is a parameter |
| Observer.VisitGivesValue | ICSharpCode.Decompiler/Ast/Transforms/InlineTemporaries.cs:83-158 | one visit gives a record a first assignment only if it had one, the variable is a parameter, or the node binds, declares with an initializer, or assigns that variable |
| Observer.ReassignedOnlyIf | ICSharpCode.Decompiler/Ast/Transforms/InlineTemporaries.cs:108-158 | the converse of the three lemmas above: a record reassigned after a walk was reassigned at its start, is a by-reference parameter, is passed by `ref` or `out` in the walk, or is assigned in the walk when it may already hold a value |
| Observer.NotReassigned | ICSharpCode.Decompiler/Ast/Transforms/InlineTemporaries.cs:13-15 | a variable that is not a by-reference parameter, is never passed by `ref` or `out`, and is never assigned once it holds a value is not reassigned after the whole walk |
| Observer.DeclaredFirst | ICSharpCode.Decompiler/Ast/Transforms/InlineTemporaries.cs:83-90 | a variable declared with an initializer keeps that initializer as its first assignment to the end of the walk |
| Observer.ObserveAll | ICSharpCode.Decompiler/Ast/Transforms/InlineTemporaries.cs:39 | the walk over a sequence of nodes keeps the dictionary valid, only adds records or extends them, and faults only with a duplicate record or a non-parameter first seen at an identifier |
| Observer.Observe | ICSharpCode.Decompiler/Ast/Transforms/InlineTemporaries.cs:39 | the walk over the whole tree from an empty dictionary yields a valid dictionary, each variable recorded once, or one of those two faults |
| Observer.UndeclaredKeepsSentinel | ICSharpCode.Decompiler/Ast/Transforms/InlineTemporaries.cs:91-158 | a variable recorded without being declared in the walk holds the sentinel; if no foreach or catch binds it, it is a parameter, and a by-reference one is reassigned |
| Inliner.ReplaceAll | ICSharpCode.Decompiler/Ast/Transforms/InlineTemporaries.cs:63 | exactly the listed usages now name the target; no link changes, every kind is kept, and a well-formed tree stays well formed with no subtree grown |
| Inliner.Cut | ICSharpCode.Decompiler/Ast/Transforms/InlineTemporaries.cs:69-73 | the node whose subtree leaves the tree is the assignment above the copied identifier, or the expression or declaration statement directly above that assignment |
| Inliner.DetachLosesOnlyCut | ICSharpCode.Decompiler/Ast/Transforms/InlineTemporaries.cs:69-73 | every node reachable from the root before the removal and not after lies in the cut subtree |
| Inliner.CopyTestStable | ICSharpCode.Decompiler/Ast/Transforms/InlineTemporaries.cs:50-52 | the three tests of lines 50-52 give the same answer on the edited tree as on the observed one |
| Inliner.ResolvedRecord | ICSharpCode.Decompiler/Ast/Transforms/InlineTemporaries.cs:56-59 | resolving a recorded variable through inlinedVariables lands on a recorded variable; an eliminated variable resolves to a record that is not reassigned, and resolution only moves to such records |
| Inliner.EliminatesExactlyQualified | ICSharpCode.Decompiler/Ast/Transforms/InlineTemporaries.cs:50-60 | under the loop invariant, the four tests pass on the current tree exactly for a copy of a recorded variable that is never reassigned |
| Inliner.Detach | ICSharpCode.Decompiler/Ast/Transforms/InlineTemporaries.cs:65-73 | succeeds exactly when the copied identifier has a parent that has a parent, with the matching fault otherwise; removes the enclosing expression or declaration statement, or else puts the copied identifier in the assignment's place, giving each touched node exactly; every link outside the cut subtree (`Cut`) is kept and only the cut node and the identifier change parent |
| Inliner.InlineStep | ICSharpCode.Decompiler/Ast/Transforms/InlineTemporaries.cs:50-73 | a record failing a test changes nothing; an eliminated one is mapped to its resolved record, and the new tree is exactly the one renaming its usages to the copied variable and then detaching the copying assignment leaves, with that edit's fault if it faults; only a copy can fault, and an unannotated copy faults with `UnannotatedTarget` |
| Inliner.InlineStepKeepsInv | ICSharpCode.Decompiler/Ast/Transforms/InlineTemporaries.cs:50-73 | under the loop invariant an iteration can run (the tree is well formed, the lookups succeed, every usage is an identifier), and a successful one keeps the invariant and only shrinks subtrees |
| Inliner.StepLookups | ICSharpCode.Decompiler/Ast/Transforms/InlineTemporaries.cs:54-63 | under the loop invariant the lookups of a copy's record cannot fail and every usage it renames is an identifier |
| Inliner.EliminationStep | ICSharpCode.Decompiler/Ast/Transforms/InlineTemporaries.cs:61-73 | a successful elimination keeps the loop invariant and only shrinks subtrees |
| Inliner.StepEdits | ICSharpCode.Decompiler/Ast/Transforms/InlineTemporaries.cs:63-73 | the renaming changes no link and keeps kinds; the removal or replacement after it leaves a well-formed tree with the same kinds and no larger subtree |
| Inliner.CopiedVariableRecorded | ICSharpCode.Decompiler/Ast/Transforms/InlineTemporaries.cs:56-58 | the lookup `variables[targetVariable]` cannot fail: the copied variable and the record it resolves to both exist |
| Inliner.UsagesAreIdentifiers | ICSharpCode.Decompiler/Ast/Transforms/InlineTemporaries.cs:63 | every usage is still an identifier in the tree being rewritten |
| Inliner.EliminationKeepsInv | ICSharpCode.Decompiler/Ast/Transforms/InlineTemporaries.cs:61-73 | an elimination keeps the loop invariant and only shrinks subtrees |
| Inliner.RenamingTracksNames | ICSharpCode.Decompiler/Ast/Transforms/InlineTemporaries.cs:63 | after renaming a record's usages, every original identifier names its variable or the variable that variable was renamed to |
| Inliner.EliminationRecordsCopy | ICSharpCode.Decompiler/Ast/Transforms/InlineTemporaries.cs:50-61 | each eliminated variable passed the tests at lines 50-52 and resolved to an unreassigned record |
| Inliner.EliminationTracksCopy | ICSharpCode.Decompiler/Ast/Transforms/InlineTemporaries.cs:54-61 | each eliminated variable copied a variable of the observed tree, and resolved to it unless that variable was renamed itself |
| Inliner.InlineAll | ICSharpCode.Decompiler/Ast/Transforms/InlineTemporaries.cs:49-74 | the loop keeps its invariant, only shrinks subtrees, and never forgets an elimination |
| Inliner.InlineAllStep | ICSharpCode.Decompiler/Ast/Transforms/InlineTemporaries.cs:49-74 | the loop from its `i`th record on is that iteration followed by the loop from the next record, and the invariant carries over |
| Inliner.ObservedInv | ICSharpCode.Decompiler/Ast/Transforms/InlineTemporaries.cs:39-48 | the observed table and the untouched tree satisfy the loop invariant |
| Inliner.ObservedRecorded | ICSharpCode.Decompiler/Ast/Transforms/InlineTemporaries.cs:83-161 | the observed table records first assignments inside the tree, and each record's usages are exactly the identifiers naming its variable |
| Inliner.Transform | ICSharpCode.Decompiler/Ast/Transforms/InlineTemporaries.cs:37-75 | a fault of the walk stops the pass; a successful pass keeps the invariant and only shrinks subtrees |
| Inliner.RunRenamesOnlyEliminated | ICSharpCode.Decompiler/Ast/Transforms/InlineTemporaries.cs:61-82 | after the pass, an identifier still names its variable unless that variable was eliminated, and then names the variable it was renamed to |
| Inliner.EliminatedWereCopies | ICSharpCode.Decompiler/Ast/Transforms/InlineTemporaries.cs:50-60 | a recorded variable is eliminated exactly when it is unreassigned, not a non-primitive value type, first assigned a bare identifier, and the variable that identifier names is recorded and never reassigned; every eliminated variable resolved to an unreassigned record |
| Inliner.DeclaredCopyInlined | ICSharpCode.Decompiler/Ast/Transforms/InlineTemporaries.cs:13-15 | `var b = a;` with neither `b` nor `a` ever reassigned (no `ref`/`out`, not a by-reference parameter, no assignment once it holds a value) and `b` not of a non-primitive value type: `b` is eliminated, resolves to `a` unless `a` was eliminated itself, and every identifier that named `b` names its rename target |
| Inliner.QualifiedStep | ICSharpCode.Decompiler/Ast/Transforms/InlineTemporaries.cs:50-61 | under the loop invariant, a record qualifying on the observed tree passes all four tests, whatever was eliminated before it |
| Inliner.UnannotatedCopyFaults | ICSharpCode.Decompiler/Ast/Transforms/InlineTemporaries.cs:54-57 | a copy whose identifier names no variable makes the iteration fault |
| Inliner.QualifiedIteration | ICSharpCode.Decompiler/Ast/Transforms/InlineTemporaries.cs:50-73 | an iteration that does not fault eliminates a qualifying record, finds a copy's identifier annotated, and leaves the state unchanged when it does not eliminate |
| Inliner.QualifiedInlined | ICSharpCode.Decompiler/Ast/Transforms/InlineTemporaries.cs:48-74 | every qualifying record the loop reaches is eliminated by the end of the loop |
| Inliner.CopiesAnnotated | ICSharpCode.Decompiler/Ast/Transforms/InlineTemporaries.cs:48-74 | after a loop that does not fault, every copy the loop reached had an annotated identifier |
| Inliner.UnchangedUnlessInlined | ICSharpCode.Decompiler/Ast/Transforms/InlineTemporaries.cs:48-74 | a loop that eliminates none of its records returns the tree unchanged |
| Inliner.NothingInlinedNothingChanged | ICSharpCode.Decompiler/Ast/Transforms/InlineTemporaries.cs:37-75 | a pass that eliminates nothing leaves the tree exactly as it was |
| Inliner.ObservedSetByParents | ICSharpCode.Decompiler/Ast/Transforms/InlineTemporaries.cs:83-120 | in the observed tree, each first assignment's parent is the initializer declaring its variable or an assignment to it |
| Inliner.CutAsObserved | ICSharpCode.Decompiler/Ast/Transforms/InlineTemporaries.cs:65-73 | while the copying assignment sits where the walk saw it, the removal cuts the subtree it would have cut in the observed tree |
| Inliner.OtherCopyPlaced | ICSharpCode.Decompiler/Ast/Transforms/InlineTemporaries.cs:65-73 | eliminating one copy moves no parent link of another copy's identifier or copying assignment |
| Inliner.OthersPlaced | ICSharpCode.Decompiler/Ast/Transforms/InlineTemporaries.cs:65-73 | after an elimination, every copy still pending keeps its copying assignment where the walk saw it |
| Inliner.LostThroughCut | ICSharpCode.Decompiler/Ast/Transforms/InlineTemporaries.cs:65-73 | after an elimination, every node of the observed tree no longer reachable lies in the subtree cut for an eliminated variable |
| Inliner.CutElimination | ICSharpCode.Decompiler/Ast/Transforms/InlineTemporaries.cs:61-73 | one elimination keeps the pending copies in place and loses only nodes of its own cut subtree |
| Inliner.CutIteration | ICSharpCode.Decompiler/Ast/Transforms/InlineTemporaries.cs:48-74 | one iteration of the loop keeps every lost node accounted for by a cut of an eliminated variable |
| Inliner.CutsAll | ICSharpCode.Decompiler/Ast/Transforms/InlineTemporaries.cs:48-74 | the loop from any record on keeps every lost node accounted for by a cut of an eliminated variable |
| Inliner.RunRemovesOnlyCopies | ICSharpCode.Decompiler/Ast/Transforms/InlineTemporaries.cs:37-75 | every node reachable before the pass and not after lay in the statement or assignment cut for an eliminated variable's copying assignment |
| Inliner.ReassignedKeepsIdentifiers | ICSharpCode.Decompiler/Ast/Transforms/InlineTemporaries.cs:50 | every identifier naming a reassigned variable still names it after the pass |
| Inliner.RunNeverAddsStatements | ICSharpCode.Decompiler/Ast/Transforms/InlineTemporaries.cs:65-73 | the statements of the tree after the pass are a subset of those before |
| Inliner.CopiedThroughRenaming | ICSharpCode.Decompiler/Ast/Transforms/InlineTemporaries.cs:54-63 | the copied identifier names what it named when observed, renamed by the eliminations so far |
| Inliner.CollapsedStep | ICSharpCode.Decompiler/Ast/Transforms/InlineTemporaries.cs:54-63 | when copied variables come first, one iteration keeps every elimination collapsed onto a variable that is not eliminated |
| Inliner.CollapsedElimination | ICSharpCode.Decompiler/Ast/Transforms/InlineTemporaries.cs:56-63 | eliminating a record whose copied variable came earlier keeps eliminations collapsed |
| Inliner.CollapsedAll | ICSharpCode.Decompiler/Ast/Transforms/InlineTemporaries.cs:49-74 | the whole loop keeps eliminations collapsed when copied variables come first |
| Inliner.ChainsStep | ICSharpCode.Decompiler/Ast/Transforms/InlineTemporaries.cs:54-63 | when copied variables come first, one iteration keeps every eliminated variable renamed to what the variable it copied is renamed to now |
| Inliner.ChainsElimination | ICSharpCode.Decompiler/Ast/Transforms/InlineTemporaries.cs:54-63 | eliminating a record whose copied variable came earlier leaves every earlier chain ending where it did |
| Inliner.ChainsAll | ICSharpCode.Decompiler/Ast/Transforms/InlineTemporaries.cs:49-74 | the whole loop keeps every eliminated variable renamed to the end of its chain when copied variables come first |
| Inliner.ChainsCollapse | ICSharpCode.Decompiler/Ast/Transforms/InlineTemporaries.cs:41-63 | when every copied variable is recorded before its copies, each eliminated variable is mapped, in inlinedVariables and in its renamed identifiers alike, to the variable it copied if that one was kept and otherwise to what that one was mapped to, which is never eliminated; no identifier names an eliminated variable after the pass |
| Inliner.ChainOfThree | ICSharpCode.Decompiler/Ast/Transforms/InlineTemporaries.cs:41-47 | for the chain `b = a; c = b;` with `b` and `c` eliminated and `a` kept, both map to `a` and every identifier that named `b` or `c` names `a` |
| Inliner.CollapsedNames | ICSharpCode.Decompiler/Ast/Transforms/InlineTemporaries.cs:41-63 | when eliminations are collapsed, no identifier of the tree names an eliminated variable |
| Inliner.CopiesOfReassignedKept | ICSharpCode.Decompiler/Ast/Transforms/InlineTemporaries.cs:56-60 | a variable first assigned a copy of a reassigned variable is never eliminated, whatever the order of the records |
| Inliner.ByReferenceCopiesKept | ICSharpCode.Decompiler/Ast/Transforms/InlineTemporaries.cs:122-127 | neither a variable passed by `ref` or `out` nor a copy of it is eliminated, and their identifiers keep their names |
| Inliner.UndeclaredKept | ICSharpCode.Decompiler/Ast/Transforms/InlineTemporaries.cs:52 | a parameter, foreach or catch variable is never eliminated, and its identifiers keep their name |
| Transform.ReplaceVariableIn | ICSharpCode.Decompiler/Ast/Transforms/InlineTemporaries.cs:77-82 | the in-place rename leaves the tree `Ast.ReplaceVariable` describes |
| Transform.RemoveIn | ICSharpCode.Decompiler/Ast/Transforms/InlineTemporaries.cs:71 | the in-place removal leaves the tree `Ast.Remove` describes |
| Transform.ReplaceWithIn | ICSharpCode.Decompiler/Ast/Transforms/InlineTemporaries.cs:73 | the in-place replacement leaves the tree, or the fault, `Ast.ReplaceWith` describes |
| Transform.DetachIn | ICSharpCode.Decompiler/Ast/Transforms/InlineTemporaries.cs:69-73 | the in-place removal of the copying assignment leaves the tree, or the fault, `Inliner.Detach` describes |
| Transform.Eliminate | ICSharpCode.Decompiler/Ast/Transforms/InlineTemporaries.cs:63-73 | the loop renaming each usage, followed by the removal, leaves what `Inliner.ReplaceAll` followed by `Inliner.Detach` describes |
| Transform.InlineTemporaries.constructor | ICSharpCode.Decompiler/Ast/Transforms/InlineTemporaries.cs:24 | a new pass object has an empty dictionary |
| Transform.InlineTemporaries.Add | ICSharpCode.Decompiler/Ast/Transforms/InlineTemporaries.cs:88 | updates the dictionary in place as `Observer.Add` describes |
| Transform.InlineTemporaries.TryGetVariable | ICSharpCode.Decompiler/Ast/Transforms/InlineTemporaries.cs:138-161 | updates the dictionary in place as `Observer.TryGetVariable` describes |
| Transform.InlineTemporaries.VisitVariableInitializer | ICSharpCode.Decompiler/Ast/Transforms/InlineTemporaries.cs:83-90 | updates the dictionary in place as `Observer.VisitVariableInitializer` describes |
| Transform.InlineTemporaries.VisitBinding | ICSharpCode.Decompiler/Ast/Transforms/InlineTemporaries.cs:91-107 | updates the dictionary in place as `Observer.VisitBinding` describes |
| Transform.InlineTemporaries.VisitAssignmentExpression | ICSharpCode.Decompiler/Ast/Transforms/InlineTemporaries.cs:108-120 | updates the dictionary in place as `Observer.VisitAssignmentExpression` describes |
| Transform.InlineTemporaries.VisitDirectionExpression | ICSharpCode.Decompiler/Ast/Transforms/InlineTemporaries.cs:122-128 | updates the dictionary in place as `Observer.VisitDirectionExpression` describes |
| Transform.InlineTemporaries.VisitIdentifierExpression | ICSharpCode.Decompiler/Ast/Transforms/InlineTemporaries.cs:130-136 | updates the dictionary in place as `Observer.VisitIdentifierExpression` describes |
| Transform.InlineTemporaries.Visit | ICSharpCode.Decompiler/Ast/Transforms/InlineTemporaries.cs:83-136 | dispatches to the override for the node's kind and updates the dictionary as `Observer.Visit` describes |
| Transform.InlineTemporaries.AcceptVisitor | ICSharpCode.Decompiler/Ast/Transforms/InlineTemporaries.cs:39 | the loop over the depth-first order fills the dictionary as `Observer.Observe` describes, or stops with its fault |
| Transform.InlineRecord | ICSharpCode.Decompiler/Ast/Transforms/InlineTemporaries.cs:50-73 | one iteration in place leaves the tree and inlinedVariables that `Inliner.InlineStep` describes, or its fault |
| Transform.LoopStep | ICSharpCode.Decompiler/Ast/Transforms/InlineTemporaries.cs:48-74 | one iteration in place, with its outcome, is the first step of the loop as `Inliner.InlineAll` describes it |
| Transform.InlineRecords | ICSharpCode.Decompiler/Ast/Transforms/InlineTemporaries.cs:48-74 | the loop over the records in place ends with the tree `Inliner.InlineAll` describes, or stops with its fault |
| Transform.InlineTemporaries.Run | ICSharpCode.Decompiler/Ast/Transforms/InlineTemporaries.cs:37-75 | succeeds exactly when `Inliner.Transform` does, leaving its tree and the observed dictionary; otherwise stops with the same fault |

## Chains of copies

The comment at lines 41-47 says that `inlinedVariables` makes a chain `b = a; c = b;` collapse
onto `a` even when the records are handled out of order. The model follows the code and
proves the claim for records in chain order, `Inliner.ChainsCollapse`. When every copied
variable that may itself be a copy was recorded before its copies, each eliminated variable
is mapped to the end of its chain: the variable it copied if that one was kept, and
otherwise what that one was mapped to. Its identifiers are renamed to that same variable,
which is never eliminated. `Inliner.ChainOfThree` states this for `b = a; c = b;`: every
identifier that named `b` or `c` names `a`.

Out of order, the code does not collapse the chain. Line 63 renames the usages to
`targetVariable`, the copied identifier's own variable. It does not rename them to the
variable of the resolved record, `targetInfo.Variable`.

Take records created in the order `c`, `b`, `a`, from declarations without initializers
followed by `b = a; c = b;`:

1. `c` is eliminated first, so its usages are renamed to `b`.
2. `b` is eliminated next. Only `b`'s own usages, collected during the walk, are renamed to
   `a`.
3. `c`'s former usages still name the eliminated `b`.

This needs declarations that have no initializer to leave the first assignment unset (see
"Left out"). The case is not claimed as a defect because whether it can arise depends on the
syntax-tree library.

## Left out

- The syntax-tree library (NRefactory) and the metadata library (Mono.Cecil) are not part of this model.
  - The tree is an arena of the node kinds the pass distinguishes.
  - Every other node is `Other`.
  - A variable's type is reduced to `TypeKind`: primitive, non-primitive value type, reference type, or by-reference type.
  - The AST edits Remove and ReplaceWith are modelled from their documented behaviour.
- The base visitor's descent is modelled as a walk over the depth-first pre-order. Every override acts on its node before descending, so the two orders agree.
- A declaration without an initializer is taken to leave the first assignment unset, as C# null. NRefactory's own null-object convention, which would return Expression.Null there, is not modelled.
- The foreach variable is always annotated. An unannotated foreach, where line 96 adds a null key, is not modelled.
- A variable initializer is always annotated with the variable it declares. An unannotated initializer under a declaration statement, where line 88 adds a null key and Dictionary.Add throws, is not modelled; the model has no fault for it.
- Records are values that the table maps by variable, not shared objects. The loop in `Run` only reads them, so no aliasing is lost.
- A fault stops the whole pass. The model does not describe a tree left partly edited by an exception as anything but "the pass faulted".
- Lambdas and closures are out of scope. The pass must run before the lambda transforms, as lines 17-20 say.
- Running the pass to a fixed point is not part of this model.
- The other decompiler passes and ControlFlow.cs are not part of this model. The by-reference case that ControlFlow.cs exercises is stated in general by `Inliner.ByReferenceCopiesKept`.
- Transform.InlineTemporaries.Run: requires the dictionary to be empty when `Run` starts, that is, one pass object per run over one syntax tree. The dictionary is a field initialised once per object (line 24), and nothing in the class clears it between runs.
- Inliner.ChainsCollapse: is proved only under the hypothesis that copied variables are recorded before their copies. Out of order, the chain need not collapse, as "Chains of copies" shows.
