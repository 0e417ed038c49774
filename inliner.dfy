/**
 * The rewriting half of InlineTemporaries.Run. The records are taken in the order they
 * were created. A record that holds a copy of another variable is eliminated: each of its
 * identifiers is renamed to the copied variable, and the assignment that made the copy
 * leaves the tree.
 *
 * `orig` is the tree as it was observed and `t` the table the observer built from it.
 * Both stay fixed while the state's tree is rewritten.
 */
module Inliner {
  import opened Ast
  import opened Observer

  /**
   * The loop's state. `nodes` is the tree being rewritten. `inlined` is inlinedVariables:
   * each eliminated variable mapped to the variable whose record it resolved to. The
   * records do not change during the loop, so a record is named by its variable.
   * `renamedTo` is what line 63 wrote: the variable whose name the eliminated variable's
   * identifiers were given.
   */
  datatype InlineState = InlineState(nodes: seq<Node>, inlined: map<Variable, Variable>, renamedTo: map<Variable, Variable>)

  function Start(nodes: seq<Node>): InlineState {
    InlineState(nodes, map[], map[])
  }

  /** The table was built from `orig`: see `Recorded`. */
  ghost predicate Observed(orig: seq<Node>, t: Table) {
    Valid(t) && WellFormed(orig) && Root < |orig| && Recorded(orig, t)
  }

  /** What the table records about the tree it was built from: first assignments are
      nodes of the tree, each usage is an identifier naming its record's variable, and
      every identifier naming a variable is among that variable's usages. */
  ghost predicate Recorded(orig: seq<Node>, t: Table)
    requires Ordered(orig) && Root < |orig|
  {
    && (forall w :: w in t.variables && t.variables[w].firstAssignment.Expr? ==>
          t.variables[w].firstAssignment.node in PreOrder(orig, Root))
    && (forall w, u :: w in t.variables && u in t.variables[w].usages ==>
          u in PreOrder(orig, Root) && Annotation(orig[u]) == Some(w))
    && (forall m :: m in PreOrder(orig, Root) && Annotation(orig[m]).Some? ==>
          Annotation(orig[m]).value in t.variables && m in t.variables[Annotation(orig[m]).value].usages)
  }

  /** The variable an identifier that named `a` in the observed tree names now. */
  function Renamed(st: InlineState, a: Option<Variable>): Option<Variable> {
    match a
    case None => None
    case Some(w) => Some(if w in st.renamedTo then st.renamedTo[w] else w)
  }

  /** The first three tests of the loop (lines 50-52): the record is never reassigned,
      its variable is not of a non-primitive value type, and it was first assigned a
      bare identifier. */
  predicate IsCopy(info: VariableInfo, nodes: seq<Node>) {
    && !info.isReassigned
    && info.variable.typeKind != ValueType
    && info.firstAssignment.Expr? && info.firstAssignment.node < |nodes|
    && nodes[info.firstAssignment.node].kind.IdentifierExpression?
  }

  /** Lines 56-58: the record a copied variable stands for, through inlinedVariables. */
  function Resolve(st: InlineState, target: Variable): Variable {
    if target in st.inlined then st.inlined[target] else target
  }

  /**
   * The loop invariant of Run. The table matches the observed tree. The tree stays well
   * formed, keeps its node kinds and only loses nodes from subtrees. Every identifier of
   * the observed tree names its variable, or the variable that variable was renamed to.
   * Every eliminated variable held a copy of a variable whose record is not reassigned.
   */
  ghost predicate Inv(orig: seq<Node>, t: Table, st: InlineState) {
    && Observed(orig, t)
    && WellFormed(st.nodes) && KindsKept(orig, st.nodes) && Descends(orig, st.nodes)
    && NamesTracked(orig, st)
    && EliminatedCopies(orig, t, st)
    && CopiesTracked(orig, t, st)
  }

  /** Every identifier of the observed tree names its variable, or the variable that
      variable was renamed to. */
  ghost predicate NamesTracked(orig: seq<Node>, st: InlineState)
    requires Ordered(orig) && Root < |orig| && |st.nodes| == |orig|
  {
    forall m :: m in PreOrder(orig, Root) ==> Annotation(st.nodes[m]) == Renamed(st, Annotation(orig[m]))
  }

  /** Every eliminated variable held a copy of a variable whose record is not reassigned,
      and its identifiers were renamed to a variable that is not reassigned either. */
  ghost predicate EliminatedCopies(orig: seq<Node>, t: Table, st: InlineState) {
    && st.inlined.Keys == st.renamedTo.Keys
    && (forall w :: w in st.inlined ==>
          && w in t.variables && IsCopy(t.variables[w], orig)
          && st.inlined[w] in t.variables && !t.variables[st.inlined[w]].isReassigned
          && st.renamedTo[w] in t.variables && !t.variables[st.renamedTo[w]].isReassigned)
  }

  /** Every eliminated variable copied a variable of the observed tree; unless that variable
      was itself eliminated, the eliminated one resolved to it. */
  ghost predicate CopiesTracked(orig: seq<Node>, t: Table, st: InlineState) {
    forall w :: w in st.inlined && w in t.variables ==>
      && CopiedInTree(orig, t.variables[w]).Some?
      && (CopiedInTree(orig, t.variables[w]).value !in st.renamedTo ==>
            st.inlined[w] == CopiedInTree(orig, t.variables[w]).value)
  }

  /** Line 63: ReplaceVariable on each usage in turn. */
  function ReplaceAll(nodes: seq<Node>, us: seq<NodeId>, target: Variable): (r: seq<Node>)
    requires forall i :: 0 <= i < |us| ==> us[i] < |nodes| && nodes[us[i]].kind.IdentifierExpression?
    ensures LinksEqual(nodes, r) && KindsKept(nodes, r)
    ensures forall i :: 0 <= i < |nodes| ==>
      r[i].kind == (if i in us then IdentifierExpression(target.name, Some(target)) else nodes[i].kind)
    ensures WellFormed(nodes) ==> WellFormed(r) && Descends(nodes, r)
    decreases |us|
  {
    if us == [] then
      LinksEqualKeepTree(nodes, nodes);
      nodes
    else
      var r := ReplaceAll(ReplaceVariable(nodes, us[0], target), us[1..], target);
      KindsKeptTransitive(nodes, ReplaceVariable(nodes, us[0], target), r);
      LinksEqualKeepTree(nodes, r);
      r
  }

  /** The statements whose only content the copying assignment is. */
  predicate Encloses(k: Kind) {
    k.ExpressionStatement? || k.VariableDeclarationStatement?
  }

  /** The node whose subtree lines 69-73 take out of the tree when the copied identifier
      is `f`: the statement enclosing the copying assignment, or the assignment itself. */
  function Cut(nodes: seq<Node>, f: NodeId): (x: NodeId)
    requires WellFormed(nodes) && f < |nodes|
    ensures x < |nodes|
    ensures nodes[f].parent.Some? ==>
      var a := nodes[f].parent.value;
      x == a || (nodes[a].parent == Some(x) && Encloses(nodes[x].kind))
  {
    match nodes[f].parent
    case None => f
    case Some(a) =>
      match nodes[a].parent
      case None => a
      case Some(s) => if Encloses(nodes[s].kind) then s else a
  }

  /**
   * Lines 69-73. The parent of the copied identifier is the assignment or initializer that
   * made the copy. When that sits directly in an expression statement or a declaration
   * statement, the statement is removed with everything in it. Otherwise the assignment is
   * replaced by the copied identifier, in the same place among its parent's children. A
   * copied identifier without a parent is a null dereference; an assignment without a parent
   * cannot be replaced. No other node changes, and only links into the subtree at `Cut` are
   * lost.
   */
  function Detach(nodes: seq<Node>, f: NodeId): (r: Result<seq<Node>>)
    requires WellFormed(nodes) && f < |nodes|
    ensures r.Ok? <==> nodes[f].parent.Some? && nodes[nodes[f].parent.value].parent.Some?
    ensures r.Err? ==> r.fault == (if nodes[f].parent.None? then DetachedAssignment(f) else CannotReplaceRoot(nodes[f].parent.value))
    ensures r.Ok? ==> WellFormed(r.value) && KindsEqual(nodes, r.value) && Descends(nodes, r.value)
    ensures r.Ok? ==> KeepsLinksOutside(nodes, r.value, Cut(nodes, f))
    ensures r.Ok? ==> forall i :: 0 <= i < |nodes| && i != Cut(nodes, f) && i != f ==> r.value[i].parent == nodes[i].parent
    ensures r.Ok? ==>
      var a := nodes[f].parent.value;
      var s := nodes[a].parent.value;
      if Encloses(nodes[s].kind) then
        && r.value[s] == nodes[s].(parent := None)
        && (nodes[s].parent.Some? ==>
              var q := nodes[s].parent.value;
              r.value[q] == nodes[q].(children := Without(nodes[q].children, s)))
        && forall i :: 0 <= i < |nodes| && i != s && Some(i) != nodes[s].parent ==> r.value[i] == nodes[i]
      else
        && r.value[a] == nodes[a].(children := Without(nodes[a].children, f), parent := None)
        && r.value[s] == nodes[s].(children := Substitute(nodes[s].children, a, f))
        && r.value[f] == nodes[f].(parent := Some(s))
        && forall i :: 0 <= i < |nodes| && i != a && i != s && i != f ==> r.value[i] == nodes[i]
  {
    match nodes[f].parent
    case None => Err(DetachedAssignment(f))
    case Some(a) =>
      assert a < |nodes| && a in ParentsOf(nodes, f);
      match nodes[a].parent
      case None => ReplaceWith(nodes, a, f)
      case Some(s) =>
        assert s < |nodes| && s in ParentsOf(nodes, a);
        if Encloses(nodes[s].kind) then
          StatementDetached(nodes, f, a, s);
          Ok(Remove(nodes, s))
        else
          AssignmentDetached(nodes, f, a, s);
          ReplaceWith(nodes, a, f)
  }

  /** Line 71: removing the enclosing statement cuts it and re-links no other parent but
      its own. */
  lemma StatementDetached(nodes: seq<Node>, f: NodeId, a: NodeId, s: NodeId)
    requires WellFormed(nodes) && f < |nodes| && nodes[f].parent == Some(a) && a < |nodes|
    requires nodes[a].parent == Some(s) && s < |nodes| && Encloses(nodes[s].kind)
    ensures Cut(nodes, f) == s
    ensures forall i :: 0 <= i < |nodes| && i != s ==> Remove(nodes, s)[i].parent == nodes[i].parent
  {
  }

  /** Line 73: putting the copied identifier in the assignment's place cuts the assignment
      and re-links no other parent but the identifier's. */
  lemma AssignmentDetached(nodes: seq<Node>, f: NodeId, a: NodeId, s: NodeId)
    requires WellFormed(nodes) && f < |nodes| && nodes[f].parent == Some(a) && a < |nodes|
    requires nodes[a].parent == Some(s) && s < |nodes| && !Encloses(nodes[s].kind)
    ensures Cut(nodes, f) == a && ReplaceWith(nodes, a, f).Ok?
    ensures forall i :: 0 <= i < |nodes| && i != a && i != f ==> ReplaceWith(nodes, a, f).value[i].parent == nodes[i].parent
  {
  }

  /** A node reachable from the root that Detach makes unreachable lay in the subtree at
      `Cut`: the removed statement or the replaced assignment. */
  lemma DetachLosesOnlyCut(nodes: seq<Node>, f: NodeId)
    requires WellFormed(nodes) && f < |nodes| && Detach(nodes, f).Ok?
    ensures forall m :: m in PreOrder(nodes, Root) && m !in PreOrder(Detach(nodes, f).value, Root) ==>
      m in PreOrder(nodes, Cut(nodes, f))
  {
    forall m | m in PreOrder(nodes, Root)
      ensures m in PreOrder(Detach(nodes, f).value, Root) || m in PreOrder(nodes, Cut(nodes, f))
    {
      LostOnlyBelow(nodes, Detach(nodes, f).value, Cut(nodes, f), Root, m);
    }
  }

  /** The variable the copied identifier of `info` names now, if it is a copy. */
  function CopiedVariable(info: VariableInfo, nodes: seq<Node>): Option<Variable>
    requires IsCopy(info, nodes)
  {
    Annotation(nodes[info.firstAssignment.node])
  }

  /** All four tests of the loop pass (lines 50-60): the record of `v` is eliminated. */
  predicate Eliminates(t: Table, st: InlineState, v: Variable)
    requires v in t.variables
  {
    && IsCopy(t.variables[v], st.nodes)
    && CopiedVariable(t.variables[v], st.nodes).Some?
    && var target := Resolve(st, CopiedVariable(t.variables[v], st.nodes).value);
       target in t.variables && !t.variables[target].isReassigned
  }

  /** What one iteration needs of the state before it edits the tree: the tree is well
      formed, the lookups of lines 54-58 cannot fail, and every usage renamed at line 63 is
      an identifier. */
  ghost predicate StepReady(t: Table, st: InlineState, v: Variable)
    requires v in t.variables
  {
    && WellFormed(st.nodes)
    && (IsCopy(t.variables[v], st.nodes) ==>
          && (CopiedVariable(t.variables[v], st.nodes).Some? ==>
                && CopiedVariable(t.variables[v], st.nodes).value in t.variables
                && Resolve(st, CopiedVariable(t.variables[v], st.nodes).value) in t.variables)
          && forall i :: 0 <= i < |t.variables[v].usages| ==>
               t.variables[v].usages[i] < |st.nodes| && st.nodes[t.variables[v].usages[i]].kind.IdentifierExpression?)
  }

  /**
   * One iteration of the loop in Run (lines 50-73) for the record of `v`. A record that
   * fails a test leaves everything as it was. An eliminated record's usages are renamed to
   * the copied variable, inlinedVariables maps it to the record the copied variable
   * resolves to, and the copying assignment leaves the tree. Only a copy can fault.
   */
  function InlineStep(t: Table, st: InlineState, v: Variable): (r: Result<InlineState>)
    requires v in t.variables && StepReady(t, st, v)
    ensures r.Err? ==> IsCopy(t.variables[v], st.nodes)
    ensures r.Err? ==> CopiedVariable(t.variables[v], st.nodes).None? || Eliminates(t, st, v)
    ensures r.Ok? && !Eliminates(t, st, v) ==> r.value == st
    ensures IsCopy(t.variables[v], st.nodes) && CopiedVariable(t.variables[v], st.nodes).None? ==>
      r == Err(UnannotatedTarget(t.variables[v].firstAssignment.node))
    ensures Eliminates(t, st, v) ==>
      var target := CopiedVariable(t.variables[v], st.nodes).value;
      var detached := Detach(ReplaceAll(st.nodes, t.variables[v].usages, target), t.variables[v].firstAssignment.node);
      && (r.Ok? <==> detached.Ok?)
      && (r.Err? ==> r.fault == detached.fault)
      && (r.Ok? ==> r.value.nodes == detached.value)
    ensures r.Ok? && Eliminates(t, st, v) ==>
      var target := CopiedVariable(t.variables[v], st.nodes).value;
      && r.value.inlined == st.inlined[v := Resolve(st, target)]
      && r.value.renamedTo == st.renamedTo[v := target]
  {
    var info := t.variables[v];
    if !IsCopy(info, st.nodes) then Ok(st)
    else
      var f := info.firstAssignment.node;
      match Annotation(st.nodes[f])
      case None => Err(UnannotatedTarget(f))
      case Some(target) =>
        if t.variables[Resolve(st, target)].isReassigned then Ok(st)
        else
          var nodes1 := ReplaceAll(st.nodes, info.usages, target);
          LinksEqualKeepTree(st.nodes, nodes1);
          match Detach(nodes1, f)
          case Err(e) => Err(e)
          case Ok(nodes2) => Ok(InlineState(nodes2, st.inlined[v := Resolve(st, target)], st.renamedTo[v := target]))
  }

  /** One iteration keeps the loop invariant, finds the state ready for it, and only removes
      nodes from subtrees. */
  lemma InlineStepKeepsInv(orig: seq<Node>, t: Table, st: InlineState, v: Variable)
    requires Inv(orig, t, st) && v in t.variables
    ensures StepReady(t, st, v)
    ensures InlineStep(t, st, v).Ok? ==>
      && Inv(orig, t, InlineStep(t, st, v).value) && Descends(st.nodes, InlineStep(t, st, v).value.nodes)
      && st.inlined.Keys <= InlineStep(t, st, v).value.inlined.Keys
  {
    DescendsReflexive(st.nodes);
    if IsCopy(t.variables[v], st.nodes) {
      StepLookups(orig, t, st, v);
      if Eliminates(t, st, v) && InlineStep(t, st, v).Ok? {
        EliminationStep(orig, t, st, v);
      }
    }
  }

  lemma EliminationStep(orig: seq<Node>, t: Table, st: InlineState, v: Variable)
    requires Inv(orig, t, st) && v in t.variables && StepReady(t, st, v)
    requires Eliminates(t, st, v) && InlineStep(t, st, v).Ok?
    ensures Inv(orig, t, InlineStep(t, st, v).value) && Descends(st.nodes, InlineStep(t, st, v).value.nodes)
  {
    var target := CopiedVariable(t.variables[v], st.nodes).value;
    var nodes1 := ReplaceAll(st.nodes, t.variables[v].usages, target);
    StepEdits(t, st, v);
    CopiedThroughRenaming(orig, t, st, v);
    EliminationKeepsInv(orig, t, st, v, target, nodes1, InlineStep(t, st, v).value);
  }

  /** `mid` is `before` with the identifiers `us` renamed to `target` and no link changed;
      `after` is `mid` with links changed only where subtrees shrink. */
  ghost predicate StepEdited(before: seq<Node>, mid: seq<Node>, after: seq<Node>, us: seq<NodeId>, target: Variable)
    requires Ordered(before)
  {
    && Ordered(mid) && Descends(before, mid) && KindsKept(before, mid)
    && (forall i :: 0 <= i < |before| ==>
          mid[i].kind == (if i in us then IdentifierExpression(target.name, Some(target)) else before[i].kind))
    && WellFormed(after) && KindsEqual(mid, after) && Descends(mid, after)
  }

  /** The two edits of an elimination: the renaming of line 63, then the removal or
      replacement of lines 69-73. */
  lemma StepEdits(t: Table, st: InlineState, v: Variable)
    requires v in t.variables && StepReady(t, st, v) && Eliminates(t, st, v) && InlineStep(t, st, v).Ok?
    ensures var target := CopiedVariable(t.variables[v], st.nodes).value;
      var nodes1 := ReplaceAll(st.nodes, t.variables[v].usages, target);
      var r := InlineStep(t, st, v).value;
      StepEdited(st.nodes, nodes1, r.nodes, t.variables[v].usages, target)
  {
    var info := t.variables[v];
    var target := CopiedVariable(info, st.nodes).value;
  }

  /** The copied identifier names a variable that has a record, and so does the variable
      it resolves to: the lookup `variables[targetVariable]` of line 58 cannot fail. */
  lemma CopiedVariableRecorded(orig: seq<Node>, t: Table, st: InlineState, v: Variable)
    requires Ordered(orig) && Root < |orig| && Recorded(orig, t) && |st.nodes| == |orig|
    requires NamesTracked(orig, st) && EliminatedCopies(orig, t, st)
    requires v in t.variables && IsCopy(t.variables[v], st.nodes)
    ensures CopiedVariable(t.variables[v], st.nodes).Some? ==>
      var target := CopiedVariable(t.variables[v], st.nodes).value;
      target in t.variables && Resolve(st, target) in t.variables
  {
    var f := t.variables[v].firstAssignment.node;
    assert f in PreOrder(orig, Root);
    assert Annotation(st.nodes[f]) == Renamed(st, Annotation(orig[f]));
  }

  /** What one iteration relies on before it edits the tree: the lookups of lines 54-58 cannot
      fail, and every usage it renames at line 63 is an identifier. */
  lemma StepLookups(orig: seq<Node>, t: Table, st: InlineState, v: Variable)
    requires Inv(orig, t, st) && v in t.variables && IsCopy(t.variables[v], st.nodes)
    ensures CopiedVariable(t.variables[v], st.nodes).Some? ==>
      var target := CopiedVariable(t.variables[v], st.nodes).value;
      target in t.variables && Resolve(st, target) in t.variables
    ensures forall i :: 0 <= i < |t.variables[v].usages| ==>
      t.variables[v].usages[i] < |st.nodes| && st.nodes[t.variables[v].usages[i]].kind.IdentifierExpression?
  {
    CopiedVariableRecorded(orig, t, st, v);
    UsagesAreIdentifiers(orig, t, st, v);
  }

  lemma UsagesAreIdentifiers(orig: seq<Node>, t: Table, st: InlineState, v: Variable)
    requires Ordered(orig) && Root < |orig| && Recorded(orig, t) && |st.nodes| == |orig| && KindsKept(orig, st.nodes)
    requires v in t.variables
    ensures forall i :: 0 <= i < |t.variables[v].usages| ==>
      t.variables[v].usages[i] < |st.nodes| && st.nodes[t.variables[v].usages[i]].kind.IdentifierExpression?
  {
    forall i | 0 <= i < |t.variables[v].usages|
      ensures t.variables[v].usages[i] < |st.nodes| && st.nodes[t.variables[v].usages[i]].kind.IdentifierExpression?
    {
      var u := t.variables[v].usages[i];
      assert u in t.variables[v].usages;
      assert u in PreOrder(orig, Root);
      assert SameKind(orig[u].kind, st.nodes[u].kind);
    }
  }

  /** Eliminating the record of `v` keeps the loop invariant. */
  lemma EliminationKeepsInv(orig: seq<Node>, t: Table, st: InlineState, v: Variable, target: Variable,
                            nodes1: seq<Node>, st': InlineState)
    requires Inv(orig, t, st)
    requires v in t.variables && IsCopy(t.variables[v], st.nodes)
    requires Resolve(st, target) in t.variables && !t.variables[Resolve(st, target)].isReassigned
    requires target in t.variables
    requires Some(target) == Renamed(st, CopiedInTree(orig, t.variables[v]))
    requires StepEdited(st.nodes, nodes1, st'.nodes, t.variables[v].usages, target)
    requires st'.inlined == st.inlined[v := Resolve(st, target)] && st'.renamedTo == st.renamedTo[v := target]
    ensures Inv(orig, t, st') && Descends(st.nodes, st'.nodes)
  {
    ComposeEdits(orig, st.nodes, nodes1, st'.nodes);
    RenamingTracksNames(orig, t, st, v, target, nodes1, st');
    EliminationRecordsCopy(orig, t, st, v, target, st');
    EliminationTracksCopy(orig, t, st, v, target, st');
  }

  lemma EliminationTracksCopy(orig: seq<Node>, t: Table, st: InlineState, v: Variable, target: Variable, st': InlineState)
    requires st.inlined.Keys == st.renamedTo.Keys && CopiesTracked(orig, t, st) && v in t.variables
    requires Some(target) == Renamed(st, CopiedInTree(orig, t.variables[v]))
    requires st'.inlined == st.inlined[v := Resolve(st, target)] && st'.renamedTo == st.renamedTo[v := target]
    ensures CopiesTracked(orig, t, st')
  {
  }

  /** Two edits after the rewrites so far: kinds are still kept and subtrees only shrank. */
  lemma ComposeEdits(orig: seq<Node>, a: seq<Node>, b: seq<Node>, c: seq<Node>)
    requires Ordered(orig) && Ordered(a) && Ordered(b) && Ordered(c)
    requires KindsKept(orig, a) && KindsKept(a, b) && KindsEqual(b, c)
    requires Descends(orig, a) && Descends(a, b) && Descends(b, c)
    ensures KindsKept(orig, c) && Descends(orig, c) && Descends(a, c)
  {
    KindsKeptTransitive(orig, a, b);
    KindsKeptTransitive(orig, b, c);
    DescendsTransitive(orig, a, b);
    DescendsTransitive(orig, b, c);
    DescendsTransitive(a, b, c);
  }

  lemma EliminationRecordsCopy(orig: seq<Node>, t: Table, st: InlineState, v: Variable, target: Variable, st': InlineState)
    requires KindsKept(orig, st.nodes) && EliminatedCopies(orig, t, st)
    requires v in t.variables && IsCopy(t.variables[v], st.nodes)
    requires Resolve(st, target) in t.variables && !t.variables[Resolve(st, target)].isReassigned
    requires target in t.variables
    requires st'.inlined == st.inlined[v := Resolve(st, target)] && st'.renamedTo == st.renamedTo[v := target]
    ensures EliminatedCopies(orig, t, st')
  {
    var f := t.variables[v].firstAssignment.node;
    assert SameKind(orig[f].kind, st.nodes[f].kind);
    if target in st.inlined {
      assert IsCopy(t.variables[target], orig);
    }
  }

  lemma RenamingTracksNames(orig: seq<Node>, t: Table, st: InlineState, v: Variable, target: Variable,
                            nodes1: seq<Node>, st': InlineState)
    requires Ordered(orig) && Root < |orig| && Recorded(orig, t)
    requires |st.nodes| == |orig| && NamesTracked(orig, st) && v in t.variables
    requires |nodes1| == |st.nodes| && KindsEqual(nodes1, st'.nodes)
    requires forall i :: 0 <= i < |st.nodes| ==>
      nodes1[i].kind == (if i in t.variables[v].usages then IdentifierExpression(target.name, Some(target)) else st.nodes[i].kind)
    requires st'.renamedTo == st.renamedTo[v := target]
    ensures NamesTracked(orig, st')
  {
    forall m | m in PreOrder(orig, Root)
      ensures Annotation(st'.nodes[m]) == Renamed(st', Annotation(orig[m]))
    {
      assert Annotation(st'.nodes[m]) == Annotation(nodes1[m]);
      if Annotation(orig[m]) == Some(v) {
        assert m in t.variables[v].usages;
      } else {
        assert m !in t.variables[v].usages;
      }
    }
  }

  /** Run's loop over the records (lines 49-74), stopping at the first fault. */
  function InlineAll(orig: seq<Node>, t: Table, st: InlineState, vs: seq<Variable>): (r: Result<InlineState>)
    requires Inv(orig, t, st) && forall i :: 0 <= i < |vs| ==> vs[i] in t.variables
    ensures r.Ok? ==> Inv(orig, t, r.value) && Descends(st.nodes, r.value.nodes)
    ensures r.Ok? ==> st.inlined.Keys <= r.value.inlined.Keys
    decreases |vs|
  {
    if vs == [] then
      DescendsReflexive(st.nodes);
      Ok(st)
    else
      InlineStepKeepsInv(orig, t, st, vs[0]);
      match InlineStep(t, st, vs[0])
      case Err(e) => Err(e)
      case Ok(st1) =>
        var r := InlineAll(orig, t, st1, vs[1..]);
        if r.Ok? then DescendsTransitive(st.nodes, st1.nodes, r.value.nodes); r else r
  }

  /** The loop from its `i`th record on: the `i`th iteration, then the rest. */
  lemma InlineAllStep(orig: seq<Node>, t: Table, st: InlineState, vs: seq<Variable>, i: nat)
    requires Inv(orig, t, st) && i < |vs| && forall k :: 0 <= k < |vs| ==> vs[k] in t.variables
    ensures StepReady(t, st, vs[i])
    ensures InlineStep(t, st, vs[i]).Err? ==> InlineAll(orig, t, st, vs[i..]) == InlineStep(t, st, vs[i])
    ensures InlineStep(t, st, vs[i]).Ok? ==>
      && Inv(orig, t, InlineStep(t, st, vs[i]).value)
      && InlineAll(orig, t, st, vs[i..]) == InlineAll(orig, t, InlineStep(t, st, vs[i]).value, vs[i + 1..])
  {
    assert vs[i..][0] == vs[i] && vs[i..][1..] == vs[i + 1..];
    InlineStepKeepsInv(orig, t, st, vs[i]);
  }

  /** The observed table and the untouched tree satisfy the loop invariant. */
  lemma ObservedInv(nodes: seq<Node>)
    requires WellFormed(nodes) && Shaped(nodes) && Root < |nodes| && Observe(nodes).Ok?
    ensures Inv(nodes, Observe(nodes).value, Start(nodes))
  {
    ObservedRecorded(nodes);
    DescendsReflexive(nodes);
  }

  lemma ObservedRecorded(nodes: seq<Node>)
    requires WellFormed(nodes) && Shaped(nodes) && Root < |nodes| && Observe(nodes).Ok?
    ensures Recorded(nodes, Observe(nodes).value)
  {
    var t := Observe(nodes).value;
    var order := PreOrder(nodes, Root);
    assert forall w :: w in t.variables && t.variables[w].firstAssignment.Expr? ==>
        t.variables[w].firstAssignment.node in order by {
      ReachableClosed(nodes, Root);
      PreOrderInArena(nodes);
      ObservedFirstsWithin(Empty, nodes, order, set m | m in order);
    }
    UsagesInVisitOrder(nodes);
    forall w | w in t.variables
      ensures forall m :: m in t.variables[w].usages <==> m in order && m < |nodes| && Annotation(nodes[m]) == Some(w)
    {
      IdentsOfMembers(nodes, order, w);
    }
    forall m | m in order && Annotation(nodes[m]).Some?
      ensures Annotation(nodes[m]).value in t.variables
    {
      var i :| 0 <= i < |order| && order[i] == m;
      assert Annotation(nodes[order[i]]).Some?;
    }
  }

  // ---------------------------------------------------------------------------
  // The whole pass
  // ---------------------------------------------------------------------------

  /** InlineTemporaries.Run (lines 37-75): the walk, then the loop over the records in the
      order they were created. A fault in either phase stops the pass. */
  function Transform(nodes: seq<Node>): (r: Result<InlineState>)
    requires WellFormed(nodes) && Shaped(nodes) && Root < |nodes|
    ensures r.Ok? ==> Observe(nodes).Ok? && Inv(nodes, Observe(nodes).value, r.value)
    ensures r.Ok? ==> Descends(nodes, r.value.nodes)
    ensures Observe(nodes).Err? ==> r == Err(Observe(nodes).fault)
  {
    match Observe(nodes)
    case Err(e) => Err(e)
    case Ok(t) =>
      ObservedInv(nodes);
      InlineAll(nodes, t, Start(nodes), t.created)
  }

  /** Lines 61-63 and 77-82: after the pass, an identifier of the original tree still names
      its variable unless that variable was eliminated; then it names the variable the
      eliminated one was a copy of. */
  lemma RunRenamesOnlyEliminated(nodes: seq<Node>)
    requires WellFormed(nodes) && Shaped(nodes) && Root < |nodes| && Transform(nodes).Ok?
    ensures |Transform(nodes).value.nodes| == |nodes|
    ensures var r := Transform(nodes).value;
      forall m :: m in PreOrder(nodes, Root) && Annotation(nodes[m]).Some? ==>
        var w := Annotation(nodes[m]).value;
        && (w !in r.inlined ==> Annotation(r.nodes[m]) == Some(w))
        && (w in r.inlined ==> Annotation(r.nodes[m]) == Some(r.renamedTo[w]))
  {
    var r := Transform(nodes).value;
    assert NamesTracked(nodes, r);
  }

  /** Lines 50-60: a variable is eliminated only if its record is never reassigned, it is not
      of a non-primitive value type, its first assignment is a bare identifier, and the
      record that identifier resolves to is never reassigned either. Conversely, when the
      pass does not fault, every such copy of a variable whose record is never reassigned is
      eliminated, whatever the order of the records. */
  lemma EliminatedWereCopies(nodes: seq<Node>)
    requires WellFormed(nodes) && Shaped(nodes) && Root < |nodes| && Transform(nodes).Ok?
    ensures Observe(nodes).Ok?
    ensures var t := Observe(nodes).value; var r := Transform(nodes).value;
      forall w :: w in r.inlined ==>
        && w in t.variables && !t.variables[w].isReassigned && w.typeKind != ValueType
        && t.variables[w].firstAssignment.Expr?
        && t.variables[w].firstAssignment.node < |nodes|
        && nodes[t.variables[w].firstAssignment.node].kind.IdentifierExpression?
        && r.inlined[w] in t.variables && !t.variables[r.inlined[w]].isReassigned
    ensures var t := Observe(nodes).value;
      forall w :: w in t.variables && IsCopy(t.variables[w], nodes) ==>
        CopiedInTree(nodes, t.variables[w]).Some? && CopiedInTree(nodes, t.variables[w]).value in t.variables
    ensures var t := Observe(nodes).value; var r := Transform(nodes).value;
      forall w :: w in t.variables ==>
        (w in r.inlined <==>
           IsCopy(t.variables[w], nodes) && !t.variables[CopiedInTree(nodes, t.variables[w]).value].isReassigned)
  {
    var t := Observe(nodes).value;
    var r := Transform(nodes).value;
    ObservedInv(nodes);
    assert EliminatedCopies(nodes, t, r) && CopiesTracked(nodes, t, r);
    QualifiedInlined(nodes, t, Start(nodes), t.created);
    CopiesAnnotated(nodes, t, Start(nodes), t.created);
    forall w | w in t.variables && IsCopy(t.variables[w], nodes)
      ensures CopiedInTree(nodes, t.variables[w]).Some? && CopiedInTree(nodes, t.variables[w]).value in t.variables
      ensures Qualifies(nodes, t, w) <==> !t.variables[CopiedInTree(nodes, t.variables[w]).value].isReassigned
    {
      assert w in t.created;
      assert t.variables[w].firstAssignment.node in PreOrder(nodes, Root);
    }
    forall w | w in r.inlined
      ensures IsCopy(t.variables[w], nodes) && !t.variables[CopiedInTree(nodes, t.variables[w]).value].isReassigned
    {
      var u := CopiedInTree(nodes, t.variables[w]).value;
      if u in r.renamedTo {
        assert IsCopy(t.variables[u], nodes);
      }
    }
    forall w | w in t.variables && Qualifies(nodes, t, w)
      ensures w in r.inlined
    {
      assert w in t.created;
    }
  }

  /** The record of `w` is a copy (lines 50-52), judged on the observed tree, of a variable
      whose record is never reassigned (line 59). */
  ghost predicate Qualifies(orig: seq<Node>, t: Table, w: Variable) {
    && w in t.variables && IsCopy(t.variables[w], orig)
    && CopiedInTree(orig, t.variables[w]).Some?
    && CopiedInTree(orig, t.variables[w]).value in t.variables
    && !t.variables[CopiedInTree(orig, t.variables[w]).value].isReassigned
  }

  /** The iteration over a qualifying record eliminates it, whatever was eliminated before:
      the copied variable was either kept, or renamed to a variable that is not reassigned. */
  lemma QualifiedStep(orig: seq<Node>, t: Table, st: InlineState, v: Variable)
    requires Inv(orig, t, st) && Qualifies(orig, t, v)
    ensures StepReady(t, st, v) && Eliminates(t, st, v)
  {
    var f := t.variables[v].firstAssignment.node;
    assert SameKind(orig[f].kind, st.nodes[f].kind);
    StepLookups(orig, t, st, v);
    InlineStepKeepsInv(orig, t, st, v);
    CopiedThroughRenaming(orig, t, st, v);
    var u := CopiedInTree(orig, t.variables[v]).value;
    if u in st.renamedTo {
      var target := st.renamedTo[u];
      assert !t.variables[target].isReassigned;
    }
  }

  /** The tests of lines 50-52 give the same answer on the edited tree as on the observed
      one: the edits rename identifiers but never turn a node into or out of one. */
  lemma CopyTestStable(orig: seq<Node>, nodes: seq<Node>, info: VariableInfo)
    requires KindsKept(orig, nodes)
    ensures IsCopy(info, orig) <==> IsCopy(info, nodes)
  {
    if info.firstAssignment.Expr? && info.firstAssignment.node < |orig| {
      assert SameKind(orig[info.firstAssignment.node].kind, nodes[info.firstAssignment.node].kind);
    }
  }

  /** Lines 56-58: resolving a recorded variable through inlinedVariables lands on a recorded
      variable, and moves only to a record that is not reassigned, so the test at line 59
      sees a reassigned record only when the copied variable itself is one. */
  lemma ResolvedRecord(orig: seq<Node>, t: Table, st: InlineState, x: Variable)
    requires Inv(orig, t, st) && x in t.variables
    ensures Resolve(st, x) in t.variables
    ensures x in st.inlined ==> !t.variables[Resolve(st, x)].isReassigned && !t.variables[x].isReassigned
    ensures t.variables[Resolve(st, x)].isReassigned ==> Resolve(st, x) == x
  {
  }

  /** Under the loop invariant, the four tests of lines 50-60 on the current tree pass exactly
      for the records that qualify on the observed tree: a copy whose copied variable is
      recorded and never reassigned. */
  lemma EliminatesExactlyQualified(orig: seq<Node>, t: Table, st: InlineState, v: Variable)
    requires Inv(orig, t, st) && v in t.variables
    ensures Eliminates(t, st, v) <==> Qualifies(orig, t, v)
  {
    CopyTestStable(orig, st.nodes, t.variables[v]);
    if Qualifies(orig, t, v) {
      QualifiedStep(orig, t, st, v);
    }
    if Eliminates(t, st, v) {
      CopiedThroughRenaming(orig, t, st, v);
      var u := CopiedInTree(orig, t.variables[v]).value;
      if u in st.renamedTo {
        assert u in st.inlined;
      }
    }
  }

  /** A copy whose identifier carries no variable faults at line 54 (`UnannotatedTarget`). */
  lemma UnannotatedCopyFaults(orig: seq<Node>, t: Table, st: InlineState, v: Variable)
    requires Inv(orig, t, st) && v in t.variables && IsCopy(t.variables[v], orig)
    requires CopiedInTree(orig, t.variables[v]).None?
    ensures StepReady(t, st, v) && InlineStep(t, st, v).Err?
  {
    var f := t.variables[v].firstAssignment.node;
    assert SameKind(orig[f].kind, st.nodes[f].kind);
    InlineStepKeepsInv(orig, t, st, v);
    CopiedThroughRenaming(orig, t, st, v);
  }

  /** The iteration over the record of `v`, when it does not fault: a qualifying record is
      eliminated, a copy has an annotated identifier, and a record that is not eliminated
      leaves the state as it was. */
  lemma QualifiedIteration(orig: seq<Node>, t: Table, st: InlineState, v: Variable)
    requires Inv(orig, t, st) && v in t.variables && StepReady(t, st, v) && InlineStep(t, st, v).Ok?
    ensures Qualifies(orig, t, v) ==> v in InlineStep(t, st, v).value.inlined
    ensures IsCopy(t.variables[v], orig) ==> CopiedInTree(orig, t.variables[v]).Some?
    ensures v in InlineStep(t, st, v).value.inlined || InlineStep(t, st, v).value == st
  {
    if Qualifies(orig, t, v) {
      QualifiedStep(orig, t, st, v);
    }
    if IsCopy(t.variables[v], orig) && CopiedInTree(orig, t.variables[v]).None? {
      UnannotatedCopyFaults(orig, t, st, v);
    }
  }

  /** The state after the first iteration of a loop that does not fault, with what
      `QualifiedIteration` says of it. */
  lemma NextState(orig: seq<Node>, t: Table, st: InlineState, vs: seq<Variable>) returns (st1: InlineState)
    requires Inv(orig, t, st) && vs != [] && (forall w :: w in vs ==> w in t.variables)
    requires InlineAll(orig, t, st, vs).Ok?
    ensures Inv(orig, t, st1) && (forall w :: w in vs[1..] ==> w in t.variables) && vs == [vs[0]] + vs[1..]
    ensures InlineAll(orig, t, st1, vs[1..]) == InlineAll(orig, t, st, vs)
    ensures st.inlined.Keys <= st1.inlined.Keys
    ensures Qualifies(orig, t, vs[0]) ==> vs[0] in st1.inlined
    ensures IsCopy(t.variables[vs[0]], orig) ==> CopiedInTree(orig, t.variables[vs[0]]).Some?
    ensures vs[0] in st1.inlined || st1 == st
  {
    FirstIteration(orig, t, st, vs);
    st1 := InlineStep(t, st, vs[0]).value;
    QualifiedIteration(orig, t, st, vs[0]);
  }

  /** A loop over `vs` that does not fault starts with an iteration that does not fault. */
  lemma FirstIteration(orig: seq<Node>, t: Table, st: InlineState, vs: seq<Variable>)
    requires Inv(orig, t, st) && vs != [] && (forall w :: w in vs ==> w in t.variables)
    requires InlineAll(orig, t, st, vs).Ok?
    ensures vs[0] in t.variables && (forall w :: w in vs[1..] ==> w in t.variables) && vs == [vs[0]] + vs[1..]
    ensures StepReady(t, st, vs[0]) && InlineStep(t, st, vs[0]).Ok?
    ensures Inv(orig, t, InlineStep(t, st, vs[0]).value)
    ensures InlineAll(orig, t, InlineStep(t, st, vs[0]).value, vs[1..]) == InlineAll(orig, t, st, vs)
    ensures st.inlined.Keys <= InlineStep(t, st, vs[0]).value.inlined.Keys
  {
    assert vs == [vs[0]] + vs[1..];
    InlineStepKeepsInv(orig, t, st, vs[0]);
  }

  /** Over a loop that does not fault, every qualifying record is eliminated. */
  lemma {:induction false} QualifiedInlined(orig: seq<Node>, t: Table, st: InlineState, vs: seq<Variable>)
    requires Inv(orig, t, st) && forall w :: w in vs ==> w in t.variables
    requires InlineAll(orig, t, st, vs).Ok?
    ensures forall w :: w in vs && Qualifies(orig, t, w) ==> w in InlineAll(orig, t, st, vs).value.inlined
    decreases |vs|
  {
    if vs != [] {
      var st1 := NextState(orig, t, st, vs);
      QualifiedInlined(orig, t, st1, vs[1..]);
      assert st1.inlined.Keys <= InlineAll(orig, t, st1, vs[1..]).value.inlined.Keys;
    }
  }

  /** Over a loop that does not fault, every copy has an annotated identifier. */
  lemma {:induction false} CopiesAnnotated(orig: seq<Node>, t: Table, st: InlineState, vs: seq<Variable>)
    requires Inv(orig, t, st) && forall w :: w in vs ==> w in t.variables
    requires InlineAll(orig, t, st, vs).Ok?
    ensures forall w :: w in vs && IsCopy(t.variables[w], orig) ==> CopiedInTree(orig, t.variables[w]).Some?
    decreases |vs|
  {
    if vs != [] {
      var st1 := NextState(orig, t, st, vs);
      CopiesAnnotated(orig, t, st1, vs[1..]);
    }
  }

  /** Nothing eliminated, nothing changed: a loop that eliminates none of its records leaves
      the tree as it found it. */
  lemma {:induction false} UnchangedUnlessInlined(orig: seq<Node>, t: Table, st: InlineState, vs: seq<Variable>)
    requires Inv(orig, t, st) && forall i :: 0 <= i < |vs| ==> vs[i] in t.variables && vs[i] !in st.inlined
    requires InlineAll(orig, t, st, vs).Ok?
    ensures InlineAll(orig, t, st, vs).value.inlined.Keys == st.inlined.Keys ==>
      InlineAll(orig, t, st, vs).value.nodes == st.nodes
    decreases |vs|
  {
    if vs != [] {
      var st1 := NextState(orig, t, st, vs);
      if st1 == st {
        UnchangedUnlessInlined(orig, t, st1, vs[1..]);
      }
    }
  }

  /** Lines 49-74: a pass that eliminates no variable leaves the tree exactly as it was. */
  lemma NothingInlinedNothingChanged(nodes: seq<Node>)
    requires WellFormed(nodes) && Shaped(nodes) && Root < |nodes| && Transform(nodes).Ok?
    ensures Transform(nodes).value.inlined == map[] ==> Transform(nodes).value.nodes == nodes
  {
    var t := Observe(nodes).value;
    ObservedInv(nodes);
    UnchangedUnlessInlined(nodes, t, Start(nodes), t.created);
  }

  /** A variable that is ever reassigned, or passed by `ref` or `out`, is never inlined:
      every identifier naming it still names it after the pass. */
  lemma ReassignedKeepsIdentifiers(nodes: seq<Node>)
    requires WellFormed(nodes) && Shaped(nodes) && Root < |nodes| && Transform(nodes).Ok?
    ensures Observe(nodes).Ok? && |Transform(nodes).value.nodes| == |nodes|
    ensures var t := Observe(nodes).value; var r := Transform(nodes).value;
      forall m :: m in PreOrder(nodes, Root) && Annotation(nodes[m]).Some? &&
                  Annotation(nodes[m]).value in t.variables && t.variables[Annotation(nodes[m]).value].isReassigned ==>
        Annotation(r.nodes[m]) == Annotation(nodes[m])
  {
    RunRenamesOnlyEliminated(nodes);
    EliminatedWereCopies(nodes);
  }

  /** Lines 65-73: statements are removed whole and assignments are replaced by one of their
      own children, so the pass never adds a statement to the tree. */
  lemma RunNeverAddsStatements(nodes: seq<Node>)
    requires WellFormed(nodes) && Shaped(nodes) && Root < |nodes| && Transform(nodes).Ok?
    ensures Ordered(Transform(nodes).value.nodes) && |Transform(nodes).value.nodes| == |nodes|
    ensures Statements(Transform(nodes).value.nodes) <= Statements(nodes)
    ensures |Statements(Transform(nodes).value.nodes)| <= |Statements(nodes)|
  {
    StatementsShrink(nodes, Transform(nodes).value.nodes);
  }

  // ---------------------------------------------------------------------------
  // What the pass removes
  // ---------------------------------------------------------------------------

  /** Every first assignment of the table is a child of the initializer that declares its
      variable or of an assignment to that variable. */
  ghost predicate SetByParents(orig: seq<Node>, t: Table)
    requires WellFormed(orig) && Shaped(orig)
  {
    forall w :: w in t.variables && t.variables[w].firstAssignment.Expr? ==>
      var f := t.variables[w].firstAssignment.node;
      && f < |orig| && orig[f].parent.Some? && orig[f].parent.value < |orig|
      && SetsFirst(orig, orig[f].parent.value, w)
  }

  /** Lines 83-120 (the comment at lines 66-68): the walk sets a first assignment only at an
      initializer under a declaration or at an assignment, and always to one of its children. */
  lemma ObservedSetByParents(nodes: seq<Node>)
    requires WellFormed(nodes) && Shaped(nodes) && Root < |nodes| && Observe(nodes).Ok?
    ensures SetByParents(nodes, Observe(nodes).value)
  {
    ReachableClosed(nodes, Root);
    PreOrderInArena(nodes);
    ObservedFirstsWithin(Empty, nodes, PreOrder(nodes, Root), set m | m in PreOrder(nodes, Root));
  }

  /** The copied identifier `f` and the assignment above it have the parents they had in the
      observed tree. */
  ghost predicate Placed(orig: seq<Node>, nodes: seq<Node>, f: NodeId)
    requires WellFormed(orig) && f < |orig| && |nodes| == |orig|
  {
    && nodes[f].parent == orig[f].parent
    && (orig[f].parent.Some? ==> nodes[orig[f].parent.value].parent == orig[orig[f].parent.value].parent)
  }

  /** Every copy not yet eliminated finds its copying assignment where the walk saw it. */
  ghost predicate ParentsKept(orig: seq<Node>, t: Table, st: InlineState)
    requires WellFormed(orig) && |st.nodes| == |orig|
  {
    forall w :: w in t.variables && w !in st.inlined && IsCopy(t.variables[w], orig) ==>
      Placed(orig, st.nodes, t.variables[w].firstAssignment.node)
  }

  /** Every node of the observed tree that is no longer reachable from the root lay in the
      subtree cut off for an eliminated variable. */
  ghost predicate LostOnlyCuts(orig: seq<Node>, t: Table, st: InlineState)
    requires WellFormed(orig) && Root < |orig| && Ordered(st.nodes) && |st.nodes| == |orig|
  {
    forall m :: m in PreOrder(orig, Root) && m !in PreOrder(st.nodes, Root) ==>
      exists w :: w in st.inlined && w in t.variables && IsCopy(t.variables[w], orig) &&
        m in PreOrder(orig, Cut(orig, t.variables[w].firstAssignment.node))
  }

  /** Only the first `k` records were eliminated. */
  ghost predicate Processed(t: Table, st: InlineState, k: nat)
    requires k <= |t.created|
  {
    forall w :: w in st.inlined ==> w in t.created[..k]
  }

  /** `after` has the parents of `before` except at `x` and `y`. */
  ghost predicate ParentsKeptBut(before: seq<Node>, after: seq<Node>, x: NodeId, y: NodeId) {
    |after| == |before| && forall i :: 0 <= i < |before| && i != x && i != y ==> after[i].parent == before[i].parent
  }

  /** Where the copying assignment still sits as observed, Detach cuts what it would have
      cut in the observed tree. */
  lemma CutAsObserved(orig: seq<Node>, nodes: seq<Node>, f: NodeId)
    requires WellFormed(orig) && WellFormed(nodes) && KindsKept(orig, nodes) && f < |orig| && Placed(orig, nodes, f)
    ensures Cut(nodes, f) == Cut(orig, f)
  {
    if orig[f].parent.Some? {
      var a := orig[f].parent.value;
      if orig[a].parent.Some? {
        assert SameKind(orig[orig[a].parent.value].kind, nodes[orig[a].parent.value].kind);
      }
    }
  }

  /** Eliminating the copy `v` moves no parent link of another copy `w` or of its copying
      assignment: those are identifiers and initializers or assignments of `w`, and the
      edit re-links only `v`'s identifier, `v`'s assignment and a statement. */
  lemma OtherCopyPlaced(orig: seq<Node>, t: Table, before: seq<Node>, after: seq<Node>, v: Variable, w: Variable)
    requires WellFormed(orig) && Shaped(orig) && SetByParents(orig, t)
    requires v in t.variables && w in t.variables && v != w
    requires IsCopy(t.variables[v], orig) && IsCopy(t.variables[w], orig)
    requires |before| == |orig| && Placed(orig, before, t.variables[w].firstAssignment.node)
    requires ParentsKeptBut(before, after, Cut(orig, t.variables[v].firstAssignment.node), t.variables[v].firstAssignment.node)
    ensures Placed(orig, after, t.variables[w].firstAssignment.node)
  {
    var fv := t.variables[v].firstAssignment.node;
    var fw := t.variables[w].firstAssignment.node;
    var av := orig[fv].parent.value;
    var aw := orig[fw].parent.value;
    var x := Cut(orig, fv);
    assert SetsFirst(orig, av, v) && SetsFirst(orig, aw, w);
    assert x == av || Encloses(orig[x].kind);
    assert fw != fv && aw != av;
  }

  /** Eliminating the `k`th record keeps the later copies where the walk saw them and cuts
      only the subtree of its own copying assignment. */
  lemma CutElimination(orig: seq<Node>, t: Table, st: InlineState, v: Variable)
    requires Inv(orig, t, st) && Shaped(orig) && SetByParents(orig, t)
    requires v in t.variables && v !in st.inlined && ParentsKept(orig, t, st) && LostOnlyCuts(orig, t, st)
    requires StepReady(t, st, v) && Eliminates(t, st, v) && InlineStep(t, st, v).Ok?
    ensures ParentsKept(orig, t, InlineStep(t, st, v).value) && LostOnlyCuts(orig, t, InlineStep(t, st, v).value)
  {
    var info := t.variables[v];
    var f := info.firstAssignment.node;
    var target := CopiedVariable(info, st.nodes).value;
    var nodes1 := ReplaceAll(st.nodes, info.usages, target);
    var st' := InlineStep(t, st, v).value;
    assert SameKind(orig[f].kind, st.nodes[f].kind);
    assert IsCopy(info, orig);
    KindsKeptTransitive(orig, st.nodes, nodes1);
    DescendsTransitive(orig, st.nodes, nodes1);
    assert Placed(orig, nodes1, f);
    CutAsObserved(orig, nodes1, f);
    assert ParentsKeptBut(nodes1, st'.nodes, Cut(orig, f), f);
    OthersPlaced(orig, t, st, nodes1, st', v);
    DetachLosesOnlyCut(nodes1, f);
    LostThroughCut(orig, t, st, nodes1, st', v);
  }

  /** The copies still pending after eliminating `v` keep their placement. */
  lemma OthersPlaced(orig: seq<Node>, t: Table, st: InlineState, nodes1: seq<Node>, st': InlineState, v: Variable)
    requires WellFormed(orig) && Shaped(orig) && SetByParents(orig, t) && |st.nodes| == |orig|
    requires v in t.variables && IsCopy(t.variables[v], orig) && ParentsKept(orig, t, st)
    requires LinksEqual(st.nodes, nodes1) && st.inlined.Keys <= st'.inlined.Keys && v in st'.inlined
    requires ParentsKeptBut(nodes1, st'.nodes, Cut(orig, t.variables[v].firstAssignment.node), t.variables[v].firstAssignment.node)
    ensures ParentsKept(orig, t, st')
  {
    forall w | w in t.variables && w !in st'.inlined && IsCopy(t.variables[w], orig)
      ensures Placed(orig, st'.nodes, t.variables[w].firstAssignment.node)
    {
      assert Placed(orig, nodes1, t.variables[w].firstAssignment.node);
      OtherCopyPlaced(orig, t, nodes1, st'.nodes, v, w);
    }
  }

  /** The reachable nodes an elimination loses lay below its cut, so every lost node is
      still accounted for. */
  lemma LostThroughCut(orig: seq<Node>, t: Table, st: InlineState, nodes1: seq<Node>, st': InlineState, v: Variable)
    requires WellFormed(orig) && Root < |orig| && WellFormed(st.nodes) && |st.nodes| == |orig|
    requires LostOnlyCuts(orig, t, st) && LinksEqual(st.nodes, nodes1) && WellFormed(nodes1)
    requires Descends(orig, nodes1) && Ordered(st'.nodes) && |st'.nodes| == |orig|
    requires v in t.variables && IsCopy(t.variables[v], orig)
    requires forall m :: m in PreOrder(nodes1, Root) && m !in PreOrder(st'.nodes, Root) ==>
      m in PreOrder(nodes1, Cut(orig, t.variables[v].firstAssignment.node))
    requires st.inlined.Keys <= st'.inlined.Keys && v in st'.inlined
    ensures LostOnlyCuts(orig, t, st')
  {
    var x := Cut(orig, t.variables[v].firstAssignment.node);
    assert LinksEqual(nodes1, st.nodes);
    LinksEqualKeepTree(nodes1, st.nodes);
    SubtreeShrinks(nodes1, st.nodes, Root);
    SubtreeShrinks(orig, nodes1, x);
    forall m | m in PreOrder(orig, Root) && m !in PreOrder(st'.nodes, Root)
      ensures exists w :: (w in st'.inlined && w in t.variables && IsCopy(t.variables[w], orig) &&
                           m in PreOrder(orig, Cut(orig, t.variables[w].firstAssignment.node)))
    {
      if m in PreOrder(st.nodes, Root) {
        assert m in PreOrder(orig, x);
      } else {
        var w :| w in st.inlined && w in t.variables && IsCopy(t.variables[w], orig) &&
          m in PreOrder(orig, Cut(orig, t.variables[w].firstAssignment.node));
        assert w in st'.inlined;
      }
    }
  }

  /** The iteration over the `k`th record keeps the cut accounting. */
  lemma CutIteration(orig: seq<Node>, t: Table, st: InlineState, k: nat)
    requires Inv(orig, t, st) && Shaped(orig) && SetByParents(orig, t) && k < |t.created|
    requires Processed(t, st, k) && ParentsKept(orig, t, st) && LostOnlyCuts(orig, t, st)
    requires StepReady(t, st, t.created[k]) && InlineStep(t, st, t.created[k]).Ok?
    ensures var st' := InlineStep(t, st, t.created[k]).value;
      Processed(t, st', k + 1) && ParentsKept(orig, t, st') && LostOnlyCuts(orig, t, st')
  {
    var v := t.created[k];
    CreatedDistinct(t, k);
    if Eliminates(t, st, v) {
      CutElimination(orig, t, st, v);
    }
  }

  lemma {:induction false} CutsAll(orig: seq<Node>, t: Table, st: InlineState, k: nat)
    requires Inv(orig, t, st) && Shaped(orig) && SetByParents(orig, t) && k <= |t.created|
    requires Processed(t, st, k) && ParentsKept(orig, t, st) && LostOnlyCuts(orig, t, st)
    requires InlineAll(orig, t, st, t.created[k..]).Ok?
    ensures LostOnlyCuts(orig, t, InlineAll(orig, t, st, t.created[k..]).value)
    decreases |t.created| - k
  {
    if k < |t.created| {
      InlineAllStep(orig, t, st, t.created, k);
      CutIteration(orig, t, st, k);
      CutsAll(orig, t, InlineStep(t, st, t.created[k]).value, k + 1);
    }
  }

  /**
   * Lines 65-73: every node the pass takes out of the tree lay in the statement enclosing the
   * copying assignment of an eliminated variable, or in that assignment when the statement
   * is not an expression or declaration statement (see `Cut`). Nothing else leaves the tree.
   */
  lemma RunRemovesOnlyCopies(nodes: seq<Node>)
    requires WellFormed(nodes) && Shaped(nodes) && Root < |nodes| && Transform(nodes).Ok?
    ensures Observe(nodes).Ok? && Ordered(Transform(nodes).value.nodes) && |Transform(nodes).value.nodes| == |nodes|
    ensures var t := Observe(nodes).value; var r := Transform(nodes).value;
      forall m :: m in PreOrder(nodes, Root) && m !in PreOrder(r.nodes, Root) ==>
        exists w :: w in r.inlined && w in t.variables && IsCopy(t.variables[w], nodes) &&
          m in PreOrder(nodes, Cut(nodes, t.variables[w].firstAssignment.node))
  {
    var t := Observe(nodes).value;
    ObservedInv(nodes);
    ObservedSetByParents(nodes);
    assert t.created[0..] == t.created;
    CutsAll(nodes, t, Start(nodes), 0);
    assert LostOnlyCuts(nodes, t, Transform(nodes).value);
  }

  // ---------------------------------------------------------------------------
  // Chains of copies
  // ---------------------------------------------------------------------------

  /** The variable a record's first assignment named in the observed tree, if it was an
      identifier. */
  function CopiedInTree(orig: seq<Node>, info: VariableInfo): Option<Variable> {
    if info.firstAssignment.Expr? && info.firstAssignment.node < |orig|
    then Annotation(orig[info.firstAssignment.node]) else None
  }

  /** Only a record first assigned an expression can ever be eliminated. */
  predicate MayBeCopy(t: Table, w: Variable) {
    w in t.variables && t.variables[w].firstAssignment.Expr?
  }

  /** Every record that copies a variable which may itself be a copy was created after
      that variable's record. A chain declared in textual order (`var b = a; var c = b;`)
      satisfies this. */
  ghost predicate TargetsFirst(orig: seq<Node>, t: Table) {
    forall j :: 0 <= j < |t.created| && t.created[j] in t.variables &&
                CopiedInTree(orig, t.variables[t.created[j]]).Some? &&
                MayBeCopy(t, CopiedInTree(orig, t.variables[t.created[j]]).value) ==>
      CopiedInTree(orig, t.variables[t.created[j]]).value in t.created[..j]
  }

  /** After the first `k` records: only they were eliminated, and every eliminated variable
      was renamed to a variable that is not eliminated, is its resolved record, and either
      came earlier or can never be eliminated. */
  ghost predicate Collapsed(t: Table, st: InlineState, k: nat)
    requires k <= |t.created|
  {
    && (forall w :: w in st.inlined ==> w in t.created[..k])
    && (forall w :: w in st.renamedTo ==>
          && st.renamedTo[w] !in st.inlined
          && w in st.inlined && st.inlined[w] == st.renamedTo[w]
          && (st.renamedTo[w] in t.created[..k] || !MayBeCopy(t, st.renamedTo[w])))
  }

  /** One iteration keeps chains collapsed when targets come first; `st'` is the state the
      iteration leaves, given by what `InlineStep` promises. */
  lemma CollapsedStep(orig: seq<Node>, t: Table, st: InlineState, k: nat, st': InlineState)
    requires Valid(t) && Ordered(orig) && Root < |orig| && Recorded(orig, t)
    requires |st.nodes| == |orig| && NamesTracked(orig, st) && st.inlined.Keys == st.renamedTo.Keys
    requires k < |t.created| && Collapsed(t, st, k) && TargetsFirst(orig, t) && t.created[k] in t.variables
    requires !Eliminates(t, st, t.created[k]) ==> st' == st
    requires Eliminates(t, st, t.created[k]) ==>
      var target := CopiedVariable(t.variables[t.created[k]], st.nodes).value;
      && st'.inlined == st.inlined[t.created[k] := Resolve(st, target)]
      && st'.renamedTo == st.renamedTo[t.created[k] := target]
    ensures Collapsed(t, st', k + 1)
  {
    var v := t.created[k];
    if Eliminates(t, st, v) {
      var target := CopiedVariable(t.variables[v], st.nodes).value;
      CopiedThroughRenaming(orig, t, st, v);
      var u := CopiedInTree(orig, t.variables[v]).value;
      assert MayBeCopy(t, u) && u !in st.renamedTo ==> u in t.created[..k];
      CreatedDistinct(t, k);
      CollapsedElimination(t, st, k, u, target, st');
    } else {
      CollapsedSkip(t, st, k);
    }
  }

  /** `CollapsedStep` for the state the iteration over the `k`th record leaves. */
  lemma CollapsedIteration(orig: seq<Node>, t: Table, st: InlineState, k: nat)
    requires Inv(orig, t, st) && k < |t.created| && Collapsed(t, st, k) && TargetsFirst(orig, t)
    requires StepReady(t, st, t.created[k]) && InlineStep(t, st, t.created[k]).Ok?
    ensures Collapsed(t, InlineStep(t, st, t.created[k]).value, k + 1)
  {
    CollapsedStep(orig, t, st, k, InlineStep(t, st, t.created[k]).value);
  }

  /** The copied identifier names what the identifier named in the observed tree, renamed. */
  lemma CopiedThroughRenaming(orig: seq<Node>, t: Table, st: InlineState, v: Variable)
    requires Ordered(orig) && Root < |orig| && Recorded(orig, t) && |st.nodes| == |orig| && NamesTracked(orig, st)
    requires v in t.variables && IsCopy(t.variables[v], st.nodes)
    ensures CopiedVariable(t.variables[v], st.nodes) == Renamed(st, CopiedInTree(orig, t.variables[v]))
  {
    var f := t.variables[v].firstAssignment.node;
    assert f in PreOrder(orig, Root);
  }

  lemma CreatedDistinct(t: Table, k: nat)
    requires Valid(t) && k < |t.created|
    ensures forall w :: w in t.created[..k] ==> w != t.created[k]
    ensures t.created[..k + 1] == t.created[..k] + [t.created[k]]
  {
    forall w | w in t.created[..k] ensures w != t.created[k] {
      var i :| 0 <= i < k && t.created[i] == w;
    }
  }

  lemma CollapsedSkip(t: Table, st: InlineState, k: nat)
    requires k < |t.created| && Collapsed(t, st, k)
    ensures Collapsed(t, st, k + 1)
  {
    assert t.created[..k + 1] == t.created[..k] + [t.created[k]];
  }

  /** Eliminating the `k`th record, which copied `u` (named `target` by now). */
  lemma CollapsedElimination(t: Table, st: InlineState, k: nat, u: Variable, target: Variable, st': InlineState)
    requires k < |t.created| && Collapsed(t, st, k) && st.inlined.Keys == st.renamedTo.Keys
    requires forall w :: w in t.created[..k] ==> w != t.created[k]
    requires t.created[..k + 1] == t.created[..k] + [t.created[k]]
    requires MayBeCopy(t, t.created[k])
    requires target == (if u in st.renamedTo then st.renamedTo[u] else u)
    requires MayBeCopy(t, u) && u !in st.renamedTo ==> u in t.created[..k]
    requires st'.inlined == st.inlined[t.created[k] := Resolve(st, target)]
    requires st'.renamedTo == st.renamedTo[t.created[k] := target]
    ensures Collapsed(t, st', k + 1)
  {
    assert target !in st.inlined && Resolve(st, target) == target;
  }

  lemma {:induction false} CollapsedAll(orig: seq<Node>, t: Table, st: InlineState, k: nat)
    requires Inv(orig, t, st) && k <= |t.created| && Collapsed(t, st, k) && TargetsFirst(orig, t)
    requires InlineAll(orig, t, st, t.created[k..]).Ok?
    ensures Collapsed(t, InlineAll(orig, t, st, t.created[k..]).value, |t.created|)
    decreases |t.created| - k
  {
    if k < |t.created| {
      InlineAllStep(orig, t, st, t.created, k);
      var st1 := InlineStep(t, st, t.created[k]).value;
      CollapsedIteration(orig, t, st, k);
      CollapsedAll(orig, t, st1, k + 1);
    }
  }

  /** After the first `k` records: every eliminated variable was renamed to what the variable
      it copied in the observed tree is renamed to now (itself, if it was kept), and that
      copied variable came earlier or can never be eliminated. */
  ghost predicate ChainsFollowed(orig: seq<Node>, t: Table, st: InlineState, k: nat)
    requires k <= |t.created|
  {
    forall w :: w in st.renamedTo ==>
      && w in t.variables && CopiedInTree(orig, t.variables[w]).Some?
      && Renamed(st, CopiedInTree(orig, t.variables[w])) == Some(st.renamedTo[w])
      && (CopiedInTree(orig, t.variables[w]).value in t.created[..k] ||
          !MayBeCopy(t, CopiedInTree(orig, t.variables[w]).value))
  }

  /** One iteration keeps every eliminated variable renamed to the end of its chain; `st'`
      is the state the iteration leaves, given by what `InlineStep` promises. */
  lemma ChainsStep(orig: seq<Node>, t: Table, st: InlineState, k: nat, st': InlineState)
    requires Valid(t) && Ordered(orig) && Root < |orig| && Recorded(orig, t)
    requires |st.nodes| == |orig| && NamesTracked(orig, st) && st.inlined.Keys == st.renamedTo.Keys
    requires k < |t.created| && Collapsed(t, st, k) && ChainsFollowed(orig, t, st, k)
    requires TargetsFirst(orig, t) && t.created[k] in t.variables
    requires !Eliminates(t, st, t.created[k]) ==> st' == st
    requires Eliminates(t, st, t.created[k]) ==>
      st'.renamedTo == st.renamedTo[t.created[k] := CopiedVariable(t.variables[t.created[k]], st.nodes).value]
    ensures ChainsFollowed(orig, t, st', k + 1)
  {
    var v := t.created[k];
    CreatedDistinct(t, k);
    if Eliminates(t, st, v) {
      CopiedThroughRenaming(orig, t, st, v);
      var u := CopiedInTree(orig, t.variables[v]).value;
      assert u in t.created[..k] || !MayBeCopy(t, u);
      ChainsElimination(orig, t, st, k, u, CopiedVariable(t.variables[v], st.nodes).value, st');
    } else {
      ChainsSkip(orig, t, st, k);
    }
  }

  lemma ChainsSkip(orig: seq<Node>, t: Table, st: InlineState, k: nat)
    requires k < |t.created| && ChainsFollowed(orig, t, st, k)
    ensures ChainsFollowed(orig, t, st, k + 1)
  {
    assert t.created[..k + 1] == t.created[..k] + [t.created[k]];
  }

  /** Eliminating the `k`th record, which copied `u` (named `target` by now): no earlier
      record copied the `k`th, so every earlier chain still ends where it did. */
  lemma ChainsElimination(orig: seq<Node>, t: Table, st: InlineState, k: nat, u: Variable, target: Variable,
                          st': InlineState)
    requires k < |t.created| && ChainsFollowed(orig, t, st, k) && t.created[k] in t.variables
    requires forall w :: w in t.created[..k] ==> w != t.created[k]
    requires t.created[..k + 1] == t.created[..k] + [t.created[k]]
    requires MayBeCopy(t, t.created[k]) && forall w :: w in st.renamedTo ==> w in t.created[..k]
    requires CopiedInTree(orig, t.variables[t.created[k]]) == Some(u)
    requires u in t.created[..k] || !MayBeCopy(t, u)
    requires target == (if u in st.renamedTo then st.renamedTo[u] else u)
    requires st'.renamedTo == st.renamedTo[t.created[k] := target]
    ensures ChainsFollowed(orig, t, st', k + 1)
  {
    var v := t.created[k];
    assert u != v;
    forall w | w in st'.renamedTo && w != v
      ensures Renamed(st', CopiedInTree(orig, t.variables[w])) == Some(st'.renamedTo[w])
    {
      assert CopiedInTree(orig, t.variables[w]).value != v;
    }
  }

  /** `ChainsStep` for the state the iteration over the `k`th record leaves. */
  lemma ChainsIteration(orig: seq<Node>, t: Table, st: InlineState, k: nat)
    requires Inv(orig, t, st) && k < |t.created| && Collapsed(t, st, k) && ChainsFollowed(orig, t, st, k)
    requires TargetsFirst(orig, t)
    requires StepReady(t, st, t.created[k]) && InlineStep(t, st, t.created[k]).Ok?
    ensures ChainsFollowed(orig, t, InlineStep(t, st, t.created[k]).value, k + 1)
  {
    ChainsStep(orig, t, st, k, InlineStep(t, st, t.created[k]).value);
  }

  lemma {:induction false} ChainsAll(orig: seq<Node>, t: Table, st: InlineState, k: nat)
    requires Inv(orig, t, st) && k <= |t.created| && Collapsed(t, st, k) && ChainsFollowed(orig, t, st, k)
    requires TargetsFirst(orig, t)
    requires InlineAll(orig, t, st, t.created[k..]).Ok?
    ensures ChainsFollowed(orig, t, InlineAll(orig, t, st, t.created[k..]).value, |t.created|)
    decreases |t.created| - k
  {
    if k < |t.created| {
      InlineAllStep(orig, t, st, t.created, k);
      CollapsedIteration(orig, t, st, k);
      ChainsIteration(orig, t, st, k);
      ChainsAll(orig, t, InlineStep(t, st, t.created[k]).value, k + 1);
    }
  }

  /**
   * Lines 41-47 and 54-63: when every copied variable that may itself be a copy was
   * created before its copy, chains collapse. Each eliminated variable is mapped, in
   * inlinedVariables and in the renaming of its identifiers alike, to the end of its chain:
   * the variable it copied if that one was kept, or else what that one was mapped to. No
   * identifier of the tree names an eliminated variable after the pass.
   */
  lemma ChainsCollapse(nodes: seq<Node>)
    requires WellFormed(nodes) && Shaped(nodes) && Root < |nodes| && Transform(nodes).Ok?
    requires TargetsFirst(nodes, Observe(nodes).value)
    ensures |Transform(nodes).value.nodes| == |nodes|
    ensures var t := Observe(nodes).value; var r := Transform(nodes).value;
      forall w :: w in r.inlined ==>
        && w in t.variables && CopiedInTree(nodes, t.variables[w]).Some?
        && var u := CopiedInTree(nodes, t.variables[w]).value;
           && r.inlined[w] == r.renamedTo[w]
           && r.inlined[w] == (if u in r.inlined then r.inlined[u] else u)
           && r.inlined[w] !in r.inlined
    ensures var r := Transform(nodes).value;
      forall m :: m in PreOrder(nodes, Root) && Annotation(nodes[m]).Some? ==>
        Annotation(r.nodes[m]).Some? && Annotation(r.nodes[m]).value !in r.inlined
  {
    var t := Observe(nodes).value;
    var r := Transform(nodes).value;
    ObservedInv(nodes);
    assert t.created[0..] == t.created;
    assert r == InlineAll(nodes, t, Start(nodes), t.created[0..]).value;
    CollapsedAll(nodes, t, Start(nodes), 0);
    ChainsAll(nodes, t, Start(nodes), 0);
    CollapsedNames(nodes, t, r);
  }

  /** The chain `b = a; c = b;` of the comment at lines 41-47: when `b` and `c` are
      eliminated and `a` is kept, every identifier that named `b` or `c` names `a`. */
  lemma ChainOfThree(nodes: seq<Node>, a: Variable, b: Variable, c: Variable)
    requires WellFormed(nodes) && Shaped(nodes) && Root < |nodes| && Transform(nodes).Ok?
    requires TargetsFirst(nodes, Observe(nodes).value)
    requires b in Observe(nodes).value.variables && c in Observe(nodes).value.variables
    requires CopiedInTree(nodes, Observe(nodes).value.variables[c]) == Some(b)
    requires CopiedInTree(nodes, Observe(nodes).value.variables[b]) == Some(a)
    requires b in Transform(nodes).value.inlined && c in Transform(nodes).value.inlined
    requires a !in Transform(nodes).value.inlined
    ensures Transform(nodes).value.inlined[b] == a && Transform(nodes).value.inlined[c] == a
    ensures |Transform(nodes).value.nodes| == |nodes|
    ensures forall m :: m in PreOrder(nodes, Root) && (Annotation(nodes[m]) == Some(b) || Annotation(nodes[m]) == Some(c)) ==>
      Annotation(Transform(nodes).value.nodes[m]) == Some(a)
  {
    ChainsCollapse(nodes);
    RunRenamesOnlyEliminated(nodes);
  }

  lemma CollapsedNames(orig: seq<Node>, t: Table, r: InlineState)
    requires Ordered(orig) && Root < |orig| && |r.nodes| == |orig| && NamesTracked(orig, r)
    requires r.inlined.Keys == r.renamedTo.Keys && Collapsed(t, r, |t.created|)
    ensures forall w :: w in r.inlined ==> r.inlined[w] == r.renamedTo[w] && r.inlined[w] !in r.inlined
    ensures forall m :: m in PreOrder(orig, Root) && Annotation(orig[m]).Some? ==>
      Annotation(r.nodes[m]).Some? && Annotation(r.nodes[m]).value !in r.inlined
  {
  }

  // ---------------------------------------------------------------------------
  // Copies that are inlined
  // ---------------------------------------------------------------------------

  /**
   * Lines 13-15 and 50-60, stated on the tree: a variable declared with a bare identifier
   * as its initializer (`var b = a;`) is inlined when neither it nor the variable it
   * copies is ever reassigned, that is, passed by `ref` or `out`, a by-reference
   * parameter, or assigned once it holds a value. Unless `a` was inlined itself, `b`
   * resolves to `a`, and every identifier that named `b` names its rename target.
   */
  lemma DeclaredCopyInlined(nodes: seq<Node>, i: nat)
    requires WellFormed(nodes) && Shaped(nodes) && Root < |nodes| && Transform(nodes).Ok?
    requires InArena(nodes, PreOrder(nodes, Root)) && i < |PreOrder(nodes, Root)|
    requires var d := PreOrder(nodes, Root)[i];
      && nodes[d].kind.VariableInitializer? && ParentIsDeclaration(nodes, d) && |nodes[d].children| == 1
      && nodes[d].kind.declared.typeKind != ValueType
      && nodes[d].children[0] < |nodes| && nodes[nodes[d].children[0]].kind.IdentifierExpression?
      && Annotation(nodes[nodes[d].children[0]]).Some?
      && NeverReassigned(nodes, PreOrder(nodes, Root), nodes[d].kind.declared)
      && NeverReassigned(nodes, PreOrder(nodes, Root), Annotation(nodes[nodes[d].children[0]]).value)
    ensures var d := PreOrder(nodes, Root)[i];
      var b := nodes[d].kind.declared; var a := Annotation(nodes[nodes[d].children[0]]).value;
      var r := Transform(nodes).value;
      && b in r.inlined && b in r.renamedTo
      && (a !in r.inlined ==> r.inlined[b] == a)
      && |r.nodes| == |nodes|
      && forall m :: m in PreOrder(nodes, Root) && Annotation(nodes[m]) == Some(b) ==>
           Annotation(r.nodes[m]) == Some(r.renamedTo[b])
  {
    var order := PreOrder(nodes, Root);
    var d := order[i];
    var f := nodes[d].children[0];
    var b := nodes[d].kind.declared;
    var a := Annotation(nodes[f]).value;
    EliminatedWereCopies(nodes);
    var t := Observe(nodes).value;
    var r := Transform(nodes).value;
    DeclaredFirst(Empty, nodes, order, i);
    assert f in order by {
      assert d in order;
      ChildrenInPreOrder(nodes, d);
      PreOrderClosed(nodes, Root, d);
    }
    assert a in t.variables by {
      ObservedRecorded(nodes);
    }
    NotReassigned(nodes, b);
    NotReassigned(nodes, a);
    assert IsCopy(t.variables[b], nodes) && CopiedInTree(nodes, t.variables[b]) == Some(a);
    assert CopiesTracked(nodes, t, r) && EliminatedCopies(nodes, t, r);
    RunRenamesOnlyEliminated(nodes);
  }

  // ---------------------------------------------------------------------------
  // Variables that are never inlined
  // ---------------------------------------------------------------------------

  /** Lines 56-60: a variable first assigned a copy of a reassigned variable is never
      eliminated, whatever the order of the records. The copied variable cannot have been
      eliminated itself, so the lookup resolves to it and the test at line 59 fails. */
  lemma CopiesOfReassignedKept(nodes: seq<Node>)
    requires WellFormed(nodes) && Shaped(nodes) && Root < |nodes| && Transform(nodes).Ok?
    ensures Observe(nodes).Ok?
    ensures var t := Observe(nodes).value; var r := Transform(nodes).value;
      forall w :: w in t.variables && CopiedInTree(nodes, t.variables[w]).Some? &&
                  CopiedInTree(nodes, t.variables[w]).value in t.variables &&
                  t.variables[CopiedInTree(nodes, t.variables[w]).value].isReassigned ==>
        w !in r.inlined
  {
    var t := Observe(nodes).value;
    var r := Transform(nodes).value;
    assert EliminatedCopies(nodes, t, r) && CopiesTracked(nodes, t, r);
  }

  /**
   * Lines 122-127 with lines 56-60: a variable passed by `ref` or `out` anywhere in the
   * method is reassigned, so neither it nor a variable first assigned a copy of it is
   * inlined, and every identifier naming either still names it after the pass.
   */
  lemma ByReferenceCopiesKept(nodes: seq<Node>, i: nat, w: Variable)
    requires WellFormed(nodes) && Shaped(nodes) && Root < |nodes| && Transform(nodes).Ok?
    requires i < |PreOrder(nodes, Root)| && PreOrder(nodes, Root)[i] < |nodes|
    requires PassedByReference(nodes, PreOrder(nodes, Root)[i]).Some?
    requires w in Observe(nodes).value.variables
    requires CopiedInTree(nodes, Observe(nodes).value.variables[w]) == PassedByReference(nodes, PreOrder(nodes, Root)[i])
    ensures var x := PassedByReference(nodes, PreOrder(nodes, Root)[i]).value;
      && x !in Transform(nodes).value.inlined && w !in Transform(nodes).value.inlined
      && |Transform(nodes).value.nodes| == |nodes|
      && forall m :: m in PreOrder(nodes, Root) && Annotation(nodes[m]) in {Some(x), Some(w)} ==>
           Annotation(Transform(nodes).value.nodes[m]) == Annotation(nodes[m])
  {
    PreOrderInArena(nodes);
    PassedByReferenceIsReassigned(Empty, nodes, PreOrder(nodes, Root), i);
    CopiesOfReassignedKept(nodes);
    EliminatedWereCopies(nodes);
    RunRenamesOnlyEliminated(nodes);
  }

  /**
   * Lines 85-105 and 146-158 with line 52: a variable that gets a record without being
   * declared by a statement of the method (a parameter, or the variable of a foreach or
   * catch clause) holds the Expression.Null sentinel, so it is never inlined, and its
   * identifiers still name it after the pass.
   */
  lemma UndeclaredKept(nodes: seq<Node>, w: Variable)
    requires WellFormed(nodes) && Shaped(nodes) && Root < |nodes| && Transform(nodes).Ok?
    requires InArena(nodes, PreOrder(nodes, Root)) && !Declares(nodes, PreOrder(nodes, Root), w)
    requires w in Observe(nodes).value.variables
    ensures w !in Transform(nodes).value.inlined && |Transform(nodes).value.nodes| == |nodes|
    ensures forall m :: m in PreOrder(nodes, Root) && Annotation(nodes[m]) == Some(w) ==>
      Annotation(Transform(nodes).value.nodes[m]) == Some(w)
  {
    UndeclaredKeepsSentinel(Empty, nodes, PreOrder(nodes, Root), w);
    EliminatedWereCopies(nodes);
    RunRenamesOnlyEliminated(nodes);
  }
}
