/**
 * The observing half of InlineTemporaries: one depth-first walk over the tree that
 * keeps one record per variable (its first assignment, whether it is ever reassigned,
 * and every identifier that names it).
 *
 * Each visitor override acts on its node before the base visitor descends into the
 * children, so the walk handles the nodes in depth-first pre-order; `Visit` is the
 * action taken at one node and `ObserveAll` runs it over a sequence of nodes.
 */
module Observer {
  import opened Ast

  /** What a record's FirstAssignment holds: nothing yet (C# null), the Expression.Null
      sentinel of a variable bound outside any assignment, or an expression node. */
  datatype FirstAssignment = Unassigned | NullExpression | Expr(node: NodeId)

  datatype VariableInfo = VariableInfo(
    variable: Variable,
    firstAssignment: FirstAssignment,
    isReassigned: bool,
    usages: seq<NodeId>)

  /** The `variables` dictionary, with the order in which its records were added. */
  datatype Table = Table(variables: map<Variable, VariableInfo>, created: seq<Variable>)

  const Empty: Table := Table(map[], [])

  /** A record is filed under its own variable, and `created` lists every key once. */
  ghost predicate Valid(t: Table) {
    && (forall v :: v in t.variables ==> t.variables[v].variable == v)
    && (forall v :: v in t.variables <==> v in t.created)
    && (forall i, j :: 0 <= i < j < |t.created| ==> t.created[i] != t.created[j])
  }

  /** What a later table keeps of an earlier record: the variable, a set reassignment flag,
      and a first assignment once it is set. */
  ghost predicate Kept(before: VariableInfo, after: VariableInfo) {
    && after.variable == before.variable
    && (before.isReassigned ==> after.isReassigned)
    && (before.firstAssignment != Unassigned ==> after.firstAssignment == before.firstAssignment)
  }

  ghost predicate Grows(before: Table, after: Table) {
    && before.created <= after.created
    && forall v :: v in before.variables ==>
         v in after.variables && Kept(before.variables[v], after.variables[v])
  }

  /** Replaces the record of a variable that already has one. */
  function SetRecord(t: Table, info: VariableInfo): (r: Table)
    requires Valid(t) && info.variable in t.variables
    ensures Valid(r) && r.created == t.created && r.variables.Keys == t.variables.Keys
    ensures r.variables[info.variable] == info
    ensures forall w :: w in t.variables && w != info.variable ==> r.variables[w] == t.variables[w]
  {
    Table(t.variables[info.variable := info], t.created)
  }

  /** Dictionary.Add: a new record for `v`, or a fault if `v` already has one. */
  function Add(t: Table, v: Variable, first: FirstAssignment, at: NodeId): (r: Result<Table>)
    requires Valid(t)
    ensures r.Ok? <==> v !in t.variables
    ensures r.Ok? ==> Valid(r.value) && Grows(t, r.value)
    ensures r.Ok? ==> r.value.variables == t.variables[v := VariableInfo(v, first, false, [])]
  {
    if v in t.variables then Err(DuplicateRecord(at))
    else Ok(Table(t.variables[v := VariableInfo(v, first, false, [])], t.created + [v]))
  }

  /** TryGetVariable for an identifier annotated with `v`: the existing record, or, for a
      variable never seen before, a new record for a parameter, which starts with the
      Expression.Null sentinel and counts as reassigned if it is passed by reference.
      A first-seen variable that is not a parameter fails the debug assertion. */
  function TryGetVariable(t: Table, v: Variable, at: NodeId): (r: Result<Table>)
    requires Valid(t)
    ensures r.Ok? <==> v in t.variables || v.isParameter
    ensures r.Ok? ==> Valid(r.value) && Grows(t, r.value) && v in r.value.variables
    ensures r.Ok? && v in t.variables ==> r.value == t
    ensures r.Ok? && v !in t.variables ==>
      && r.value.variables == t.variables[v := VariableInfo(v, NullExpression, v.typeKind == ByReference, [])]
      && r.value.created == t.created + [v]
  {
    if v in t.variables then Ok(t)
    else if !v.isParameter then Err(NotAParameter(at))
    else Ok(Table(t.variables[v := VariableInfo(v, NullExpression, v.typeKind == ByReference, [])], t.created + [v]))
  }

  /** The table changed only in the record of `v`, which it now has; a new record comes last. */
  ghost predicate ChangedOnly(t: Table, r: Table, v: Variable) {
    && r.created == (if v in t.variables then t.created else t.created + [v])
    && r.variables.Keys == t.variables.Keys + {v}
    && forall w :: w in t.variables && w != v ==> r.variables[w] == t.variables[w]
  }

  /** TryGetVariable followed by an update of the record it returned. */
  lemma LookedUpThenSet(t: Table, v: Variable, at: NodeId, info: VariableInfo)
    requires Valid(t) && TryGetVariable(t, v, at).Ok?
    requires info.variable == v && Kept(TryGetVariable(t, v, at).value.variables[v], info)
    ensures var r := SetRecord(TryGetVariable(t, v, at).value, info);
      Valid(r) && Grows(t, r) && ChangedOnly(t, r, v)
  {
  }

  /** The initializer of a variable initializer node: its expression, or C# null if it has none. */
  function Initializer(nodes: seq<Node>, n: NodeId): FirstAssignment
    requires n < |nodes|
  {
    if |nodes[n].children| == 1 then Expr(nodes[n].children[0]) else Unassigned
  }

  predicate ParentIsDeclaration(nodes: seq<Node>, n: NodeId)
    requires n < |nodes|
  {
    match nodes[n].parent
    case None => false
    case Some(p) => p < |nodes| && nodes[p].kind.VariableDeclarationStatement?
  }

  /** The variable a direct assignment at `n` assigns, if its left side is an annotated identifier. */
  function AssignedVariable(nodes: seq<Node>, n: NodeId): Option<Variable>
    requires Ordered(nodes) && Shaped(nodes) && n < |nodes|
  {
    if nodes[n].kind.AssignmentExpression? then Annotation(nodes[nodes[n].children[0]]) else None
  }

  /** The variable a `ref`/`out` expression at `n` passes, if its operand is an annotated identifier. */
  function PassedByReference(nodes: seq<Node>, n: NodeId): Option<Variable>
    requires Ordered(nodes) && Shaped(nodes) && n < |nodes|
  {
    if nodes[n].kind.DirectionExpression? then Annotation(nodes[nodes[n].children[0]]) else None
  }

  /** The variable a node binds outside any assignment: a foreach variable or a catch variable. */
  function BoundVariable(nodes: seq<Node>, n: NodeId): Option<Variable>
    requires n < |nodes|
  {
    match nodes[n].kind
    case ForeachStatement(v) => Some(v)
    case CatchClause(caught) => caught
    case _ => None
  }

  /** VisitVariableInitializer: an initializer directly under a declaration statement
      adds a record whose first assignment is its initializer; any other is ignored. */
  function VisitVariableInitializer(t: Table, nodes: seq<Node>, n: NodeId): (r: Result<Table>)
    requires Valid(t) && n < |nodes| && nodes[n].kind.VariableInitializer?
    ensures r.Ok? ==> Valid(r.value) && Grows(t, r.value)
    ensures !ParentIsDeclaration(nodes, n) ==> r == Ok(t)
    ensures ParentIsDeclaration(nodes, n) ==>
      var v := nodes[n].kind.declared;
      (r.Ok? <==> v !in t.variables) &&
      (r.Ok? ==> r.value.variables == t.variables[v := VariableInfo(v, Initializer(nodes, n), false, [])])
  {
    if ParentIsDeclaration(nodes, n) then Add(t, nodes[n].kind.declared, Initializer(nodes, n), n) else Ok(t)
  }

  /** VisitForeachStatement and VisitCatchClause: the bound variable, if there is one, gets a
      new record holding the Expression.Null sentinel. */
  function VisitBinding(t: Table, nodes: seq<Node>, n: NodeId): (r: Result<Table>)
    requires Valid(t) && n < |nodes| && (nodes[n].kind.ForeachStatement? || nodes[n].kind.CatchClause?)
    ensures r.Ok? ==> Valid(r.value) && Grows(t, r.value)
    ensures BoundVariable(nodes, n).None? ==> r == Ok(t)
    ensures BoundVariable(nodes, n).Some? ==>
      var v := BoundVariable(nodes, n).value;
      (r.Ok? <==> v !in t.variables) &&
      (r.Ok? ==> r.value.variables == t.variables[v := VariableInfo(v, NullExpression, false, [])])
  {
    match BoundVariable(nodes, n)
    case None => Ok(t)
    case Some(v) => Add(t, v, NullExpression, n)
  }

  /** VisitAssignmentExpression: when the left side is an identifier bound to a variable, an
      unset first assignment becomes the right side, and a set one makes the variable
      reassigned; other assignments change nothing. */
  function VisitAssignmentExpression(t: Table, nodes: seq<Node>, n: NodeId): (r: Result<Table>)
    requires Valid(t) && Ordered(nodes) && Shaped(nodes) && n < |nodes| && nodes[n].kind.AssignmentExpression?
    ensures r.Ok? ==> Valid(r.value) && Grows(t, r.value)
    ensures AssignedVariable(nodes, n).None? ==> r == Ok(t)
    ensures AssignedVariable(nodes, n).Some? ==>
      var v := AssignedVariable(nodes, n).value;
      (r.Ok? <==> v in t.variables || v.isParameter) &&
      (r.Ok? ==>
        && ChangedOnly(t, r.value, v)
        && r.value.variables[v].usages == (if v in t.variables then t.variables[v].usages else [])
        && if v in t.variables && t.variables[v].firstAssignment == Unassigned then
             r.value.variables[v] == t.variables[v].(firstAssignment := Expr(nodes[n].children[1]))
           else
             && r.value.variables[v].isReassigned
             && r.value.variables[v].firstAssignment ==
                  (if v in t.variables then t.variables[v].firstAssignment else NullExpression))
  {
    var left := nodes[n].children[0];
    match Annotation(nodes[left])
    case None => Ok(t)
    case Some(v) =>
      match TryGetVariable(t, v, left)
      case Err(f) => Err(f)
      case Ok(t1) =>
        var info := t1.variables[v];
        var info' := if info.firstAssignment == Unassigned then info.(firstAssignment := Expr(nodes[n].children[1]))
                     else info.(isReassigned := true);
        LookedUpThenSet(t, v, left, info');
        Ok(SetRecord(t1, info'))
  }

  /** VisitDirectionExpression: a variable passed by `ref` or `out` is marked reassigned,
      whatever its record held before. */
  function VisitDirectionExpression(t: Table, nodes: seq<Node>, n: NodeId): (r: Result<Table>)
    requires Valid(t) && Ordered(nodes) && Shaped(nodes) && n < |nodes| && nodes[n].kind.DirectionExpression?
    ensures r.Ok? ==> Valid(r.value) && Grows(t, r.value)
    ensures PassedByReference(nodes, n).None? ==> r == Ok(t)
    ensures PassedByReference(nodes, n).Some? ==>
      var v := PassedByReference(nodes, n).value;
      (r.Ok? <==> v in t.variables || v.isParameter) &&
      (r.Ok? ==>
        && ChangedOnly(t, r.value, v)
        && r.value.variables[v].isReassigned
        && r.value.variables[v].usages == (if v in t.variables then t.variables[v].usages else [])
        && r.value.variables[v].firstAssignment ==
             (if v in t.variables then t.variables[v].firstAssignment else NullExpression))
  {
    var operand := nodes[n].children[0];
    match Annotation(nodes[operand])
    case None => Ok(t)
    case Some(v) =>
      match TryGetVariable(t, v, operand)
      case Err(f) => Err(f)
      case Ok(t1) =>
        LookedUpThenSet(t, v, operand, t1.variables[v].(isReassigned := true));
        Ok(SetRecord(t1, t1.variables[v].(isReassigned := true)))
  }

  /** VisitIdentifierExpression: an identifier bound to a variable is appended to that
      variable's usages. */
  function VisitIdentifierExpression(t: Table, nodes: seq<Node>, n: NodeId): (r: Result<Table>)
    requires Valid(t) && n < |nodes| && nodes[n].kind.IdentifierExpression?
    ensures r.Ok? ==> Valid(r.value) && Grows(t, r.value)
    ensures Annotation(nodes[n]).None? ==> r == Ok(t)
    ensures Annotation(nodes[n]).Some? ==>
      var v := Annotation(nodes[n]).value;
      (r.Ok? <==> v in t.variables || v.isParameter) &&
      (r.Ok? ==>
        && ChangedOnly(t, r.value, v)
        && r.value.variables[v].usages == (if v in t.variables then t.variables[v].usages else []) + [n]
        && r.value.variables[v].firstAssignment ==
             (if v in t.variables then t.variables[v].firstAssignment else NullExpression)
        && r.value.variables[v].isReassigned ==
             (if v in t.variables then t.variables[v].isReassigned else v.typeKind == ByReference))
  {
    match nodes[n].kind.annotation
    case None => Ok(t)
    case Some(v) =>
      match TryGetVariable(t, v, n)
      case Err(f) => Err(f)
      case Ok(t1) =>
        LookedUpThenSet(t, v, n, t1.variables[v].(usages := t1.variables[v].usages + [n]));
        Ok(SetRecord(t1, t1.variables[v].(usages := t1.variables[v].usages + [n])))
  }

  /** The action of the visitor at node `n`: the override for its kind, or nothing. */
  function Visit(t: Table, nodes: seq<Node>, n: NodeId): (r: Result<Table>)
    requires Valid(t) && Ordered(nodes) && Shaped(nodes) && n < |nodes|
    ensures r.Ok? ==> Valid(r.value) && Grows(t, r.value)
    ensures r.Err? ==> r.fault.DuplicateRecord? || r.fault.NotAParameter?
    ensures nodes[n].kind.VariableDeclarationStatement? || nodes[n].kind.ExpressionStatement? || nodes[n].kind.Other? ==>
      r == Ok(t)
  {
    match nodes[n].kind
    case VariableInitializer(_) => VisitVariableInitializer(t, nodes, n)
    case ForeachStatement(_) => VisitBinding(t, nodes, n)
    case CatchClause(_) => VisitBinding(t, nodes, n)
    case AssignmentExpression => VisitAssignmentExpression(t, nodes, n)
    case DirectionExpression => VisitDirectionExpression(t, nodes, n)
    case IdentifierExpression(_, _) => VisitIdentifierExpression(t, nodes, n)
    case _ => Ok(t)
  }

  /** Going from `t` to `t1` at node `n`: the variable `n` names, if any, has a record, and
      each record's usages gained `n` if `n` names its variable, and nothing else. */
  ghost predicate AppendsAt(t: Table, t1: Table, nodes: seq<Node>, n: NodeId)
    requires n < |nodes|
  {
    && (Annotation(nodes[n]).Some? ==> Annotation(nodes[n]).value in t1.variables)
    && forall v :: v in t1.variables ==>
         t1.variables[v].usages ==
           (if v in t.variables then t.variables[v].usages else [])
           + (if Annotation(nodes[n]) == Some(v) then [n] else [])
  }

  /** Every annotated identifier the visitor reaches is recorded and appended to its
      variable's usages; no other node changes any usages. */
  lemma VisitAppendsUsage(t: Table, nodes: seq<Node>, n: NodeId)
    requires Valid(t) && Ordered(nodes) && Shaped(nodes) && n < |nodes|
    requires Visit(t, nodes, n).Ok?
    ensures AppendsAt(t, Visit(t, nodes, n).value, nodes, n)
  {
    match nodes[n].kind
    case VariableInitializer(_) => InitializerAppendsNothing(t, nodes, n);
    case ForeachStatement(_) => BindingAppendsNothing(t, nodes, n);
    case CatchClause(_) => BindingAppendsNothing(t, nodes, n);
    case AssignmentExpression => AssignmentAppendsNothing(t, nodes, n);
    case DirectionExpression => DirectionAppendsNothing(t, nodes, n);
    case IdentifierExpression(_, _) => IdentifierAppends(t, nodes, n);
    case _ =>
  }

  lemma InitializerAppendsNothing(t: Table, nodes: seq<Node>, n: NodeId)
    requires Valid(t) && n < |nodes| && nodes[n].kind.VariableInitializer?
    requires VisitVariableInitializer(t, nodes, n).Ok?
    ensures AppendsAt(t, VisitVariableInitializer(t, nodes, n).value, nodes, n)
  {
  }

  lemma BindingAppendsNothing(t: Table, nodes: seq<Node>, n: NodeId)
    requires Valid(t) && n < |nodes| && (nodes[n].kind.ForeachStatement? || nodes[n].kind.CatchClause?)
    requires VisitBinding(t, nodes, n).Ok?
    ensures AppendsAt(t, VisitBinding(t, nodes, n).value, nodes, n)
  {
  }

  lemma AssignmentAppendsNothing(t: Table, nodes: seq<Node>, n: NodeId)
    requires Valid(t) && Ordered(nodes) && Shaped(nodes) && n < |nodes| && nodes[n].kind.AssignmentExpression?
    requires VisitAssignmentExpression(t, nodes, n).Ok?
    ensures AppendsAt(t, VisitAssignmentExpression(t, nodes, n).value, nodes, n)
  {
  }

  lemma DirectionAppendsNothing(t: Table, nodes: seq<Node>, n: NodeId)
    requires Valid(t) && Ordered(nodes) && Shaped(nodes) && n < |nodes| && nodes[n].kind.DirectionExpression?
    requires VisitDirectionExpression(t, nodes, n).Ok?
    ensures AppendsAt(t, VisitDirectionExpression(t, nodes, n).value, nodes, n)
  {
  }

  lemma IdentifierAppends(t: Table, nodes: seq<Node>, n: NodeId)
    requires Valid(t) && n < |nodes| && nodes[n].kind.IdentifierExpression?
    requires VisitIdentifierExpression(t, nodes, n).Ok?
    ensures AppendsAt(t, VisitIdentifierExpression(t, nodes, n).value, nodes, n)
  {
  }

  /** Node `n` is where the walk sets the first assignment of `v`: an initializer that
      declares `v`, or an assignment whose left side names `v`. */
  predicate SetsFirst(nodes: seq<Node>, n: NodeId, v: Variable)
    requires Ordered(nodes) && Shaped(nodes) && n < |nodes|
  {
    nodes[n].kind == VariableInitializer(v) || AssignedVariable(nodes, n) == Some(v)
  }

  /** Every first assignment of `t1` that is an expression was already in `t`, or is a child
      of `n` and `n` sets the first assignment of its variable. */
  ghost predicate FirstsFrom(t: Table, t1: Table, nodes: seq<Node>, n: NodeId)
    requires Ordered(nodes) && Shaped(nodes) && n < |nodes|
  {
    forall v :: v in t1.variables && t1.variables[v].firstAssignment.Expr? ==>
      (v in t.variables && t.variables[v].firstAssignment == t1.variables[v].firstAssignment)
      || (t1.variables[v].firstAssignment.node in nodes[n].children && SetsFirst(nodes, n, v))
  }

  /** A first assignment the visitor sets at node `n` is one of `n`'s children, and `n` is
      the initializer or assignment of that variable. */
  lemma VisitSetsFirstFromChild(t: Table, nodes: seq<Node>, n: NodeId)
    requires Valid(t) && Ordered(nodes) && Shaped(nodes) && n < |nodes|
    requires Visit(t, nodes, n).Ok?
    ensures FirstsFrom(t, Visit(t, nodes, n).value, nodes, n)
  {
    match nodes[n].kind
    case VariableInitializer(_) => InitializerSetsFirst(t, nodes, n);
    case AssignmentExpression => AssignmentSetsFirst(t, nodes, n);
    case ForeachStatement(_) => BindingKeepsFirsts(t, nodes, n);
    case CatchClause(_) => BindingKeepsFirsts(t, nodes, n);
    case DirectionExpression => DirectionKeepsFirsts(t, nodes, n);
    case IdentifierExpression(_, _) => IdentifierKeepsFirsts(t, nodes, n);
    case _ =>
  }

  lemma BindingKeepsFirsts(t: Table, nodes: seq<Node>, n: NodeId)
    requires Valid(t) && Ordered(nodes) && Shaped(nodes) && n < |nodes|
    requires nodes[n].kind.ForeachStatement? || nodes[n].kind.CatchClause?
    requires VisitBinding(t, nodes, n).Ok?
    ensures FirstsFrom(t, VisitBinding(t, nodes, n).value, nodes, n)
  {
  }

  lemma DirectionKeepsFirsts(t: Table, nodes: seq<Node>, n: NodeId)
    requires Valid(t) && Ordered(nodes) && Shaped(nodes) && n < |nodes| && nodes[n].kind.DirectionExpression?
    requires VisitDirectionExpression(t, nodes, n).Ok?
    ensures FirstsFrom(t, VisitDirectionExpression(t, nodes, n).value, nodes, n)
  {
  }

  lemma IdentifierKeepsFirsts(t: Table, nodes: seq<Node>, n: NodeId)
    requires Valid(t) && Ordered(nodes) && Shaped(nodes) && n < |nodes| && nodes[n].kind.IdentifierExpression?
    requires VisitIdentifierExpression(t, nodes, n).Ok?
    ensures FirstsFrom(t, VisitIdentifierExpression(t, nodes, n).value, nodes, n)
  {
  }

  lemma InitializerSetsFirst(t: Table, nodes: seq<Node>, n: NodeId)
    requires Valid(t) && Ordered(nodes) && Shaped(nodes) && n < |nodes| && nodes[n].kind.VariableInitializer?
    requires VisitVariableInitializer(t, nodes, n).Ok?
    ensures FirstsFrom(t, VisitVariableInitializer(t, nodes, n).value, nodes, n)
  {
    if ParentIsDeclaration(nodes, n) && |nodes[n].children| == 1 {
      assert nodes[n].children[0] in nodes[n].children;
    }
  }

  lemma AssignmentSetsFirst(t: Table, nodes: seq<Node>, n: NodeId)
    requires Valid(t) && Ordered(nodes) && Shaped(nodes) && n < |nodes| && nodes[n].kind.AssignmentExpression?
    requires VisitAssignmentExpression(t, nodes, n).Ok?
    ensures FirstsFrom(t, VisitAssignmentExpression(t, nodes, n).value, nodes, n)
  {
    assert nodes[n].children[1] in nodes[n].children;
  }


  // ---------------------------------------------------------------------------
  // The whole walk
  // ---------------------------------------------------------------------------

  ghost predicate InArena(nodes: seq<Node>, order: seq<NodeId>) {
    forall i :: 0 <= i < |order| ==> order[i] < |nodes|
  }

  /** The visitor's actions over `order`, stopping at the first fault. */
  function ObserveAll(t: Table, nodes: seq<Node>, order: seq<NodeId>): (r: Result<Table>)
    requires Valid(t) && Ordered(nodes) && Shaped(nodes) && InArena(nodes, order)
    ensures r.Ok? ==> Valid(r.value) && Grows(t, r.value)
    ensures r.Err? ==> r.fault.DuplicateRecord? || r.fault.NotAParameter?
    decreases |order|
  {
    if order == [] then Ok(t)
    else
      match Visit(t, nodes, order[0])
      case Err(f) => Err(f)
      case Ok(t1) => ObserveAll(t1, nodes, order[1..])
  }

  /** The observation phase of Run: the depth-first walk over the whole compilation unit. */
  function Observe(nodes: seq<Node>): (r: Result<Table>)
    requires Ordered(nodes) && Shaped(nodes) && Root < |nodes|
    ensures r.Ok? ==> Valid(r.value)
    ensures r.Err? ==> r.fault.DuplicateRecord? || r.fault.NotAParameter?
  {
    PreOrderInArena(nodes);
    ObserveAll(Empty, nodes, PreOrder(nodes, Root))
  }

  /** The identifiers in `order` that are annotated with `v`, in order. */
  function IdentsOf(nodes: seq<Node>, order: seq<NodeId>, v: Variable): seq<NodeId>
    requires InArena(nodes, order)
    decreases |order|
  {
    if order == [] then []
    else (if Annotation(nodes[order[0]]) == Some(v) then [order[0]] else []) + IdentsOf(nodes, order[1..], v)
  }

  /** The identifiers collected for `v` are exactly the nodes of `order` that name `v`. */
  lemma {:induction false} IdentsOfMembers(nodes: seq<Node>, order: seq<NodeId>, v: Variable)
    requires InArena(nodes, order)
    ensures forall m :: m in IdentsOf(nodes, order, v) <==> m in order && m < |nodes| && Annotation(nodes[m]) == Some(v)
    decreases |order|
  {
    if order != [] {
      IdentsOfMembers(nodes, order[1..], v);
      forall m ensures m in order <==> m == order[0] || m in order[1..] {
        assert order == [order[0]] + order[1..];
      }
    }
  }

  /** Usages are appended in visit order: after the walk, a variable's usages are its usages
      before the walk followed by every identifier of the walk that names it. Every
      identifier of the walk that names a variable has a record. */
  lemma {:induction false} ObservedUsages(t: Table, nodes: seq<Node>, order: seq<NodeId>)
    requires Valid(t) && Ordered(nodes) && Shaped(nodes) && InArena(nodes, order)
    requires ObserveAll(t, nodes, order).Ok?
    ensures var t' := ObserveAll(t, nodes, order).value;
      && (forall v :: v in t'.variables ==>
            t'.variables[v].usages == (if v in t.variables then t.variables[v].usages else []) + IdentsOf(nodes, order, v))
      && (forall i :: 0 <= i < |order| && Annotation(nodes[order[i]]).Some? ==>
            Annotation(nodes[order[i]]).value in t'.variables)
    decreases |order|
  {
    if order != [] {
      var t1 := Visit(t, nodes, order[0]).value;
      var t' := ObserveAll(t1, nodes, order[1..]).value;
      VisitAppendsUsage(t, nodes, order[0]);
      ObservedUsages(t1, nodes, order[1..]);
      UsagesStep(t, t1, t', nodes, order);
    }
  }

  /** `UsagesStep` for one variable. */
  lemma UsagesStepOf(t: Table, t1: Table, t': Table, nodes: seq<Node>, order: seq<NodeId>, v: Variable)
    requires InArena(nodes, order) && order != []
    requires Grows(t, t1) && Grows(t1, t') && v in t'.variables
    requires v in t1.variables ==>
      t1.variables[v].usages ==
        (if v in t.variables then t.variables[v].usages else [])
        + (if Annotation(nodes[order[0]]) == Some(v) then [order[0]] else [])
    requires v !in t1.variables ==> Annotation(nodes[order[0]]) != Some(v)
    requires t'.variables[v].usages == (if v in t1.variables then t1.variables[v].usages else []) + IdentsOf(nodes, order[1..], v)
    ensures t'.variables[v].usages == (if v in t.variables then t.variables[v].usages else []) + IdentsOf(nodes, order, v)
  {
    var x0 := if Annotation(nodes[order[0]]) == Some(v) then [order[0]] else [];
    var base := if v in t.variables then t.variables[v].usages else [];
    assert IdentsOf(nodes, order, v) == x0 + IdentsOf(nodes, order[1..], v);
    if v in t1.variables {
      assert t'.variables[v].usages == (base + x0) + IdentsOf(nodes, order[1..], v);
      AppendAssociative(base, x0, IdentsOf(nodes, order[1..], v));
    } else {
      assert v !in t.variables;
    }
  }

  /** The inductive step of ObservedUsages, over tables given by their properties. */
  lemma UsagesStep(t: Table, t1: Table, t': Table, nodes: seq<Node>, order: seq<NodeId>)
    requires InArena(nodes, order) && order != []
    requires Grows(t, t1) && Grows(t1, t')
    requires Annotation(nodes[order[0]]).Some? ==> Annotation(nodes[order[0]]).value in t1.variables
    requires forall v :: v in t1.variables ==>
      t1.variables[v].usages ==
        (if v in t.variables then t.variables[v].usages else [])
        + (if Annotation(nodes[order[0]]) == Some(v) then [order[0]] else [])
    requires forall v :: v in t'.variables ==>
      t'.variables[v].usages == (if v in t1.variables then t1.variables[v].usages else []) + IdentsOf(nodes, order[1..], v)
    requires forall i :: 0 <= i < |order[1..]| && Annotation(nodes[order[1..][i]]).Some? ==>
      Annotation(nodes[order[1..][i]]).value in t'.variables
    ensures forall v :: v in t'.variables ==>
      t'.variables[v].usages == (if v in t.variables then t.variables[v].usages else []) + IdentsOf(nodes, order, v)
    ensures forall i :: 0 <= i < |order| && Annotation(nodes[order[i]]).Some? ==>
      Annotation(nodes[order[i]]).value in t'.variables
  {
    forall v | v in t'.variables
      ensures t'.variables[v].usages == (if v in t.variables then t.variables[v].usages else []) + IdentsOf(nodes, order, v)
    {
      UsagesStepOf(t, t1, t', nodes, order, v);
    }
    forall i | 0 <= i < |order| && Annotation(nodes[order[i]]).Some?
      ensures Annotation(nodes[order[i]]).value in t'.variables
    {
      if i > 0 {
        assert order[i] == order[1..][i - 1];
      }
    }
  }

  lemma AppendAssociative(a: seq<NodeId>, b: seq<NodeId>, c: seq<NodeId>)
    ensures (a + b) + c == a + (b + c)
  {
  }

  lemma PreOrderInArena(nodes: seq<Node>)
    requires Ordered(nodes) && Root < |nodes|
    ensures InArena(nodes, PreOrder(nodes, Root))
  {
    var order := PreOrder(nodes, Root);
    forall i | 0 <= i < |order| ensures order[i] < |nodes| {
      assert order[i] in order;
    }
  }

  /** Usages are appended in visit order: after observing the whole tree, each record's
      usages are exactly the identifiers naming its variable, in depth-first order. */
  lemma UsagesInVisitOrder(nodes: seq<Node>)
    requires Ordered(nodes) && Shaped(nodes) && Root < |nodes| && Observe(nodes).Ok?
    ensures InArena(nodes, PreOrder(nodes, Root))
    ensures var t := Observe(nodes).value;
      forall v :: v in t.variables ==> t.variables[v].usages == IdentsOf(nodes, PreOrder(nodes, Root), v)
    ensures var t := Observe(nodes).value; var order := PreOrder(nodes, Root);
      forall i :: 0 <= i < |order| && Annotation(nodes[order[i]]).Some? ==> Annotation(nodes[order[i]]).value in t.variables
  {
    PreOrderInArena(nodes);
    ObservedUsages(Empty, nodes, PreOrder(nodes, Root));
  }

  /** Every first assignment names a node of `s` whose parent sets it. */
  ghost predicate FirstsWithin(t: Table, nodes: seq<Node>, s: set<NodeId>)
    requires Ordered(nodes) && Shaped(nodes)
  {
    forall v :: v in t.variables && t.variables[v].firstAssignment.Expr? ==>
      var f := t.variables[v].firstAssignment.node;
      && f in s && f < |nodes| && nodes[f].parent.Some? && nodes[f].parent.value < |nodes|
      && SetsFirst(nodes, nodes[f].parent.value, v)
  }

  /** A walk over nodes of a set closed under children only records first assignments
      inside that set, each the child of the initializer or assignment that set it. */
  lemma {:induction false} ObservedFirstsWithin(t: Table, nodes: seq<Node>, order: seq<NodeId>, s: set<NodeId>)
    requires Valid(t) && WellFormed(nodes) && Shaped(nodes) && InArena(nodes, order)
    requires ObserveAll(t, nodes, order).Ok?
    requires FirstsWithin(t, nodes, s)
    requires forall i :: 0 <= i < |order| ==> order[i] in s
    requires forall m, c :: m in s && m < |nodes| && c in nodes[m].children ==> c in s
    ensures FirstsWithin(ObserveAll(t, nodes, order).value, nodes, s)
    decreases |order|
  {
    if order != [] {
      var t1 := Visit(t, nodes, order[0]).value;
      VisitSetsFirstFromChild(t, nodes, order[0]);
      assert FirstsWithin(t1, nodes, s) by {
        forall v | v in t1.variables && t1.variables[v].firstAssignment.Expr?
          ensures var f := t1.variables[v].firstAssignment.node;
            && f in s && f < |nodes| && nodes[f].parent.Some? && nodes[f].parent.value < |nodes|
            && SetsFirst(nodes, nodes[f].parent.value, v)
        {
          var f := t1.variables[v].firstAssignment.node;
          if f in nodes[order[0]].children && SetsFirst(nodes, order[0], v) {
            var j :| 0 <= j < |nodes[order[0]].children| && nodes[order[0]].children[j] == f;
            assert nodes[f].parent == Some(order[0]);
          }
        }
      }
      ObservedFirstsWithin(t1, nodes, order[1..], s);
    }
  }

  /** The first step of a walk that succeeds: the visit at its first node succeeds, and the
      rest of the walk, from there, ends in the same table. Position `j` of the walk is
      position `j - 1` of its rest. */
  lemma WalkStep(t: Table, nodes: seq<Node>, order: seq<NodeId>, j: nat)
    requires Valid(t) && Ordered(nodes) && Shaped(nodes) && InArena(nodes, order)
    requires order != [] && ObserveAll(t, nodes, order).Ok?
    ensures Visit(t, nodes, order[0]).Ok? && InArena(nodes, order[1..])
    ensures var t1 := Visit(t, nodes, order[0]).value;
      && Valid(t1) && Grows(t, t1)
      && ObserveAll(t1, nodes, order[1..]) == ObserveAll(t, nodes, order)
    ensures 0 < j < |order| ==> order[1..][j - 1] == order[j]
  {
  }

  /** A variable passed by `ref` or `out` anywhere in the walk is reassigned at its end. */
  lemma {:induction false} PassedByReferenceIsReassigned(t: Table, nodes: seq<Node>, order: seq<NodeId>, i: nat)
    requires Valid(t) && Ordered(nodes) && Shaped(nodes) && InArena(nodes, order)
    requires ObserveAll(t, nodes, order).Ok?
    requires i < |order| && PassedByReference(nodes, order[i]).Some?
    ensures var v := PassedByReference(nodes, order[i]).value;
      var t' := ObserveAll(t, nodes, order).value;
      v in t'.variables && t'.variables[v].isReassigned
    decreases |order|
  {
    var t1 := Visit(t, nodes, order[0]).value;
    if i == 0 {
      assert t1 == VisitDirectionExpression(t, nodes, order[0]).value;
    } else {
      assert order[i] == order[1..][i - 1];
      PassedByReferenceIsReassigned(t1, nodes, order[1..], i - 1);
    }
  }

  /** Once a record's first assignment is set (or it is already reassigned), any later direct
      assignment to the variable leaves it reassigned. */
  lemma {:induction false} AssignedAgainIsReassigned(t: Table, nodes: seq<Node>, order: seq<NodeId>, j: nat, v: Variable)
    requires Valid(t) && Ordered(nodes) && Shaped(nodes) && InArena(nodes, order)
    requires ObserveAll(t, nodes, order).Ok?
    requires v in t.variables && (t.variables[v].firstAssignment != Unassigned || t.variables[v].isReassigned)
    requires j < |order| && AssignedVariable(nodes, order[j]) == Some(v)
    ensures var t' := ObserveAll(t, nodes, order).value;
      v in t'.variables && t'.variables[v].isReassigned
    decreases |order|
  {
    WalkStep(t, nodes, order, j);
    var t1 := Visit(t, nodes, order[0]).value;
    if j == 0 {
      AssignmentStepReassigns(t, nodes, order[0], v);
    } else {
      AssignedAgainIsReassigned(t1, nodes, order[1..], j - 1, v);
    }
  }

  /** The visitor's step at an assignment to a variable whose record is already set. */
  lemma AssignmentStepReassigns(t: Table, nodes: seq<Node>, n: NodeId, v: Variable)
    requires Valid(t) && Ordered(nodes) && Shaped(nodes) && n < |nodes|
    requires Visit(t, nodes, n).Ok?
    requires v in t.variables && (t.variables[v].firstAssignment != Unassigned || t.variables[v].isReassigned)
    requires AssignedVariable(nodes, n) == Some(v)
    ensures v in Visit(t, nodes, n).value.variables && Visit(t, nodes, n).value.variables[v].isReassigned
  {
    assert Visit(t, nodes, n) == VisitAssignmentExpression(t, nodes, n);
  }

  /** The visitor's step at an assignment to a variable: its record is set afterwards. */
  lemma AssignmentStepRecords(t: Table, nodes: seq<Node>, n: NodeId)
    requires Valid(t) && Ordered(nodes) && Shaped(nodes) && n < |nodes|
    requires Visit(t, nodes, n).Ok? && AssignedVariable(nodes, n).Some?
    ensures var v := AssignedVariable(nodes, n).value; var t1 := Visit(t, nodes, n).value;
      v in t1.variables && (t1.variables[v].firstAssignment != Unassigned || t1.variables[v].isReassigned)
  {
    assert Visit(t, nodes, n) == VisitAssignmentExpression(t, nodes, n);
  }

  /** Two direct assignments to one variable in the walk make it reassigned. */
  lemma {:induction false} AssignedTwiceIsReassigned(t: Table, nodes: seq<Node>, order: seq<NodeId>, i: nat, j: nat)
    requires Valid(t) && Ordered(nodes) && Shaped(nodes) && InArena(nodes, order)
    requires ObserveAll(t, nodes, order).Ok?
    requires i < j < |order| && AssignedVariable(nodes, order[i]).Some?
    requires AssignedVariable(nodes, order[j]) == AssignedVariable(nodes, order[i])
    ensures var v := AssignedVariable(nodes, order[i]).value;
      var t' := ObserveAll(t, nodes, order).value;
      v in t'.variables && t'.variables[v].isReassigned
    decreases |order|
  {
    if i == 0 {
      AssignedFirstThenAgain(t, nodes, order, j);
    } else {
      WalkStep(t, nodes, order, j);
      assert order[1..][i - 1] == order[i];
      AssignedTwiceIsReassigned(Visit(t, nodes, order[0]).value, nodes, order[1..], i - 1, j - 1);
    }
  }

  /** `AssignedTwiceIsReassigned` when the first assignment starts the walk. */
  lemma AssignedFirstThenAgain(t: Table, nodes: seq<Node>, order: seq<NodeId>, j: nat)
    requires Valid(t) && Ordered(nodes) && Shaped(nodes) && InArena(nodes, order)
    requires ObserveAll(t, nodes, order).Ok?
    requires 0 < j < |order| && AssignedVariable(nodes, order[0]).Some?
    requires AssignedVariable(nodes, order[j]) == AssignedVariable(nodes, order[0])
    ensures var v := AssignedVariable(nodes, order[0]).value;
      var t' := ObserveAll(t, nodes, order).value;
      v in t'.variables && t'.variables[v].isReassigned
  {
    WalkStep(t, nodes, order, j);
    AssignmentStepRecords(t, nodes, order[0]);
    AssignedAgainIsReassigned(Visit(t, nodes, order[0]).value, nodes, order[1..], j - 1, AssignedVariable(nodes, order[0]).value);
  }

  /** Node `n` gives `v` a value when its record has none yet: a foreach or catch clause
      binding `v`, a declaration's initializer with an expression, or an assignment to `v`. */
  predicate GivesValue(nodes: seq<Node>, n: NodeId, v: Variable)
    requires Ordered(nodes) && Shaped(nodes) && n < |nodes|
  {
    || BoundVariable(nodes, n) == Some(v)
    || AssignedVariable(nodes, n) == Some(v)
    || (nodes[n].kind == VariableInitializer(v) && ParentIsDeclaration(nodes, n) && |nodes[n].children| == 1)
  }

  /** Before position `j` of the walk, `v` may already hold a value: its record had one at
      the start, it is a parameter, or an earlier node of the walk gave it one. */
  ghost predicate ValueBefore(t: Table, nodes: seq<Node>, order: seq<NodeId>, j: nat, v: Variable)
    requires Ordered(nodes) && Shaped(nodes) && InArena(nodes, order) && j <= |order|
  {
    || (v in t.variables && t.variables[v].firstAssignment != Unassigned)
    || v.isParameter
    || exists i :: 0 <= i < j && GivesValue(nodes, order[i], v)
  }

  /** The ways a walk can leave `v` reassigned: it was at the start, it is a by-reference
      parameter, it is passed by `ref` or `out`, or it is assigned when it may already
      hold a value. */
  ghost predicate ReassignedBy(t: Table, nodes: seq<Node>, order: seq<NodeId>, v: Variable)
    requires Ordered(nodes) && Shaped(nodes) && InArena(nodes, order)
  {
    || (v in t.variables && t.variables[v].isReassigned)
    || (v.isParameter && v.typeKind == ByReference)
    || (exists i :: 0 <= i < |order| && PassedByReference(nodes, order[i]) == Some(v))
    || (exists j :: 0 <= j < |order| && AssignedVariable(nodes, order[j]) == Some(v) && ValueBefore(t, nodes, order, j, v))
  }

  /** The converse of the three lemmas above: a record reassigned at the end of the walk
      was made so by one of the ways `ReassignedBy` lists, and by nothing else. */
  lemma {:induction false} ReassignedOnlyIf(t: Table, nodes: seq<Node>, order: seq<NodeId>, v: Variable)
    requires Valid(t) && Ordered(nodes) && Shaped(nodes) && InArena(nodes, order)
    requires ObserveAll(t, nodes, order).Ok?
    requires v in ObserveAll(t, nodes, order).value.variables
    requires ObserveAll(t, nodes, order).value.variables[v].isReassigned
    ensures ReassignedBy(t, nodes, order, v)
    decreases |order|
  {
    if order != [] {
      WalkStep(t, nodes, order, 0);
      var t1 := Visit(t, nodes, order[0]).value;
      if v in t1.variables && t1.variables[v].isReassigned {
        VisitMarks(t, nodes, order[0], v);
        MarkedFirst(t, nodes, order, v);
      } else {
        ReassignedOnlyIf(t1, nodes, order[1..], v);
        MarkedLater(t, nodes, order, v);
      }
    }
  }

  /** `ReassignedBy` when the first step of the walk marked the record. */
  lemma MarkedFirst(t: Table, nodes: seq<Node>, order: seq<NodeId>, v: Variable)
    requires Ordered(nodes) && Shaped(nodes) && InArena(nodes, order) && order != []
    requires || (v in t.variables && t.variables[v].isReassigned)
             || (v.isParameter && v.typeKind == ByReference)
             || PassedByReference(nodes, order[0]) == Some(v)
             || (AssignedVariable(nodes, order[0]) == Some(v) &&
                 ((v in t.variables && t.variables[v].firstAssignment != Unassigned) || v.isParameter))
    ensures ReassignedBy(t, nodes, order, v)
  {
    if AssignedVariable(nodes, order[0]) == Some(v) &&
       ((v in t.variables && t.variables[v].firstAssignment != Unassigned) || v.isParameter) {
      assert ValueBefore(t, nodes, order, 0, v);
    }
  }

  /** `ReassignedBy` of the rest of a walk, from the table after its first step, gives
      `ReassignedBy` of the whole walk when that step did not mark the record. */
  lemma MarkedLater(t: Table, nodes: seq<Node>, order: seq<NodeId>, v: Variable)
    requires Valid(t) && Ordered(nodes) && Shaped(nodes) && InArena(nodes, order)
    requires order != [] && Visit(t, nodes, order[0]).Ok? && InArena(nodes, order[1..])
    requires Grows(t, Visit(t, nodes, order[0]).value)
    requires ReassignedBy(Visit(t, nodes, order[0]).value, nodes, order[1..], v)
    requires !(v in Visit(t, nodes, order[0]).value.variables && Visit(t, nodes, order[0]).value.variables[v].isReassigned)
    ensures ReassignedBy(t, nodes, order, v)
  {
    var t1 := Visit(t, nodes, order[0]).value;
    if exists i :: 0 <= i < |order[1..]| && PassedByReference(nodes, order[1..][i]) == Some(v) {
      var i :| 0 <= i < |order[1..]| && PassedByReference(nodes, order[1..][i]) == Some(v);
      assert order[i + 1] == order[1..][i];
    } else if !(v.isParameter && v.typeKind == ByReference) {
      var j :| 0 <= j < |order[1..]| && AssignedVariable(nodes, order[1..][j]) == Some(v) &&
               ValueBefore(t1, nodes, order[1..], j, v);
      ValueBeforeStep(t, nodes, order, j, v);
      assert order[j + 1] == order[1..][j];
    }
  }

  /** `ValueBefore` of the rest of a walk, from the table after its first step, is
      `ValueBefore` of the whole walk one position later. */
  lemma ValueBeforeStep(t: Table, nodes: seq<Node>, order: seq<NodeId>, j: nat, v: Variable)
    requires Valid(t) && Ordered(nodes) && Shaped(nodes) && InArena(nodes, order)
    requires order != [] && Visit(t, nodes, order[0]).Ok? && j < |order|
    requires ValueBefore(Visit(t, nodes, order[0]).value, nodes, order[1..], j, v)
    ensures ValueBefore(t, nodes, order, j + 1, v)
  {
    var t1 := Visit(t, nodes, order[0]).value;
    if v in t1.variables && t1.variables[v].firstAssignment != Unassigned {
      VisitGivesValue(t, nodes, order[0], v);
    } else if !v.isParameter {
      var i :| 0 <= i < j && GivesValue(nodes, order[1..][i], v);
      assert order[i + 1] == order[1..][i];
    }
  }

  /** One step of the walk marks a record reassigned only if it was already, if the visit
      first sees a by-reference parameter, passes the variable by reference, or assigns a
      variable that may already hold a value. */
  lemma VisitMarks(t: Table, nodes: seq<Node>, n: NodeId, v: Variable)
    requires Valid(t) && Ordered(nodes) && Shaped(nodes) && n < |nodes|
    requires Visit(t, nodes, n).Ok?
    requires v in Visit(t, nodes, n).value.variables && Visit(t, nodes, n).value.variables[v].isReassigned
    ensures || (v in t.variables && t.variables[v].isReassigned)
            || (v.isParameter && v.typeKind == ByReference)
            || PassedByReference(nodes, n) == Some(v)
            || (AssignedVariable(nodes, n) == Some(v) &&
                ((v in t.variables && t.variables[v].firstAssignment != Unassigned) || v.isParameter))
  {
    match nodes[n].kind
    case AssignmentExpression => AssignmentMarks(t, nodes, n, v);
    case DirectionExpression => assert Visit(t, nodes, n) == VisitDirectionExpression(t, nodes, n);
    case IdentifierExpression(_, _) => IdentifierMarks(t, nodes, n, v);
    case _ =>
  }

  lemma AssignmentMarks(t: Table, nodes: seq<Node>, n: NodeId, v: Variable)
    requires Valid(t) && Ordered(nodes) && Shaped(nodes) && n < |nodes| && nodes[n].kind.AssignmentExpression?
    requires VisitAssignmentExpression(t, nodes, n).Ok?
    requires v in VisitAssignmentExpression(t, nodes, n).value.variables
    requires VisitAssignmentExpression(t, nodes, n).value.variables[v].isReassigned
    ensures || (v in t.variables && t.variables[v].isReassigned)
            || (AssignedVariable(nodes, n) == Some(v) &&
                ((v in t.variables && t.variables[v].firstAssignment != Unassigned) || v.isParameter))
  {
  }

  lemma IdentifierMarks(t: Table, nodes: seq<Node>, n: NodeId, v: Variable)
    requires Valid(t) && n < |nodes| && nodes[n].kind.IdentifierExpression?
    requires VisitIdentifierExpression(t, nodes, n).Ok?
    requires v in VisitIdentifierExpression(t, nodes, n).value.variables
    requires VisitIdentifierExpression(t, nodes, n).value.variables[v].isReassigned
    ensures (v in t.variables && t.variables[v].isReassigned) || (v.isParameter && v.typeKind == ByReference)
  {
  }

  /** One step of the walk gives a record a value only if it had one, if the variable is a
      parameter, or if the node visited gives it one. */
  lemma VisitGivesValue(t: Table, nodes: seq<Node>, n: NodeId, v: Variable)
    requires Valid(t) && Ordered(nodes) && Shaped(nodes) && n < |nodes|
    requires Visit(t, nodes, n).Ok?
    requires v in Visit(t, nodes, n).value.variables
    requires Visit(t, nodes, n).value.variables[v].firstAssignment != Unassigned
    ensures || (v in t.variables && t.variables[v].firstAssignment != Unassigned)
            || v.isParameter
            || GivesValue(nodes, n, v)
  {
    match nodes[n].kind
    case VariableInitializer(_) => InitializerGivesValue(t, nodes, n, v);
    case ForeachStatement(_) => BindingGivesValue(t, nodes, n, v);
    case CatchClause(_) => BindingGivesValue(t, nodes, n, v);
    case AssignmentExpression => AssignmentGivesValue(t, nodes, n, v);
    case DirectionExpression => assert Visit(t, nodes, n) == VisitDirectionExpression(t, nodes, n);
    case IdentifierExpression(_, _) => assert Visit(t, nodes, n) == VisitIdentifierExpression(t, nodes, n);
    case _ =>
  }

  lemma BindingGivesValue(t: Table, nodes: seq<Node>, n: NodeId, v: Variable)
    requires Valid(t) && n < |nodes| && (nodes[n].kind.ForeachStatement? || nodes[n].kind.CatchClause?)
    requires VisitBinding(t, nodes, n).Ok?
    requires v in VisitBinding(t, nodes, n).value.variables
    requires VisitBinding(t, nodes, n).value.variables[v].firstAssignment != Unassigned
    ensures (v in t.variables && t.variables[v].firstAssignment != Unassigned) || BoundVariable(nodes, n) == Some(v)
  {
  }

  lemma AssignmentGivesValue(t: Table, nodes: seq<Node>, n: NodeId, v: Variable)
    requires Valid(t) && Ordered(nodes) && Shaped(nodes) && n < |nodes| && nodes[n].kind.AssignmentExpression?
    requires VisitAssignmentExpression(t, nodes, n).Ok?
    requires v in VisitAssignmentExpression(t, nodes, n).value.variables
    requires VisitAssignmentExpression(t, nodes, n).value.variables[v].firstAssignment != Unassigned
    ensures (v in t.variables && t.variables[v].firstAssignment != Unassigned) || AssignedVariable(nodes, n) == Some(v)
  {
  }

  lemma InitializerGivesValue(t: Table, nodes: seq<Node>, n: NodeId, v: Variable)
    requires Valid(t) && n < |nodes| && nodes[n].kind.VariableInitializer?
    requires VisitVariableInitializer(t, nodes, n).Ok?
    requires v in VisitVariableInitializer(t, nodes, n).value.variables
    requires VisitVariableInitializer(t, nodes, n).value.variables[v].firstAssignment != Unassigned
    ensures || (v in t.variables && t.variables[v].firstAssignment != Unassigned)
            || (nodes[n].kind == VariableInitializer(v) && ParentIsDeclaration(nodes, n) && |nodes[n].children| == 1)
  {
  }

  /** A variable that a walk leaves alone: it is not a by-reference parameter, it is never
      passed by `ref` or `out`, and every assignment to it comes before anything gives it a
      value, so it is assigned at most once and never after its declaration's initializer. */
  ghost predicate NeverReassigned(nodes: seq<Node>, order: seq<NodeId>, v: Variable)
    requires Ordered(nodes) && Shaped(nodes) && InArena(nodes, order)
  {
    && !(v.isParameter && v.typeKind == ByReference)
    && (forall i :: 0 <= i < |order| ==> PassedByReference(nodes, order[i]) != Some(v))
    && (forall j :: 0 <= j < |order| && AssignedVariable(nodes, order[j]) == Some(v) ==>
          !ValueBefore(Empty, nodes, order, j, v))
  }

  /** Observing a tree in which `v` is never reassigned leaves its record unmarked. */
  lemma NotReassigned(nodes: seq<Node>, v: Variable)
    requires Ordered(nodes) && Shaped(nodes) && Root < |nodes| && Observe(nodes).Ok?
    requires InArena(nodes, PreOrder(nodes, Root)) && NeverReassigned(nodes, PreOrder(nodes, Root), v)
    ensures v in Observe(nodes).value.variables ==> !Observe(nodes).value.variables[v].isReassigned
  {
    if v in Observe(nodes).value.variables && Observe(nodes).value.variables[v].isReassigned {
      ReassignedOnlyIf(Empty, nodes, PreOrder(nodes, Root), v);
    }
  }

  /** The record of a variable declared with an initializer holds that initializer as its
      first assignment at the end of the walk, whatever follows. */
  lemma {:induction false} DeclaredFirst(t: Table, nodes: seq<Node>, order: seq<NodeId>, i: nat)
    requires Valid(t) && Ordered(nodes) && Shaped(nodes) && InArena(nodes, order)
    requires ObserveAll(t, nodes, order).Ok?
    requires i < |order| && nodes[order[i]].kind.VariableInitializer?
    requires ParentIsDeclaration(nodes, order[i]) && |nodes[order[i]].children| == 1
    ensures var v := nodes[order[i]].kind.declared; var t' := ObserveAll(t, nodes, order).value;
      v in t'.variables && t'.variables[v].firstAssignment == Expr(nodes[order[i]].children[0])
    decreases |order|
  {
    WalkStep(t, nodes, order, i);
    var t1 := Visit(t, nodes, order[0]).value;
    if i == 0 {
      assert t1 == VisitVariableInitializer(t, nodes, order[0]).value;
    } else {
      DeclaredFirst(t1, nodes, order[1..], i - 1);
    }
  }

  /** Whether some initializer in `order` sits directly under a declaration and declares `v`. */
  ghost predicate Declares(nodes: seq<Node>, order: seq<NodeId>, v: Variable)
    requires InArena(nodes, order)
    decreases |order|
  {
    order != [] &&
    ((nodes[order[0]].kind == VariableInitializer(v) && ParentIsDeclaration(nodes, order[0]))
     || Declares(nodes, order[1..], v))
  }

  /** Whether some foreach or catch clause in `order` binds `v`. */
  ghost predicate Binds(nodes: seq<Node>, order: seq<NodeId>, v: Variable)
    requires InArena(nodes, order)
    decreases |order|
  {
    order != [] && (BoundVariable(nodes, order[0]) == Some(v) || Binds(nodes, order[1..], v))
  }

  /** A variable that gets a record during the walk without being declared in it holds the
      Expression.Null sentinel, so it can never be inlined itself; if it is not bound by a
      foreach or catch either, it is a parameter, and a by-reference one is reassigned. */
  lemma {:induction false} UndeclaredKeepsSentinel(t: Table, nodes: seq<Node>, order: seq<NodeId>, v: Variable)
    requires Valid(t) && Ordered(nodes) && Shaped(nodes) && InArena(nodes, order)
    requires ObserveAll(t, nodes, order).Ok?
    requires v !in t.variables && v in ObserveAll(t, nodes, order).value.variables
    requires !Declares(nodes, order, v)
    ensures var t' := ObserveAll(t, nodes, order).value;
      && t'.variables[v].firstAssignment == NullExpression
      && (!Binds(nodes, order, v) ==> v.isParameter && (v.typeKind == ByReference ==> t'.variables[v].isReassigned))
    decreases |order|
  {
    var t1 := Visit(t, nodes, order[0]).value;
    var t' := ObserveAll(t, nodes, order).value;
    assert t' == ObserveAll(t1, nodes, order[1..]).value;
    if v in t1.variables {
      UndeclaredStep(t, nodes, order[0], v);
    } else {
      UndeclaredKeepsSentinel(t1, nodes, order[1..], v);
    }
  }

  /** The visitor's step that creates a record other than by declaring its variable. */
  lemma UndeclaredStep(t: Table, nodes: seq<Node>, n: NodeId, v: Variable)
    requires Valid(t) && Ordered(nodes) && Shaped(nodes) && n < |nodes|
    requires Visit(t, nodes, n).Ok?
    requires v !in t.variables && v in Visit(t, nodes, n).value.variables
    requires !(nodes[n].kind == VariableInitializer(v) && ParentIsDeclaration(nodes, n))
    ensures var t1 := Visit(t, nodes, n).value;
      && t1.variables[v].firstAssignment == NullExpression
      && (BoundVariable(nodes, n) != Some(v) ==> v.isParameter && (v.typeKind == ByReference ==> t1.variables[v].isReassigned))
  {
    match nodes[n].kind
    case VariableInitializer(_) =>
    case ForeachStatement(_) =>
    case CatchClause(_) =>
    case AssignmentExpression =>
    case DirectionExpression =>
    case IdentifierExpression(_, _) =>
    case _ =>
  }
}
