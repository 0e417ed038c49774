/**
 * InlineTemporaries as the object it is: a visitor whose `variables` dictionary the
 * visiting methods fill in place, and a Run method that walks the tree and then rewrites
 * it in place. The tree is an array arena of nodes (see module Ast).
 *
 * Each method is proved to leave the state, or the fault it stops with, that the
 * functions of modules Observer and Inliner describe; the properties of the pass are
 * proved about those functions.
 */
module Transform {
  import opened Ast
  import opened Observer
  import opened Inliner

  /** A method's outcome as a Result: the value it left, unless it stopped with a fault. */
  function Outcome<T>(fault: Option<Fault>, value: T): Result<T> {
    if fault.None? then Ok(value) else Err(fault.value)
  }

  // ---------------------------------------------------------------------------
  // The tree edits, in place
  // ---------------------------------------------------------------------------

  /** InlineTemporaries.ReplaceVariable (lines 77-82) on the identifier at `n`. */
  method ReplaceVariableIn(tree: array<Node>, n: NodeId, target: Variable)
    modifies tree
    requires n < tree.Length && tree[n].kind.IdentifierExpression?
    ensures tree[..] == ReplaceVariable(old(tree[..]), n, target)
  {
    tree[n] := tree[n].(kind := IdentifierExpression(target.name, Some(target)));
  }

  /** AstNode.Remove on the node at `s`. */
  method RemoveIn(tree: array<Node>, s: NodeId)
    modifies tree
    requires WellFormed(tree[..]) && s < tree.Length
    ensures tree[..] == Remove(old(tree[..]), s)
  {
    match tree[s].parent
    case None =>
    case Some(p) =>
      assert p < s by {
        assert p in ParentsOf(tree[..], s);
        var j :| 0 <= j < |tree[p].children| && tree[p].children[j] == s;
      }
      tree[p] := tree[p].(children := Without(tree[p].children, s));
      tree[s] := tree[s].(parent := None);
  }

  /** AstNode.ReplaceWith: the node at `a` is replaced by its child `b`. */
  method ReplaceWithIn(tree: array<Node>, a: NodeId, b: NodeId) returns (fault: Option<Fault>)
    modifies tree
    requires WellFormed(tree[..]) && a < tree.Length && b in tree[a].children
    ensures Outcome(fault, tree[..]) == ReplaceWith(old(tree[..]), a, b)
  {
    match tree[a].parent
    case None =>
      return Some(CannotReplaceRoot(a));
    case Some(p) =>
      assert p < a by {
        assert p in ParentsOf(tree[..], a);
        var j :| 0 <= j < |tree[p].children| && tree[p].children[j] == a;
      }
      assert a < b < tree.Length by {
        var j :| 0 <= j < |tree[a].children| && tree[a].children[j] == b;
      }
      tree[a] := tree[a].(children := Without(tree[a].children, b), parent := None);
      tree[p] := tree[p].(children := Substitute(tree[p].children, a, b));
      tree[b] := tree[b].(parent := Some(p));
      return None;
  }

  /** Lines 69-73 in place: remove the copying statement, or replace the copying assignment
      by the copied identifier at `f`. */
  method DetachIn(tree: array<Node>, f: NodeId) returns (fault: Option<Fault>)
    modifies tree
    requires WellFormed(tree[..]) && f < tree.Length
    ensures Outcome(fault, tree[..]) == Detach(old(tree[..]), f)
  {
    var assignment := tree[f].parent;
    if assignment.None? {
      return Some(DetachedAssignment(f));
    }
    var a := assignment.value;
    assert a < tree.Length && a in ParentsOf(tree[..], f);
    var statement := tree[a].parent;
    if statement.Some? {
      assert statement.value < tree.Length && statement.value in ParentsOf(tree[..], a);
    }
    if statement.Some? && Encloses(tree[statement.value].kind) {
      RemoveIn(tree, statement.value);
      fault := None;
    } else {
      fault := ReplaceWithIn(tree, a, f);
    }
  }

  /** Lines 63-73 in place: every usage is renamed to `target`, then the copying statement
      or assignment above the copied identifier `f` leaves the tree. */
  method Eliminate(tree: array<Node>, usages: seq<NodeId>, target: Variable, f: NodeId) returns (fault: Option<Fault>)
    modifies tree
    requires WellFormed(tree[..]) && f < tree.Length
    requires forall i :: 0 <= i < |usages| ==> usages[i] < tree.Length && tree[usages[i]].kind.IdentifierExpression?
    ensures Outcome(fault, tree[..]) == Detach(ReplaceAll(old(tree[..]), usages, target), f)
  {
    ghost var before := tree[..];
    var j := 0;
    while j < |usages|
      invariant j <= |usages|
      invariant forall i :: 0 <= i < |usages| ==> usages[i] < tree.Length && tree[usages[i]].kind.IdentifierExpression?
      invariant ReplaceAll(before, usages, target) == ReplaceAll(tree[..], usages[j..], target)
    {
      assert usages[j..][0] == usages[j] && usages[j..][1..] == usages[j + 1..];
      ReplaceVariableIn(tree, usages[j], target);
      j := j + 1;
    }
    assert usages[j..] == [];
    LinksEqualKeepTree(before, tree[..]);
    fault := DetachIn(tree, f);
  }

  /**
   * One iteration of Run's loop (lines 50-73) for the record of `v`. The loop only reads the
   * `variables` dictionary, so it is passed by value. `inlined` is inlinedVariables with each
   * record named by its variable; `t` (the table the records
   * belong to) and `renamed` exist for the proof.
   */
  method InlineRecord(tree: array<Node>, variables: map<Variable, VariableInfo>, v: Variable,
                      inlined: map<Variable, Variable>, ghost t: Table,
                      ghost renamed: map<Variable, Variable>)
    returns (fault: Option<Fault>, inlined': map<Variable, Variable>, ghost renamed': map<Variable, Variable>)
    modifies tree
    requires variables == t.variables && Valid(t) && v in variables
    requires StepReady(t, InlineState(tree[..], inlined, renamed), v)
    ensures Outcome(fault, InlineState(tree[..], inlined', renamed')) ==
            InlineStep(t, InlineState(old(tree[..]), inlined, renamed), v)
  {
    var info := variables[v];
    if !IsCopy(info, tree[..]) {
      return None, inlined, renamed;
    }
    var f := info.firstAssignment.node;
    var targetVariable := Annotation(tree[f]);
    if targetVariable.None? {
      return Some(UnannotatedTarget(f)), inlined, renamed;
    }
    var target := targetVariable.value;
    var targetInfo := if target in inlined then variables[inlined[target]] else variables[target];
    if targetInfo.isReassigned {
      return None, inlined, renamed;
    }
    inlined' := inlined[v := targetInfo.variable];
    renamed' := renamed[v := target];
    fault := Eliminate(tree, info.usages, target, f);
  }

  /** The loop of Run (lines 48-74) over the records in the order they were created, which
      reads the `variables` dictionary and rewrites the tree. */
  method InlineRecords(tree: array<Node>, variables: map<Variable, VariableInfo>, records: seq<Variable>,
                       ghost orig: seq<Node>, ghost t: Table)
    returns (fault: Option<Fault>)
    modifies tree
    requires t == Table(variables, records) && Valid(t) && Inv(orig, t, Start(tree[..]))
    ensures var r := InlineAll(orig, t, Start(old(tree[..])), records);
      && (fault.None? <==> r.Ok?)
      && (r.Ok? ==> tree[..] == r.value.nodes)
      && (r.Err? ==> fault == Some(r.fault))
  {
    ghost var st := Start(tree[..]);
    ghost var r := InlineAll(orig, t, st, records);
    var inlined: map<Variable, Variable> := map[];
    ghost var renamed: map<Variable, Variable>;
    var i := 0;
    while i < |records|
      invariant i <= |records| && tree[..] == st.nodes && inlined == st.inlined
      invariant Inv(orig, t, st)
      invariant r == InlineAll(orig, t, st, records[i..])
    {
      InlineAllStep(orig, t, st, records, i);
      fault, inlined, renamed := InlineRecord(tree, variables, records[i], inlined, t, st.renamedTo);
      LoopStep(orig, t, st, records, i, fault, InlineState(tree[..], inlined, renamed));
      if fault.Some? {
        return;
      }
      st := InlineState(tree[..], inlined, renamed);
      i := i + 1;
    }
    fault := None;
  }

  /** What one iteration of `InlineRecords` leaves, in terms of the loop as a function. */
  lemma LoopStep(orig: seq<Node>, t: Table, st: InlineState, records: seq<Variable>, i: nat,
                 fault: Option<Fault>, st': InlineState)
    requires Inv(orig, t, st) && i < |records| && forall k :: 0 <= k < |records| ==> records[k] in t.variables
    requires StepReady(t, st, records[i]) && Outcome(fault, st') == InlineStep(t, st, records[i])
    ensures fault.Some? ==> InlineAll(orig, t, st, records[i..]) == Err(fault.value)
    ensures fault.None? ==>
      && Inv(orig, t, st')
      && InlineAll(orig, t, st, records[i..]) == InlineAll(orig, t, st', records[i + 1..])
  {
    InlineAllStep(orig, t, st, records, i);
  }

  // ---------------------------------------------------------------------------
  // The pass object
  // ---------------------------------------------------------------------------

  class InlineTemporaries {
    /** The `variables` dictionary, and the order in which its entries were added, which is
        the order in which Run enumerates its values. */
    var variables: map<Variable, VariableInfo>
    var created: seq<Variable>

    function Records(): Table
      reads this
    {
      Table(variables, created)
    }

    constructor ()
      ensures Records() == Empty
    {
      variables := map[];
      created := [];
    }

    /** Dictionary.Add on `variables`. */
    method Add(v: Variable, first: FirstAssignment, at: NodeId) returns (fault: Option<Fault>)
      modifies this
      requires Valid(Records())
      ensures Outcome(fault, Records()) == Observer.Add(old(Records()), v, first, at)
    {
      if v in variables {
        return Some(DuplicateRecord(at));
      }
      variables := variables[v := VariableInfo(v, first, false, [])];
      created := created + [v];
      return None;
    }

    /** TryGetVariable (lines 138-161) for an identifier annotated with `v`. On success the
        record is `variables[v]`. */
    method TryGetVariable(v: Variable, at: NodeId) returns (fault: Option<Fault>)
      modifies this
      requires Valid(Records())
      ensures Outcome(fault, Records()) == Observer.TryGetVariable(old(Records()), v, at)
    {
      if v !in variables {
        if !v.isParameter {
          return Some(NotAParameter(at));
        }
        variables := variables[v := VariableInfo(v, NullExpression, v.typeKind == ByReference, [])];
        created := created + [v];
      }
      return None;
    }

    /** Lines 83-90. */
    method VisitVariableInitializer(tree: array<Node>, n: NodeId) returns (fault: Option<Fault>)
      modifies this
      requires Valid(Records()) && n < tree.Length && tree[n].kind.VariableInitializer?
      ensures Outcome(fault, Records()) == Observer.VisitVariableInitializer(old(Records()), tree[..], n)
    {
      if !ParentIsDeclaration(tree[..], n) {
        return None;
      }
      fault := Add(tree[n].kind.declared, Initializer(tree[..], n), n);
    }

    /** Lines 91-107: VisitForeachStatement and VisitCatchClause. */
    method VisitBinding(tree: array<Node>, n: NodeId) returns (fault: Option<Fault>)
      modifies this
      requires Valid(Records()) && n < tree.Length && (tree[n].kind.ForeachStatement? || tree[n].kind.CatchClause?)
      ensures Outcome(fault, Records()) == Observer.VisitBinding(old(Records()), tree[..], n)
    {
      var bound := BoundVariable(tree[..], n);
      if bound.None? {
        return None;
      }
      fault := Add(bound.value, NullExpression, n);
    }

    /** Lines 108-120. */
    method VisitAssignmentExpression(tree: array<Node>, n: NodeId) returns (fault: Option<Fault>)
      modifies this
      requires Valid(Records()) && Ordered(tree[..]) && Shaped(tree[..])
      requires n < tree.Length && tree[n].kind.AssignmentExpression?
      ensures Outcome(fault, Records()) == Observer.VisitAssignmentExpression(old(Records()), tree[..], n)
    {
      assert |tree[..][n].children| == 2;
      var left := tree[n].children[0];
      var annotation := Annotation(tree[left]);
      if annotation.None? {
        return None;
      }
      var v := annotation.value;
      fault := TryGetVariable(v, left);
      if fault.Some? {
        return;
      }
      var info := variables[v];
      if info.firstAssignment == Unassigned {
        variables := variables[v := info.(firstAssignment := Expr(tree[n].children[1]))];
      } else {
        variables := variables[v := info.(isReassigned := true)];
      }
    }

    /** Lines 122-128. */
    method VisitDirectionExpression(tree: array<Node>, n: NodeId) returns (fault: Option<Fault>)
      modifies this
      requires Valid(Records()) && Ordered(tree[..]) && Shaped(tree[..])
      requires n < tree.Length && tree[n].kind.DirectionExpression?
      ensures Outcome(fault, Records()) == Observer.VisitDirectionExpression(old(Records()), tree[..], n)
    {
      assert |tree[..][n].children| == 1;
      var operand := tree[n].children[0];
      var annotation := Annotation(tree[operand]);
      if annotation.None? {
        return None;
      }
      var v := annotation.value;
      fault := TryGetVariable(v, operand);
      if fault.Some? {
        return;
      }
      variables := variables[v := variables[v].(isReassigned := true)];
    }

    /** Lines 130-136. */
    method VisitIdentifierExpression(tree: array<Node>, n: NodeId) returns (fault: Option<Fault>)
      modifies this
      requires Valid(Records()) && n < tree.Length && tree[n].kind.IdentifierExpression?
      ensures Outcome(fault, Records()) == Observer.VisitIdentifierExpression(old(Records()), tree[..], n)
    {
      var annotation := tree[n].kind.annotation;
      if annotation.None? {
        return None;
      }
      var v := annotation.value;
      fault := TryGetVariable(v, n);
      if fault.Some? {
        return;
      }
      variables := variables[v := variables[v].(usages := variables[v].usages + [n])];
    }

    /** The visitor at one node: the override for the node's kind, or nothing. */
    method Visit(tree: array<Node>, n: NodeId) returns (fault: Option<Fault>)
      modifies this
      requires Valid(Records()) && Ordered(tree[..]) && Shaped(tree[..]) && n < tree.Length
      ensures Outcome(fault, Records()) == Observer.Visit(old(Records()), tree[..], n)
    {
      match tree[n].kind
      case VariableInitializer(_) => fault := VisitVariableInitializer(tree, n);
      case ForeachStatement(_) => fault := VisitBinding(tree, n);
      case CatchClause(_) => fault := VisitBinding(tree, n);
      case AssignmentExpression => fault := VisitAssignmentExpression(tree, n);
      case DirectionExpression => fault := VisitDirectionExpression(tree, n);
      case IdentifierExpression(_, _) => fault := VisitIdentifierExpression(tree, n);
      case _ => fault := None;
    }

    /** Line 39: the depth-first walk over the whole compilation unit. */
    method AcceptVisitor(tree: array<Node>) returns (fault: Option<Fault>)
      modifies this
      requires Records() == Empty && Ordered(tree[..]) && Shaped(tree[..]) && Root < tree.Length
      ensures Outcome(fault, Records()) == Observe(tree[..])
    {
      var order := PreOrder(tree[..], Root);
      PreOrderInArena(tree[..]);
      var i := 0;
      while i < |order|
        invariant i <= |order| && Valid(Records())
        invariant Observe(tree[..]) == ObserveAll(Records(), tree[..], order[i..])
      {
        assert order[i..][0] == order[i] && order[i..][1..] == order[i + 1..];
        fault := Visit(tree, order[i]);
        if fault.Some? {
          return;
        }
        i := i + 1;
      }
      return None;
    }

    /** InlineTemporaries.Run (lines 37-75) on a fresh pass object. */
    method Run(tree: array<Node>) returns (fault: Option<Fault>)
      modifies this, tree
      requires Records() == Empty && WellFormed(tree[..]) && Shaped(tree[..]) && Root < tree.Length
      ensures fault.None? <==> Transform(old(tree[..])).Ok?
      ensures fault.None? ==> tree[..] == Transform(old(tree[..])).value.nodes && Records() == Observe(old(tree[..])).value
      ensures fault.Some? ==> Transform(old(tree[..])).fault == fault.value
    {
      ghost var orig := tree[..];
      fault := AcceptVisitor(tree);
      if fault.Some? {
        return;
      }
      ObservedInv(orig);
      fault := InlineRecords(tree, variables, created, orig, Records());
    }
  }
}
