/**
 * The syntax tree the temporary-inlining pass reads and rewrites, as a node arena.
 *
 * Every node lives at an index of a sequence (the arena); a node names its children
 * and its parent by index. A child always has a larger index than its parent, which
 * is how a tree produced by a depth-first builder is laid out and what makes the
 * depth-first order below a terminating recursion. Removing a statement or replacing
 * an expression by one of its children only re-links indices: nodes are never created,
 * and a detached node stays in the arena without a parent.
 */
module Ast {

  datatype Option<T> = None | Some(value: T)

  /** Situations in which the pass stops: the C# code throws, or a debug assertion fails. */
  datatype Fault =
    | DuplicateRecord(node: NodeId)     // Dictionary.Add on a variable that already has a record
    | NotAParameter(node: NodeId)       // a variable first seen at an identifier is not a parameter
    | UnannotatedTarget(node: NodeId)   // the copied identifier carries no variable
    | DetachedAssignment(node: NodeId)  // the copied identifier has no parent assignment
    | CannotReplaceRoot(node: NodeId)   // ReplaceWith on a node that has no parent

  datatype Result<T> = Ok(value: T) | Err(fault: Fault)

  /** What the pass needs to know of a variable's type (the Cecil type tests). */
  datatype TypeKind =
    | Primitive        // a value type that is primitive (int, bool, ...)
    | ValueType        // a value type that is not primitive (a struct)
    | ReferenceType    // a class, interface, array, ...
    | ByReference      // a `ref` type, as a `ref` or `out` parameter has

  /** A decompiled local or parameter; `id` is its identity, the rest is its metadata. */
  datatype Variable = Variable(id: nat, name: string, typeKind: TypeKind, isParameter: bool)

  type NodeId = nat

  /** The root of the compilation unit is the first node of the arena. */
  const Root: NodeId := 0

  /**
   * The node shapes the pass distinguishes. Children, in order:
   * a declaration statement has its variable initializers, an expression statement its
   * expression, an initializer its initializer expression if it has one, a foreach its
   * collection and body, a catch clause its body, an assignment its left and right side,
   * a `ref`/`out` direction expression its operand. Everything else is `Other`.
   */
  datatype Kind =
    | VariableDeclarationStatement
    | ExpressionStatement
    | VariableInitializer(declared: Variable)
    | ForeachStatement(loopVariable: Variable)
    | CatchClause(caught: Option<Variable>)
    | AssignmentExpression
    | DirectionExpression
    | IdentifierExpression(identifier: string, annotation: Option<Variable>)
    | Other(isStatement: bool)

  datatype Node = Node(kind: Kind, children: seq<NodeId>, parent: Option<NodeId>)

  predicate IsStatement(k: Kind) {
    k.VariableDeclarationStatement? || k.ExpressionStatement? || k.ForeachStatement?
    || (k.Other? && k.isStatement)
  }

  /** The variable an identifier node refers to, if the node is an annotated identifier. */
  function Annotation(n: Node): Option<Variable> {
    if n.kind.IdentifierExpression? then n.kind.annotation else None
  }

  /** Every child has a larger index than its parent and lies inside the arena. */
  ghost predicate Ordered(nodes: seq<Node>) {
    forall i, j :: 0 <= i < |nodes| && 0 <= j < |nodes[i].children| ==>
      i < nodes[i].children[j] < |nodes|
  }

  /** Parent and child links agree in both directions. */
  ghost predicate Linked(nodes: seq<Node>) {
    && (forall i, j :: 0 <= i < |nodes| && 0 <= j < |nodes[i].children| && nodes[i].children[j] < |nodes| ==>
          nodes[nodes[i].children[j]].parent == Some(i))
    && (forall c :: 0 <= c < |nodes| && nodes[c].parent.Some? ==>
          nodes[c].parent.value < |nodes| && nodes[c].parent.value in ParentsOf(nodes, c))
  }

  /** The nodes that list `c` among their children. */
  ghost function ParentsOf(nodes: seq<Node>, c: NodeId): set<NodeId> {
    set i | 0 <= i < |nodes| && c in nodes[i].children
  }

  ghost predicate WellFormed(nodes: seq<Node>) {
    Ordered(nodes) && Linked(nodes)
  }

  /** The arities the visitor relies on: an assignment has a left and a right side, a
      direction expression one operand, an initializer at most one expression. */
  ghost predicate Shaped(nodes: seq<Node>) {
    forall i :: 0 <= i < |nodes| ==>
      && (nodes[i].kind.AssignmentExpression? ==> |nodes[i].children| == 2)
      && (nodes[i].kind.DirectionExpression? ==> |nodes[i].children| == 1)
      && (nodes[i].kind.VariableInitializer? ==> |nodes[i].children| <= 1)
  }

  /** Node kinds agree, except that an identifier may have been renamed and re-annotated. */
  predicate SameKind(a: Kind, b: Kind) {
    a == b || (a.IdentifierExpression? && b.IdentifierExpression?)
  }

  ghost predicate KindsKept(before: seq<Node>, after: seq<Node>) {
    |after| == |before| && forall i :: 0 <= i < |before| ==> SameKind(before[i].kind, after[i].kind)
  }

  lemma KindsKeptTransitive(a: seq<Node>, b: seq<Node>, c: seq<Node>)
    requires KindsKept(a, b) && KindsKept(b, c)
    ensures KindsKept(a, c)
  {
    forall i | 0 <= i < |a| ensures SameKind(a[i].kind, c[i].kind) {
      assert SameKind(a[i].kind, b[i].kind) && SameKind(b[i].kind, c[i].kind);
    }
  }

  /** Only links changed: every node keeps its kind exactly. */
  ghost predicate KindsEqual(before: seq<Node>, after: seq<Node>) {
    |after| == |before| && forall i :: 0 <= i < |before| ==> after[i].kind == before[i].kind
  }

  /** Only kinds changed: every node keeps its children and its parent. */
  ghost predicate LinksEqual(before: seq<Node>, after: seq<Node>) {
    |after| == |before| &&
    forall i :: 0 <= i < |before| ==> after[i].children == before[i].children && after[i].parent == before[i].parent
  }

  // ---------------------------------------------------------------------------
  // Depth-first order
  // ---------------------------------------------------------------------------

  /** The nodes of the subtree at `n` in depth-first pre-order: a node, then the subtrees
      of its children from first to last. This is the order of a depth-first visitor. */
  function PreOrder(nodes: seq<Node>, n: NodeId): (r: seq<NodeId>)
    requires Ordered(nodes) && n < |nodes|
    ensures |r| > 0 && r[0] == n
    ensures forall m :: m in r ==> n <= m < |nodes|
    decreases |nodes| - n, 1
  {
    [n] + Forest(nodes, nodes[n].children, n)
  }

  /** The pre-orders of the subtrees at `cs`, one after another; `above` is their parent. */
  function Forest(nodes: seq<Node>, cs: seq<NodeId>, above: NodeId): (r: seq<NodeId>)
    requires Ordered(nodes) && above < |nodes|
    requires forall i :: 0 <= i < |cs| ==> above < cs[i] < |nodes|
    ensures forall m :: m in r ==> above < m < |nodes|
    decreases |nodes| - above, 0, |cs|
  {
    if cs == [] then [] else PreOrder(nodes, cs[0]) + Forest(nodes, cs[1..], above)
  }

  lemma {:induction false} ForestContainsSubtrees(nodes: seq<Node>, cs: seq<NodeId>, above: NodeId, c: NodeId)
    requires Ordered(nodes) && above < |nodes|
    requires forall i :: 0 <= i < |cs| ==> above < cs[i] < |nodes|
    requires c in cs
    ensures forall m :: m in PreOrder(nodes, c) ==> m in Forest(nodes, cs, above)
    decreases |cs|
  {
    if cs[0] != c {
      ForestContainsSubtrees(nodes, cs[1..], above, c);
    }
  }

  /** The children of a node belong to its subtree. */
  lemma ChildrenInPreOrder(nodes: seq<Node>, p: NodeId)
    requires Ordered(nodes) && p < |nodes|
    ensures forall c :: c in nodes[p].children ==> c in PreOrder(nodes, p)
  {
    forall c | c in nodes[p].children
      ensures c in PreOrder(nodes, p)
    {
      ForestContainsSubtrees(nodes, nodes[p].children, p, c);
    }
  }

  /** A subtree's pre-order is contained in the pre-order of every subtree holding its root. */
  lemma {:induction false} PreOrderClosed(nodes: seq<Node>, n: NodeId, m: NodeId)
    requires Ordered(nodes) && n < |nodes| && m in PreOrder(nodes, n)
    ensures m < |nodes| && forall k :: k in PreOrder(nodes, m) ==> k in PreOrder(nodes, n)
    decreases |nodes| - n, 1
  {
    if m != n {
      ForestClosed(nodes, nodes[n].children, n, m);
    }
  }

  lemma {:induction false} ForestClosed(nodes: seq<Node>, cs: seq<NodeId>, above: NodeId, m: NodeId)
    requires Ordered(nodes) && above < |nodes|
    requires forall i :: 0 <= i < |cs| ==> above < cs[i] < |nodes|
    requires m in Forest(nodes, cs, above)
    ensures m < |nodes| && forall k :: k in PreOrder(nodes, m) ==> k in Forest(nodes, cs, above)
    decreases |nodes| - above, 0, |cs|
  {
    if m in PreOrder(nodes, cs[0]) {
      PreOrderClosed(nodes, cs[0], m);
    } else {
      ForestClosed(nodes, cs[1..], above, m);
    }
  }

  /** The set of nodes reachable from `n` is closed under taking children. */
  lemma ReachableClosed(nodes: seq<Node>, n: NodeId)
    requires Ordered(nodes) && n < |nodes|
    ensures forall m, c :: m in PreOrder(nodes, n) && c in nodes[m].children ==> c in PreOrder(nodes, n)
  {
    forall m, c | m in PreOrder(nodes, n) && c in nodes[m].children
      ensures c in PreOrder(nodes, n)
    {
      PreOrderClosed(nodes, n, m);
      ChildrenInPreOrder(nodes, m);
    }
  }

  // ---------------------------------------------------------------------------
  // Shrinking a tree
  // ---------------------------------------------------------------------------

  /** Every child of a node in `after` was already in that node's subtree in `before`:
      edits only cut subtrees away or lift a descendant into its ancestor's place. */
  ghost predicate Descends(before: seq<Node>, after: seq<Node>)
    requires Ordered(before)
  {
    |after| == |before| &&
    forall p, j :: 0 <= p < |after| && 0 <= j < |after[p].children| ==>
      after[p].children[j] in PreOrder(before, p)
  }

  /** Under `Descends`, no subtree gains a node. */
  lemma {:induction false} SubtreeShrinks(before: seq<Node>, after: seq<Node>, n: NodeId)
    requires Ordered(before) && Ordered(after) && Descends(before, after) && n < |after|
    ensures forall m :: m in PreOrder(after, n) ==> m in PreOrder(before, n)
    decreases |after| - n, 1
  {
    ForestShrinks(before, after, after[n].children, n);
  }

  lemma {:induction false} ForestShrinks(before: seq<Node>, after: seq<Node>, cs: seq<NodeId>, above: NodeId)
    requires Ordered(before) && Ordered(after) && Descends(before, after) && above < |after|
    requires forall i :: 0 <= i < |cs| ==> above < cs[i] < |after| && cs[i] in PreOrder(before, above)
    ensures forall m :: m in Forest(after, cs, above) ==> m in PreOrder(before, above)
    decreases |after| - above, 0, |cs|
  {
    if cs != [] {
      var c := cs[0];
      forall j | 0 <= j < |after[c].children|
        ensures after[c].children[j] in PreOrder(before, c)
      {
      }
      SubtreeShrinks(before, after, c);
      PreOrderClosed(before, above, c);
      ForestShrinks(before, after, cs[1..], above);
    }
  }

  lemma DescendsTransitive(a: seq<Node>, b: seq<Node>, c: seq<Node>)
    requires Ordered(a) && Ordered(b) && Ordered(c)
    requires Descends(a, b) && Descends(b, c)
    ensures Descends(a, c)
  {
    forall p, j | 0 <= p < |c| && 0 <= j < |c[p].children|
      ensures c[p].children[j] in PreOrder(a, p)
    {
      SubtreeShrinks(a, b, p);
    }
  }

  lemma DescendsReflexive(nodes: seq<Node>)
    requires Ordered(nodes)
    ensures Descends(nodes, nodes)
  {
    forall p | 0 <= p < |nodes| {
      ChildrenInPreOrder(nodes, p);
    }
  }

  /** A node of the forest at `cs` lies in the subtree of one of `cs`. */
  lemma {:induction false} ForestMember(nodes: seq<Node>, cs: seq<NodeId>, above: NodeId, m: NodeId) returns (c: NodeId)
    requires Ordered(nodes) && above < |nodes|
    requires forall i :: 0 <= i < |cs| ==> above < cs[i] < |nodes|
    requires m in Forest(nodes, cs, above)
    ensures c in cs && above < c < |nodes| && m in PreOrder(nodes, c)
    decreases |cs|
  {
    if m in PreOrder(nodes, cs[0]) {
      c := cs[0];
    } else {
      c := ForestMember(nodes, cs[1..], above, m);
    }
  }

  /** `after` keeps every link of `before` that does not end inside the subtree at `x`. */
  ghost predicate KeepsLinksOutside(before: seq<Node>, after: seq<Node>, x: NodeId)
    requires Ordered(before) && x < |before|
  {
    |after| == |before| &&
    forall i, c :: 0 <= i < |before| && c in before[i].children && c !in PreOrder(before, x) ==> c in after[i].children
  }

  /** Under `KeepsLinksOutside`, a node that was below `n` is still below `n`, unless it
      lay in the subtree at `x`: an edit that cuts links only into that subtree loses
      nothing else. */
  lemma {:induction false} LostOnlyBelow(before: seq<Node>, after: seq<Node>, x: NodeId, n: NodeId, m: NodeId)
    requires Ordered(before) && Ordered(after) && x < |before| && n < |before|
    requires KeepsLinksOutside(before, after, x) && m in PreOrder(before, n)
    ensures m in PreOrder(after, n) || m in PreOrder(before, x)
    decreases |before| - n
  {
    if m != n {
      var c := ForestMember(before, before[n].children, n, m);
      if c in PreOrder(before, x) {
        PreOrderClosed(before, x, c);
      } else {
        LostOnlyBelow(before, after, x, c, m);
        if m in PreOrder(after, c) {
          assert c in after[n].children;
          ChildrenInPreOrder(after, n);
          PreOrderClosed(after, n, c);
        }
      }
    }
  }

  /** The statements reachable from the root. */
  ghost function Statements(nodes: seq<Node>): set<NodeId>
    requires Ordered(nodes) && Root < |nodes|
  {
    set m | m in PreOrder(nodes, Root) && IsStatement(nodes[m].kind)
  }

  /** Edits that keep node kinds and only shrink subtrees never add a statement. */
  lemma StatementsShrink(before: seq<Node>, after: seq<Node>)
    requires Ordered(before) && Ordered(after) && Root < |before|
    requires Descends(before, after) && KindsKept(before, after)
    ensures Statements(after) <= Statements(before)
    ensures |Statements(after)| <= |Statements(before)|
  {
    SubtreeShrinks(before, after, Root);
    assert Statements(after) <= Statements(before) by {
      forall m | m in Statements(after) ensures m in Statements(before) {
        assert SameKind(before[m].kind, after[m].kind);
      }
    }
    SubsetCardinality(Statements(after), Statements(before));
  }

  lemma SubsetCardinality(a: set<NodeId>, b: set<NodeId>)
    requires a <= b
    ensures |a| <= |b|
  {
    assert b == a + (b - a);
  }

  // ---------------------------------------------------------------------------
  // The three tree edits the pass performs
  // ---------------------------------------------------------------------------

  /** `cs` with every occurrence of `x` dropped; see `WithoutAppend` for the order. */
  function Without(cs: seq<NodeId>, x: NodeId): (r: seq<NodeId>)
    ensures forall c :: c in r <==> c in cs && c != x
    ensures multiset(r) == multiset(cs)[x := 0]
    ensures x !in cs ==> r == cs
  {
    if cs == [] then []
    else
      assert cs == [cs[0]] + cs[1..];
      (if cs[0] == x then [] else [cs[0]]) + Without(cs[1..], x)
  }

  /** Dropping works piece by piece, so the elements that stay keep their order. */
  lemma {:induction false} WithoutAppend(a: seq<NodeId>, b: seq<NodeId>, x: NodeId)
    ensures Without(a + b, x) == Without(a, x) + Without(b, x)
    decreases |a|
  {
    if a != [] {
      var head := if a[0] == x then [] else [a[0]];
      assert (a + b)[0] == a[0] && (a + b)[1..] == a[1..] + b;
      calc {
        Without(a + b, x);
        head + Without(a[1..] + b, x);
        { WithoutAppend(a[1..], b, x); }
        head + (Without(a[1..], x) + Without(b, x));
        (head + Without(a[1..], x)) + Without(b, x);
        Without(a, x) + Without(b, x);
      }
    } else {
      assert a + b == b;
    }
  }

  /** A single occurrence of `x` between `before` and `after` is cut out, and nothing else. */
  lemma WithoutOnce(before: seq<NodeId>, x: NodeId, after: seq<NodeId>)
    requires x !in before && x !in after
    ensures Without(before + [x] + after, x) == before + after
  {
    WithoutAppend(before + [x], after, x);
    WithoutAppend(before, [x], x);
  }

  /** `cs` with every occurrence of `x` replaced by `y`, position by position. */
  function Substitute(cs: seq<NodeId>, x: NodeId, y: NodeId): (r: seq<NodeId>)
    ensures |r| == |cs|
    ensures forall i :: 0 <= i < |cs| ==> r[i] == (if cs[i] == x then y else cs[i])
    ensures forall c :: c in r <==> (c in cs && c != x) || (c == y && x in cs)
  {
    if cs == [] then [] else [if cs[0] == x then y else cs[0]] + Substitute(cs[1..], x, y)
  }

  /** AstNode.Remove: a node with a parent is taken out of its parent's children and left
      without a parent; a node without a parent is left as it is. */
  function Remove(nodes: seq<Node>, s: NodeId): (r: seq<Node>)
    requires WellFormed(nodes) && s < |nodes|
    ensures WellFormed(r) && KindsEqual(nodes, r) && Descends(nodes, r)
    ensures r[s] == nodes[s].(parent := None)
    ensures nodes[s].parent.Some? ==>
      var p := nodes[s].parent.value;
      && r[p] == nodes[p].(children := Without(nodes[p].children, s))
      && s !in r[p].children
    ensures forall i :: 0 <= i < |nodes| && i != s && Some(i) != nodes[s].parent ==> r[i] == nodes[i]
    ensures KeepsLinksOutside(nodes, r, s)
  {
    match nodes[s].parent
    case None =>
      DescendsReflexive(nodes);
      nodes
    case Some(p) =>
      RemoveKeepsTree(nodes, s, p);
      Unlinked(nodes, s, p)
  }

  /** The links Remove leaves: `s` leaves the children of its parent `p` and has no parent. */
  function Unlinked(nodes: seq<Node>, s: NodeId, p: NodeId): seq<Node>
    requires s < |nodes| && p < |nodes|
  {
    nodes[p := nodes[p].(children := Without(nodes[p].children, s))][s := nodes[s].(parent := None)]
  }

  lemma RemoveKeepsTree(nodes: seq<Node>, s: NodeId, p: NodeId)
    requires WellFormed(nodes) && s < |nodes| && nodes[s].parent == Some(p)
    ensures p < s && WellFormed(Unlinked(nodes, s, p)) && Descends(nodes, Unlinked(nodes, s, p))
    ensures KeepsLinksOutside(nodes, Unlinked(nodes, s, p), s)
  {
    assert p < s && s in nodes[p].children by {
      assert p in ParentsOf(nodes, s);
      var j :| 0 <= j < |nodes[p].children| && nodes[p].children[j] == s;
    }
    ChildrenInPreOrder(nodes, p);
    RelinkKeepsTree(nodes, Unlinked(nodes, s, p), s, s, p);
    assert s in PreOrder(nodes, s);
  }

  /**
   * The common argument for both edits: in `r`, node `a` has lost its parent, node `b`
   * (possibly `a` itself) has become a child of `p`, every other link of `r` was a link of
   * `nodes`, and every link of `nodes` that does not end in `a` or `b` is still there.
   */
  lemma RelinkKeepsTree(nodes: seq<Node>, r: seq<Node>, a: NodeId, b: NodeId, p: NodeId)
    requires WellFormed(nodes) && |r| == |nodes| && p < a <= b < |nodes|
    requires a in PreOrder(nodes, p) && b in PreOrder(nodes, a)
    requires r[a].parent == None || a == b
    requires r[b].parent == (if a == b then None else Some(p))
    requires forall c :: 0 <= c < |r| && c != a && c != b ==> r[c].parent == nodes[c].parent
    requires forall i, c :: 0 <= i < |r| && c in r[i].children ==>
               (c in nodes[i].children && c != a && c != b) || (a != b && i == p && c == b)
    requires a != b ==> b in r[p].children
    requires forall i, c :: 0 <= i < |r| && c in nodes[i].children && c != a && c != b ==> c in r[i].children
    ensures WellFormed(r) && Descends(nodes, r)
  {
    forall i, j | 0 <= i < |r| && 0 <= j < |r[i].children|
      ensures i < r[i].children[j] < |r| && r[r[i].children[j]].parent == Some(i)
    {
      var c := r[i].children[j];
      assert c in r[i].children;
      if c in nodes[i].children && c != a && c != b {
        var k :| 0 <= k < |nodes[i].children| && nodes[i].children[k] == c;
      }
    }
    forall c | 0 <= c < |r| && r[c].parent.Some?
      ensures r[c].parent.value < |r| && r[c].parent.value in ParentsOf(r, c)
    {
      var q := r[c].parent.value;
      if c != b {
        assert q in ParentsOf(nodes, c);
      }
    }
    PreOrderClosed(nodes, p, a);
    PreOrderClosed(nodes, a, b);
    forall i | 0 <= i < |r|
      ensures forall c :: c in r[i].children ==> c in PreOrder(nodes, i)
    {
      ChildrenInPreOrder(nodes, i);
    }
  }

  /** AstNode.ReplaceWith(b) called on `a`, where `b` is a child of `a`: `b` is first taken
      out of `a`, then put in `a`'s place among `a`'s parent's children; `a` is left without a
      parent. A node without a parent cannot be replaced. */
  function ReplaceWith(nodes: seq<Node>, a: NodeId, b: NodeId): (r: Result<seq<Node>>)
    requires WellFormed(nodes) && a < |nodes| && b in nodes[a].children
    ensures r.Ok? <==> nodes[a].parent.Some?
    ensures r.Ok? ==> WellFormed(r.value) && KindsEqual(nodes, r.value) && Descends(nodes, r.value)
    ensures r.Ok? ==> var p := nodes[a].parent.value;
      && r.value[a] == nodes[a].(children := Without(nodes[a].children, b), parent := None)
      && r.value[p] == nodes[p].(children := Substitute(nodes[p].children, a, b))
      && r.value[b] == nodes[b].(parent := Some(p))
      && a !in r.value[p].children && b in r.value[p].children && b !in r.value[a].children
      && (forall i :: 0 <= i < |nodes| && i != a && i != b && i != p ==> r.value[i] == nodes[i])
    ensures r.Ok? ==> KeepsLinksOutside(nodes, r.value, a)
  {
    match nodes[a].parent
    case None => Err(CannotReplaceRoot(a))
    case Some(p) =>
      ReplaceBounds(nodes, a, b, p);
      ReplacedShape(nodes, a, b, p);
      ReplaceKeepsTree(nodes, a, b, p);
      Ok(Replaced(nodes, a, b, p))
  }

  /** The links ReplaceWith leaves: `b` leaves `a`'s children, `a` leaves its parent `p`, and
      `b` takes `a`'s place among `p`'s children. */
  function Replaced(nodes: seq<Node>, a: NodeId, b: NodeId, p: NodeId): seq<Node>
    requires a < |nodes| && b < |nodes| && p < |nodes|
  {
    var r1 := nodes[a := nodes[a].(children := Without(nodes[a].children, b), parent := None)];
    var r2 := r1[p := r1[p].(children := Substitute(r1[p].children, a, b))];
    r2[b := r2[b].(parent := Some(p))]
  }

  lemma ReplaceBounds(nodes: seq<Node>, a: NodeId, b: NodeId, p: NodeId)
    requires WellFormed(nodes) && a < |nodes| && b in nodes[a].children && nodes[a].parent == Some(p)
    ensures p < a < b < |nodes|
  {
    assert p in ParentsOf(nodes, a);
    var i :| 0 <= i < |nodes[p].children| && nodes[p].children[i] == a;
    var j :| 0 <= j < |nodes[a].children| && nodes[a].children[j] == b;
  }

  lemma ReplacedShape(nodes: seq<Node>, a: NodeId, b: NodeId, p: NodeId)
    requires p < a < b < |nodes|
    ensures var r := Replaced(nodes, a, b, p);
      && KindsEqual(nodes, r)
      && r[a].parent == None && r[b].parent == Some(p) && b !in r[a].children
      && (forall i :: 0 <= i < |nodes| && i != a && i != b && i != p ==> r[i] == nodes[i])
  {
  }

  lemma ReplaceKeepsTree(nodes: seq<Node>, a: NodeId, b: NodeId, p: NodeId)
    requires WellFormed(nodes) && p < a < b < |nodes| && nodes[a].parent == Some(p) && b in nodes[a].children
    ensures WellFormed(Replaced(nodes, a, b, p)) && Descends(nodes, Replaced(nodes, a, b, p))
    ensures a !in Replaced(nodes, a, b, p)[p].children && b in Replaced(nodes, a, b, p)[p].children
    ensures KeepsLinksOutside(nodes, Replaced(nodes, a, b, p), a)
  {
    assert a in nodes[p].children by { assert p in ParentsOf(nodes, a); }
    ChildrenInPreOrder(nodes, p);
    ChildrenInPreOrder(nodes, a);
    RelinkKeepsTree(nodes, Replaced(nodes, a, b, p), a, b, p);
  }

  /** InlineTemporaries.ReplaceVariable: the identifier takes the target's name and the target
      as its only variable annotation; no link of the tree changes. */
  function ReplaceVariable(nodes: seq<Node>, n: NodeId, target: Variable): (r: seq<Node>)
    requires n < |nodes| && nodes[n].kind.IdentifierExpression?
    ensures LinksEqual(nodes, r) && KindsKept(nodes, r)
    ensures r[n].kind == IdentifierExpression(target.name, Some(target))
    ensures forall i :: 0 <= i < |nodes| && i != n ==> r[i] == nodes[i]
  {
    nodes[n := nodes[n].(kind := IdentifierExpression(target.name, Some(target)))]
  }

  /** An edit that changes no link keeps the tree well formed and no subtree grows. */
  lemma LinksEqualKeepTree(nodes: seq<Node>, r: seq<Node>)
    requires LinksEqual(nodes, r)
    ensures WellFormed(nodes) ==> WellFormed(r) && Descends(nodes, r)
  {
    if WellFormed(nodes) {
      LinksEqualKeepWellFormed(nodes, r);
    }
  }

  lemma LinksEqualKeepWellFormed(nodes: seq<Node>, r: seq<Node>)
    requires WellFormed(nodes) && LinksEqual(nodes, r)
    ensures WellFormed(r) && Descends(nodes, r)
  {
    forall c | 0 <= c < |r| && r[c].parent.Some?
      ensures r[c].parent.value < |r| && r[c].parent.value in ParentsOf(r, c)
    {
      assert nodes[c].parent.value in ParentsOf(nodes, c);
    }
    forall i | 0 <= i < |r|
      ensures forall c :: c in r[i].children ==> c in PreOrder(nodes, i)
    {
      ChildrenInPreOrder(nodes, i);
    }
  }
}
