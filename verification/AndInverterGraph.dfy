/** The hash-consed and-inverter graph in which partial interpolants are built
    (cadical/contrib/craigtracer.cpp, class Aig). An edge is twice a node number plus a sign bit;
    node number zero is the constant, and node number n + 1 is entry n of the node vector. */
module AndInverterGraph {
  import opened Logic
  import opened Definitions

  type Edge = nat

  /** A variable node keeps its variable in the first field and zero in the second. */
  datatype AigNode = AigNode(edge1: nat, edge2: nat) {
    predicate IsVariable() { edge2 == 0 }
  }

  const TRUE_EDGE: Edge := 0
  const FALSE_EDGE: Edge := 1

  function Negate(e: Edge): Edge
  {
    if e % 2 == 0 then e + 1 else e - 1
  }

  predicate IsConstant(e: Edge) { e < 2 }

  predicate IsNegated(e: Edge) { e % 2 == 1 }

  /** Only the constant edges have constant clause forms. */
  function EdgeKind(e: Edge): CnfType
  {
    if e == FALSE_EDGE then Constant0 else if e == TRUE_EDGE then Constant1 else Normal
  }

  /** The variable with the sign of the edge. */
  function Signed(e: Edge, variable: int): int
  {
    if IsNegated(e) then -variable else variable
  }

  function NodeIndex(e: Edge): nat
    requires !IsConstant(e)
  {
    e / 2 - 1
  }

  /** The edge points at a node below n (or is constant). */
  predicate EdgeBelow(e: Edge, n: nat) { e < 2 * (n + 1) }

  /** Children of an AND node are strictly older, not constant, and neither equal nor complementary;
      a variable node names a proper variable. */
  predicate NodeOk(node: AigNode, i: nat)
  {
    if node.IsVariable() then node.edge1 > 0
    else
      && !IsConstant(node.edge1) && !IsConstant(node.edge2)
      && EdgeBelow(node.edge1, i) && EdgeBelow(node.edge2, i)
      && node.edge1 / 2 != node.edge2 / 2
  }

  predicate GraphOk(nodes: seq<AigNode>)
  {
    forall i :: 0 <= i < |nodes| ==> NodeOk(nodes[i], i)
  }

  /** The Boolean function of an edge. Edges that leave the graph denote false. */
  ghost predicate Eval(nodes: seq<AigNode>, e: Edge, s: Assignment)
    decreases e
  {
    if e < 2 then e == TRUE_EDGE
    else if IsNegated(e) then !Eval(nodes, e - 1, s)
    else if |nodes| <= NodeIndex(e) then false
    else
      var node := nodes[NodeIndex(e)];
      if node.IsVariable() then node.edge1 in s
      else node.edge1 < e && node.edge2 < e && Eval(nodes, node.edge1, s) && Eval(nodes, node.edge2, s)
  }

  lemma EvalNegate(nodes: seq<AigNode>, e: Edge, s: Assignment)
    ensures Eval(nodes, Negate(e), s) == !Eval(nodes, e, s)
  {
  }

  /** Growing the graph does not change the function of an existing edge. */
  lemma {:induction false} EvalPrefix(nodes: seq<AigNode>, more: seq<AigNode>, e: Edge, s: Assignment)
    requires GraphOk(nodes) && nodes <= more && EdgeBelow(e, |nodes|)
    ensures Eval(more, e, s) == Eval(nodes, e, s)
    decreases e
  {
    if e < 2 {
    } else if IsNegated(e) {
      EvalPrefix(nodes, more, e - 1, s);
    } else {
      var node := nodes[NodeIndex(e)];
      assert more[NodeIndex(e)] == node;
      assert NodeOk(node, NodeIndex(e));
      if !node.IsVariable() {
        EvalPrefix(nodes, more, node.edge1, s);
        EvalPrefix(nodes, more, node.edge2, s);
      }
    }
  }

  /** Every old edge keeps its function. */
  ghost predicate Grown(nodes: seq<AigNode>, more: seq<AigNode>)
  {
    && nodes <= more
    && forall e, s :: EdgeBelow(e, |nodes|) ==> Eval(more, e, s) == Eval(nodes, e, s)
  }

  lemma GrownPrefix(nodes: seq<AigNode>, more: seq<AigNode>)
    requires GraphOk(nodes) && nodes <= more
    ensures Grown(nodes, more)
  {
    forall e, s | EdgeBelow(e, |nodes|)
      ensures Eval(more, e, s) == Eval(nodes, e, s)
    {
      EvalPrefix(nodes, more, e, s);
    }
  }

  /** The variables the graph mentions. */
  ghost predicate Over(nodes: seq<AigNode>, vars: set<int>)
  {
    forall i :: 0 <= i < |nodes| && nodes[i].IsVariable() ==> nodes[i].edge1 in vars
  }

  /** The function of an edge depends on nothing but the variables the graph mentions. */
  lemma {:induction false} EvalSupport(nodes: seq<AigNode>, vars: set<int>, e: Edge, s: Assignment, t: Assignment)
    requires Over(nodes, vars)
    requires forall v :: v in vars ==> (v in s <==> v in t)
    ensures Eval(nodes, e, s) == Eval(nodes, e, t)
    decreases e
  {
    if e < 2 {
    } else if IsNegated(e) {
      EvalSupport(nodes, vars, e - 1, s, t);
    } else if NodeIndex(e) < |nodes| {
      var node := nodes[NodeIndex(e)];
      if !node.IsVariable() && node.edge1 < e && node.edge2 < e {
        EvalSupport(nodes, vars, node.edge1, s, t);
        EvalSupport(nodes, vars, node.edge2, s, t);
      }
    }
  }

  ghost predicate AllEval(nodes: seq<AigNode>, edges: seq<Edge>, s: Assignment)
  {
    forall i :: 0 <= i < |edges| ==> Eval(nodes, edges[i], s)
  }

  ghost predicate AnyEval(nodes: seq<AigNode>, edges: seq<Edge>, s: Assignment)
  {
    exists i :: 0 <= i < |edges| && Eval(nodes, edges[i], s)
  }

  /** The key under which an AND node is hashed: its children in increasing order. */
  function Ordered(e1: Edge, e2: Edge): (Edge, Edge)
  {
    if e1 > e2 then (e2, e1) else (e1, e2)
  }

  class Aig {
    var nodes: seq<AigNode>
    var varHashMap: map<int, Edge>
    var andHashMap: map<(Edge, Edge), Edge>

    /** Both hash maps index exactly the nodes of their kind, so no node exists twice. */
    ghost predicate Valid()
      reads this
    {
      && GraphOk(nodes)
      && (forall v :: v in varHashMap ==>
            && varHashMap[v] % 2 == 0 && 2 <= varHashMap[v] && EdgeBelow(varHashMap[v], |nodes|)
            && nodes[NodeIndex(varHashMap[v])] == AigNode(v, 0))
      && (forall p :: p in andHashMap ==>
            && andHashMap[p] % 2 == 0 && 2 <= andHashMap[p] && EdgeBelow(andHashMap[p], |nodes|)
            && var node := nodes[NodeIndex(andHashMap[p])];
               !node.IsVariable() && Ordered(node.edge1, node.edge2) == p)
      && (forall i :: 0 <= i < |nodes| ==>
            if nodes[i].IsVariable() then
              nodes[i].edge1 in varHashMap && varHashMap[nodes[i].edge1] == 2 * (i + 1)
            else
              Ordered(nodes[i].edge1, nodes[i].edge2) in andHashMap &&
              andHashMap[Ordered(nodes[i].edge1, nodes[i].edge2)] == 2 * (i + 1))
    }

    constructor ()
      ensures Valid() && nodes == []
    {
      nodes, varHashMap, andHashMap := [], map[], map[];
    }

    method CreateVar(variable: int) returns (e: Edge)
      requires Valid() && variable > 0
      modifies this
      ensures Valid() && Grown(old(nodes), nodes)
      ensures EdgeBelow(e, |nodes|)
      ensures forall s :: Eval(nodes, e, s) == (variable in s)
      ensures forall vars :: Over(old(nodes), vars) && variable in vars ==> Over(nodes, vars)
    {
      if variable in varHashMap {
        return varHashMap[variable];
      }
      nodes := nodes + [AigNode(variable, 0)];
      varHashMap := varHashMap[variable := 2 * |nodes|];
      GrownPrefix(old(nodes), nodes);
      return 2 * |nodes|;
    }

    method CreateLiteral(literal: int) returns (e: Edge)
      requires Valid() && literal != 0
      modifies this
      ensures Valid() && Grown(old(nodes), nodes)
      ensures EdgeBelow(e, |nodes|)
      ensures forall s :: Eval(nodes, e, s) == LitTrue(s, literal)
      ensures forall vars :: Over(old(nodes), vars) && Abs(literal) in vars ==> Over(nodes, vars)
    {
      var edge := CreateVar(Abs(literal));
      e := if literal < 0 then Negate(edge) else edge;
      forall s ensures Eval(nodes, e, s) == LitTrue(s, literal) { EvalNegate(nodes, edge, s); }
    }

    method CreateAnd(edge1: Edge, edge2: Edge) returns (e: Edge)
      requires Valid() && EdgeBelow(edge1, |nodes|) && EdgeBelow(edge2, |nodes|)
      modifies this
      ensures Valid() && Grown(old(nodes), nodes)
      ensures EdgeBelow(e, |nodes|)
      ensures forall s :: Eval(nodes, e, s) == (Eval(nodes, edge1, s) && Eval(nodes, edge2, s))
      ensures forall vars :: Over(old(nodes), vars) ==> Over(nodes, vars)
    {
      if edge1 == FALSE_EDGE || edge2 == FALSE_EDGE {
        return FALSE_EDGE;
      }
      if edge1 == TRUE_EDGE {
        return edge2;
      }
      if edge2 == TRUE_EDGE {
        return edge1;
      }
      if edge1 == edge2 {
        return edge1;
      }
      if edge1 == Negate(edge2) {
        forall s ensures Eval(nodes, edge1, s) == !Eval(nodes, edge2, s) { EvalNegate(nodes, edge2, s); }
        return FALSE_EDGE;
      }
      var pair := Ordered(edge1, edge2);
      if pair in andHashMap {
        return andHashMap[pair];
      }
      nodes := nodes + [AigNode(edge1, edge2)];
      andHashMap := andHashMap[pair := 2 * |nodes|];
      GrownPrefix(old(nodes), nodes);
      assert nodes[NodeIndex(2 * |nodes|)] == AigNode(edge1, edge2);
      return 2 * |nodes|;
    }

    method CreateOr(edge1: Edge, edge2: Edge) returns (e: Edge)
      requires Valid() && EdgeBelow(edge1, |nodes|) && EdgeBelow(edge2, |nodes|)
      modifies this
      ensures Valid() && Grown(old(nodes), nodes)
      ensures EdgeBelow(e, |nodes|)
      ensures forall s :: Eval(nodes, e, s) == (Eval(nodes, edge1, s) || Eval(nodes, edge2, s))
      ensures forall vars :: Over(old(nodes), vars) ==> Over(nodes, vars)
    {
      var conjunction := CreateAnd(Negate(edge1), Negate(edge2));
      e := Negate(conjunction);
      forall s ensures Eval(nodes, e, s) == (Eval(nodes, edge1, s) || Eval(nodes, edge2, s)) {
        EvalNegate(nodes, conjunction, s);
        EvalNegate(nodes, edge1, s);
        EvalNegate(nodes, edge2, s);
      }
    }

    /** One level of the tree reduction: adjacent pairs are conjoined, an odd last edge is kept. */
    method CombinePairs(edges: seq<Edge>) returns (combined: seq<Edge>)
      requires Valid() && |edges| > 1 && forall i :: 0 <= i < |edges| ==> EdgeBelow(edges[i], |nodes|)
      modifies this
      ensures Valid() && Grown(old(nodes), nodes)
      ensures 0 < |combined| < |edges|
      ensures forall i :: 0 <= i < |combined| ==> EdgeBelow(combined[i], |nodes|)
      ensures forall s :: AllEval(nodes, combined, s) <==> AllEval(old(nodes), edges, s)
      ensures forall vars :: Over(old(nodes), vars) ==> Over(nodes, vars)
    {
      combined := [];
      var index := 0;
      while index + 1 < |edges|
        invariant 0 <= index <= |edges| && index % 2 == 0 && |combined| == index / 2
        invariant Valid() && Grown(old(nodes), nodes)
        invariant forall i :: 0 <= i < |combined| ==> EdgeBelow(combined[i], |nodes|)
        invariant forall s :: AllEval(nodes, combined, s) <==> AllEval(old(nodes), edges[..index], s)
        invariant forall vars :: Over(old(nodes), vars) ==> Over(nodes, vars)
      {
        ghost var before := nodes;
        var e := CreateAnd(edges[index], edges[index + 1]);
        PairStep(old(nodes), before, nodes, edges, index, combined, e);
        combined := combined + [e];
        index := index + 2;
      }
      if |edges| % 2 == 1 {
        OddStep(old(nodes), nodes, edges, combined);
        combined := combined + [edges[|edges| - 1]];
      } else {
        assert edges[..index] == edges;
      }
    }

    /** Conjunction of any number of edges by tree reduction. */
    method CreateAndAll(edges: seq<Edge>) returns (e: Edge)
      requires Valid() && forall i :: 0 <= i < |edges| ==> EdgeBelow(edges[i], |nodes|)
      modifies this
      ensures Valid() && Grown(old(nodes), nodes)
      ensures EdgeBelow(e, |nodes|)
      ensures forall s :: Eval(nodes, e, s) <==> AllEval(old(nodes), edges, s)
      ensures forall vars :: Over(old(nodes), vars) ==> Over(nodes, vars)
    {
      if |edges| == 0 {
        return TRUE_EDGE;
      }
      var current := edges;
      while |current| > 1
        invariant Valid() && Grown(old(nodes), nodes)
        invariant |current| > 0
        invariant forall i :: 0 <= i < |current| ==> EdgeBelow(current[i], |nodes|)
        invariant forall s :: AllEval(nodes, current, s) <==> AllEval(old(nodes), edges, s)
        invariant forall vars :: Over(old(nodes), vars) ==> Over(nodes, vars)
        decreases |current|
      {
        ghost var before := nodes;
        current := CombinePairs(current);
        GrownTransitive(old(nodes), before, nodes);
      }
      e := current[0];
      forall s ensures Eval(nodes, e, s) <==> AllEval(nodes, current, s) {
      }
    }

    /** Disjunction of any number of edges, through the negated conjunction of the negated edges. */
    method CreateOrAll(edges: seq<Edge>) returns (e: Edge)
      requires Valid() && forall i :: 0 <= i < |edges| ==> EdgeBelow(edges[i], |nodes|)
      modifies this
      ensures Valid() && Grown(old(nodes), nodes)
      ensures EdgeBelow(e, |nodes|)
      ensures forall s :: Eval(nodes, e, s) <==> AnyEval(old(nodes), edges, s)
      ensures forall vars :: Over(old(nodes), vars) ==> Over(nodes, vars)
    {
      var negated := seq(|edges|, i requires 0 <= i < |edges| => Negate(edges[i]));
      var conjunction := CreateAndAll(negated);
      e := Negate(conjunction);
      forall s
        ensures Eval(nodes, e, s) <==> AnyEval(old(nodes), edges, s)
      {
        EvalNegate(nodes, conjunction, s);
        forall i | 0 <= i < |edges|
          ensures Eval(old(nodes), negated[i], s) == !Eval(old(nodes), edges[i], s)
        {
          EvalNegate(old(nodes), edges[i], s);
        }
      }
    }

    /** Tseitin transformation of the cone of root. Fresh variables are numbered from nextFree on. */
    method CreateCnf(root: Edge, nextFree: int, ghost base: int)
      returns (kind: CnfType, cnf: seq<Clause>, next: int, ghost meaning: Meaning)
      requires Valid() && EdgeBelow(root, |nodes|)
      requires 0 < base <= nextFree && forall i :: 0 <= i < |nodes| && nodes[i].IsVariable() ==> nodes[i].edge1 < base
      ensures nextFree <= next && (kind != Normal ==> next == nextFree) && kind == EdgeKind(root)
      ensures Represents(kind, cnf, base, nextFree, next, meaning, EdgeFunction(nodes, root))
      ensures forall vars :: Over(nodes, vars) ==> CnfOver(cnf, vars, nextFree, next)
    {
      next, cnf := nextFree, [];
      meaning := (v, s) => false;
      DependsBelow(nodes, root, base);
      if IsConstant(root) {
        if root == FALSE_EDGE {
          cnf := cnf + [[]];
          return Constant0, cnf, next, meaning;
        }
        return Constant1, cnf, next, meaning;
      }
      var rootNode := nodes[NodeIndex(root)];
      assert NodeOk(rootNode, NodeIndex(root));
      if rootNode.IsVariable() {
        var rootLiteral := Signed(root, rootNode.edge1);
        cnf := cnf + [[rootLiteral]];
        LiteralCnf(nodes, root, base, nextFree, meaning);
        return Normal, cnf, next, meaning;
      }

      var nodeToVar := IndexVariables();
      ghost var nodeOf;
      nodeToVar, cnf, next, nodeOf := NumberCone(NodeIndex(root), nodeToVar, nextFree);
      meaning := NodeMeaning(nodes, nodeOf);
      var rootLit := Signed(root, nodeToVar[NodeIndex(root)]);
      FinishCnf(nodes, nodeToVar, nodeOf, base, nextFree, next, cnf, root);
      cnf := cnf + [[rootLit]];
      kind := Normal;
    }

    /** The index of pre-existing variables: every variable node mapped to its variable. */
    method IndexVariables() returns (nodeToVar: map<nat, int>)
      ensures forall i :: i in nodeToVar <==> 0 <= i < |nodes| && nodes[i].IsVariable()
      ensures forall i :: i in nodeToVar ==> nodeToVar[i] == nodes[i].edge1
    {
      nodeToVar := map[];
      var nodeIndex := 0;
      while nodeIndex < |nodes|
        invariant 0 <= nodeIndex <= |nodes|
        invariant forall i :: i in nodeToVar <==> 0 <= i < nodeIndex && nodes[i].IsVariable()
        invariant forall i :: i in nodeToVar ==> nodeToVar[i] == nodes[i].edge1
      {
        if nodes[nodeIndex].IsVariable() {
          nodeToVar := nodeToVar[nodeIndex := nodes[nodeIndex].edge1];
        }
        nodeIndex := nodeIndex + 1;
      }
    }

    /** The worklist of the transformation: both children of a node are numbered before the node is. */
    method NumberCone(root: nat, index: map<nat, int>, nextFree: int)
      returns (nodeToVar: map<nat, int>, cnf: seq<Clause>, next: int, ghost nodeOf: map<int, nat>)
      requires GraphOk(nodes) && root < |nodes| && 0 < nextFree
      requires forall i :: i in index <==> 0 <= i < |nodes| && nodes[i].IsVariable()
      requires forall i :: i in index ==> index[i] == nodes[i].edge1
      ensures nextFree <= next && root in nodeToVar
      ensures DefinesCone(nodes, nodeToVar, nodeOf, nextFree, next, cnf)
    {
      nodeToVar, cnf, next, nodeOf := index, [], nextFree, map[];
      NothingNumbered(nodes, index, nextFree);
      hide DefinesCone, Unnumbered, NumberedIn, Signed, GraphOk, IsConstant;
      var pending: seq<nat> := [root];
      while pending != []
        invariant Worklist(pending, |nodes|, root, nodeToVar)
        invariant nextFree <= next
        invariant DefinesCone(nodes, nodeToVar, nodeOf, nextFree, next, cnf)
        decreases |Unnumbered(nodes, nodeToVar)|, |NumberedIn(pending, nodeToVar)|,
                  if pending == [] then 0 else pending[|pending| - 1]
      {
        var top := pending[|pending| - 1];
        if top in nodeToVar {
          PopNumbered(pending, |nodes|, root, nodeToVar);
          pending := pending[..|pending| - 1];
          continue;
        }
        var node := nodes[top];
        UnnumberedNode(nodes, nodeToVar, nodeOf, nextFree, next, cnf, top);
        var node1, node2 := NodeIndex(node.edge1), NodeIndex(node.edge2);
        if node1 !in nodeToVar {
          PushUnnumbered(pending, node1, |nodes|, root, nodeToVar);
          pending := pending + [node1];
        } else if node2 !in nodeToVar {
          PushUnnumbered(pending, node2, |nodes|, root, nodeToVar);
          pending := pending + [node2];
        } else {
          var tseitinVar := next;
          var lit1 := Signed(node.edge1, nodeToVar[node1]);
          var lit2 := Signed(node.edge2, nodeToVar[node2]);
          NumberNode(nodes, nodeToVar, nodeOf, nextFree, next, cnf, top, lit1, lit2);
          nodeToVar := nodeToVar[top := tseitinVar];
          PopNumbered(pending, |nodes|, root, nodeToVar);
          pending := pending[..|pending| - 1];
          nodeOf := nodeOf[tseitinVar := top];
          next := next + 1;
          cnf := cnf + [[-tseitinVar, lit1]] + [[-tseitinVar, lit2]] + [[tseitinVar, -lit1, -lit2]];
        }
      }
    }
  }

  /** Variables at the leaves of the graph all lie below n, so no edge depends on anything above. */
  lemma DependsBelow(nodes: seq<AigNode>, e: Edge, n: int)
    requires GraphOk(nodes) && forall i :: 0 <= i < |nodes| && nodes[i].IsVariable() ==> nodes[i].edge1 < n
    ensures forall s, t :: AgreeBelow(s, t, n) ==> Eval(nodes, e, s) == Eval(nodes, e, t)
  {
    var vars := set i | 0 <= i < |nodes| && nodes[i].IsVariable() :: nodes[i].edge1 as int;
    assert forall i :: 0 <= i < |nodes| ==> NodeOk(nodes[i], i);
    assert Over(nodes, vars);
    forall s, t | AgreeBelow(s, t, n)
      ensures Eval(nodes, e, s) == Eval(nodes, e, t)
    {
      EvalSupport(nodes, vars, e, s, t);
    }
  }

  lemma LiteralCnf(nodes: seq<AigNode>, root: Edge, base: int, nextFree: int, meaning: Meaning)
    requires GraphOk(nodes) && 2 <= root && EdgeBelow(root, |nodes|) && nodes[NodeIndex(root)].IsVariable()
    requires 0 < base <= nextFree && forall i :: 0 <= i < |nodes| && nodes[i].IsVariable() ==> nodes[i].edge1 < base
    ensures var lit := Signed(root, nodes[NodeIndex(root)].edge1);
            Represents(Normal, [[lit]], base, nextFree, nextFree, meaning, EdgeFunction(nodes, root))
  {
    DependsBelow(nodes, root, base);
    var lit := Signed(root, nodes[NodeIndex(root)].edge1);
    assert NodeOk(nodes[NodeIndex(root)], NodeIndex(root));
    assert [[lit]][..1 - 1] == [];
    assert forall s :: LitTrue(s, lit) <==> Eval(nodes, root, s);
  }

  /** The Boolean function of an edge as a value. */
  ghost function EdgeFunction(nodes: seq<AigNode>, e: Edge): Assignment -> bool
  {
    s => Eval(nodes, e, s)
  }

  ghost function NodeEdge(i: nat): Edge { 2 * (i + 1) }

  /** Variable nodes keep their own variable; numbered AND nodes and fresh variables correspond one to one. */
  ghost predicate Numbering(nodes: seq<AigNode>, nodeToVar: map<nat, int>, nodeOf: map<int, nat>, base: int, next: int)
  {
    && (forall i :: 0 <= i < |nodes| && nodes[i].IsVariable() ==> i in nodeToVar && nodeToVar[i] == nodes[i].edge1)
    && (forall i :: i in nodeToVar ==> i < |nodes|)
    && (forall i :: i in nodeToVar && !nodes[i].IsVariable() ==>
          base <= nodeToVar[i] < next && nodeToVar[i] in nodeOf && nodeOf[nodeToVar[i]] == i)
    && (forall v :: v in nodeOf <==> base <= v < next)
    && (forall v :: v in nodeOf ==>
          nodeOf[v] in nodeToVar && !nodes[nodeOf[v]].IsVariable() && nodeToVar[nodeOf[v]] == v)
  }

  /** The clauses emitted so far say exactly that every fresh variable has the value of its node. */
  ghost predicate DefinesCone(nodes: seq<AigNode>, nodeToVar: map<nat, int>, nodeOf: map<int, nat>, base: int,
                              next: int, cnf: seq<Clause>)
  {
    && Numbering(nodes, nodeToVar, nodeOf, base, next)
    && (forall s :: CnfTrue(s, cnf) <==> Follows(s, base, next, NodeMeaning(nodes, nodeOf)))
    && (forall vars :: Over(nodes, vars) ==> CnfOver(cnf, vars, base, next))
  }

  lemma NothingNumbered(nodes: seq<AigNode>, index: map<nat, int>, base: int)
    requires forall i :: i in index <==> 0 <= i < |nodes| && nodes[i].IsVariable()
    requires forall i :: i in index ==> index[i] == nodes[i].edge1
    ensures DefinesCone(nodes, index, map[], base, base, [])
  {
  }

  /** The worklist descends from the root to ever older nodes; once it is empty the root is numbered. */
  predicate Worklist(pending: seq<nat>, n: nat, root: nat, nodeToVar: map<nat, int>)
  {
    && (forall k :: 0 <= k < |pending| ==> pending[k] < n)
    && (forall k, l :: 0 <= k < l < |pending| ==> pending[l] < pending[k])
    && if pending == [] then root in nodeToVar else pending[0] == root
  }

  /** A fresh variable means the function of the node it numbers. */
  ghost function NodeMeaning(nodes: seq<AigNode>, nodeOf: map<int, nat>): Meaning
  {
    (v: int, s: Assignment) => v in nodeOf && Eval(nodes, NodeEdge(nodeOf[v]), s)
  }

  ghost function Unnumbered(nodes: seq<AigNode>, nodeToVar: map<nat, int>): set<nat>
  {
    set i: nat | i < |nodes| && i !in nodeToVar
  }

  ghost function NumberedIn(pending: seq<nat>, nodeToVar: map<nat, int>): set<nat>
  {
    set p | p in pending && p in nodeToVar
  }

  lemma PopNumbered(pending: seq<nat>, n: nat, root: nat, nodeToVar: map<nat, int>)
    requires pending != [] && pending[|pending| - 1] in nodeToVar
    requires Worklist(pending, n, root, nodeToVar)
    ensures Worklist(pending[..|pending| - 1], n, root, nodeToVar)
    ensures |NumberedIn(pending[..|pending| - 1], nodeToVar)| < |NumberedIn(pending, nodeToVar)|
  {
    var top := pending[|pending| - 1];
    var all, rest := NumberedIn(pending, nodeToVar), NumberedIn(pending[..|pending| - 1], nodeToVar);
    assert top in all && top !in rest;
    assert rest == all - {top};
  }

  lemma PushUnnumbered(pending: seq<nat>, i: nat, n: nat, root: nat, nodeToVar: map<nat, int>)
    requires i !in nodeToVar && pending != [] && i < pending[|pending| - 1]
    requires Worklist(pending, n, root, nodeToVar)
    ensures Worklist(pending + [i], n, root, nodeToVar)
    ensures NumberedIn(pending + [i], nodeToVar) == NumberedIn(pending, nodeToVar)
  {
    assert forall p :: p in pending + [i] <==> p in pending || p == i;
  }

  /** Under an assignment that follows the definitions, the literal of an edge has the edge's value. */
  lemma EdgeLiteral(nodes: seq<AigNode>, nodeToVar: map<nat, int>, nodeOf: map<int, nat>, base: int, next: int,
                    e: Edge, s: Assignment)
    requires GraphOk(nodes) && 0 < base && Numbering(nodes, nodeToVar, nodeOf, base, next)
    requires 2 <= e && NodeIndex(e) in nodeToVar
    requires Follows(s, base, next, NodeMeaning(nodes, nodeOf))
    ensures nodeToVar[NodeIndex(e)] > 0
    ensures LitTrue(s, Signed(e, nodeToVar[NodeIndex(e)])) == Eval(nodes, e, s)
  {
    var i := NodeIndex(e);
    var v := nodeToVar[i];
    assert NodeOk(nodes[i], i);
    assert Eval(nodes, e, s) == if IsNegated(e) then !Eval(nodes, NodeEdge(i), s) else Eval(nodes, NodeEdge(i), s);
    if nodes[i].IsVariable() {
      assert v == nodes[i].edge1;
    } else {
      assert v in s <==> NodeMeaning(nodes, nodeOf)(v, s);
    }
    assert v in s <==> Eval(nodes, NodeEdge(i), s);
  }

  lemma AndClauses(s: Assignment, v: int, l1: int, l2: int)
    requires v > 0 && l1 != 0 && l2 != 0
    ensures CnfTrue(s, [[-v, l1]] + [[-v, l2]] + [[v, -l1, -l2]]) <==>
            (v in s <==> LitTrue(s, l1) && LitTrue(s, l2))
  {
    var f := [[-v, l1]] + [[-v, l2]] + [[v, -l1, -l2]];
    assert f[0] == [-v, l1] && f[1] == [-v, l2] && f[2] == [v, -l1, -l2];
    LitNegation(s, l1);
    LitNegation(s, l2);
    LitNegation(s, v);
    BinaryTrue(s, -v, l1);
    BinaryTrue(s, -v, l2);
    TernaryTrue(s, v, -l1, -l2);
    assert f[0] in f && f[1] in f && f[2] in f;
  }

  lemma BinaryTrue(s: Assignment, a: int, b: int)
    ensures ClauseTrue(s, [a, b]) <==> LitTrue(s, a) || LitTrue(s, b)
  {
    assert a in [a, b] && b in [a, b];
  }

  lemma TernaryTrue(s: Assignment, a: int, b: int, c: int)
    ensures ClauseTrue(s, [a, b, c]) <==> LitTrue(s, a) || LitTrue(s, b) || LitTrue(s, c)
  {
    assert a in [a, b, c] && b in [a, b, c] && c in [a, b, c];
  }

  lemma ExtendNumbering(nodes: seq<AigNode>, nodeToVar: map<nat, int>, nodeOf: map<int, nat>, base: int, next: int,
                        top: nat)
    requires 0 < base <= next && Numbering(nodes, nodeToVar, nodeOf, base, next)
    requires top < |nodes| && top !in nodeToVar && !nodes[top].IsVariable()
    ensures Numbering(nodes, nodeToVar[top := next], nodeOf[next := top], base, next + 1)
  {
  }

  ghost function AndDefinition(v: int, l1: int, l2: int): seq<Clause>
  {
    [[-v, l1]] + [[-v, l2]] + [[v, -l1, -l2]]
  }

  /** Adding the three clauses of an AND node whose children are numbered defines one more variable. */
  lemma DefineNode(nodes: seq<AigNode>, nodeToVar: map<nat, int>, nodeOf: map<int, nat>, base: int, next: int,
                   cnf: seq<Clause>, top: nat, lit1: int, lit2: int, s: Assignment)
    requires GraphOk(nodes) && 0 < base <= next && Numbering(nodes, nodeToVar, nodeOf, base, next)
    requires top < |nodes| && !nodes[top].IsVariable()
    requires NodeIndex(nodes[top].edge1) in nodeToVar && NodeIndex(nodes[top].edge2) in nodeToVar
    requires lit1 == Signed(nodes[top].edge1, nodeToVar[NodeIndex(nodes[top].edge1)])
    requires lit2 == Signed(nodes[top].edge2, nodeToVar[NodeIndex(nodes[top].edge2)])
    requires CnfTrue(s, cnf) <==> Follows(s, base, next, NodeMeaning(nodes, nodeOf))
    ensures CnfTrue(s, cnf + AndDefinition(next, lit1, lit2)) <==>
            Follows(s, base, next + 1, NodeMeaning(nodes, nodeOf[next := top]))
  {
    CnfTrueConcat(s, cnf, AndDefinition(next, lit1, lit2));
    FollowsStep(nodes, nodeOf, base, next, top, s);
    if CnfTrue(s, cnf) {
      EdgeLiteral(nodes, nodeToVar, nodeOf, base, next, nodes[top].edge1, s);
      EdgeLiteral(nodes, nodeToVar, nodeOf, base, next, nodes[top].edge2, s);
      AndClauses(s, next, lit1, lit2);
      assert NodeOk(nodes[top], top);
      assert Eval(nodes, NodeEdge(top), s) <==> LitTrue(s, lit1) && LitTrue(s, lit2);
    }
  }

  lemma NodeClausesOver(cnf: seq<Clause>, base: int, next: int, l1: int, l2: int, vars: set<int>)
    requires 0 < base <= next && CnfOver(cnf, vars, base, next)
    requires Abs(l1) in vars || base <= Abs(l1) < next
    requires Abs(l2) in vars || base <= Abs(l2) < next
    ensures CnfOver(cnf + AndDefinition(next, l1, l2), vars, base, next + 1)
  {
    assert Abs(l1) == Abs(-l1) && Abs(l2) == Abs(-l2) && Abs(-next) == next;
    forall c, l | c in cnf + AndDefinition(next, l1, l2) && l in c
      ensures Abs(l) in vars || base <= Abs(l) < next + 1
    {
      if c !in cnf {
        assert c == [-next, l1] || c == [-next, l2] || c == [next, -l1, -l2];
      }
    }
  }

  lemma NumberNode(nodes: seq<AigNode>, nodeToVar: map<nat, int>, nodeOf: map<int, nat>, base: int, next: int,
                   cnf: seq<Clause>, top: nat, lit1: int, lit2: int)
    requires GraphOk(nodes) && 0 < base <= next && DefinesCone(nodes, nodeToVar, nodeOf, base, next, cnf)
    requires top < |nodes| && top !in nodeToVar && !nodes[top].IsVariable()
    requires NodeIndex(nodes[top].edge1) in nodeToVar && NodeIndex(nodes[top].edge2) in nodeToVar
    requires lit1 == Signed(nodes[top].edge1, nodeToVar[NodeIndex(nodes[top].edge1)])
    requires lit2 == Signed(nodes[top].edge2, nodeToVar[NodeIndex(nodes[top].edge2)])
    ensures DefinesCone(nodes, nodeToVar[top := next], nodeOf[next := top], base, next + 1,
                        cnf + [[-next, lit1]] + [[-next, lit2]] + [[next, -lit1, -lit2]])
    ensures |Unnumbered(nodes, nodeToVar[top := next])| < |Unnumbered(nodes, nodeToVar)|
  {
    ExtendNumbering(nodes, nodeToVar, nodeOf, base, next, top);
    var more := AndDefinition(next, lit1, lit2);
    assert cnf + [[-next, lit1]] + [[-next, lit2]] + [[next, -lit1, -lit2]] == cnf + more;
    forall s
      ensures CnfTrue(s, cnf + more) <==> Follows(s, base, next + 1, NodeMeaning(nodes, nodeOf[next := top]))
    {
      DefineNode(nodes, nodeToVar, nodeOf, base, next, cnf, top, lit1, lit2, s);
    }
    forall vars | Over(nodes, vars)
      ensures CnfOver(cnf + more, vars, base, next + 1)
    {
      NumberedLiteral(nodes, nodeToVar, nodeOf, base, next, NodeIndex(nodes[top].edge1), vars);
      NumberedLiteral(nodes, nodeToVar, nodeOf, base, next, NodeIndex(nodes[top].edge2), vars);
      NodeClausesOver(cnf, base, next, lit1, lit2, vars);
    }
    assert Unnumbered(nodes, nodeToVar[top := next]) == Unnumbered(nodes, nodeToVar) - {top};
    assert top in Unnumbered(nodes, nodeToVar);
  }

  /** A node without number is a conjunction of older nodes. */
  lemma UnnumberedNode(nodes: seq<AigNode>, nodeToVar: map<nat, int>, nodeOf: map<int, nat>, base: int, next: int,
                       cnf: seq<Clause>, top: nat)
    requires GraphOk(nodes) && DefinesCone(nodes, nodeToVar, nodeOf, base, next, cnf) && top < |nodes| && top !in nodeToVar
    ensures !nodes[top].IsVariable() && 0 <= NodeIndex(nodes[top].edge1) < top && 0 <= NodeIndex(nodes[top].edge2) < top
  {
    assert NodeOk(nodes[top], top);
  }

  lemma NumberedLiteral(nodes: seq<AigNode>, nodeToVar: map<nat, int>, nodeOf: map<int, nat>, base: int, next: int,
                        i: nat, vars: set<int>)
    requires GraphOk(nodes) && Numbering(nodes, nodeToVar, nodeOf, base, next) && i in nodeToVar && Over(nodes, vars)
    ensures nodeToVar[i] in vars || base <= nodeToVar[i] < next
    ensures 0 < base ==> nodeToVar[i] > 0
  {
    assert NodeOk(nodes[i], i);
  }

  lemma FollowsStep(nodes: seq<AigNode>, nodeOf: map<int, nat>, base: int, next: int, top: nat, s: Assignment)
    requires base <= next && forall v :: v in nodeOf <==> base <= v < next
    ensures Follows(s, base, next + 1, NodeMeaning(nodes, nodeOf[next := top])) <==>
            Follows(s, base, next, NodeMeaning(nodes, nodeOf)) && (next in s <==> Eval(nodes, NodeEdge(top), s))
  {
    var m, m' := NodeMeaning(nodes, nodeOf), NodeMeaning(nodes, nodeOf[next := top]);
    assert m'(next, s) == Eval(nodes, NodeEdge(top), s);
    forall v | base <= v < next ensures m(v, s) == m'(v, s) {}
    if Follows(s, base, next + 1, m') {
      forall v | base <= v < next ensures v in s <==> m(v, s) { assert m(v, s) == m'(v, s); }
    }
    if Follows(s, base, next, m) && (next in s <==> Eval(nodes, NodeEdge(top), s)) {
      forall v | base <= v < next + 1 ensures v in s <==> m'(v, s) {
        if v < next { assert m(v, s) == m'(v, s); }
      }
    }
  }

  lemma FinishCnf(nodes: seq<AigNode>, nodeToVar: map<nat, int>, nodeOf: map<int, nat>, base: int, first: int, next: int,
                  cnf: seq<Clause>, root: Edge)
    requires GraphOk(nodes) && 0 < base <= first <= next && DefinesCone(nodes, nodeToVar, nodeOf, first, next, cnf)
    requires forall i :: 0 <= i < |nodes| && nodes[i].IsVariable() ==> nodes[i].edge1 < base
    requires 2 <= root && NodeIndex(root) in nodeToVar
    ensures var lit := Signed(root, nodeToVar[NodeIndex(root)]);
            && Represents(Normal, cnf + [[lit]], base, first, next, NodeMeaning(nodes, nodeOf), EdgeFunction(nodes, root))
            && (forall vars :: Over(nodes, vars) ==> CnfOver(cnf + [[lit]], vars, first, next))
  {
    var lit := Signed(root, nodeToVar[NodeIndex(root)]);
    var m := NodeMeaning(nodes, nodeOf);
    var f := EdgeFunction(nodes, root);
    var all := cnf + [[lit]];
    assert all[..|all| - 1] == cnf && all[|all| - 1] == [lit];
    DependsBelow(nodes, root, base);
    forall v, s, t | first <= v < next && AgreeBelow(s, t, base)
      ensures m(v, s) == m(v, t)
    {
      DependsBelow(nodes, NodeEdge(nodeOf[v]), base);
    }
    assert lit != 0 by { EdgeLiteral(nodes, nodeToVar, nodeOf, first, next, root, Complete(iset{}, first, next, m)); }
    forall s | Follows(s, first, next, m)
      ensures LitTrue(s, lit) <==> f(s)
    {
      EdgeLiteral(nodes, nodeToVar, nodeOf, first, next, root, s);
    }
    forall vars | Over(nodes, vars)
      ensures CnfOver(all, vars, first, next)
    {
      NumberedLiteral(nodes, nodeToVar, nodeOf, first, next, NodeIndex(root), vars);
    }
  }

  lemma GrownTransitive(a: seq<AigNode>, b: seq<AigNode>, c: seq<AigNode>)
    requires Grown(a, b) && Grown(b, c)
    ensures Grown(a, c)
  {
    forall e, s | EdgeBelow(e, |a|)
      ensures Eval(c, e, s) == Eval(a, e, s)
    {
      assert Eval(c, e, s) == Eval(b, e, s);
    }
  }

  lemma PairStep(start: seq<AigNode>, before: seq<AigNode>, after: seq<AigNode>, edges: seq<Edge>, index: nat,
                 combined: seq<Edge>, e: Edge)
    requires Grown(start, before) && Grown(before, after) && index + 1 < |edges|
    requires forall i :: 0 <= i < |edges| ==> EdgeBelow(edges[i], |start|)
    requires forall i :: 0 <= i < |combined| ==> EdgeBelow(combined[i], |before|)
    requires forall s :: AllEval(before, combined, s) <==> AllEval(start, edges[..index], s)
    requires forall s :: Eval(after, e, s) == (Eval(after, edges[index], s) && Eval(after, edges[index + 1], s))
    ensures Grown(start, after)
    ensures forall s :: AllEval(after, combined + [e], s) <==> AllEval(start, edges[..index + 2], s)
  {
    GrownTransitive(start, before, after);
    forall s
      ensures AllEval(after, combined + [e], s) <==> AllEval(start, edges[..index + 2], s)
    {
      AllEvalAppend(after, combined, e, s);
      AllEvalAppend(start, edges[..index], edges[index], s);
      AllEvalAppend(start, edges[..index] + [edges[index]], edges[index + 1], s);
      assert edges[..index + 2] == edges[..index] + [edges[index]] + [edges[index + 1]];
      assert AllEval(after, combined, s) <==> AllEval(before, combined, s);
    }
  }

  lemma OddStep(start: seq<AigNode>, now: seq<AigNode>, edges: seq<Edge>, combined: seq<Edge>)
    requires |edges| > 0 && Grown(start, now)
    requires forall i :: 0 <= i < |edges| ==> EdgeBelow(edges[i], |start|)
    requires forall s :: AllEval(now, combined, s) <==> AllEval(start, edges[..|edges| - 1], s)
    ensures forall s :: AllEval(now, combined + [edges[|edges| - 1]], s) <==> AllEval(start, edges, s)
  {
    var last := edges[|edges| - 1];
    forall s
      ensures AllEval(now, combined + [last], s) <==> AllEval(start, edges, s)
    {
      AllEvalAppend(now, combined, last, s);
      AllEvalAppend(start, edges[..|edges| - 1], last, s);
      assert edges == edges[..|edges| - 1] + [last];
    }
  }

  lemma AllEvalAppend(nodes: seq<AigNode>, edges: seq<Edge>, e: Edge, s: Assignment)
    ensures AllEval(nodes, edges + [e], s) <==> AllEval(nodes, edges, s) && Eval(nodes, e, s)
  {
    assert (edges + [e])[|edges|] == e;
    assert forall i :: 0 <= i < |edges| ==> (edges + [e])[i] == edges[i];
  }
}
