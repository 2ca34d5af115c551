/** The Craig interpolation tracer (cadical/contrib/craigtracer.cpp, class CraigTracer): it follows the
    proof of the solver and keeps, for every clause, partial interpolants in up to four systems. */
module CraigTracer {
  import opened Logic
  import opened AndInverterGraph
  import opened Interpolation
  import opened ProofLedger
  import opened Definitions
  import opened CraigCnf

  datatype Option<T> = None | Some(value: T)

  /** The two mark bits of a variable. */
  datatype Mark = Mark(pos: bool, neg: bool)

  const UNMARKED := Mark(false, false)

  datatype Conclusion = Conflict | Assumptions

  /** What can be asked for: one system, a join of all enabled systems, or the smallest or largest of them. */
  datatype Request = NoInterpolant | Single(k: Construction) | IntersectionOf | UnionOf | Smallest | Largest

  /** The order in which the clause forms are built. */
  const ORDER: seq<Construction> := [Symmetric, Asymmetric, DualSymmetric, DualAsymmetric]

  function MarkOf(marks: map<int, Mark>, v: int): Mark
  {
    if v in marks then marks[v] else UNMARKED
  }

  /** The mark bits of a variable when exactly the given literals are marked. */
  function Marking(marked: set<int>, v: int): Mark
  {
    Mark(v in marked, -v in marked)
  }

  /** The mark table and its history represent the given set of literals. */
  ghost predicate MarksAre(marks: map<int, Mark>, history: seq<int>, marked: set<int>)
  {
    && (forall v :: v > 0 ==> MarkOf(marks, v) == Marking(marked, v))
    && (forall l :: l in marked ==> l != 0 && Abs(l) in history)
  }

  lemma MarkLiteral(marks: map<int, Mark>, history: seq<int>, marked: set<int>, literal: int, marks': map<int, Mark>,
                    history': seq<int>)
    requires MarksAre(marks, history, marked) && literal != 0
    requires var was := MarkOf(marks, Abs(literal));
             && history' == (if was == UNMARKED then history + [Abs(literal)] else history)
             && marks' == marks[Abs(literal) := if literal < 0 then was.(neg := true) else was.(pos := true)]
    ensures MarksAre(marks', history', marked + {literal})
    ensures var was := MarkOf(marks, Abs(literal)); (if literal < 0 then was.pos else was.neg) == (-literal in marked)
  {
    var v: int := Abs(literal);
    var was := MarkOf(marks, v);
    assert was == Marking(marked, v);
    forall u | u > 0
      ensures MarkOf(marks', u) == Marking(marked + {literal}, u)
    {
      if u != v { assert MarkOf(marks, u) == Marking(marked, u); }
    }
    assert was != UNMARKED ==> v in history;
  }

  method ResolveSymmetric(aig: Aig, t: VarType, literal: int, first: Edge, second: Edge) returns (e: Edge)
    requires aig.Valid() && literal != 0 && EdgeBelow(first, |aig.nodes|) && EdgeBelow(second, |aig.nodes|)
    modifies aig
    ensures aig.Valid() && Grown(old(aig.nodes), aig.nodes) && EdgeBelow(e, |aig.nodes|)
    ensures forall s :: Eval(aig.nodes, e, s) ==
                        Combine(Symmetric, t, LitTrue(s, literal), Eval(aig.nodes, first, s), Eval(aig.nodes, second, s))
    ensures forall vars :: Over(old(aig.nodes), vars) && (t == Global ==> Abs(literal) in vars) ==> Over(aig.nodes, vars)
  {
    if t == ALocal {
      e := aig.CreateOr(first, second);
    } else if t == BLocal {
      e := aig.CreateAnd(first, second);
    } else {
      e := Clausal(aig, first, literal, second);
    }
  }

  /** (first or literal) and (second or not literal). */
  method Clausal(aig: Aig, first: Edge, literal: int, second: Edge) returns (e: Edge)
    requires aig.Valid() && literal != 0 && EdgeBelow(first, |aig.nodes|) && EdgeBelow(second, |aig.nodes|)
    modifies aig
    ensures aig.Valid() && Grown(old(aig.nodes), aig.nodes) && EdgeBelow(e, |aig.nodes|)
    ensures forall s :: Eval(aig.nodes, e, s) ==
                        ((Eval(aig.nodes, first, s) || LitTrue(s, literal)) &&
                         (Eval(aig.nodes, second, s) || !LitTrue(s, literal)))
    ensures forall vars :: Over(old(aig.nodes), vars) && Abs(literal) in vars ==> Over(aig.nodes, vars)
  {
    ghost var n0 := aig.nodes;
    var left := OrLiteral(aig, first, literal);
    ghost var n1 := aig.nodes;
    var right := OrLiteral(aig, second, -literal);
    ghost var n2 := aig.nodes;
    e := aig.CreateAnd(left, right);
    GrownTransitive(n0, n1, n2);
    GrownTransitive(n0, n2, aig.nodes);
    forall s ensures LitTrue(s, -literal) == !LitTrue(s, literal) { LitNegation(s, literal); }
    ClausalMeaning(n0, n1, n2, aig.nodes, first, literal, second, left, right, e);
  }

  lemma ClausalMeaning(n0: seq<AigNode>, n1: seq<AigNode>, n2: seq<AigNode>, n3: seq<AigNode>, first: Edge,
                       literal: int, second: Edge, left: Edge, right: Edge, e: Edge)
    requires Grown(n0, n1) && Grown(n0, n2) && Grown(n1, n2) && Grown(n2, n3) && Grown(n0, n3)
    requires EdgeBelow(first, |n0|) && EdgeBelow(second, |n0|) && EdgeBelow(left, |n1|) && EdgeBelow(right, |n2|)
    requires forall s :: Eval(n1, left, s) == (Eval(n1, first, s) || LitTrue(s, literal))
    requires forall s :: Eval(n2, right, s) == (Eval(n2, second, s) || !LitTrue(s, literal))
    requires forall s :: Eval(n3, e, s) == (Eval(n3, left, s) && Eval(n3, right, s))
    ensures forall s :: Eval(n3, e, s) ==
                        ((Eval(n3, first, s) || LitTrue(s, literal)) && (Eval(n3, second, s) || !LitTrue(s, literal)))
  {
    forall s
      ensures Eval(n3, e, s) ==
              ((Eval(n3, first, s) || LitTrue(s, literal)) && (Eval(n3, second, s) || !LitTrue(s, literal)))
    {
      assert Eval(n3, left, s) == Eval(n2, left, s) == Eval(n1, left, s);
      assert Eval(n3, right, s) == Eval(n2, right, s);
      assert Eval(n3, first, s) == Eval(n0, first, s) == Eval(n1, first, s);
      assert Eval(n3, second, s) == Eval(n0, second, s) == Eval(n2, second, s);
    }
  }

  method OrLiteral(aig: Aig, edge: Edge, literal: int) returns (e: Edge)
    requires aig.Valid() && literal != 0 && EdgeBelow(edge, |aig.nodes|)
    modifies aig
    ensures aig.Valid() && Grown(old(aig.nodes), aig.nodes) && EdgeBelow(e, |aig.nodes|)
    ensures forall s :: Eval(aig.nodes, e, s) == (Eval(aig.nodes, edge, s) || LitTrue(s, literal))
    ensures forall vars :: Over(old(aig.nodes), vars) && Abs(literal) in vars ==> Over(aig.nodes, vars)
  {
    ghost var n0 := aig.nodes;
    var lit := aig.CreateLiteral(literal);
    ghost var n1 := aig.nodes;
    e := aig.CreateOr(edge, lit);
    GrownTransitive(n0, n1, aig.nodes);
  }

  method AndLiteral(aig: Aig, edge: Edge, literal: int) returns (e: Edge)
    requires aig.Valid() && literal != 0 && EdgeBelow(edge, |aig.nodes|)
    modifies aig
    ensures aig.Valid() && Grown(old(aig.nodes), aig.nodes) && EdgeBelow(e, |aig.nodes|)
    ensures forall s :: Eval(aig.nodes, e, s) == (Eval(aig.nodes, edge, s) && LitTrue(s, literal))
    ensures forall vars :: Over(old(aig.nodes), vars) && Abs(literal) in vars ==> Over(aig.nodes, vars)
  {
    ghost var n0 := aig.nodes;
    var lit := aig.CreateLiteral(literal);
    ghost var n1 := aig.nodes;
    e := aig.CreateAnd(edge, lit);
    GrownTransitive(n0, n1, aig.nodes);
  }

  /** (first and not literal) or (second and literal). */
  method Selecting(aig: Aig, first: Edge, literal: int, second: Edge) returns (e: Edge)
    requires aig.Valid() && literal != 0 && EdgeBelow(first, |aig.nodes|) && EdgeBelow(second, |aig.nodes|)
    modifies aig
    ensures aig.Valid() && Grown(old(aig.nodes), aig.nodes) && EdgeBelow(e, |aig.nodes|)
    ensures forall s :: Eval(aig.nodes, e, s) ==
                        ((Eval(aig.nodes, first, s) && !LitTrue(s, literal)) ||
                         (Eval(aig.nodes, second, s) && LitTrue(s, literal)))
    ensures forall vars :: Over(old(aig.nodes), vars) && Abs(literal) in vars ==> Over(aig.nodes, vars)
  {
    ghost var n0 := aig.nodes;
    var left := AndLiteral(aig, first, -literal);
    ghost var n1 := aig.nodes;
    var right := AndLiteral(aig, second, literal);
    ghost var n2 := aig.nodes;
    e := aig.CreateOr(left, right);
    GrownTransitive(n0, n1, n2);
    GrownTransitive(n0, n2, aig.nodes);
    forall s ensures LitTrue(s, -literal) == !LitTrue(s, literal) { LitNegation(s, literal); }
    SelectingMeaning(n0, n1, n2, aig.nodes, first, literal, second, left, right, e);
  }

  lemma SelectingMeaning(n0: seq<AigNode>, n1: seq<AigNode>, n2: seq<AigNode>, n3: seq<AigNode>, first: Edge,
                         literal: int, second: Edge, left: Edge, right: Edge, e: Edge)
    requires Grown(n0, n1) && Grown(n0, n2) && Grown(n1, n2) && Grown(n2, n3) && Grown(n0, n3)
    requires EdgeBelow(first, |n0|) && EdgeBelow(second, |n0|) && EdgeBelow(left, |n1|) && EdgeBelow(right, |n2|)
    requires forall s :: Eval(n1, left, s) == (Eval(n1, first, s) && !LitTrue(s, literal))
    requires forall s :: Eval(n2, right, s) == (Eval(n2, second, s) && LitTrue(s, literal))
    requires forall s :: Eval(n3, e, s) == (Eval(n3, left, s) || Eval(n3, right, s))
    ensures forall s :: Eval(n3, e, s) ==
                        ((Eval(n3, first, s) && !LitTrue(s, literal)) || (Eval(n3, second, s) && LitTrue(s, literal)))
  {
    forall s
      ensures Eval(n3, e, s) ==
              ((Eval(n3, first, s) && !LitTrue(s, literal)) || (Eval(n3, second, s) && LitTrue(s, literal)))
    {
      assert Eval(n3, left, s) == Eval(n2, left, s) == Eval(n1, left, s);
      assert Eval(n3, right, s) == Eval(n2, right, s);
      assert Eval(n3, first, s) == Eval(n0, first, s) == Eval(n1, first, s);
      assert Eval(n3, second, s) == Eval(n0, second, s) == Eval(n2, second, s);
    }
  }

  method ResolveAsymmetric(aig: Aig, t: VarType, literal: int, first: Edge, second: Edge) returns (e: Edge)
    requires aig.Valid() && EdgeBelow(first, |aig.nodes|) && EdgeBelow(second, |aig.nodes|)
    modifies aig
    ensures aig.Valid() && Grown(old(aig.nodes), aig.nodes) && EdgeBelow(e, |aig.nodes|)
    ensures forall s :: Eval(aig.nodes, e, s) ==
                        Combine(Asymmetric, t, LitTrue(s, literal), Eval(aig.nodes, first, s), Eval(aig.nodes, second, s))
    ensures forall vars :: Over(old(aig.nodes), vars) ==> Over(aig.nodes, vars)
  {
    if t == ALocal {
      e := aig.CreateOr(first, second);
    } else {
      e := aig.CreateAnd(first, second);
    }
  }

  method ResolveDualSymmetric(aig: Aig, t: VarType, literal: int, first: Edge, second: Edge) returns (e: Edge)
    requires aig.Valid() && literal != 0 && EdgeBelow(first, |aig.nodes|) && EdgeBelow(second, |aig.nodes|)
    modifies aig
    ensures aig.Valid() && Grown(old(aig.nodes), aig.nodes) && EdgeBelow(e, |aig.nodes|)
    ensures forall s :: Eval(aig.nodes, e, s) ==
                        Combine(DualSymmetric, t, LitTrue(s, literal), Eval(aig.nodes, first, s), Eval(aig.nodes, second, s))
    ensures forall vars :: Over(old(aig.nodes), vars) && (t == Global ==> Abs(literal) in vars) ==> Over(aig.nodes, vars)
  {
    if t == ALocal {
      e := aig.CreateAnd(first, second);
    } else if t == BLocal {
      e := aig.CreateOr(first, second);
    } else {
      e := Selecting(aig, first, literal, second);
    }
  }

  method ResolveDualAsymmetric(aig: Aig, t: VarType, literal: int, first: Edge, second: Edge) returns (e: Edge)
    requires aig.Valid() && EdgeBelow(first, |aig.nodes|) && EdgeBelow(second, |aig.nodes|)
    modifies aig
    ensures aig.Valid() && Grown(old(aig.nodes), aig.nodes) && EdgeBelow(e, |aig.nodes|)
    ensures forall s :: Eval(aig.nodes, e, s) ==
                        Combine(DualAsymmetric, t, LitTrue(s, literal), Eval(aig.nodes, first, s), Eval(aig.nodes, second, s))
    ensures forall vars :: Over(old(aig.nodes), vars) ==> Over(aig.nodes, vars)
  {
    if t == BLocal {
      e := aig.CreateAnd(first, second);
    } else {
      e := aig.CreateOr(first, second);
    }
  }

  ghost predicate AllGlobal(labels: Labels, clause: Clause, sign: int, s: Assignment)
  {
    forall l :: l in clause && TypeOf(labels, l) == Global ==> LitTrue(s, sign * l)
  }

  ghost predicate AnyGlobal(labels: Labels, clause: Clause, sign: int, s: Assignment)
  {
    exists l :: l in clause && TypeOf(labels, l) == Global && LitTrue(s, sign * l)
  }

  /** The global literals of a clause, with the given sign, as edges. */
  method GlobalEdges(aig: Aig, labels: Labels, clause: Clause, sign: int) returns (edges: seq<Edge>)
    requires aig.Valid() && ProperClause(clause) && sign in {-1, 1}
    modifies aig
    ensures aig.Valid() && Grown(old(aig.nodes), aig.nodes)
    ensures forall i :: 0 <= i < |edges| ==> EdgeBelow(edges[i], |aig.nodes|)
    ensures forall s :: AllEval(aig.nodes, edges, s) <==> AllGlobal(labels, clause, sign, s)
    ensures forall s :: AnyEval(aig.nodes, edges, s) <==> AnyGlobal(labels, clause, sign, s)
    ensures forall vars :: Over(old(aig.nodes), vars) && GlobalsIn(labels, clause, vars) ==> Over(aig.nodes, vars)
  {
    edges := [];
    var i := 0;
    while i < |clause|
      invariant 0 <= i <= |clause| && aig.Valid() && Grown(old(aig.nodes), aig.nodes)
      invariant forall j :: 0 <= j < |edges| ==> EdgeBelow(edges[j], |aig.nodes|)
      invariant forall s :: AllEval(aig.nodes, edges, s) <==> AllGlobal(labels, clause[..i], sign, s)
      invariant forall s :: AnyEval(aig.nodes, edges, s) <==> AnyGlobal(labels, clause[..i], sign, s)
      invariant forall vars :: Over(old(aig.nodes), vars) && GlobalsIn(labels, clause, vars) ==> Over(aig.nodes, vars)
    {
      assert clause[i] in clause;
      assert clause[..i + 1] == clause[..i] + [clause[i]];
      if TypeOf(labels, clause[i]) == Global {
        ghost var before := aig.nodes;
        var e := aig.CreateLiteral(sign * clause[i]);
        GrownTransitive(old(aig.nodes), before, aig.nodes);
        assert Abs(sign * clause[i]) == Abs(clause[i]);
        GlobalStep(before, aig.nodes, labels, clause[..i], clause[i], sign, edges, e);
        edges := edges + [e];
      } else {
        forall s ensures AllGlobal(labels, clause[..i + 1], sign, s) <==> AllGlobal(labels, clause[..i], sign, s)
                 ensures AnyGlobal(labels, clause[..i + 1], sign, s) <==> AnyGlobal(labels, clause[..i], sign, s) {
          assert forall l :: l in clause[..i + 1] <==> l in clause[..i] || l == clause[i];
        }
      }
      i := i + 1;
    }
    assert clause[..|clause|] == clause;
  }

  ghost predicate GlobalsIn(labels: Labels, clause: Clause, vars: set<int>)
  {
    forall l :: l in clause && TypeOf(labels, l) == Global ==> Abs(l) in vars
  }

  lemma GlobalStep(before: seq<AigNode>, nodes: seq<AigNode>, labels: Labels, clause: Clause, lit: int, sign: int,
                   edges: seq<Edge>, e: Edge)
    requires TypeOf(labels, lit) == Global && Grown(before, nodes)
    requires forall j :: 0 <= j < |edges| ==> EdgeBelow(edges[j], |before|)
    requires forall s :: Eval(nodes, e, s) == LitTrue(s, sign * lit)
    requires forall s :: AllEval(before, edges, s) <==> AllGlobal(labels, clause, sign, s)
    requires forall s :: AnyEval(before, edges, s) <==> AnyGlobal(labels, clause, sign, s)
    ensures forall s :: AllEval(nodes, edges + [e], s) <==> AllGlobal(labels, clause + [lit], sign, s)
    ensures forall s :: AnyEval(nodes, edges + [e], s) <==> AnyGlobal(labels, clause + [lit], sign, s)
  {
    assert forall l :: l in clause + [lit] <==> l in clause || l == lit;
    forall s
      ensures AllEval(nodes, edges + [e], s) <==> AllGlobal(labels, clause + [lit], sign, s)
      ensures AnyEval(nodes, edges + [e], s) <==> AnyGlobal(labels, clause + [lit], sign, s)
    {
      AllEvalAppend(nodes, edges, e, s);
      AnyEvalAppend(nodes, edges, e, s);
      assert forall j :: 0 <= j < |edges| ==> Eval(nodes, edges[j], s) == Eval(before, edges[j], s);
      assert AllEval(nodes, edges, s) <==> AllEval(before, edges, s);
      assert AnyEval(nodes, edges, s) <==> AnyEval(before, edges, s);
      assert AllGlobal(labels, clause + [lit], sign, s) <==> AllGlobal(labels, clause, sign, s) && LitTrue(s, sign * lit);
      assert AnyGlobal(labels, clause + [lit], sign, s) <==> AnyGlobal(labels, clause, sign, s) || LitTrue(s, sign * lit);
    }
  }

  lemma AnyEvalAppend(nodes: seq<AigNode>, edges: seq<Edge>, e: Edge, s: Assignment)
    ensures AnyEval(nodes, edges + [e], s) <==> AnyEval(nodes, edges, s) || Eval(nodes, e, s)
  {
    assert (edges + [e])[|edges|] == e;
    if AnyEval(nodes, edges, s) {
      var i :| 0 <= i < |edges| && Eval(nodes, edges[i], s);
      assert (edges + [e])[i] == edges[i];
    }
  }

  function Globals(labels: Labels): set<int>
  {
    set v | v in labels && labels[v] == Global
  }

  class Tracer {
    const enabled: set<Construction>
    const symAig: Aig
    const asymAig: Aig
    const dualSymAig: Aig
    const dualAsymAig: Aig

    var labels: Labels
    var clauseLabels: map<int, ClauseType>
    var currentId: int
    var clauses: seq<Clause>
    var interpolants: seq<CraigData>
    var assumptions: set<int>
    var assumptionClauses: seq<nat>
    var constraint: Clause
    var constraintLabel: ClauseType
    var marks: map<int, Mark>
    var history: seq<int>
    var interpolant: Option<CraigData>

    ghost var aSide: seq<Clause>       // the original clauses labelled A
    ghost var bSide: seq<Clause>       // the original clauses labelled B
    ghost var originals: seq<(Clause, ClauseType)> // the original clauses in order, with their labels when they were added
    ghost var contents: seq<Clause>    // the clause whose partial interpolants an entry holds
    ghost var status: seq<Status>
    ghost var concluded: Problem       // the problem that the final interpolant was concluded for
    ghost var leftover: set<int>       // what the final pass left of the constraint

    ghost function Snapshot(): Graphs
      reads symAig, asymAig, dualSymAig, dualAsymAig
    {
      Graphs(symAig.nodes, asymAig.nodes, dualSymAig.nodes, dualAsymAig.nodes)
    }

    /** The problem as it stands, with the literals assumed at the moment. */
    ghost function Current(): Problem
      reads this`labels, this`aSide, this`bSide, this`assumptions
    {
      Problem(labels, aSide, bSide, assumptions)
    }

    /** The problem without the assumptions. */
    ghost function Base(): Problem
      reads this`labels, this`aSide, this`bSide
    {
      Problem(labels, aSide, bSide, {})
    }

    ghost predicate GraphsValid()
      reads this`labels, symAig, asymAig, dualSymAig, dualAsymAig
    {
      && symAig != asymAig && symAig != dualSymAig && symAig != dualAsymAig
      && asymAig != dualSymAig && asymAig != dualAsymAig && dualSymAig != dualAsymAig
      && symAig.Valid() && asymAig.Valid() && dualSymAig.Valid() && dualAsymAig.Valid()
      && Over(symAig.nodes, Globals(labels)) && Over(asymAig.nodes, Globals(labels))
      && Over(dualSymAig.nodes, Globals(labels)) && Over(dualAsymAig.nodes, Globals(labels))
    }

    /** Original clauses use the variables of their side only, and everything is labelled. */
    ghost predicate Labelled()
      reads this`labels, this`aSide, this`bSide, this`assumptions, this`currentId, this`originals
    {
      && (forall v :: v in labels ==> v > 0)
      && SideOk(labels, aSide, AClause) && SideOk(labels, bSide, BClause)
      && currentId == |originals| + 1 && aSide == Sided(originals, AClause) && bSide == Sided(originals, BClause)
      && (forall l :: l in assumptions ==> l != 0 && Abs(l) in labels)
    }

    ghost predicate Entries()
      reads this, symAig, asymAig, dualSymAig, dualAsymAig
    {
      && |clauses| == |interpolants| == |contents| == |status|
      && TableOk(enabled, Current(), Snapshot(), status, contents, interpolants)
      && (forall i :: 0 <= i < |status| ==> (status[i] == Tentative <==> (i + 1) in assumptionClauses))
      && (forall id :: id in assumptionClauses ==> 0 < id <= |clauses|)
    }

    ghost predicate Concluded()
      reads this`interpolant, this`concluded, this`leftover, symAig, asymAig, dualSymAig, dualAsymAig
    {
      interpolant.Some? ==>
        && AllSound(enabled, concluded, Snapshot(), leftover, interpolant.value)
        && forall l :: l in concluded.assumed ==> Abs(l) in concluded.labels
    }

    /** What holds between any two calls, for every sequence of calls. */
    ghost predicate Valid()
      reads this, symAig, asymAig, dualSymAig, dualAsymAig
    {
      GraphsValid() && Labelled() && Entries() && Concluded() && MarksAre(marks, history, {}) && history == []
    }

    /** The entry may serve as an antecedent: it is permanent and its clause was not deleted. */
    ghost predicate Live(id: nat)
      reads this
    {
      && 0 < id <= |clauses| && id <= |contents| && id <= |status|
      && status[id - 1] == Permanent && Lits(clauses[id - 1]) == Lits(contents[id - 1])
    }

    constructor (construction: set<Construction>)
      ensures Valid() && fresh(symAig) && fresh(asymAig) && fresh(dualSymAig) && fresh(dualAsymAig)
      ensures enabled == construction && clauses == [] && aSide == [] && bSide == []
      ensures labels == map[] && assumptions == {} && interpolant.None? && currentId == 1
    {
      enabled := construction;
      symAig := new Aig();
      asymAig := new Aig();
      dualSymAig := new Aig();
      dualAsymAig := new Aig();
      labels, clauseLabels, currentId := map[], map[], 1;
      clauses, interpolants := [], [];
      assumptions, assumptionClauses, constraint, constraintLabel := {}, [], [], LClause;
      marks, history, interpolant := map[], [], None;
      aSide, bSide, contents, status, originals := [], [], [], [], [];
      concluded, leftover := Problem(map[], [], [], {}), {};
    }

    /** One resolution step on the partial interpolants of the running clause. */
    method ExtendInterpolant(result: CraigData, literal: int, other: CraigData) returns (data: CraigData)
      requires GraphsValid() && literal != 0 && EdgesIn(Snapshot(), result) && EdgesIn(Snapshot(), other)
      modifies symAig, asymAig, dualSymAig, dualAsymAig
      ensures GraphsValid() && GrownAll(old(Snapshot()), Snapshot())
      ensures Extended(enabled, labels, Snapshot(), result, literal, other, data)
      ensures data.clauseType == if result.clauseType == other.clauseType then result.clauseType else LClause
    {
      ghost var g := Snapshot();
      EdgeFacts(g, result);
      EdgeFacts(g, other);
      var sym := ExtendOne(Symmetric, Symmetric in enabled, symAig, labels, literal, result.sym, other.sym);
      var asym := ExtendOne(Asymmetric, Asymmetric in enabled, asymAig, labels, literal, result.asym, other.asym);
      var dualSym := ExtendOne(DualSymmetric, DualSymmetric in enabled, dualSymAig, labels, literal, result.dualSym,
                               other.dualSym);
      var dualAsym := ExtendOne(DualAsymmetric, DualAsymmetric in enabled, dualAsymAig, labels, literal, result.dualAsym,
                                other.dualAsym);
      var clauseType := if result.clauseType != other.clauseType then LClause else result.clauseType;
      data := CraigData(sym, asym, dualSym, dualAsym, clauseType);
      Assemble(enabled, labels, g, Snapshot(), result, literal, other, data);
    }

    /** Marks a literal and tells whether its negation was marked before. */
    method MarkOne(literal: int, ghost marked: set<int>) returns (clash: bool)
      requires literal != 0 && MarksAre(marks, history, marked)
      modifies this`marks, this`history
      ensures MarksAre(marks, history, marked + {literal})
      ensures clash == (-literal in marked)
    {
      var index := Abs(literal);
      var was := MarkOf(marks, index);
      if was == UNMARKED {
        history := history + [index];
      }
      marks := marks[index := if literal < 0 then was.(neg := true) else was.(pos := true)];
      MarkLiteral(old(marks), old(history), marked, literal, marks, history);
      clash := if literal < 0 then was.pos else was.neg;
    }

    method UnmarkAll(ghost marked: set<int>)
      requires MarksAre(marks, history, marked)
      modifies this`marks, this`history
      ensures MarksAre(marks, history, {}) && history == []
    {
      var i := 0;
      while i < |history|
        invariant 0 <= i <= |history| && history == old(history)
        invariant Cleared(marks, history[..i], marked)
      {
        ClearOne(marks, history[..i], marked, history[i]);
        assert history[..i + 1] == history[..i] + [history[i]];
        marks := marks[history[i] := UNMARKED];
        i := i + 1;
      }
      assert history[..i] == history;
      AllCleared(marks, history, marked);
      history := [];
    }

    /** Resolves the running clause with an antecedent on a literal that clashes. */
    method ResolveStep(result: CraigData, other: CraigData, ghost p: Problem, ghost g0: Graphs, ghost chain: seq<Clause>,
                       ghost steps: seq<Step>, ghost running: set<int>, literal: int, ghost index: nat)
      returns (data: CraigData)
      requires GraphsValid() && p.labels == labels && literal != 0 && GrownAll(g0, Snapshot())
      requires StepsWithin(steps, |chain|) && index < |chain|
      requires AllSound(enabled, p, Snapshot(), RunClause(chain, steps, running), result)
      requires AllSound(enabled, p, g0, Lits(chain[index]), other)
      modifies symAig, asymAig, dualSymAig, dualAsymAig
      ensures GraphsValid() && GrownAll(g0, Snapshot())
      ensures StepsWithin(steps + [Step(literal, index)], |chain|)
      ensures AllSound(enabled, p, Snapshot(), RunClause(chain, steps + [Step(literal, index)], running), data)
    {
      ghost var g := Snapshot();
      AllSoundGrown(enabled, p, g0, g, Lits(chain[index]), other);
      data := ExtendInterpolant(result, literal, other);
      GrownAllTransitive(g0, g, Snapshot());
      StepSound(enabled, p, g, Snapshot(), chain, steps, running, Step(literal, index), result, other, data);
    }

    /** Marks one literal of an antecedent and resolves on it if its negation was marked. */
    method ScanLiteral(l: int, other: CraigData, result: CraigData, ghost p: Problem, ghost g0: Graphs,
                       ghost chain: seq<Clause>, ghost before: seq<Step>, ghost running: set<int>, ghost index: nat,
                       ghost now: set<int>)
      returns (data: CraigData, ghost steps: seq<Step>)
      requires GraphsValid() && p.labels == labels && l != 0 && GrownAll(g0, Snapshot())
      requires MarksAre(marks, history, now) && StepsWithin(before, |chain|) && index < |chain|
      requires AllSound(enabled, p, Snapshot(), RunClause(chain, before, running), result)
      requires AllSound(enabled, p, g0, Lits(chain[index]), other)
      modifies this`marks, this`history, symAig, asymAig, dualSymAig, dualAsymAig
      ensures GraphsValid() && GrownAll(g0, Snapshot())
      ensures MarksAre(marks, history, now + {l})
      ensures steps == if -l in now then before + [Step(-l, index)] else before
      ensures StepsWithin(steps, |chain|)
      ensures AllSound(enabled, p, Snapshot(), RunClause(chain, steps, running), data)
      ensures steps == [] ==> before == [] && data == result
    {
      hide AllSound, GrownAll, Aig.Valid;
      data, steps := result, before;
      var clash := MarkOne(l, now);
      if clash {
        data := ResolveStep(data, other, p, g0, chain, steps, running, -l, index);
        steps := steps + [Step(-l, index)];
      }
    }

    /** Scans one antecedent: marks its literals and resolves on those whose negation is marked. */
    method ScanAntecedent(d: Clause, other: CraigData, result: CraigData, ghost p: Problem, ghost chain: seq<Clause>,
                          ghost index: nat, ghost running: set<int>, ghost marked: set<int>)
      returns (data: CraigData, ghost steps: seq<Step>)
      requires GraphsValid() && ProperClause(d) && MarksAre(marks, history, marked) && p.labels == labels
      requires index < |chain|
      requires AllSound(enabled, p, Snapshot(), running, result)
      requires AllSound(enabled, p, Snapshot(), Lits(chain[index]), other)
      modifies this`marks, this`history, symAig, asymAig, dualSymAig, dualAsymAig
      ensures GraphsValid() && GrownAll(old(Snapshot()), Snapshot())
      ensures MarksAre(marks, history, marked + Lits(d))
      ensures steps == ClauseSteps(marked, d, index) && StepsWithin(steps, |chain|)
      ensures AllSound(enabled, p, Snapshot(), RunClause(chain, steps, running), data)
      ensures steps == [] ==> data == result
    {
      hide AllSound, GrownAll, Scanned, MarksAre, Aig.Valid;
      data, steps := result, [];
      ghost var now, g0 := marked, Snapshot();
      StartScan(marked, d, index);
      GrownAllReflexive(g0);
      var j := 0;
      while j < |d|
        invariant 0 <= j <= |d|
        invariant GraphsValid() && GrownAll(g0, Snapshot())
        invariant MarksAre(marks, history, now) && StepsWithin(steps, |chain|)
        invariant Scanned(marked, d, index, j, now, steps)
        invariant AllSound(enabled, p, Snapshot(), RunClause(chain, steps, running), data)
        invariant steps == [] ==> data == result
      {
        assert d[j] in d;
        ScanOne(marked, d, index, j, now, steps);
        data, steps := ScanLiteral(d[j], other, data, p, g0, chain, steps, running, index, now);
        now := now + {d[j]};
        j := j + 1;
      }
      ScanDone(marked, d, index, now, steps);
    }

    /** Every antecedent is live, so its stored interpolants belong to its stored literals. */
    ghost predicate LiveChain(chain: seq<nat>)
      reads this
    {
      forall i :: 0 <= i < |chain| ==> Live(chain[i])
    }

    lemma LiveEntry(id: nat)
      requires Valid() && Live(id)
      ensures ProperClause(clauses[id - 1])
      ensures AllSound(enabled, Base(), Snapshot(), Lits(clauses[id - 1]), interpolants[id - 1])
    {
      assert EntryOk(enabled, Current(), Snapshot(), status[id - 1], contents[id - 1], interpolants[id - 1]);
      assert LabelledClause(labels, contents[id - 1]);
      SameLiterals(clauses[id - 1], contents[id - 1]);
    }

    lemma LiveAntecedents(chain: seq<nat>)
      requires Valid() && LiveChain(chain)
      ensures Antecedents(chain, Base(), Snapshot())
    {
      hide AllSound, Aig.Valid, TableOk;
      forall i | 0 <= i < |chain|
        ensures 0 < chain[i] <= |clauses| && chain[i] <= |interpolants|
        ensures ProperClause(clauses[chain[i] - 1])
        ensures AllSound(enabled, Base(), Snapshot(), Lits(clauses[chain[i] - 1]), interpolants[chain[i] - 1])
      {
        LiveEntry(chain[i]);
      }
    }

    /** All antecedents exist and are sound in the given graphs. */
    ghost predicate Antecedents(chain: seq<nat>, p: Problem, g: Graphs)
      reads this
    {
      && (forall i :: 0 <= i < |chain| ==> 0 < chain[i] <= |clauses| && chain[i] <= |interpolants|)
      && (forall i :: 0 <= i < |chain| ==>
            && ProperClause(clauses[chain[i] - 1])
            && AllSound(enabled, p, g, Lits(clauses[chain[i] - 1]), interpolants[chain[i] - 1]))
    }

    /** The backward pass over a chain: the literals of the last antecedent are marked, then the others are
        scanned from back to front, and finally all marks are cleared. */
    method RunChain(chain: seq<nat>, ghost ds: seq<Clause>) returns (data: CraigData, ghost steps: seq<Step>)
      requires Valid() && |chain| > 0 && LiveChain(chain) && ChainOf(clauses, chain, ds)
      modifies this`marks, this`history, symAig, asymAig, dualSymAig, dualAsymAig
      ensures GraphsValid() && GrownAll(old(Snapshot()), Snapshot())
      ensures MarksAre(marks, history, {}) && history == []
      ensures steps == ChainSteps(ds, |ds| - 1, Lits(ds[|ds| - 1])) && StepsWithin(steps, |ds|)
      ensures AllSound(enabled, Base(), Snapshot(), RunClause(ds, steps, Lits(ds[|ds| - 1])), data)
    {
      hide AllSound, GrownAll, MarksAre, Aig.Valid, TableOk, Labelled, Concluded, RunClause, ChainSteps;
      ghost var g0 := Snapshot();
      LiveAntecedents(chain);
      GrownAllReflexive(g0);
      var last := chain[|chain| - 1] - 1;
      MarkClause(clauses[last]);
      ghost var now;
      data, steps, now := ScanChain(chain, interpolants[last], Base(), g0, ds);
      UnmarkAll(now);
    }

    method ScanChain(chain: seq<nat>, result: CraigData, ghost p: Problem, ghost g0: Graphs, ghost ds: seq<Clause>)
      returns (data: CraigData, ghost steps: seq<Step>, ghost now: set<int>)
      requires GraphsValid() && p.labels == labels && |chain| > 0 && Antecedents(chain, p, g0)
      requires g0 == Snapshot() && ChainOf(clauses, chain, ds)
      requires MarksAre(marks, history, Lits(ds[|ds| - 1]))
      requires AllSound(enabled, p, g0, Lits(ds[|ds| - 1]), result)
      modifies this`marks, this`history, symAig, asymAig, dualSymAig, dualAsymAig
      ensures GraphsValid() && GrownAll(g0, Snapshot()) && MarksAre(marks, history, now)
      ensures steps == ChainSteps(ds, |ds| - 1, Lits(ds[|ds| - 1])) && StepsWithin(steps, |ds|)
      ensures AllSound(enabled, p, Snapshot(), RunClause(ds, steps, Lits(ds[|ds| - 1])), data)
    {
      hide AllSound, GrownAll, MarksAre, Aig.Valid, RunClause, ChainSteps, ClauseSteps;
      ghost var start := Lits(ds[|ds| - 1]);
      GrownAllReflexive(g0);
      data, steps, now := result, [], start;
      RunNothing(ds, start);
      var i := |chain| - 1;
      while i > 0
        invariant 0 <= i < |ds|
        invariant GraphsValid() && GrownAll(g0, Snapshot())
        invariant MarksAre(marks, history, now) && StepsWithin(steps, |ds|)
        invariant ChainSteps(ds, |ds| - 1, start) == steps + ChainSteps(ds, i, now)
        invariant AllSound(enabled, p, Snapshot(), RunClause(ds, steps, start), data)
      {
        i := i - 1;
        ghost var g, more := Snapshot(), [];
        AllSoundGrown(enabled, p, g0, g, Lits(ds[i]), interpolants[chain[i] - 1]);
        data, more := ScanAntecedent(clauses[chain[i] - 1], interpolants[chain[i] - 1], data, p, ds, i,
                                     RunClause(ds, steps, start), now);
        GrownAllTransitive(g0, g, Snapshot());
        RunAppend(ds, more, steps, start);
        ChainStepsUnfold(ds, i + 1, now, steps);
        steps := steps + more;
        now := now + Lits(ds[i]);
      }
      ChainStepsEnd(ds, now, steps);
    }

    method MarkClause(d: Clause)
      requires ProperClause(d) && MarksAre(marks, history, {})
      modifies this`marks, this`history
      ensures MarksAre(marks, history, Lits(d))
    {
      hide MarksAre;
      ghost var now := {};
      var j := 0;
      assert Lits(d[..0]) == {};
      while j < |d|
        invariant 0 <= j <= |d| && now == Lits(d[..j]) && MarksAre(marks, history, now)
      {
        assert d[j] in d;
        assert d[..j + 1] == d[..j] + [d[j]];
        var _ := MarkOne(d[j], now);
        now := now + {d[j]};
        j := j + 1;
      }
      assert d[..j] == d;
    }

    /** No clause, no assumption and no graph mentions the variable. */
    ghost predicate Unused(id: int)
      reads this, symAig, asymAig, dualSymAig, dualAsymAig
    {
      && (forall i, l :: 0 <= i < |contents| && l in contents[i] ==> Abs(l) != id) && (forall l :: l in assumptions ==> Abs(l) != id)
      && (forall c, l :: (c in aSide || c in bSide) && l in c ==> Abs(l) != id)
      && forall k :: Over(Snapshot().Of(k), Globals(labels) - {id})
    }

    /** Labels a variable. A variable that something uses must keep its label: another one is recorded too, but then the
        entries need not be sound any more. */
    method LabelVariable(id: int, kind: VarType)
      requires Valid() && id > 0
      modifies this`labels, this`marks
      ensures labels == old(labels)[id := kind]
      ensures id in old(labels) && old(labels)[id] != kind ==> old(Unused(id)) ==> Valid()
      ensures !(id in old(labels) && old(labels)[id] != kind) ==> Valid()
    {
      hide AllSound, GrownAll, Aig.Valid, TableOk, SideOk, Sided;
      ghost var p, was := Current(), labels;
      ghost var relabelled := id in labels && labels[id] != kind;
      ghost var used := !Unused(id);
      labels := labels[id := kind];
      marks := marks[id := UNMARKED];
      if relabelled && !used {
        TableRelabels(enabled, p, Current(), Snapshot(), status, contents, interpolants, id);
        SideRelabels(was, labels, aSide, AClause, id);
        SideRelabels(was, labels, bSide, BClause, id);
        forall k ensures Over(Snapshot().Of(k), Globals(labels)) {
          OverWider(Snapshot().Of(k), Globals(was) - {id}, Globals(labels));
        }
        assert Snapshot().Of(Symmetric) == symAig.nodes && Snapshot().Of(Asymmetric) == asymAig.nodes;
        assert Snapshot().Of(DualSymmetric) == dualSymAig.nodes && Snapshot().Of(DualAsymmetric) == dualAsymAig.nodes;
      }
      if !relabelled {
        MoreLabels(enabled, p, Current(), Snapshot(), status, contents, interpolants, aSide, bSide);
        assert Globals(was) <= Globals(labels);
      }
      assert MarksAre(marks, history, {}) by {
        assert forall v :: v > 0 ==> MarkOf(old(marks), v) == Marking({}, v);
      }
    }

    method LabelClause(id: int, kind: ClauseType)
      requires Valid() && id > 0
      modifies this`clauseLabels
      ensures Valid() && clauseLabels == old(clauseLabels)[id := kind]
    {
      clauseLabels := clauseLabels[id := kind];
    }

    /** The partial interpolants of an original clause. */
    method InterpolantForClause(c: Clause, kind: ClauseType) returns (data: CraigData)
      requires GraphsValid() && RespectsLabel(labels, c, kind)
      modifies asymAig, dualAsymAig
      ensures GraphsValid() && GrownAll(old(Snapshot()), Snapshot())
      ensures EdgesIn(Snapshot(), data)
      ensures forall k, s :: k in enabled ==>
                Eval(Snapshot().Of(k), data.EdgeOf(k), s) == ClauseValue(k, labels, c, kind, s)
    {
      hide Aig.Valid, Eval;
      ghost var g := Snapshot();
      var sym := if kind == AClause && Symmetric in enabled then FALSE_EDGE else TRUE_EDGE;
      var dualSym := if kind == BClause && DualSymmetric in enabled then FALSE_EDGE else TRUE_EDGE;
      var asym := AsymmetricStart(Asymmetric in enabled, asymAig, labels, c, kind);
      var dualAsym := DualAsymmetricStart(DualAsymmetric in enabled, dualAsymAig, labels, c, kind);
      data := CraigData(sym, asym, dualSym, dualAsym, kind);
      StartValues(enabled, labels, c, kind, g, Snapshot(), data);
    }

    /** An original clause joins its side; a restored clause gets its literals back. */
    method AddOriginalClause(id: nat, c: Clause, restore: bool)
      requires Valid() && id > 0
      requires restore ==> id <= |clauses| && Lits(c) == Lits(contents[id - 1])
      requires !restore ==>
                 id == |clauses| + 1 && currentId in clauseLabels && RespectsLabel(labels, c, clauseLabels[currentId])
      modifies this`clauses, this`interpolants, this`currentId, this`aSide, this`bSide, this`contents, this`status, this`originals
      modifies asymAig, dualAsymAig
      ensures Valid() && currentId == old(currentId) + (if restore then 0 else 1)
      ensures originals == old(originals) + (if restore then [] else [(c, clauseLabels[old(currentId)])])
      ensures restore ==>
                && clauses == old(clauses)[id - 1 := c] && contents == old(contents) && status == old(status)
                && aSide == old(aSide) && bSide == old(bSide) && interpolants == old(interpolants)
      ensures !restore ==>
                && old(interpolants) <= interpolants
                && clauses == old(clauses) + [c] && contents == old(contents) + [c] && status == old(status) + [Permanent]
                && aSide == old(aSide) + OnSide(c, clauseLabels[old(currentId)], AClause)
                && bSide == old(bSide) + OnSide(c, clauseLabels[old(currentId)], BClause)
    {
      hide AllSound, Aig.Valid, TableOk, Eval, RespectsLabel, MarksAre, OnSide;
      if restore {
        clauses := clauses[id - 1 := c];
        return;
      }
      AddLabelled(c, clauseLabels[currentId]);
    }

    /** The next original clause, with its label. */
    method AddLabelled(c: Clause, kind: ClauseType)
      requires Valid() && RespectsLabel(labels, c, kind)
      modifies this`clauses, this`interpolants, this`currentId, this`aSide, this`bSide, this`contents, this`status, this`originals
      modifies asymAig, dualAsymAig
      ensures Valid() && currentId == old(currentId) + 1 && originals == old(originals) + [(c, kind)]
      ensures old(interpolants) <= interpolants
      ensures clauses == old(clauses) + [c] && contents == old(contents) + [c] && status == old(status) + [Permanent]
      ensures aSide == old(aSide) + OnSide(c, kind, AClause) && bSide == old(bSide) + OnSide(c, kind, BClause)
    {
      hide AllSound, GrownAll, Aig.Valid, TableOk, Eval, RespectsLabel, MarksAre, SideOk, Over, Globals, OnSide, Sided;
      ghost var p, g := Current(), Snapshot();
      SideGrows(labels, aSide, c, kind, AClause);
      SideGrows(labels, bSide, c, kind, BClause);
      var data := InterpolantForClause(c, kind);
      aSide := aSide + OnSide(c, kind, AClause);
      bSide := bSide + OnSide(c, kind, BClause);
      SidedAdd(originals, c, kind);
      currentId, originals := currentId + 1, originals + [(c, kind)];
      NewOriginal(enabled, p, Current(), g, Snapshot(), status, contents, interpolants, c, kind, data);
      if interpolant.Some? { AllSoundGrown(enabled, concluded, g, Snapshot(), leftover, interpolant.value); }
      Append(c, data);
    }

    /** Appends a permanent entry whose interpolants were built. */
    method Append(c: Clause, data: CraigData)
      requires GraphsValid() && Labelled() && Concluded() && MarksAre(marks, history, {}) && history == []
      requires |clauses| == |interpolants| == |contents| == |status|
      requires forall i :: 0 <= i < |status| ==> (status[i] == Tentative <==> (i + 1) in assumptionClauses)
      requires forall id :: id in assumptionClauses ==> 0 < id <= |clauses|
      requires TableOk(enabled, Current(), Snapshot(), status + [Permanent], contents + [c], interpolants + [data])
      modifies this`clauses, this`interpolants, this`contents, this`status
      ensures Valid()
      ensures clauses == old(clauses) + [c] && contents == old(contents) + [c] && status == old(status) + [Permanent]
      ensures interpolants == old(interpolants) + [data]
    {
      hide AllSound, Aig.Valid, TableOk, MarksAre, SideOk, Over, Globals, Sided;
      NotTentative(status, assumptionClauses, Permanent);
      clauses, interpolants := clauses + [c], interpolants + [data];
      contents, status := contents + [c], status + [Permanent];
    }

    /** A derived clause: its interpolants come from the backward pass over its antecedents. */
    method AddDerivedClause(id: nat, c: Clause, chain: seq<nat>, ghost ds: seq<Clause>, ghost pivots: seq<int>)
      requires Valid() && id == |clauses| + 1 && LabelledClause(labels, c)
      requires |chain| > 0 && LiveChain(chain) && ChainOf(clauses, chain, ds) && UnitChain(ds, c, pivots)
      modifies this`clauses, this`interpolants, this`contents, this`status, this`marks, this`history
      modifies symAig, asymAig, dualSymAig, dualAsymAig
      ensures Valid() && old(interpolants) <= interpolants
      ensures clauses == old(clauses) + [c] && contents == old(contents) + [c] && status == old(status) + [Permanent]
    {
      hide AllSound, GrownAll, Aig.Valid, TableOk, Eval, UnitChain, RunClause, ChainSteps, MarksAre, SideOk, Sided, Over, Globals;
      ghost var g := Snapshot();
      ghost var steps;
      var data;
      data, steps := RunChain(chain, ds);
      Derive(ds, c, pivots, steps);
      AllSoundWeaken(enabled, Base(), Snapshot(), RunClause(ds, steps, Lits(ds[|pivots|])), Lits(c), data);
      NewEntry(enabled, Current(), g, Snapshot(), status, contents, interpolants, Permanent, c, data);
      if interpolant.Some? { AllSoundGrown(enabled, concluded, g, Snapshot(), leftover, interpolant.value); }
      Append(c, data);
    }

    /** Deletion empties the stored literals and keeps the interpolants. */
    method DeleteClause(id: nat)
      requires Valid() && 0 < id <= |clauses|
      modifies this`clauses
      ensures Valid() && clauses == old(clauses)[id - 1 := []]
    {
      hide AllSound, Aig.Valid, TableOk, MarksAre, SideOk, Sided, Over;
      clauses := clauses[id - 1 := []];
    }

    method AddAssumption(lit: int)
      requires Valid() && lit != 0 && Abs(lit) in labels
      modifies this`assumptions
      ensures Valid() && assumptions == old(assumptions) + {lit}
    {
      hide AllSound, Aig.Valid, TableOk, MarksAre, SideOk, Sided, Over;
      assumptions := assumptions + {lit};
      assert Extends(old(Current()), Current());
      TableExtends(enabled, old(Current()), Current(), Snapshot(), status, contents, interpolants);
    }

    /** Forgets the assumptions and ends the clauses that rest on them. */
    method ResetAssumptions()
      requires Valid()
      modifies this`clauses, this`assumptions, this`assumptionClauses, this`status, this`constraint
      ensures Valid() && assumptions == {} && assumptionClauses == [] && constraint == [] && |clauses| == |old(clauses)|
      ensures forall i :: 0 <= i < |clauses| ==>
                clauses[i] == if (i + 1) in old(assumptionClauses) then [] else old(clauses)[i]
    {
      hide AllSound, GraphsValid, Concluded, Aig.Valid, TableOk, MarksAre, SideOk, Sided, Over, EndTentative;
      var j := 0;
      while j < |assumptionClauses|
        modifies this`clauses
        invariant 0 <= j <= |assumptionClauses| && |clauses| == |old(clauses)|
        invariant forall i :: 0 <= i < |clauses| ==>
                    clauses[i] == if (i + 1) in assumptionClauses[..j] then [] else old(clauses)[i]
      {
        assert assumptionClauses[j] in assumptionClauses;
        assert assumptionClauses[..j + 1] == assumptionClauses[..j] + [assumptionClauses[j]];
        clauses := clauses[assumptionClauses[j] - 1 := []];
        j := j + 1;
      }
      assert assumptionClauses[..j] == assumptionClauses;
      ghost var ended := EndTentative(status);
      TableReset(enabled, Current(), Snapshot(), status, contents, interpolants, ended);
      assumptions, assumptionClauses, constraint, status := {}, [], [], ended;
    }

    /** The partial interpolants of an assumed literal. */
    method InterpolantForAssumption(literal: int) returns (data: CraigData)
      requires Abs(literal) in labels
      ensures EdgesIn(Snapshot(), data)
      ensures forall k, s :: Eval(Snapshot().Of(k), data.EdgeOf(k), s) == AssumptionValue(k, TypeOf(labels, literal))
    {
      match labels[Abs(literal)]
      case ALocal => data := CraigData(FALSE_EDGE, FALSE_EDGE, TRUE_EDGE, FALSE_EDGE, AClause);
      case BLocal => data := CraigData(TRUE_EDGE, TRUE_EDGE, FALSE_EDGE, TRUE_EDGE, BClause);
      case Global => data := CraigData(TRUE_EDGE, TRUE_EDGE, FALSE_EDGE, FALSE_EDGE, LClause);
    }

    /** An assumed literal is a unit clause of the current problem. */
    method AssumptionUnit(literal: int) returns (data: CraigData)
      requires literal in assumptions && Abs(literal) in labels
      ensures AllSound(enabled, Current(), Snapshot(), {literal}, data)
    {
      hide Eval, Sound;
      data := InterpolantForAssumption(literal);
      UnitSound(enabled, Current(), Snapshot(), literal, data);
    }

    /** Resolves the clause with the assumptions that its literals negate. */
    method ResolveAssumptions(c: Clause, result: CraigData) returns (data: CraigData)
      requires GraphsValid() && Labelled() && LabelledClause(labels, c)
      requires AllSound(enabled, Current(), Snapshot(), Lits(c), result)
      modifies symAig, asymAig, dualSymAig, dualAsymAig
      ensures GraphsValid() && GrownAll(old(Snapshot()), Snapshot())
      ensures AllSound(enabled, Current(), Snapshot(), Lits(Remaining(c, assumptions)), data)
    {
      hide AllSound, GrownAll, Aig.Valid, SideOk, Sided, Over;
      data := result;
      ghost var g0 := Snapshot();
      ghost var rest := Lits(c);
      GrownAllReflexive(g0);
      var j := 0;
      while j < |c|
        invariant 0 <= j <= |c| && GraphsValid() && GrownAll(g0, Snapshot())
        invariant rest <= Lits(Remaining(c[..j], assumptions)) + Lits(c[j..])
        invariant AllSound(enabled, Current(), Snapshot(), rest, data)
      {
        assert c[j] in c;
        if -c[j] in assumptions {
          var other := AssumptionUnit(-c[j]);
          ghost var g, before := Snapshot(), data;
          AllSoundEdges(enabled, Current(), g, rest, data);
          AllSoundEdges(enabled, Current(), g, {-c[j]}, other);
          data := ExtendInterpolant(data, c[j], other);
          GrownAllTransitive(g0, g, Snapshot());
          AllSoundGrown(enabled, Current(), g, Snapshot(), rest, before);
          AllSoundGrown(enabled, Current(), g, Snapshot(), {-c[j]}, other);
          AllSoundResolve(enabled, Current(), Snapshot(), rest, c[j], {-c[j]}, before, other, data);
          rest := Resolvent(rest, c[j], {-c[j]});
        }
        RemainingStep(c, j, assumptions);
        j := j + 1;
      }
      assert c[..j] == c && Lits(c[j..]) == {};
      AllSoundWeaken(enabled, Current(), Snapshot(), rest, Lits(Remaining(c, assumptions)), data);
    }

    /** A clause over failed assumptions. Its entry holds the interpolants left after resolving with the
        assumptions. Without antecedents the clause is a pair of opposite literals. */
    method AddAssumptionClause(id: nat, c: Clause, chain: seq<nat>, ghost ds: seq<Clause>, ghost pivots: seq<int>)
      requires Valid() && id == |clauses| + 1 && LabelledClause(labels, c)
      requires chain != [] ==> LiveChain(chain) && ChainOf(clauses, chain, ds) && UnitChain(ds, c, pivots)
      requires chain == [] ==> |c| == 2 && c[1] == -c[0] && (c[0] in assumptions || c[1] in assumptions)
      modifies this`clauses, this`interpolants, this`contents, this`status, this`marks, this`history
      modifies this`assumptionClauses, symAig, asymAig, dualSymAig, dualAsymAig
      ensures Valid() && assumptionClauses == old(assumptionClauses) + [id] && |clauses| == |old(clauses)| + 1
      ensures old(clauses) <= clauses && old(contents) <= contents && old(status) <= status && old(interpolants) <= interpolants
      ensures chain != [] || (c[0] in assumptions && c[1] in assumptions) ==>
                clauses[id - 1] == c && Lits(contents[id - 1]) == Lits(Remaining(c, assumptions))
      ensures chain == [] && !(c[0] in assumptions && c[1] in assumptions) ==>
                var a := if c[0] in assumptions then c[0] else c[1];
                a in assumptions && clauses[id - 1] == [-a] && contents[id - 1] == [a]
      ensures status[id - 1] == Tentative
    {
      hide AllSound, GrownAll, Aig.Valid, TableOk, Eval, UnitChain, MarksAre, SideOk, Sided, Over, Remaining;
      if chain != [] {
        AddDerivedClause(id, c, chain, ds, pivots);
        MakeTentative(id, c);
      } else if -c[0] !in assumptions || -c[1] !in assumptions {
        var l := if -c[0] in assumptions then -c[1] else -c[0];
        var data := AssumptionUnit(-l);
        assert Lits([-l]) == {-l};
        AppendTentative([l], [-l], data);
      } else {
        BothAssumed(c);
        NothingRemains(c, assumptions);
      }
    }

    /** The clause of two opposite assumptions. */
    method BothAssumed(c: Clause)
      requires Valid() && LabelledClause(labels, c) && |c| == 2 && c[1] == -c[0] && c[0] in assumptions && c[1] in assumptions
      modifies this`clauses, this`interpolants, this`contents, this`status, this`assumptionClauses
      modifies symAig, asymAig, dualSymAig, dualAsymAig
      ensures Valid() && assumptionClauses == old(assumptionClauses) + [|clauses|]
      ensures clauses == old(clauses) + [c] && contents == old(contents) + [[]] && status == old(status) + [Tentative]
      ensures old(interpolants) <= interpolants
    {
      hide AllSound, GrownAll, Aig.Valid, TableOk, Eval, MarksAre, SideOk, Sided, Over;
      var first := AssumptionUnit(-c[0]);
      var other := AssumptionUnit(-c[1]);
      AllSoundEdges(enabled, Current(), Snapshot(), {-c[0]}, first);
      AllSoundEdges(enabled, Current(), Snapshot(), {-c[1]}, other);
      ghost var g := Snapshot();
      var data := ExtendInterpolant(first, c[1], other);
      AllSoundGrown(enabled, Current(), g, Snapshot(), {-c[0]}, first);
      AllSoundGrown(enabled, Current(), g, Snapshot(), {-c[1]}, other);
      AllSoundResolve(enabled, Current(), Snapshot(), {-c[0]}, c[1], {-c[1]}, first, other, data);
      assert Resolvent({-c[0]}, c[1], {-c[1]}) == Lits([]);
      Regrow(g);
      AppendTentative(c, [], data);
    }

    /** The tables survive growing graphs. */
    lemma Regrow(g: Graphs)
      requires GraphsValid() && Labelled() && GrownAll(g, Snapshot())
      requires |clauses| == |interpolants| == |contents| == |status|
      requires TableOk(enabled, Current(), g, status, contents, interpolants)
      requires forall i :: 0 <= i < |status| ==> (status[i] == Tentative <==> (i + 1) in assumptionClauses)
      requires forall id :: id in assumptionClauses ==> 0 < id <= |clauses|
      requires interpolant.Some? ==> AllSound(enabled, concluded, g, leftover, interpolant.value)
      requires interpolant.Some? ==> forall l :: l in concluded.assumed ==> Abs(l) in concluded.labels
      requires MarksAre(marks, history, {}) && history == []
      ensures Valid()
    {
      hide AllSound, GrownAll, Aig.Valid, TableOk, MarksAre, SideOk, Sided, Over;
      TableGrown(enabled, Current(), g, Snapshot(), status, contents, interpolants);
      if interpolant.Some? { AllSoundGrown(enabled, concluded, g, Snapshot(), leftover, interpolant.value); }
    }

    method AppendTentative(stored: Clause, c: Clause, data: CraigData)
      requires Valid() && LabelledClause(labels, c)
      requires AllSound(enabled, Current(), Snapshot(), Lits(c), data)
      modifies this`clauses, this`interpolants, this`contents, this`status, this`assumptionClauses
      ensures Valid() && assumptionClauses == old(assumptionClauses) + [|clauses|] && interpolants == old(interpolants) + [data]
      ensures clauses == old(clauses) + [stored] && contents == old(contents) + [c] && status == old(status) + [Tentative]
    {
      hide AllSound, GrownAll, Aig.Valid, TableOk, MarksAre, SideOk, Sided, Over;
      GrownAllReflexive(Snapshot());
      NewEntry(enabled, Current(), Snapshot(), Snapshot(), status, contents, interpolants, Tentative, c, data);
      OneTentative(status, assumptionClauses, |status|, status + [Tentative]);
      clauses, interpolants := clauses + [stored], interpolants + [data];
      contents, status := contents + [c], status + [Tentative];
      assumptionClauses := assumptionClauses + [|clauses|];
    }

    /** Turns the entry just derived into one that is resolved with the assumptions. */
    method MakeTentative(id: nat, c: Clause)
      requires Valid() && LabelledClause(labels, c)
      requires 0 < id == |clauses| && status[id - 1] == Permanent && contents[id - 1] == c
      modifies this`interpolants, this`contents, this`status, this`assumptionClauses
      modifies symAig, asymAig, dualSymAig, dualAsymAig
      ensures Valid() && assumptionClauses == old(assumptionClauses) + [id]
      ensures contents == old(contents)[id - 1 := Remaining(c, assumptions)] && status == old(status)[id - 1 := Tentative]
      ensures |interpolants| == |old(interpolants)| == id && interpolants[..id - 1] == old(interpolants)[..id - 1]
    {
      hide AllSound, GrownAll, Aig.Valid, TableOk, MarksAre, SideOk, Sided, Over;
      ghost var g := Snapshot();
      LastEntry(enabled, Current(), g, status, contents, interpolants);
      var data := ResolveAssumptions(c, interpolants[id - 1]);
      Regrow(g);
      RemainingWithin(c, assumptions);
      TableReplace(enabled, Current(), Snapshot(), status, contents, interpolants, Remaining(c, assumptions), data);
      OneTentative(status, assumptionClauses, id - 1, status[id - 1 := Tentative]);
      interpolants := interpolants[id - 1 := data];
      contents, status := contents[id - 1 := Remaining(c, assumptions)], status[id - 1 := Tentative];
      assumptionClauses := assumptionClauses + [id];
    }

    /** The final interpolant: either from the empty clause, or from the clause of failed assumptions. */
    method ConcludeUnsat(conclusion: Conclusion, chain: seq<nat>)
      requires Valid() && |chain| == 1 && 0 < chain[0] <= |clauses|
      requires conclusion == Conflict ==> Live(chain[0]) && clauses[chain[0] - 1] == []
      requires conclusion == Assumptions ==>
                 status[chain[0] - 1] == Tentative && clauses[chain[0] - 1] != [] && Lits(contents[chain[0] - 1]) == {}
      modifies this`interpolant, this`concluded, this`leftover
      ensures Valid() && interpolant.Some? && leftover == {}
      ensures concluded == if conclusion == Conflict then Base() else Current()
      ensures interpolant.value == interpolants[chain[0] - 1]
      ensures forall k :: k in enabled ==> Separates(k, concluded, Snapshot().Of(k), interpolant.value.EdgeOf(k))
      ensures Mirrored(enabled, Snapshot(), interpolant.value)
    {
      hide GrownAll, Aig.Valid, MarksAre, SideOk, Sided, Over, Sound, Mirrored, Separates;
      var i := chain[0] - 1;
      assert EntryOk(enabled, Current(), Snapshot(), status[i], contents[i], interpolants[i]);
      assert Lits([]) == {};
      interpolant := Some(interpolants[i]);
      concluded, leftover := if conclusion == Conflict then Base() else Current(), {};
      assert AllSound(enabled, concluded, Snapshot(), {}, interpolant.value);
      forall k | k in enabled
        ensures Separates(k, concluded, Snapshot().Of(k), interpolant.value.EdgeOf(k))
      {
        SoundEmpty(k, concluded, Snapshot().Of(k), interpolant.value.EdgeOf(k));
      }
    }

    method LabelConstraint(kind: ClauseType)
      requires Valid()
      modifies this`constraintLabel
      ensures Valid() && constraintLabel == kind
    {
      constraintLabel := kind;
    }

    method AddConstraint(c: Clause)
      requires Valid()
      modifies this`constraint
      ensures Valid() && constraint == c
    {
      constraint := c;
    }

    /** The problem with the constraint as one more clause of its side. */
    ghost function Constrained(): Problem
      reads this
    {
      Current().(a := aSide + OnSide(constraint, constraintLabel, AClause), b := bSide + OnSide(constraint, constraintLabel, BClause))
    }

    /** The entries of assumption clauses, with proper stored literals. */
    ghost predicate TentativeChain(chain: seq<nat>, ds: seq<Clause>, cs: seq<Clause>)
      reads this
    {
      && ChainOf(clauses, chain, ds) && ChainOf(contents, chain, cs)
      && forall i :: 0 <= i < |chain| ==> chain[i] <= |status| && status[chain[i] - 1] == Tentative && ProperClause(ds[i])
    }

    /** The final interpolant from a failed constraint. The pass resolves the constraint with the entries of assumption
        clauses, by their stored literals, and keeps what it leaves of the constraint. If the negations of what is left are
        assumed, every enabled system interpolates, and that is so for every chain that the solver sends. A single system
        separates with global assumptions on one side only if it discharges what is left. */
    method ConcludeConstraint(chain: seq<nat>, ghost ds: seq<Clause>, ghost cs: seq<Clause>)
      requires Valid() && RespectsLabel(labels, constraint, constraintLabel) && TentativeChain(chain, ds, cs)
      modifies this`interpolant, this`concluded, this`leftover, this`marks, this`history
      modifies symAig, asymAig, dualSymAig, dualAsymAig
      ensures Valid() && interpolant.Some? && concluded == Constrained()
      ensures StepsWithin(ChainSteps(ds, |ds|, Lits(constraint)), |cs|)
      ensures leftover == RunClause(cs, ChainSteps(ds, |ds|, Lits(constraint)), Lits(constraint))
      ensures (exists lits, decided :: FailedChain(constraint, ds, cs, lits, decided, assumptions)) ==> NegationsAssumed(concluded, leftover)
      ensures NegationsAssumed(concluded, leftover) ==> forall k :: k in enabled ==> Interpolates(concluded, Offered(k))
      ensures forall k :: k in enabled && Discharges(k, concluded, leftover) ==>
                Separates(k, concluded, Snapshot().Of(k), interpolant.value.EdgeOf(k))
      ensures ChainSteps(ds, |ds|, Lits(constraint)) == [] ==> forall k, s :: k in enabled ==>
                Eval(Snapshot().Of(k), interpolant.value.EdgeOf(k), s) == ClauseValue(k, labels, constraint, constraintLabel, s)
    {
      hide Valid, AllSound, GrownAll, Aig.Valid, TableOk, MarksAre, SideOk, Sided, Over, RunClause, ChainSteps, Separates, Discharges, RespectsLabel;
      hide FailedChain, NegationsAssumed, Interpolates, Offered, Eval;
      TakeConstraint(chain, ds, cs);
      FailedSettles(concluded, constraint, ds, cs);
      forall k | k in enabled
        ensures NegationsAssumed(concluded, leftover) ==> Interpolates(concluded, Offered(k))
        ensures Discharges(k, concluded, leftover) ==> Separates(k, concluded, Snapshot().Of(k), interpolant.value.EdgeOf(k))
      {
        FinalEdge(k);
      }
    }

    /** Makes the result of the backward pass the final interpolant. */
    method TakeConstraint(chain: seq<nat>, ghost ds: seq<Clause>, ghost cs: seq<Clause>)
      requires Valid() && RespectsLabel(labels, constraint, constraintLabel) && TentativeChain(chain, ds, cs)
      modifies this`interpolant, this`concluded, this`leftover, this`marks, this`history
      modifies symAig, asymAig, dualSymAig, dualAsymAig
      ensures Valid() && interpolant.Some? && concluded == Constrained()
      ensures StepsWithin(ChainSteps(ds, |ds|, Lits(constraint)), |cs|)
      ensures leftover == RunClause(cs, ChainSteps(ds, |ds|, Lits(constraint)), Lits(constraint))
      ensures ChainSteps(ds, |ds|, Lits(constraint)) == [] ==> forall k, s :: k in enabled ==>
                Eval(Snapshot().Of(k), interpolant.value.EdgeOf(k), s) == ClauseValue(k, labels, constraint, constraintLabel, s)
    {
      hide AllSound, GrownAll, GraphsValid, TableOk, MarksAre, RunClause, ChainSteps, RespectsLabel, Eval, TentativeChain, SideOk, Sided;
      ghost var g0 := Snapshot();
      var data;
      data, leftover := ResolveConstraint(chain, ds, cs);
      interpolant, concluded := Some(data), Constrained();
      TableGrown(enabled, Current(), g0, Snapshot(), status, contents, interpolants);
    }

    /** What the final edge of an enabled system means. */
    lemma FinalEdge(k: Construction)
      requires Valid() && interpolant.Some? && k in enabled
      ensures NegationsAssumed(concluded, leftover) ==> Interpolates(concluded, Offered(k))
      ensures Discharges(k, concluded, leftover) ==> Separates(k, concluded, Snapshot().Of(k), interpolant.value.EdgeOf(k))
    {
      hide Aig.Valid, TableOk, MarksAre, SideOk, Sided, Over, NegationsAssumed, Interpolates, Discharges, Separates, Offered, Sound;
      if NegationsAssumed(concluded, leftover) {
        OfferedInterpolates(k);
      }
      if Discharges(k, concluded, leftover) {
        SoundDischarged(k, concluded, Snapshot().Of(k), leftover, interpolant.value.EdgeOf(k));
        SoundEmpty(k, concluded, Snapshot().Of(k), interpolant.value.EdgeOf(k));
      }
    }

    /** The backward pass that starts from the constraint. */
    method ResolveConstraint(chain: seq<nat>, ghost ds: seq<Clause>, ghost cs: seq<Clause>)
      returns (data: CraigData, ghost rest: set<int>)
      requires Valid() && RespectsLabel(labels, constraint, constraintLabel) && TentativeChain(chain, ds, cs)
      modifies this`marks, this`history, symAig, asymAig, dualSymAig, dualAsymAig
      ensures GraphsValid() && GrownAll(old(Snapshot()), Snapshot()) && MarksAre(marks, history, {}) && history == []
      ensures StepsWithin(ChainSteps(ds, |ds|, Lits(constraint)), |cs|)
      ensures rest == RunClause(cs, ChainSteps(ds, |ds|, Lits(constraint)), Lits(constraint))
      ensures AllSound(enabled, Constrained(), Snapshot(), rest, data)
      ensures ChainSteps(ds, |ds|, Lits(constraint)) == [] ==> forall k, s :: k in enabled ==>
                Eval(Snapshot().Of(k), data.EdgeOf(k), s) == ClauseValue(k, labels, constraint, constraintLabel, s)
    {
      hide AllSound, GrownAll, Aig.Valid, TableOk, MarksAre, SideOk, Sided, Over, RunClause, ChainSteps, RespectsLabel, Concluded;
      ghost var g0, p := Snapshot(), Constrained();
      MarkRespected(constraint);
      var start := InterpolantForClause(constraint, constraintLabel);
      ghost var g1 := Snapshot();
      OnOwnSide(p, aSide, bSide, constraint, constraintLabel);
      OriginalSound(enabled, p, g1, constraint, constraintLabel, start);
      ChainSound(g0, g1, chain, ds, cs);
      ghost var steps, now;
      data, steps, now := ScanAll(chain, start, p, g1, ds, cs, Lits(constraint));
      UnmarkAll(now);
      GrownAllTransitive(g0, g1, Snapshot());
      rest := RunClause(cs, steps, Lits(constraint));
      StillValued(p, g1, Snapshot(), Lits(constraint), start);
    }

    /** The value that the constraint starts with stays while graphs grow. */
    lemma StillValued(p: Problem, g: Graphs, h: Graphs, c: set<int>, data: CraigData)
      requires GrownAll(g, h) && AllSound(enabled, p, g, c, data)
      ensures forall k, s :: Eval(h.Of(k), data.EdgeOf(k), s) == Eval(g.Of(k), data.EdgeOf(k), s)
    {
      hide Eval, Sound;
      forall k, s ensures Eval(h.Of(k), data.EdgeOf(k), s) == Eval(g.Of(k), data.EdgeOf(k), s) {
        assert Grown(g.Of(k), h.Of(k)) && EdgeBelow(data.EdgeOf(k), |g.Of(k)|);
      }
    }

    lemma SameLengths()
      requires Valid()
      ensures |clauses| == |contents| == |status| == |interpolants|
    {
    }

    /** Marks the literals of the constraint. */
    method MarkRespected(d: Clause)
      requires RespectsLabel(labels, d, constraintLabel) && MarksAre(marks, history, {})
      modifies this`marks, this`history
      ensures MarksAre(marks, history, Lits(d))
    {
      hide MarksAre;
      MarkClause(d);
    }

    /** The entries of the chain are sound with the constraint, also in grown graphs. */
    lemma ChainSound(g: Graphs, h: Graphs, chain: seq<nat>, ds: seq<Clause>, cs: seq<Clause>)
      requires Labelled() && Entries0(g) && GrownAll(g, h) && TentativeChain(chain, ds, cs)
      ensures forall i :: 0 <= i < |chain| ==>
                chain[i] <= |interpolants| && AllSound(enabled, Constrained(), h, Lits(cs[i]), interpolants[chain[i] - 1])
    {
      hide AllSound, GrownAll;
      forall i | 0 <= i < |chain|
        ensures chain[i] <= |interpolants| && AllSound(enabled, Constrained(), h, Lits(cs[i]), interpolants[chain[i] - 1])
      {
        var j := chain[i] - 1;
        assert EntryOk(enabled, Current(), g, status[j], contents[j], interpolants[j]) && LabelledClause(labels, contents[j]);
        AllSoundGrown(enabled, Current(), g, h, Lits(cs[i]), interpolants[j]);
        AllSoundExtends(enabled, Current(), Constrained(), h, Lits(cs[i]), interpolants[j]);
      }
    }

    ghost predicate Entries0(g: Graphs)
      reads this
    {
      |clauses| == |interpolants| == |contents| == |status| && TableOk(enabled, Current(), g, status, contents, interpolants)
    }

    /** Scans all entries of the chain from back to front. */
    method ScanAll(chain: seq<nat>, result: CraigData, ghost p: Problem, ghost g0: Graphs, ghost ds: seq<Clause>,
                   ghost cs: seq<Clause>, ghost start: set<int>)
      returns (data: CraigData, ghost steps: seq<Step>, ghost now: set<int>)
      requires GraphsValid() && p.labels == labels && g0 == Snapshot() && ChainOf(clauses, chain, ds) && |cs| == |chain|
      requires MarksAre(marks, history, start) && AllSound(enabled, p, g0, start, result)
      requires forall i :: 0 <= i < |chain| ==> ProperClause(ds[i])
      requires forall i :: 0 <= i < |chain| ==>
                 chain[i] <= |interpolants| && AllSound(enabled, p, g0, Lits(cs[i]), interpolants[chain[i] - 1])
      modifies this`marks, this`history, symAig, asymAig, dualSymAig, dualAsymAig
      ensures GraphsValid() && GrownAll(g0, Snapshot()) && MarksAre(marks, history, now)
      ensures steps == ChainSteps(ds, |ds|, start) && StepsWithin(steps, |cs|)
      ensures AllSound(enabled, p, Snapshot(), RunClause(cs, steps, start), data)
      ensures steps == [] ==> data == result
    {
      hide AllSound, GrownAll, MarksAre, Aig.Valid, RunClause, ChainSteps, ClauseSteps;
      GrownAllReflexive(g0);
      data, steps, now := result, [], start;
      RunNothing(cs, start);
      var i := |chain|;
      while i > 0
        invariant 0 <= i <= |ds|
        invariant GraphsValid() && GrownAll(g0, Snapshot())
        invariant MarksAre(marks, history, now) && StepsWithin(steps, |cs|)
        invariant ChainSteps(ds, |ds|, start) == steps + ChainSteps(ds, i, now)
        invariant AllSound(enabled, p, Snapshot(), RunClause(cs, steps, start), data)
        invariant steps == [] ==> data == result
      {
        i := i - 1;
        ghost var g, more := Snapshot(), [];
        AllSoundGrown(enabled, p, g0, g, Lits(cs[i]), interpolants[chain[i] - 1]);
        data, more := ScanAntecedent(clauses[chain[i] - 1], interpolants[chain[i] - 1], data, p, cs, i,
                                     RunClause(cs, steps, start), now);
        GrownAllTransitive(g0, g, Snapshot());
        RunAppend(cs, more, steps, start);
        ChainStepsUnfold(ds, i + 1, now, steps);
        steps := steps + more;
        now := now + Lits(ds[i]);
      }
      ChainStepsEnd(ds, now, steps);
    }

    method AigFor(k: Construction) returns (aig: Aig)
      ensures aig.nodes == Snapshot().Of(k)
      ensures GraphsValid() ==> aig.Valid() && Over(aig.nodes, Globals(labels))
    {
      match k
      case Symmetric => aig := symAig;
      case Asymmetric => aig := asymAig;
      case DualSymmetric => aig := dualSymAig;
      case DualAsymmetric => aig := dualAsymAig;
    }

    /** The function a system offers as interpolant. */
    ghost function Offered(k: Construction): Assignment -> bool
      reads this, symAig, asymAig, dualSymAig, dualAsymAig
      requires interpolant.Some?
    {
      InterpolantFunction(k, Snapshot().Of(k), interpolant.value.EdgeOf(k))
    }

    /** The clause form of one system; the dual symmetric one is inverted at its root. */
    method BuildPart(k: Construction, nextFree: int, ghost base: int)
      returns (part: Part, next: int, ghost info: Info)
      requires Valid() && interpolant.Some? && 0 < base <= nextFree && forall v :: v in labels ==> v < base
      ensures nextFree <= next && PartOk(part, info, base) && info.lo == nextFree && info.hi == next
      ensures info.f == Offered(k) && part.kind == OfferedKind(k)
      ensures CnfOver(part.cnf, Globals(labels), base, next)
    {
      hide AllSound, TableOk, MarksAre, SideOk, Sided, Represents, Aig.Valid, CnfOver;
      var aig := AigFor(k);
      AllSoundEdges(enabled, concluded, Snapshot(), leftover, interpolant.value);
      assert EdgeBelow(interpolant.value.EdgeOf(k), |Snapshot().Of(k)|);
      assert forall i :: 0 <= i < |aig.nodes| && aig.nodes[i].IsVariable() ==> aig.nodes[i].edge1 in Globals(labels);
      ghost var meaning;
      var kind, cnf;
      kind, cnf, next, meaning := aig.CreateCnf(interpolant.value.EdgeOf(k), nextFree, base);
      ghost var f := EdgeFunction(aig.nodes, interpolant.value.EdgeOf(k));
      WidenOver(cnf, Globals(labels), base, nextFree, next);
      if k == DualSymmetric {
        InvertPart(kind, cnf, base, nextFree, next, meaning, f, Globals(labels));
        part := Part(InvertKind(kind), InvertCnf(kind, cnf));
      } else {
        part := Part(kind, cnf);
      }
      info := Info(nextFree, next, meaning, Offered(k));
    }

    /** The kind of clause form that a system offers. */
    ghost function OfferedKind(k: Construction): CnfType
      reads this
      requires interpolant.Some?
    {
      var kind := EdgeKind(interpolant.value.EdgeOf(k));
      if k == DualSymmetric then InvertKind(kind) else kind
    }

    /** The clause forms of all wanted systems, over consecutive fresh variables. */
    method BuildParts(wanted: set<Construction>, nextFree: int)
      returns (parts: seq<Part>, next: int, ghost kinds: seq<Construction>, ghost infos: seq<Info>)
      requires Valid() && interpolant.Some? && 0 < nextFree && forall v :: v in labels ==> v < nextFree
      ensures nextFree <= next && PartsOk(parts, infos, nextFree, next)
      ensures PartsOver(parts, Globals(labels), nextFree, next)
      ensures kinds == Listed(wanted, |ORDER|) && AllOffered(kinds, parts, infos)
    {
      hide AllSound, TableOk, MarksAre, SideOk, Sided, PartOk, Aig.Valid, CnfOver, Over;
      parts, next, kinds, infos := [], nextFree, [], [];
      var i := 0;
      while i < |ORDER|
        invariant 0 <= i <= |ORDER| && nextFree <= next
        invariant PartsOk(parts, infos, nextFree, next) && PartsOver(parts, Globals(labels), nextFree, next)
        invariant kinds == Listed(wanted, i) && AllOffered(kinds, parts, infos)
      {
        var k := ORDER[i];
        if k in wanted {
          ghost var before := next;
          ghost var info;
          var part;
          part, next, info := BuildPart(k, next, nextFree);
          AppendPart(parts, infos, nextFree, before, part, info, Globals(labels));
          parts, kinds, infos := parts + [part], kinds + [k], infos + [info];
        }
        i := i + 1;
      }
    }

    /** The parts are the clause forms of these systems. */
    ghost predicate AllOffered(kinds: seq<Construction>, parts: seq<Part>, infos: seq<Info>)
      reads this, symAig, asymAig, dualSymAig, dualAsymAig
      requires interpolant.Some?
    {
      && |kinds| == |infos| == |parts|
      && forall i :: 0 <= i < |infos| ==> infos[i].f == Offered(kinds[i]) && parts[i].kind == OfferedKind(kinds[i])
    }

    /** The function that is handed out for the requested kind of interpolant. */
    ghost predicate Answers(request: Request, f: Assignment -> bool)
      reads this, symAig, asymAig, dualSymAig, dualAsymAig
      requires interpolant.Some?
    {
      match request
      case NoInterpolant => false
      case Single(k) => forall s :: f(s) <==> Offered(k)(s)
      case UnionOf => forall s :: f(s) <==> forall k :: k in enabled ==> Offered(k)(s)
      case IntersectionOf => forall s :: f(s) <==> exists k :: k in enabled && Offered(k)(s)
      case Smallest => exists k :: k in enabled && f == Offered(k)
      case Largest => exists k :: k in enabled && f == Offered(k)
    }

    /** What is handed out, given the clause forms of the wanted systems in their fixed order: the join of two or more of
        them for union and intersection, and otherwise the first form of least or greatest size. */
    ghost predicate Handed(request: Request, base: int, forms: Offers, kind: CnfType, cnf: seq<Clause>, next: int, f: Assignment -> bool)
      reads this, symAig, asymAig, dualSymAig, dualAsymAig
      requires interpolant.Some?
    {
      && forms.kinds == Listed(Wanted(request, enabled), |ORDER|) && AllOffered(forms.kinds, forms.parts, forms.infos)
      && PartsOk(forms.parts, forms.infos, base, forms.free)
      && if |forms.parts| > 1 && (request == UnionOf || request == IntersectionOf) then
           && kind == JoinKind(forms.parts, request == UnionOf) && f == Joined(forms.infos, request == UnionOf)
           && Represents(kind, cnf, base, base, next, forms.meaning, f)
           && next == if kind == Normal then forms.free + 1 else forms.free
         else
           && next == forms.free
           && exists best :: 0 <= best < |forms.parts| && FirstBest(forms.parts, best, request == Smallest)
                             && kind == forms.parts[best].kind && cnf == forms.parts[best].cnf && f == forms.infos[best].f
    }

    /** If the negations of what is left are assumed, every enabled system offers an interpolant. */
    lemma OfferedInterpolates(k: Construction)
      requires Valid() && interpolant.Some? && k in enabled && NegationsAssumed(concluded, leftover)
      ensures Interpolates(concluded, Offered(k))
    {
      hide Aig.Valid, TableOk, MarksAre, SideOk, Sided, Over, NegationsAssumed, Interpolates;
      BothDischarged(k, concluded, Snapshot().Of(k), leftover, interpolant.value.EdgeOf(k));
    }

    /** A system that discharges what is left separates, with global assumptions on the side where it counts them. */
    lemma OfferedSeparates(k: Construction)
      requires Valid() && interpolant.Some? && k in enabled && Discharges(k, concluded, leftover)
      ensures forall s :: LeftTrue(k, concluded, s) ==> Offered(k)(s)
      ensures forall s :: !(RightTrue(k, concluded, s) && Offered(k)(s))
    {
      hide Aig.Valid, TableOk, MarksAre, SideOk, Sided, Over, LeftTrue, RightTrue, Discharges;
      SoundDischarged(k, concluded, Snapshot().Of(k), leftover, interpolant.value.EdgeOf(k));
      SoundEmpty(k, concluded, Snapshot().Of(k), interpolant.value.EdgeOf(k));
      forall s ensures Offered(k)(s) == Stored(k, Eval(Snapshot().Of(k), interpolant.value.EdgeOf(k), s)) {}
    }

    /** Whatever is answered is again an interpolant. */
    lemma AnswerInterpolates(request: Request, f: Assignment -> bool)
      requires Valid() && interpolant.Some? && Answers(request, f)
      requires Wanted(request, enabled) != {} && NegationsAssumed(concluded, leftover)
      ensures Interpolates(concluded, f)
    {
      hide Aig.Valid, TableOk, MarksAre, SideOk, Sided, Over, AllSound, Offered, LeftBoth, RightBoth, NegationsAssumed;
      forall k | k in Wanted(request, enabled)
        ensures Interpolates(concluded, Offered(k))
      {
        OfferedInterpolates(k);
      }
      var k :| k in Wanted(request, enabled);
      forall s
        ensures LeftBoth(concluded, s) ==> f(s)
        ensures !(RightBoth(concluded, s) && f(s))
      {
        assert LeftBoth(concluded, s) ==> Offered(k)(s);
        assert !(RightBoth(concluded, s) && Offered(k)(s));
      }
    }

    /** The answer of one system separates if that system discharges what is left. */
    lemma SingleSeparates(k: Construction, f: Assignment -> bool)
      requires Valid() && interpolant.Some? && Answers(Single(k), f) && k in enabled && Discharges(k, concluded, leftover)
      ensures forall s :: LeftTrue(k, concluded, s) ==> f(s)
      ensures forall s :: !(RightTrue(k, concluded, s) && f(s))
    {
      hide Aig.Valid, TableOk, MarksAre, SideOk, Sided, Over, LeftTrue, RightTrue, Discharges, Offered;
      OfferedSeparates(k);
    }

    /** The emitted clauses form an interpolant: they mention global and fresh variables only, every assignment
        of the A side extends to the fresh variables, and no assignment of the B side does. A constant has its fixed form;
        otherwise the last clause is a unit whose literal is equivalent to the interpolant under the clauses before it. */
    method CreateCraigInterpolant(request: Request, nextFree: int)
      returns (kind: CnfType, cnf: seq<Clause>, next: int, ghost f: Assignment -> bool, ghost forms: Offers)
      requires Valid() && 0 < nextFree && forall v :: v in labels ==> v < nextFree
      ensures kind == NoCnf <==> interpolant.None? || Wanted(request, enabled) == {}
      ensures kind == NoCnf ==> cnf == [] && next == nextFree
      ensures kind != NoCnf ==> Answers(request, f) && Handed(request, nextFree, forms, kind, cnf, next, f)
      ensures kind == Constant0 ==> cnf == [[]] && forall s :: !f(s)
      ensures kind == Constant1 ==> cnf == [] && forall s :: f(s)
      ensures kind == Normal ==> UnitRooted(cnf, nextFree, next, f)
      ensures kind != NoCnf ==> Emits(cnf, nextFree, f) && CnfOver(cnf, Globals(labels), nextFree, next)
      ensures kind != NoCnf && NegationsAssumed(concluded, leftover) ==> Interpolates(concluded, f) && forall s ::
                LeftBoth(concluded, s) ==> exists t :: AgreeBelow(s, t, nextFree) && CnfTrue(t, cnf)
      ensures kind != NoCnf && NegationsAssumed(concluded, leftover) ==> forall t :: CnfTrue(t, cnf) ==> !RightBoth(concluded, t)
      ensures kind != NoCnf && request.Single? && Discharges(request.k, concluded, leftover) ==>
                && (forall s :: LeftTrue(request.k, concluded, s) ==> f(s))
                && (forall s :: !(RightTrue(request.k, concluded, s) && f(s)))
    {
      hide Aig.Valid, TableOk, MarksAre, SideOk, Sided, Over, AllSound, Represents, CnfOver, LeftBoth, RightBoth, Answers, Offered;
      hide PartOk, Interpolates, Emits, Discharges, NegationsAssumed, LeftTrue, RightTrue, Wanted, Handed, UnitRooted, AllOffered, Listed;
      kind, cnf, next, f := NoCnf, [], nextFree, s => false;
      forms := Offers([], [], [], nextFree, (v, s) => false);
      if interpolant.None? {
        return;
      }
      var wanted := Wanted(request, enabled);
      var parts;
      ghost var kinds, infos;
      parts, next, kinds, infos := BuildParts(wanted, nextFree);
      NoneListed(wanted);
      SameCount(kinds, parts, infos);
      if |parts| == 0 {
        return;
      }
      kind, cnf, next, f, forms := Answer(request, parts, next, kinds, infos, nextFree);
      Concludes(request, nextFree, f, cnf);
    }

    lemma SameCount(kinds: seq<Construction>, parts: seq<Part>, infos: seq<Info>)
      requires interpolant.Some? && AllOffered(kinds, parts, infos)
      ensures |kinds| == |parts| == |infos|
    {
    }

    /** Picks one of the clause forms, or joins them. */
    method Answer(request: Request, parts: seq<Part>, free: int, ghost kinds: seq<Construction>, ghost infos: seq<Info>, nextFree: int)
      returns (kind: CnfType, cnf: seq<Clause>, next: int, ghost f: Assignment -> bool, ghost forms: Offers)
      requires interpolant.Some? && |parts| > 0 && 0 < nextFree <= free && PartsOk(parts, infos, nextFree, free)
      requires PartsOver(parts, Globals(labels), nextFree, free) && forall v :: v in labels ==> v < nextFree
      requires kinds == Listed(Wanted(request, enabled), |ORDER|) && AllOffered(kinds, parts, infos)
      ensures free <= next && Answers(request, f) && Handed(request, nextFree, forms, kind, cnf, next, f)
      ensures kind != NoCnf && (kind == Constant0 ==> cnf == [[]] && forall s :: !f(s))
      ensures (kind == Constant1 ==> cnf == [] && forall s :: f(s)) && (kind == Normal ==> UnitRooted(cnf, nextFree, next, f))
      ensures Emits(cnf, nextFree, f) && CnfOver(cnf, Globals(labels), nextFree, next)
    {
      hide Represents, CnfOver, Answers, Offered, PartOk, Emits, Wanted, Joined, GraphsValid, Globals, UnitRooted, Listed, AllOffered;
      next := free;
      ghost var meaning: Meaning := (v, s) => false;
      SameCount(kinds, parts, infos);
      if |parts| == 1 || (request != UnionOf && request != IntersectionOf) {
        var best := PickPart(parts, request == Smallest);
        kind, cnf, f := parts[best].kind, parts[best].cnf, infos[best].f;
        PartForm(parts, infos, nextFree, free, best);
        OneAnswer(request, kinds, parts, infos, best, f);
      } else {
        kind, cnf, next, meaning := JoinParts(parts, next, request == UnionOf, infos, nextFree);
        f := Joined(infos, request == UnionOf);
        FormMeans(kind, cnf, nextFree, nextFree, next, meaning, f, next);
        JoinAnswer(request, kinds, parts, infos, f);
      }
      forms := Offers(kinds, parts, infos, free, meaning);
    }

    /** What the answer means for the concluded problem. */
    lemma Concludes(request: Request, nextFree: int, f: Assignment -> bool, cnf: seq<Clause>)
      requires Valid() && interpolant.Some? && Answers(request, f)
      requires Wanted(request, enabled) != {} && Emits(cnf, nextFree, f)
      ensures NegationsAssumed(concluded, leftover) ==> Interpolates(concluded, f) && forall s ::
                LeftBoth(concluded, s) ==> exists t :: AgreeBelow(s, t, nextFree) && CnfTrue(t, cnf)
      ensures NegationsAssumed(concluded, leftover) ==> forall t :: CnfTrue(t, cnf) ==> !RightBoth(concluded, t)
      ensures request.Single? && Discharges(request.k, concluded, leftover) ==>
                && (forall s :: LeftTrue(request.k, concluded, s) ==> f(s))
                && (forall s :: !(RightTrue(request.k, concluded, s) && f(s)))
    {
      hide Valid, Answers, Emits, Interpolates, NegationsAssumed, Discharges, LeftTrue, RightTrue, LeftBoth, RightBoth, CnfTrue, Offered;
      if NegationsAssumed(concluded, leftover) {
        AnswerInterpolates(request, f);
        EmittedSeparates(concluded, cnf, nextFree, f);
      }
      if request.Single? && Discharges(request.k, concluded, leftover) {
        SingleSeparates(request.k, f);
      }
    }

    lemma OneAnswer(request: Request, kinds: seq<Construction>, parts: seq<Part>, infos: seq<Info>, best: nat, f: Assignment -> bool)
      requires interpolant.Some? && AllOffered(kinds, parts, infos) && best < |infos| && f == infos[best].f
      requires kinds == Listed(Wanted(request, enabled), |ORDER|)
      requires |infos| == 1 || (request != UnionOf && request != IntersectionOf)
      ensures Answers(request, f)
    {
      hide Offered, Listed;
      InListed(Wanted(request, enabled));
      assert kinds[best] in kinds;
      assert |kinds| == 1 ==> kinds == [kinds[0]];
    }

    lemma JoinAnswer(request: Request, kinds: seq<Construction>, parts: seq<Part>, infos: seq<Info>, f: Assignment -> bool)
      requires interpolant.Some? && AllOffered(kinds, parts, infos) && (request == UnionOf || request == IntersectionOf)
      requires f == Joined(infos, request == UnionOf) && kinds == Listed(Wanted(request, enabled), |ORDER|)
      ensures Answers(request, f)
    {
      hide Offered, Listed;
      InListed(Wanted(request, enabled));
      forall s
        ensures request == UnionOf ==> (f(s) <==> forall k :: k in enabled ==> Offered(k)(s))
        ensures request == IntersectionOf ==> (f(s) <==> exists k :: k in enabled && Offered(k)(s))
      {
        forall i | 0 <= i < |infos| ensures infos[i].f(s) == Offered(kinds[i])(s) && kinds[i] in enabled {
          assert kinds[i] in kinds;
        }
        forall k | k in enabled ensures exists i :: 0 <= i < |kinds| && kinds[i] == k { assert k in kinds; }
      }
    }
  }

  /** The systems a request draws on. */
  function Wanted(request: Request, enabled: set<Construction>): set<Construction>
  {
    match request
    case NoInterpolant => {}
    case Single(k) => {k} * enabled
    case _ => enabled
  }

  /** The wanted systems among the first n in their fixed order. */
  function Listed(wanted: set<Construction>, n: nat): (r: seq<Construction>)
    requires n <= |ORDER|
  {
    if n == 0 then [] else Listed(wanted, n - 1) + if ORDER[n - 1] in wanted then [ORDER[n - 1]] else []
  }

  lemma InListed(wanted: set<Construction>)
    ensures forall k :: k in Listed(wanted, |ORDER|) <==> k in wanted
  {
    assert |ORDER| == 4 && ORDER[0] == Symmetric && ORDER[1] == Asymmetric && ORDER[2] == DualSymmetric && ORDER[3] == DualAsymmetric;
    forall k ensures k in Listed(wanted, |ORDER|) <==> k in wanted {
      InOrder(k);
      ListedAt(wanted, |ORDER|, k);
    }
  }

  lemma {:induction false} ListedAt(wanted: set<Construction>, n: nat, k: Construction)
    requires n <= |ORDER|
    ensures k in Listed(wanted, n) <==> k in wanted && k in ORDER[..n]
  {
    if n > 0 {
      ListedAt(wanted, n - 1, k);
      assert ORDER[..n] == ORDER[..n - 1] + [ORDER[n - 1]];
    }
  }

  lemma NoneListed(wanted: set<Construction>)
    ensures |Listed(wanted, |ORDER|)| == 0 <==> wanted == {}
  {
    InListed(wanted);
    var kinds := Listed(wanted, |ORDER|);
    if |kinds| > 0 { assert kinds[0] in kinds; }
  }

  /** The clause forms of the wanted systems; they use fresh variables below free. For a join also the values of all fresh
      variables. */
  datatype Offers = Offers(kinds: seq<Construction>, parts: seq<Part>, infos: seq<Info>, free: int, meaning: Meaning)

  /** The last clause is a unit whose literal has the value of f once the clauses before it hold, which fix a range of
      fresh variables for every assignment below. */
  ghost predicate UnitRooted(cnf: seq<Clause>, base: int, next: int, f: Assignment -> bool)
  {
    exists lo, hi, meaning :: hi <= next && Represents(Normal, cnf, base, lo, hi, meaning, f)
  }

  /** The first part of least, or of greatest, size. */
  predicate FirstBest(parts: seq<Part>, best: int, smallest: bool)
  {
    && 0 <= best < |parts| && (forall i :: 0 <= i < best ==> |parts[i].cnf| != |parts[best].cnf|)
    && forall i :: 0 <= i < |parts| ==>
         if smallest then |parts[best].cnf| <= |parts[i].cnf| else |parts[i].cnf| <= |parts[best].cnf|
  }

  /** Both sides with every assumption they can see. */
  ghost predicate LeftBoth(p: Problem, s: Assignment)
  {
    CnfTrue(s, p.a) && forall l :: l in p.assumed && TypeOf(p.labels, l) != BLocal ==> LitTrue(s, l)
  }

  ghost predicate RightBoth(p: Problem, s: Assignment)
  {
    CnfTrue(s, p.b) && forall l :: l in p.assumed && TypeOf(p.labels, l) != ALocal ==> LitTrue(s, l)
  }

  lemma BothSides(p: Problem, s: Assignment)
    ensures LeftBoth(p, s) ==> forall k :: LeftTrue(k, p, s)
    ensures RightBoth(p, s) ==> forall k :: RightTrue(k, p, s)
  {
  }

  /** Implied by the A side and inconsistent with the B side. */
  ghost predicate Interpolates(p: Problem, f: Assignment -> bool)
  {
    && (forall s :: LeftBoth(p, s) ==> f(s))
    && (forall s :: !(RightBoth(p, s) && f(s)))
  }

  ghost predicate NegationsAssumed(p: Problem, c: set<int>)
  {
    forall l :: l in c ==> l != 0 && -l in p.assumed
  }

  /** With every assumption on both sides that can see it, literals whose negations are assumed may always be dropped. */
  lemma BothDischarged(k: Construction, p: Problem, nodes: seq<AigNode>, c: set<int>, e: Edge)
    requires Sound(k, p, nodes, c, e) && NegationsAssumed(p, c)
    ensures Interpolates(p, InterpolantFunction(k, nodes, e))
  {
    hide LeftBoth, RightBoth, Partial, Eval;
    forall s
      ensures LeftBoth(p, s) ==> InterpolantFunction(k, nodes, e)(s)
      ensures !(RightBoth(p, s) && InterpolantFunction(k, nodes, e)(s))
    {
      assert Partial(k, p.labels, s, LeftTrue(k, p, s), RightTrue(k, p, s), c, Eval(nodes, e, s));
      BothDischargedAt(k, p, s, c, Eval(nodes, e, s));
    }
  }

  lemma BothDischargedAt(k: Construction, p: Problem, s: Assignment, c: set<int>, raw: bool)
    requires Partial(k, p.labels, s, LeftTrue(k, p, s), RightTrue(k, p, s), c, raw) && NegationsAssumed(p, c)
    ensures (LeftBoth(p, s) ==> Stored(k, raw)) && !(RightBoth(p, s) && Stored(k, raw))
  {
    BothSides(p, s);
    if LeftBoth(p, s) { BothFalse(k, p, s, c); }
    if RightBoth(p, s) { BothFalse(k, p, s, c); }
  }

  lemma BothFalse(k: Construction, p: Problem, s: Assignment, c: set<int>)
    requires NegationsAssumed(p, c)
    ensures LeftBoth(p, s) ==> FalseLeft(k, p.labels, s, c)
    ensures RightBoth(p, s) ==> FalseRight(k, p.labels, s, c)
  {
    hide CnfTrue;
    forall l | l in c ensures (LitTrue(s, -l) <==> !LitTrue(s, l)) && TypeOf(p.labels, -l) == TypeOf(p.labels, l) { LitNegation(s, l); }
  }

  /** Quantifying the fresh variables of the clauses existentially gives f. */
  ghost predicate Emits(cnf: seq<Clause>, base: int, f: Assignment -> bool)
  {
    forall s :: (exists t :: AgreeBelow(s, t, base) && CnfTrue(t, cnf)) <==> f(s)
  }

  lemma FormEmits(kind: CnfType, cnf: seq<Clause>, base: int, lo: int, hi: int, meaning: Meaning, f: Assignment -> bool)
    requires Represents(kind, cnf, base, lo, hi, meaning, f)
    ensures Emits(cnf, base, f) && kind != NoCnf
  {
    hide CnfTrue;
    forall s ensures (exists t :: AgreeBelow(s, t, base) && CnfTrue(t, cnf)) <==> f(s) {
      Projection(kind, cnf, base, lo, hi, meaning, f, s);
    }
  }

  lemma FormMeans(kind: CnfType, cnf: seq<Clause>, base: int, lo: int, hi: int, meaning: Meaning, f: Assignment -> bool, next: int)
    requires Represents(kind, cnf, base, lo, hi, meaning, f) && hi <= next
    ensures Emits(cnf, base, f) && kind != NoCnf && (kind == Normal ==> UnitRooted(cnf, base, next, f))
    ensures (kind == Constant0 ==> cnf == [[]] && forall s :: !f(s)) && (kind == Constant1 ==> cnf == [] && forall s :: f(s))
  {
    FormEmits(kind, cnf, base, lo, hi, meaning, f);
  }

  lemma PartForm(parts: seq<Part>, infos: seq<Info>, base: int, free: int, i: nat)
    requires PartsOk(parts, infos, base, free) && i < |parts|
    ensures var kind, cnf, f := parts[i].kind, parts[i].cnf, infos[i].f;
            && Emits(cnf, base, f) && kind != NoCnf && (kind == Normal ==> UnitRooted(cnf, base, free, f))
            && (kind == Constant0 ==> cnf == [[]] && forall s :: !f(s)) && (kind == Constant1 ==> cnf == [] && forall s :: f(s))
  {
    hide Represents;
    RangesBelow(parts, infos, base, free, i);
    assert PartOk(parts[i], infos[i], base);
    FormMeans(parts[i].kind, parts[i].cnf, base, infos[i].lo, infos[i].hi, infos[i].meaning, infos[i].f, free);
  }

  /** The ranges follow each other, so each of them ends at or below the last. */
  lemma {:induction false} RangesBelow(parts: seq<Part>, infos: seq<Info>, base: int, free: int, i: nat)
    requires PartsOk(parts, infos, base, free) && i < |parts|
    ensures infos[i].hi <= free
    decreases |parts| - i
  {
    if i + 1 < |parts| {
      RangesBelow(parts, infos, base, free, i + 1);
      assert infos[i + 1].lo == Boundary(infos, i + 1, base);
      assert PartOk(parts[i + 1], infos[i + 1], base);
    }
  }

  lemma EmittedSeparates(p: Problem, cnf: seq<Clause>, base: int, f: Assignment -> bool)
    requires Emits(cnf, base, f) && Interpolates(p, f)
    ensures forall s :: LeftBoth(p, s) ==> exists t :: AgreeBelow(s, t, base) && CnfTrue(t, cnf)
    ensures forall t :: CnfTrue(t, cnf) ==> !RightBoth(p, t)
  {
    hide CnfTrue, LeftBoth, RightBoth;
    forall t | CnfTrue(t, cnf) ensures !RightBoth(p, t) {
      assert AgreeBelow(t, t, base);
    }
  }

  /** The first part of least (or greatest) size. */
  method PickPart(parts: seq<Part>, smallest: bool) returns (best: nat)
    requires |parts| > 0
    ensures FirstBest(parts, best, smallest)
  {
    best := 0;
    var i := 1;
    while i < |parts|
      invariant 0 < i <= |parts| && best < i
      invariant forall j :: 0 <= j < i ==>
                  if smallest then |parts[best].cnf| <= |parts[j].cnf| else |parts[j].cnf| <= |parts[best].cnf|
      invariant forall j :: 0 <= j < best ==> |parts[j].cnf| != |parts[best].cnf|
    {
      if (if smallest then |parts[i].cnf| < |parts[best].cnf| else |parts[best].cnf| < |parts[i].cnf|) {
        best := i;
      }
      i := i + 1;
    }
  }

  lemma InOrder(k: Construction)
    ensures k in ORDER
  {
    match k
    case Symmetric => assert ORDER[0] == k;
    case Asymmetric => assert ORDER[1] == k;
    case DualSymmetric => assert ORDER[2] == k;
    case DualAsymmetric => assert ORDER[3] == k;
  }

  lemma AppendPart(parts: seq<Part>, infos: seq<Info>, base: int, next: int, part: Part, info: Info, vars: set<int>)
    requires PartsOk(parts, infos, base, next) && PartsOver(parts, vars, base, next)
    requires PartOk(part, info, base) && info.lo == next <= info.hi && CnfOver(part.cnf, vars, base, info.hi)
    ensures PartsOk(parts + [part], infos + [info], base, info.hi) && PartsOver(parts + [part], vars, base, info.hi)
  {
    hide PartOk;
    var ps, all := parts + [part], infos + [info];
    forall i | 0 <= i < |all|
      ensures PartOk(ps[i], all[i], base) && all[i].lo == Boundary(all, i, base)
    {
      assert i < |infos| ==> all[i] == infos[i] && ps[i] == parts[i] && Boundary(all, i, base) == Boundary(infos, i, base);
    }
    assert Boundary(all, |infos|, base) == Boundary(infos, |infos|, base);
  }

  lemma WidenOver(cnf: seq<Clause>, vars: set<int>, base: int, lo: int, hi: int)
    requires base <= lo && CnfOver(cnf, vars, lo, hi)
    ensures CnfOver(cnf, vars, base, hi)
  {
  }

  /** The function of an edge, as the system offers it. */
  ghost function InterpolantFunction(k: Construction, nodes: seq<AigNode>, e: Edge): Assignment -> bool
  {
    if k == DualSymmetric then Complement(EdgeFunction(nodes, e)) else EdgeFunction(nodes, e)
  }

  lemma InvertPart(kind: CnfType, cnf: seq<Clause>, base: int, lo: int, hi: int, meaning: Meaning,
                   f: Assignment -> bool, vars: set<int>)
    requires Represents(kind, cnf, base, lo, hi, meaning, f) && CnfOver(cnf, vars, base, hi)
    ensures kind == Normal ==> |cnf| > 0 && |cnf[|cnf| - 1]| == 1
    ensures Represents(InvertKind(kind), InvertCnf(kind, cnf), base, lo, hi, meaning, Complement(f))
    ensures CnfOver(InvertCnf(kind, cnf), vars, base, hi)
  {
    NegatedRoot(kind, cnf, base, lo, hi, meaning, f);
    InvertOver(kind, cnf, vars, base, hi);
  }

  lemma OneTentative(status: seq<Status>, assumptionClauses: seq<nat>, i: nat, status': seq<Status>)
    requires i <= |status| && |status'| == if i == |status| then |status| + 1 else |status|
    requires status'[i] == Tentative && forall j :: 0 <= j < |status| && j != i ==> status'[j] == status[j]
    requires forall j :: 0 <= j < |status| ==> (status[j] == Tentative <==> (j + 1) in assumptionClauses)
    requires forall id :: id in assumptionClauses ==> 0 < id <= |status|
    ensures forall j :: 0 <= j < |status'| ==> (status'[j] == Tentative <==> (j + 1) in assumptionClauses + [i + 1])
  {
    forall j | 0 <= j < |status'|
      ensures status'[j] == Tentative <==> (j + 1) in assumptionClauses + [i + 1]
    {
      assert j != i && j < |status| ==> (status[j] == Tentative <==> (j + 1) in assumptionClauses);
    }
  }

  lemma LastEntry(enabled: set<Construction>, p: Problem, g: Graphs, status: seq<Status>, contents: seq<Clause>,
                  table: seq<CraigData>)
    requires TableOk(enabled, p, g, status, contents, table) && |table| > 0 && status[|table| - 1] == Permanent
    requires forall l :: l in p.assumed ==> Abs(l) in p.labels
    ensures AllSound(enabled, p, g, Lits(contents[|table| - 1]), table[|table| - 1])
  {
    hide AllSound;
    var i := |table| - 1;
    assert EntryOk(enabled, p, g, status[i], contents[i], table[i]) && LabelledClause(p.labels, contents[i]);
    assert Extends(Under(p, Permanent), p);
    AllSoundExtends(enabled, Under(p, Permanent), p, g, Lits(contents[i]), table[i]);
  }

  lemma TableReplace(enabled: set<Construction>, p: Problem, g: Graphs, status: seq<Status>, contents: seq<Clause>,
                     table: seq<CraigData>, c: Clause, data: CraigData)
    requires TableOk(enabled, p, g, status, contents, table) && |table| > 0
    requires AllSound(enabled, p, g, Lits(c), data) && Lits(c) <= Lits(contents[|table| - 1])
    ensures var i := |table| - 1;
            TableOk(enabled, p, g, status[i := Tentative], contents[i := c], table[i := data])
  {
    hide Sound, Mirrored;
    var i := |table| - 1;
    assert LabelledClause(p.labels, contents[i]);
    forall l | l in c ensures l != 0 && Abs(l) in p.labels { assert l in Lits(c); }
  }

  lemma {:induction false} RemainingWithin(c: Clause, assumptions: set<int>)
    ensures Lits(Remaining(c, assumptions)) == set l | l in c && -l !in assumptions
    decreases |c|
  {
    if c != [] {
      var front, last := c[..|c| - 1], c[|c| - 1];
      RemainingWithin(front, assumptions);
      assert c == front + [last];
      assert Lits(Remaining(c, assumptions)) ==
             Lits(Remaining(front, assumptions)) + (if -last in assumptions then {} else {last});
    }
  }

  lemma NothingRemains(c: Clause, assumptions: set<int>)
    requires |c| == 2 && -c[0] in assumptions && -c[1] in assumptions
    ensures Remaining(c, assumptions) == []
  {
    var front := c[..1];
    assert front[..0] == [] && Remaining([], assumptions) == [];
    assert Remaining(front, assumptions) == Remaining([], assumptions) + [];
  }

  /** The literals that do not negate an assumption. */
  function Remaining(c: Clause, assumptions: set<int>): Clause
  {
    if c == [] then []
    else
      var last := c[|c| - 1];
      Remaining(c[..|c| - 1], assumptions) + (if -last in assumptions then [] else [last])
  }

  lemma RemainingStep(c: Clause, j: nat, assumptions: set<int>)
    requires j < |c|
    ensures Lits(c[j..]) == {c[j]} + Lits(c[j + 1..])
    ensures Lits(Remaining(c[..j + 1], assumptions)) ==
            Lits(Remaining(c[..j], assumptions)) + (if -c[j] in assumptions then {} else {c[j]})
  {
    assert c[j..] == [c[j]] + c[j + 1..];
    var d := c[..j + 1];
    assert d[..|d| - 1] == c[..j] && d[|d| - 1] == c[j];
    var front := Remaining(c[..j], assumptions);
    assert -c[j] !in assumptions ==> Remaining(d, assumptions) == front + [c[j]];
    assert forall l :: l in front + [c[j]] <==> l in front || l == c[j];
    assert front + [] == front;
  }

  function EndTentative(status: seq<Status>): (r: seq<Status>)
    ensures |r| == |status|
    ensures forall i :: 0 <= i < |status| ==> r[i] == if status[i] == Tentative then Expired else status[i]
  {
    seq(|status|, i requires 0 <= i < |status| => if status[i] == Tentative then Expired else status[i])
  }

  lemma UnitSound(enabled: set<Construction>, p: Problem, g: Graphs, literal: int, data: CraigData)
    requires literal in p.assumed && EdgesIn(g, data)
    requires forall k, s :: Eval(g.Of(k), data.EdgeOf(k), s) == AssumptionValue(k, TypeOf(p.labels, literal))
    ensures AllSound(enabled, p, g, {literal}, data)
  {
    hide Eval, Sound;
    forall k | k in enabled ensures Sound(k, p, g.Of(k), {literal}, data.EdgeOf(k)) {
      SoundAssumption(k, p, g.Of(k), literal, data.EdgeOf(k));
    }
    forall s ensures Eval(g.dualSym, data.dualSym, s) == !Eval(g.sym, data.sym, s) {
      assert Eval(g.Of(Symmetric), data.EdgeOf(Symmetric), s) == AssumptionValue(Symmetric, TypeOf(p.labels, literal));
      assert Eval(g.Of(DualSymmetric), data.EdgeOf(DualSymmetric), s) ==
             AssumptionValue(DualSymmetric, TypeOf(p.labels, literal));
    }
  }

  lemma Derive(ds: seq<Clause>, c: Clause, pivots: seq<int>, steps: seq<Step>)
    requires UnitChain(ds, c, pivots) && |ds| > 0
    requires steps == ChainSteps(ds, |ds| - 1, Lits(ds[|ds| - 1]))
    ensures |pivots| == |ds| - 1 && StepsWithin(steps, |ds|) && RunClause(ds, steps, Lits(ds[|ds| - 1])) <= Lits(c)
  {
    BackwardPass(ds, c, pivots, steps);
  }

  /** The clause as an addition to the given side. */
  function OnSide(c: Clause, kind: ClauseType, side: ClauseType): seq<Clause>
  {
    if kind == side then [c] else []
  }

  /** The clauses of one side, in order. */
  ghost function Sided(originals: seq<(Clause, ClauseType)>, side: ClauseType): seq<Clause>
  {
    if originals == [] then []
    else
      var last := originals[|originals| - 1];
      Sided(originals[..|originals| - 1], side) + OnSide(last.0, last.1, side)
  }

  lemma SidedAdd(originals: seq<(Clause, ClauseType)>, c: Clause, kind: ClauseType)
    ensures forall side :: Sided(originals + [(c, kind)], side) == Sided(originals, side) + OnSide(c, kind, side)
  {
    var more := originals + [(c, kind)];
    assert more[..|more| - 1] == originals;
  }

  ghost predicate SideOk(labels: Labels, f: seq<Clause>, side: ClauseType)
  {
    forall c :: c in f ==> RespectsLabel(labels, c, side)
  }

  lemma OverWider(nodes: seq<AigNode>, vars: set<int>, more: set<int>)
    requires Over(nodes, vars) && vars <= more
    ensures Over(nodes, more)
  {
  }

  lemma SideRelabels(was: Labels, labels: Labels, f: seq<Clause>, side: ClauseType, id: int)
    requires SideOk(was, f, side) && (forall c, l :: c in f && l in c ==> Abs(l) != id)
    requires forall v :: v != id ==> (v in was <==> v in labels) && (v in was ==> labels[v] == was[v])
    ensures SideOk(labels, f, side)
  {
    forall c | c in f ensures RespectsLabel(labels, c, side) {
      assert RespectsLabel(was, c, side);
      forall l | l in c ensures TypeOf(labels, l) == TypeOf(was, l) && Abs(l) in labels {}
    }
  }

  lemma SideGrows(labels: Labels, f: seq<Clause>, c: Clause, kind: ClauseType, side: ClauseType)
    requires SideOk(labels, f, side) && RespectsLabel(labels, c, kind)
    ensures SideOk(labels, f + OnSide(c, kind, side), side)
  {
  }

  lemma MoreLabels(enabled: set<Construction>, p: Problem, q: Problem, g: Graphs, status: seq<Status>,
                   contents: seq<Clause>, table: seq<CraigData>, a: seq<Clause>, b: seq<Clause>)
    requires TableOk(enabled, p, g, status, contents, table)
    requires q == p.(labels := q.labels) && forall v :: v in p.labels ==> v in q.labels && q.labels[v] == p.labels[v]
    requires forall l :: l in p.assumed ==> Abs(l) in p.labels
    requires SideOk(p.labels, a, AClause) && SideOk(p.labels, b, BClause)
    ensures TableOk(enabled, q, g, status, contents, table)
    ensures SideOk(q.labels, a, AClause) && SideOk(q.labels, b, BClause)
  {
    hide TableOk;
    assert Extends(p, q);
    TableExtends(enabled, p, q, g, status, contents, table);
  }

  lemma NotTentative(status: seq<Status>, assumptionClauses: seq<nat>, st: Status)
    requires st != Tentative
    requires forall i :: 0 <= i < |status| ==> (status[i] == Tentative <==> (i + 1) in assumptionClauses)
    requires forall id :: id in assumptionClauses ==> 0 < id <= |status|
    ensures forall i :: 0 <= i < |status + [st]| ==> ((status + [st])[i] == Tentative <==> (i + 1) in assumptionClauses)
  {
  }

  lemma NewEntry(enabled: set<Construction>, p: Problem, g: Graphs, h: Graphs, status: seq<Status>,
                 contents: seq<Clause>, table: seq<CraigData>, st: Status, c: Clause, data: CraigData)
    requires TableOk(enabled, p, g, status, contents, table) && GrownAll(g, h) && st != Expired
    requires AllSound(enabled, Under(p, st), h, Lits(c), data) && LabelledClause(p.labels, c)
    ensures TableOk(enabled, p, h, status + [st], contents + [c], table + [data])
  {
    hide TableOk, GrownAll, Sound, Mirrored;
    TableGrown(enabled, p, g, h, status, contents, table);
    TableAppend(enabled, p, h, status, contents, table, st, c, data);
  }

  lemma NewOriginal(enabled: set<Construction>, p: Problem, q: Problem, g: Graphs, h: Graphs, status: seq<Status>,
                    contents: seq<Clause>, table: seq<CraigData>, c: Clause, kind: ClauseType, data: CraigData)
    requires TableOk(enabled, p, g, status, contents, table) && GrownAll(g, h) && EdgesIn(h, data)
    requires RespectsLabel(p.labels, c, kind) && forall l :: l in p.assumed ==> Abs(l) in p.labels
    requires q == p.(a := p.a + OnSide(c, kind, AClause), b := p.b + OnSide(c, kind, BClause))
    requires forall k, s :: k in enabled ==> Eval(h.Of(k), data.EdgeOf(k), s) == ClauseValue(k, p.labels, c, kind, s)
    ensures TableOk(enabled, q, h, status + [Permanent], contents + [c], table + [data])
  {
    hide TableOk, GrownAll, Sound;
    assert Extends(p, q);
    TableExtends(enabled, p, q, g, status, contents, table);
    var r := Under(q, Permanent);
    forall k | k in enabled ensures Sound(k, r, h.Of(k), Lits(c), data.EdgeOf(k)) {
      SoundOriginal(k, r, h.Of(k), c, kind, data.EdgeOf(k));
    }
    MirroredStart(enabled, p.labels, h, c, kind, data);
    NewEntry(enabled, q, g, h, status, contents, table, Permanent, c, data);
  }

  lemma OriginalSound(enabled: set<Construction>, q: Problem, h: Graphs, c: Clause, kind: ClauseType, data: CraigData)
    requires RespectsLabel(q.labels, c, kind) && EdgesIn(h, data)
    requires (kind == AClause ==> c in q.a) && (kind == BClause ==> c in q.b)
    requires forall k, s :: k in enabled ==> Eval(h.Of(k), data.EdgeOf(k), s) == ClauseValue(k, q.labels, c, kind, s)
    ensures AllSound(enabled, q, h, Lits(c), data)
  {
    hide Sound;
    forall k | k in enabled ensures Sound(k, q, h.Of(k), Lits(c), data.EdgeOf(k)) {
      SoundOriginal(k, q, h.Of(k), c, kind, data.EdgeOf(k));
    }
    MirroredStart(enabled, q.labels, h, c, kind, data);
  }

  lemma OnOwnSide(p: Problem, a: seq<Clause>, b: seq<Clause>, c: Clause, kind: ClauseType)
    requires p.a == a + OnSide(c, kind, AClause) && p.b == b + OnSide(c, kind, BClause)
    ensures (kind == AClause ==> c in p.a) && (kind == BClause ==> c in p.b)
  {
  }

  // ----- Failed constraints --------------------------------------------------------------------------

  /** With unit entries, each step removes its pivot and nothing else. */
  lemma {:induction false} RunUnits(cs: seq<Clause>, steps: seq<Step>, start: set<int>)
    requires StepsWithin(steps, |cs|) && forall t :: t in steps ==> Lits(cs[t.index]) <= {-t.pivot}
    ensures RunClause(cs, steps, start) == start - set t | t in steps :: t.pivot
    decreases |steps|
  {
    if steps != [] {
      var n := |steps| - 1;
      RunUnits(cs, steps[..n], start);
      assert steps == steps[..n] + [steps[n]];
      assert steps[n] in steps;
    }
  }

  /** The entry resolves its literal of the constraint. */
  predicate Resolves(ds: seq<Clause>, lits: seq<int>, i: int)
  {
    0 <= i < |ds| && i < |lits| && -lits[i] in ds[i]
  }

  /** The entries of a failed constraint: one that resolves its literal has nothing but the negation left after the
      assumptions are resolved, and no other stored literal is negated in the constraint or in an entry. */
  ghost predicate ConstraintChain(c: Clause, ds: seq<Clause>, cs: seq<Clause>, lits: seq<int>)
  {
    && |ds| == |cs| == |lits|
    && (forall i :: 0 <= i < |ds| ==> lits[i] in c && lits[i] != 0)
    && (forall i :: 0 <= i < |ds| && Resolves(ds, lits, i) ==> Lits(cs[i]) <= {-lits[i]} && forall j :: 0 <= j < |ds| ==> lits[i] !in ds[j])
    && (forall i, m :: 0 <= i < |ds| && m in ds[i] && m != -lits[i] ==> Harmless(c, ds, m))
  }

  ghost predicate Harmless(c: Clause, ds: seq<Clause>, m: int)
  {
    -m !in c && forall j :: 0 <= j < |ds| ==> -m !in ds[j]
  }

  /** Each step of the first n entries is on the literal of its entry, and each entry that resolves has a step. */
  ghost predicate OnLiterals(steps: seq<Step>, ds: seq<Clause>, lits: seq<int>, n: nat)
  {
    && n <= |lits| && (forall t :: t in steps ==> t.index < n && Resolves(ds, lits, t.index) && t.pivot == lits[t.index])
    && forall i :: 0 <= i < n && Resolves(ds, lits, i) ==> Uses(steps, i)
  }

  ghost predicate MarksFrom(marked: set<int>, c: Clause, ds: seq<Clause>)
  {
    Lits(c) <= marked && forall m :: m in marked ==> m in c || exists j :: 0 <= j < |ds| && m in ds[j]
  }

  lemma {:induction false} ConstraintSteps(c: Clause, ds: seq<Clause>, cs: seq<Clause>, lits: seq<int>, n: nat, marked: set<int>)
    requires |ds| == |lits| && ConstraintChain(c, ds, cs, lits) && n <= |ds| && MarksFrom(marked, c, ds)
    ensures OnLiterals(ChainSteps(ds, n, marked), ds, lits, n)
    decreases n
  {
    hide ConstraintChain, MarksFrom, OnLiterals, ClauseSteps, Resolves;
    NoLiterals(ds, lits);
    if n > 0 {
      var d := ds[n - 1];
      ConstraintScan(c, ds, cs, lits, n - 1, marked);
      ConstraintMarks(ds, n - 1, marked, c);
      ConstraintSteps(c, ds, cs, lits, n - 1, marked + Lits(d));
      JoinLiterals(ClauseSteps(marked, d, n - 1), ChainSteps(ds, n - 1, marked + Lits(d)), ds, lits, n - 1);
    }
  }

  lemma NoLiterals(ds: seq<Clause>, lits: seq<int>)
    ensures OnLiterals([], ds, lits, 0)
  {
  }

  lemma JoinLiterals(head: seq<Step>, rest: seq<Step>, ds: seq<Clause>, lits: seq<int>, n: nat)
    requires n < |lits| && OnLiterals(rest, ds, lits, n) && (head == [] <==> !Resolves(ds, lits, n))
    requires forall t :: t in head ==> t == Step(lits[n], n)
    ensures OnLiterals(head + rest, ds, lits, n + 1)
  {
    forall i | 0 <= i < n + 1 && Resolves(ds, lits, i) ensures Uses(head + rest, i) {
      if i == n {
        assert head[0] in head && head[0] in head + rest;
      } else {
        assert Uses(rest, i);
        var t: Step :| t in rest && t.index == i;
        assert t in head + rest;
      }
    }
  }

  lemma ConstraintMarks(ds: seq<Clause>, n: nat, marked: set<int>, c: Clause)
    requires n < |ds| && MarksFrom(marked, c, ds)
    ensures MarksFrom(marked + Lits(ds[n]), c, ds)
  {
  }

  lemma ConstraintScan(c: Clause, ds: seq<Clause>, cs: seq<Clause>, lits: seq<int>, n: nat, marked: set<int>)
    requires ConstraintChain(c, ds, cs, lits) && n < |ds| && MarksFrom(marked, c, ds)
    ensures ClauseSteps(marked, ds[n], n) == [] <==> !Resolves(ds, lits, n)
    ensures forall t :: t in ClauseSteps(marked, ds[n], n) ==> t == Step(lits[n], n)
  {
    var d, l := ds[n], lits[n];
    forall m | m in d && m != -l ensures -m !in marked && -m !in d {
      assert Harmless(c, ds, m);
    }
    assert l in Lits(c) && - -l == l && (-l in d ==> l !in d);
    hide ConstraintChain, MarksFrom;
    ScanPivot(marked, d, n, -l);
    OccursNot(-l, d);
  }

  lemma UnitSteps(c: Clause, ds: seq<Clause>, cs: seq<Clause>, lits: seq<int>, steps: seq<Step>)
    requires ConstraintChain(c, ds, cs, lits) && OnLiterals(steps, ds, lits, |ds|)
    ensures StepsWithin(steps, |cs|) && forall t :: t in steps ==> Lits(cs[t.index]) <= {-t.pivot}
  {
  }

  /** Exactly the literals without an entry that resolves them are left. */
  lemma ConstraintResolved(c: Clause, ds: seq<Clause>, cs: seq<Clause>, lits: seq<int>)
    requires ConstraintChain(c, ds, cs, lits)
    ensures StepsWithin(ChainSteps(ds, |ds|, Lits(c)), |cs|)
    ensures RunClause(cs, ChainSteps(ds, |ds|, Lits(c)), Lits(c)) ==
            set l | l in Lits(c) && forall i :: 0 <= i < |lits| && lits[i] == l ==> !Resolves(ds, lits, i)
  {
    hide ChainSteps, RunClause, Harmless, Resolves;
    var steps := ChainSteps(ds, |ds|, Lits(c));
    ConstraintSteps(c, ds, cs, lits, |ds|, Lits(c));
    UnitSteps(c, ds, cs, lits, steps);
    RunUnits(cs, steps, Lits(c));
    hide ConstraintChain;
    var pivots := set t | t in steps :: t.pivot;
    forall l | l in Lits(c)
      ensures l in pivots <==> exists i :: 0 <= i < |lits| && lits[i] == l && Resolves(ds, lits, i)
    {
      if i :| 0 <= i < |lits| && lits[i] == l && Resolves(ds, lits, i) {
        assert Uses(steps, i);
        var t :| t in steps && t.index == i;
        assert t.pivot == l;
      }
    }
  }

  /** What the solver sends for a failed constraint, where decided are the assumptions that were decided: an entry for each
      literal. If its negation was decided, that is the entry of a single assumption. Otherwise it stores the negation of
      the literal beside negations of decided assumptions. */
  ghost predicate FailedChain(c: Clause, ds: seq<Clause>, cs: seq<Clause>, lits: seq<int>, decided: set<int>, assumed: set<int>)
  {
    && |ds| == |cs| == |lits| && ProperClause(c) && NonTautological(c) && decided <= assumed
    && (forall l, m :: l in decided && m in decided ==> l != -m)
    && (forall l :: l in c ==> l !in decided && l in lits)
    && (forall i :: 0 <= i < |lits| ==> lits[i] in c)
    && (forall i :: 0 <= i < |lits| && Negated(decided, lits[i]) ==> ds[i] == [lits[i]] && cs[i] == [-lits[i]])
    && (forall i :: 0 <= i < |lits| && !Negated(decided, lits[i]) ==> Resolves(ds, lits, i) && Lits(cs[i]) == Lits(Remaining(ds[i], assumed)))
    && (forall i, m :: 0 <= i < |lits| && !Negated(decided, lits[i]) && m in ds[i] && m != -lits[i] ==> Negated(decided, m))
  }

  predicate Negated(decided: set<int>, l: int)
  {
    -l in decided
  }

  lemma FailedOther(c: Clause, ds: seq<Clause>, cs: seq<Clause>, lits: seq<int>, decided: set<int>, assumed: set<int>, m: int)
    requires FailedChain(c, ds, cs, lits, decided, assumed) && Negated(decided, m)
    ensures Harmless(c, ds, m)
  {
    assert !Negated(decided, -m);
    forall j | 0 <= j < |ds| ensures -m !in ds[j] {
      assert lits[j] in c;
      if Negated(decided, lits[j]) {
        assert ds[j] == [lits[j]];
      } else {
        assert -m != -lits[j];
        assert -m in ds[j] ==> Negated(decided, -m);
      }
    }
  }

  /** Of the literals of a failed constraint exactly those whose negations were decided are left. */
  lemma ConstraintLeft(c: Clause, ds: seq<Clause>, cs: seq<Clause>, lits: seq<int>, decided: set<int>, assumed: set<int>)
    requires FailedChain(c, ds, cs, lits, decided, assumed)
    ensures StepsWithin(ChainSteps(ds, |ds|, Lits(c)), |cs|)
    ensures RunClause(cs, ChainSteps(ds, |ds|, Lits(c)), Lits(c)) == set l | l in Lits(c) && Negated(decided, l)
  {
    hide ChainSteps, RunClause;
    FailedIsChain(c, ds, cs, lits, decided, assumed);
    ConstraintResolved(c, ds, cs, lits);
    forall l | l in Lits(c)
      ensures Negated(decided, l) <==> forall i :: 0 <= i < |lits| && lits[i] == l ==> !Resolves(ds, lits, i)
    {
      var i :| 0 <= i < |lits| && lits[i] == l;
      assert Negated(decided, l) ==> forall i :: 0 <= i < |lits| && lits[i] == l ==> !Resolves(ds, lits, i);
    }
  }

  lemma FailedIsChain(c: Clause, ds: seq<Clause>, cs: seq<Clause>, lits: seq<int>, decided: set<int>, assumed: set<int>)
    requires FailedChain(c, ds, cs, lits, decided, assumed)
    ensures ConstraintChain(c, ds, cs, lits)
  {
    forall i, m | 0 <= i < |ds| && m in ds[i] && m != -lits[i]
      ensures Harmless(c, ds, m)
    {
      if Negated(decided, lits[i]) { assert ds[i] == [lits[i]]; }
      FailedOther(c, ds, cs, lits, decided, assumed, m);
    }
    forall i | 0 <= i < |ds| && Resolves(ds, lits, i)
      ensures Lits(cs[i]) <= {-lits[i]} && forall j :: 0 <= j < |ds| ==> lits[i] !in ds[j]
    {
      FailedResolves(c, ds, cs, lits, decided, assumed, i);
    }
  }

  lemma FailedResolves(c: Clause, ds: seq<Clause>, cs: seq<Clause>, lits: seq<int>, decided: set<int>, assumed: set<int>, i: nat)
    requires FailedChain(c, ds, cs, lits, decided, assumed) && i < |lits| && Resolves(ds, lits, i)
    ensures Lits(cs[i]) <= {-lits[i]} && forall j :: 0 <= j < |ds| ==> lits[i] !in ds[j]
  {
    assert lits[i] in c && !Negated(decided, lits[i]);
    RemainingOnly(ds[i], assumed, -lits[i]);
    forall j | 0 <= j < |ds| ensures lits[i] !in ds[j] {
      assert lits[j] in c;
      if Negated(decided, lits[j]) { assert ds[j] == [lits[j]]; } else { assert lits[i] != -lits[j]; }
    }
  }

  /** If all literals but one negate assumptions, at most that one remains. */
  lemma RemainingOnly(c: Clause, assumed: set<int>, l: int)
    requires forall m :: m in c && m != l ==> Negated(assumed, m)
    ensures Lits(Remaining(c, assumed)) <= {l}
  {
    RemainingWithin(c, assumed);
  }

  lemma FailedAssumed(p: Problem, c: Clause, ds: seq<Clause>, cs: seq<Clause>, lits: seq<int>, decided: set<int>)
    requires FailedChain(c, ds, cs, lits, decided, p.assumed)
    ensures StepsWithin(ChainSteps(ds, |ds|, Lits(c)), |cs|)
    ensures NegationsAssumed(p, RunClause(cs, ChainSteps(ds, |ds|, Lits(c)), Lits(c)))
  {
    hide ChainSteps, RunClause;
    ConstraintLeft(c, ds, cs, lits, decided, p.assumed);
  }

  lemma FailedSettles(p: Problem, c: Clause, ds: seq<Clause>, cs: seq<Clause>)
    requires StepsWithin(ChainSteps(ds, |ds|, Lits(c)), |cs|)
    ensures (exists lits, decided :: FailedChain(c, ds, cs, lits, decided, p.assumed)) ==>
              NegationsAssumed(p, RunClause(cs, ChainSteps(ds, |ds|, Lits(c)), Lits(c)))
  {
    hide *;
    if lits, decided :| FailedChain(c, ds, cs, lits, decided, p.assumed) {
      FailedAssumed(p, c, ds, cs, lits, decided);
    }
  }

  /** After an A-local variable is labelled B-local, the starting edge of an A clause is no partial interpolant of it. */
  lemma RelabelledUnsound()
    ensures var p := Problem(map[1 := ALocal], [[1]], [], {});
            Sound(Symmetric, p, [], {1}, FALSE_EDGE) && !Sound(Symmetric, p.(labels := map[1 := BLocal]), [], {1}, FALSE_EDGE)
  {
    var p := Problem(map[1 := ALocal], [[1]], [], {});
    assert Lits([1]) == {1};
    SoundOriginal(Symmetric, p, [], [1], AClause, FALSE_EDGE);
    var q, s: Assignment := p.(labels := map[1 := BLocal]), iset{1};
    assert ClauseTrue(s, [1]) by { assert 1 in [1] && LitTrue(s, 1); }
    assert !Partial(Symmetric, q.labels, s, LeftTrue(Symmetric, q, s), RightTrue(Symmetric, q, s), {1}, Eval([], FALSE_EDGE, s));
  }

  /** The entry for a single assumption stores the literal of the constraint itself, so the pass takes no step and leaves
      that literal. The entry of its negation would be resolved. */
  lemma SingleAssumptionLeft(l: int)
    requires l != 0
    ensures ChainSteps([[l]], 1, {l}) == [] && RunClause([[-l]], [], {l}) == {l}
    ensures ChainSteps([[-l]], 1, {l}) == [Step(l, 0)]
    ensures FailedChain([l], [[l]], [[-l]], [l], {-l}, {-l})
  {
    assert [l][1..] == [] && [-l][1..] == [];
    assert ClauseSteps({l}, [l], 0) == [];
    assert ClauseSteps({l}, [-l], 0) == [Step(l, 0)];
    assert [l][0] == l && l in [l];
  }

  /** A tracer with one global variable that is assumed, and a constraint that it fails. */
  method GlobalAssumption() returns (t: Tracer)
    ensures fresh(t) && fresh(t.symAig) && fresh(t.asymAig) && fresh(t.dualSymAig) && fresh(t.dualAsymAig) && t.Valid()
    ensures t.enabled == {Symmetric, Asymmetric, DualSymmetric, DualAsymmetric} && t.labels == map[1 := Global]
    ensures t.aSide == [] && t.bSide == [] && t.assumptions == {1} && t.constraint == [-1] && t.constraintLabel == AClause
    ensures t.clauses == []
  {
    hide Tracer.Valid, Tracer.Unused, Tracer.Snapshot, Over, Globals;
    t := new Tracer({Symmetric, Asymmetric, DualSymmetric, DualAsymmetric});
    t.LabelVariable(1, Global);
    t.LabelConstraint(AClause);
    t.AddAssumption(1);
    t.AddConstraint([-1]);
  }

  /** The entry for its single assumption. */
  method GlobalEntry(t: Tracer)
    requires t.Valid() && t.labels == map[1 := Global] && t.assumptions == {1} && t.clauses == []
    modifies t, t.symAig, t.asymAig, t.dualSymAig, t.dualAsymAig
    ensures t.Valid() && t.labels == old(t.labels) && t.assumptions == old(t.assumptions) && t.constraint == old(t.constraint)
    ensures t.aSide == old(t.aSide) && t.bSide == old(t.bSide) && t.constraintLabel == old(t.constraintLabel)
    ensures t.TentativeChain([1], [[-1]], [[1]])
  {
    hide Tracer.Valid, UnitChain, Tracer.LiveChain, Remaining, Lits, Tracer.Snapshot;
    t.AddAssumptionClause(1, [-1, 1], [], [], []);
    t.SameLengths();
  }

  /** A run that fails the constraint -1 by the global assumption 1. The two symmetric systems do not separate with the
      assumption on the B side only; all four systems interpolate with the assumption on both sides. */
  method SingleAssumptionRun() returns (t: Tracer)
    ensures fresh(t) && t.Valid() && t.interpolant.Some? && t.concluded == OneAssumption() && t.leftover == {-1}
    ensures forall k :: k == Symmetric || k == DualSymmetric ==>
              !Separates(k, t.concluded, t.Snapshot().Of(k), t.interpolant.value.EdgeOf(k))
    ensures forall k :: Interpolates(t.concluded, t.Offered(k))
  {
    hide Tracer.Valid, Separates, Interpolates, Tracer.Offered, NegationsAssumed, RunClause, ChainSteps, FailedChain, Eval, Discharges;
    hide Tracer.Snapshot;
    t := GlobalAssumption();
    GlobalEntry(t);
    SingleAssumptionLeft(-1);
    assert {- -1} == {1} && [- -1] == [1] && Lits([-1]) == {-1};
    t.ConcludeConstraint([1], [[-1]], [[1]]);
    assert OnSide([-1], AClause, AClause) == [[-1]] && OnSide([-1], AClause, BClause) == [];
    assert t.concluded == OneAssumption();
    assert FailedChain(t.constraint, [[-1]], [[1]], [-1], {1}, t.assumptions);
    forall k ensures k in t.enabled { InOrder(k); }
    forall k | k == Symmetric || k == DualSymmetric
      ensures !Separates(k, t.concluded, t.Snapshot().Of(k), t.interpolant.value.EdgeOf(k))
    {
      NotSeparating(k, t.Snapshot().Of(k), t.interpolant.value.EdgeOf(k));
    }
  }

  /** An edge that is constantly the starting value of the clause does not separate. */
  lemma NotSeparating(k: Construction, nodes: seq<AigNode>, e: Edge)
    requires k == Symmetric || k == DualSymmetric
    requires forall s :: Eval(nodes, e, s) == ClauseValue(k, map[1 := Global], [-1], AClause, s)
    ensures !Separates(k, OneAssumption(), nodes, e)
  {
    var s: Assignment := iset{};
    assert ClauseTrue(s, [-1]) by { assert -1 in [-1] && LitTrue(s, -1); }
    assert LeftTrue(k, OneAssumption(), s) && !Stored(k, Eval(nodes, e, s));
  }

  lemma MirroredStart(enabled: set<Construction>, labels: Labels, h: Graphs, c: Clause, kind: ClauseType, data: CraigData)
    requires kind != LClause
    requires forall k, s :: k in enabled ==> Eval(h.Of(k), data.EdgeOf(k), s) == ClauseValue(k, labels, c, kind, s)
    ensures Mirrored(enabled, h, data)
  {
    hide Eval;
    if Symmetric in enabled && DualSymmetric in enabled {
      forall s ensures Eval(h.dualSym, data.dualSym, s) == !Eval(h.sym, data.sym, s) {
        assert Eval(h.Of(Symmetric), data.EdgeOf(Symmetric), s) == ClauseValue(Symmetric, labels, c, kind, s);
        assert Eval(h.Of(DualSymmetric), data.EdgeOf(DualSymmetric), s) == ClauseValue(DualSymmetric, labels, c, kind, s);
      }
    }
  }

  method AsymmetricStart(on: bool, aig: Aig, labels: Labels, c: Clause, kind: ClauseType) returns (e: Edge)
    requires aig.Valid() && ProperClause(c) && Over(aig.nodes, Globals(labels)) && kind != LClause
    requires forall l :: l in c ==> Abs(l) in labels
    modifies aig
    ensures aig.Valid() && Over(aig.nodes, Globals(labels)) && Grown(old(aig.nodes), aig.nodes) && EdgeBelow(e, |aig.nodes|)
    ensures on ==> forall s :: Eval(aig.nodes, e, s) == ClauseValue(Asymmetric, labels, c, kind, s)
  {
    hide Aig.Valid;
    e := TRUE_EDGE;
    if on && kind == AClause {
      var edges := GlobalEdges(aig, labels, c, 1);
      ghost var middle := aig.nodes;
      e := aig.CreateOrAll(edges);
      GrownTransitive(old(aig.nodes), middle, aig.nodes);
      assert GlobalsIn(labels, c, Globals(labels));
      forall s ensures Eval(aig.nodes, e, s) == ClauseValue(Asymmetric, labels, c, kind, s) {
        assert AnyEval(middle, edges, s) <==> AnyGlobal(labels, c, 1, s);
        assert forall l :: l in c ==> 1 * l == l;
      }
    }
  }

  method DualAsymmetricStart(on: bool, aig: Aig, labels: Labels, c: Clause, kind: ClauseType) returns (e: Edge)
    requires aig.Valid() && ProperClause(c) && Over(aig.nodes, Globals(labels)) && kind != LClause
    requires forall l :: l in c ==> Abs(l) in labels
    modifies aig
    ensures aig.Valid() && Over(aig.nodes, Globals(labels)) && Grown(old(aig.nodes), aig.nodes) && EdgeBelow(e, |aig.nodes|)
    ensures on ==> forall s :: Eval(aig.nodes, e, s) == ClauseValue(DualAsymmetric, labels, c, kind, s)
  {
    hide Aig.Valid;
    e := TRUE_EDGE;
    if on && kind == AClause {
      e := FALSE_EDGE;
    } else if on {
      var edges := GlobalEdges(aig, labels, c, -1);
      ghost var middle := aig.nodes;
      e := aig.CreateAndAll(edges);
      GrownTransitive(old(aig.nodes), middle, aig.nodes);
      assert GlobalsIn(labels, c, Globals(labels));
      forall s ensures Eval(aig.nodes, e, s) == ClauseValue(DualAsymmetric, labels, c, kind, s) {
        assert AllEval(middle, edges, s) <==> AllGlobal(labels, c, -1, s);
        assert forall l :: l in c ==> -1 * l == -l;
      }
    }
  }

  lemma StartValues(enabled: set<Construction>, labels: Labels, c: Clause, kind: ClauseType, g: Graphs, h: Graphs,
                    data: CraigData)
    requires kind != LClause && h.sym == g.sym && h.dualSym == g.dualSym
    requires Grown(g.asym, h.asym) && Grown(g.dualAsym, h.dualAsym)
    requires EdgeBelow(data.asym, |h.asym|) && EdgeBelow(data.dualAsym, |h.dualAsym|)
    requires data.sym == (if kind == AClause && Symmetric in enabled then FALSE_EDGE else TRUE_EDGE)
    requires data.dualSym == (if kind == BClause && DualSymmetric in enabled then FALSE_EDGE else TRUE_EDGE)
    requires Asymmetric in enabled ==> forall s :: Eval(h.asym, data.asym, s) == ClauseValue(Asymmetric, labels, c, kind, s)
    requires DualAsymmetric in enabled ==>
               forall s :: Eval(h.dualAsym, data.dualAsym, s) == ClauseValue(DualAsymmetric, labels, c, kind, s)
    ensures GrownAll(g, h) && EdgesIn(h, data)
    ensures forall k, s :: k in enabled ==> Eval(h.Of(k), data.EdgeOf(k), s) == ClauseValue(k, labels, c, kind, s)
  {
    forall k
      ensures Grown(g.Of(k), h.Of(k)) && EdgeBelow(data.EdgeOf(k), |h.Of(k)|)
      ensures k in enabled ==> forall s :: Eval(h.Of(k), data.EdgeOf(k), s) == ClauseValue(k, labels, c, kind, s)
    {
      match k
      case Symmetric =>
      case Asymmetric =>
      case DualSymmetric =>
      case DualAsymmetric =>
    }
  }

  /** ds holds the stored antecedents of the chain. */
  ghost predicate ChainOf(clauses: seq<Clause>, chain: seq<nat>, ds: seq<Clause>)
  {
    && |ds| == |chain|
    && (forall i :: 0 <= i < |chain| ==> 0 < chain[i] <= |clauses|)
    && (forall i :: 0 <= i < |chain| ==> ds[i] == clauses[chain[i] - 1])
  }

  lemma SameLiterals(d: Clause, c: Clause)
    requires Lits(d) == Lits(c)
    ensures forall l :: l in d <==> l in c
  {
    assert forall l :: l in d <==> l in Lits(d);
    assert forall l :: l in c <==> l in Lits(c);
  }

  lemma RunNothing(ds: seq<Clause>, start: set<int>)
    ensures RunClause(ds, [], start) == start
  {
  }

  lemma ChainStepsUnfold(ds: seq<Clause>, n: nat, now: set<int>, steps: seq<Step>)
    requires 0 < n <= |ds|
    ensures steps + ChainSteps(ds, n, now) ==
            (steps + ClauseSteps(now, ds[n - 1], n - 1)) + ChainSteps(ds, n - 1, now + Lits(ds[n - 1]))
  {
  }

  lemma ChainStepsEnd(ds: seq<Clause>, now: set<int>, steps: seq<Step>)
    ensures steps + ChainSteps(ds, 0, now) == steps
  {
  }

  /** The first j literals are marked, and the steps they call for have been taken. */
  ghost predicate Scanned(marked: set<int>, d: Clause, index: nat, j: nat, now: set<int>, steps: seq<Step>)
  {
    && j <= |d| && now == marked + Lits(d[..j])
    && ClauseSteps(marked, d, index) == steps + ClauseSteps(now, d[j..], index)
  }

  lemma StartScan(marked: set<int>, d: Clause, index: nat)
    ensures Scanned(marked, d, index, 0, marked, [])
  {
    assert d[0..] == d && Lits(d[..0]) == {};
  }

  lemma ScanOne(marked: set<int>, d: Clause, index: nat, j: nat, now: set<int>, steps: seq<Step>)
    requires j < |d| && Scanned(marked, d, index, j, now, steps)
    ensures Scanned(marked, d, index, j + 1, now + {d[j]},
                    if -d[j] in now then steps + [Step(-d[j], index)] else steps)
  {
    assert d[j..][0] == d[j] && d[j..][1..] == d[j + 1..];
    assert d[..j + 1] == d[..j] + [d[j]];
    assert Lits(d[..j + 1]) == Lits(d[..j]) + {d[j]};
  }

  lemma ScanDone(marked: set<int>, d: Clause, index: nat, now: set<int>, steps: seq<Step>)
    requires Scanned(marked, d, index, |d|, now, steps)
    ensures now == marked + Lits(d) && steps == ClauseSteps(marked, d, index)
  {
    assert d[..|d|] == d && d[|d|..] == [];
  }

  /** Exactly the marks of the given variables are gone. */
  ghost predicate Cleared(marks: map<int, Mark>, done: seq<int>, marked: set<int>)
  {
    forall v :: v > 0 ==> MarkOf(marks, v) == if v in done then UNMARKED else Marking(marked, v)
  }

  lemma ClearOne(marks: map<int, Mark>, done: seq<int>, marked: set<int>, index: int)
    requires Cleared(marks, done, marked)
    ensures Cleared(marks[index := UNMARKED], done + [index], marked)
  {
    forall v | v > 0
      ensures MarkOf(marks[index := UNMARKED], v) ==
              if v in done + [index] then UNMARKED else Marking(marked, v)
    {
      assert MarkOf(marks, v) == if v in done then UNMARKED else Marking(marked, v);
      assert v in done + [index] <==> v in done || v == index;
    }
  }

  lemma AllCleared(marks: map<int, Mark>, history: seq<int>, marked: set<int>)
    requires Cleared(marks, history, marked) && forall l :: l in marked ==> l != 0 && Abs(l) in history
    ensures MarksAre(marks, [], {})
  {
    forall v | v > 0
      ensures MarkOf(marks, v) == Mark(false, false)
    {
      assert v in marked || -v in marked ==> Abs(v) in history || Abs(-v) in history;
    }
  }

  /** One more step of the pass, with everything it keeps. */
  lemma StepSound(enabled: set<Construction>, p: Problem, g: Graphs, h: Graphs, chain: seq<Clause>, steps: seq<Step>,
                  running: set<int>, t: Step, first: CraigData, second: CraigData, data: CraigData)
    requires GrownAll(g, h) && StepsWithin(steps, |chain|) && t.index < |chain| && t.pivot != 0
    requires AllSound(enabled, p, g, RunClause(chain, steps, running), first)
    requires AllSound(enabled, p, g, Lits(chain[t.index]), second)
    requires Extended(enabled, p.labels, h, first, t.pivot, second, data)
    ensures StepsWithin(steps + [t], |chain|)
    ensures AllSound(enabled, p, h, RunClause(chain, steps + [t], running), data)
  {
    var c := RunClause(chain, steps, running);
    AllSoundGrown(enabled, p, g, h, c, first);
    AllSoundGrown(enabled, p, g, h, Lits(chain[t.index]), second);
    AllSoundResolve(enabled, p, h, c, t.pivot, Lits(chain[t.index]), first, second, data);
    assert (steps + [t])[..|steps + [t]| - 1] == steps;
    assert RunClause(chain, steps + [t], running) == Resolvent(c, t.pivot, Lits(chain[t.index]));
  }

  lemma EdgeFacts(g: Graphs, data: CraigData)
    requires EdgesIn(g, data)
    ensures EdgeBelow(data.sym, |g.sym|) && EdgeBelow(data.asym, |g.asym|)
    ensures EdgeBelow(data.dualSym, |g.dualSym|) && EdgeBelow(data.dualAsym, |g.dualAsym|)
  {
    assert EdgeBelow(data.EdgeOf(Symmetric), |g.Of(Symmetric)|) && EdgeBelow(data.EdgeOf(Asymmetric), |g.Of(Asymmetric)|);
    assert EdgeBelow(data.EdgeOf(DualSymmetric), |g.Of(DualSymmetric)|);
    assert EdgeBelow(data.EdgeOf(DualAsymmetric), |g.Of(DualAsymmetric)|);
  }

  lemma Assemble(enabled: set<Construction>, labels: Labels, g: Graphs, h: Graphs, first: CraigData, pivot: int,
                 second: CraigData, data: CraigData)
    requires Grown(g.sym, h.sym) && Grown(g.asym, h.asym) && Grown(g.dualSym, h.dualSym) && Grown(g.dualAsym, h.dualAsym)
    requires EdgeBelow(data.sym, |h.sym|) && EdgeBelow(data.asym, |h.asym|)
    requires EdgeBelow(data.dualSym, |h.dualSym|) && EdgeBelow(data.dualAsym, |h.dualAsym|)
    requires Symmetric in enabled ==> Combines(Symmetric, labels, h.sym, pivot, first.sym, second.sym, data.sym)
    requires Asymmetric in enabled ==> Combines(Asymmetric, labels, h.asym, pivot, first.asym, second.asym, data.asym)
    requires DualSymmetric in enabled ==>
               Combines(DualSymmetric, labels, h.dualSym, pivot, first.dualSym, second.dualSym, data.dualSym)
    requires DualAsymmetric in enabled ==>
               Combines(DualAsymmetric, labels, h.dualAsym, pivot, first.dualAsym, second.dualAsym, data.dualAsym)
    ensures GrownAll(g, h) && Extended(enabled, labels, h, first, pivot, second, data)
  {
    forall k
      ensures Grown(g.Of(k), h.Of(k)) && EdgeBelow(data.EdgeOf(k), |h.Of(k)|)
      ensures k in enabled ==> Combines(k, labels, h.Of(k), pivot, first.EdgeOf(k), second.EdgeOf(k), data.EdgeOf(k))
    {
      match k
      case Symmetric =>
      case Asymmetric =>
      case DualSymmetric =>
      case DualAsymmetric =>
    }
  }

  /** The step of one system, which is skipped if the system is not enabled. */
  method ExtendOne(k: Construction, on: bool, aig: Aig, labels: Labels, literal: int, first: Edge, second: Edge)
    returns (e: Edge)
    requires aig.Valid() && Over(aig.nodes, Globals(labels)) && literal != 0
    requires EdgeBelow(first, |aig.nodes|) && EdgeBelow(second, |aig.nodes|)
    modifies aig
    ensures aig.Valid() && Over(aig.nodes, Globals(labels)) && Grown(old(aig.nodes), aig.nodes)
    ensures EdgeBelow(e, |aig.nodes|)
    ensures if on then Combines(k, labels, aig.nodes, literal, first, second, e) else e == first
  {
    e := first;
    var t := TypeOf(labels, literal);
    assert t == Global ==> Abs(literal) in Globals(labels);
    if on {
      match k {
        case Symmetric => e := ResolveSymmetric(aig, t, literal, first, second);
        case Asymmetric => e := ResolveAsymmetric(aig, t, literal, first, second);
        case DualSymmetric => e := ResolveDualSymmetric(aig, t, literal, first, second);
        case DualAsymmetric => e := ResolveDualAsymmetric(aig, t, literal, first, second);
      }
    }
  }
}
