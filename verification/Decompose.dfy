/** Equivalent literal substitution on top of the strongly connected components (cadical/src/decompose.cpp). */
module Decompose {
  import opened Logic
  import opened Extension
  import opened Reconstruction
  import opened Database
  import opened Tarjan

  // ----- The binary implication graph ----------------------------------------------------------------

  /** Clause i is the binary clause that says v implies w. */
  predicate Implication(db: Db, i: nat, v: int, w: int)
  {
    Live(db, i) && |db.clauses[i]| == 2 && Lits(db.clauses[i]) == {Opposite(v), w}
  }

  ghost predicate Implied(db: Db, v: int, w: int)
  {
    exists i: nat :: Implication(db, i, v, w)
  }

  /** The nodes are the literals of the active variables, and the edges the live binary clauses between them. */
  ghost predicate BinaryGraph(g: Graph, db: Db)
  {
    && GraphOk(g) && (forall v {:trigger Opposite(v) in g.nodes} :: v in g.nodes ==> Opposite(v) in g.nodes)
    && (forall v :: v in g.nodes ==> !Assigned(db.units, v))
    && (forall v, w :: Edge(g, v, w) <==> v in g.nodes && w in g.nodes && Implied(db, v, w))
  }

  lemma EdgeHolds(s: Assignment, g: Graph, db: Db, v: int, w: int)
    requires BinaryGraph(g, db) && Edge(g, v, w) && Models(s, db) && LitTrue(s, v)
    ensures LitTrue(s, w)
  {
    assert Implied(db, v, w);
    var i: nat :| Implication(db, i, v, w);
    assert ClauseTrue(s, db.clauses[i]);
    var l :| l in db.clauses[i] && LitTrue(s, l);
    assert l in Lits(db.clauses[i]);
    assert v != 0;
    LitNegation(s, v);
  }

  /** Reachability is implication. */
  lemma ReachHolds(s: Assignment, g: Graph, db: Db, v: int, w: int)
    requires BinaryGraph(g, db) && Reach(g, v, w) && Models(s, db) && LitTrue(s, v)
    ensures LitTrue(s, w)
  {
    var p :| IsPath(g, p) && p[0] == v && p[|p| - 1] == w;
    hide BinaryGraph, Models;
    var i := 0;
    while i < |p| - 1
      invariant 0 <= i < |p| && LitTrue(s, p[i])
    {
      assert Edge(g, p[i], p[i + 1]);
      EdgeHolds(s, g, db, p[i], p[i + 1]);
      i := i + 1;
    }
  }

  /** Literals of one component agree in every model. */
  lemma MutualAgree(s: Assignment, g: Graph, db: Db, v: int, w: int)
    requires BinaryGraph(g, db) && Mutual(g, v, w) && Models(s, db)
    ensures LitTrue(s, v) <==> LitTrue(s, w)
  {
    if LitTrue(s, v) { ReachHolds(s, g, db, v, w); }
    if LitTrue(s, w) { ReachHolds(s, g, db, w, v); }
  }

  lemma {:induction false} ReachNode(g: Graph, v: int, w: int)
    requires GraphOk(g) && v in g.nodes && Reach(g, v, w)
    ensures w in g.nodes
  {
    assert Closed(g, g.nodes);
    ClosedReach(g, g.nodes, v, w);
  }

  /** A literal equivalent to its negation refutes the formula. */
  lemma ConflictingUnsat(g: Graph, db: Db)
    requires BinaryGraph(g, db) && Conflicting(g)
    ensures forall s :: !Models(s, db)
  {
    var v :| Negated(g, v);
    forall s
      ensures !Models(s, db)
    {
      if Models(s, db) {
        MutualAgree(s, g, db, v, -v);
        LitNegation(s, v);
      }
    }
  }

  // ----- Symmetry under negation ---------------------------------------------------------------------

  lemma EdgeNegated(g: Graph, db: Db, v: int, w: int)
    requires BinaryGraph(g, db) && Edge(g, v, w)
    ensures Edge(g, Opposite(w), Opposite(v))
  {
    assert Implied(db, v, w);
    var i: nat :| Implication(db, i, v, w);
    assert Opposite(Opposite(w)) == w && {Opposite(v), w} == {w, Opposite(v)};
    assert Implication(db, i, Opposite(w), Opposite(v));
    assert Implied(db, Opposite(w), Opposite(v));
  }

  function NegatedPath(p: seq<int>): (r: seq<int>)
    ensures |r| == |p|
  {
    seq(|p|, i requires 0 <= i < |p| => Opposite(p[|p| - 1 - i]))
  }

  lemma ReachNegated(g: Graph, db: Db, v: int, w: int)
    requires BinaryGraph(g, db) && Reach(g, v, w)
    ensures Reach(g, Opposite(w), Opposite(v))
  {
    var p :| IsPath(g, p) && p[0] == v && p[|p| - 1] == w;
    var r := NegatedPath(p);
    hide BinaryGraph;
    forall i | 0 <= i < |r| - 1
      ensures Edge(g, r[i], r[i + 1])
    {
      var k := |p| - 2 - i;
      assert Edge(g, p[k], p[k + 1]);
      EdgeNegated(g, db, p[k], p[k + 1]);
      assert r[i] == Opposite(p[k + 1]) && r[i + 1] == Opposite(p[k]);
    }
    assert IsPath(g, r);
  }

  lemma MutualNegated(g: Graph, db: Db, v: int, w: int)
    requires BinaryGraph(g, db) && Mutual(g, v, w)
    ensures Mutual(g, Opposite(v), Opposite(w))
  {
    ReachNegated(g, db, v, w);
    ReachNegated(g, db, w, v);
  }

  /** If the entry of a component is not equivalent to its negation, no literal of the component is. */
  lemma NoOpposite(g: Graph, db: Db, v: int)
    requires BinaryGraph(g, db) && Consistent(g, v)
    ensures !Mutual(g, v, Opposite(v))
  {
    var p :| Mutual(g, v, p) && !Mutual(g, p, -p);
    hide BinaryGraph, Reach;
    if Mutual(g, v, Opposite(v)) {
      MutualNegated(g, db, v, p);
      MutualTrans(g, v, Opposite(v), Opposite(p));
      MutualTrans(g, p, v, Opposite(p));
    }
  }

  /** Two literals of a component on the same variable are the same. */
  lemma SameVariable(g: Graph, db: Db, v: int, a: int, b: int)
    requires BinaryGraph(g, db) && Consistent(g, v) && Mutual(g, v, a) && Mutual(g, v, b) && Abs(a) == Abs(b)
    ensures a == b
  {
    hide Reach;
    if a == Opposite(b) && a != b {
      MutualNegated(g, db, v, b);
      MutualTrans(g, v, a, Opposite(v));
      NoOpposite(g, db, v);
    }
  }

  /** Representatives commute with negation. */
  lemma ReprNegated(g: Graph, db: Db, frozen: set<int>, reprs: map<int, int>, v: int)
    requires BinaryGraph(g, db) && ReprsOk(g, frozen, reprs, g.nodes) && v in g.nodes
    ensures Opposite(v) in g.nodes && reprs[Opposite(v)] == Opposite(reprs[v])
  {
    hide Reach;
    var o := Opposite(v);
    assert o in g.nodes && Abs(o) == Abs(v);
    if Abs(v) !in frozen {
      var r, r' := reprs[v], reprs[o];
      assert Least(g, v, r) && Least(g, o, r');
      MutualNegated(g, db, v, r);
      MutualNegated(g, db, o, r');
      assert Opposite(o) == v;
      assert Abs(Opposite(r)) == Abs(r) && Abs(Opposite(r')) == Abs(r');
      SameVariable(g, db, v, r, Opposite(r'));
    }
  }

  /** The representative of a representative is itself. */
  lemma ReprTwice(g: Graph, db: Db, frozen: set<int>, reprs: map<int, int>, v: int)
    requires BinaryGraph(g, db) && ReprsOk(g, frozen, reprs, g.nodes) && v in g.nodes
    ensures reprs[v] in g.nodes && reprs[reprs[v]] == reprs[v] && Mutual(g, v, reprs[v])
  {
    var r := reprs[v];
    if Abs(v) in frozen {
      ReachRefl(g, v);
    } else {
      assert Least(g, v, r);
      ReachNode(g, v, r);
      hide Reach;
      if Abs(r) !in frozen {
        assert Least(g, r, reprs[r]);
        MutualTrans(g, v, r, reprs[r]);
        MutualTrans(g, r, v, r);
        assert Abs(reprs[r]) == Abs(r);
        SameVariable(g, db, v, r, reprs[r]);
      }
    }
  }

  /** A literal and its representative agree in every model. */
  lemma ReprAgrees(s: Assignment, g: Graph, db: Db, frozen: set<int>, reprs: map<int, int>, v: int)
    requires BinaryGraph(g, db) && ReprsOk(g, frozen, reprs, g.nodes) && v in g.nodes && Models(s, db)
    ensures LitTrue(s, v) <==> LitTrue(s, reprs[v])
  {
    ReprTwice(g, db, frozen, reprs, v);
    MutualAgree(s, g, db, v, reprs[v]);
  }

  // ----- Substituted variables -----------------------------------------------------------------------

  /** The literal that stands for l: its representative, or itself if its variable is not active. */
  function Rep(reprs: map<int, int>, l: int): int
  {
    if l in reprs then reprs[l] else l
  }

  /** The substituted variables among the given ones, with their representatives. */
  function Equivalences(vars: seq<int>, reprs: map<int, int>): seq<Equivalence>
  {
    if vars == [] then []
    else
      var x := vars[|vars| - 1];
      Equivalences(vars[..|vars| - 1], reprs) + if Rep(reprs, x) != x then [Equivalence(x, Rep(reprs, x))] else []
  }

  /** The active variables in order. */
  ghost predicate Active(g: Graph, vars: seq<int>)
  {
    && (forall i :: 0 <= i < |vars| ==> vars[i] > 0) && (forall i, j :: 0 <= i < j < |vars| ==> vars[i] < vars[j])
    && (forall v :: v in g.nodes <==> v != 0 && Abs(v) in vars)
  }

  lemma {:induction false} EquivalencesFrom(vars: seq<int>, reprs: map<int, int>, k: nat)
    requires k < |Equivalences(vars, reprs)|
    ensures var q := Equivalences(vars, reprs)[k]; q.variable in vars && q.repr == Rep(reprs, q.variable) != q.variable
    decreases |vars|
  {
    var front := vars[..|vars| - 1];
    if k < |Equivalences(front, reprs)| {
      EquivalencesFrom(front, reprs, k);
    }
  }

  lemma {:induction false} EquivalencesDistinct(vars: seq<int>, reprs: map<int, int>)
    requires forall i, j :: 0 <= i < j < |vars| ==> vars[i] < vars[j]
    ensures var eqs := Equivalences(vars, reprs); forall i, j :: 0 <= i < j < |eqs| ==> eqs[i].variable != eqs[j].variable
    decreases |vars|
  {
    if vars != [] {
      var front, x := vars[..|vars| - 1], vars[|vars| - 1];
      EquivalencesDistinct(front, reprs);
      var some := Equivalences(front, reprs);
      forall i | 0 <= i < |some| ensures some[i].variable != x {
        EquivalencesFrom(front, reprs, i);
        var k :| 0 <= k < |front| && front[k] == some[i].variable;
        assert vars[k] < vars[|vars| - 1];
      }
      var eqs := Equivalences(vars, reprs);
      assert |some| <= |eqs| <= |some| + 1 && forall i :: 0 <= i < |some| ==> eqs[i] == some[i];
      forall i, j | 0 <= i < j < |eqs| ensures eqs[i].variable != eqs[j].variable {
        if j == |some| { assert eqs[j].variable == x; }
      }
    }
  }

  /** No representative is substituted itself. */
  lemma EquivalencesOk(g: Graph, db: Db, frozen: set<int>, reprs: map<int, int>, vars: seq<int>)
    requires BinaryGraph(g, db) && ReprsOk(g, frozen, reprs, g.nodes) && Active(g, vars)
    ensures SubstitutionOk(Equivalences(vars, reprs))
  {
    var eqs := Equivalences(vars, reprs);
    EquivalencesDistinct(vars, reprs);
    forall i | 0 <= i < |eqs|
      ensures eqs[i].variable > 0 && eqs[i].repr != 0
      ensures forall j :: 0 <= j < |eqs| ==> Abs(eqs[i].repr) != eqs[j].variable
    {
      EquivalencesFrom(vars, reprs, i);
      var x, r := eqs[i].variable, eqs[i].repr;
      assert x in g.nodes;
      ReprTwice(g, db, frozen, reprs, x);
      ReprNegated(g, db, frozen, reprs, r);
      forall j | 0 <= j < |eqs|
        ensures Abs(r) != eqs[j].variable
      {
        EquivalencesFrom(vars, reprs, j);
        assert eqs[j].variable in g.nodes;
      }
    }
  }

  lemma {:induction false} ReplaceByRep(g: Graph, db: Db, frozen: set<int>, reprs: map<int, int>, vars: seq<int>, n: nat, l: int)
    requires BinaryGraph(g, db) && ReprsOk(g, frozen, reprs, g.nodes) && Active(g, vars) && n <= |vars| && l != 0
    ensures Replace(Equivalences(vars[..n], reprs), l) == if Abs(l) in vars[..n] then Rep(reprs, l) else l
    decreases n
  {
    if n > 0 {
      hide BinaryGraph, ReprsOk;
      var x := vars[n - 1];
      ReplaceByRep(g, db, frozen, reprs, vars, n - 1, l);
      assert x in vars && x in g.nodes;
      ReprNegated(g, db, frozen, reprs, x);
      ReprKeys(g, frozen, reprs);
      LastIsNew(vars, n);
      hide Active;
      ReplaceLast(vars, reprs, n, l);
    }
  }

  lemma ReplaceLast(vars: seq<int>, reprs: map<int, int>, n: nat, l: int)
    requires 0 < n <= |vars| && l != 0 && vars[n - 1] > 0 && vars[n - 1] !in vars[..n - 1]
    requires vars[n - 1] in reprs && Opposite(vars[n - 1]) in reprs
    requires reprs[Opposite(vars[n - 1])] == Opposite(reprs[vars[n - 1]])
    requires Replace(Equivalences(vars[..n - 1], reprs), l) == if Abs(l) in vars[..n - 1] then Rep(reprs, l) else l
    ensures Replace(Equivalences(vars[..n], reprs), l) == if Abs(l) in vars[..n] then Rep(reprs, l) else l
  {
    var x := vars[n - 1];
    assert vars[..n][..n - 1] == vars[..n - 1] && vars[..n] == vars[..n - 1] + [x];
    assert Opposite(x) == -x;
    var front := Equivalences(vars[..n - 1], reprs);
    if Rep(reprs, x) != x {
      assert Equivalences(vars[..n], reprs) == front + [Equivalence(x, Rep(reprs, x))];
      hide Equivalences;
      ReplaceAppend(front, Equivalence(x, Rep(reprs, x)), l);
    } else {
      assert Equivalences(vars[..n], reprs) == front;
    }
  }

  lemma ReplaceAppend(front: seq<Equivalence>, q: Equivalence, l: int)
    ensures Replace(front + [q], l) ==
            if l == q.variable then q.repr else if l == -q.variable then -q.repr else Replace(front, l)
  {
    assert (front + [q])[..|front|] == front;
  }

  lemma LastIsNew(vars: seq<int>, n: nat)
    requires 0 < n <= |vars| && forall i, j :: 0 <= i < j < |vars| ==> vars[i] < vars[j]
    ensures vars[n - 1] !in vars[..n - 1]
  {
  }

  lemma ReprKeys(g: Graph, frozen: set<int>, reprs: map<int, int>)
    requires ReprsOk(g, frozen, reprs, g.nodes)
    ensures reprs.Keys == g.nodes
  {
  }

  /** Replacing along the pushed equivalences is taking representatives. */
  lemma ReplaceIsRep(g: Graph, db: Db, frozen: set<int>, reprs: map<int, int>, vars: seq<int>, l: int)
    requires BinaryGraph(g, db) && ReprsOk(g, frozen, reprs, g.nodes) && Active(g, vars) && l != 0
    ensures Replace(Equivalences(vars, reprs), l) == Rep(reprs, l)
  {
    hide BinaryGraph, ReprsOk;
    ReplaceByRep(g, db, frozen, reprs, vars, |vars|, l);
    assert vars[..|vars|] == vars;
    ReprKeys(g, frozen, reprs);
    assert l in g.nodes <==> Abs(l) in vars;
  }

  /** Pushes the two binary clauses of every substituted variable. */
  method PushEquivalences(vars: seq<int>, reprs: map<int, int>, ext: External)
    requires ext.Valid() && forall i :: 0 <= i < |vars| ==> vars[i] != 0 && Rep(reprs, vars[i]) != 0
    modifies ext`extension, ext`entries
    ensures ext.Valid() && old(ext.entries) <= ext.entries
    ensures Strip(ext.entries[|old(ext.entries)|..]) == EquivalenceEntries(Equivalences(vars, reprs))
  {
    hide Strip, EquivalenceEntries, Rep;
    ghost var start := ext.entries;
    var k := 0;
    assert vars[..0] == [];
    NothingPushed(start);
    while k < |vars|
      invariant 0 <= k <= |vars| && ext.Valid() && start <= ext.entries
      invariant Strip(ext.entries[|start|..]) == EquivalenceEntries(Equivalences(vars[..k], reprs))
    {
      var x := vars[k];
      var other := Rep(reprs, x);
      assert vars[..k + 1][..k] == vars[..k];
      if other != x {
        PushPair(ext, x, other, k, start, Equivalences(vars[..k], reprs));
      } else {
        assert Equivalences(vars[..k + 1], reprs) == Equivalences(vars[..k], reprs);
      }
      k := k + 1;
    }
    assert vars[..k] == vars;
  }

  lemma NothingPushed(start: seq<Entry>)
    ensures Strip(start[|start|..]) == EquivalenceEntries([])
  {
  }

  method PushPair(ext: External, x: int, other: int, k: nat, ghost start: seq<Entry>, ghost eqs: seq<Equivalence>)
    requires ext.Valid() && start <= ext.entries && x != 0 && other != 0
    requires Strip(ext.entries[|start|..]) == EquivalenceEntries(eqs)
    modifies ext`extension, ext`entries
    ensures ext.Valid() && start <= ext.entries
    ensures Strip(ext.entries[|start|..]) == EquivalenceEntries(eqs + [Equivalence(x, other)])
  {
    hide Strip, EquivalenceEntries;
    ghost var was := ext.entries;
    ext.PushBinary(0, 2 * k, -x, other);
    ext.PushBinary(0, 2 * k + 1, x, -other);
    EntriesPushed(was[|start|..], eqs, x, other, 2 * k, 2 * k + 1);
    assert ext.entries[|start|..] == was[|start|..] +
           [Entry([-x], 0, 2 * k, [-x, other]), Entry([x], 0, 2 * k + 1, [x, -other])];
  }

  lemma EntriesPushed(es: seq<Entry>, eqs: seq<Equivalence>, x: int, r: int, a: int, b: int)
    requires Strip(es) == EquivalenceEntries(eqs)
    ensures Strip(es + [Entry([-x], 0, a, [-x, r]), Entry([x], 0, b, [x, -r])]) ==
            EquivalenceEntries(eqs + [Equivalence(x, r)])
  {
    var more := eqs + [Equivalence(x, r)];
    assert more[..|more| - 1] == eqs && more[|more| - 1] == Equivalence(x, r);
    var two := [Entry([-x], 0, 0, [-x, r]), Entry([x], 0, 0, [x, -r])];
    assert Strip(es + [Entry([-x], 0, a, [-x, r]), Entry([x], 0, b, [x, -r])]) == Strip(es) + two;
  }

  // ----- Substituting in one clause ------------------------------------------------------------------

  /** The clause with representatives in place of its literals is true. */
  ghost predicate RepTrue(s: Assignment, reprs: map<int, int>, c: Clause)
  {
    exists l :: l in c && LitTrue(s, Rep(reprs, l))
  }

  /** Assigned literals stand for themselves, and unassigned ones stand for a literal of an active variable. */
  ghost predicate UnitsStable(units: set<int>, reprs: map<int, int>)
  {
    && (forall u :: u in units ==> Rep(reprs, u) == u && Rep(reprs, Opposite(u)) == Opposite(u))
    && (forall l :: l in reprs ==> reprs[l] != 0)
  }

  ghost predicate Free(units: set<int>, lits: seq<int>)
  {
    forall l :: l in lits ==> l != 0 && !Assigned(units, l)
  }

  /** Part of a clause with its substituted form so far. */
  ghost predicate SubstitutedPart(units: set<int>, reprs: map<int, int>, c: Clause, lits: seq<int>)
  {
    && ClauseOk(lits) && Free(units, lits)
    && forall s :: Agrees(s, units) ==> (ClauseTrue(s, lits) <==> RepTrue(s, reprs, c))
  }

  lemma PartNone(units: set<int>, reprs: map<int, int>)
    ensures SubstitutedPart(units, reprs, [], [])
  {
  }

  /** A false literal, or one whose representative is false or there already, changes nothing. */
  lemma PartSkip(units: set<int>, reprs: map<int, int>, c: Clause, lits: seq<int>, l: int)
    requires SubstitutedPart(units, reprs, c, lits) && Rep(reprs, l) != 0
    requires Opposite(Rep(reprs, l)) in units || Rep(reprs, l) in lits
    ensures SubstitutedPart(units, reprs, c + [l], lits)
  {
    var r := Rep(reprs, l);
    forall s | Agrees(s, units)
      ensures ClauseTrue(s, lits) <==> RepTrue(s, reprs, c + [l])
    {
      LitNegation(s, r);
      if RepTrue(s, reprs, c + [l]) {
        var m :| m in c + [l] && LitTrue(s, Rep(reprs, m));
        if m in c { assert RepTrue(s, reprs, c); } else { assert Opposite(r) in units ==> LitTrue(s, Opposite(r)); }
      }
      if RepTrue(s, reprs, c) {
        var m :| m in c && LitTrue(s, Rep(reprs, m));
        assert m in c + [l];
      }
    }
  }

  lemma PartAdd(units: set<int>, reprs: map<int, int>, c: Clause, lits: seq<int>, l: int)
    requires SubstitutedPart(units, reprs, c, lits) && Rep(reprs, l) != 0 && !Assigned(units, Rep(reprs, l))
    requires Rep(reprs, l) !in lits && !(Opposite(Rep(reprs, l)) in lits)
    ensures SubstitutedPart(units, reprs, c + [l], lits + [Rep(reprs, l)])
  {
    var r := Rep(reprs, l);
    var more := lits + [r];
    forall m | m in more ensures !(Opposite(m) in more) {
      assert Opposite(Opposite(m)) == m;
      if m != r { assert !(Opposite(m) in lits); }
    }
    assert ClauseOk(more);
    hide ClauseOk;
    forall s | Agrees(s, units)
      ensures ClauseTrue(s, more) <==> RepTrue(s, reprs, c + [l])
    {
      if ClauseTrue(s, more) {
        var m :| m in more && LitTrue(s, m);
        if m == r { assert l in c + [l]; } else {
          assert ClauseTrue(s, lits);
          var k :| k in c && LitTrue(s, Rep(reprs, k));
          assert k in c + [l];
        }
      }
      if RepTrue(s, reprs, c + [l]) {
        var k :| k in c + [l] && LitTrue(s, Rep(reprs, k));
        if k in c {
          assert RepTrue(s, reprs, c);
          var m :| m in lits && LitTrue(s, m);
          assert m in more;
        } else {
          assert r in more;
        }
      }
    }
  }

  /** A literal that makes the substituted clause true under the units. */
  lemma SatisfiedNow(units: set<int>, reprs: map<int, int>, c: Clause, k: nat, lits: seq<int>)
    requires k < |c| && SubstitutedPart(units, reprs, c[..k], lits)
    requires Rep(reprs, c[k]) in units || (Rep(reprs, c[k]) != 0 && Opposite(Rep(reprs, c[k])) in lits)
    ensures forall s :: Agrees(s, units) ==> RepTrue(s, reprs, c)
  {
    var r := Rep(reprs, c[k]);
    forall s | Agrees(s, units)
      ensures RepTrue(s, reprs, c)
    {
      if LitTrue(s, r) {
        assert c[k] in c;
      } else {
        LitNegation(s, r);
        assert ClauseTrue(s, lits);
        var m :| m in c[..k] && LitTrue(s, Rep(reprs, m));
        assert m in c;
      }
    }
  }

  /** Replaces the literals of a clause by their representatives, without duplicates and false literals, unless the
      result is satisfied or tautological. */
  method SubstituteClause(c: Clause, units: set<int>, reprs: map<int, int>) returns (satisfied: bool, lits: seq<int>)
    requires ProperClause(c) && UnitsStable(units, reprs) && Idempotent(reprs)
    ensures (if satisfied then Gone else Left(lits)) == Substitution(c, units, reprs)
    ensures satisfied ==> forall s :: Agrees(s, units) ==> RepTrue(s, reprs, c)
    ensures !satisfied ==> SubstitutedPart(units, reprs, c, lits) && AllOwn(reprs, lits)
  {
    hide SubstitutedPart, RepTrue, UnitsStable, Idempotent;
    lits := [];
    PartNone(units, reprs);
    var k := 0;
    assert c[..0] == [];
    while k < |c|
      invariant 0 <= k <= |c| && SubstitutedPart(units, reprs, c[..k], lits) && AllOwn(reprs, lits)
      invariant Substitution(c[..k], units, reprs) == Left(lits)
    {
      var lit := c[k];
      assert c[..k + 1] == c[..k] + [lit] && lit in c && c[..k + 1][..k] == c[..k];
      var other := Rep(reprs, lit);
      StableRep(units, reprs, lit);
      if lit in units {
        SatisfiedNow(units, reprs, c, k, lits);
        GoneStays(c, k + 1, units, reprs);
        return true, [];
      } else if -lit in units {
        PartSkip(units, reprs, c[..k], lits, lit);
      } else if -other in units {
        PartSkip(units, reprs, c[..k], lits, lit);
      } else if other in units || -other in lits {
        SatisfiedNow(units, reprs, c, k, lits);
        GoneStays(c, k + 1, units, reprs);
        return true, [];
      } else if other in lits {
        PartSkip(units, reprs, c[..k], lits, lit);
      } else {
        PartAdd(units, reprs, c[..k], lits, lit);
        RepOwn(reprs, lit);
        lits := lits + [other];
      }
      k := k + 1;
    }
    assert c[..k] == c;
    satisfied := false;
  }

  /** What becomes of a clause: it is satisfied, or these literals are left. */
  datatype Substituted = Gone | Left(lits: seq<int>)

  /** Literals are replaced by their representatives, in order. False literals and repeated ones go; a true literal or a pair
      of opposite ones satisfies the clause. */
  function Substitution(c: Clause, units: set<int>, reprs: map<int, int>): Substituted
  {
    if c == [] then Left([])
    else
      match Substitution(c[..|c| - 1], units, reprs)
      case Gone => Gone
      case Left(lits) =>
        var lit := c[|c| - 1];
        var other := Rep(reprs, lit);
        if lit in units then Gone
        else if -lit in units || -other in units then Left(lits)
        else if other in units || -other in lits then Gone
        else if other in lits then Left(lits)
        else Left(lits + [other])
  }

  lemma {:induction false} GoneStays(c: Clause, k: nat, units: set<int>, reprs: map<int, int>)
    requires k <= |c| && Substitution(c[..k], units, reprs) == Gone
    ensures Substitution(c, units, reprs) == Gone
    decreases |c| - k
  {
    if k < |c| {
      assert c[..k + 1][..k] == c[..k];
      GoneStays(c, k + 1, units, reprs);
    } else {
      assert c[..k] == c;
    }
  }

  /** The formula after one more clause, with the clauses that are to become garbage in the end. */
  function SubstitutedAt(b: Db, postponed: set<nat>, reprs: map<int, int>, k: nat): (Db, set<nat>)
    requires k < |b.clauses|
  {
    if k in b.garbage || KeepsAll(b.clauses[k], reprs) then (b, postponed)
    else
      match Substitution(b.clauses[k], b.units, reprs)
      case Gone => (b, postponed + {k})
      case Left(lits) => (Replaced(b, k, lits), postponed)
  }

  /** All literals are active and represent themselves. */
  predicate KeepsAll(c: Clause, reprs: map<int, int>)
  {
    forall i :: 0 <= i < |c| ==> c[i] in reprs && reprs[c[i]] == c[i]
  }

  /** The formula after the first k clauses, unless it is refuted before. */
  function SubstitutedTo(a: Db, reprs: map<int, int>, k: nat): (r: (Db, set<nat>))
    requires k <= |a.clauses|
    ensures |r.0.clauses| == |a.clauses|
  {
    if k == 0 then (a, {})
    else
      var r := SubstitutedTo(a, reprs, k - 1);
      if r.0.unsat then r else SubstitutedAt(r.0, r.1, reprs, k - 1)
  }

  function SubstitutedWhole(a: Db, reprs: map<int, int>): Db
  {
    var r := SubstitutedTo(a, reprs, |a.clauses|);
    r.0.(garbage := r.0.garbage + r.1)
  }

  lemma {:induction false} RefutedEarly(a: Db, reprs: map<int, int>, k: nat, n: nat)
    requires k <= n <= |a.clauses| && SubstitutedTo(a, reprs, k).0.unsat
    ensures SubstitutedTo(a, reprs, n) == SubstitutedTo(a, reprs, k)
  {
    if k < n {
      RefutedEarly(a, reprs, k, n - 1);
    }
  }

  /** Representatives stand for themselves, and negation commutes with taking them. */
  ghost predicate Idempotent(reprs: map<int, int>)
  {
    forall l :: l != 0 ==> Rep(reprs, l) != 0 && Rep(reprs, Rep(reprs, l)) == Rep(reprs, l) &&
                           Rep(reprs, Opposite(l)) == Opposite(Rep(reprs, l))
  }

  ghost predicate AllOwn(reprs: map<int, int>, lits: seq<int>)
  {
    forall l :: l in lits ==> Rep(reprs, l) == l && Rep(reprs, Opposite(l)) == Opposite(l)
  }

  lemma RepOwn(reprs: map<int, int>, l: int)
    requires Idempotent(reprs) && l != 0
    ensures var r := Rep(reprs, l); Rep(reprs, r) == r && Rep(reprs, Opposite(r)) == Opposite(r)
  {
    var r := Rep(reprs, l);
    assert r != 0 && Rep(reprs, r) == r;
    assert Rep(reprs, Opposite(r)) == Opposite(Rep(reprs, r));
  }

  lemma StableRep(units: set<int>, reprs: map<int, int>, l: int)
    requires UnitsStable(units, reprs) && l != 0
    ensures Rep(reprs, l) != 0 && Opposite(l) == -l && Opposite(Rep(reprs, l)) == -Rep(reprs, l)
    ensures l in units || Opposite(l) in units ==> Rep(reprs, l) == l
  {
    assert Opposite(Opposite(l)) == l;
    if Opposite(l) in units { assert Rep(reprs, Opposite(Opposite(l))) == Opposite(Opposite(l)); }
  }

  /** Some literal is not its own representative, or not active any more. */
  method NeedsSubstitution(c: Clause, reprs: map<int, int>) returns (needs: bool)
    ensures needs <==> !KeepsAll(c, reprs)
    ensures !needs ==> forall l :: l in c ==> Rep(reprs, l) == l
  {
    var j := 0;
    while j < |c|
      invariant 0 <= j <= |c| && KeepsAll(c[..j], reprs)
    {
      assert c[..j + 1] == c[..j] + [c[j]];
      if c[j] !in reprs || reprs[c[j]] != c[j] {
        return true;
      }
      j := j + 1;
    }
    assert c[..j] == c;
    return false;
  }

  // ----- Substituting in the formula -----------------------------------------------------------------

  /** A model of the units and of the first k clauses, apart from the postponed ones. */
  ghost predicate HalfModel(s: Assignment, db: Db, postponed: set<nat>, k: nat)
  {
    && !db.unsat && Agrees(s, db.units)
    && forall i :: 0 <= i < k && Live(db, i) && i !in postponed ==> ClauseTrue(s, db.clauses[i])
  }

  /** The first k clauses of a were handled: every model of a is still a model, and every model of what is left of them
      makes their substituted forms true. */
  ghost predicate HalfDone(a: Db, b: Db, postponed: set<nat>, reprs: map<int, int>, k: nat)
  {
    && DbOk(b) && |a.clauses| == |b.clauses| && a.garbage <= b.garbage && a.units <= b.units && UnitsStable(b.units, reprs)
    && (forall i :: k <= i < |a.clauses| ==> a.clauses[i] == b.clauses[i] && (Live(b, i) <==> Live(a, i)))
    && (forall i :: i in postponed ==> i < k)
    && (forall s :: Models(s, a) ==> Models(s, b))
    && (forall s, i :: HalfModel(s, b, postponed, k) && 0 <= i < k && Live(a, i) ==> RepTrue(s, reprs, a.clauses[i]))
  }

  /** In the models of a, literals agree with their representatives. */
  ghost predicate Faithful(a: Db, reprs: map<int, int>)
  {
    forall s, l :: Models(s, a) && l != 0 ==> (LitTrue(s, l) <==> LitTrue(s, Rep(reprs, l)))
  }

  lemma FaithfulClause(s: Assignment, a: Db, reprs: map<int, int>, i: nat)
    requires Faithful(a, reprs) && DbOk(a) && Models(s, a) && Live(a, i)
    ensures RepTrue(s, reprs, a.clauses[i])
  {
    assert ClauseTrue(s, a.clauses[i]) && ClauseOk(a.clauses[i]);
    var l :| l in a.clauses[i] && LitTrue(s, l);
    assert LitTrue(s, Rep(reprs, l));
  }

  /** The clause at k is garbage, needs no change, or was found satisfied. */
  lemma HalfSkip(a: Db, b: Db, postponed: set<nat>, reprs: map<int, int>, k: nat, more: set<nat>)
    requires HalfDone(a, b, postponed, reprs, k) && k < |a.clauses| && (more == postponed || more == postponed + {k})
    requires more == postponed && Live(a, k) ==> forall l :: l in a.clauses[k] ==> Rep(reprs, l) == l
    requires more != postponed ==> forall s :: Agrees(s, b.units) ==> RepTrue(s, reprs, a.clauses[k])
    ensures HalfDone(a, b, more, reprs, k + 1)
  {
    forall s, i | HalfModel(s, b, more, k + 1) && 0 <= i < k + 1 && Live(a, i)
      ensures RepTrue(s, reprs, a.clauses[i])
    {
      assert HalfModel(s, b, postponed, k) by {
        forall j | 0 <= j < k && Live(b, j) && j !in postponed ensures ClauseTrue(s, b.clauses[j]) { assert j !in more; }
      }
      if i == k && more == postponed {
        assert Live(b, k) && k !in postponed && ClauseTrue(s, b.clauses[k]);
        var l :| l in a.clauses[k] && LitTrue(s, l);
        assert LitTrue(s, Rep(reprs, l));
      }
    }
  }

  /** The state after the clause at k was replaced: by nothing, a unit, or a longer clause. */
  function Replaced(b: Db, k: nat, lits: seq<int>): Db
    requires k < |b.clauses|
  {
    if lits == [] then b.(unsat := true)
    else if |lits| == 1 then b.(units := b.units + {lits[0]}, garbage := b.garbage + {k})
    else b.(clauses := b.clauses[k := lits])
  }

  lemma ReplacedModels(s: Assignment, b: Db, k: nat, lits: seq<int>)
    requires k < |b.clauses| && Models(s, b) && ClauseTrue(s, lits)
    ensures Models(s, Replaced(b, k, lits))
  {
    var u := Replaced(b, k, lits);
    forall i | Live(u, i) ensures ClauseTrue(s, u.clauses[i]) { assert Live(b, i); }
  }

  lemma ReplacedOk(b: Db, reprs: map<int, int>, k: nat, lits: seq<int>)
    requires DbOk(b) && UnitsStable(b.units, reprs) && k < |b.clauses| && ClauseOk(lits) && Free(b.units, lits)
    requires AllOwn(reprs, lits)
    ensures DbOk(Replaced(b, k, lits)) && UnitsStable(Replaced(b, k, lits).units, reprs)
  {
    if |lits| == 1 {
      var u := lits[0];
      assert u in lits;
      forall l | l in b.units + {u} ensures !(Opposite(l) in b.units + {u}) { assert Opposite(Opposite(l)) == l; }
    }
  }

  /** What is left after replacing says what the substituted clause says. */
  lemma ReplacedHalf(s: Assignment, a: Db, b: Db, postponed: set<nat>, reprs: map<int, int>, k: nat, lits: seq<int>)
    requires HalfDone(a, b, postponed, reprs, k) && k < |a.clauses| && Live(a, k)
    requires SubstitutedPart(b.units, reprs, a.clauses[k], lits) && HalfModel(s, Replaced(b, k, lits), postponed, k + 1)
    ensures HalfModel(s, b, postponed, k) && RepTrue(s, reprs, a.clauses[k])
  {
    var u := Replaced(b, k, lits);
    forall j | 0 <= j < k && Live(b, j) && j !in postponed ensures ClauseTrue(s, b.clauses[j]) {
      assert Live(u, j) && u.clauses[j] == b.clauses[j];
    }
    assert Live(b, k);
    if |lits| == 1 {
      var l := lits[0];
      assert l in u.units;
      assert l in lits && LitTrue(s, l);
    } else if |lits| > 1 {
      assert Live(u, k) && k !in postponed && u.clauses[k] == lits;
      assert ClauseTrue(s, lits);
    }
  }

  lemma HalfReplace(a: Db, b: Db, postponed: set<nat>, reprs: map<int, int>, k: nat, lits: seq<int>)
    requires HalfDone(a, b, postponed, reprs, k) && k < |a.clauses| && Live(a, k) && DbOk(a) && Faithful(a, reprs)
    requires SubstitutedPart(b.units, reprs, a.clauses[k], lits)
    requires AllOwn(reprs, lits)
    ensures HalfDone(a, Replaced(b, k, lits), postponed, reprs, k + 1)
  {
    var u := Replaced(b, k, lits);
    ReplacedOk(b, reprs, k, lits);
    forall s | Models(s, a)
      ensures Models(s, u)
    {
      FaithfulClause(s, a, reprs, k);
      ReplacedModels(s, b, k, lits);
    }
    forall s, i | HalfModel(s, u, postponed, k + 1) && 0 <= i < k + 1 && Live(a, i)
      ensures RepTrue(s, reprs, a.clauses[i])
    {
      ReplacedHalf(s, a, b, postponed, reprs, k, lits);
    }
    forall i | k + 1 <= i < |a.clauses|
      ensures a.clauses[i] == u.clauses[i] && (Live(u, i) <==> Live(a, i))
    {
      assert a.clauses[i] == b.clauses[i] && (Live(b, i) <==> Live(a, i));
    }
  }

  lemma HalfFacts(a: Db, b: Db, postponed: set<nat>, reprs: map<int, int>, k: nat)
    requires HalfDone(a, b, postponed, reprs, k) && k < |b.clauses|
    ensures k < |a.clauses| && a.clauses[k] == b.clauses[k] && (Live(a, k) <==> Live(b, k))
    ensures UnitsStable(b.units, reprs) && ProperClause(b.clauses[k])
  {
    assert ClauseOk(b.clauses[k]);
  }

  /** The first k clauses that are left hold nothing but representatives. */
  ghost predicate Renamed(db: Db, postponed: set<nat>, reprs: map<int, int>, k: nat)
  {
    !db.unsat ==> forall i :: 0 <= i < k && Live(db, i) && i !in postponed ==> OwnLits(reprs, db.clauses[i])
  }

  ghost predicate OwnLits(reprs: map<int, int>, c: Clause)
  {
    forall l :: l in c ==> Rep(reprs, l) == l
  }

  lemma RenamedSkip(b: Db, postponed: set<nat>, reprs: map<int, int>, k: nat, more: set<nat>)
    requires Renamed(b, postponed, reprs, k) && postponed <= more && k < |b.clauses|
    requires Live(b, k) ==> k in more || OwnLits(reprs, b.clauses[k])
    ensures Renamed(b, more, reprs, k + 1)
  {
  }

  lemma RenamedReplace(b: Db, postponed: set<nat>, reprs: map<int, int>, k: nat, lits: seq<int>)
    requires Renamed(b, postponed, reprs, k) && k < |b.clauses| && AllOwn(reprs, lits) && !b.unsat
    ensures Renamed(Replaced(b, k, lits), postponed, reprs, k + 1)
  {
    var u := Replaced(b, k, lits);
    if !u.unsat {
      forall i | 0 <= i < k + 1 && Live(u, i) && i !in postponed ensures OwnLits(reprs, u.clauses[i]) {
        if i < k { assert Live(b, i) && u.clauses[i] == b.clauses[i]; }
      }
    }
  }

  lemma RenamedAll(b: Db, postponed: set<nat>, reprs: map<int, int>, k: nat)
    requires Renamed(b, postponed, reprs, k) && (k == |b.clauses| || b.unsat)
    ensures Renamed(b.(garbage := b.garbage + postponed), {}, reprs, |b.clauses|)
  {
    var u := b.(garbage := b.garbage + postponed);
    forall i | Live(u, i) && !b.unsat ensures OwnLits(reprs, u.clauses[i]) { assert Live(b, i); }
  }

  class Substituter {
    var clauses: seq<Clause>
    var garbage: set<nat>
    var units: set<int>
    var unsat: bool
    const external: External

    ghost function State(): Db
      reads this
    {
      Db(clauses, garbage, units, unsat)
    }

    constructor (db: Db, ext: External)
      ensures State() == db && external == ext
    {
      clauses, garbage, units, unsat, external := db.clauses, db.garbage, db.units, db.unsat, ext;
    }

    /** Handles the clause at k. */
    method SubstituteAt(k: nat, reprs: map<int, int>, postponed: set<nat>, ghost a: Db) returns (more: set<nat>)
      requires HalfDone(a, State(), postponed, reprs, k) && k < |clauses| && DbOk(a) && Faithful(a, reprs) && !unsat
      requires Idempotent(reprs) && Renamed(State(), postponed, reprs, k)
      modifies this`clauses, this`garbage, this`units, this`unsat
      ensures |clauses| == |old(clauses)| && HalfDone(a, State(), more, reprs, k + 1)
      ensures Renamed(State(), more, reprs, k + 1)
      ensures (State(), more) == SubstitutedAt(old(State()), postponed, reprs, k)
    {
      ghost var b := State();
      HalfFacts(a, b, postponed, reprs, k);
      hide HalfDone, Faithful, SubstitutedPart, DbOk, UnitsStable, Idempotent, Replaced, Renamed;
      more := postponed;
      if k in garbage {
        HalfSkip(a, b, postponed, reprs, k, more);
        RenamedSkip(b, postponed, reprs, k, more);
        return;
      }
      var needs := NeedsSubstitution(clauses[k], reprs);
      if !needs {
        HalfSkip(a, b, postponed, reprs, k, more);
        RenamedSkip(b, postponed, reprs, k, more);
        return;
      }
      var satisfied, lits := SubstituteClause(clauses[k], units, reprs);
      if satisfied {
        more := postponed + {k};
        HalfSkip(a, b, postponed, reprs, k, more);
        RenamedSkip(b, postponed, reprs, k, more);
        return;
      }
      HalfReplace(a, b, postponed, reprs, k, lits);
      RenamedReplace(b, postponed, reprs, k, lits);
      ReplaceClause(k, lits);
    }

    /** Puts the substituted clause in place. */
    method ReplaceClause(k: nat, lits: seq<int>)
      requires k < |clauses|
      modifies this`clauses, this`garbage, this`units, this`unsat
      ensures State() == Replaced(old(State()), k, lits) && |clauses| == |old(clauses)|
    {
      if |lits| == 0 {
        unsat := true;
      } else if |lits| == 1 {
        units := units + {lits[0]};
        garbage := garbage + {k};
      } else {
        clauses := clauses[k := lits];
      }
    }

    /** Handles all clauses; those found satisfied become garbage at the end. */
    method SubstituteAll(reprs: map<int, int>)
      requires DbOk(State()) && Faithful(State(), reprs) && UnitsStable(units, reprs) && Idempotent(reprs) && !unsat
      modifies this`clauses, this`garbage, this`units, this`unsat
      ensures SubstitutedDb(old(State()), State(), reprs) && Renamed(State(), {}, reprs, |clauses|)
      ensures State() == SubstitutedWhole(old(State()), reprs)
    {
      ghost var a := State();
      HalfStart(a, reprs);
      assert Renamed(a, {}, reprs, 0);
      hide Renamed, HalfDone, Faithful, UnitsStable, Idempotent, DbOk;
      var postponed: set<nat> := {};
      var k := 0;
      while k < |clauses| && !unsat
        invariant 0 <= k <= |clauses| && HalfDone(a, State(), postponed, reprs, k)
        invariant Renamed(State(), postponed, reprs, k) && |clauses| == |a.clauses|
        invariant (State(), postponed) == SubstitutedTo(a, reprs, k)
      {
        hide SubstitutedAt;
        postponed := SubstituteAt(k, reprs, postponed, a);
        k := k + 1;
      }
      if unsat { RefutedEarly(a, reprs, k, |clauses|); }
      HalfEnd(a, State(), postponed, reprs, k);
      RenamedAll(State(), postponed, reprs, k);
      garbage := garbage + postponed;
    }

    /** One round: components, equivalences on the extension stack, and substitution. Models of what remains become
        models of the formula before by replaying the pushed binary clauses. */
    method DecomposeRound(g: Graph, frozen: set<int>, vars: seq<int>) returns (ghost reprs: map<int, int>)
      requires DbOk(State()) && !unsat && external.Valid() && BinaryGraph(g, State()) && Active(g, vars)
      modifies this`clauses, this`garbage, this`units, this`unsat, external`extension, external`entries
      ensures external.Valid() && old(external.entries) <= external.entries
      ensures Sound(Contents(old(State())), Contents(State()), external.entries[|old(external.entries)|..])
      ensures !unsat ==> ReprsOk(g, frozen, reprs, g.nodes) && Renamed(State(), {}, reprs, |clauses|)
      ensures !unsat ==> Strip(external.entries[|old(external.entries)|..]) == EquivalenceEntries(Equivalences(vars, reprs))
      ensures if Conflicting(g) then State() == old(State()).(unsat := true)
              else ReprsOk(g, frozen, reprs, g.nodes) &&
                   State() == if Equivalences(vars, reprs) == [] then old(State()) else SubstitutedWhole(old(State()), reprs)
    {
      ghost var a, start := State(), external.entries;
      GraphOf(g, a);
      hide DbOk, BinaryGraph, Active, ReprsOk, Sound, SubstitutedDb, Conflicting, GraphOk, Renamed, SubstitutedWhole, Equivalences;
      var d := new Decomposer(g, frozen);
      var roots := Roots(vars);
      RootsNodes(g, vars);
      d.Components(roots);
      if d.unsat {
        ConflictingUnsat(g, a);
        unsat := true;
        RefutedSound(a);
        assert external.entries[|start|..] == [];
        return map[];
      }
      reprs := d.reprs;
      NotConflicting(g, a, frozen, reprs);
      FinishRound(g, frozen, vars, d.reprs);
    }

    /** Pushes the equivalences, and substitutes if there is any. */
    method FinishRound(g: Graph, frozen: set<int>, vars: seq<int>, reprs: map<int, int>)
      requires DbOk(State()) && !unsat && external.Valid() && BinaryGraph(g, State()) && Active(g, vars)
      requires ReprsOk(g, frozen, reprs, g.nodes)
      modifies this`clauses, this`garbage, this`units, this`unsat, external`extension, external`entries
      ensures external.Valid() && old(external.entries) <= external.entries
      ensures Sound(Contents(old(State())), Contents(State()), external.entries[|old(external.entries)|..])
      ensures Renamed(State(), {}, reprs, |clauses|)
      ensures Strip(external.entries[|old(external.entries)|..]) == EquivalenceEntries(Equivalences(vars, reprs))
      ensures State() == if Equivalences(vars, reprs) == [] then old(State()) else SubstitutedWhole(old(State()), reprs)
    {
      ghost var a, start := State(), external.entries;
      hide DbOk, BinaryGraph, Active, ReprsOk, Sound, SubstitutedDb, Conflicting, GraphOk, Renamed, SubstitutedWhole, Equivalences;
      GraphOf(g, a);
      Representatives(g, a, frozen, reprs, vars);
      PushEquivalences(vars, reprs, external);
      var any := AnySubstituted(vars, reprs);
      if any {
        SubstituteAll(reprs);
      } else {
        NothingSubstituted(g, a, frozen, reprs, vars);
      }
      RoundSound(g, a, State(), frozen, reprs, vars, external.entries[|start|..]);
    }
  }

  function Roots(vars: seq<int>): seq<int>
  {
    if vars == [] then [] else Roots(vars[..|vars| - 1]) + [-vars[|vars| - 1], vars[|vars| - 1]]
  }

  lemma {:induction false} RootsMembers(vars: seq<int>, v: int)
    requires forall i :: 0 <= i < |vars| ==> vars[i] > 0
    ensures v in Roots(vars) <==> v != 0 && Abs(v) in vars
    decreases |vars|
  {
    if vars != [] {
      var front, x := vars[..|vars| - 1], vars[|vars| - 1];
      RootsMembers(front, v);
      assert vars == front + [x] && x > 0;
      assert v in [-x, x] <==> v != 0 && Abs(v) == x;
    }
  }

  lemma RootsNodes(g: Graph, vars: seq<int>)
    requires Active(g, vars)
    ensures forall v :: v in g.nodes <==> v in Roots(vars)
  {
    forall v ensures v in g.nodes <==> v in Roots(vars) { RootsMembers(vars, v); }
  }

  lemma GraphOf(g: Graph, db: Db)
    requires BinaryGraph(g, db)
    ensures GraphOk(g)
  {
  }

  lemma NotConflicting(g: Graph, db: Db, frozen: set<int>, reprs: map<int, int>)
    requires BinaryGraph(g, db) && ReprsOk(g, frozen, reprs, g.nodes)
    ensures !Conflicting(g)
  {
    forall v ensures !Negated(g, v) {
      if v in g.nodes {
        assert Consistent(g, v);
        NoOpposite(g, db, v);
        assert v != 0 && Opposite(v) == -v;
      }
    }
  }

  method AnySubstituted(vars: seq<int>, reprs: map<int, int>) returns (any: bool)
    ensures any <==> Equivalences(vars, reprs) != []
    ensures !any ==> forall i :: 0 <= i < |vars| ==> Rep(reprs, vars[i]) == vars[i]
  {
    NoEquivalences(vars, reprs);
    var k := 0;
    while k < |vars|
      invariant 0 <= k <= |vars| && forall i :: 0 <= i < k ==> Rep(reprs, vars[i]) == vars[i]
    {
      if Rep(reprs, vars[k]) != vars[k] {
        return true;
      }
      k := k + 1;
    }
    return false;
  }

  lemma {:induction false} NoEquivalences(vars: seq<int>, reprs: map<int, int>)
    ensures Equivalences(vars, reprs) == [] <==> forall i :: 0 <= i < |vars| ==> Rep(reprs, vars[i]) == vars[i]
  {
    if vars != [] {
      var front := vars[..|vars| - 1];
      NoEquivalences(front, reprs);
      assert forall i :: 0 <= i < |front| ==> front[i] == vars[i];
    }
  }

  /** From a to b every model is kept, and every model of b makes the substituted form of every clause of a true. */
  ghost predicate SubstitutedDb(a: Db, b: Db, reprs: map<int, int>)
  {
    && a.units <= b.units && UnitsStable(b.units, reprs) && (forall s :: Models(s, a) ==> Models(s, b))
    && forall s, i :: Models(s, b) && Live(a, i) ==> RepTrue(s, reprs, a.clauses[i])
  }

  lemma HalfStart(a: Db, reprs: map<int, int>)
    requires DbOk(a) && UnitsStable(a.units, reprs)
    ensures HalfDone(a, a, {}, reprs, 0)
  {
  }

  lemma HalfEnd(a: Db, b: Db, postponed: set<nat>, reprs: map<int, int>, k: nat)
    requires HalfDone(a, b, postponed, reprs, k) && k <= |b.clauses| && (k == |b.clauses| || b.unsat)
    ensures SubstitutedDb(a, b.(garbage := b.garbage + postponed), reprs)
  {
    var c := b.(garbage := b.garbage + postponed);
    forall s | Models(s, a)
      ensures Models(s, c)
    {
      forall i | Live(c, i) ensures ClauseTrue(s, c.clauses[i]) { assert Live(b, i); }
    }
    forall s, i | Models(s, c) && Live(a, i)
      ensures RepTrue(s, reprs, a.clauses[i])
    {
      assert HalfModel(s, b, postponed, k) by {
        forall j | 0 <= j < k && Live(b, j) && j !in postponed ensures ClauseTrue(s, b.clauses[j]) { assert Live(c, j); }
      }
    }
  }

  lemma RefutedSound(a: Db)
    requires forall s :: !Models(s, a)
    ensures Sound(Contents(a), Contents(a.(unsat := true)), [])
  {
    forall s
      ensures !Sat(s, Contents(a)) && !Sat(s, Contents(a.(unsat := true)))
    {
      ContentsModels(s, a);
      ContentsModels(s, a.(unsat := true));
    }
  }

  /** What the computed representatives are good for. */
  lemma Representatives(g: Graph, a: Db, frozen: set<int>, reprs: map<int, int>, vars: seq<int>)
    requires BinaryGraph(g, a) && ReprsOk(g, frozen, reprs, g.nodes) && Active(g, vars) && DbOk(a)
    ensures Faithful(a, reprs) && UnitsStable(a.units, reprs) && Idempotent(reprs)
    ensures forall i :: 0 <= i < |vars| ==> vars[i] != 0 && Rep(reprs, vars[i]) != 0
  {
    hide BinaryGraph, ReprsOk, Active, DbOk;
    RepsIdempotent(g, a, frozen, reprs);
    RepsFaithful(g, a, frozen, reprs);
    RepsUnits(g, a, frozen, reprs);
    ActivePositive(g, vars);
  }

  lemma ActivePositive(g: Graph, vars: seq<int>)
    requires Active(g, vars)
    ensures forall i :: 0 <= i < |vars| ==> vars[i] != 0
  {
  }

  lemma RepsIdempotent(g: Graph, a: Db, frozen: set<int>, reprs: map<int, int>)
    requires BinaryGraph(g, a) && ReprsOk(g, frozen, reprs, g.nodes)
    ensures Idempotent(reprs)
  {
    hide BinaryGraph, ReprsOk, Rep;
    forall l | l != 0
      ensures Rep(reprs, l) != 0 && Rep(reprs, Rep(reprs, l)) == Rep(reprs, l)
      ensures Rep(reprs, Opposite(l)) == Opposite(Rep(reprs, l))
    {
      RepFacts(g, a, frozen, reprs, l);
    }
  }

  lemma RepsFaithful(g: Graph, a: Db, frozen: set<int>, reprs: map<int, int>)
    requires BinaryGraph(g, a) && ReprsOk(g, frozen, reprs, g.nodes)
    ensures Faithful(a, reprs)
  {
    ReprKeys(g, frozen, reprs);
    hide BinaryGraph, ReprsOk;
    forall s, l | Models(s, a) && l != 0
      ensures LitTrue(s, l) <==> LitTrue(s, Rep(reprs, l))
    {
      if l in g.nodes { ReprAgrees(s, g, a, frozen, reprs, l); }
    }
  }

  lemma RepsUnits(g: Graph, a: Db, frozen: set<int>, reprs: map<int, int>)
    requires BinaryGraph(g, a) && ReprsOk(g, frozen, reprs, g.nodes)
    ensures UnitsStable(a.units, reprs)
  {
    ReprKeys(g, frozen, reprs);
    hide ReprsOk;
    forall u | u in a.units
      ensures Rep(reprs, u) == u && Rep(reprs, Opposite(u)) == Opposite(u)
    {
      UnitNotActive(g, a, u);
    }
    forall l | l in reprs ensures reprs[l] != 0 {
      assert l != 0;
      RepFacts(g, a, frozen, reprs, l);
    }
  }

  lemma UnitNotActive(g: Graph, a: Db, u: int)
    requires BinaryGraph(g, a) && u in a.units
    ensures u !in g.nodes && Opposite(u) !in g.nodes
  {
    assert Opposite(Opposite(u)) == u;
  }

  lemma RepFacts(g: Graph, a: Db, frozen: set<int>, reprs: map<int, int>, l: int)
    requires BinaryGraph(g, a) && ReprsOk(g, frozen, reprs, g.nodes) && l != 0
    ensures Rep(reprs, l) != 0 && Rep(reprs, Rep(reprs, l)) == Rep(reprs, l)
    ensures Rep(reprs, Opposite(l)) == Opposite(Rep(reprs, l))
  {
    if l in g.nodes {
      ReprTwice(g, a, frozen, reprs, l);
      ReprNegated(g, a, frozen, reprs, l);
    } else {
      assert Opposite(Opposite(l)) == l;
      assert Opposite(l) !in g.nodes;
    }
  }

  lemma NothingSubstituted(g: Graph, a: Db, frozen: set<int>, reprs: map<int, int>, vars: seq<int>)
    requires BinaryGraph(g, a) && ReprsOk(g, frozen, reprs, g.nodes) && Active(g, vars) && DbOk(a) && UnitsStable(a.units, reprs)
    requires forall i :: 0 <= i < |vars| ==> Rep(reprs, vars[i]) == vars[i]
    ensures SubstitutedDb(a, a, reprs) && Renamed(a, {}, reprs, |a.clauses|)
  {
    hide BinaryGraph, ReprsOk, Active;
    forall i, l | Live(a, i) && l in a.clauses[i] ensures Rep(reprs, l) == l {
      assert ClauseOk(a.clauses[i]);
      RepIsSelf(g, a, frozen, reprs, vars, l);
    }
    forall s, i | Models(s, a) && Live(a, i)
      ensures RepTrue(s, reprs, a.clauses[i])
    {
      assert ClauseTrue(s, a.clauses[i]) && ClauseOk(a.clauses[i]);
      var l :| l in a.clauses[i] && LitTrue(s, l);
      RepIsSelf(g, a, frozen, reprs, vars, l);
    }
  }

  lemma RepIsSelf(g: Graph, a: Db, frozen: set<int>, reprs: map<int, int>, vars: seq<int>, l: int)
    requires BinaryGraph(g, a) && ReprsOk(g, frozen, reprs, g.nodes) && Active(g, vars) && l != 0
    requires forall i :: 0 <= i < |vars| ==> Rep(reprs, vars[i]) == vars[i]
    ensures Rep(reprs, l) == l
  {
    ReprKeys(g, frozen, reprs);
    hide BinaryGraph, ReprsOk;
    if l in g.nodes {
      var x: int := Abs(l);
      assert x in vars && x in g.nodes;
      var i :| 0 <= i < |vars| && vars[i] == x;
      ReprNegated(g, a, frozen, reprs, x);
      assert Opposite(x) == -x;
    }
  }

  /** The whole round is sound. */
  lemma RoundSound(g: Graph, a: Db, b: Db, frozen: set<int>, reprs: map<int, int>, vars: seq<int>, pushed: seq<Entry>)
    requires BinaryGraph(g, a) && ReprsOk(g, frozen, reprs, g.nodes) && Active(g, vars) && DbOk(a) && SubstitutedDb(a, b, reprs)
    requires Strip(pushed) == EquivalenceEntries(Equivalences(vars, reprs)) && !a.unsat
    ensures Sound(Contents(a), Contents(b), pushed)
  {
    var eqs := Equivalences(vars, reprs);
    EquivalencesOk(g, a, frozen, reprs, vars);
    forall s | Sat(s, Contents(a)) ensures Sat(s, Contents(b)) {
      ContentsModels(s, a);
      ContentsModels(s, b);
    }
    forall c | c in Contents(a) ensures ProperClause(c) { ContentsProper(a, c); }
    forall c, s | c in Contents(a) && Sat(s, Contents(b))
      ensures exists l :: l in c && LitTrue(s, Replace(eqs, l))
    {
      RoundClause(g, a, b, frozen, reprs, vars, c, s);
    }
    SubstitutionSound(Contents(a), Contents(b), eqs);
    forall s | Sat(s, Contents(b)) ensures Sat(RepairAll(s, pushed), Contents(a)) { RepairStrip(s, pushed); }
  }

  lemma ContentsProper(a: Db, c: Clause)
    requires DbOk(a) && !a.unsat && c in Contents(a)
    ensures ProperClause(c)
  {
    if i :| 0 <= i < |a.clauses| && i !in a.garbage && a.clauses[i] == c {
      assert ClauseOk(a.clauses[i]);
    }
  }

  lemma RoundClause(g: Graph, a: Db, b: Db, frozen: set<int>, reprs: map<int, int>, vars: seq<int>, c: Clause, s: Assignment)
    requires BinaryGraph(g, a) && ReprsOk(g, frozen, reprs, g.nodes) && Active(g, vars) && DbOk(a) && SubstitutedDb(a, b, reprs)
    requires !a.unsat && c in Contents(a) && Sat(s, Contents(b))
    ensures exists l :: l in c && LitTrue(s, Replace(Equivalences(vars, reprs), l))
  {
    hide BinaryGraph, ReprsOk, Active;
    ContentsModels(s, b);
    ContentsProper(a, c);
    if i :| 0 <= i < |a.clauses| && i !in a.garbage && a.clauses[i] == c {
      assert Live(a, i);
      assert RepTrue(s, reprs, c);
      var l :| l in c && LitTrue(s, Rep(reprs, l));
      ReplaceIsRep(g, a, frozen, reprs, vars, l);
    } else {
      var u :| u in a.units && c == [u];
      assert u in c && u in b.units && LitTrue(s, u) && Rep(reprs, u) == u;
      ReplaceIsRep(g, a, frozen, reprs, vars, u);
    }
  }
}
