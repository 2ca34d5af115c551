/** Gate recognition over occurrence lists and marks (cadical/src/gates.cpp). */
module GateSearch {
  import opened Logic
  import opened Reconstruction
  import opened Database
  import opened Gates
  import opened EliminationState
  import opened Elimination

  // ----- Keeping the models --------------------------------------------------------------------------

  /** Clauses and units only go one way, the models stay, and satisfied clauses do not appear. */
  ghost predicate Same(a: Db, b: Db)
  {
    && a.clauses == b.clauses && a.garbage <= b.garbage && a.units <= b.units && (a.unsat ==> b.unsat)
    && (forall s :: Models(s, a) <==> Models(s, b))
    && Tidy(a, b)
  }

  lemma SameRefl(a: Db)
    ensures Same(a, a)
  {
  }

  lemma SameTrans(a: Db, b: Db, c: Db)
    requires Same(a, b) && Same(b, c)
    ensures Same(a, c)
  {
  }

  lemma PropagatedSame(a: Db, b: Db)
    requires Propagated(a, b) && (a.units == b.units || b.unsat || Pending(b, a.units, []))
    ensures Same(a, b)
  {
    forall s ensures Models(s, a) <==> Models(s, b) { PropagatedModels(s, a, b); }
    if !b.unsat {
      forall i | Live(b, i) && Satisfied(b.clauses[i], b.units)
        ensures Live(a, i) && Satisfied(a.clauses[i], a.units)
      {
        var l :| l in b.clauses[i] && l in b.units;
        assert l in a.clauses[i] && l in a.units;
      }
    }
  }

  /** Clause i is, up to false literals, the binary clause of first and l, and not satisfied. */
  predicate Binary(db: Db, i: nat, first: int, l: int)
  {
    HasActual(db, i, {first, l}) && !Satisfied(db.clauses[i], db.units) && first != l
  }

  // ----- Binary clauses ------------------------------------------------------------------------------

  /** The other literal of a clause that is binary up to false literals, or 0. A clause found to be satisfied becomes
      garbage. */
  method SecondLiteral(e: Eliminator, i: nat, first: int) returns (second: int)
    requires e.Valid() && i < |e.clauses| && i !in e.garbage && first in e.clauses[i] && !Assigned(e.units, first)
    modifies e`garbage
    ensures e.Valid() && Propagated(old(e.State()), e.State())
    ensures second != 0 ==> Binary(e.State(), i, first, second) && e.garbage == old(e.garbage)
    ensures forall l :: Binary(e.State(), i, first, l) ==> second == l
    ensures e.garbage <= old(e.garbage) + {i}
  {
    hide DbOk, OccsOk, Propagated;
    second := 0;
    PropagatedRefl(e.State());
    DbClause(e.State(), i);
    var c := e.clauses[i];
    var k := 0;
    while k < |c|
      invariant 0 <= k <= |c| && !Satisfied(c[..k], e.units)
      invariant Actual(c[..k], e.units) - {first} == if second == 0 then {} else {second}
      invariant e.garbage == old(e.garbage)
    {
      var lit := c[k];
      assert c[..k + 1] == c[..k] + [lit] && lit !in c[..k] && lit in c;
      if lit != first {
        if e.Val(lit) > 0 {
          SatisfiedRemoved(e.State(), i);
          RemovedKept(e.State(), i, e.occs);
          e.garbage := e.garbage + {i};
          return 0;
        }
        if e.Val(lit) == 0 {
          if second != 0 {
            assert second in Actual(c, e.units) && lit in Actual(c, e.units);
            return 0;
          }
          second := lit;
        }
      }
      k := k + 1;
    }
    assert c[..k] == c;
    SecondOf(e.State(), i, first, second);
  }

  lemma SecondOf(db: Db, i: nat, first: int, second: int)
    requires i < |db.clauses| && first in Actual(db.clauses[i], db.units) && !Satisfied(db.clauses[i], db.units)
    requires Actual(db.clauses[i], db.units) - {first} == if second == 0 then {} else {second}
    ensures second != 0 ==> Binary(db, i, first, second)
    ensures forall l :: Binary(db, i, first, l) ==> second == l
  {
    var all := Actual(db.clauses[i], db.units);
    assert all == (all - {first}) + {first};
    assert second != 0 ==> second in all - {first};
    forall l | Binary(db, i, first, l)
      ensures second == l
    {
      assert l in all && l in all - {first};
    }
  }

  /** Some live clause of the list is binary with first and l. */
  ghost predicate Partner(db: Db, os: seq<nat>, first: int, l: int)
  {
    exists k :: 0 <= k < |os| && Live(db, os[k]) && Binary(db, os[k], first, l)
  }

  ghost predicate Partners(db: Db, os: seq<nat>, first: int, lits: seq<int>)
  {
    forall l :: l in lits ==> Partner(db, os, first, l)
  }

  /** No other literal is in a live binary clause of the list with first. */
  ghost predicate Listed(db: Db, os: seq<nat>, first: int, lits: seq<int>)
  {
    forall k, l :: 0 <= k < |os| && Live(db, os[k]) && Binary(db, os[k], first, l) ==> l in lits
  }

  lemma ListedStep(a: Db, b: Db, os: seq<nat>, k: nat, first: int, lits: seq<int>, more: seq<int>)
    requires k < |os| && Listed(a, os[..k], first, lits) && b.clauses == a.clauses && b.units == a.units
    requires a.garbage <= b.garbage && Lits(lits) <= Lits(more)
    requires forall l :: Live(b, os[k]) && Binary(b, os[k], first, l) ==> l in more
    ensures Listed(b, os[..k + 1], first, more)
  {
    var next := os[..k + 1];
    forall m, l | 0 <= m < |next| && Live(b, next[m]) && Binary(b, next[m], first, l)
      ensures l in more
    {
      if m < k {
        assert os[..k][m] == os[m] && Live(a, os[m]);
        BinaryFrame(a, b, os[m], first, l);
        assert l in Lits(lits);
      }
    }
  }

  lemma ListedKept(a: Db, b: Db, os: seq<nat>, first: int, lits: seq<int>)
    requires Listed(a, os, first, lits) && Same(a, b) && a.units == b.units
    ensures Listed(b, os, first, lits)
  {
    forall k, l | 0 <= k < |os| && Live(b, os[k]) && Binary(b, os[k], first, l)
      ensures l in lits
    {
      BinaryFrame(a, b, os[k], first, l);
      assert Live(a, os[k]);
    }
  }

  lemma NotZero(db: Db, i: nat, first: int)
    requires DbOk(db)
    ensures !Binary(db, i, first, 0)
  {
    if i < |db.clauses| {
      DbClause(db, i);
      assert 0 !in Actual(db.clauses[i], db.units);
    }
  }

  lemma BinaryUnique(db: Db, i: nat, first: int, l: int, m: int)
    requires Binary(db, i, first, l) && Binary(db, i, first, m)
    ensures l == m
  {
    assert m in Actual(db.clauses[i], db.units) && m in {first, l};
  }

  /** In a model, a binary clause has one of its two literals true. */
  lemma BinaryTrue(s: Assignment, db: Db, i: nat, first: int, l: int)
    requires DbOk(db) && Agrees(s, db.units) && Binary(db, i, first, l)
    ensures ClauseTrue(s, db.clauses[i]) <==> LitTrue(s, first) || LitTrue(s, l)
  {
    DbClause(db, i);
    TrueActual(s, db.clauses[i], db.units, first);
    assert first in Actual(db.clauses[i], db.units) && l in Actual(db.clauses[i], db.units);
    TrueSplit(s, db.clauses[i], first);
  }

  /** Two binary clauses that differ in the second literal's sign make the first one a unit. */
  lemma HyperUnary(db: Db, i: nat, j: nat, first: int, l: int)
    requires DbOk(db) && Live(db, i) && Live(db, j) && Binary(db, i, first, l) && Binary(db, j, first, Opposite(l))
    ensures forall s :: Models(s, db) ==> LitTrue(s, first)
  {
    assert l in Actual(db.clauses[i], db.units);
    DbClause(db, i);
    forall s | Models(s, db)
      ensures LitTrue(s, first)
    {
      BinaryTrue(s, db, i, first, l);
      BinaryTrue(s, db, j, first, Opposite(l));
      LitNegation(s, l);
    }
  }

  /** Two binary clauses on both phases of a literal make their common other literal a unit. */
  lemma CommonUnit(db: Db, i: nat, j: nat, first: int, l: int)
    requires DbOk(db) && first != 0 && Live(db, i) && Live(db, j)
    requires Binary(db, i, first, l) && Binary(db, j, Opposite(first), l)
    ensures forall s :: Models(s, db) ==> LitTrue(s, l)
  {
    forall s | Models(s, db)
      ensures LitTrue(s, l)
    {
      BinaryTrue(s, db, i, first, l);
      BinaryTrue(s, db, j, Opposite(first), l);
      LitNegation(s, first);
    }
  }

  lemma DuplicateRemoved(db: Db, i: nat, j: nat, first: int, l: int)
    requires DbOk(db) && i != j && Live(db, i) && Live(db, j) && Binary(db, i, first, l) && Binary(db, j, first, l)
    ensures Same(db, db.(garbage := db.garbage + {i}))
  {
    var b := db.(garbage := db.garbage + {i});
    forall s | Models(s, b)
      ensures Models(s, db)
    {
      assert Live(b, j);
      BinaryTrue(s, db, i, first, l);
      BinaryTrue(s, db, j, first, l);
      forall k | Live(db, k) ensures ClauseTrue(s, db.clauses[k]) { if k != i { assert Live(b, k); } }
    }
    forall s | Models(s, db)
      ensures Models(s, b)
    {
      forall k | Live(b, k) ensures ClauseTrue(s, b.clauses[k]) { assert Live(db, k); }
    }
  }

  /** Partners stay while other clauses become garbage. */
  lemma PartnersKept(a: Db, b: Db, os: seq<nat>, k: nat, first: int, lits: seq<int>)
    requires k < |os| && ListOk(a.clauses, os, first) && Partners(a, os[..k], first, lits)
    requires b.clauses == a.clauses && b.units == a.units && b.garbage <= a.garbage + {os[k]}
    ensures Partners(b, os[..k], first, lits) && Partners(b, os[..k + 1], first, lits)
  {
    forall l | l in lits
      ensures Partner(b, os[..k], first, l) && Partner(b, os[..k + 1], first, l)
    {
      var m :| 0 <= m < k && Live(a, os[..k][m]) && Binary(a, os[..k][m], first, l);
      assert os[..k][m] == os[m] && os[..k + 1][m] == os[m] && os[m] != os[k];
      assert Live(b, os[..k][m]) && Binary(b, os[..k][m], first, l);
    }
  }

  lemma PartnerAdded(db: Db, os: seq<nat>, k: nat, first: int, lits: seq<int>, l: int)
    requires k < |os| && Partners(db, os[..k + 1], first, lits) && Live(db, os[k]) && Binary(db, os[k], first, l)
    ensures Partners(db, os[..k + 1], first, lits + [l])
  {
    assert os[..k + 1][k] == os[k];
    assert Partner(db, os[..k + 1], first, l);
  }

  /** Marks the other literals of binary clauses with first, unless two of them clash: then first is a unit. */
  method MarkBinaryLiterals(e: Eliminator, first: int)
    requires e.Valid() && Marking(e.marks, {}) && e.marked == [] && first != 0 && !e.unsat && !Assigned(e.units, first)
    modifies e`garbage, e`units, e`unsat, e`marks, e`marked
    ensures e.Valid() && Same(old(e.State()), e.State()) && Marking(e.marks, Lits(e.marked)) && ProperClause(e.marked)
    ensures !e.unsat && !Assigned(e.units, first) ==>
              && Partners(e.State(), Occ(e.occs, first), first, e.marked) && Listed(e.State(), Occ(e.occs, first), first, e.marked)
              && e.units == old(e.units)
  {
    ghost var before := e.State();
    var os := Occ(e.occs, first);
    assert ListOk(e.clauses, os, first);
    hide DbOk, OccsOk, Marking, Same;
    SameRefl(before);
    var k := 0;
    assert Lits(e.marked) == {};
    while k < |os|
      invariant 0 <= k <= |os| && e.Valid() && Same(before, e.State()) && Marking(e.marks, Lits(e.marked))
      invariant ProperClause(e.marked) && e.units == before.units && e.unsat == before.unsat
      invariant Partners(e.State(), os[..k], first, e.marked) && Listed(e.State(), os[..k], first, e.marked)
      invariant e.occs == old(e.occs) && e.clauses == old(e.clauses)
    {
      var stop := MarkStep(e, os, k, first, before);
      if stop {
        return;
      }
      k := k + 1;
    }
    assert os[..k] == os;
  }

  /** One clause of the list. */
  method MarkStep(e: Eliminator, os: seq<nat>, k: nat, first: int, ghost before: Db) returns (stop: bool)
    requires e.Valid() && first != 0 && !e.unsat && !Assigned(e.units, first)
    requires k < |os| && os == Occ(e.occs, first) && ListOk(e.clauses, os, first)
    requires Same(before, e.State()) && Marking(e.marks, Lits(e.marked)) && ProperClause(e.marked)
    requires Partners(e.State(), os[..k], first, e.marked) && Listed(e.State(), os[..k], first, e.marked)
    modifies e`garbage, e`units, e`unsat, e`marks, e`marked
    ensures e.Valid() && Same(before, e.State()) && Marking(e.marks, Lits(e.marked)) && ProperClause(e.marked)
    ensures stop ==> Assigned(e.units, first)
    ensures !stop ==> e.units == old(e.units) && e.unsat == old(e.unsat)
    ensures !stop ==> Partners(e.State(), os[..k + 1], first, e.marked) && Listed(e.State(), os[..k + 1], first, e.marked)
  {
    hide DbOk, OccsOk, Marking, Same, Propagated, Partners, Listed, Binary;
    stop := false;
    var i := os[k];
    ghost var start := e.State();
    PartnersKept(start, start, os, k, first, e.marked);
    if i in e.garbage {
      ListedStep(start, start, os, k, first, e.marked, e.marked);
      return;
    }
    var second := SecondLiteral(e, i, first);
    assert e.State() == start.(garbage := e.garbage);
    PropagatedSame(start, e.State());
    SameTrans(before, start, e.State());
    PartnersKept(start, e.State(), os, k, first, e.marked);
    if second == 0 {
      NotZero(e.State(), i, first);
      ListedStep(start, e.State(), os, k, first, e.marked, e.marked);
      return;
    }
    assert e.State() == start;
    stop := MarkSecond(e, os, k, first, second, before);
  }

  /** A binary clause of the list, with its other literal. */
  method MarkSecond(e: Eliminator, os: seq<nat>, k: nat, first: int, second: int, ghost before: Db) returns (stop: bool)
    requires e.Valid() && first != 0 && !e.unsat && !Assigned(e.units, first)
    requires k < |os| && os == Occ(e.occs, first) && ListOk(e.clauses, os, first)
    requires Live(e.State(), os[k]) && Binary(e.State(), os[k], first, second)
    requires Same(before, e.State()) && Marking(e.marks, Lits(e.marked)) && ProperClause(e.marked)
    requires Partners(e.State(), os[..k], first, e.marked) && Partners(e.State(), os[..k + 1], first, e.marked)
    requires Listed(e.State(), os[..k], first, e.marked)
    modifies e`garbage, e`units, e`unsat, e`marks, e`marked
    ensures e.Valid() && Same(before, e.State()) && Marking(e.marks, Lits(e.marked)) && ProperClause(e.marked)
    ensures stop ==> Assigned(e.units, first)
    ensures !stop ==> e.units == old(e.units) && e.unsat == old(e.unsat)
    ensures !stop ==> Partners(e.State(), os[..k + 1], first, e.marked) && Listed(e.State(), os[..k + 1], first, e.marked)
  {
    hide DbOk, OccsOk, Marking, Same, Partners, Listed, Binary;
    stop := false;
    ghost var start := e.State();
    SecondProper(start, os[k], first, second);
    forall l | Binary(start, os[k], first, l) ensures l == second { BinaryUnique(start, os[k], first, l, second); }
    MarkMeans(e.marks, Lits(e.marked), second);
    var tmp := MarkOf(e.marks, second);
    if tmp < 0 {
      AssignHyperUnary(e, os, k, first, second);
      PropagatedSame(start, e.State());
      SameTrans(before, start, e.State());
      stop := true;
    } else if tmp > 0 {
      EarlierPartner(start, os, k, first, e.marked, second);
      ghost var m :| 0 <= m < k && Live(start, os[m]) && Binary(start, os[m], first, second);
      DuplicateRemoved(start, os[k], os[m], first, second);
      RemovedKept(start, os[k], e.occs);
      e.garbage := e.garbage + {os[k]};
      SameTrans(before, start, e.State());
      PartnersKept(start, e.State(), os, k, first, e.marked);
      ListedStep(start, e.State(), os, k, first, e.marked, e.marked);
    } else {
      MarkOne(e.marks, Lits(e.marked), second);
      e.marks := e.marks[Abs(second) := if second > 0 then 1 else -1];
      PartnerAdded(e.State(), os, k, first, e.marked, second);
      assert Lits(e.marked + [second]) == Lits(e.marked) + {second};
      ListedStep(start, start, os, k, first, e.marked, e.marked + [second]);
      e.marked := e.marked + [second];
    }
  }

  lemma SecondProper(db: Db, i: nat, first: int, l: int)
    requires DbOk(db) && Binary(db, i, first, l)
    ensures l != 0 && !Assigned(db.units, l)
  {
    DbClause(db, i);
    assert l in Actual(db.clauses[i], db.units);
  }

  lemma EarlierPartner(db: Db, os: seq<nat>, k: nat, first: int, lits: seq<int>, l: int)
    requires k <= |os| && Partners(db, os[..k], first, lits) && l in Lits(lits)
    ensures exists m :: 0 <= m < k && Live(db, os[m]) && Binary(db, os[m], first, l)
  {
    assert Partner(db, os[..k], first, l);
    var m :| 0 <= m < k && Live(db, os[..k][m]) && Binary(db, os[..k][m], first, l);
    assert os[..k][m] == os[m];
  }

  method AssignHyperUnary(e: Eliminator, os: seq<nat>, k: nat, first: int, second: int)
    requires e.Valid() && first != 0 && !e.unsat && !Assigned(e.units, first)
    requires k < |os| && Live(e.State(), os[k]) && Binary(e.State(), os[k], first, second)
    requires Opposite(second) in Lits(e.marked) && Partners(e.State(), os[..k], first, e.marked)
    modifies e`garbage, e`units, e`unsat
    ensures e.Valid() && Propagated(old(e.State()), e.State()) && first in e.units
    ensures e.unsat || Pending(e.State(), old(e.units), [])
  {
    hide DbOk, OccsOk, Propagated, Partners;
    ghost var start := e.State();
    EarlierPartner(start, os, k, first, e.marked, Opposite(second));
    ghost var m :| 0 <= m < k && Live(start, os[m]) && Binary(start, os[m], first, Opposite(second));
    HyperUnary(start, os[k], os[m], first, second);
    AssignImplied(e, first);
  }

  /** Assigns an implied unit and propagates it. */
  method AssignImplied(e: Eliminator, u: int)
    requires e.Valid() && u != 0 && !e.unsat && !Assigned(e.units, u) && forall s :: Models(s, e.State()) ==> LitTrue(s, u)
    modifies e`garbage, e`units, e`unsat
    ensures e.Valid() && Propagated(old(e.State()), e.State()) && u in e.units
    ensures e.unsat || Pending(e.State(), old(e.units), [])
  {
    ghost var start := e.State();
    UnitImplied(start, u);
    UnitAdded(start.units, u);
    e.units := e.units + {u};
    ghost var middle := e.State();
    assert middle == start.(units := start.units + {u});
    OccsKept(start, middle, e.occs);
    assert e.Valid();
    e.ElimPropagate(u, start);
    assert u in e.units;
    PropagatedTrans(start, middle, e.State());
  }

  method UnmarkBinaryLiterals(e: Eliminator)
    requires MarkedWithin(e.marks, e.marked)
    modifies e`marks, e`marked
    ensures Marking(e.marks, {}) && e.marked == []
  {
    var k := 0;
    while k < |e.marked|
      invariant 0 <= k <= |e.marked| && MarkedWithin(e.marks, e.marked[k..]) && e.marked == old(e.marked)
    {
      assert e.marked[k..] == [e.marked[k]] + e.marked[k + 1..];
      UnmarkOne(e.marks, e.marked[k], e.marked[k + 1..]);
      e.marks := e.marks - {Abs(e.marked[k])};
      k := k + 1;
    }
    e.marked := [];
  }

  lemma MarkingWithin(marks: map<int, int>, lits: seq<int>)
    requires Marking(marks, Lits(lits))
    ensures MarkedWithin(marks, lits)
  {
  }

  // ----- Equivalences --------------------------------------------------------------------------------

  /** The flags agree with the list of gate clauses, these are live and on the pivot, and they define the pivot if and
      only if none of them is satisfied at the root. */
  ghost predicate GatesFound(db: Db, gates: seq<nat>, gate: set<nat>, x: int)
  {
    && gate == Indices(gates) && (forall i :: i in gate ==> Live(db, i) && Mentions(db.clauses[i], x))
    && (gates != [] ==> (Defines(db, gate, x) <==> NoneSatisfied(db, gate)))
  }

  /** No two live clauses are, up to false literals, the binary clauses of an equivalence of x. */
  ghost predicate NoEquivalence(db: Db, x: int)
  {
    forall i, j, l :: Live(db, i) && Live(db, j) && Binary(db, i, x, l) ==> !Binary(db, j, Opposite(x), Opposite(l))
  }

  /** None of the live clauses in the list is binary with y and the negation of a given literal. */
  ghost predicate NoneNegated(db: Db, ns: seq<nat>, y: int, lits: seq<int>)
  {
    forall k, l :: 0 <= k < |ns| && Live(db, ns[k]) && Binary(db, ns[k], y, l) ==> !(Opposite(l) in lits)
  }

  lemma NoneNegatedStep(a: Db, b: Db, ns: seq<nat>, k: nat, y: int, lits: seq<int>)
    requires k < |ns| && NoneNegated(a, ns[..k], y, lits) && b.clauses == a.clauses && b.units == a.units
    requires a.garbage <= b.garbage
    requires forall l :: Live(b, ns[k]) && Binary(b, ns[k], y, l) ==> !(Opposite(l) in lits)
    ensures NoneNegated(b, ns[..k + 1], y, lits)
  {
    var next := ns[..k + 1];
    forall m, l | 0 <= m < |next| && Live(b, next[m]) && Binary(b, next[m], y, l)
      ensures !(Opposite(l) in lits)
    {
      if m < k {
        assert ns[..k][m] == ns[m] && Live(a, ns[m]);
        BinaryFrame(a, b, ns[m], y, l);
      }
    }
  }

  /** Both lists name all live clauses of their literals, so nothing was missed. */
  lemma EquivalenceMissing(db: Db, occs: Occs, x: int, lits: seq<int>)
    requires OccsOk(db, occs) && x != 0
    requires Listed(db, Occ(occs, x), x, lits) && NoneNegated(db, Occ(occs, -x), -x, lits)
    ensures NoEquivalence(db, x)
  {
    hide OccsOk, Binary, NoneNegated;
    assert Opposite(x) == -x;
    forall i, j, l | Live(db, i) && Live(db, j) && Binary(db, i, x, l)
      ensures !Binary(db, j, Opposite(x), Opposite(l))
    {
      BinaryListed(db, occs, i, x, l);
      NotNegated(db, occs, j, -x, l, lits);
    }
  }

  lemma NotNegated(db: Db, occs: Occs, j: nat, y: int, l: int, lits: seq<int>)
    requires OccsOk(db, occs) && NoneNegated(db, Occ(occs, y), y, lits) && Live(db, j) && l in lits
    ensures !Binary(db, j, y, Opposite(l))
  {
    hide OccsOk, Binary;
    assert Opposite(Opposite(l)) == l;
    if Binary(db, j, y, Opposite(l)) {
      BinaryListed(db, occs, j, y, Opposite(l));
    }
  }

  lemma BinaryListed(db: Db, occs: Occs, i: nat, first: int, l: int)
    requires OccsOk(db, occs) && Live(db, i) && Binary(db, i, first, l)
    ensures i in Occ(occs, first)
  {
    assert first in Actual(db.clauses[i], db.units);
  }

  lemma NoGates(db: Db, x: int)
    ensures GatesFound(db, [], {}, x)
  {
  }

  /** As long as neither is assigned, marked literals keep their partners under propagation. */
  lemma PartnersPropagated(a: Db, b: Db, os: seq<nat>, first: int, lits: seq<int>)
    requires OpenPartners(a, os, first, lits) && Propagated(a, b) && !Assigned(b.units, first) && UnitsOk(b.units)
    ensures OpenPartners(b, os, first, lits)
  {
    forall l | l in lits && !Assigned(b.units, l)
      ensures Partner(b, os, first, l)
    {
      assert Partner(a, os, first, l);
      var k :| 0 <= k < |os| && Live(a, os[k]) && Binary(a, os[k], first, l);
      BinaryKept(a, b, os[k], first, l);
    }
  }

  ghost predicate OpenPartners(db: Db, os: seq<nat>, first: int, lits: seq<int>)
  {
    forall l :: l in lits && !Assigned(db.units, l) ==> Partner(db, os, first, l)
  }

  lemma BinaryKept(a: Db, b: Db, i: nat, first: int, l: int)
    requires Propagated(a, b) && Binary(a, i, first, l) && Live(a, i) && UnitsOk(b.units)
    requires !Assigned(b.units, first) && !Assigned(b.units, l)
    ensures Binary(b, i, first, l) && Live(b, i)
  {
    var c := a.clauses[i];
    assert first in Actual(c, a.units) && l in Actual(c, a.units);
    forall m | m in c
      ensures m !in b.units && (Assigned(b.units, m) <==> m != first && m != l)
    {
      assert m !in a.units && (m in Actual(c, a.units) <==> m == first || m == l);
      assert Opposite(m) in b.units ==> m !in b.units;
    }
    assert Actual(c, b.units) == {first, l};
  }

  /** The first clause of the list that is binary with first and l. */
  method FindPartner(e: Eliminator, first: int, l: int) returns (i: nat)
    requires e.Valid() && !Assigned(e.units, first) && Partner(e.State(), Occ(e.occs, first), first, l) && l != 0
    modifies e`garbage
    ensures e.Valid() && Propagated(old(e.State()), e.State())
    ensures Live(e.State(), i) && Binary(e.State(), i, first, l)
  {
    hide DbOk, OccsOk, Propagated, Binary;
    ghost var before := e.State();
    var os := Occ(e.occs, first);
    OneList(before, e.occs, first);
    PropagatedRefl(before);
    ghost var m :| 0 <= m < |os| && Live(before, os[m]) && Binary(before, os[m], first, l);
    var k := 0;
    while true
      invariant 0 <= k <= m && e.Valid() && Propagated(before, e.State())
      invariant Live(e.State(), os[m]) && Binary(e.State(), os[m], first, l) && e.clauses == before.clauses
      decreases m - k
    {
      if os[k] !in e.garbage {
        ghost var start := e.State();
        var other := SecondLiteral(e, os[k], first);
        PropagatedTrans(before, start, e.State());
        BinaryFrame(start, e.State(), os[m], first, l);
        if other == l {
          return os[k];
        }
      }
      assert k < m;
      k := k + 1;
    }
  }

  lemma BinaryFrame(a: Db, b: Db, i: nat, first: int, l: int)
    requires a.clauses == b.clauses && a.units == b.units
    ensures Binary(a, i, first, l) <==> Binary(b, i, first, l)
  {
  }

  /** Looks for a binary clause on the other phase whose second literal is marked negatively. Positively marked second
      literals are units. */
  method SearchEquivalence(e: Eliminator, x: int)
    requires e.Valid() && x != 0 && !e.unsat && !Assigned(e.units, x) && e.gates == [] && e.gate == {}
    requires Marking(e.marks, Lits(e.marked)) && Partners(e.State(), Occ(e.occs, x), x, e.marked)
    modifies e`garbage, e`units, e`unsat, e`gate, e`gates
    ensures e.Valid() && Same(old(e.State()), e.State()) && GatesFound(e.State(), e.gates, e.gate, x)
    ensures e.gates == [] && !e.unsat && e.units == old(e.units) ==> NoneNegated(e.State(), Occ(e.occs, -x), -x, e.marked)
  {
    ghost var before := e.State();
    var ns := Occ(e.occs, -x);
    assert ListOk(e.clauses, ns, -x);
    assert OpenPartners(before, Occ(e.occs, x), x, e.marked);
    hide DbOk, OccsOk, Same, Marking, OpenPartners, GatesFound, NoneNegated, Binary, Partners, Live;
    SameRefl(before);
    NoGates(before, x);
    NoneYet(before, ns, -x, e.marked);
    var k := 0;
    while k < |ns| && !e.unsat && !Assigned(e.units, x) && e.gates == []
      invariant 0 <= k <= |ns| && e.Valid() && Same(before, e.State()) && GatesFound(e.State(), e.gates, e.gate, x)
      invariant e.gates == [] ==> e.gate == {}
      invariant !Assigned(e.units, x) ==> OpenPartners(e.State(), Occ(e.occs, x), x, e.marked)
      invariant e.clauses == before.clauses && before.units <= e.units
      invariant e.gates == [] && e.units == before.units ==> NoneNegated(e.State(), ns[..k], -x, e.marked)
    {
      EquivalenceVisit(e, ns, k, x, before);
      k := k + 1;
    }
    assert k == |ns| ==> ns[..k] == ns;
  }

  lemma NoneYet(db: Db, ns: seq<nat>, y: int, lits: seq<int>)
    ensures NoneNegated(db, ns[..0], y, lits)
  {
  }

  /** One position in the list of the other phase. */
  method EquivalenceVisit(e: Eliminator, ns: seq<nat>, k: nat, x: int, ghost before: Db)
    requires e.Valid() && x != 0 && !e.unsat && !Assigned(e.units, x) && e.gates == [] && e.gate == {} && Same(before, e.State())
    requires Marking(e.marks, Lits(e.marked)) && OpenPartners(e.State(), Occ(e.occs, x), x, e.marked)
    requires k < |ns| && ListOk(e.clauses, ns, -x) && before.units <= e.units
    requires e.units == before.units ==> NoneNegated(e.State(), ns[..k], -x, e.marked)
    modifies e`garbage, e`units, e`unsat, e`gate, e`gates
    ensures e.Valid() && Same(before, e.State()) && GatesFound(e.State(), e.gates, e.gate, x)
    ensures e.gates == [] ==> e.gate == {}
    ensures !Assigned(e.units, x) ==> OpenPartners(e.State(), Occ(e.occs, x), x, e.marked)
    ensures e.clauses == old(e.clauses) && before.units <= e.units
    ensures e.gates == [] && e.units == before.units ==> NoneNegated(e.State(), ns[..k + 1], -x, e.marked)
  {
    hide DbOk, OccsOk, Same, Marking, OpenPartners, GatesFound, NoneNegated, Binary;
    ghost var start := e.State();
    NoGates(start, x);
    if ns[k] !in e.garbage {
      EquivalenceStep(e, ns[k], x);
      SameTrans(before, start, e.State());
    }
    if e.gates == [] && e.units == before.units {
      assert e.units == start.units;
      NoneNegatedStep(start, e.State(), ns, k, -x, e.marked);
    }
  }

  /** One clause on the other phase. */
  method EquivalenceStep(e: Eliminator, i: nat, x: int)
    requires e.Valid() && x != 0 && !e.unsat && !Assigned(e.units, x) && e.gates == [] && e.gate == {}
    requires Marking(e.marks, Lits(e.marked)) && OpenPartners(e.State(), Occ(e.occs, x), x, e.marked)
    requires Live(e.State(), i) && -x in e.clauses[i]
    modifies e`garbage, e`units, e`unsat, e`gate, e`gates
    ensures e.Valid() && Same(old(e.State()), e.State()) && GatesFound(e.State(), e.gates, e.gate, x)
    ensures e.gates == [] ==> e.gate == {}
    ensures !Assigned(e.units, x) ==> OpenPartners(e.State(), Occ(e.occs, x), x, e.marked)
    ensures e.clauses == old(e.clauses) && old(e.garbage) <= e.garbage && old(e.units) <= e.units
    ensures e.gates == [] && e.units == old(e.units) ==> forall l :: Binary(e.State(), i, -x, l) ==> !(Opposite(l) in e.marked)
  {
    hide OccsOk, Marking, OpenPartners, GatesFound, Same, Binary;
    ghost var before := e.State();
    assert Opposite(-x) == x && Opposite(x) == -x;
    var second := SecondLiteral(e, i, -x);
    ghost var middle := e.State();
    PropagatedSame(before, middle);
    PartnersPropagated(before, middle, Occ(e.occs, x), x, e.marked);
    NoGates(middle, x);
    NotZero(middle, i, -x);
    hide DbOk;
    if second == 0 {
      return;
    }
    assert middle == before;
    SecondProper(middle, i, -x, second);
    MarkMeans(e.marks, Lits(e.marked), second);
    var tmp := MarkOf(e.marks, second);
    if tmp > 0 {
      AssignCommon(e, i, x, second);
      assert second in e.units && second !in before.units;
    } else if tmp < 0 {
      TakeEquivalence(e, i, x, second);
    }
  }

  /** A second literal in binary clauses on both phases is a unit. */
  method AssignCommon(e: Eliminator, i: nat, x: int, second: int)
    requires e.Valid() && x != 0 && !e.unsat && !Assigned(e.units, x) && second in Lits(e.marked) && e.gates == [] && e.gate == {}
    requires OpenPartners(e.State(), Occ(e.occs, x), x, e.marked)
    requires Live(e.State(), i) && Binary(e.State(), i, -x, second)
    modifies e`garbage, e`units, e`unsat
    ensures e.Valid() && Same(old(e.State()), e.State()) && GatesFound(e.State(), e.gates, e.gate, x)
    ensures !Assigned(e.units, x) ==> OpenPartners(e.State(), Occ(e.occs, x), x, e.marked)
    ensures e.clauses == old(e.clauses) && old(e.garbage) <= e.garbage && old(e.units) <= e.units && second in e.units
  {
    hide OccsOk, GatesFound, Same;
    ghost var before := e.State();
    SecondProper(before, i, -x, second);
    ghost var os := Occ(e.occs, x);
    assert Partner(before, os, x, second);
    hide OpenPartners;
    ghost var k :| 0 <= k < |os| && Live(before, os[k]) && Binary(before, os[k], x, second);
    assert Opposite(x) == -x;
    CommonUnit(before, os[k], i, x, second);
    hide Partner, Binary;
    AssignImplied(e, second);
    PropagatedSame(before, e.State());
    NoGates(e.State(), x);
    if !Assigned(e.units, x) {
      PartnersPropagated(before, e.State(), os, x, e.marked);
    }
  }

  /** The two gate clauses of an equivalence. */
  method TakeEquivalence(e: Eliminator, i: nat, x: int, second: int)
    requires e.Valid() && x != 0 && !Assigned(e.units, x) && Opposite(second) in Lits(e.marked) && e.gates == [] && e.gate == {}
    requires OpenPartners(e.State(), Occ(e.occs, x), x, e.marked)
    requires Live(e.State(), i) && Binary(e.State(), i, -x, second)
    modifies e`garbage, e`gate, e`gates
    ensures e.Valid() && Same(old(e.State()), e.State()) && GatesFound(e.State(), e.gates, e.gate, x) && e.gates != []
    ensures !Assigned(e.units, x) ==> OpenPartners(e.State(), Occ(e.occs, x), x, e.marked)
    ensures old(e.garbage) <= e.garbage
  {
    hide OccsOk, Same;
    ghost var before := e.State();
    e.gate := {i};
    e.gates := [i];
    SecondProper(before, i, -x, second);
    assert Opposite(Opposite(second)) == second && Opposite(-x) == x && Opposite(x) == -x;
    assert Partner(before, Occ(e.occs, x), x, Opposite(second));
    hide OpenPartners;
    var d := FindPartner(e, x, -second);
    BinaryKept(before, e.State(), i, -x, second);
    PropagatedSame(before, e.State());
    PartnersPropagated(before, e.State(), Occ(e.occs, x), x, e.marked);
    e.gate := e.gate + {d};
    e.gates := e.gates + [d];
    assert e.gates == [i, d] && e.gate == {i} + {d};
    TakenEquivalence(e.State(), i, d, x, second);
  }

  lemma TakenEquivalence(db: Db, i: nat, d: nat, x: int, second: int)
    requires DbOk(db) && Live(db, i) && Live(db, d) && Binary(db, i, -x, second) && Binary(db, d, x, -second)
    ensures GatesFound(db, [i, d], {i} + {d}, x)
  {
    assert {i} + {d} == {i, d} == Indices([i, d]) by {
      assert [i, d][0] == i && [i, d][1] == d;
    }
    assert NoneSatisfied(db, {i, d});
    assert Opposite(x) == -x && Opposite(second) == -second;
    EquivalenceDefines(db, i, d, x, second);
  }

  /** Finds an equivalence. If it finds none and no unit either, there is none. */
  method FindEquivalence(e: Eliminator, x: int)
    requires e.Valid() && x != 0 && e.gates == [] && e.gate == {} && e.marked == [] && Marking(e.marks, {})
    modifies e`garbage, e`units, e`unsat, e`gate, e`gates, e`marks, e`marked
    ensures e.Valid() && Same(old(e.State()), e.State()) && GatesFound(e.State(), e.gates, e.gate, x)
    ensures e.marked == [] && Marking(e.marks, {})
    ensures e.gates == [] && !e.unsat && e.units == old(e.units) && !Assigned(e.units, x) ==> NoEquivalence(e.State(), x)
  {
    hide DbOk, OccsOk, Same, Marking, Partners, GatesFound, Listed, NoneNegated, NoEquivalence;
    ghost var before := e.State();
    SameRefl(before);
    NoGates(before, x);
    if e.unsat || e.Val(x) != 0 {
      return;
    }
    MarkBinaryLiterals(e, x);
    ghost var middle := e.State();
    NoGates(middle, x);
    if !e.unsat && e.Val(x) == 0 {
      SearchEquivalence(e, x);
      SameTrans(before, middle, e.State());
      if e.gates == [] && !e.unsat && e.units == before.units {
        ListedKept(middle, e.State(), Occ(e.occs, x), x, e.marked);
        EquivalenceMissing(e.State(), e.occs, x, e.marked);
      }
    }
    MarkingWithin(e.marks, e.marked);
    UnmarkBinaryLiterals(e);
  }

  // ----- AND gates -----------------------------------------------------------------------------------

  /** The negations of the unassigned literals of a base clause other than that of the pivot. */
  function Inputs(c: Clause, units: set<int>, x: int): set<int>
  {
    set l | l in Actual(c, units) && l != Opposite(x) :: Opposite(l)
  }

  /** The clause may be the base clause of an AND gate. */
  predicate Candidate(db: Db, i: nat)
  {
    Live(db, i) && |db.clauses[i]| >= 3 && !Satisfied(db.clauses[i], db.units)
  }

  /** No live clause on the other phase is a base clause with side clauses for all its inputs. */
  ghost predicate NoAnd(db: Db, x: int)
  {
    forall i: nat :: Candidate(db, i) && Opposite(x) in db.clauses[i] ==>
      exists m :: m in Inputs(db.clauses[i], db.units, x) && NoSideClause(db, x, m)
  }

  ghost predicate NoSideClause(db: Db, x: int, m: int)
  {
    forall j :: Live(db, j) ==> !Binary(db, j, x, m)
  }

  predicate Unmarked(c: Clause, units: set<int>, x: int, lits: seq<int>)
  {
    exists m :: m in Inputs(c, units, x) && m !in lits
  }

  /** No candidate of the list has all its inputs among the given literals. */
  predicate NoneBase(db: Db, ns: seq<nat>, x: int, lits: seq<int>)
  {
    forall k :: 0 <= k < |ns| && Candidate(db, ns[k]) ==> Unmarked(db.clauses[ns[k]], db.units, x, lits)
  }

  lemma NoneBaseStart(db: Db, ns: seq<nat>, x: int, lits: seq<int>)
    ensures NoneBase(db, ns[..0], x, lits)
  {
  }

  lemma NoneBaseStep(a: Db, b: Db, ns: seq<nat>, k: nat, x: int, lits: seq<int>)
    requires k < |ns| && NoneBase(a, ns[..k], x, lits) && b.clauses == a.clauses && b.units == a.units && a.garbage <= b.garbage
    requires Candidate(b, ns[k]) ==> Unmarked(b.clauses[ns[k]], b.units, x, lits)
    ensures NoneBase(b, ns[..k + 1], x, lits)
  {
    hide Unmarked;
    var next := ns[..k + 1];
    forall m | 0 <= m < |next| && Candidate(b, next[m])
      ensures Unmarked(b.clauses[next[m]], b.units, x, lits)
    {
      if m < k { assert ns[..k][m] == ns[m] && Candidate(a, ns[m]); }
    }
  }

  lemma AndMissing(db: Db, occs: Occs, x: int, lits: seq<int>)
    requires OccsOk(db, occs) && !Assigned(db.units, x)
    requires Listed(db, Occ(occs, x), x, lits) && NoneBase(db, Occ(occs, -x), x, lits)
    ensures NoAnd(db, x)
  {
    assert Opposite(x) == -x && Opposite(-x) == x;
    var ns := Occ(occs, -x);
    forall i: nat | Candidate(db, i) && Opposite(x) in db.clauses[i]
      ensures exists m :: m in Inputs(db.clauses[i], db.units, x) && NoSideClause(db, x, m)
    {
      assert i in ns;
      hide OccsOk, Listed, NoSideClause, Inputs, Satisfied;
      assert Unmarked(db.clauses[i], db.units, x, lits);
      var m :| m in Inputs(db.clauses[i], db.units, x) && m !in lits;
      NoSide(db, occs, x, m, lits);
    }
  }

  lemma NoSide(db: Db, occs: Occs, x: int, m: int, lits: seq<int>)
    requires OccsOk(db, occs) && Listed(db, Occ(occs, x), x, lits) && m !in lits
    ensures NoSideClause(db, x, m)
  {
    hide OccsOk, Binary;
    forall j | Live(db, j)
      ensures !Binary(db, j, x, m)
    {
      if Binary(db, j, x, m) {
        BinaryListed(db, occs, j, x, m);
      }
    }
  }

  /** Whether all unassigned literals of a clause on the other phase are marked negatively. */
  method ScanBase(e: Eliminator, c: Clause, x: int) returns (all: bool, satisfied: bool)
    requires ClauseOk(c) && Marking(e.marks, Lits(e.marked)) && !Assigned(e.units, x)
    ensures satisfied ==> Satisfied(c, e.units)
    ensures !all ==> Unmarked(c, e.units, x, e.marked)
    ensures all && !satisfied ==> !Satisfied(c, e.units) && Inputs(c, e.units, x) <= Lits(e.marked)
  {
    hide Marking;
    all, satisfied := true, false;
    var k := 0;
    while k < |c|
      invariant 0 <= k <= |c| && !Satisfied(c[..k], e.units) && Inputs(c[..k], e.units, x) <= Lits(e.marked)
    {
      var lit := c[k];
      assert c[..k + 1] == c[..k] + [lit] && lit in c;
      if lit != -x {
        if e.Val(lit) > 0 {
          return true, true;
        }
        if e.Val(lit) == 0 {
          MarkMeans(e.marks, Lits(e.marked), lit);
          if MarkOf(e.marks, lit) >= 0 {
            MarkMeans(e.marks, Lits(e.marked), Opposite(lit));
            assert lit in Actual(c, e.units) && Opposite(lit) !in Lits(e.marked);
            assert Opposite(lit) in Inputs(c, e.units, x);
            return false, false;
          }
        }
      }
      k := k + 1;
    }
    assert c[..k] == c;
  }

  /** Marks of inputs count double. */
  ghost predicate Doubled(marks: map<int, int>, lits: set<int>, inputs: set<int>)
  {
    forall l {:trigger MarkOf(marks, l)} :: l != 0 ==>
      MarkOf(marks, l) == if l in inputs then 2 else if Opposite(l) in inputs then -2
                          else if l in lits then 1 else if Opposite(l) in lits then -1 else 0
  }

  lemma DoubleOne(marks: map<int, int>, lits: set<int>, inputs: set<int>, l: int)
    requires Doubled(marks, lits, inputs) && l != 0 && l in lits && l !in inputs && !(Opposite(l) in inputs)
    ensures Abs(l) in marks && Doubled(marks[Abs(l) := 2 * marks[Abs(l)]], lits, inputs + {l})
  {
    assert MarkOf(marks, l) == 1;
    var after := marks[Abs(l) := 2 * marks[Abs(l)]];
    forall m | m != 0
      ensures MarkOf(after, m) == if m in inputs + {l} then 2 else if Opposite(m) in inputs + {l} then -2
                                  else if m in lits then 1 else if Opposite(m) in lits then -1 else 0
    {
      assert Opposite(Opposite(m)) == m;
      assert MarkOf(marks, m) == if m in inputs then 2 else if Opposite(m) in inputs then -2
                                 else if m in lits then 1 else if Opposite(m) in lits then -1 else 0;
    }
  }

  method DoubleMarks(e: Eliminator, c: Clause, x: int)
    requires ClauseOk(c) && Marking(e.marks, Lits(e.marked)) && !Satisfied(c, e.units)
    requires Inputs(c, e.units, x) <= Lits(e.marked)
    modifies e`marks
    ensures Doubled(e.marks, Lits(e.marked), Inputs(c, e.units, x))
  {
    var k := 0;
    assert Inputs(c[..0], e.units, x) == {};
    while k < |c|
      invariant 0 <= k <= |c| && Doubled(e.marks, Lits(e.marked), Inputs(c[..k], e.units, x))
    {
      hide Doubled;
      var lit := c[k];
      assert c[..k + 1] == c[..k] + [lit] && lit !in c[..k] && lit in c;
      if lit != -x && e.Val(lit) >= 0 {
        InputAdded(c, k, e.units, x);
        DoubleOne(e.marks, Lits(e.marked), Inputs(c[..k], e.units, x), -lit);
        e.marks := e.marks[Abs(lit) := 2 * e.marks[Abs(lit)]];
      } else {
        assert Inputs(c[..k + 1], e.units, x) == Inputs(c[..k], e.units, x);
      }
      k := k + 1;
    }
    assert c[..k] == c;
  }

  lemma InputAdded(c: Clause, k: nat, units: set<int>, x: int)
    requires ClauseOk(c) && k < |c| && !Assigned(units, c[k]) && c[k] != -x
    ensures Inputs(c[..k + 1], units, x) == Inputs(c[..k], units, x) + {-c[k]}
    ensures -c[k] in Inputs(c, units, x) && -c[k] !in Inputs(c[..k], units, x)
    ensures !(Opposite(-c[k]) in Inputs(c[..k], units, x))
  {
    var lit := c[k];
    var was := Inputs(c[..k], units, x);
    assert c[..k + 1] == c[..k] + [lit] && lit in c && lit !in c[..k];
    assert Opposite(lit) == -lit && Opposite(-lit) == lit;
    assert lit in Actual(c, units);
    forall m | m in was
      ensures m != -lit && m != lit
    {
      var l :| l in Actual(c[..k], units) && l != Opposite(x) && m == Opposite(l);
      assert l in c && l != lit && !(Opposite(lit) in c);
    }
    var next := c[..k + 1];
    assert lit in Actual(next, units);
    forall m | m in Inputs(next, units, x)
      ensures m in was + {-lit}
    {
      var l :| l in Actual(next, units) && l != Opposite(x) && m == Opposite(l);
      assert l == lit || l in Actual(c[..k], units);
    }
  }

  /** The first k clauses of the list: those binary with an input are exactly the side clauses found so far. */
  ghost predicate SidesFound(db: Db, ps: seq<nat>, k: nat, x: int, inputs: set<int>, sides: set<nat>)
  {
    && (forall i :: i in sides ==> Live(db, i) && exists m :: m in inputs && Binary(db, i, x, m))
    && (forall a, m :: 0 <= a < k <= |ps| && Live(db, ps[a]) && m in inputs && Binary(db, ps[a], x, m) ==> ps[a] in sides)
  }

  lemma SidesKept(a: Db, b: Db, ps: seq<nat>, k: nat, x: int, inputs: set<int>, sides: set<nat>)
    requires SidesFound(a, ps, k, x, inputs, sides) && Propagated(a, b) && a.units == b.units
    ensures SidesFound(b, ps, k, x, inputs, sides)
  {
    forall i | i in sides
      ensures Live(b, i) && exists m :: m in inputs && Binary(b, i, x, m)
    {
      var m :| m in inputs && Binary(a, i, x, m);
      BinaryFrame(a, b, i, x, m);
    }
    forall c, m | 0 <= c < k <= |ps| && Live(b, ps[c]) && m in inputs && Binary(b, ps[c], x, m)
      ensures ps[c] in sides
    {
      BinaryFrame(a, b, ps[c], x, m);
      assert Live(a, ps[c]);
    }
  }

  lemma SidesExtended(db: Db, ps: seq<nat>, k: nat, x: int, inputs: set<int>, sides: set<nat>, other: int)
    requires SidesFound(db, ps, k, x, inputs, sides) && k < |ps|
    requires other != 0 ==> Live(db, ps[k]) && Binary(db, ps[k], x, other)
    requires forall l :: Live(db, ps[k]) && Binary(db, ps[k], x, l) ==> other == l && l != 0
    ensures SidesFound(db, ps, k + 1, x, inputs, if other != 0 && other in inputs then sides + {ps[k]} else sides)
  {
  }

  /** Flags the binary side clauses of all inputs. */
  method AddSides(e: Eliminator, base: nat, x: int, ghost inputs: set<int>) returns (ghost sides: set<nat>)
    requires e.Valid() && x != 0 && !Assigned(e.units, x) && e.gates == [base] && e.gate == {base}
    requires Doubled(e.marks, Lits(e.marked), inputs) && Live(e.State(), base) && !Satisfied(e.clauses[base], e.units)
    requires 0 !in inputs
    modifies e`garbage, e`gate, e`gates
    ensures e.Valid() && Propagated(old(e.State()), e.State()) && e.units == old(e.units)
    ensures SidesFound(e.State(), Occ(e.occs, x), |Occ(e.occs, x)|, x, inputs, sides)
    ensures e.gate == {base} + sides == Indices(e.gates) && e.gates != []
  {
    ghost var before := e.State();
    var ps := Occ(e.occs, x);
    assert ListOk(e.clauses, ps, x);
    hide DbOk, OccsOk, Propagated, Doubled, SidesFound;
    PropagatedRefl(before);
    sides := {};
    NoSides(before, ps, x, inputs);
    assert Indices([base]) == {base} by { assert [base][0] == base; }
    var k := 0;
    while k < |ps|
      invariant 0 <= k <= |ps| && e.Valid() && Propagated(before, e.State()) && e.units == before.units
      invariant SidesFound(e.State(), ps, k, x, inputs, sides) && e.clauses == before.clauses
      invariant e.gate == {base} + sides == Indices(e.gates) && e.gates != []
    {
      ghost var start := e.State();
      var other := SideLiteral(e, ps[k], x);
      PropagatedTrans(before, start, e.State());
      SidesKept(start, e.State(), ps, k, x, inputs, sides);
      SidesExtended(e.State(), ps, k, x, inputs, sides, other);
      if other != 0 {
        DoubledMeans(e.marks, Lits(e.marked), inputs, other);
      }
      if other != 0 && MarkOf(e.marks, other) == 2 {
        IndicesAdd(e.gates, ps[k]);
        sides := sides + {ps[k]};
        e.gate := e.gate + {ps[k]};
        e.gates := e.gates + [ps[k]];
      }
      k := k + 1;
    }
  }

  lemma NoSides(db: Db, ps: seq<nat>, x: int, inputs: set<int>)
    ensures SidesFound(db, ps, 0, x, inputs, {})
  {
  }

  lemma IndicesAdd(os: seq<nat>, i: nat)
    ensures Indices(os + [i]) == Indices(os) + {i}
  {
    var more := os + [i];
    assert more[|os|] == i;
    assert forall k :: 0 <= k < |os| ==> more[k] == os[k];
    forall m | m in Indices(os) + {i} ensures m in Indices(more) {
      if m == i { assert more[|os|] == m; } else { var k :| 0 <= k < |os| && os[k] == m; assert more[k] == m; }
    }
  }

  lemma DoubledMeans(marks: map<int, int>, lits: set<int>, inputs: set<int>, l: int)
    requires Doubled(marks, lits, inputs) && l != 0
    ensures MarkOf(marks, l) == 2 <==> l in inputs
  {
  }

  /** The second literal of a live clause, or 0. */
  method SideLiteral(e: Eliminator, i: nat, x: int) returns (other: int)
    requires e.Valid() && i < |e.clauses| && x in e.clauses[i] && !Assigned(e.units, x)
    modifies e`garbage
    ensures e.Valid() && Propagated(old(e.State()), e.State())
    ensures other != 0 ==> Live(e.State(), i) && Binary(e.State(), i, x, other)
    ensures forall l :: Live(e.State(), i) && Binary(e.State(), i, x, l) ==> other == l && l != 0
  {
    hide OccsOk, Propagated;
    if i in e.garbage {
      PropagatedRefl(e.State());
      return 0;
    }
    other := SecondLiteral(e, i, x);
    forall l | Binary(e.State(), i, x, l) ensures l != 0 { SecondProper(e.State(), i, x, l); }
  }

  /** The collected clauses have the shape of an AND gate. */
  lemma AndFound(a: Db, b: Db, base: nat, ps: seq<nat>, x: int, marked: seq<int>, sides: set<nat>)
    requires DbOk(b) && x != 0 && !Assigned(b.units, x) && Propagated(a, b) && a.units == b.units
    requires Live(a, base) && -x in a.clauses[base] && !Satisfied(a.clauses[base], a.units)
    requires Partners(a, ps, x, marked) && Inputs(a.clauses[base], a.units, x) <= Lits(marked)
    requires SidesFound(b, ps, |ps|, x, Inputs(a.clauses[base], a.units, x), sides)
    ensures AndShape(b, base, sides, x)
  {
    var c := b.clauses[base];
    var inputs := Inputs(c, b.units, x);
    assert Opposite(x) == -x && Opposite(-x) == x;
    assert Opposite(x) in Actual(c, b.units);
    forall i | i in sides
      ensures i < |b.clauses| && !Satisfied(b.clauses[i], b.units) && SideOf(b, base, i, x)
    {
      var m :| m in inputs && Binary(b, i, x, m);
      var l :| l in Actual(c, b.units) && l != Opposite(x) && m == Opposite(l);
    }
    forall l | l in Actual(c, b.units) && l != Opposite(x)
      ensures HasSide(b, sides, x, l)
    {
      var m := Opposite(l);
      assert m in inputs;
      assert m in Lits(marked) && m in marked;
      assert Partner(a, ps, x, m);
      var k :| 0 <= k < |ps| && Live(a, ps[k]) && Binary(a, ps[k], x, m);
      BinaryFrame(a, b, ps[k], x, m);
      assert Live(b, ps[k]);
      assert ps[k] in sides;
    }
  }

  /** Takes a base clause whose literals are all marked as an AND gate. */
  method TakeAnd(e: Eliminator, base: nat, x: int)
    requires e.Valid() && x != 0 && !Assigned(e.units, x) && e.gates == [] && e.gate == {}
    requires Marking(e.marks, Lits(e.marked)) && ProperClause(e.marked) && Partners(e.State(), Occ(e.occs, x), x, e.marked)
    requires Live(e.State(), base) && -x in e.clauses[base] && !Satisfied(e.clauses[base], e.units)
    requires Inputs(e.clauses[base], e.units, x) <= Lits(e.marked)
    modifies e`garbage, e`gate, e`gates, e`marks
    ensures e.Valid() && Same(old(e.State()), e.State()) && GatesFound(e.State(), e.gates, e.gate, x) && e.gates != []
    ensures MarkedWithin(e.marks, e.marked)
  {
    hide OccsOk, Partners, Same, Marking, Propagated, SidesFound, AndShape;
    ghost var before := e.State();
    ghost var inputs := Inputs(e.clauses[base], e.units, x);
    e.gate := {base};
    e.gates := [base];
    DbClause(before, base);
    DoubleMarks(e, e.clauses[base], x);
    DoubledWithin(e.marks, e.marked, inputs);
    assert 0 !in Lits(e.marked);
    var sides := AddSides(e, base, x, inputs);
    AndFound(before, e.State(), base, Occ(e.occs, x), x, e.marked, sides);
    PropagatedSame(before, e.State());
    TakenAnd(before, e.State(), base, Occ(e.occs, x), x, inputs, sides, e.gates);
  }

  lemma DoubledWithin(marks: map<int, int>, lits: seq<int>, inputs: set<int>)
    requires Doubled(marks, Lits(lits), inputs) && inputs <= Lits(lits)
    ensures MarkedWithin(marks, lits)
  {
  }

  lemma TakenAnd(a: Db, b: Db, base: nat, ps: seq<nat>, x: int, inputs: set<int>, sides: set<nat>, gates: seq<nat>)
    requires DbOk(b) && AndShape(b, base, sides, x) && !Assigned(b.units, x) && SidesFound(b, ps, |ps|, x, inputs, sides)
    requires Propagated(a, b) && Live(a, base) && Indices(gates) == {base} + sides
    ensures GatesFound(b, gates, {base} + sides, x)
  {
    AndDefines(b, base, sides, x);
    assert NoneSatisfied(b, {base} + sides);
  }

  /** Looks for a base clause on the other phase. */
  method SearchAnd(e: Eliminator, x: int)
    requires e.Valid() && x != 0 && !Assigned(e.units, x) && e.gates == [] && e.gate == {}
    requires Marking(e.marks, Lits(e.marked)) && ProperClause(e.marked) && Partners(e.State(), Occ(e.occs, x), x, e.marked)
    requires Listed(e.State(), Occ(e.occs, x), x, e.marked)
    modifies e`garbage, e`gate, e`gates, e`marks
    ensures e.Valid() && Same(old(e.State()), e.State()) && GatesFound(e.State(), e.gates, e.gate, x)
    ensures MarkedWithin(e.marks, e.marked)
    ensures e.gates == [] ==> NoAnd(e.State(), x)
  {
    ghost var before := e.State();
    var ns := Occ(e.occs, -x);
    assert ListOk(e.clauses, ns, -x);
    hide DbOk, OccsOk, Same, Partners, GatesFound, Marking, Listed, NoneBase, Unmarked, NoAnd, Inputs, Satisfied;
    SameRefl(before);
    MarkingWithin(e.marks, e.marked);
    NoneBaseStart(before, ns, x, e.marked);
    var k := 0;
    while k < |ns|
      invariant 0 <= k <= |ns| && e.Valid() && Same(before, e.State()) && e.gates == [] && e.gate == {}
      invariant Partners(e.State(), Occ(e.occs, x), x, e.marked) && Marking(e.marks, Lits(e.marked))
      invariant e.clauses == before.clauses && e.units == before.units && e.unsat == before.unsat
      invariant NoneBase(e.State(), ns[..k], x, e.marked)
    {
      var found := SearchAndAt(e, ns, k, x, before);
      if found {
        return;
      }
      k := k + 1;
    }
    assert ns[..k] == ns;
    MarkingWithin(e.marks, e.marked);
    NoGates(e.State(), x);
    ListedKept(before, e.State(), Occ(e.occs, x), x, e.marked);
    AndMissing(e.State(), e.occs, x, e.marked);
  }

  /** One clause on the other phase. */
  method SearchAndAt(e: Eliminator, ns: seq<nat>, k: nat, x: int, ghost before: Db) returns (found: bool)
    requires e.Valid() && x != 0 && !Assigned(e.units, x) && e.gates == [] && e.gate == {} && Same(before, e.State())
    requires Marking(e.marks, Lits(e.marked)) && ProperClause(e.marked) && Partners(e.State(), Occ(e.occs, x), x, e.marked)
    requires k < |ns| && ListOk(e.clauses, ns, -x) && NoneBase(e.State(), ns[..k], x, e.marked)
    modifies e`garbage, e`gate, e`gates, e`marks
    ensures e.Valid() && Same(before, e.State())
    ensures found ==> e.gates != [] && GatesFound(e.State(), e.gates, e.gate, x) && MarkedWithin(e.marks, e.marked)
    ensures !found ==> e.gates == [] && e.gate == {} && Marking(e.marks, Lits(e.marked))
    ensures !found ==> Partners(e.State(), Occ(e.occs, x), x, e.marked) && NoneBase(e.State(), ns[..k + 1], x, e.marked)
  {
    hide DbOk, OccsOk, Same, Partners, GatesFound, Marking, NoneBase, Unmarked, Inputs, Satisfied;
    var i := ns[k];
    ghost var start := e.State();
    found := false;
    if i !in e.garbage && |e.clauses[i]| >= 3 {
      DbClause(start, i);
      var all, satisfied := ScanBase(e, e.clauses[i], x);
      if all && satisfied {
        SatisfiedRemoved(start, i);
        RemovedKept(start, i, e.occs);
        e.garbage := e.garbage + {i};
        PropagatedSame(start, e.State());
        SameTrans(before, start, e.State());
        OpenKept(start, e.State(), Occ(e.occs, x), x, e.marked);
      } else if all {
        TakeAnd(e, i, x);
        SameTrans(before, start, e.State());
        return true;
      }
    }
    NoneBaseStep(start, e.State(), ns, k, x, e.marked);
  }

  lemma OpenKept(a: Db, b: Db, os: seq<nat>, first: int, lits: seq<int>)
    requires Partners(a, os, first, lits) && Propagated(a, b) && a.units == b.units
    ensures Partners(b, os, first, lits)
  {
    forall l | l in lits
      ensures Partner(b, os, first, l)
    {
      assert Partner(a, os, first, l);
      var k :| 0 <= k < |os| && Live(a, os[k]) && Binary(a, os[k], first, l);
      BinaryFrame(a, b, os[k], first, l);
    }
  }

  /** Finds an AND gate. If it finds none and the pivot has no value, there is none. */
  method FindAndGate(e: Eliminator, x: int)
    requires e.Valid() && x != 0 && e.marked == [] && Marking(e.marks, {}) && GatesFound(e.State(), e.gates, e.gate, x)
    modifies e`garbage, e`units, e`unsat, e`gate, e`gates, e`marks, e`marked
    ensures e.Valid() && Same(old(e.State()), e.State()) && GatesFound(e.State(), e.gates, e.gate, x)
    ensures e.marked == [] && Marking(e.marks, {})
    ensures old(e.gates) <= e.gates && (e.gates == [] && !e.unsat && !Assigned(e.units, x) ==> NoAnd(e.State(), x))
    ensures e.gates == [] && !e.unsat && !Assigned(e.units, x) ==> e.units == old(e.units)
  {
    assert e.gates == [] ==> e.gate == {};
    hide DbOk, OccsOk, Same, Marking, Partners, GatesFound, Listed, NoAnd;
    ghost var before := e.State();
    SameRefl(before);
    if e.unsat || e.Val(x) != 0 || e.gates != [] {
      return;
    }
    MarkBinaryLiterals(e, x);
    ghost var middle := e.State();
    NoGates(middle, x);
    MarkingWithin(e.marks, e.marked);
    if !e.unsat && e.Val(x) == 0 {
      SearchAnd(e, x);
      SameTrans(before, middle, e.State());
    }
    UnmarkBinaryLiterals(e);
  }

  lemma GatesFoundOpposite(db: Db, gates: seq<nat>, gate: set<nat>, x: int)
    requires GatesFound(db, gates, gate, x)
    ensures GatesFound(db, gates, gate, Opposite(x))
  {
    assert Opposite(Opposite(x)) == x;
    assert Defines(db, gate, x) <==> Defines(db, gate, Opposite(x));
  }

  // ----- If-then-else gates --------------------------------------------------------------------------

  /** The literals without root-level value, in order. */
  function Open(c: Clause, units: set<int>): seq<int>
  {
    if c == [] then [] else Open(c[..|c| - 1], units) + if Assigned(units, c[|c| - 1]) then [] else [c[|c| - 1]]
  }

  lemma OpenStep(c: Clause, k: nat, units: set<int>)
    requires k < |c|
    ensures Open(c[..k + 1], units) == Open(c[..k], units) + if Assigned(units, c[k]) then [] else [c[k]]
  {
    assert c[..k + 1][..k] == c[..k];
  }

  /** The literal that is tried as the condition of a gate with a ternary clause on x: the middle one, unless that is x. */
  function Condition(open: seq<int>, x: int): int
    requires |open| >= 2
  {
    if open[1] == x then open[0] else open[1]
  }

  /** The three unassigned literals of a live clause, if it has exactly three. */
  method GetTernary(e: Eliminator, i: nat) returns (ok: bool, a: int, b: int, c: int)
    requires i < |e.clauses| && ClauseOk(e.clauses[i])
    ensures ok ==> Live(e.State(), i) && HasActual(e.State(), i, {a, b, c}) && a != b && a != c && b != c
    ensures ok <==> Live(e.State(), i) && |Actual(e.clauses[i], e.units)| == 3
    ensures ok ==> Open(e.clauses[i], e.units) == [a, b, c]
  {
    ok, a, b, c := false, 0, 0, 0;
    var d := e.clauses[i];
    if i in e.garbage {
      return;
    }
    if |d| < 3 {
      FewLiterals(d, e.units);
      return;
    }
    OpenActual(d, |d|, e.units);
    assert d[..|d|] == d;
    DistinctCount(Open(d, e.units));
    var found := [];
    var k := 0;
    while k < |d|
      invariant 0 <= k <= |d| && |found| <= 3 && found == Open(d[..k], e.units)
    {
      hide Open, Actual;
      OpenStep(d, k, e.units);
      if e.Val(d[k]) == 0 {
        if |found| == 3 {
          OpenPrefix(d, k + 1, e.units);
          return;
        }
        found := found + [d[k]];
      }
      k := k + 1;
    }
    assert d[..k] == d;
    ok := |found| == 3;
    if ok {
      a, b, c := found[0], found[1], found[2];
      assert found == [a, b, c];
      assert Lits([a, b, c]) == {a, b, c};
    }
  }

  lemma {:induction false} OpenActual(c: Clause, k: nat, units: set<int>)
    requires Distinct(c) && k <= |c|
    ensures Distinct(Open(c[..k], units)) && Lits(Open(c[..k], units)) == Actual(c[..k], units)
  {
    if k > 0 {
      hide Distinct, Open, Actual;
      OpenActual(c, k - 1, units);
      OpenStep(c, k - 1, units);
      ActualStep(c, k - 1, units);
      OneMore(Open(c[..k - 1], units), c[k - 1]);
    }
  }

  lemma OneMore(s: seq<int>, x: int)
    ensures Lits(s + [x]) == Lits(s) + {x}
    ensures Distinct(s) && x !in Lits(s) ==> Distinct(s + [x])
  {
    assert forall k :: 0 <= k < |s| ==> s[k] in Lits(s);
  }

  lemma {:induction false} OpenPrefix(c: Clause, k: nat, units: set<int>)
    requires k <= |c|
    ensures |Open(c[..k], units)| <= |Open(c, units)|
    decreases |c| - k
  {
    if k < |c| {
      OpenStep(c, k, units);
      OpenPrefix(c, k + 1, units);
    } else {
      assert c[..k] == c;
    }
  }

  lemma FewLiterals(d: Clause, units: set<int>)
    requires |d| < 3 && Distinct(d)
    ensures |Actual(d, units)| != 3
  {
    DistinctCount(d);
    assert Actual(d, units) <= Lits(d);
    SubsetSize(Actual(d, units), Lits(d));
  }

  lemma SubsetSize(a: set<int>, b: set<int>)
    requires a <= b
    ensures |a| <= |b|
  {
    assert b == a + (b - a);
  }

  /** Whether a live clause has exactly the three given unassigned literals. */
  method MatchTernary(e: Eliminator, i: nat, a: int, b: int, c: int) returns (ok: bool)
    requires i < |e.clauses| && ClauseOk(e.clauses[i]) && a != b && a != c && b != c
    ensures ok <==> Live(e.State(), i) && HasActual(e.State(), i, {a, b, c})
  {
    if i in e.garbage {
      return false;
    }
    var within, found := CountWithin(e, e.clauses[i], a, b, c);
    if within {
      ThreeOf(Actual(e.clauses[i], e.units), a, b, c);
    }
    return within && found == 3;
  }

  lemma ThreeOf(s: set<int>, a: int, b: int, c: int)
    requires s <= {a, b, c} && a != b && a != c && b != c
    ensures |s| == 3 <==> s == {a, b, c}
  {
    if s != {a, b, c} { ProperSubsetSmaller(s, {a, b, c}); }
  }

  /** Counts the unassigned literals as long as they are among the three given ones. */
  method CountWithin(e: Eliminator, d: Clause, a: int, b: int, c: int) returns (within: bool, found: nat)
    requires Distinct(d)
    ensures within <==> Actual(d, e.units) <= {a, b, c}
    ensures within ==> found == |Actual(d, e.units)|
  {
    hide Distinct;
    var k := 0;
    found := 0;
    NoActual(e.units);
    assert d[..0] == [];
    while k < |d|
      invariant 0 <= k <= |d| && Actual(d[..k], e.units) <= {a, b, c} && found == |Actual(d[..k], e.units)|
    {
      hide Actual;
      var lit := d[k];
      ActualStep(d, k, e.units);
      if e.Val(lit) == 0 {
        if a != lit && b != lit && c != lit {
          return false, 0;
        }
        found := found + 1;
      }
      k := k + 1;
    }
    assert d[..k] == d;
    within := true;
  }

  lemma NoActual(units: set<int>)
    ensures Actual([], units) == {}
  {
  }

  lemma ActualStep(d: Clause, k: nat, units: set<int>)
    requires k < |d| && Distinct(d)
    ensures Actual(d[..k + 1], units) == Actual(d[..k], units) + if Assigned(units, d[k]) then {} else {d[k]}
    ensures d[k] !in Actual(d[..k], units) && (!Assigned(units, d[k]) ==> d[k] in Actual(d, units))
  {
    assert d[..k + 1] == d[..k] + [d[k]];
  }

  /** A clause with exactly the three given unassigned literals, searched in the shortest of their lists. */
  method FindTernary(e: Eliminator, a: int, b: int, c: int) returns (ok: bool, i: nat)
    requires e.Valid() && a != b && a != c && b != c
    ensures ok ==> Live(e.State(), i) && HasActual(e.State(), i, {a, b, c})
    ensures !ok ==> forall k :: Live(e.State(), k) ==> !HasActual(e.State(), k, {a, b, c})
  {
    var a', b', c' := a, b, c;
    if |Occ(e.occs, b')| > |Occ(e.occs, c')| {
      b', c' := c', b';
    }
    if |Occ(e.occs, a')| > |Occ(e.occs, b')| {
      a', b' := b', a';
    }
    assert {a', b', c'} == {a, b, c};
    ok, i := SearchTernary(e, a', b', c');
  }

  method SearchTernary(e: Eliminator, a: int, b: int, c: int) returns (ok: bool, i: nat)
    requires e.Valid() && a != b && a != c && b != c
    ensures ok ==> Live(e.State(), i) && HasActual(e.State(), i, {a, b, c})
    ensures !ok ==> forall k :: Live(e.State(), k) ==> !HasActual(e.State(), k, {a, b, c})
  {
    var os := Occ(e.occs, a);
    assert ListOk(e.clauses, os, a);
    ghost var lits := {a, b, c};
    var k := 0;
    while k < |os|
      invariant 0 <= k <= |os|
      invariant forall m :: 0 <= m < k && Live(e.State(), os[m]) ==> !HasActual(e.State(), os[m], lits)
    {
      hide DbOk, OccsOk, HasActual;
      DbClause(e.State(), os[k]);
      var found := MatchTernary(e, os[k], a, b, c);
      if found {
        return true, os[k];
      }
      k := k + 1;
    }
    NotListed(e.State(), e.occs, a, lits);
    return false, 0;
  }

  /** If no clause in the list of a literal matches, no live clause does. */
  lemma NotListed(db: Db, occs: Occs, a: int, lits: set<int>)
    requires OccsOk(db, occs) && a in lits
    requires forall m :: 0 <= m < |Occ(occs, a)| && Live(db, Occ(occs, a)[m]) ==> !HasActual(db, Occ(occs, a)[m], lits)
    ensures forall k :: Live(db, k) ==> !HasActual(db, k, lits)
  {
    var os := Occ(occs, a);
    forall i | Live(db, i)
      ensures !HasActual(db, i, lits)
    {
      if a in Actual(db.clauses[i], db.units) {
        assert i in os;
        var m :| 0 <= m < |os| && os[m] == i;
      }
    }
  }

  /** The two other literals of a clause on x that is ternary up to root-level literals. */
  method TernaryWith(e: Eliminator, i: nat, x: int) returns (ok: bool, b: int, c: int)
    requires e.Valid() && i < |e.clauses| && x in e.clauses[i] && !Assigned(e.units, x)
    ensures ok ==> Live(e.State(), i) && HasActual(e.State(), i, {x, b, c})
    ensures ok ==> Abs(x) != Abs(b) && Abs(x) != Abs(c) && Abs(b) != Abs(c)
    ensures ok <==> Live(e.State(), i) && |Actual(e.clauses[i], e.units)| == 3
    ensures ok ==> |Open(e.clauses[i], e.units)| == 3 && b == Condition(Open(e.clauses[i], e.units), x)
  {
    hide OccsOk;
    DbClause(e.State(), i);
    hide DbOk;
    var a;
    ok, a, b, c := GetTernary(e, i);
    if ok {
      assert x in Actual(e.clauses[i], e.units);
      if b == x {
        a, b := b, a;
      }
      if c == x {
        a, c := c, a;
      }
      assert Actual(e.clauses[i], e.units) == {x, b, c};
      DifferentVariables(e.clauses[i], x, b);
      DifferentVariables(e.clauses[i], x, c);
      DifferentVariables(e.clauses[i], b, c);
    }
  }

  lemma DifferentVariables(c: Clause, l: int, m: int)
    requires ClauseOk(c) && l in c && m in c && l != m
    ensures Abs(l) != Abs(m)
  {
    assert !(Opposite(l) in c);
  }

  /** Tries two clauses on x as the positive half of an if-then-else gate. */
  method MatchIte(e: Eliminator, i: nat, j: nat, x: int) returns (ok: bool, k: nat, l: nat)
    requires e.Valid() && i < |e.clauses| && j < |e.clauses| && x in e.clauses[i] && x in e.clauses[j] && !Assigned(e.units, x)
    ensures ok ==> IsIte(e.State(), i, j, k, l, x)
    ensures !ok ==> NoIte(e.State(), i, j, x)
  {
    hide DbOk, OccsOk, NoIte, Open;
    ok, k, l := false, 0, 0;
    var oki, bi, ci := TernaryWith(e, i, x);
    if !oki {
      NotTernary(e.State(), i, j, x);
      return;
    }
    var okj, bj, cj := TernaryWith(e, j, x);
    if !okj {
      NotTernary(e.State(), i, j, x);
      return;
    }
    if Abs(bi) == Abs(cj) {
      assert {x, bj, cj} == {x, cj, bj};
      bj, cj := cj, bj;
    }
    hide HasActual;
    if Abs(ci) == Abs(cj) || bi != -bj {
      NotMatched(e.State(), i, j, x, bi, ci, bj, cj);
      return;
    }
    ok, k := FindTernary(e, -x, bi, -ci);
    if !ok {
      NotMatched(e.State(), i, j, x, bi, ci, bj, cj);
      return;
    }
    ok, l := FindTernary(e, -x, bj, -cj);
    if !ok {
      NotMatched(e.State(), i, j, x, bi, ci, bj, cj);
      return;
    }
    assert IteShape(e.State(), i, j, k, l, x, bi, ci, cj);
  }

  ghost predicate IsIte(db: Db, i: nat, j: nat, k: nat, l: nat, x: int)
  {
    && Live(db, i) && Live(db, j) && Live(db, k) && Live(db, l)
    && exists b, c, d :: IteShape(db, i, j, k, l, x, b, c, d)
  }

  /** The four clauses of an if-then-else gate, with its condition where the code looks for it in the first clause. */
  predicate Recognisable(db: Db, i: nat, j: nat, k: nat, l: nat, x: int, b: int, c: int, d: int)
  {
    && Live(db, i) && Live(db, j) && Live(db, k) && Live(db, l) && IteShape(db, i, j, k, l, x, b, c, d)
    && |Open(db.clauses[i], db.units)| >= 2 && b == Condition(Open(db.clauses[i], db.units), x)
  }

  /** The two clauses start no recognisable gate. */
  ghost predicate NoIte(db: Db, i: nat, j: nat, x: int)
  {
    forall k, l, b, c, d :: !Recognisable(db, i, j, k, l, x, b, c, d)
  }

  /** A gate determines the literals of its two clauses on x. */
  lemma RecognisedAs(db: Db, i: nat, j: nat, k: nat, l: nat, x: int, b: int, c: int, d: int, ci: int, bj: int, cj: int)
    requires IteShape(db, i, j, k, l, x, b, c, d) && HasActual(db, i, {x, b, ci}) && HasActual(db, j, {x, bj, cj})
    requires Abs(x) != Abs(bj) && Abs(x) != Abs(ci) && Abs(x) != Abs(cj) && Abs(b) != Abs(ci) && Abs(b) != Abs(cj)
    ensures c == ci && bj == -b && d == cj && Abs(ci) != Abs(cj)
  {
    assert c in {x, b, ci} && cj in {x, Opposite(b), d} && Opposite(b) in {x, bj, cj};
  }

  /** An attempt that fails on any of the four clauses. */
  lemma NotMatched(db: Db, i: nat, j: nat, x: int, b: int, ci: int, bj: int, cj: int)
    requires HasActual(db, i, {x, b, ci}) && HasActual(db, j, {x, bj, cj})
    requires Abs(x) != Abs(bj) && Abs(x) != Abs(ci) && Abs(x) != Abs(cj) && Abs(b) != Abs(ci) && Abs(b) != Abs(cj)
    requires |Open(db.clauses[i], db.units)| >= 2 && b == Condition(Open(db.clauses[i], db.units), x)
    requires || Abs(ci) == Abs(cj) || b != -bj || (forall k :: Live(db, k) ==> !HasActual(db, k, {-x, b, -ci}))
             || forall k :: Live(db, k) ==> !HasActual(db, k, {-x, bj, -cj})
    ensures NoIte(db, i, j, x)
  {
    hide Open;
    forall k: nat, l: nat, c, d
      ensures !Recognisable(db, i, j, k, l, x, b, c, d)
    {
      if IteShape(db, i, j, k, l, x, b, c, d) {
        RecognisedAs(db, i, j, k, l, x, b, c, d, ci, bj, cj);
        assert HasActual(db, k, {-x, b, -ci}) && HasActual(db, l, {-x, bj, -cj});
      }
    }
  }

  lemma BothTernary(db: Db, i: nat, j: nat, k: nat, l: nat, x: int, b: int, c: int, d: int)
    requires IteShape(db, i, j, k, l, x, b, c, d)
    ensures |Actual(db.clauses[i], db.units)| == 3 && |Actual(db.clauses[j], db.units)| == 3
  {
    assert |{x, b, c}| == 3 && |{x, Opposite(b), d}| == 3;
  }

  lemma NotTernary(db: Db, i: nat, j: nat, x: int)
    requires i < |db.clauses| && j < |db.clauses|
    requires !(Live(db, i) && |Actual(db.clauses[i], db.units)| == 3) || !(Live(db, j) && |Actual(db.clauses[j], db.units)| == 3)
    ensures NoIte(db, i, j, x)
  {
    hide Actual, Open;
    forall k: nat, l: nat, b, c, d
      ensures !Recognisable(db, i, j, k, l, x, b, c, d)
    {
      if Recognisable(db, i, j, k, l, x, b, c, d) {
        BothTernary(db, i, j, k, l, x, b, c, d);
      }
    }
  }

  /** The gate 1 = (-2 ? -3 : -4). */
  function Hidden(): Db
  {
    Db([[1, 3, 2], [1, 4, -2], [-1, 2, -3], [-1, -2, -4]], {}, {}, false)
  }

  /** A gate whose condition stands elsewhere in both clauses is not recognised. */
  lemma IteMissed()
    ensures IteShape(Hidden(), 0, 1, 2, 3, 1, 2, 3, 4) && NoIte(Hidden(), 0, 1, 1) && NoIte(Hidden(), 1, 0, 1)
  {
    hide NoIte, Open, Recognisable;
    HiddenActual();
    OpenAll([1, 3, 2]);
    OpenAll([1, 4, -2]);
    assert {1, 3, 2} == {1, 2, 3} && {1, 4, -2} == {1, -2, 4};
    assert HasActual(Hidden(), 0, {1, 3, 2}) && HasActual(Hidden(), 1, {1, 4, -2});
    hide HasActual;
    NotMatched(Hidden(), 0, 1, 1, 3, 2, -2, 4);
    NotMatched(Hidden(), 1, 0, 1, 4, -2, 3, 2);
  }

  lemma HiddenActual()
    ensures HasActual(Hidden(), 0, {1, 2, 3}) && HasActual(Hidden(), 1, {1, -2, 4})
    ensures HasActual(Hidden(), 2, {-1, 2, -3}) && HasActual(Hidden(), 3, {-1, -2, -4})
  {
    assert Actual([1, 3, 2], {}) == {1, 2, 3};
    assert Actual([1, 4, -2], {}) == {1, -2, 4};
    assert Actual([-1, 2, -3], {}) == {-1, 2, -3};
    assert Actual([-1, -2, -4], {}) == {-1, -2, -4};
  }

  lemma OpenAll(c: Clause)
    ensures Open(c, {}) == c
  {
    if c != [] {
      OpenAll(c[..|c| - 1]);
    }
  }

  /** No two clauses of the list, in their order, start a recognisable gate. */
  ghost predicate NoItes(db: Db, os: seq<nat>, x: int)
  {
    forall m, n :: 0 <= m < n < |os| ==> NoIte(db, os[m], os[n], x)
  }

  lemma TakenIte(db: Db, i: nat, j: nat, k: nat, l: nat, x: int)
    requires DbOk(db) && IsIte(db, i, j, k, l, x)
    ensures GatesFound(db, [i, j, k, l], {i, j, k, l}, x)
  {
    var b, c, d :| IteShape(db, i, j, k, l, x, b, c, d);
    IteDefines(db, i, j, k, l, x, b, c, d);
    var os := [i, j, k, l];
    assert os[0] == i && os[1] == j && os[2] == k && os[3] == l;
    assert Indices(os) == {i, j, k, l};
  }

  /** Tries all pairs of clauses on x. */
  method SearchIte(e: Eliminator, x: int) returns (ok: bool, di: nat, dj: nat, d1: nat, d2: nat)
    requires e.Valid() && !Assigned(e.units, x)
    ensures ok ==> IsIte(e.State(), di, dj, d1, d2, x)
    ensures !ok ==> NoItes(e.State(), Occ(e.occs, x), x)
  {
    var os := Occ(e.occs, x);
    assert ListOk(e.clauses, os, x);
    hide DbOk, OccsOk, IsIte, NoIte;
    var i := 0;
    while i < |os|
      invariant 0 <= i <= |os| && forall m, n :: 0 <= m < i && m < n < |os| ==> NoIte(e.State(), os[m], os[n], x)
    {
      ok, dj, d1, d2 := SearchIteFrom(e, os, i, x);
      if ok {
        di := os[i];
        return;
      }
      i := i + 1;
    }
    return false, 0, 0, 0, 0;
  }

  /** Tries the clause at a position with all later ones. */
  method SearchIteFrom(e: Eliminator, os: seq<nat>, i: nat, x: int) returns (ok: bool, dj: nat, d1: nat, d2: nat)
    requires e.Valid() && !Assigned(e.units, x) && i < |os| && ListOk(e.clauses, os, x)
    ensures ok ==> IsIte(e.State(), os[i], dj, d1, d2, x)
    ensures !ok ==> forall n :: i < n < |os| ==> NoIte(e.State(), os[i], os[n], x)
  {
    hide DbOk, OccsOk, IsIte, NoIte;
    var j := i + 1;
    while j < |os|
      invariant i < j <= |os| && forall n :: i < n < j ==> NoIte(e.State(), os[i], os[n], x)
    {
      ok, d1, d2 := MatchIte(e, os[i], os[j], x);
      if ok {
        dj := os[j];
        return;
      }
      j := j + 1;
    }
    return false, 0, 0, 0;
  }

  /** Finds an if-then-else gate. If it finds none, no two clauses on the pivot start a recognisable one. */
  method FindIfThenElse(e: Eliminator, x: int)
    requires e.Valid() && x != 0 && GatesFound(e.State(), e.gates, e.gate, x)
    modifies e`gate, e`gates
    ensures e.Valid() && GatesFound(e.State(), e.gates, e.gate, x) && old(e.gates) <= e.gates
    ensures e.gates == [] && !e.unsat && !Assigned(e.units, x) ==> NoItes(e.State(), Occ(e.occs, x), x)
  {
    hide DbOk, OccsOk, GatesFound, IsIte, NoItes;
    if e.unsat || e.Val(x) != 0 || e.gates != [] {
      return;
    }
    var ok, di, dj, d1, d2 := SearchIte(e, x);
    if ok {
      TakenIte(e.State(), di, dj, d1, d2, x);
      e.gate := {di, dj, d1, d2};
      e.gates := [di, dj, d1, d2];
    }
  }

  // ----- XOR gates -----------------------------------------------------------------------------------

  /** The unassigned literals of a live clause, in order. */
  method GetClause(e: Eliminator, i: nat) returns (ok: bool, lits: seq<int>)
    requires i < |e.clauses| && ClauseOk(e.clauses[i])
    ensures ok <==> Live(e.State(), i)
    ensures ok ==> Distinct(lits) && Lits(lits) == Actual(e.clauses[i], e.units)
  {
    lits := [];
    if i in e.garbage {
      return false, [];
    }
    var d := e.clauses[i];
    var k := 0;
    while k < |d|
      invariant 0 <= k <= |d| && Distinct(lits) && Lits(lits) == Actual(d[..k], e.units)
    {
      var lit := d[k];
      assert d[..k + 1] == d[..k] + [lit] && lit !in d[..k];
      if e.Val(lit) == 0 {
        assert lit !in Lits(lits) && Lits(lits + [lit]) == Lits(lits) + {lit};
        lits := lits + [lit];
      }
      k := k + 1;
    }
    assert d[..k] == d;
    return true, lits;
  }

  /** Whether a live clause has exactly the given unassigned literals. */
  method IsClause(e: Eliminator, i: nat, lits: seq<int>) returns (ok: bool)
    requires i < |e.clauses| && ClauseOk(e.clauses[i]) && Distinct(lits)
    ensures ok <==> Live(e.State(), i) && HasActual(e.State(), i, Lits(lits))
  {
    if i in e.garbage {
      return false;
    }
    var d, size := e.clauses[i], |lits|;
    DistinctCount(lits);
    if |d| < size {
      DistinctCount(d);
      SubsetSize(Actual(d, e.units), Lits(d));
      return false;
    }
    var found, k := 0, 0;
    ghost var seen: set<int> := {};
    while k < |d|
      invariant 0 <= k <= |d| && seen == Actual(d[..k], e.units) <= Lits(lits) && found == |seen| <= size
    {
      var lit := d[k];
      assert d[..k + 1] == d[..k] + [lit] && lit !in d[..k];
      if e.Val(lit) == 0 {
        if lit !in lits {
          assert lit in Actual(d, e.units);
          return false;
        }
        seen := seen + {lit};
        found := found + 1;
        SubsetSize(seen, Lits(lits));
        if found > size {
          return false;
        }
      }
      k := k + 1;
    }
    assert d[..k] == d;
    if found == size && seen != Lits(lits) {
      ProperSubsetSmaller(seen, Lits(lits));
    }
    return found == size;
  }

  /** A clause with exactly the given unassigned literals, searched in the shortest of their lists. */
  method FindClause(e: Eliminator, lits: seq<int>) returns (ok: bool, i: nat)
    requires e.Valid() && lits != [] && Distinct(lits)
    ensures ok ==> Live(e.State(), i) && HasActual(e.State(), i, Lits(lits))
    ensures !ok ==> forall k :: Live(e.State(), k) ==> !HasActual(e.State(), k, Lits(lits))
  {
    var best := ShortestList(e, lits);
    var os := Occ(e.occs, best);
    assert ListOk(e.clauses, os, best);
    var k := 0;
    while k < |os|
      invariant 0 <= k <= |os|
      invariant forall m :: 0 <= m < k && Live(e.State(), os[m]) ==> !HasActual(e.State(), os[m], Lits(lits))
    {
      hide DbOk, OccsOk, HasActual, Lits;
      DbClause(e.State(), os[k]);
      var found := IsClause(e, os[k], lits);
      if found {
        return true, os[k];
      }
      k := k + 1;
    }
    NotListed(e.State(), e.occs, best, Lits(lits));
    return false, 0;
  }

  method ShortestList(e: Eliminator, lits: seq<int>) returns (best: int)
    requires lits != []
    ensures best in lits && forall l :: l in lits ==> |Occ(e.occs, best)| <= |Occ(e.occs, l)|
  {
    best := lits[0];
    var k := 1;
    while k < |lits|
      invariant 1 <= k <= |lits| && best in lits
      invariant forall l :: l in lits[..k] ==> |Occ(e.occs, best)| <= |Occ(e.occs, l)|
    {
      assert lits[..k + 1] == lits[..k] + [lits[k]];
      if |Occ(e.occs, lits[k])| < |Occ(e.occs, best)| {
        best := lits[k];
      }
      k := k + 1;
    }
    assert lits[..k] == lits;
  }

  // ----- Sign patterns as numbers --------------------------------------------------------------------

  /** An odd number of binary digits of n is set. */
  predicate Parity(n: nat)
  {
    n != 0 && (n % 2 == 1) != Parity(n / 2)
  }

  /** The lowest len binary digits of n, lowest first. */
  function Bits(n: nat, len: nat): (r: seq<bool>)
    ensures |r| == len
    decreases len
  {
    if len == 0 then [] else [n % 2 == 1] + Bits(n / 2, len - 1)
  }

  function Number(bits: seq<bool>): nat
  {
    if bits == [] then 0 else (if bits[0] then 1 else 0) + 2 * Number(bits[1..])
  }

  function Pow2(n: nat): (r: nat)
    ensures r > 0
  {
    if n == 0 then 1 else 2 * Pow2(n - 1)
  }

  lemma {:induction false} NumberBits(bits: seq<bool>)
    ensures Bits(Number(bits), |bits|) == bits && Number(bits) < Pow2(|bits|) && Parity(Number(bits)) == Odd(bits)
  {
    if bits != [] {
      NumberBits(bits[1..]);
      var n := Number(bits);
      assert n / 2 == Number(bits[1..]) && (n % 2 == 1) == bits[0];
    }
  }

  lemma {:induction false} BitsNumber(n: nat, len: nat)
    requires n < Pow2(len)
    ensures Number(Bits(n, len)) == n && Odd(Bits(n, len)) == Parity(n)
    decreases len
  {
    if len > 0 {
      BitsNumber(n / 2, len - 1);
      assert Bits(n, len)[1..] == Bits(n / 2, len - 1);
    }
  }

  /** The k-th number of even parity: one of 2k and 2k + 1. */
  function Even(k: nat): (r: nat)
    ensures !Parity(r) && r / 2 == k
  {
    assert Parity(2 * k + 1) != Parity(2 * k) by {
      assert (2 * k + 1) / 2 == k && (2 * k) / 2 == k;
    }
    if Parity(2 * k) then 2 * k + 1 else 2 * k
  }

  lemma EvenUnique(n: nat)
    requires !Parity(n)
    ensures n == Even(n / 2)
  {
    var k := n / 2;
    assert (2 * k + 1) / 2 == k && (2 * k) / 2 == k;
  }

  /** Counts up to the next number of even parity. */
  method NextEven(signs: nat, ghost k: nat) returns (next: nat)
    requires signs == Even(k)
    ensures next == Even(k + 1)
  {
    next := signs + 1;
    while Parity(next)
      invariant signs < next <= Even(k + 1)
      invariant forall n :: signs < n < next ==> Parity(n)
      decreases Even(k + 1) - next
    {
      next := next + 1;
    }
    EvenUnique(next);
    assert next / 2 >= k;
  }

  /** Digit j of n. */
  predicate Bit(n: nat, j: nat)
  {
    (n / Pow2(j)) % 2 == 1
  }

  lemma {:induction false} BitOfBits(n: nat, len: nat, j: nat)
    requires j < len
    ensures Bits(n, len)[j] == Bit(n, j)
    decreases len
  {
    if j > 0 {
      BitOfBits(n / 2, len - 1, j - 1);
      DivTwice(n, Pow2(j - 1));
    }
  }

  lemma DivTwice(n: nat, p: nat)
    requires p > 0
    ensures n / 2 / p == n / (2 * p)
  {
    var q := n / (2 * p);
    var r := n % (2 * p);
    assert n == 2 * (q * p) + r by { assert n == q * (2 * p) + r; }
    assert n / 2 == q * p + r / 2;
    assert 0 <= r / 2 < p;
    DivUnique(n / 2, p, q, r / 2);
  }

  lemma DivUnique(a: nat, p: nat, q: nat, r: nat)
    requires p > 0 && r < p && a == q * p + r
    ensures a / p == q
  {
    var d := a / p;
    assert a == d * p + a % p;
    assert d < q ==> (d + 1) * p <= q * p;
    assert d > q ==> (q + 1) * p <= d * p;
  }

  // ----- Searching for XOR gates ---------------------------------------------------------------------

  /** Negates the literals whose sign differs between two patterns. */
  method Resign(lits: seq<int>, prev: nat, signs: nat, ghost base: seq<int>) returns (r: seq<int>)
    requires |lits| == |base| && lits == Signed(base, Bits(prev, |base|))
    ensures r == Signed(base, Bits(signs, |base|))
  {
    r := lits;
    var j := 0;
    while j < |lits|
      invariant 0 <= j <= |lits| == |r|
      invariant forall k :: 0 <= k < j ==> r[k] == Signed(base, Bits(signs, |base|))[k]
      invariant forall k :: j <= k < |r| ==> r[k] == lits[k]
    {
      BitOfBits(prev, |base|, j);
      BitOfBits(signs, |base|, j);
      if Bit(prev, j) != Bit(signs, j) {
        r := r[j := -r[j]];
      }
      j := j + 1;
    }
  }

  /** The clauses found for the patterns number 1 to |found|. */
  ghost predicate FoundFor(db: Db, base: seq<int>, found: seq<nat>)
  {
    forall k :: 0 <= k < |found| ==> Live(db, found[k]) && ForPattern(db, found[k], base, Bits(Even(k + 1), |base|))
  }

  /** Looks for all other sign patterns of even parity over the base clause. */
  method FindPatterns(e: Eliminator, base: seq<int>) returns (complete: bool, found: seq<nat>)
    requires e.Valid() && |base| >= 2 && BaseOk(e.units, base)
    ensures complete ==> |found| == Pow2(|base| - 1) - 1 && FoundFor(e.State(), base, found)
    ensures !complete ==> MissingPattern(e.State(), base)
  {
    hide DbOk, OccsOk, Signed, BaseOk, MissingPattern, FoundFor, Bits, Complete;
    var lits, signs, needed := base, 0, Pow2(|base| - 1) - 1;
    found := [];
    NoSigns(base);
    NoneFound(e.State(), base);
    assert Even(0) == 0;
    hide Even, Parity;
    while needed > 0
      invariant needed + |found| == Pow2(|base| - 1) - 1 && needed >= 0
      invariant signs == Even(|found|) && lits == Signed(base, Bits(signs, |base|)) && FoundFor(e.State(), base, found)
    {
      var ok, i;
      ok, i, lits, signs := FindPattern(e, base, lits, signs, |found|);
      if !ok {
        return false, [];
      }
      FoundOneMore(e.State(), base, found, i);
      found := found + [i];
      needed := needed - 1;
    }
    complete := true;
  }

  /** Looks for the next sign pattern. */
  method FindPattern(e: Eliminator, base: seq<int>, lits: seq<int>, signs: nat, ghost k: nat)
    returns (ok: bool, i: nat, lits': seq<int>, signs': nat)
    requires e.Valid() && |base| >= 2 && BaseOk(e.units, base) && k + 1 < Pow2(|base| - 1)
    requires signs == Even(k) && lits == Signed(base, Bits(signs, |base|))
    ensures signs' == Even(k + 1) && lits' == Signed(base, Bits(signs', |base|))
    ensures ok ==> Live(e.State(), i) && HasActual(e.State(), i, Lits(lits'))
    ensures !ok ==> MissingPattern(e.State(), base)
  {
    hide DbOk, OccsOk, Complete, Even, Parity, Signed, BaseOk, MissingPattern, Bits, HasActual;
    signs' := NextEven(signs, k);
    SignedLength(base, Bits(signs, |base|));
    lits' := Resign(lits, signs, signs', base);
    SignedDistinct(e.units, base, Bits(signs', |base|));
    ok, i := FindClause(e, lits');
    if !ok {
      PatternMissing(e.State(), base, k + 1);
    }
  }

  lemma NoneFound(db: Db, base: seq<int>)
    ensures FoundFor(db, base, [])
  {
  }

  /** No live clause has the base literals with some signs of even parity. */
  ghost predicate MissingPattern(db: Db, base: seq<int>)
  {
    exists bits: seq<bool> :: |bits| == |base| && !Odd(bits) && NoneFor(db, base, bits)
  }

  ghost predicate NoneFor(db: Db, base: seq<int>, bits: seq<bool>)
  {
    forall i :: Live(db, i) ==> !ForPattern(db, i, base, bits)
  }

  lemma PatternMissing(db: Db, base: seq<int>, k: nat)
    requires |base| > 0 && k < Pow2(|base| - 1)
    requires forall i :: Live(db, i) ==> !HasActual(db, i, Lits(Signed(base, Bits(Even(k), |base|))))
    ensures MissingPattern(db, base)
  {
    hide HasActual, Lits, Bits;
    EvenBelow(k, |base|);
    BitsNumber(Even(k), |base|);
    assert NoneFor(db, base, Bits(Even(k), |base|));
  }

  /** The clause cannot be the base of an XOR gate within the arity limit. */
  ghost predicate NotXorBase(db: Db, d: nat, xorlim: int)
    requires d < |db.clauses|
  {
    var lits := Actual(db.clauses[d], db.units);
    3 <= |lits| <= xorlim + 1 ==> exists base :: Lits(base) == lits && MissingPattern(db, base)
  }

  lemma SignedLength(base: seq<int>, bits: seq<bool>)
    requires |base| == |bits|
    ensures |Signed(base, bits)| == |base|
  {
  }

  lemma FoundOneMore(db: Db, base: seq<int>, found: seq<nat>, i: nat)
    requires FoundFor(db, base, found) && Live(db, i)
    requires HasActual(db, i, Lits(Signed(base, Bits(Even(|found| + 1), |base|))))
    ensures FoundFor(db, base, found + [i])
  {
    hide Even, Bits, Parity, HasActual, Lits;
    var more := found + [i];
    forall k | 0 <= k < |more|
      ensures Live(db, more[k]) && ForPattern(db, more[k], base, Bits(Even(k + 1), |base|))
    {
      if k < |found| { assert more[k] == found[k]; }
    }
  }

  lemma {:induction false} ZeroBits(len: nat)
    ensures Bits(0, len) == seq(len, _ => false)
    decreases len
  {
    if len > 0 { ZeroBits(len - 1); }
  }

  lemma NoSigns(base: seq<int>)
    ensures Signed(base, Bits(0, |base|)) == base
  {
    ZeroBits(|base|);
  }

  lemma SignedDistinct(units: set<int>, base: seq<int>, bits: seq<bool>)
    requires BaseOk(units, base) && |bits| == |base|
    ensures Distinct(Signed(base, bits)) && |Signed(base, bits)| == |base|
  {
    var r := Signed(base, bits);
    forall i, j | 0 <= i < j < |r| ensures r[i] != r[j] { OtherVariable(units, base, i, j); }
  }

  /** Different patterns have different literals. */
  lemma PatternUnique(units: set<int>, base: seq<int>, f: seq<bool>, g: seq<bool>)
    requires BaseOk(units, base) && |f| == |base| && |g| == |base| && Lits(Signed(base, f)) == Lits(Signed(base, g))
    ensures f == g
  {
    var r, t := Signed(base, f), Signed(base, g);
    forall j | 0 <= j < |base|
      ensures f[j] == g[j]
    {
      assert r[j] in Lits(r);
      assert r[j] in t;
      var k :| 0 <= k < |t| && t[k] == r[j];
      if k != j { OtherVariable(units, base, k, j); }
    }
  }

  /** All patterns found, with the base clause itself, make an XOR gate. */
  lemma XorFound(db: Db, base: seq<int>, found: seq<nat>, d: nat)
    requires |base| >= 2 && BaseOk(db.units, base) && |found| == Pow2(|base| - 1) - 1 && FoundFor(db, base, found)
    requires Live(db, d) && HasActual(db, d, Lits(base))
    ensures XorShape(db, Indices(found + [d]), base)
  {
    hide XorShape, Bits, Pow2, Indices, BaseOk, HasActual;
    var all := [d] + found;
    var n := |base|;
    NoSigns(base);
    assert Even(0) == 0;
    assert forall k :: 0 <= k < |all| ==> ForPattern(db, all[k], base, Bits(Even(k), n)) by {
      forall k | 0 <= k < |all| ensures ForPattern(db, all[k], base, Bits(Even(k), n)) {
        if k > 0 { assert all[k] == found[k - 1]; }
      }
    }
    assert Indices(found + [d]) == Indices(all) by {
      IndicesAdd(found, d);
      IndicesPrepend(d, found);
    }
    AllPatterns(db, base, all);
  }

  lemma IndicesPrepend(i: nat, os: seq<nat>)
    ensures Indices([i] + os) == {i} + Indices(os)
  {
    var more := [i] + os;
    assert more[0] == i && forall k :: 0 <= k < |os| ==> more[k + 1] == os[k];
    forall m | m in Indices(more) ensures m in {i} + Indices(os) {
      var k :| 0 <= k < |more| && more[k] == m;
      if k > 0 { assert os[k - 1] == m; }
    }
    forall m | m in {i} + Indices(os) ensures m in Indices(more) {
      if m != i {
        var k :| 0 <= k < |os| && os[k] == m;
        assert more[k + 1] == m;
      }
    }
  }

  lemma AllPatterns(db: Db, base: seq<int>, all: seq<nat>)
    requires |base| >= 2 && BaseOk(db.units, base) && |all| == Pow2(|base| - 1)
    requires forall k :: 0 <= k < |all| ==> ForPattern(db, all[k], base, Bits(Even(k), |base|))
    ensures XorShape(db, Indices(all), base)
  {
    hide *;
    forall bits: seq<bool> | |bits| == |base| && !Odd(bits)
      ensures exists i :: i in Indices(all) && ForPattern(db, i, base, bits)
    {
      PatternFound(db, base, all, bits);
    }
    forall i | i in Indices(all)
      ensures exists bits: seq<bool> :: !Odd(bits) && ForPattern(db, i, base, bits)
    {
      var k := IndexOf(all, i);
      EvenPattern(db, base, i, k);
    }
    forall i, j, bits: seq<bool> |
      i in Indices(all) && j in Indices(all) && ForPattern(db, i, base, bits) && ForPattern(db, j, base, bits)
      ensures i == j
    {
      var k := IndexOf(all, i);
      var m := IndexOf(all, j);
      SamePattern(db, base, i, j, k, m, bits);
    }
    XorParts(db, Indices(all), base);
  }

  lemma XorParts(db: Db, gate: set<nat>, base: seq<int>)
    requires BaseOk(db.units, base)
    requires forall bits: seq<bool> :: |bits| == |base| && !Odd(bits) ==> exists i :: i in gate && ForPattern(db, i, base, bits)
    requires forall i :: i in gate ==> exists bits: seq<bool> :: !Odd(bits) && ForPattern(db, i, base, bits)
    requires forall i, j, bits: seq<bool> ::
               i in gate && j in gate && ForPattern(db, i, base, bits) && ForPattern(db, j, base, bits) ==> i == j
    ensures XorShape(db, gate, base)
  {
    hide BaseOk, Odd, ForPattern;
  }

  lemma IndexOf(all: seq<nat>, i: nat) returns (k: nat)
    requires i in Indices(all)
    ensures k < |all| && all[k] == i
  {
    k :| 0 <= k < |all| && all[k] == i;
  }

  lemma PatternFound(db: Db, base: seq<int>, all: seq<nat>, bits: seq<bool>)
    requires |base| > 0 && |all| == Pow2(|base| - 1) && |bits| == |base| && !Odd(bits)
    requires forall k :: 0 <= k < |all| ==> ForPattern(db, all[k], base, Bits(Even(k), |base|))
    ensures exists i :: i in Indices(all) && ForPattern(db, i, base, bits)
  {
    hide Even, Bits, Parity, Odd, Pow2, ForPattern;
    var k := PatternIndex(bits, |base|);
    assert all[k] in Indices(all) && ForPattern(db, all[k], base, bits);
  }

  lemma EvenPattern(db: Db, base: seq<int>, i: nat, k: nat)
    requires |base| > 0 && k < Pow2(|base| - 1) && ForPattern(db, i, base, Bits(Even(k), |base|))
    ensures exists bits: seq<bool> :: !Odd(bits) && ForPattern(db, i, base, bits)
  {
    hide ForPattern, Bits, Even, Odd, Parity, Pow2;
    EvenBelow(k, |base|);
    BitsNumber(Even(k), |base|);
    assert !Odd(Bits(Even(k), |base|)) && ForPattern(db, i, base, Bits(Even(k), |base|));
  }

  lemma SamePattern(db: Db, base: seq<int>, i: nat, j: nat, k: nat, m: nat, bits: seq<bool>)
    requires |base| > 0 && BaseOk(db.units, base) && k < Pow2(|base| - 1) && m < Pow2(|base| - 1)
    requires ForPattern(db, i, base, Bits(Even(k), |base|)) && ForPattern(db, j, base, Bits(Even(m), |base|))
    requires ForPattern(db, i, base, bits) && ForPattern(db, j, base, bits)
    ensures k == m
  {
    hide Even, Bits, Parity, Odd, Signed, BaseOk;
    var n := |base|;
    PatternUnique(db.units, base, Bits(Even(k), n), bits);
    PatternUnique(db.units, base, Bits(Even(m), n), bits);
    EvenBelow(k, n);
    EvenBelow(m, n);
    BitsNumber(Even(k), n);
    BitsNumber(Even(m), n);
  }

  lemma EvenBelow(k: nat, n: nat)
    requires n > 0 && k < Pow2(n - 1)
    ensures Even(k) < Pow2(n)
  {
  }

  lemma PatternIndex(bits: seq<bool>, n: nat) returns (k: nat)
    requires |bits| == n > 0 && !Odd(bits)
    ensures k < Pow2(n - 1) && Bits(Even(k), n) == bits
  {
    NumberBits(bits);
    EvenUnique(Number(bits));
    k := Number(bits) / 2;
  }

  lemma ClauseBase(units: set<int>, c: Clause, lits: seq<int>)
    requires ClauseOk(c) && Distinct(lits) && Lits(lits) == Actual(c, units)
    ensures BaseOk(units, lits)
  {
    forall j | 0 <= j < |lits|
      ensures lits[j] in c && lits[j] != 0 && !Assigned(units, lits[j]) && !Assigned(units, Opposite(lits[j]))
    {
      assert lits[j] in Lits(lits);
      assert Opposite(Opposite(lits[j])) == lits[j];
    }
    forall i, j | 0 <= i < j < |lits| ensures Abs(lits[i]) != Abs(lits[j]) {
      DifferentVariables(c, lits[i], lits[j]);
    }
  }

  lemma TakenXor(db: Db, base: seq<int>, found: seq<nat>, d: nat, x: int)
    requires DbOk(db) && |base| >= 2 && BaseOk(db.units, base) && |found| == Pow2(|base| - 1) - 1
    requires FoundFor(db, base, found) && Live(db, d) && HasActual(db, d, Lits(base)) && x in base
    ensures GatesFound(db, found + [d], Indices(found + [d]), x)
  {
    hide FoundFor, Mentions;
    XorFound(db, base, found, d);
    var q :| 0 <= q < |base| && base[q] == x;
    hide XorShape, Defines, BaseOk;
    XorDefines(db, Indices(found + [d]), base, q);
    IndicesAdd(found, d);
    FoundLive(db, base, found);
    XorMentions(db, base, found, d, x);
  }

  lemma XorMentions(db: Db, base: seq<int>, found: seq<nat>, d: nat, x: int)
    requires FoundFor(db, base, found) && Live(db, d) && HasActual(db, d, Lits(base)) && x in base
    ensures forall i :: i in Indices(found + [d]) ==> i < |db.clauses| && Mentions(db.clauses[i], x)
  {
    var q :| 0 <= q < |base| && base[q] == x;
    IndicesAdd(found, d);
    forall k | 0 <= k < |found|
      ensures found[k] < |db.clauses| && Mentions(db.clauses[found[k]], x)
    {
      PatternMentions(db, found[k], base, Bits(Even(k + 1), |base|), q);
    }
    assert x in Lits(base);
  }

  lemma PatternMentions(db: Db, i: nat, base: seq<int>, bits: seq<bool>, q: nat)
    requires ForPattern(db, i, base, bits) && q < |base|
    ensures i < |db.clauses| && Mentions(db.clauses[i], base[q])
  {
    var r := Signed(base, bits);
    assert r[q] in Lits(r) && Opposite(base[q]) == -base[q];
  }

  lemma FoundLive(db: Db, base: seq<int>, found: seq<nat>)
    requires FoundFor(db, base, found)
    ensures forall i :: i in Indices(found) ==> Live(db, i)
  {
    hide ForPattern;
  }

  /** Searches for an XOR gate of bounded arity with some clause on x as base clause. */
  method FindXorGate(e: Eliminator, x: int, xorlim: int)
    requires e.Valid() && x != 0 && GatesFound(e.State(), e.gates, e.gate, x)
    modifies e`gate, e`gates
    ensures e.Valid() && GatesFound(e.State(), e.gates, e.gate, x) && old(e.gates) <= e.gates
    ensures e.gates == [] && !e.unsat && !Assigned(e.units, x) ==>
              forall d :: Live(e.State(), d) && x in e.clauses[d] ==> NotXorBase(e.State(), d, xorlim)
  {
    hide DbOk, Complete, GatesFound, Defines, NotXorBase;
    if e.unsat || e.Val(x) != 0 || e.gates != [] {
      return;
    }
    var os := Occ(e.occs, x);
    assert ListOk(e.clauses, os, x);
    hide OccsOk;
    var i := 0;
    while i < |os|
      invariant 0 <= i <= |os| && e.gates == old(e.gates) && e.gate == old(e.gate)
      invariant NoneXorBase(e.State(), os[..i], xorlim)
    {
      var ok, found := XorWithBase(e, os[i], x, xorlim);
      if ok {
        e.gates := found;
        e.gate := set k | 0 <= k < |found| :: found[k];
        return;
      }
      NoneXorBaseStep(e.State(), os, i, xorlim);
      i := i + 1;
    }
    assert os[..i] == os;
    NoXor(e.State(), e.occs, x, xorlim);
  }

  ghost predicate NoneXorBase(db: Db, os: seq<nat>, xorlim: int)
  {
    forall k :: 0 <= k < |os| ==> Live(db, os[k]) ==> NotXorBase(db, os[k], xorlim)
  }

  lemma NoneXorBaseStep(db: Db, os: seq<nat>, i: nat, xorlim: int)
    requires i < |os| && NoneXorBase(db, os[..i], xorlim) && (Live(db, os[i]) ==> NotXorBase(db, os[i], xorlim))
    ensures NoneXorBase(db, os[..i + 1], xorlim)
  {
    hide NotXorBase;
    assert os[..i + 1] == os[..i] + [os[i]];
  }

  lemma NoXor(db: Db, occs: Occs, x: int, xorlim: int)
    requires OccsOk(db, occs) && !Assigned(db.units, x) && NoneXorBase(db, Occ(occs, x), xorlim)
    ensures forall d :: Live(db, d) && x in db.clauses[d] ==> NotXorBase(db, d, xorlim)
  {
    hide NotXorBase;
    forall d | Live(db, d) && x in db.clauses[d]
      ensures NotXorBase(db, d, xorlim)
    {
      assert d in Occ(occs, x);
    }
  }

  method XorWithBase(e: Eliminator, d: nat, x: int, xorlim: int) returns (ok: bool, gates: seq<nat>)
    requires e.Valid() && d < |e.clauses| && x in e.clauses[d] && !Assigned(e.units, x)
    ensures ok ==> GatesFound(e.State(), gates, Indices(gates), x) && gates != []
    ensures !ok && Live(e.State(), d) ==> NotXorBase(e.State(), d, xorlim)
  {
    hide OccsOk, GatesFound, FoundFor, Indices, MissingPattern;
    DbClause(e.State(), d);
    hide DbOk;
    var base;
    ok, base := GetClause(e, d);
    var size := |base|;
    if ok { DistinctCount(base); }
    if !ok || size < 3 || size - 1 > xorlim {
      return false, [];
    }
    ClauseBase(e.units, e.clauses[d], base);
    var complete, found := FindPatterns(e, base);
    if !complete {
      return false, [];
    }
    assert x in Lits(base);
    TakenXor(e.State(), base, found, d, x);
    return true, found + [d];
  }

  // ----- The search for a gate -----------------------------------------------------------------------

  /** None of the four kinds of gates is there to be recognised. */
  ghost predicate NoGate(db: Db, os: seq<nat>, x: int, xorlim: int)
  {
    && NoEquivalence(db, x) && NoAnd(db, x) && NoAnd(db, Opposite(x)) && NoItes(db, os, x)
    && forall d :: Live(db, d) && x in db.clauses[d] ==> NotXorBase(db, d, xorlim)
  }

  lemma NothingAppears(a: Db, b: Db, x: int)
    requires Same(a, b) && a.units == b.units
    ensures NoEquivalence(a, x) ==> NoEquivalence(b, x)
    ensures NoAnd(a, x) ==> NoAnd(b, x)
  {
    hide Inputs, Satisfied;
    forall i, y, l ensures Binary(a, i, y, l) == Binary(b, i, y, l) { BinaryFrame(a, b, i, y, l); }
    hide Binary;
    if NoAnd(a, x) {
      forall i: nat | Candidate(b, i) && Opposite(x) in b.clauses[i]
        ensures exists m :: m in Inputs(b.clauses[i], b.units, x) && NoSideClause(b, x, m)
      {
        assert Candidate(a, i);
        var m :| m in Inputs(a.clauses[i], a.units, x) && NoSideClause(a, x, m);
        assert NoSideClause(b, x, m);
      }
    }
  }

  /** Searches for a gate. If it ends with neither a gate nor a new unit, there is none to be recognised. */
  method FindGateClauses(e: Eliminator, x: int, xorlim: int)
    requires e.Valid() && x != 0 && e.gates == [] && e.gate == {} && e.marked == [] && Marking(e.marks, {})
    modifies e`garbage, e`units, e`unsat, e`gate, e`gates, e`marks, e`marked
    ensures e.Valid() && Same(old(e.State()), e.State()) && GatesFound(e.State(), e.gates, e.gate, x)
    ensures e.marked == [] && Marking(e.marks, {})
    ensures e.gates == [] && !e.unsat && !Assigned(e.units, x) && e.units == old(e.units) ==>
              NoGate(e.State(), Occ(e.occs, x), x, xorlim)
  {
    hide DbOk, OccsOk, Same, GatesFound, Marking, NoEquivalence, NoAnd, NoItes, NotXorBase;
    ghost var before := e.State();
    SameRefl(before);
    NoGates(before, x);
    if e.unsat || e.Val(x) != 0 {
      return;
    }
    FindEquivalence(e, x);
    ghost var one := e.State();
    FindAndGate(e, x);
    ghost var two := e.State();
    SameTrans(before, one, two);
    GatesFoundOpposite(two, e.gates, e.gate, x);
    FindAndGate(e, -x);
    SameTrans(before, two, e.State());
    assert Opposite(-x) == x && Opposite(x) == -x;
    GatesFoundOpposite(e.State(), e.gates, e.gate, -x);
    FindIfThenElse(e, x);
    FindXorGate(e, x, xorlim);
    if e.gates == [] && !e.unsat && !Assigned(e.units, x) && e.units == before.units {
      ghost var last := e.State();
      StillUnits(before, one, two, last);
      NothingAppears(one, two, x);
      NothingAppears(two, last, x);
    }
  }

  lemma StillUnits(a: Db, b: Db, c: Db, d: Db)
    requires Same(a, b) && Same(b, c) && Same(c, d) && a.units == d.units && !d.unsat
    ensures b.units == a.units && c.units == a.units && !b.unsat && !c.unsat
  {
  }
}
