/** The irredundant clauses and the root-level units that bounded variable elimination works on
    (cadical/src/elim.cpp), and the relation between two of its states that each operation keeps. */
module Database {
  import opened Logic
  import opened Extension
  import opened Reconstruction

  /** Clauses are named by their index; removing one only sets its garbage flag. */
  datatype Db = Db(clauses: seq<Clause>, garbage: set<nat>, units: set<int>, unsat: bool)

  predicate Live(db: Db, i: int)
  {
    0 <= i < |db.clauses| && i !in db.garbage
  }

  predicate Assigned(units: set<int>, l: int)
  {
    l in units || Opposite(l) in units
  }

  predicate Satisfied(c: Clause, units: set<int>)
  {
    exists l :: l in c && l in units
  }

  /** The literals without root-level value. */
  function Actual(c: Clause, units: set<int>): set<int>
  {
    set l | l in c && !Assigned(units, l)
  }

  predicate Mentions(c: Clause, x: int)
  {
    x in c || Opposite(x) in c
  }

  predicate ClauseOk(c: Clause)
  {
    ProperClause(c) && Distinct(c) && forall l {:trigger Opposite(l) in c} :: l in c ==> !(Opposite(l) in c)
  }

  predicate UnitsOk(units: set<int>)
  {
    0 !in units && forall l {:trigger Opposite(l) in units} :: l in units ==> !(Opposite(l) in units)
  }

  predicate DbOk(db: Db)
  {
    && UnitsOk(db.units) && (forall i :: 0 <= i < |db.clauses| ==> ClauseOk(db.clauses[i]))
    && forall i :: i in db.garbage ==> i < |db.clauses|
  }

  lemma GarbageOk(db: Db, i: nat)
    requires DbOk(db) && i < |db.clauses|
    ensures DbOk(db.(garbage := db.garbage + {i}))
  {
  }

  // ----- Meaning -------------------------------------------------------------------------------------

  ghost predicate Agrees(s: Assignment, units: set<int>)
  {
    forall u :: u in units ==> LitTrue(s, u)
  }

  ghost predicate Models(s: Assignment, db: Db)
  {
    !db.unsat && Agrees(s, db.units) && forall i :: Live(db, i) ==> ClauseTrue(s, db.clauses[i])
  }

  /** A model of everything but the clauses on the variable of x. */
  ghost predicate Rest(s: Assignment, db: Db, x: int)
  {
    && !db.unsat && Agrees(s, db.units)
    && forall i :: Live(db, i) && !Mentions(db.clauses[i], x) ==> ClauseTrue(s, db.clauses[i])
  }

  /** True through a literal on another variable than that of x. */
  ghost predicate TrueAway(s: Assignment, c: Clause, x: int)
  {
    exists l :: l in c && l != x && l != Opposite(x) && LitTrue(s, l)
  }

  /** The database as a formula: live clauses, units, and the empty clause once it was derived. */
  function Contents(db: Db): Formula
  {
    (set i | 0 <= i < |db.clauses| && i !in db.garbage :: db.clauses[i]) + (set u | u in db.units :: [u]) +
    if db.unsat then {[]} else {}
  }

  lemma ContentsModels(s: Assignment, db: Db)
    ensures Sat(s, Contents(db)) <==> Models(s, db)
  {
    var f := Contents(db);
    if Sat(s, f) {
      assert db.unsat ==> [] in f;
      assert !ClauseTrue(s, []);
      forall u | u in db.units ensures LitTrue(s, u) { assert [u] in f; assert ClauseTrue(s, [u]); }
      forall i | Live(db, i) ensures ClauseTrue(s, db.clauses[i]) { assert db.clauses[i] in f; }
    }
    if Models(s, db) {
      forall c | c in f ensures ClauseTrue(s, c) {
        if u :| u in db.units && c == [u] {
          assert u in [u];
        } else {
          var i :| 0 <= i < |db.clauses| && i !in db.garbage && db.clauses[i] == c;
          assert Live(db, i);
        }
      }
    }
  }

  // ----- Removing one clause -------------------------------------------------------------------------

  lemma AfterRemoval(db: Db, i: nat)
    requires Live(db, i)
    ensures var before, after := Contents(db), Contents(db.(garbage := db.garbage + {i}));
            before - {db.clauses[i]} <= after <= before
  {
    var c, before, after := db.clauses[i], Contents(db), Contents(db.(garbage := db.garbage + {i}));
    forall d | d in before - {c} ensures d in after {
      if k :| 0 <= k < |db.clauses| && k !in db.garbage && db.clauses[k] == d {
        assert k != i && k !in db.garbage + {i};
      }
    }
  }

  /** If removing a clause from the formula is sound, so is removing it at one position, also if it occurs again. */
  lemma RemovalHere(db: Db, i: nat, cube: seq<int>, high: int, low: int)
    requires Live(db, i)
    requires Sound(Contents(db), Contents(db) - {db.clauses[i]}, [Entry(cube, high, low, db.clauses[i])])
    ensures Sound(Contents(db), Contents(db.(garbage := db.garbage + {i})), [Entry(cube, high, low, db.clauses[i])])
  {
    var c, before, after := db.clauses[i], Contents(db), Contents(db.(garbage := db.garbage + {i}));
    AfterRemoval(db, i);
    if c in after {
      assert after == before by { assert before <= after; }
      forall s | Sat(s, before) ensures Sat(RepairAll(s, [Entry(cube, high, low, c)]), before) {
        OneEntry(s, Entry(cube, high, low, c));
        assert c in before;
        assert ClauseTrue(s, c);
      }
    } else {
      assert after == before - {c};
    }
  }

  // ----- Satisfied clauses ---------------------------------------------------------------------------

  /** No live clause has a literal that is true at the root. */
  ghost predicate Clean(db: Db)
  {
    forall i :: Live(db, i) ==> !Satisfied(db.clauses[i], db.units)
  }

  /** No live clause on the variable of x has a literal that is true at the root. */
  ghost predicate CleanOn(db: Db, x: int)
  {
    forall i :: Live(db, i) && Mentions(db.clauses[i], x) ==> !Satisfied(db.clauses[i], db.units)
  }

  /** Unless b is refuted, its live satisfied clauses were live and satisfied in a. */
  ghost predicate Tidy(a: Db, b: Db)
  {
    b.unsat || forall i :: Live(b, i) && Satisfied(b.clauses[i], b.units) ==> Live(a, i) && Satisfied(a.clauses[i], a.units)
  }

  lemma TidyRefl(a: Db)
    ensures Tidy(a, a)
  {
  }

  lemma TidyTrans(a: Db, b: Db, c: Db)
    requires Tidy(a, b) && Tidy(b, c) && (b.unsat ==> c.unsat)
    ensures Tidy(a, c)
  {
  }

  /** Removing clauses, and adding some without any root-level literal. */
  lemma TidyAdded(a: Db, more: seq<Clause>, gone: set<nat>)
    requires forall i, l :: 0 <= i < |more| && l in more[i] ==> !Assigned(a.units, l)
    ensures Tidy(a, a.(clauses := a.clauses + more, garbage := a.garbage + gone))
  {
    var b := a.(clauses := a.clauses + more, garbage := a.garbage + gone);
    forall i | |a.clauses| <= i < |b.clauses| ensures !Satisfied(b.clauses[i], b.units) {
      var k := i - |a.clauses|;
      assert b.clauses[i] == more[k];
      forall l | l in b.clauses[i] ensures l !in b.units { assert l in more[k] && !Assigned(a.units, l); }
    }
  }

  // ----- Steps that keep the models ------------------------------------------------------------------

  /** From a to b clauses are only added and marked as garbage and units only added, the models stay, no added clause
      is on the variable of x, and as long as that variable has no value, every model of the rest of b makes the
      clauses that became garbage true without it. */
  ghost predicate Evolves(a: Db, b: Db, x: int)
  {
    && a.clauses <= b.clauses && a.garbage <= b.garbage && a.units <= b.units && (a.unsat ==> b.unsat)
    && (forall i :: |a.clauses| <= i < |b.clauses| ==> !Mentions(b.clauses[i], x))
    && (forall s :: Models(s, a) <==> Models(s, b))
    && (!Assigned(b.units, x) ==> Covered(a, b, x))
  }

  ghost predicate Covered(a: Db, b: Db, x: int)
    requires a.clauses <= b.clauses
  {
    forall s, i :: Rest(s, b, x) && Live(a, i) && i in b.garbage ==> TrueAway(s, a.clauses[i], x)
  }

  lemma EvolvesRefl(a: Db, x: int)
    ensures Evolves(a, a, x)
  {
  }

  /** A model of the rest of a later state is a model of the rest of an earlier one. */
  lemma RestBack(s: Assignment, a: Db, b: Db, x: int)
    requires Evolves(a, b, x) && !Assigned(b.units, x) && Rest(s, b, x)
    ensures Rest(s, a, x)
  {
    forall i | Live(a, i) && !Mentions(a.clauses[i], x)
      ensures ClauseTrue(s, a.clauses[i])
    {
      if i in b.garbage {
        assert TrueAway(s, a.clauses[i], x);
      } else {
        assert Live(b, i) && b.clauses[i] == a.clauses[i];
      }
    }
  }

  lemma EvolvesTrans(a: Db, b: Db, c: Db, x: int)
    requires Evolves(a, b, x) && Evolves(b, c, x)
    ensures Evolves(a, c, x)
  {
    assert b.clauses <= c.clauses;
    if !Assigned(c.units, x) {
      forall s, i | Rest(s, c, x) && Live(a, i) && i in c.garbage
        ensures TrueAway(s, a.clauses[i], x)
      {
        RestBack(s, b, c, x);
        if i !in b.garbage {
          assert Live(b, i) && b.clauses[i] == a.clauses[i];
        }
      }
    }
    forall i | |a.clauses| <= i < |c.clauses|
      ensures !Mentions(c.clauses[i], x)
    {
      if i < |b.clauses| { assert c.clauses[i] == b.clauses[i]; }
    }
  }

  // ----- Units ---------------------------------------------------------------------------------------

  /** From a to b only implied units were added, and only clauses satisfied by units became garbage. */
  ghost predicate Propagated(a: Db, b: Db)
  {
    && a.clauses == b.clauses && a.garbage <= b.garbage && a.units <= b.units && (a.unsat ==> b.unsat)
    && (forall i :: Live(a, i) && i in b.garbage ==> Satisfied(a.clauses[i], b.units))
    && (forall s :: Models(s, a) ==> !b.unsat && Agrees(s, b.units))
  }

  lemma SatisfiedTrue(s: Assignment, c: Clause, units: set<int>)
    requires Satisfied(c, units) && Agrees(s, units)
    ensures ClauseTrue(s, c)
    ensures forall x :: !Assigned(units, x) ==> TrueAway(s, c, x)
  {
    var l :| l in c && l in units;
    assert LitTrue(s, l);
    forall x | !Assigned(units, x)
      ensures TrueAway(s, c, x)
    {
      assert l != x && l != Opposite(x);
    }
  }

  lemma PropagatedModels(s: Assignment, a: Db, b: Db)
    requires Propagated(a, b)
    ensures Models(s, a) <==> Models(s, b)
  {
    if Models(s, b) {
      forall i | Live(a, i)
        ensures ClauseTrue(s, a.clauses[i])
      {
        if i in b.garbage {
          SatisfiedTrue(s, a.clauses[i], b.units);
        } else {
          assert Live(b, i);
        }
      }
    }
    if Models(s, a) {
      forall i | Live(b, i) ensures ClauseTrue(s, b.clauses[i]) { assert Live(a, i); }
    }
  }

  lemma PropagatedEvolves(a: Db, b: Db, x: int)
    requires Propagated(a, b)
    ensures Evolves(a, b, x)
  {
    forall s ensures Models(s, a) <==> Models(s, b) { PropagatedModels(s, a, b); }
    if !Assigned(b.units, x) {
      forall s, i | Rest(s, b, x) && Live(a, i) && i in b.garbage
        ensures TrueAway(s, a.clauses[i], x)
      {
        SatisfiedTrue(s, a.clauses[i], b.units);
      }
    }
  }

  lemma PropagatedTrans(a: Db, b: Db, c: Db)
    requires Propagated(a, b) && Propagated(b, c)
    ensures Propagated(a, c)
  {
    forall i | Live(a, i) && i in c.garbage
      ensures Satisfied(a.clauses[i], c.units)
    {
      if i in b.garbage {
        var l :| l in a.clauses[i] && l in b.units;
        assert l in c.units;
      } else {
        assert Live(b, i);
      }
    }
    forall s | Models(s, a) ensures !c.unsat && Agrees(s, c.units) { PropagatedModels(s, a, b); }
  }

  /** Adding a unit that all models satisfy. */
  lemma UnitImplied(a: Db, u: int)
    requires forall s :: Models(s, a) ==> LitTrue(s, u)
    ensures Propagated(a, a.(units := a.units + {u}))
  {
  }

  lemma EmptyImplied(a: Db)
    requires forall s :: !Models(s, a)
    ensures Propagated(a, a.(unsat := true))
  {
  }

  lemma SatisfiedRemoved(a: Db, i: nat)
    requires i < |a.clauses| && Satisfied(a.clauses[i], a.units)
    ensures Propagated(a, a.(garbage := a.garbage + {i}))
  {
  }

  lemma TrueNotFalsified(s: Assignment, units: set<int>, l: int)
    requires Agrees(s, units) && l != 0 && LitTrue(s, l)
    ensures Opposite(l) !in units
  {
    LitNegation(s, l);
    assert Opposite(l) in units ==> LitTrue(s, Opposite(l));
  }

  /** A live clause without true literal and with at most the given literal unassigned makes that literal true. */
  lemma UnitForced(s: Assignment, c: Clause, units: set<int>, u: int)
    requires ClauseTrue(s, c) && Agrees(s, units) && ProperClause(c) && !Satisfied(c, units) && Actual(c, units) <= {u}
    ensures LitTrue(s, u)
  {
    var l :| l in c && LitTrue(s, l);
    TrueNotFalsified(s, units, l);
    assert l in Actual(c, units);
  }

  /** Under the units only the unassigned literals of an unsatisfied clause matter. */
  lemma TrueActual(s: Assignment, c: Clause, units: set<int>, x: int)
    requires Agrees(s, units) && ProperClause(c) && !Satisfied(c, units)
    ensures TrueBut(s, c, x) <==> exists l :: l in Actual(c, units) && l != x && LitTrue(s, l)
  {
    if TrueBut(s, c, x) {
      var l :| l in c && l != x && LitTrue(s, l);
      TrueNotFalsified(s, units, l);
      assert l in Actual(c, units);
    }
  }

  // ----- Replacing clauses by a stronger one ---------------------------------------------------------

  /** Adding an implied clause not on the variable, and removing clauses that it makes true. */
  lemma ReplacedEvolves(a: Db, r: Clause, gone: set<nat>, x: int)
    requires DbOk(a) && !Mentions(r, x) && forall s :: Models(s, a) ==> ClauseTrue(s, r)
    requires forall i :: i in gone ==> i < |a.clauses|
    requires forall s, i :: Agrees(s, a.units) && ClauseTrue(s, r) && i in gone ==> TrueAway(s, a.clauses[i], x)
    ensures Evolves(a, a.(clauses := a.clauses + [r], garbage := a.garbage + gone), x)
  {
    var b := a.(clauses := a.clauses + [r], garbage := a.garbage + gone);
    var n := |a.clauses|;
    assert b.clauses[n] == r && Live(b, n);
    forall s | Models(s, a)
      ensures Models(s, b)
    {
      forall i | Live(b, i) ensures ClauseTrue(s, b.clauses[i]) {
        if i < n { assert Live(a, i); }
      }
    }
    forall s | Models(s, b)
      ensures Models(s, a)
    {
      assert ClauseTrue(s, r);
      forall i | Live(a, i) ensures ClauseTrue(s, a.clauses[i]) {
        if i in gone {
          assert TrueAway(s, a.clauses[i], x);
        } else {
          assert Live(b, i) && b.clauses[i] == a.clauses[i];
        }
      }
    }
    forall s, i | Rest(s, b, x) && Live(a, i) && i in b.garbage
      ensures TrueAway(s, a.clauses[i], x)
    {
      assert ClauseTrue(s, r);
    }
  }
}
