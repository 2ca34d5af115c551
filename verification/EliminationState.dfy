/** The state that bounded variable elimination changes, and unit propagation over full occurrence lists
    (cadical/src/elim.cpp). */
module EliminationState {
  import opened Logic
  import opened Extension
  import opened Reconstruction
  import opened Database

  type Occs = map<int, seq<nat>>

  function Occ(occs: Occs, l: int): seq<nat>
  {
    if l in occs then occs[l] else []
  }

  predicate ListOk(clauses: seq<Clause>, os: seq<nat>, l: int)
  {
    && (forall k :: 0 <= k < |os| ==> os[k] < |clauses| && l in clauses[os[k]])
    && forall i, j :: 0 <= i < j < |os| ==> os[i] != os[j]
  }

  /** Occurrence lists name clauses with the literal, none twice, and all live ones as long as it has no value. */
  ghost predicate OccsOk(db: Db, occs: Occs)
  {
    (forall l :: ListOk(db.clauses, Occ(occs, l), l)) && Complete(db, occs)
  }

  ghost predicate Complete(db: Db, occs: Occs)
  {
    forall i, l :: Live(db, i) && l in db.clauses[i] && !Assigned(db.units, l) ==> i in Occ(occs, l)
  }

  lemma OneList(db: Db, occs: Occs, l: int)
    requires OccsOk(db, occs)
    ensures ListOk(db.clauses, Occ(occs, l), l)
  {
  }

  /** Keeps the live clauses of a list, in order. */
  function Flushed(os: seq<nat>, garbage: set<nat>): (r: seq<nat>)
    ensures forall i :: i in r <==> i in os && i !in garbage
  {
    if os == [] then []
    else
      var last := os[|os| - 1];
      assert os == os[..|os| - 1] + [last];
      Flushed(os[..|os| - 1], garbage) + if last in garbage then [] else [last]
  }

  /** The sign with which the variable of l is marked, relative to l. */
  function MarkOf(marks: map<int, int>, l: int): int
  {
    var m := if Abs(l) in marks then marks[Abs(l)] else 0;
    if l < 0 then -m else m
  }

  /** Exactly the literals of the set are marked. */
  ghost predicate Marking(marks: map<int, int>, lits: set<int>)
  {
    forall l {:trigger MarkOf(marks, l)} ::
      l != 0 ==> MarkOf(marks, l) == if l in lits then 1 else if Opposite(l) in lits then -1 else 0
  }

  /** What scanning a clause for its unassigned literals finds. */
  datatype Scan = SatisfiedBy(lit: int) | Falsified | Unit(lit: int) | Several

  ghost function AllLits(clauses: seq<Clause>): set<int>
  {
    set i, l | 0 <= i < |clauses| && l in clauses[i] :: l
  }

  ghost function Open(db: Db): set<int>
  {
    set l | l in AllLits(db.clauses) && !Assigned(db.units, l)
  }

  class Eliminator {
    var clauses: seq<Clause>
    var garbage: set<nat>
    var units: set<int>
    var unsat: bool
    var occs: Occs
    var gate: set<nat>
    var gates: seq<nat>
    var marks: map<int, int>
    var marked: seq<int>
    const external: External

    ghost function State(): Db
      reads this
    {
      Db(clauses, garbage, units, unsat)
    }

    ghost predicate Valid()
      reads this
    {
      DbOk(State()) && OccsOk(State(), occs)
    }

    /** The root-level value of a literal. */
    function Val(l: int): int
      reads this
    {
      if l in units then 1 else if Opposite(l) in units then -1 else 0
    }

    constructor (cs: seq<Clause>, os: Occs, ext: External)
      requires DbOk(Db(cs, {}, {}, false)) && OccsOk(Db(cs, {}, {}, false), os)
      ensures Valid() && State() == Db(cs, {}, {}, false) && gates == [] && gate == {} && external == ext
      ensures marked == [] && Marking(marks, {})
    {
      clauses, garbage, units, unsat, occs, external := cs, {}, {}, false, os, ext;
      gate, gates, marks, marked := {}, [], map[], [];
    }

    /** Looks for a satisfying literal and counts the unassigned ones. */
    method ScanClause(c: Clause) returns (r: Scan)
      requires Distinct(c)
      ensures match r
              case SatisfiedBy(l) => l in c && l in units
              case Falsified => !Satisfied(c, units) && Actual(c, units) == {}
              case Unit(l) => !Satisfied(c, units) && Actual(c, units) == {l}
              case Several => !Satisfied(c, units) && TwoOpen(c, units)
    {
      r := Falsified;
      var k := 0;
      ghost var one := 0;
      ghost var two := 0;
      while k < |c|
        invariant 0 <= k <= |c| && !Satisfied(c[..k], units) && !r.SatisfiedBy?
        invariant r.Falsified? ==> Actual(c[..k], units) == {}
        invariant r.Unit? ==> Actual(c[..k], units) == {r.lit}
        invariant r.Several? ==> one in Actual(c[..k], units) && two in Actual(c[..k], units) && one != two
      {
        var other := c[k];
        assert c[..k + 1] == c[..k] + [other] && other !in c[..k];
        if Val(other) > 0 {
          return SatisfiedBy(other);
        }
        if Val(other) == 0 {
          if r.Unit? {
            one, two := r.lit, other;
          }
          r := if r.Falsified? then Unit(other) else Several;
        }
        k := k + 1;
      }
      assert c[..k] == c;
    }

    /** A clause with a literal that just became false: it is removed if satisfied, gives a unit, or is empty. */
    method VisitFalsified(i: nat) returns (work: seq<int>)
      requires Valid() && i < |clauses| && !unsat && i !in garbage
      modifies this`garbage, this`units, this`unsat
      ensures Valid() && Propagated(old(State()), State())
      ensures units == old(units) + Lits(work)
      ensures work == [] ==> Open(State()) == Open(old(State()))
      ensures work != [] ==> Open(State()) < Open(old(State()))
      ensures forall l :: l in work ==> !Assigned(old(units), l)
      ensures unsat || i in garbage || Settled(clauses[i], units, {}, work)
    {
      work := [];
      ghost var before := State();
      assert Lits([]) == {};
      DbClause(before, i);
      hide DbOk, OccsOk, Propagated, Satisfied, Actual, Open, Settled, TwoOpen;
      var r := ScanClause(clauses[i]);
      match r {
        case SatisfiedBy(l) =>
          SatisfiedStep(before, i, l, occs);
          garbage := garbage + {i};
        case Falsified =>
          EmptyStep(before, i, occs);
          unsat := true;
        case Unit(u) =>
          UnitStep(before, i, u, occs);
          UnitSettled(clauses[i], units, u);
          units := units + {u};
          work := [u];
          assert Lits([u]) == {u};
        case Several =>
          PropagatedRefl(before);
          OpenSettled(clauses[i], units, {}, []);
      }
    }

    /** Adds an irredundant clause and connects it. */
    method NewClause(r: Clause)
      requires Valid() && ClauseOk(r) && r != []
      modifies this`clauses, this`occs
      ensures Valid() && clauses == old(clauses) + [r]
      ensures forall l :: l !in r ==> Occ(occs, l) == Occ(old(occs), l)
    {
      hide OccsOk, DbOk;
      var n := |clauses|;
      ghost var was := occs;
      clauses := clauses + [r];
      var k := 0;
      while k < |r|
        invariant 0 <= k <= |r|
        invariant Appended(was, occs, r[..k], n) && clauses == old(clauses) + [r]
      {
        hide Appended;
        assert r[..k + 1] == r[..k] + [r[k]] && r[k] !in r[..k];
        AppendedStep(was, occs, r[..k], n, r[k]);
        occs := occs[r[k] := Occ(occs, r[k]) + [n]];
        k := k + 1;
      }
      assert r[..k] == r;
      Connected(old(State()), r, was, occs);
      assert forall l :: l !in r ==> Occ(occs, l) == Occ(was, l);
    }

    /** Visits all clauses with a literal that became false. */
    method VisitAllFalsified(l: int) returns (work: seq<int>)
      requires Valid() && !unsat
      modifies this`garbage, this`units, this`unsat
      ensures Valid() && Propagated(old(State()), State()) && units == old(units) + Lits(work)
      ensures Open(State()) <= Open(old(State()))
      ensures work != [] ==> Open(State()) < Open(old(State()))
      ensures forall m :: m in work ==> !Assigned(old(units), m)
      ensures unsat || AllSettled(State(), Occ(occs, l), {}, work)
    {
      work := [];
      hide DbOk, OccsOk, Propagated, Open, Lits, Settled;
      ghost var before := State();
      PropagatedRefl(before);
      var ns := Occ(occs, l);
      ListOf(before, occs, l);
      NoLits();
      var k := 0;
      while k < |ns| && !unsat
        invariant 0 <= k <= |ns| && Valid() && Propagated(before, State()) && units == before.units + Lits(work)
        invariant Open(State()) <= Open(before)
        invariant work != [] ==> Open(State()) < Open(before)
        invariant occs == old(occs) && clauses == old(clauses)
        invariant forall m :: m in work ==> !Assigned(old(units), m)
        invariant unsat || AllSettled(State(), ns[..k], {}, work)
      {
        ghost var middle := State();
        assert ns[..k + 1] == ns[..k] + [ns[k]];
        if ns[k] !in garbage {
          var more := VisitFalsified(ns[k]);
          PropagatedGrows(before, middle);
          PropagatedGrows(middle, State());
          LitsConcat(work, more);
          if !unsat { AllSettledMore(middle, State(), ns[..k], ns[k], {}, work, more); }
          work := work + more;
          PropagatedTrans(before, middle, State());
        }
        k := k + 1;
      }
      if !unsat { assert ns[..k] == ns; }
    }

    /** Removes all clauses with a true literal. */
    method RemoveSatisfied(l: int)
      requires Valid() && l in units
      modifies this`garbage
      ensures Valid() && Propagated(old(State()), State()) && Open(State()) == Open(old(State()))
      ensures forall k :: 0 <= k < |Occ(occs, l)| ==> Occ(occs, l)[k] in garbage
    {
      hide DbOk, OccsOk, Propagated, Open;
      ghost var before := State();
      PropagatedRefl(before);
      var ps := Occ(occs, l);
      ListOf(before, occs, l);
      var k := 0;
      while k < |ps|
        invariant 0 <= k <= |ps| && Valid() && Propagated(before, State()) && Open(State()) == Open(before)
        invariant forall m :: 0 <= m < k ==> ps[m] in garbage
      {
        if ps[k] !in garbage {
          SatisfiedStep(State(), ps[k], l, occs);
          PropagatedTrans(before, State(), State().(garbage := garbage + {ps[k]}));
          garbage := garbage + {ps[k]};
        }
        k := k + 1;
      }
    }

    /** Propagates a unit just assigned over the occurrence lists. Unless the empty clause is found, no clause stays
        that one of the new units satisfies, and every clause with a literal that became false has two literals without
        value. */
    method ElimPropagate(root: int, ghost was: Db)
      requires Valid() && !unsat && OccsOk(was, occs) && root != 0 && !Assigned(was.units, root)
      requires State() == was.(units := was.units + {root})
      modifies this`garbage, this`units, this`unsat
      ensures Valid() && Propagated(old(State()), State()) && (unsat || Pending(State(), was.units, []))
      ensures unsat || Exhausted(State(), was.units, [])
    {
      hide DbOk, Propagated, Open, Pending, OccsOk, Lits, Exhausted;
      ExhaustedRoot(was, root);
      ghost var before := State();
      PropagatedRefl(before);
      PendingRoot(was, root);
      var work, i := [root], 0;
      assert work[0..] == [root];
      while i < |work| && !unsat
        invariant 0 <= i <= |work| && Valid() && Propagated(before, State()) && forall l :: l in work ==> l in units
        invariant occs == old(occs) && clauses == old(clauses) && was.garbage <= garbage && was.units <= units
        invariant unsat || (Pending(State(), was.units, work[i..]) && Exhausted(State(), was.units, work[i..]))
        invariant forall l :: l in work ==> !Assigned(was.units, l)
        decreases Open(State()), |work| - i
      {
        assert work[i..] == [work[i]] + work[i + 1..];
        var more := PropagateLiteral(work[i], was, work[i + 1..], before);
        i := i + 1;
        assert (work + more)[i..] == work[i..] + more;
        work := work + more;
      }
      assert i == |work| ==> work[i..] == [];
    }

    /** Propagates one literal of the work list. */
    method PropagateLiteral(lit: int, ghost was: Db, ghost rest: seq<int>, ghost before: Db) returns (more: seq<int>)
      requires Valid() && !unsat && OccsOk(was, occs) && lit in units && Propagated(before, State())
      requires clauses == was.clauses && was.garbage <= garbage && was.units <= units
      requires Pending(State(), was.units, [lit] + rest) && Exhausted(State(), was.units, [lit] + rest)
      requires !Assigned(was.units, lit)
      modifies this`garbage, this`units, this`unsat
      ensures Valid() && Propagated(before, State()) && was.garbage <= garbage && was.units <= units && old(units) <= units
      ensures forall l :: l in more ==> l in units
      ensures unsat || (Pending(State(), was.units, rest + more) && Exhausted(State(), was.units, rest + more))
      ensures forall l :: l in more ==> !Assigned(was.units, l)
      ensures Open(State()) <= Open(old(State())) && (more != [] ==> Open(State()) < Open(old(State())))
    {
      hide DbOk, Propagated, Open, Pending, OccsOk, Exhausted, AllSettled;
      ghost var start := State();
      more := VisitAllFalsified(-lit);
      ghost var middle := State();
      PropagatedTrans(before, start, middle);
      PropagatedGrows(start, middle);
      UnitsFromDb(middle);
      assert forall l :: l in more ==> l in Lits(more);
      if !unsat {
        PendingMore(start, middle, was.units, [lit] + rest, more);
        RemoveSatisfied(lit);
        PropagatedTrans(before, middle, State());
        PropagatedGrows(middle, State());
        assert [lit] + rest + more == [lit] + (rest + more);
        PendingDone(was, middle, State(), lit, rest + more, occs);
        ExhaustedMore(start, middle, was.units, [lit] + rest, more);
        ExhaustedDone(was, middle, State(), lit, rest, more, occs);
      }
    }
  }

  lemma ListOf(db: Db, occs: Occs, l: int)
    requires OccsOk(db, occs)
    ensures ListOk(db.clauses, Occ(occs, l), l)
  {
  }

  lemma NoLits()
    ensures Lits([]) == {}
  {
  }

  lemma LitsConcat(a: seq<int>, b: seq<int>)
    ensures Lits(a + b) == Lits(a) + Lits(b)
  {
  }

  lemma PropagatedGrows(a: Db, b: Db)
    requires Propagated(a, b)
    ensures a.clauses == b.clauses && a.garbage <= b.garbage && a.units <= b.units
  {
  }

  lemma UnitsFromDb(db: Db)
    requires DbOk(db)
    ensures UnitsOk(db.units)
  {
  }

  lemma SatisfiedStep(a: Db, i: nat, l: int, occs: Occs)
    requires DbOk(a) && OccsOk(a, occs) && i < |a.clauses| && l in a.clauses[i] && l in a.units
    ensures var b := a.(garbage := a.garbage + {i});
            DbOk(b) && OccsOk(b, occs) && Propagated(a, b) && Open(b) == Open(a)
  {
    SatisfiedRemoved(a, i);
    RemovedKept(a, i, occs);
  }

  lemma EmptyStep(a: Db, i: nat, occs: Occs)
    requires DbOk(a) && OccsOk(a, occs) && Live(a, i) && !Satisfied(a.clauses[i], a.units) && Actual(a.clauses[i], a.units) == {}
    ensures var b := a.(unsat := true); DbOk(b) && OccsOk(b, occs) && Propagated(a, b) && Open(b) == Open(a)
  {
    ClauseForces(a, i, 1);
    ClauseForces(a, i, -1);
    forall s ensures !Models(s, a) { LitNegation(s, 1); }
    EmptyImplied(a);
    OccsKept(a, a.(unsat := true), occs);
  }

  lemma UnitStep(a: Db, i: nat, u: int, occs: Occs)
    requires DbOk(a) && OccsOk(a, occs) && Live(a, i) && !Satisfied(a.clauses[i], a.units) && Actual(a.clauses[i], a.units) == {u}
    ensures var b := a.(units := a.units + {u}); DbOk(b) && OccsOk(b, occs) && Propagated(a, b) && Open(b) < Open(a)
  {
    assert u in Actual(a.clauses[i], a.units);
    DbClause(a, i);
    ClauseForces(a, i, u);
    UnitImplied(a, u);
    UnitsGrow(a, u);
    UnitAdded(a.units, u);
    OccsKept(a, a.(units := a.units + {u}), occs);
  }

  lemma UnitAdded(units: set<int>, u: int)
    requires UnitsOk(units) && u != 0 && !Assigned(units, u)
    ensures UnitsOk(units + {u})
  {
    forall l | l in units + {u} ensures !(Opposite(l) in units + {u}) { assert Opposite(Opposite(l)) == l; }
  }

  lemma PendingRoot(was: Db, root: int)
    ensures Pending(was.(units := was.units + {root}), was.units, [root])
  {
  }

  /** Every unit that occurs in a live clause is old or still to be propagated. */
  ghost predicate Pending(db: Db, was: set<int>, todo: seq<int>)
  {
    forall i, l :: Live(db, i) && l in db.clauses[i] && l in db.units ==> l in was || l in todo
  }

  lemma PendingMore(a: Db, b: Db, was: set<int>, todo: seq<int>, more: seq<int>)
    requires Pending(a, was, todo) && Propagated(a, b) && b.units == a.units + Lits(more)
    ensures Pending(b, was, todo + more)
  {
    forall i, l | Live(b, i) && l in b.clauses[i] && l in b.units
      ensures l in was || l in todo + more
    {
      assert Live(a, i);
    }
  }

  /** With all clauses in its list removed, no live clause has the literal. */
  lemma PendingDone(was: Db, a: Db, b: Db, lit: int, todo: seq<int>, occs: Occs)
    requires OccsOk(was, occs) && was.clauses == a.clauses && was.garbage <= a.garbage && was.units <= a.units
    requires Pending(a, was.units, [lit] + todo) && Propagated(a, b) && a.units == b.units && UnitsOk(a.units) && lit in a.units
    requires forall k :: 0 <= k < |Occ(occs, lit)| ==> Occ(occs, lit)[k] in b.garbage
    ensures Pending(b, was.units, todo)
  {
    forall i, l | Live(b, i) && l in b.clauses[i] && l in b.units
      ensures l in was.units || l in todo
    {
      assert Live(a, i) && Live(was, i);
      assert !(Opposite(lit) in a.units);
      assert lit in was.clauses[i] && lit !in was.units ==> i in Occ(occs, lit);
    }
  }

  /** Two literals of the clause have no value. */
  ghost predicate TwoOpen(c: Clause, units: set<int>)
  {
    exists l, m :: l in c && m in c && l != m && !Assigned(units, l) && !Assigned(units, m)
  }

  /** A literal of the clause is still to be propagated, or none became false since was, or two are open. */
  ghost predicate Settled(c: Clause, units: set<int>, was: set<int>, todo: seq<int>)
  {
    || (exists l :: l in c && (l in todo || Opposite(l) in todo))
    || (forall l :: l in c && Opposite(l) in units ==> Opposite(l) in was)
    || TwoOpen(c, units)
  }

  ghost predicate Exhausted(db: Db, was: set<int>, todo: seq<int>)
  {
    forall i :: Live(db, i) ==> Settled(db.clauses[i], db.units, was, todo)
  }

  ghost predicate AllSettled(db: Db, os: seq<nat>, was: set<int>, todo: seq<int>)
  {
    forall k :: k in os && Live(db, k) ==> Settled(db.clauses[k], db.units, was, todo)
  }

  lemma UnitSettled(c: Clause, units: set<int>, u: int)
    requires Actual(c, units) == {u}
    ensures Settled(c, units + {u}, {}, [u]) && !Assigned(units, u)
  {
    assert u in Actual(c, units) && u in [u];
  }

  lemma OpenSettled(c: Clause, units: set<int>, was: set<int>, todo: seq<int>)
    requires TwoOpen(c, units)
    ensures Settled(c, units, was, todo)
  {
  }

  /** New units are to be propagated themselves. */
  lemma SettledMore(c: Clause, units: set<int>, was: set<int>, todo: seq<int>, more: seq<int>)
    requires Settled(c, units, was, todo)
    ensures Settled(c, units + Lits(more), was, todo + more)
  {
    if l :| l in c && (l in more || Opposite(l) in more) {
      assert l in todo + more || Opposite(l) in todo + more;
    } else if l :| l in c && (l in todo || Opposite(l) in todo) {
      assert l in todo + more || Opposite(l) in todo + more;
    } else if TwoOpen(c, units) {
      var l, m :| l in c && m in c && l != m && !Assigned(units, l) && !Assigned(units, m);
      assert !Assigned(units + Lits(more), l) && !Assigned(units + Lits(more), m);
    }
  }

  lemma SettledWider(c: Clause, units: set<int>, was: set<int>, more: seq<int>, todo: seq<int>)
    requires Settled(c, units, {}, more) && forall l :: l in more ==> l in todo
    ensures Settled(c, units, was, todo)
  {
  }

  lemma AllSettledMore(a: Db, b: Db, os: seq<nat>, i: nat, was: set<int>, todo: seq<int>, more: seq<int>)
    requires AllSettled(a, os, was, todo) && a.clauses == b.clauses && a.garbage <= b.garbage && b.units == a.units + Lits(more)
    requires i in b.garbage || (i < |b.clauses| && Settled(b.clauses[i], b.units, {}, more))
    ensures AllSettled(b, os + [i], was, todo + more)
  {
    forall k | k in os + [i] && Live(b, k)
      ensures Settled(b.clauses[k], b.units, was, todo + more)
    {
      if k in os {
        assert Live(a, k);
        SettledMore(b.clauses[k], a.units, was, todo, more);
      } else {
        SettledWider(b.clauses[k], b.units, was, more, todo + more);
      }
    }
  }

  lemma ExhaustedRoot(was: Db, root: int)
    ensures Exhausted(was.(units := was.units + {root}), was.units, [root])
  {
    assert root in [root];
  }

  lemma ExhaustedMore(a: Db, b: Db, was: set<int>, todo: seq<int>, more: seq<int>)
    requires Exhausted(a, was, todo) && Propagated(a, b) && b.units == a.units + Lits(more)
    ensures Exhausted(b, was, todo + more)
  {
    forall i | Live(b, i)
      ensures Settled(b.clauses[i], b.units, was, todo + more)
    {
      assert Live(a, i);
      SettledMore(a.clauses[i], a.units, was, todo, more);
    }
  }

  /** Once the lists of a literal and its negation were gone through, the literal need not be propagated any more. */
  lemma ExhaustedDone(was: Db, a: Db, b: Db, lit: int, rest: seq<int>, more: seq<int>, occs: Occs)
    requires OccsOk(was, occs) && was.clauses == a.clauses && was.garbage <= a.garbage && !Assigned(was.units, lit) && lit != 0
    requires Exhausted(a, was.units, [lit] + rest + more) && AllSettled(a, Occ(occs, -lit), {}, more)
    requires Propagated(a, b) && a.units == b.units
    requires forall k :: 0 <= k < |Occ(occs, lit)| ==> Occ(occs, lit)[k] in b.garbage
    ensures Exhausted(b, was.units, rest + more)
  {
    forall i | Live(b, i)
      ensures Settled(b.clauses[i], b.units, was.units, rest + more)
    {
      assert Live(a, i) && Live(was, i) && Settled(a.clauses[i], a.units, was.units, [lit] + rest + more);
      var c := a.clauses[i];
      assert lit in c ==> i in Occ(occs, lit);
      assert lit !in c;
      if -lit in c {
        assert !Assigned(was.units, -lit) && i in Occ(occs, -lit);
        SettledWider(c, a.units, was.units, more, rest + more);
      } else {
        SettledLess(c, a.units, was.units, lit, rest + more);
      }
    }
  }

  lemma SettledLess(c: Clause, units: set<int>, was: set<int>, lit: int, todo: seq<int>)
    requires Settled(c, units, was, [lit] + todo) && lit !in c && -lit !in c
    ensures Settled(c, units, was, todo)
  {
    if l :| l in c && (l in [lit] + todo || Opposite(l) in [lit] + todo) {
      assert Opposite(l) == -l;
      assert l in todo || Opposite(l) in todo;
    }
  }

  lemma PropagatedRefl(a: Db)
    ensures Propagated(a, a)
  {
  }

  /** A live clause whose only unassigned literal is u is true in a model only if u is. */
  lemma ClauseForces(db: Db, i: nat, u: int)
    requires DbOk(db) && Live(db, i) && !Satisfied(db.clauses[i], db.units) && Actual(db.clauses[i], db.units) <= {u}
    ensures forall s :: Models(s, db) ==> LitTrue(s, u)
  {
    assert ClauseOk(db.clauses[i]);
    forall s | Models(s, db)
      ensures LitTrue(s, u)
    {
      UnitForced(s, db.clauses[i], db.units, u);
    }
  }

  /** Occurrence lists stay right while clauses become garbage and literals get values. */
  lemma OccsKept(a: Db, b: Db, occs: Occs)
    requires OccsOk(a, occs) && a.clauses == b.clauses && a.garbage <= b.garbage && a.units <= b.units
    ensures OccsOk(b, occs)
  {
    forall i, l | Live(b, i) && l in b.clauses[i] && !Assigned(b.units, l)
      ensures i in Occ(occs, l)
    {
      assert Live(a, i) && !Assigned(a.units, l);
    }
  }

  lemma RemovedKept(a: Db, i: nat, occs: Occs)
    requires DbOk(a) && OccsOk(a, occs) && i < |a.clauses|
    ensures DbOk(a.(garbage := a.garbage + {i})) && OccsOk(a.(garbage := a.garbage + {i}), occs)
  {
    OccsKept(a, a.(garbage := a.garbage + {i}), occs);
  }

  lemma DbClause(db: Db, i: nat)
    requires DbOk(db) && i < |db.clauses|
    ensures ClauseOk(db.clauses[i])
  {
  }

  lemma UnitsGrow(a: Db, u: int)
    requires u in Open(a)
    ensures Open(a.(units := a.units + {u})) < Open(a)
  {
    var b := a.(units := a.units + {u});
    assert u !in Open(b);
  }

  /** Index n was appended to the lists of the literals of r. */
  ghost predicate Appended(was: Occs, occs: Occs, r: seq<int>, n: nat)
  {
    forall l :: Occ(occs, l) == if l in r then Occ(was, l) + [n] else Occ(was, l)
  }

  lemma ConnectedOne(db: Db, r: Clause, was: Occs, occs: Occs, l: int)
    requires DbOk(db) && OccsOk(db, was) && ClauseOk(r) && Appended(was, occs, r, |db.clauses|)
    ensures ListOk(db.clauses + [r], Occ(occs, l), l)
  {
    hide DbOk, ClauseOk;
    var os := Occ(was, l);
    assert ListOk(db.clauses, os, l);
    hide OccsOk;
    assert Occ(occs, l) == if l in r then os + [|db.clauses|] else os;
    hide Appended;
  }

  lemma Connected(db: Db, r: Clause, was: Occs, occs: Occs)
    requires DbOk(db) && OccsOk(db, was) && ClauseOk(r) && Appended(was, occs, r, |db.clauses|)
    ensures DbOk(db.(clauses := db.clauses + [r])) && OccsOk(db.(clauses := db.clauses + [r]), occs)
  {
    var b := db.(clauses := db.clauses + [r]);
    var n := |db.clauses|;
    assert b.clauses[n] == r;
    assert DbOk(b);
    hide DbOk, ClauseOk, ListOk, Complete, Appended;
    forall l
      ensures ListOk(b.clauses, Occ(occs, l), l)
    {
      ConnectedOne(db, r, was, occs, l);
    }
    ConnectedComplete(db, r, was, occs);
  }

  lemma ConnectedComplete(db: Db, r: Clause, was: Occs, occs: Occs)
    requires OccsOk(db, was) && Appended(was, occs, r, |db.clauses|)
    ensures Complete(db.(clauses := db.clauses + [r]), occs)
  {
    var b := db.(clauses := db.clauses + [r]);
    hide Appended, OccsOk;
    forall i, l | Live(b, i) && l in b.clauses[i] && !Assigned(b.units, l)
      ensures i in Occ(occs, l)
    {
      ConnectedLive(db, r, was, occs, i, l);
    }
  }

  lemma ConnectedLive(db: Db, r: Clause, was: Occs, occs: Occs, i: nat, l: int)
    requires OccsOk(db, was) && Appended(was, occs, r, |db.clauses|) && i <= |db.clauses|
    requires i !in db.garbage && l in (db.clauses + [r])[i] && !Assigned(db.units, l)
    ensures i in Occ(occs, l)
  {
    assert Occ(occs, l) == if l in r then Occ(was, l) + [|db.clauses|] else Occ(was, l);
    hide Appended;
    if i < |db.clauses| {
      assert Live(db, i) && l in db.clauses[i];
      assert i in Occ(was, l);
    }
  }

  lemma AppendedStep(was: Occs, occs: Occs, r: seq<int>, n: nat, l: int)
    requires Appended(was, occs, r, n) && l !in r
    ensures Appended(was, occs[l := Occ(occs, l) + [n]], r + [l], n)
  {
    assert Occ(occs, l) == Occ(was, l);
  }
}
