/** Bounded variable elimination (cadical/src/elim.cpp): resolving, adding resolvents, and moving the clauses of the
    eliminated variable to the extension stack. */
module Elimination {
  import opened Logic
  import opened Extension
  import opened Reconstruction
  import opened Database
  import opened Gates
  import opened EliminationState

  // ----- Resolution ----------------------------------------------------------------------------------

  /** The result of resolving two clauses: one of them is satisfied, the resolvent is tautological, or its literals
      with the numbers of unassigned literals in both antecedents. */
  datatype Resolution =
    FirstSatisfied(lit: int) | SecondSatisfied(lit: int) | Clash(lit: int) | Resolvent(lits: seq<int>, s: nat, t: nat)

  /** Marks the unassigned literals of the first antecedent other than the pivot. */
  method MarkFirst(e: Eliminator, c: Clause, x: int) returns (satisfied: int, s: nat, lits: seq<int>)
    requires ClauseOk(c) && Marking(e.marks, {})
    modifies e`marks
    ensures Marking(e.marks, Lits(lits)) && Lits(lits) <= Lits(c)
    ensures satisfied != 0 ==> satisfied in c && satisfied != x && satisfied in e.units
    ensures satisfied == 0 ==> Lits(lits) == Actual(c, e.units) - {x} && Distinct(lits)
    ensures satisfied == 0 ==> forall l :: l in c && l in e.units ==> l == x
    ensures satisfied == 0 && x in c ==> s == |lits| + 1
  {
    satisfied, s, lits := 0, 0, [];
    assert Lits(lits) == {};
    var k := 0;
    while k < |c|
      invariant 0 <= k <= |c| && satisfied == 0
      invariant Lits(lits) == Actual(c[..k], e.units) - {x} && Distinct(lits) && Marking(e.marks, Lits(lits))
      invariant forall l :: l in c[..k] && l in e.units ==> l == x
      invariant s == |lits| + if x in c[..k] then 1 else 0
    {
      var lit := c[k];
      assert c[..k + 1] == c[..k] + [lit] && lit !in c[..k] && lit in c;
      if lit == x {
        s := s + 1;
      } else if e.Val(lit) > 0 {
        satisfied := lit;
        return;
      } else if e.Val(lit) == 0 {
        assert !(Opposite(lit) in c);
        MarkOne(e.marks, Lits(lits), lit);
        e.marks := e.marks[Abs(lit) := if lit > 0 then 1 else -1];
        lits := lits + [lit];
        assert Lits(lits) == Lits(lits[..|lits| - 1]) + {lit};
        s := s + 1;
      }
      k := k + 1;
    }
    assert c[..k] == c;
  }

  lemma MarkOne(marks: map<int, int>, lits: set<int>, l: int)
    requires Marking(marks, lits) && l != 0 && !(Opposite(l) in lits)
    ensures Marking(marks[Abs(l) := if l > 0 then 1 else -1], lits + {l})
  {
    var after := marks[Abs(l) := if l > 0 then 1 else -1];
    forall m | m != 0
      ensures MarkOf(after, m) == if m in lits + {l} then 1 else if Opposite(m) in lits + {l} then -1 else 0
    {
      assert Opposite(Opposite(m)) == m;
      assert MarkOf(marks, m) == if m in lits then 1 else if Opposite(m) in lits then -1 else 0;
    }
  }

  /** Adds the unassigned literals of the second antecedent, unless one of them clashes with a marked one. */
  method ScanSecond(e: Eliminator, d: Clause, y: int, first: seq<int>)
    returns (satisfied: int, clash: int, t: nat, lits: seq<int>)
    requires ClauseOk(d) && Distinct(first) && Marking(e.marks, Lits(first))
    requires forall l {:trigger Opposite(l) in first} :: l in first ==> !(Opposite(l) in first)
    ensures satisfied != 0 ==> satisfied in d && satisfied != y && satisfied in e.units
    ensures satisfied == 0 && clash != 0 ==> clash in d && clash != y && Opposite(clash) in first
    ensures satisfied == 0 && clash == 0 ==>
              && Distinct(lits) && Lits(lits) == Lits(first) + (Actual(d, e.units) - {y})
              && (forall l :: l in d && l in e.units ==> l == y)
              && (forall l :: l in Actual(d, e.units) && l != y ==> !(Opposite(l) in first))
              && (y in d ==> t == |Actual(d, e.units) - {y}| + 1)
  {
    hide ClauseOk;
    satisfied, clash, t, lits := 0, 0, 0, first;
    ScannedNone(e.units, y, first);
    var k := 0;
    assert d[..0] == [];
    while k < |d|
      invariant 0 <= k <= |d| && Scanned(e.units, d[..k], y, first, lits, t)
    {
      hide Scanned, Marking;
      var lit := d[k];
      assert d[..k + 1] == d[..k] + [lit];
      NextLiteral(d, k);
      if lit == y {
        ScannedPivot(e.units, d[..k], y, first, lits, t);
        t := t + 1;
      } else if e.Val(lit) > 0 {
        satisfied := lit;
        return;
      } else if e.Val(lit) == 0 {
        var mark := MarkOf(e.marks, lit);
        MarkMeans(e.marks, Lits(first), lit);
        assert lit in Lits(first) <==> lit in first;
        assert Opposite(lit) in Lits(first) <==> Opposite(lit) in first;
        if mark < 0 {
          clash := lit;
          return;
        }
        ScannedLiteral(e.units, d[..k], y, first, lits, t, lit);
        if mark == 0 {
          lits := lits + [lit];
        }
        t := t + 1;
      } else {
        ScannedFalse(e.units, d[..k], y, first, lits, t, lit);
      }
      k := k + 1;
    }
    assert d[..k] == d;
  }

  lemma NextLiteral(d: Clause, k: nat)
    requires ClauseOk(d) && k < |d|
    ensures d[k] !in d[..k] && d[k] in d && d[k] != 0
  {
  }

  lemma MarkMeans(marks: map<int, int>, lits: set<int>, l: int)
    requires Marking(marks, lits) && l != 0
    ensures MarkOf(marks, l) == if l in lits then 1 else if Opposite(l) in lits then -1 else 0
  {
  }

  /** After part of the second antecedent: the literals collected and the number of those that count. */
  ghost predicate Scanned(units: set<int>, d: Clause, y: int, first: seq<int>, lits: seq<int>, t: nat)
  {
    && Collected(units, d, y, first, lits)
    && t == |Actual(d, units) - {y}| + if y in d then 1 else 0
  }

  ghost predicate Collected(units: set<int>, d: Clause, y: int, first: seq<int>, lits: seq<int>)
  {
    && Distinct(lits) && Lits(lits) == Lits(first) + (Actual(d, units) - {y})
    && (forall l :: l in d && l in units ==> l == y)
    && (forall l :: l in Actual(d, units) && l != y ==> !(Opposite(l) in first))
  }

  lemma ScannedNone(units: set<int>, y: int, first: seq<int>)
    requires Distinct(first)
    ensures Scanned(units, [], y, first, first, 0)
  {
    assert Actual([], units) - {y} == {};
  }

  lemma ScannedPivot(units: set<int>, d: Clause, y: int, first: seq<int>, lits: seq<int>, t: nat)
    requires Scanned(units, d, y, first, lits, t) && y !in d
    ensures Scanned(units, d + [y], y, first, lits, t + 1)
  {
    assert Actual(d + [y], units) - {y} == Actual(d, units) - {y};
  }

  lemma ScannedFalse(units: set<int>, d: Clause, y: int, first: seq<int>, lits: seq<int>, t: nat, l: int)
    requires Scanned(units, d, y, first, lits, t) && l !in units && Opposite(l) in units && l != y
    ensures Scanned(units, d + [l], y, first, lits, t)
  {
    assert Actual(d + [l], units) == Actual(d, units);
  }

  lemma ScannedLiteral(units: set<int>, d: Clause, y: int, first: seq<int>, lits: seq<int>, t: nat, l: int)
    requires Scanned(units, d, y, first, lits, t) && !Assigned(units, l) && l != y && l !in d && !(Opposite(l) in first)
    ensures Scanned(units, d + [l], y, first, if l in first then lits else lits + [l], t + 1)
  {
    CollectedLiteral(units, d, y, first, lits, l);
    hide Collected;
    var was, now := Actual(d, units) - {y}, Actual(d + [l], units) - {y};
    OneMoreActual(units, d, y, l);
    hide Actual;
    assert |now| == |was| + 1;
  }

  lemma OneMoreActual(units: set<int>, d: Clause, y: int, l: int)
    requires !Assigned(units, l) && l != y && l !in d
    ensures Actual(d + [l], units) - {y} == Actual(d, units) - {y} + {l} && l !in Actual(d, units)
  {
  }

  lemma CollectedLiteral(units: set<int>, d: Clause, y: int, first: seq<int>, lits: seq<int>, l: int)
    requires Collected(units, d, y, first, lits) && !Assigned(units, l) && l != y && l !in d && !(Opposite(l) in first)
    ensures Collected(units, d + [l], y, first, if l in first then lits else lits + [l])
  {
    OneMoreActual(units, d, y, l);
    var more := if l in first then lits else lits + [l];
    assert Lits(lits + [l]) == Lits(lits) + {l};
    assert l in first ==> l in Lits(first);
    assert l in Lits(lits) <==> l in lits;
    assert Distinct(more);
    hide Distinct;
    forall m | m in Actual(d + [l], units) && m != y
      ensures !(Opposite(m) in first)
    {
      assert m == l || m in Actual(d, units);
    }
  }

  /** Clears the marks of a clause. */
  method UnmarkClause(e: Eliminator, c: Clause, ghost lits: set<int>)
    requires Marking(e.marks, lits) && lits <= Lits(c) && ProperClause(c)
    modifies e`marks
    ensures Marking(e.marks, {})
  {
    var k := 0;
    while k < |c|
      invariant 0 <= k <= |c|
      invariant MarkedWithin(e.marks, c[k..])
    {
      assert c[k..] == [c[k]] + c[k + 1..];
      UnmarkOne(e.marks, c[k], c[k + 1..]);
      e.marks := e.marks - {Abs(c[k])};
      k := k + 1;
    }
  }

  /** Only variables of these literals are marked. */
  ghost predicate MarkedWithin(marks: map<int, int>, c: seq<int>)
  {
    forall l {:trigger MarkOf(marks, l)} :: l != 0 && MarkOf(marks, l) != 0 ==> l in c || Opposite(l) in c
  }

  lemma UnmarkOne(marks: map<int, int>, l: int, rest: seq<int>)
    requires MarkedWithin(marks, [l] + rest)
    ensures MarkedWithin(marks - {Abs(l)}, rest)
  {
    var after := marks - {Abs(l)};
    forall m | m != 0 && MarkOf(after, m) != 0
      ensures m in rest || Opposite(m) in rest
    {
      assert MarkOf(marks, m) == MarkOf(after, m) && Abs(m) != Abs(l);
    }
  }

  /** The whole resolution of two clauses on x, which leaves no marks behind. */
  method Resolve(e: Eliminator, c: Clause, d: Clause, x: int) returns (r: Resolution)
    requires ClauseOk(c) && ClauseOk(d) && x in c && Opposite(x) in d && Marking(e.marks, {}) && UnitsOk(e.units)
    modifies e`marks
    ensures Marking(e.marks, {}) && ResolutionOk(e.units, c, d, x, r)
  {
    var y := -x;
    var satisfied, s, first := MarkFirst(e, c, x);
    if satisfied != 0 {
      UnmarkClause(e, c, Lits(first));
      return FirstSatisfied(satisfied);
    }
    assert forall l :: l in first ==> l in Lits(first);
    var satisfied', clash, t, lits := ScanSecond(e, d, y, first);
    UnmarkClause(e, c, Lits(first));
    if satisfied' != 0 {
      return SecondSatisfied(satisfied');
    }
    if clash != 0 {
      assert Opposite(clash) in Lits(first);
      return Clash(clash);
    }
    DistinctCount(first);
    return Resolvent(lits, s, t);
  }

  ghost predicate ResolutionOk(units: set<int>, c: Clause, d: Clause, x: int, r: Resolution)
  {
    var first, second := Actual(c, units) - {x}, Actual(d, units) - {Opposite(x)};
    match r
    case FirstSatisfied(l) => l in c && l != x && l in units
    case SecondSatisfied(l) => l in d && l != Opposite(x) && l in units
    case Clash(l) => l in d && l != Opposite(x) && Opposite(l) in c && Opposite(l) != x
    case Resolvent(lits, s, t) =>
      && Distinct(lits) && Lits(lits) == first + second && s == |first| + 1 && t == |second| + 1
      && (forall l {:trigger Opposite(l) in first} :: l in second ==> !(Opposite(l) in first))
      && (forall l :: l in c && l in units ==> l == x) && (forall l :: l in d && l in units ==> l == Opposite(x))
  }

  // ----- What resolution means -----------------------------------------------------------------------

  /** The two clauses at i and j can be resolved on x. */
  ghost predicate Clashing(db: Db, i: nat, j: nat, x: int)
  {
    && DbOk(db) && x != 0 && !Assigned(db.units, x) && Live(db, i) && Live(db, j)
    && x in db.clauses[i] && Opposite(x) in db.clauses[j]
  }

  /** Every model of the database satisfies the resolvent. */
  lemma ResolventImplied(s: Assignment, db: Db, i: nat, j: nat, x: int)
    requires Clashing(db, i, j, x) && Models(s, db)
    ensures ResolventTrue(s, db.clauses[i], db.clauses[j], x)
  {
    assert ClauseTrue(s, db.clauses[i]) && ClauseTrue(s, db.clauses[j]);
    TrueSplit(s, db.clauses[i], x);
    TrueSplit(s, db.clauses[j], -x);
    LitNegation(s, x);
  }

  /** Under the units the collected literals mean the resolvent. */
  lemma ResolventMeans(s: Assignment, units: set<int>, c: Clause, d: Clause, x: int, lits: seq<int>)
    requires ClauseOk(c) && ClauseOk(d) && !Assigned(units, x) && Agrees(s, units)
    requires !Satisfied(c, units) && !Satisfied(d, units)
    requires Lits(lits) == (Actual(c, units) - {x}) + (Actual(d, units) - {Opposite(x)})
    ensures ClauseTrue(s, lits) <==> ResolventTrue(s, c, d, x)
  {
    TrueActual(s, c, units, x);
    TrueActual(s, d, units, -x);
    if ClauseTrue(s, lits) {
      var l :| l in lits && LitTrue(s, l);
      assert l in Lits(lits);
    }
    if ResolventTrue(s, c, d, x) {
      var l :| l in Lits(lits) && LitTrue(s, l);
      assert l in lits;
    }
  }

  /** The resolvent as a clause for the database. */
  ghost predicate IsResolvent(db: Db, i: nat, j: nat, x: int, lits: seq<int>)
    requires i < |db.clauses| && j < |db.clauses|
  {
    && ClauseOk(lits) && !Mentions(lits, x) && (forall l :: l in lits ==> !Assigned(db.units, l))
    && forall s :: Agrees(s, db.units) ==> (ClauseTrue(s, lits) <==> ResolventTrue(s, db.clauses[i], db.clauses[j], x))
  }

  lemma ResolventClause(db: Db, i: nat, j: nat, x: int, r: Resolution)
    requires Clashing(db, i, j, x) && r.Resolvent? && ResolutionOk(db.units, db.clauses[i], db.clauses[j], x, r)
    ensures IsResolvent(db, i, j, x, r.lits)
    ensures !Satisfied(db.clauses[i], db.units) && !Satisfied(db.clauses[j], db.units)
  {
    var c, d := db.clauses[i], db.clauses[j];
    var first, second := Actual(c, db.units) - {x}, Actual(d, db.units) - {Opposite(x)};
    assert ClauseOk(c) && ClauseOk(d);
    assert !Satisfied(c, db.units) && !Satisfied(d, db.units);
    forall l | l in r.lits
      ensures l != 0 && l != x && l != Opposite(x) && !(Opposite(l) in r.lits) && !Assigned(db.units, l)
    {
      assert l in Lits(r.lits);
      assert Opposite(Opposite(l)) == l;
      assert Opposite(l) in r.lits <==> Opposite(l) in Lits(r.lits);
      if l in first {
        assert !(Opposite(l) in first);
        assert Opposite(l) in second ==> !(Opposite(Opposite(l)) in first);
      } else {
        assert l in second && !(Opposite(l) in first) && !(Opposite(l) in second);
      }
    }
    forall s | Agrees(s, db.units)
      ensures ClauseTrue(s, r.lits) <==> ResolventTrue(s, c, d, x)
    {
      ResolventMeans(s, db.units, c, d, x, r.lits);
    }
  }

  /** What resolving two live clauses leads to: the database evolves, and unless the resolvent is handed back as one
      that is still to be added, every model of the rest satisfies it already. */
  ghost predicate Resolved(a: Db, b: Db, i: nat, j: nat, x: int, more: bool, lits: seq<int>)
  {
    && Evolves(a, b, x)
    && (Clashing(a, i, j, x) ==>
          if more then a == b && |lits| >= 2 && IsResolvent(a, i, j, x, lits) else Accounted(a, b, i, j, x))
  }

  ghost predicate Accounted(a: Db, b: Db, i: nat, j: nat, x: int)
    requires i < |a.clauses| && j < |a.clauses|
  {
    forall s :: !Assigned(b.units, x) && Rest(s, b, x) ==> ResolventTrue(s, a.clauses[i], a.clauses[j], x)
  }

  /** The literals of the resolvent that have no value. */
  function Res(units: set<int>, c: Clause, d: Clause, x: int): set<int>
  {
    (Actual(c, units) - {x}) + (Actual(d, units) - {Opposite(x)})
  }

  /** The two clauses do not need to be resolved any more: one of them is garbage or satisfied, or their resolvent is
      tautological. */
  ghost predicate Dead(db: Db, i: nat, j: nat, x: int)
  {
    i < |db.clauses| && j < |db.clauses| &&
    (i in db.garbage || j in db.garbage || Satisfied(db.clauses[i], db.units) || Satisfied(db.clauses[j], db.units) ||
     TautologicalOn(db.clauses[i], db.clauses[j], x))
  }

  /** A resolvent is handed back with its literals, or the pair is dead. No satisfied clause stays that was not there
      before, unless a unit was assigned and not propagated. */
  ghost predicate Handled(a: Db, b: Db, i: nat, j: nat, x: int, eager: bool, more: bool, lits: seq<int>)
  {
    && i < |a.clauses| && j < |a.clauses| && (eager || a.units == b.units ==> Tidy(a, b))
    && (if more then Distinct(lits) && Lits(lits) == Res(a.units, a.clauses[i], a.clauses[j], x) && !Dead(a, i, j, x)
        else b.unsat || Assigned(b.units, x) || Dead(b, i, j, x))
    && |a.clauses| <= |b.clauses| <= |a.clauses| + 1 && (|b.clauses| > |a.clauses| ==> !more && !Dead(a, i, j, x))
  }

  lemma HandledSwap(a: Db, b: Db, i: nat, j: nat, x: int, eager: bool, more: bool, lits: seq<int>)
    requires i < |a.clauses| && j < |a.clauses| && Handled(a, b, j, i, -x, eager, more, lits)
    ensures Handled(a, b, i, j, x, eager, more, lits)
  {
    assert Opposite(-x) == x && Opposite(x) == -x;
    DeadSwap(a, i, j, x);
    DeadSwap(b, i, j, x);
    assert Res(a.units, a.clauses[j], a.clauses[i], -x) == Res(a.units, a.clauses[i], a.clauses[j], x);
  }

  lemma DeadSwap(db: Db, i: nat, j: nat, x: int)
    ensures Dead(db, j, i, -x) <==> Dead(db, i, j, x)
  {
    if i < |db.clauses| && j < |db.clauses| {
      TautologicalSwapped(db.clauses[i], db.clauses[j], x);
    }
  }

  lemma TautologicalSwapped(c: Clause, d: Clause, x: int)
    ensures TautologicalOn(d, c, -x) <==> TautologicalOn(c, d, x)
  {
    if TautologicalOn(d, c, -x) {
      var m :| m in d && m != -x && Opposite(m) in c;
      assert Opposite(m) != x && Opposite(Opposite(m)) in d;
    }
    if TautologicalOn(c, d, x) {
      var m :| m in c && m != x && Opposite(m) in d;
      assert Opposite(m) != -x && Opposite(Opposite(m)) in c;
    }
  }

  /** Neither antecedent is satisfied and nothing clashes. */
  lemma ProperNotDead(db: Db, i: nat, j: nat, x: int, r: Resolution)
    requires Clashing(db, i, j, x) && r.Resolvent? && ResolutionOk(db.units, db.clauses[i], db.clauses[j], x, r)
    ensures !Dead(db, i, j, x) && Distinct(r.lits) && Lits(r.lits) == Res(db.units, db.clauses[i], db.clauses[j], x)
  {
    var c, d := db.clauses[i], db.clauses[j];
    forall m | m in c && m != x ensures !(Opposite(m) in d) {
      ClashVisible(db.units, c, d, x, m, r);
    }
  }

  lemma ClashVisible(units: set<int>, c: Clause, d: Clause, x: int, m: int, r: Resolution)
    requires r.Resolvent? && ResolutionOk(units, c, d, x, r) && m in c && m != x && !Assigned(units, x)
    ensures !(Opposite(m) in d)
  {
    assert Opposite(Opposite(m)) == m;
    var o := Opposite(m);
    assert o in Actual(d, units) - {Opposite(x)} ==> !(Opposite(o) in Actual(c, units) - {x});
  }

  lemma TrivialHandled(a: Db, i: nat, j: nat, x: int, r: Resolution, gone: set<nat>, eager: bool)
    requires Clashing(a, i, j, x) && !r.Resolvent? && ResolutionOk(a.units, a.clauses[i], a.clauses[j], x, r)
    ensures Handled(a, a.(garbage := a.garbage + gone), i, j, x, eager, false, [])
  {
    TidyAdded(a, [], gone);
    assert a.clauses + [] == a.clauses;
    if r.Clash? {
      assert Opposite(Opposite(r.lit)) == r.lit;
      assert TautologicalOn(a.clauses[i], a.clauses[j], x);
    }
  }

  lemma SubsumedHandled(a: Db, i: nat, j: nat, x: int, strong: seq<int>, gone: set<nat>, eager: bool)
    requires i < |a.clauses| && j < |a.clauses| && (i in gone || j in gone) && forall l :: l in strong ==> !Assigned(a.units, l)
    requires !Dead(a, i, j, x)
    ensures Handled(a, Strengthening(a, strong, gone), i, j, x, eager, false, [])
  {
    TidyAdded(a, [strong], gone);
  }

  lemma UnitHandled(a: Db, b: Db, i: nat, j: nat, x: int, lits: seq<int>, eager: bool)
    requires i < |a.clauses| && j < |a.clauses| && |lits| == 1 && lits[0] in b.units && a.clauses == b.clauses && a.garbage <= b.garbage
    requires Lits(lits) == Res(a.units, a.clauses[i], a.clauses[j], x) && lits[0] !in a.units
    requires eager ==> b.unsat || Pending(b, a.units, [])
    ensures Handled(a, b, i, j, x, eager, false, [])
  {
    assert lits[0] in Lits(lits);
    if eager && !b.unsat {
      forall k | Live(b, k) && Satisfied(b.clauses[k], b.units)
        ensures Live(a, k) && Satisfied(a.clauses[k], a.units)
      {
        var l :| l in b.clauses[k] && l in b.units;
        assert l in a.clauses[k] && l in a.units;
      }
    }
    assert lits[0] in a.clauses[i] || lits[0] in a.clauses[j];
  }

  lemma RefutedHandled(a: Db, i: nat, j: nat, x: int, eager: bool)
    requires i < |a.clauses| && j < |a.clauses|
    ensures Handled(a, a.(unsat := true), i, j, x, eager, false, [])
  {
  }

  lemma ResolvedSwap(a: Db, b: Db, i: nat, j: nat, x: int, more: bool, lits: seq<int>)
    requires Clashing(a, i, j, x) && Resolved(a, b, j, i, -x, more, lits)
    ensures Resolved(a, b, i, j, x, more, lits)
  {
    assert Opposite(-x) == x && Opposite(x) == -x;
    assert Clashing(a, j, i, -x);
    EvolvesOpposite(a, b, x);
    forall s
      ensures ResolventTrue(s, a.clauses[i], a.clauses[j], x) <==> ResolventTrue(s, a.clauses[j], a.clauses[i], -x)
      ensures Rest(s, b, x) <==> Rest(s, b, -x)
    {
      assert - -x == x;
      RestOpposite(s, b, x);
    }
  }

  lemma RestOpposite(s: Assignment, b: Db, x: int)
    ensures Rest(s, b, x) <==> Rest(s, b, -x)
  {
    assert Opposite(-x) == x && Opposite(x) == -x;
    assert forall i :: Live(b, i) ==> (Mentions(b.clauses[i], x) <==> Mentions(b.clauses[i], -x));
  }

  lemma EvolvesOpposite(a: Db, b: Db, x: int)
    requires Evolves(a, b, -x)
    ensures Evolves(a, b, x)
  {
    assert Opposite(-x) == x && Opposite(x) == -x;
    forall i | |a.clauses| <= i < |b.clauses| ensures !Mentions(b.clauses[i], x) {
      assert !Mentions(b.clauses[i], -x);
    }
    if !Assigned(b.units, x) {
      forall s, i | Rest(s, b, x) && Live(a, i) && i in b.garbage
        ensures TrueAway(s, a.clauses[i], x)
      {
        RestOpposite(s, b, x);
        assert TrueAway(s, a.clauses[i], -x);
      }
    }
  }

  /** Satisfied antecedents and tautological resolvents. */
  lemma TrivialResolved(a: Db, i: nat, j: nat, x: int, r: Resolution)
    requires Clashing(a, i, j, x) && ResolutionOk(a.units, a.clauses[i], a.clauses[j], x, r) && !r.Resolvent?
    ensures var gone := match r case FirstSatisfied(_) => {i} case SecondSatisfied(_) => {j} case _ => {};
            Resolved(a, a.(garbage := a.garbage + gone), i, j, x, false, [])
  {
    match r {
      case FirstSatisfied(l) =>
        SatisfiedRemoved(a, i);
        PropagatedEvolves(a, a.(garbage := a.garbage + {i}), x);
      case SecondSatisfied(l) =>
        SatisfiedRemoved(a, j);
        PropagatedEvolves(a, a.(garbage := a.garbage + {j}), x);
      case Clash(l) =>
        assert a.garbage + {} == a.garbage;
        EvolvesRefl(a, x);
        forall s ensures ResolventTrue(s, a.clauses[i], a.clauses[j], x) {
          assert ClauseOk(a.clauses[j]) && l != 0;
          LitNegation(s, l);
        }
    }
  }

  /** Empty and unit resolvents. */
  lemma ShortResolved(a: Db, b: Db, i: nat, j: nat, x: int, lits: seq<int>)
    requires Clashing(a, i, j, x) && IsResolvent(a, i, j, x, lits) && |lits| <= 1
    requires if lits == [] then b == a.(unsat := true)
             else exists u: Db :: u == a.(units := a.units + {lits[0]}) && Propagated(u, b)
    ensures Resolved(a, b, i, j, x, false, [])
  {
    forall s | Models(s, a)
      ensures ClauseTrue(s, lits)
    {
      ResolventImplied(s, a, i, j, x);
    }
    if lits == [] {
      EmptyImplied(a);
      PropagatedEvolves(a, b, x);
    } else {
      var u := a.(units := a.units + {lits[0]});
      assert lits == [lits[0]];
      UnitImplied(a, lits[0]);
      PropagatedTrans(a, u, b);
      PropagatedEvolves(a, b, x);
      forall s | !Assigned(b.units, x) && Rest(s, b, x)
        ensures ResolventTrue(s, a.clauses[i], a.clauses[j], x)
      {
        assert lits[0] in b.units && lits[0] in lits;
        assert ClauseTrue(s, lits);
      }
    }
  }

  /** Self-subsuming resolution: the resolvent is what remains of the antecedents to be removed. */
  lemma SubsumedResolved(a: Db, i: nat, j: nat, x: int, lits: seq<int>, gone: set<nat>)
    requires Clashing(a, i, j, x) && IsResolvent(a, i, j, x, lits) && gone <= {i, j}
    requires forall k :: k in gone ==> Lits(lits) <= Lits(a.clauses[k])
    ensures Resolved(a, a.(clauses := a.clauses + [lits], garbage := a.garbage + gone), i, j, x, false, [])
  {
    var b := a.(clauses := a.clauses + [lits], garbage := a.garbage + gone);
    forall s | Models(s, a)
      ensures ClauseTrue(s, lits)
    {
      ResolventImplied(s, a, i, j, x);
    }
    forall s, k | Agrees(s, a.units) && ClauseTrue(s, lits) && k in gone
      ensures TrueAway(s, a.clauses[k], x)
    {
      var l :| l in lits && LitTrue(s, l);
      assert l in Lits(lits);
      assert l in Lits(a.clauses[k]);
    }
    ReplacedEvolves(a, lits, gone, x);
    forall s | Rest(s, b, x)
      ensures ResolventTrue(s, a.clauses[i], a.clauses[j], x)
    {
      assert b.clauses[|a.clauses|] == lits && Live(b, |a.clauses|);
    }
  }

  lemma SameLits(db: Db, i: nat, j: nat, x: int, lits: seq<int>, other: seq<int>)
    requires i < |db.clauses| && j < |db.clauses| && IsResolvent(db, i, j, x, lits)
    requires Distinct(other) && Lits(other) == Lits(lits)
    ensures IsResolvent(db, i, j, x, other)
  {
    forall l ensures l in other <==> l in lits {
      assert l in Lits(other) <==> l in other;
      assert l in Lits(lits) <==> l in lits;
    }
  }

  lemma SameMembers(lits: seq<int>, r: seq<int>)
    requires ClauseOk(lits) && Distinct(r) && Lits(r) == Lits(lits) && lits != []
    ensures ClauseOk(r) && r != [] && forall x :: !Mentions(lits, x) ==> !Mentions(r, x)
  {
    forall l ensures l in r <==> l in lits {
      assert l in Lits(r) <==> l in r;
      assert l in Lits(lits) <==> l in lits;
    }
    assert lits[0] in lits;
  }

  lemma NoLarger(a: set<int>, b: set<int>)
    requires |a| >= |a + b|
    ensures a + b == a
  {
    if a + b != a {
      assert a < a + b;
      ProperSubsetSmaller(a, a + b);
    }
  }

  lemma ProperSubsetSmaller(a: set<int>, b: set<int>)
    requires a < b
    ensures |a| < |b|
  {
    var rest := b - a;
    assert b == a + rest && a !! rest;
    assert rest != {};
  }

  /** The unassigned literals of a clause without the pivot. */
  method Strengthened(e: Eliminator, c: Clause, x: int) returns (lits: seq<int>)
    requires ClauseOk(c) && !Satisfied(c, e.units)
    ensures Distinct(lits) && Lits(lits) == Actual(c, e.units) - {x}
  {
    lits := [];
    var k := 0;
    while k < |c|
      invariant 0 <= k <= |c| && Distinct(lits) && Lits(lits) == Actual(c[..k], e.units) - {x}
    {
      var lit := c[k];
      assert c[..k + 1] == c[..k] + [lit] && lit !in c[..k];
      if lit != x && e.Val(lit) >= 0 {
        assert lit in c;
        assert lit !in lits by { assert lit !in Lits(lits); }
        lits := lits + [lit];
        assert Lits(lits) == Lits(lits[..|lits| - 1]) + {lit};
      }
      k := k + 1;
    }
    assert c[..k] == c;
  }

  /** Removes the pivot from a clause by adding the strengthened one. */
  method SelfSubsume(e: Eliminator, i: nat, x: int, ghost lits: seq<int>) returns (ghost strong: seq<int>)
    requires e.Valid() && i < |e.clauses| && !Satisfied(e.clauses[i], e.units) && !Mentions(lits, x)
    requires Lits(lits) == Actual(e.clauses[i], e.units) - {x} && |lits| >= 2 && ClauseOk(lits)
    modifies e`clauses, e`occs, e`garbage
    ensures e.Valid() && Distinct(strong) && Lits(strong) == Lits(lits)
    ensures e.State() == Strengthening(old(e.State()), strong, {i})
    ensures Occ(e.occs, x) == Occ(old(e.occs), x) && Occ(e.occs, -x) == Occ(old(e.occs), -x)
  {
    hide DbOk, OccsOk, Satisfied, Actual;
    DbClause(e.State(), i);
    var r := Strengthened(e, e.clauses[i], x);
    SameMembers(lits, r);
    hide ClauseOk, Lits;
    e.NewClause(r);
    RemovedKept(e.State(), i, e.occs);
    e.garbage := e.garbage + {i};
    strong := r;
  }

  /** A database with a clause added and some removed. */
  function Strengthening(a: Db, strong: seq<int>, gone: set<nat>): Db
  {
    a.(clauses := a.clauses + [strong], garbage := a.garbage + gone)
  }

  /** Resolves two live clauses, the first one not longer than the second. */
  method ResolveOrdered(e: Eliminator, i: nat, x: int, j: nat, eager: bool) returns (more: bool, lits: seq<int>, ghost r: Resolution)
    requires e.Valid() && Clashing(e.State(), i, j, x) && Marking(e.marks, {}) && !e.unsat
    modifies e`clauses, e`garbage, e`units, e`unsat, e`occs, e`marks
    ensures e.Valid() && Marking(e.marks, {}) && Resolved(old(e.State()), e.State(), i, j, x, more, lits)
    ensures !eager ==> !Assigned(e.units, x)
    ensures Handled(old(e.State()), e.State(), i, j, x, eager, more, lits)
    ensures Occ(e.occs, x) == Occ(old(e.occs), x) && Occ(e.occs, -x) == Occ(old(e.occs), -x)
    ensures i < |old(e.clauses)| && j < |old(e.clauses)| && ResolutionOk(old(e.units), old(e.clauses)[i], old(e.clauses)[j], x, r)
    ensures Effect(old(e.State()), e.State(), i, j, r, eager)
  {
    ghost var before := e.State();
    ClashingOk(before, i, j, x);
    hide DbOk, OccsOk, Marking, Clashing, ResolutionOk, Resolved, IsResolvent, ClauseOk, Handled;
    var result := Resolve(e, e.clauses[i], e.clauses[j], x);
    r := result;
    more, lits := false, [];
    match result {
      case FirstSatisfied(_) =>
        TrivialResolved(before, i, j, x, r);
        TrivialHandled(before, i, j, x, r, {i}, eager);
        RemovedKept(before, i, e.occs);
        e.garbage := e.garbage + {i};
      case SecondSatisfied(_) =>
        TrivialResolved(before, i, j, x, r);
        TrivialHandled(before, i, j, x, r, {j}, eager);
        RemovedKept(before, j, e.occs);
        e.garbage := e.garbage + {j};
      case Clash(_) =>
        TrivialResolved(before, i, j, x, r);
        TrivialHandled(before, i, j, x, r, {}, eager);
        assert before.(garbage := before.garbage + {}) == before;
      case Resolvent(found, s, t) =>
        ResolventClause(before, i, j, x, r);
        more := HandleResolvent(e, i, x, j, eager, result);
        lits := if more then found else [];
    }
  }

  lemma ClashingOk(db: Db, i: nat, j: nat, x: int)
    requires Clashing(db, i, j, x)
    ensures i < |db.clauses| && j < |db.clauses| && ClauseOk(db.clauses[i]) && ClauseOk(db.clauses[j]) && UnitsOk(db.units)
    ensures x in db.clauses[i] && Opposite(x) in db.clauses[j] && !Assigned(db.units, x)
  {
  }

  /** Handles a resolvent: empty, unit, self-subsuming in one or both antecedents, or to be added. */
  method HandleResolvent(e: Eliminator, i: nat, x: int, j: nat, eager: bool, r: Resolution) returns (more: bool)
    requires e.Valid() && Clashing(e.State(), i, j, x) && !e.unsat && r.Resolvent?
    requires ResolutionOk(e.units, e.clauses[i], e.clauses[j], x, r) && IsResolvent(e.State(), i, j, x, r.lits)
    requires !Satisfied(e.clauses[i], e.units) && !Satisfied(e.clauses[j], e.units)
    modifies e`clauses, e`garbage, e`units, e`unsat, e`occs
    ensures e.Valid() && Resolved(old(e.State()), e.State(), i, j, x, more, if more then r.lits else [])
    ensures !eager ==> !Assigned(e.units, x)
    ensures Handled(old(e.State()), e.State(), i, j, x, eager, more, if more then r.lits else [])
    ensures Occ(e.occs, x) == Occ(old(e.occs), x) && Occ(e.occs, -x) == Occ(old(e.occs), -x)
    ensures Effect(old(e.State()), e.State(), i, j, r, eager)
  {
    assert i < |e.clauses| && j < |e.clauses|;
    ProperNotDead(e.State(), i, j, x, r);
    hide SubsumedExactly, UnitPropagated, DbOk, OccsOk, Resolved, IsResolvent, Clashing, Handled, Dead, Res, ResolutionOk;
    ghost var before := e.State();
    var lits, s, t := r.lits, r.s, r.t;
    var size := |lits|;
    more := false;
    ResolventFacts(before, i, j, x, r);
    if size == 0 {
      EmptyResolved(before, i, j, x);
      RefutedHandled(before, i, j, x, eager);
      e.unsat := true;
    } else if size == 1 {
      AssignResolvent(e, i, x, j, eager, lits);
    } else if s > size || t > size {
      RemovePivot(e, i, x, j, r, eager);
    } else {
      more := true;
      StillToAdd(before, i, j, x, lits);
      HandedBack(before, i, j, x, lits, eager);
    }
  }

  lemma HandedBack(a: Db, i: nat, j: nat, x: int, lits: seq<int>, eager: bool)
    requires i < |a.clauses| && j < |a.clauses| && !Dead(a, i, j, x) && Distinct(lits)
    requires Lits(lits) == Res(a.units, a.clauses[i], a.clauses[j], x)
    ensures Handled(a, a, i, j, x, eager, true, lits)
  {
  }

  /** What a resolution does to the formula: satisfied antecedents go, tautologies do nothing, the empty resolvent refutes, a
      unit is assigned and propagated if asked to, a resolvent that subsumes antecedents replaces exactly those, and any other
      is handed back. */
  ghost predicate Effect(a: Db, b: Db, i: nat, j: nat, r: Resolution, eager: bool)
  {
    match r
    case FirstSatisfied(_) => b == a.(garbage := a.garbage + {i})
    case SecondSatisfied(_) => b == a.(garbage := a.garbage + {j})
    case Clash(_) => b == a
    case Resolvent(lits, s, t) =>
      if |lits| == 0 then b == a.(unsat := true)
      else if |lits| == 1 then
        if eager then UnitPropagated(a, b, lits[0]) else b == a.(units := a.units + {lits[0]})
      else if s > |lits| || t > |lits| then SubsumedExactly(a, b, i, j, lits, s, t)
      else b == a
  }

  ghost predicate UnitPropagated(a: Db, b: Db, unit: int)
  {
    Propagated(a.(units := a.units + {unit}), b) && (b.unsat || Exhausted(b, a.units, []))
  }

  ghost predicate SubsumedExactly(a: Db, b: Db, i: nat, j: nat, lits: seq<int>, s: nat, t: nat)
  {
    exists strong :: Distinct(strong) && Lits(strong) == Lits(lits) &&
      b == Strengthening(a, strong, (if s > |lits| then {i} else {}) + (if t > |lits| then {j} else {}))
  }

  lemma SubsumedBy(a: Db, i: nat, j: nat, lits: seq<int>, s: nat, t: nat, strong: seq<int>, gone: set<nat>)
    requires Distinct(strong) && Lits(strong) == Lits(lits)
    requires gone == (if s > |lits| then {i} else {}) + (if t > |lits| then {j} else {})
    ensures SubsumedExactly(a, Strengthening(a, strong, gone), i, j, lits, s, t)
  {
  }

  /** Garbage clauses are not resolved; otherwise the shorter clause is the first antecedent. */
  ghost predicate ResolvedAs(a: Db, b: Db, i: nat, x: int, j: nat, r: Resolution, eager: bool)
  {
    i < |a.clauses| && j < |a.clauses| &&
    if i in a.garbage || j in a.garbage then b == a
    else if |a.clauses[i]| > |a.clauses[j]| then ResolutionOk(a.units, a.clauses[j], a.clauses[i], -x, r) && Effect(a, b, j, i, r, eager)
    else ResolutionOk(a.units, a.clauses[i], a.clauses[j], x, r) && Effect(a, b, i, j, r, eager)
  }

  /** Self-subsuming resolution in one or both antecedents. */
  method RemovePivot(e: Eliminator, i: nat, x: int, j: nat, r: Resolution, ghost eager: bool)
    requires e.Valid() && Clashing(e.State(), i, j, x) && r.Resolvent? && IsResolvent(e.State(), i, j, x, r.lits)
    requires !Satisfied(e.clauses[i], e.units) && !Satisfied(e.clauses[j], e.units)
    requires ClauseOk(r.lits) && !Mentions(r.lits, x) && !Mentions(r.lits, -x) && |r.lits| >= 2
    requires (r.s > |r.lits| || r.t > |r.lits|) && !Dead(e.State(), i, j, x)
    requires r.s > |r.lits| ==> Lits(r.lits) == Actual(e.clauses[i], e.units) - {x}
    requires r.t > |r.lits| ==> Lits(r.lits) == Actual(e.clauses[j], e.units) - {-x}
    modifies e`clauses, e`garbage, e`occs
    ensures e.Valid() && Resolved(old(e.State()), e.State(), i, j, x, false, [])
    ensures Handled(old(e.State()), e.State(), i, j, x, eager, false, [])
    ensures Occ(e.occs, x) == Occ(old(e.occs), x) && Occ(e.occs, -x) == Occ(old(e.occs), -x)
    ensures SubsumedExactly(old(e.State()), e.State(), i, j, r.lits, r.s, r.t)
  {
    hide SubsumedExactly, DbOk, OccsOk, Clashing, IsResolvent, Dead, Satisfied, ClauseOk, Mentions, Actual, Resolved, Handled, Strengthening, Distinct, Lits, Occ;
    ghost var before := e.State();
    InRange(before, i, j, x);
    var size := |r.lits|;
    if r.s > size {
      ghost var strong := SelfSubsume(e, i, x, r.lits);
      ghost var gone := {i};
      if r.t > size {
        RemoveAlso(e, j, before, strong, i);
        gone := {i, j};
      }
      SubsumedBoth(before, i, j, x, r.lits, strong, gone, eager);
      SubsumedBy(before, i, j, r.lits, r.s, r.t, strong, gone);
    } else {
      assert - -x == x;
      ghost var strong := SelfSubsume(e, j, -x, r.lits);
      SubsumedBoth(before, i, j, x, r.lits, strong, {j}, eager);
      SubsumedBy(before, i, j, r.lits, r.s, r.t, strong, {j});
    }
  }

  lemma SubsumedBoth(a: Db, i: nat, j: nat, x: int, lits: seq<int>, strong: seq<int>, gone: set<nat>, eager: bool)
    requires Clashing(a, i, j, x) && IsResolvent(a, i, j, x, lits) && gone <= {i, j} && gone != {} && !Dead(a, i, j, x)
    requires Distinct(strong) && Lits(strong) == Lits(lits)
    requires i in gone ==> Lits(lits) == Actual(a.clauses[i], a.units) - {x}
    requires j in gone ==> Lits(lits) == Actual(a.clauses[j], a.units) - {-x}
    ensures Resolved(a, Strengthening(a, strong, gone), i, j, x, false, [])
    ensures Handled(a, Strengthening(a, strong, gone), i, j, x, eager, false, [])
  {
    hide Resolved, Handled, IsResolvent, Clashing, Dead, Strengthening;
    InRange(a, i, j, x);
    assert i in gone || j in gone;
    Subsumed(a, i, j, x, lits, strong, gone);
    SubsumedFree(a, i, j, x, lits, strong, gone, eager);
  }

  lemma SubsumedFree(a: Db, i: nat, j: nat, x: int, lits: seq<int>, strong: seq<int>, gone: set<nat>, eager: bool)
    requires Clashing(a, i, j, x) && IsResolvent(a, i, j, x, lits) && Lits(strong) == Lits(lits) && (i in gone || j in gone)
    requires !Dead(a, i, j, x)
    ensures Handled(a, Strengthening(a, strong, gone), i, j, x, eager, false, [])
  {
    forall l | l in strong ensures !Assigned(a.units, l) {
      assert l in Lits(strong);
      assert l in lits;
    }
    SubsumedHandled(a, i, j, x, strong, gone, eager);
  }

  lemma InRange(db: Db, i: nat, j: nat, x: int)
    requires Clashing(db, i, j, x)
    ensures i < |db.clauses| && j < |db.clauses| && i != j
  {
    DbClause(db, i);
  }

  /** Removes the second antecedent too. */
  method RemoveAlso(e: Eliminator, j: nat, ghost before: Db, ghost strong: seq<int>, ghost i: nat)
    requires e.Valid() && e.State() == Strengthening(before, strong, {i}) && j < |before.clauses|
    modifies e`garbage
    ensures e.Valid() && e.State() == Strengthening(before, strong, {i, j})
  {
    hide DbOk, OccsOk;
    RemovedKept(e.State(), j, e.occs);
    e.garbage := e.garbage + {j};
    assert before.garbage + {i} + {j} == before.garbage + {i, j};
  }

  lemma StillToAdd(a: Db, i: nat, j: nat, x: int, lits: seq<int>)
    requires Clashing(a, i, j, x) && IsResolvent(a, i, j, x, lits) && |lits| >= 2
    ensures Resolved(a, a, i, j, x, true, lits) && !Assigned(a.units, x)
  {
    EvolvesRefl(a, x);
  }

  lemma EmptyResolved(a: Db, i: nat, j: nat, x: int)
    requires Clashing(a, i, j, x) && IsResolvent(a, i, j, x, [])
    ensures Resolved(a, a.(unsat := true), i, j, x, false, []) && !Assigned(a.units, x)
    ensures DbOk(a.(unsat := true)) && forall occs :: OccsOk(a, occs) ==> OccsOk(a.(unsat := true), occs)
  {
    ShortResolved(a, a.(unsat := true), i, j, x, []);
    forall occs | OccsOk(a, occs) ensures OccsOk(a.(unsat := true), occs) { OccsKept(a, a.(unsat := true), occs); }
  }

  /** The counts tell which antecedent consists of nothing but the resolvent and the pivot. */
  lemma ResolventFacts(db: Db, i: nat, j: nat, x: int, r: Resolution)
    requires Clashing(db, i, j, x) && r.Resolvent? && ResolutionOk(db.units, db.clauses[i], db.clauses[j], x, r)
    requires IsResolvent(db, i, j, x, r.lits)
    ensures ClauseOk(r.lits) && !Mentions(r.lits, x) && !Mentions(r.lits, -x) && !Assigned(db.units, x) && !Assigned(db.units, -x)
    ensures r.s > |r.lits| ==> Lits(r.lits) == Actual(db.clauses[i], db.units) - {x}
    ensures r.t > |r.lits| ==> Lits(r.lits) == Actual(db.clauses[j], db.units) - {-x}
  {
    var first, second := Actual(db.clauses[i], db.units) - {x}, Actual(db.clauses[j], db.units) - {Opposite(x)};
    DistinctCount(r.lits);
    assert Opposite(-x) == x;
    assert first + second == second + first;
    if r.s > |r.lits| { NoLarger(first, second); }
    if r.t > |r.lits| { NoLarger(second, first); }
  }

  /** Assigns a unit resolvent, and propagates it if asked to. */
  method AssignResolvent(e: Eliminator, i: nat, x: int, j: nat, eager: bool, lits: seq<int>)
    requires e.Valid() && Clashing(e.State(), i, j, x) && !e.unsat && |lits| == 1
    requires IsResolvent(e.State(), i, j, x, lits) && Lits(lits) == Res(e.units, e.clauses[i], e.clauses[j], x)
    modifies e`garbage, e`units, e`unsat
    ensures e.Valid() && Resolved(old(e.State()), e.State(), i, j, x, false, [])
    ensures !eager ==> !Assigned(e.units, x) && e.State() == old(e.State()).(units := old(e.units) + {lits[0]})
    ensures eager ==> UnitPropagated(old(e.State()), e.State(), lits[0])
    ensures Handled(old(e.State()), e.State(), i, j, x, eager, false, [])
  {
    ghost var before := e.State();
    var unit := lits[0];
    assert unit in lits;
    e.units := e.units + {unit};
    ghost var middle := e.State();
    assert UnitsOk(e.units) by { UnitAdded(before.units, unit); }
    OccsKept(before, middle, e.occs);
    PropagatedRefl(middle);
    if eager {
      e.ElimPropagate(unit, before);
    }
    ShortResolved(before, e.State(), i, j, x, lits);
    UnitHandled(before, e.State(), i, j, x, lits, eager);
  }

  lemma Subsumed(a: Db, i: nat, j: nat, x: int, lits: seq<int>, strong: seq<int>, gone: set<nat>)
    requires Clashing(a, i, j, x) && IsResolvent(a, i, j, x, lits) && gone <= {i, j}
    requires Distinct(strong) && Lits(strong) == Lits(lits)
    requires i in gone ==> Lits(lits) <= Actual(a.clauses[i], a.units)
    requires j in gone ==> Lits(lits) <= Actual(a.clauses[j], a.units)
    ensures Resolved(a, Strengthening(a, strong, gone), i, j, x, false, [])
  {
    SameLits(a, i, j, x, lits, strong);
    forall k | k in gone ensures Lits(strong) <= Lits(a.clauses[k]) {
      assert Actual(a.clauses[k], a.units) <= Lits(a.clauses[k]);
    }
    SubsumedResolved(a, i, j, x, strong, gone);
  }

  /** Resolves two clauses, the shorter one first. */
  method ResolveClauses(e: Eliminator, i: nat, x: int, j: nat, eager: bool) returns (more: bool, lits: seq<int>, ghost r: Resolution)
    requires e.Valid() && Marking(e.marks, {}) && !e.unsat && x != 0 && !Assigned(e.units, x)
    requires i < |e.clauses| && j < |e.clauses| && x in e.clauses[i] && Opposite(x) in e.clauses[j]
    modifies e`clauses, e`garbage, e`units, e`unsat, e`occs, e`marks
    ensures e.Valid() && Marking(e.marks, {}) && Resolved(old(e.State()), e.State(), i, j, x, more, lits)
    ensures more ==> Clashing(old(e.State()), i, j, x)
    ensures !eager ==> !Assigned(e.units, x)
    ensures Handled(old(e.State()), e.State(), i, j, x, eager, more, lits)
    ensures Occ(e.occs, x) == Occ(old(e.occs), x) && Occ(e.occs, -x) == Occ(old(e.occs), -x)
    ensures ResolvedAs(old(e.State()), e.State(), i, x, j, r, eager)
  {
    hide DbOk, OccsOk, Marking, Evolves, Accounted, IsResolvent, ResolutionOk, Effect;
    ghost var before := e.State();
    r := Clash(0);
    if i in e.garbage || j in e.garbage {
      EvolvesRefl(before, x);
      return false, [], r;
    }
    assert Clashing(before, i, j, x);
    hide Resolved;
    if |e.clauses[i]| > |e.clauses[j]| {
      assert Opposite(-x) == x && - -x == x;
      more, lits, r := ResolveOrdered(e, j, -x, i, eager);
      ResolvedSwap(before, e.State(), i, j, x, more, lits);
      HandledSwap(before, e.State(), i, j, x, eager, more, lits);
    } else {
      more, lits, r := ResolveOrdered(e, i, x, j, eager);
    }
  }

  // ----- All resolvents ------------------------------------------------------------------------------

  /** With gates only gate clauses are resolved against non-gate clauses. */
  predicate Resolvable(sub: bool, gate: set<nat>, i: nat, j: nat)
  {
    !(sub && (i in gate <==> j in gate))
  }

  /** If the two clauses still count, every model of the rest satisfies their resolvent. */
  ghost predicate PairDone(db: Db, sub: bool, gate: set<nat>, i: nat, j: nat, x: int)
  {
    Live(db, i) && Live(db, j) && Resolvable(sub, gate, i, j) ==>
      forall s :: Rest(s, db, x) ==> ResolventTrue(s, db.clauses[i], db.clauses[j], x)
  }

  ghost predicate RowDone(db: Db, sub: bool, gate: set<nat>, i: nat, ns: seq<nat>, x: int)
  {
    forall b :: 0 <= b < |ns| ==> PairDone(db, sub, gate, i, ns[b], x)
  }

  ghost predicate AllDone(db: Db, sub: bool, gate: set<nat>, ps: seq<nat>, ns: seq<nat>, x: int)
  {
    forall a :: 0 <= a < |ps| ==> RowDone(db, sub, gate, ps[a], ns, x)
  }

  lemma PairKept(a: Db, b: Db, sub: bool, gate: set<nat>, i: nat, j: nat, x: int)
    requires Evolves(a, b, x) && !Assigned(b.units, x) && i < |a.clauses| && j < |a.clauses|
    requires PairDone(a, sub, gate, i, j, x)
    ensures PairDone(b, sub, gate, i, j, x)
  {
    if Live(b, i) && Live(b, j) && Resolvable(sub, gate, i, j) {
      forall s | Rest(s, b, x)
        ensures ResolventTrue(s, b.clauses[i], b.clauses[j], x)
      {
        RestBack(s, a, b, x);
        assert Live(a, i) && Live(a, j) && a.clauses[i] == b.clauses[i] && a.clauses[j] == b.clauses[j];
      }
    }
  }

  lemma RowKept(a: Db, b: Db, sub: bool, gate: set<nat>, i: nat, ns: seq<nat>, x: int)
    requires Evolves(a, b, x) && !Assigned(b.units, x) && i < |a.clauses| && forall k :: 0 <= k < |ns| ==> ns[k] < |a.clauses|
    requires RowDone(a, sub, gate, i, ns, x)
    ensures RowDone(b, sub, gate, i, ns, x)
  {
    forall k | 0 <= k < |ns| ensures PairDone(b, sub, gate, i, ns[k], x) {
      PairKept(a, b, sub, gate, i, ns[k], x);
    }
  }

  lemma AllKept(a: Db, b: Db, sub: bool, gate: set<nat>, ps: seq<nat>, ns: seq<nat>, x: int)
    requires Evolves(a, b, x) && !Assigned(b.units, x) && ListOk(a.clauses, ps, x) && ListOk(a.clauses, ns, -x)
    requires AllDone(a, sub, gate, ps, ns, x)
    ensures AllDone(b, sub, gate, ps, ns, x)
  {
    forall k | 0 <= k < |ps| ensures RowDone(b, sub, gate, ps[k], ns, x) {
      RowKept(a, b, sub, gate, ps[k], ns, x);
    }
  }

  lemma UnsatDone(db: Db, sub: bool, gate: set<nat>, ps: seq<nat>, ns: seq<nat>, x: int)
    requires db.unsat
    ensures AllDone(db, sub, gate, ps, ns, x) && forall i :: RowDone(db, sub, gate, i, ns, x)
  {
  }

  /** Resolves one pair and adds the resolvent if there is one to add. */
  method AddPair(e: Eliminator, i: nat, x: int, j: nat, sub: bool)
    requires e.Valid() && Marking(e.marks, {}) && !e.unsat && x != 0 && !Assigned(e.units, x)
    requires i < |e.clauses| && j < |e.clauses| && x in e.clauses[i] && Opposite(x) in e.clauses[j]
    modifies e`clauses, e`garbage, e`units, e`unsat, e`occs, e`marks
    ensures e.Valid() && Marking(e.marks, {}) && !Assigned(e.units, x)
    ensures Evolves(old(e.State()), e.State(), x) && PairDone(e.State(), sub, e.gate, i, j, x)
    ensures e.units == old(e.units) ==> Tidy(old(e.State()), e.State())
    ensures |e.clauses| <= |old(e.clauses)| || (|e.clauses| == |old(e.clauses)| + 1 && Resolvable(sub, e.gate, i, j) && !Dead(old(e.State()), i, j, x))
    ensures Occ(e.occs, x) == Occ(old(e.occs), x) && Occ(e.occs, -x) == Occ(old(e.occs), -x)
  {
    hide DbOk, OccsOk, Marking, Evolves, Resolved, IsResolvent, Tidy, Dead, Handled;
    ghost var before := e.State();
    EvolvesRefl(before, x);
    TidyRefl(before);
    if i in e.garbage || j in e.garbage || !Resolvable(sub, e.gate, i, j) {
      return;
    }
    var more, lits;
    ghost var r;
    more, lits, r := ResolveClauses(e, i, x, j, false);
    if more {
      ResolvedMore(before, e.State(), i, j, x, lits);
      AddedHandled(before, i, j, x, lits);
      e.NewClause(lits);
      AddedDone(before, i, j, x, lits, sub, e.gate);
    } else {
      ResolvedDone(before, e.State(), i, j, x, lits, sub, e.gate);
      NotAdded(before, e.State(), i, j, x, lits);
    }
  }

  lemma AddedHandled(a: Db, i: nat, j: nat, x: int, lits: seq<int>)
    requires i < |a.clauses| && j < |a.clauses| && IsResolvent(a, i, j, x, lits) && Handled(a, a, i, j, x, false, true, lits)
    ensures Tidy(a, a.(clauses := a.clauses + [lits])) && !Dead(a, i, j, x)
  {
    TidyAdded(a, [lits], {});
    assert a.garbage + {} == a.garbage;
  }

  lemma NotAdded(a: Db, b: Db, i: nat, j: nat, x: int, lits: seq<int>)
    requires i < |a.clauses| && j < |a.clauses| && Handled(a, b, i, j, x, false, false, lits)
    ensures (a.units == b.units ==> Tidy(a, b)) && |b.clauses| <= |a.clauses| + 1
    ensures |b.clauses| <= |a.clauses| || !Dead(a, i, j, x)
  {
  }

  /** A dead pair stays dead. */
  lemma DeadKept(a: Db, b: Db, i: nat, j: nat, x: int)
    requires Evolves(a, b, x) && Dead(a, i, j, x)
    ensures Dead(b, i, j, x)
  {
  }

  lemma ResolvedMore(a: Db, b: Db, i: nat, j: nat, x: int, lits: seq<int>)
    requires Resolved(a, b, i, j, x, true, lits) && Clashing(a, i, j, x)
    ensures a == b && IsResolvent(a, i, j, x, lits) && ClauseOk(lits) && lits != [] && x !in lits && -x !in lits
  {
    assert Opposite(x) == -x;
  }

  lemma ResolvedDone(a: Db, b: Db, i: nat, j: nat, x: int, lits: seq<int>, sub: bool, gate: set<nat>)
    requires Resolved(a, b, i, j, x, false, lits) && Clashing(a, i, j, x) && !Assigned(b.units, x)
    ensures Evolves(a, b, x) && PairDone(b, sub, gate, i, j, x)
  {
    assert a.clauses[i] == b.clauses[i] && a.clauses[j] == b.clauses[j];
  }

  lemma AddedDone(a: Db, i: nat, j: nat, x: int, lits: seq<int>, sub: bool, gate: set<nat>)
    requires Clashing(a, i, j, x) && IsResolvent(a, i, j, x, lits)
    ensures var b := a.(clauses := a.clauses + [lits]); Evolves(a, b, x) && PairDone(b, sub, gate, i, j, x)
  {
    assert a.garbage + {} == a.garbage;
    SubsumedResolved(a, i, j, x, lits, {});
    ResolvedDone(a, a.(clauses := a.clauses + [lits]), i, j, x, [], sub, gate);
  }

  /** Resolves one clause with all clauses on the other phase. */
  method AddRow(e: Eliminator, i: nat, x: int, ns: seq<nat>, sub: bool) returns (ghost row: seq<nat>)
    requires e.Valid() && Marking(e.marks, {}) && !e.unsat && x != 0 && !Assigned(e.units, x)
    requires i < |e.clauses| && x in e.clauses[i] && ListOk(e.clauses, ns, Opposite(x))
    modifies e`clauses, e`garbage, e`units, e`unsat, e`occs, e`marks
    ensures e.Valid() && Marking(e.marks, {}) && !Assigned(e.units, x)
    ensures Evolves(old(e.State()), e.State(), x) && RowDone(e.State(), sub, e.gate, i, ns, x)
    ensures e.units == old(e.units) ==> Tidy(old(e.State()), e.State())
    ensures |e.clauses| <= |old(e.clauses)| + |row| && RowAdded(old(e.State()), sub, e.gate, i, ns, x, row)
    ensures Occ(e.occs, x) == Occ(old(e.occs), x) && Occ(e.occs, -x) == Occ(old(e.occs), -x)
  {
    hide DbOk, OccsOk, Marking, Evolves, PairDone, Tidy, RowAdded, Dead;
    ghost var before := e.State();
    EvolvesRefl(before, x);
    TidyRefl(before);
    row := [];
    var k := 0;
    RowAddedNone(before, sub, e.gate, i, ns[..0], x);
    while k < |ns| && !e.unsat
      invariant 0 <= k <= |ns| && e.Valid() && Marking(e.marks, {}) && !Assigned(e.units, x)
      invariant Evolves(before, e.State(), x) && RowDone(e.State(), sub, e.gate, i, ns[..k], x)
      invariant e.units == before.units ==> Tidy(before, e.State())
      invariant |e.clauses| <= |before.clauses| + |row| && RowAdded(before, sub, e.gate, i, ns[..k], x, row)
      invariant Occ(e.occs, x) == Occ(old(e.occs), x) && Occ(e.occs, -x) == Occ(old(e.occs), -x)
    {
      hide RowDone;
      ghost var middle := e.State();
      StillThere(before, middle, x);
      assert ns[k] < |before.clauses| && Opposite(x) in before.clauses[ns[k]];
      AddPair(e, i, x, ns[k], sub);
      StillThere(middle, e.State(), x);
      if e.units == before.units { TidyTrans(before, middle, e.State()); }
      ghost var grown := |e.clauses| > |middle.clauses|;
      RowAddedStep(before, middle, sub, e.gate, i, ns, k, x, row, grown);
      row := if grown then row + [ns[k]] else row;
      EvolvesTrans(before, middle, e.State(), x);
      RowKept(middle, e.State(), sub, e.gate, i, ns[..k], x);
      RowExtended(e.State(), sub, e.gate, i, ns, k, x);
      k := k + 1;
    }
    RowAddedAll(before, sub, e.gate, i, ns, k, x, row);
    if k == |ns| {
      assert ns[..k] == ns;
    } else {
      UnsatDone(e.State(), sub, e.gate, [], ns, x);
    }
  }

  /** Clauses were added for these partners of i only, none of them twice, and all of them were to be resolved. */
  ghost predicate RowAdded(db: Db, sub: bool, gate: set<nat>, i: nat, ns: seq<nat>, x: int, row: seq<nat>)
  {
    Distinct(row) && forall k :: 0 <= k < |row| ==> row[k] in ns && Resolvable(sub, gate, i, row[k]) && !Dead(db, i, row[k], x)
  }

  lemma RowAddedNone(db: Db, sub: bool, gate: set<nat>, i: nat, ns: seq<nat>, x: int)
    ensures RowAdded(db, sub, gate, i, ns, x, [])
  {
  }

  lemma RowAddedStep(a: Db, b: Db, sub: bool, gate: set<nat>, i: nat, ns: seq<nat>, k: nat, x: int, row: seq<nat>, grown: bool)
    requires k < |ns| && RowAdded(a, sub, gate, i, ns[..k], x, row) && Distinct(ns) && Evolves(a, b, x)
    requires grown ==> Resolvable(sub, gate, i, ns[k]) && !Dead(b, i, ns[k], x)
    ensures RowAdded(a, sub, gate, i, ns[..k + 1], x, if grown then row + [ns[k]] else row)
  {
    assert ns[..k + 1] == ns[..k] + [ns[k]] && ns[k] !in ns[..k];
    if Dead(a, i, ns[k], x) { DeadKept(a, b, i, ns[k], x); }
  }

  lemma RowAddedAll(db: Db, sub: bool, gate: set<nat>, i: nat, ns: seq<nat>, k: nat, x: int, row: seq<nat>)
    requires k <= |ns| && RowAdded(db, sub, gate, i, ns[..k], x, row)
    ensures RowAdded(db, sub, gate, i, ns, x, row)
  {
  }

  lemma StillThere(a: Db, b: Db, x: int)
    requires Evolves(a, b, x)
    ensures a.clauses <= b.clauses && a.units <= b.units && (a.unsat ==> b.unsat)
  {
  }

  lemma RowExtended(db: Db, sub: bool, gate: set<nat>, i: nat, ns: seq<nat>, k: nat, x: int)
    requires k < |ns| && RowDone(db, sub, gate, i, ns[..k], x) && PairDone(db, sub, gate, i, ns[k], x)
    ensures RowDone(db, sub, gate, i, ns[..k + 1], x)
  {
    var more := ns[..k + 1];
    forall b | 0 <= b < |more| ensures PairDone(db, sub, gate, i, more[b], x) {
      if b < k { assert ns[..k][b] == more[b]; }
    }
  }

  /** Adds all resolvents on the pivot. */
  method AddResolvents(e: Eliminator, x: int) returns (ghost added: seq<(nat, nat)>)
    requires e.Valid() && Marking(e.marks, {}) && !e.unsat && x != 0 && !Assigned(e.units, x)
    modifies e`clauses, e`garbage, e`units, e`unsat, e`occs, e`marks
    ensures e.Valid() && Marking(e.marks, {}) && !Assigned(e.units, x)
    ensures Evolves(old(e.State()), e.State(), x)
    ensures AllDone(e.State(), e.gates != [], e.gate, Occ(e.occs, x), Occ(e.occs, -x), x)
    ensures Occ(e.occs, x) == Occ(old(e.occs), x) && Occ(e.occs, -x) == Occ(old(e.occs), -x)
    ensures e.units == old(e.units) ==> Tidy(old(e.State()), e.State())
    ensures |e.clauses| <= |old(e.clauses)| + |added|
    ensures AllAdded(old(e.State()), e.gates != [], e.gate, Occ(e.occs, x), Occ(e.occs, -x), x, added)
  {
    hide DbOk, Complete, Marking, Evolves, AllDone, Tidy, AllAdded;
    var sub := e.gates != [];
    ghost var before := e.State();
    EvolvesRefl(before, x);
    var ps, ns := Occ(e.occs, x), Occ(e.occs, -x);
    assert ListOk(e.clauses, ps, x) && ListOk(e.clauses, ns, -x);
    hide OccsOk;
    NoneDone(e.State(), sub, e.gate, ns, x);
    TidyRefl(before);
    added := [];
    var k := 0;
    assert ps[..k] == [];
    AllAddedNone(before, sub, e.gate, ns, x);
    while k < |ps| && !e.unsat
      invariant 0 <= k <= |ps| && e.Valid() && Marking(e.marks, {}) && !Assigned(e.units, x)
      invariant ListOk(e.clauses, ps, x) && ListOk(e.clauses, ns, -x)
      invariant Evolves(before, e.State(), x) && AllDone(e.State(), sub, e.gate, ps[..k], ns, x)
      invariant Occ(e.occs, x) == ps && Occ(e.occs, -x) == ns
      invariant e.units == before.units ==> Tidy(before, e.State())
      invariant |e.clauses| <= |before.clauses| + |added| && AllAdded(before, sub, e.gate, ps[..k], ns, x, added)
    {
      added := AddRowToAll(e, x, ps, ns, k, sub, before, added);
      k := k + 1;
    }
    AllAddedAll(before, sub, e.gate, ps, ns, k, x, added);
    if k == |ps| {
      assert ps[..k] == ps;
    } else {
      UnsatDone(e.State(), sub, e.gate, ps, ns, x);
    }
  }

  lemma NoneDone(db: Db, sub: bool, gate: set<nat>, ns: seq<nat>, x: int)
    ensures AllDone(db, sub, gate, [], ns, x)
  {
  }

  /** One more row on top of the first k. */
  method AddRowToAll(e: Eliminator, x: int, ps: seq<nat>, ns: seq<nat>, k: nat, sub: bool, ghost before: Db,
                     ghost added: seq<(nat, nat)>) returns (ghost added': seq<(nat, nat)>)
    requires e.Valid() && Marking(e.marks, {}) && !e.unsat && x != 0 && !Assigned(e.units, x) && k < |ps|
    requires ListOk(e.clauses, ps, x) && ListOk(e.clauses, ns, -x)
    requires Evolves(before, e.State(), x) && AllDone(e.State(), sub, e.gate, ps[..k], ns, x)
    requires e.units == before.units ==> Tidy(before, e.State())
    requires |e.clauses| <= |before.clauses| + |added| && AllAdded(before, sub, e.gate, ps[..k], ns, x, added)
    modifies e`clauses, e`garbage, e`units, e`unsat, e`occs, e`marks
    ensures e.Valid() && Marking(e.marks, {}) && !Assigned(e.units, x)
    ensures ListOk(e.clauses, ps, x) && ListOk(e.clauses, ns, -x)
    ensures Evolves(before, e.State(), x) && AllDone(e.State(), sub, e.gate, ps[..k + 1], ns, x)
    ensures e.units == before.units ==> Tidy(before, e.State())
    ensures |e.clauses| <= |before.clauses| + |added'| && AllAdded(before, sub, e.gate, ps[..k + 1], ns, x, added')
    ensures Occ(e.occs, x) == Occ(old(e.occs), x) && Occ(e.occs, -x) == Occ(old(e.occs), -x)
  {
    hide DbOk, OccsOk, Marking, Evolves, RowDone, AllDone, Tidy, RowAdded, AllAdded;
    assert Opposite(x) == -x && ListOk(e.clauses, ps[..k], x);
    ghost var middle := e.State();
    StillThere(before, middle, x);
    ghost var row := AddRow(e, ps[k], x, ns, sub);
    StillThere(middle, e.State(), x);
    if e.units == before.units { TidyTrans(before, middle, e.State()); }
    added' := added + Paired(ps[k], row);
    AllAddedStep(before, middle, sub, e.gate, ps, ns, k, x, added, row);
    ListKept(middle.clauses, e.clauses, ns, -x);
    ListKept(middle.clauses, e.clauses, ps, x);
    EvolvesTrans(before, middle, e.State(), x);
    AllKept(middle, e.State(), sub, e.gate, ps[..k], ns, x);
    AllExtended(e.State(), sub, e.gate, ps, ns, k, x);
  }

  function Paired(i: nat, row: seq<nat>): (r: seq<(nat, nat)>)
    ensures |r| == |row|
  {
    seq(|row|, k requires 0 <= k < |row| => (i, row[k]))
  }

  predicate DistinctPairs(added: seq<(nat, nat)>)
  {
    forall a, b :: 0 <= a < b < |added| ==> added[a] != added[b]
  }

  /** Clauses were added for these pairs only, none of them twice, and all of them were to be resolved. */
  ghost predicate AllAdded(db: Db, sub: bool, gate: set<nat>, ps: seq<nat>, ns: seq<nat>, x: int, added: seq<(nat, nat)>)
  {
    DistinctPairs(added) && forall k :: 0 <= k < |added| ==>
      added[k].0 in ps && added[k].1 in ns && Resolvable(sub, gate, added[k].0, added[k].1) && !Dead(db, added[k].0, added[k].1, x)
  }

  lemma AllAddedNone(db: Db, sub: bool, gate: set<nat>, ns: seq<nat>, x: int)
    ensures AllAdded(db, sub, gate, [], ns, x, [])
  {
  }

  lemma AllAddedAll(db: Db, sub: bool, gate: set<nat>, ps: seq<nat>, ns: seq<nat>, k: nat, x: int, added: seq<(nat, nat)>)
    requires k <= |ps| && AllAdded(db, sub, gate, ps[..k], ns, x, added)
    ensures AllAdded(db, sub, gate, ps, ns, x, added)
  {
  }

  lemma AllAddedStep(a: Db, b: Db, sub: bool, gate: set<nat>, ps: seq<nat>, ns: seq<nat>, k: nat, x: int,
                     added: seq<(nat, nat)>, row: seq<nat>)
    requires k < |ps| && AllAdded(a, sub, gate, ps[..k], ns, x, added) && Distinct(ps) && Evolves(a, b, x)
    requires RowAdded(b, sub, gate, ps[k], ns, x, row)
    ensures AllAdded(a, sub, gate, ps[..k + 1], ns, x, added + Paired(ps[k], row))
  {
    assert ps[..k + 1] == ps[..k] + [ps[k]] && ps[k] !in ps[..k];
    var all := added + Paired(ps[k], row);
    forall m | 0 <= m < |all|
      ensures all[m].0 in ps[..k + 1] && all[m].1 in ns && Resolvable(sub, gate, all[m].0, all[m].1) && !Dead(a, all[m].0, all[m].1, x)
    {
      if m >= |added| {
        var j := row[m - |added|];
        assert all[m] == (ps[k], j) && !Dead(b, ps[k], j, x);
        if Dead(a, ps[k], j, x) { DeadKept(a, b, ps[k], j, x); }
      }
    }
    forall m, n | 0 <= m < n < |all|
      ensures all[m] != all[n]
    {
      if m < |added| <= n {
        assert added[m].0 in ps[..k];
      } else if |added| <= m {
        assert row[m - |added|] != row[n - |added|];
      }
    }
  }

  lemma ListKept(a: seq<Clause>, b: seq<Clause>, os: seq<nat>, l: int)
    requires a <= b && ListOk(a, os, l)
    ensures ListOk(b, os, l)
  {
  }

  lemma AllExtended(db: Db, sub: bool, gate: set<nat>, ps: seq<nat>, ns: seq<nat>, k: nat, x: int)
    requires k < |ps| && AllDone(db, sub, gate, ps[..k], ns, x) && RowDone(db, sub, gate, ps[k], ns, x)
    ensures AllDone(db, sub, gate, ps[..k + 1], ns, x)
  {
    var more := ps[..k + 1];
    forall a | 0 <= a < |more| ensures RowDone(db, sub, gate, more[a], ns, x) {
      if a < k { assert ps[..k][a] == more[a]; }
    }
  }

  // ----- Counting resolvents -------------------------------------------------------------------------

  /** The pair need not be resolved, or it was counted and its resolvent is small enough. */
  ghost predicate PairBounded(db: Db, sub: bool, gate: set<nat>, i: nat, j: nat, x: int, counted: seq<(nat, nat)>, clslim: int)
  {
    i < |db.clauses| && j < |db.clauses| &&
    (!Resolvable(sub, gate, i, j) || Dead(db, i, j, x) ||
     ((i, j) in counted && |Res(db.units, db.clauses[i], db.clauses[j], x)| <= clslim))
  }

  ghost predicate RowBounded(db: Db, sub: bool, gate: set<nat>, i: nat, ns: seq<nat>, x: int, counted: seq<(nat, nat)>, clslim: int)
  {
    forall b :: 0 <= b < |ns| ==> PairBounded(db, sub, gate, i, ns[b], x, counted, clslim)
  }

  ghost predicate AllBounded(db: Db, sub: bool, gate: set<nat>, ps: seq<nat>, ns: seq<nat>, x: int, counted: seq<(nat, nat)>, clslim: int)
  {
    forall a :: 0 <= a < |ps| ==> RowBounded(db, sub, gate, ps[a], ns, x, counted, clslim)
  }

  lemma SubsetCount(a: set<int>, b: set<int>)
    requires a <= b
    ensures |a| <= |b|
  {
    assert b == a + (b - a);
  }

  lemma PairBoundedKept(a: Db, b: Db, sub: bool, gate: set<nat>, i: nat, j: nat, x: int, counted: seq<(nat, nat)>,
                        more: seq<(nat, nat)>, clslim: int)
    requires Evolves(a, b, x) && counted <= more && PairBounded(a, sub, gate, i, j, x, counted, clslim)
    ensures PairBounded(b, sub, gate, i, j, x, more, clslim)
  {
    if Dead(a, i, j, x) {
      DeadKept(a, b, i, j, x);
    } else if Resolvable(sub, gate, i, j) {
      SubsetCount(Res(b.units, b.clauses[i], b.clauses[j], x), Res(a.units, a.clauses[i], a.clauses[j], x));
    }
  }

  lemma RowBoundedKept(a: Db, b: Db, sub: bool, gate: set<nat>, i: nat, ns: seq<nat>, x: int, counted: seq<(nat, nat)>,
                       more: seq<(nat, nat)>, clslim: int)
    requires Evolves(a, b, x) && counted <= more && RowBounded(a, sub, gate, i, ns, x, counted, clslim)
    ensures RowBounded(b, sub, gate, i, ns, x, more, clslim)
  {
    forall k | 0 <= k < |ns| ensures PairBounded(b, sub, gate, i, ns[k], x, more, clslim) {
      PairBoundedKept(a, b, sub, gate, i, ns[k], x, counted, more, clslim);
    }
  }

  lemma AllBoundedStep(a: Db, b: Db, sub: bool, gate: set<nat>, ps: seq<nat>, ns: seq<nat>, k: nat, x: int,
                       counted: seq<(nat, nat)>, more: seq<(nat, nat)>, clslim: int)
    requires Evolves(a, b, x) && counted <= more && k < |ps| && AllBounded(a, sub, gate, ps[..k], ns, x, counted, clslim)
    requires RowBounded(b, sub, gate, ps[k], ns, x, more, clslim)
    ensures AllBounded(b, sub, gate, ps[..k + 1], ns, x, more, clslim)
  {
    var front := ps[..k + 1];
    forall m | 0 <= m < |front| ensures RowBounded(b, sub, gate, front[m], ns, x, more, clslim) {
      if m < k {
        assert ps[..k][m] == front[m];
        RowBoundedKept(a, b, sub, gate, front[m], ns, x, counted, more, clslim);
      }
    }
  }

  lemma RowBoundedStep(a: Db, b: Db, sub: bool, gate: set<nat>, i: nat, ns: seq<nat>, k: nat, x: int,
                       counted: seq<(nat, nat)>, more: seq<(nat, nat)>, clslim: int)
    requires Evolves(a, b, x) && counted <= more && k < |ns| && RowBounded(a, sub, gate, i, ns[..k], x, counted, clslim)
    requires PairBounded(b, sub, gate, i, ns[k], x, more, clslim)
    ensures RowBounded(b, sub, gate, i, ns[..k + 1], x, more, clslim)
  {
    RowBoundedKept(a, b, sub, gate, i, ns[..k], x, counted, more, clslim);
    var front := ns[..k + 1];
    forall m | 0 <= m < |front| ensures PairBounded(b, sub, gate, i, front[m], x, more, clslim) {
      if m < k { assert ns[..k][m] == front[m]; }
    }
  }

  /** More resolvents were counted than the bound allows, or the last one is too large. */
  ghost predicate Exceeded(db: Db, x: int, counted: seq<(nat, nat)>, bound: int, clslim: int)
  {
    counted != [] && (|counted| > bound || TooLarge(db, counted[|counted| - 1], x, clslim))
  }

  ghost predicate TooLarge(db: Db, pair: (nat, nat), x: int, clslim: int)
  {
    pair.0 < |db.clauses| && pair.1 < |db.clauses| && |Res(db.units, db.clauses[pair.0], db.clauses[pair.1], x)| > clslim
  }

  lemma PairedStep(i: nat, row: seq<nat>, j: nat)
    ensures Paired(i, row + [j]) == Paired(i, row) + [(i, j)]
  {
  }

  lemma ListDistinct(clauses: seq<Clause>, os: seq<nat>, l: int)
    requires ListOk(clauses, os, l)
    ensures Distinct(os)
  {
  }

  /** Resolves all pairs without adding anything, and stops when there are too many or too large resolvents. The pairs
      counted are different and had to be resolved to begin with. If the answer is positive, all pairs that still have to
      be resolved were counted, within the bound, and their resolvents are small enough. Otherwise the variable got a
      value, the formula was refuted, or a limit is exceeded. */
  method ResolventsAreBounded(e: Eliminator, x: int, elimbound: int, clslim: int) returns (bounded: bool, ghost counted: seq<(nat, nat)>)
    requires e.Valid() && Marking(e.marks, {}) && !e.unsat && x != 0 && !Assigned(e.units, x)
    modifies e`clauses, e`garbage, e`units, e`unsat, e`occs, e`marks
    ensures e.Valid() && Marking(e.marks, {}) && Evolves(old(e.State()), e.State(), x) && Tidy(old(e.State()), e.State())
    ensures Occ(e.occs, x) == Occ(old(e.occs), x) && Occ(e.occs, -x) == Occ(old(e.occs), -x)
    ensures bounded ==> !e.unsat && !Assigned(e.units, x)
    ensures bounded ==> |counted| == 0 || |counted| <= |Occ(e.occs, x)| + |Occ(e.occs, -x)| + elimbound
    ensures bounded && (Occ(e.occs, x) == [] || Occ(e.occs, -x) == []) ==> elimbound >= 0
    ensures bounded ==> AllBounded(e.State(), e.gates != [], e.gate, Occ(e.occs, x), Occ(e.occs, -x), x, counted, clslim)
    ensures AllAdded(old(e.State()), e.gates != [], e.gate, Occ(e.occs, x), Occ(e.occs, -x), x, counted)
    ensures bounded || e.unsat || Assigned(e.units, x) || (elimbound < 0 && (Occ(e.occs, x) == [] || Occ(e.occs, -x) == [])) ||
            Exceeded(e.State(), x, counted, |Occ(e.occs, x)| + |Occ(e.occs, -x)| + elimbound, clslim)
  {
    hide DbOk, OccsOk, Marking, Evolves, Tidy, AllBounded, ListOk, AllAdded, Exceeded;
    var sub := e.gates != [];
    ghost var before := e.State();
    EvolvesRefl(before, x);
    TidyRefl(before);
    var ps, ns := Occ(e.occs, x), Occ(e.occs, -x);
    OneList(before, e.occs, x);
    OneList(before, e.occs, -x);
    if ps == [] || ns == [] {
      NothingBounded(before, sub, e.gate, ps, ns, x, clslim);
      AllAddedNone(before, sub, e.gate, ns, x);
      assert ps[..0] == [];
      AllAddedAll(before, sub, e.gate, ps, ns, 0, x, []);
      return elimbound >= 0, [];
    }
    bounded, counted := CountAll(e, x, ps, ns, sub, |ps| + |ns| + elimbound, clslim);
  }

  /** Counts row by row. */
  method CountAll(e: Eliminator, x: int, ps: seq<nat>, ns: seq<nat>, sub: bool, bound: int, clslim: int)
    returns (ok: bool, ghost counted: seq<(nat, nat)>)
    requires e.Valid() && Marking(e.marks, {}) && !e.unsat && x != 0 && !Assigned(e.units, x)
    requires ListOk(e.clauses, ps, x) && ListOk(e.clauses, ns, -x) && ps == Occ(e.occs, x) && ns == Occ(e.occs, -x)
    modifies e`clauses, e`garbage, e`units, e`unsat, e`occs, e`marks
    ensures e.Valid() && Marking(e.marks, {}) && Evolves(old(e.State()), e.State(), x) && Tidy(old(e.State()), e.State())
    ensures Occ(e.occs, x) == ps && Occ(e.occs, -x) == ns
    ensures ok ==> !e.unsat && !Assigned(e.units, x) && (|counted| == 0 || |counted| <= bound)
    ensures ok ==> AllBounded(e.State(), sub, e.gate, ps, ns, x, counted, clslim)
    ensures AllAdded(old(e.State()), sub, e.gate, ps, ns, x, counted)
    ensures ok || e.unsat || Assigned(e.units, x) || Exceeded(e.State(), x, counted, bound, clslim)
  {
    hide DbOk, OccsOk, Marking, Evolves, Tidy, AllBounded, ListOk, AllAdded, Exceeded;
    ghost var before := e.State();
    EvolvesRefl(before, x);
    TidyRefl(before);
    counted := [];
    assert ps[..0] == [];
    NothingBounded(before, sub, e.gate, [], ns, x, clslim);
    AllAddedNone(before, sub, e.gate, ns, x);
    var resolvents := 0;
    var k := 0;
    while k < |ps|
      invariant 0 <= k <= |ps| && e.Valid() && Marking(e.marks, {}) && !e.unsat && !Assigned(e.units, x)
      invariant Evolves(before, e.State(), x) && Tidy(before, e.State())
      invariant Occ(e.occs, x) == ps && Occ(e.occs, -x) == ns
      invariant |counted| == resolvents && (resolvents == 0 || resolvents <= bound)
      invariant AllBounded(e.State(), sub, e.gate, ps[..k], ns, x, counted, clslim)
      invariant AllAdded(before, sub, e.gate, ps[..k], ns, x, counted)
    {
      ok, resolvents, counted := CountNext(e, x, ps, ns, k, sub, bound, clslim, resolvents, before, counted);
      if !ok {
        AllAddedAll(before, sub, e.gate, ps, ns, k + 1, x, counted);
        return;
      }
      k := k + 1;
    }
    assert ps[..k] == ps;
    ok := true;
  }

  /** One more row on top of the first k. */
  method CountNext(e: Eliminator, x: int, ps: seq<nat>, ns: seq<nat>, k: nat, sub: bool, bound: int, clslim: int, count: nat,
                   ghost before: Db, ghost counted: seq<(nat, nat)>) returns (ok: bool, count': nat, ghost counted': seq<(nat, nat)>)
    requires e.Valid() && Marking(e.marks, {}) && !e.unsat && x != 0 && !Assigned(e.units, x) && k < |ps|
    requires ListOk(before.clauses, ps, x) && ListOk(before.clauses, ns, -x)
    requires Evolves(before, e.State(), x) && Tidy(before, e.State())
    requires |counted| == count && (count == 0 || count <= bound) && AllBounded(e.State(), sub, e.gate, ps[..k], ns, x, counted, clslim)
    requires AllAdded(before, sub, e.gate, ps[..k], ns, x, counted)
    modifies e`clauses, e`garbage, e`units, e`unsat, e`occs, e`marks
    ensures e.Valid() && Marking(e.marks, {}) && Evolves(before, e.State(), x) && Tidy(before, e.State())
    ensures Occ(e.occs, x) == Occ(old(e.occs), x) && Occ(e.occs, -x) == Occ(old(e.occs), -x) && |counted'| == count'
    ensures ok ==> !e.unsat && !Assigned(e.units, x) && (count' == 0 || count' <= bound)
    ensures ok ==> AllBounded(e.State(), sub, e.gate, ps[..k + 1], ns, x, counted', clslim)
    ensures AllAdded(before, sub, e.gate, ps[..k + 1], ns, x, counted')
    ensures ok || e.unsat || Assigned(e.units, x) || Exceeded(e.State(), x, counted', bound, clslim)
  {
    hide DbOk, OccsOk, Marking, Evolves, Tidy, AllBounded, RowBounded, ListOk, AllAdded, RowAdded, Exceeded, Paired, Distinct;
    ghost var middle := e.State();
    StillThere(before, middle, x);
    ListKept(before.clauses, e.clauses, ps, x);
    ListKept(before.clauses, e.clauses, ns, -x);
    ListMember(e.clauses, ps, x, k);
    ListDistinct(e.clauses, ps, x);
    ghost var row;
    ok, count', counted', row := CountRow(e, ps[k], x, ns, sub, bound, clslim, count, counted);
    AllAddedStep(before, middle, sub, e.gate, ps, ns, k, x, counted, row);
    StillThere(middle, e.State(), x);
    EvolvesTrans(before, middle, e.State(), x);
    TidyTrans(before, middle, e.State());
    if ok {
      AllBoundedStep(middle, e.State(), sub, e.gate, ps, ns, k, x, counted, counted', clslim);
    }
  }

  lemma ListMember(clauses: seq<Clause>, os: seq<nat>, l: int, k: nat)
    requires ListOk(clauses, os, l) && k < |os|
    ensures os[k] < |clauses| && l in clauses[os[k]]
  {
  }

  lemma NothingBounded(db: Db, sub: bool, gate: set<nat>, ps: seq<nat>, ns: seq<nat>, x: int, clslim: int)
    requires ps == [] || ns == []
    ensures AllBounded(db, sub, gate, ps, ns, x, [], clslim)
  {
  }

  /** Resolves one clause with all clauses on the other phase, and counts. */
  method CountRow(e: Eliminator, i: nat, x: int, ns: seq<nat>, sub: bool, bound: int, clslim: int, count: nat,
                  ghost counted: seq<(nat, nat)>)
    returns (ok: bool, count': nat, ghost counted': seq<(nat, nat)>, ghost row: seq<nat>)
    requires e.Valid() && Marking(e.marks, {}) && !e.unsat && x != 0 && !Assigned(e.units, x)
    requires i < |e.clauses| && x in e.clauses[i] && ListOk(e.clauses, ns, -x)
    requires |counted| == count && (count == 0 || count <= bound)
    modifies e`clauses, e`garbage, e`units, e`unsat, e`occs, e`marks
    ensures e.Valid() && Marking(e.marks, {}) && Evolves(old(e.State()), e.State(), x) && Tidy(old(e.State()), e.State())
    ensures Occ(e.occs, x) == Occ(old(e.occs), x) && Occ(e.occs, -x) == Occ(old(e.occs), -x)
    ensures counted' == counted + Paired(i, row) && |counted'| == count'
    ensures ok ==> !e.unsat && !Assigned(e.units, x) && (count' == 0 || count' <= bound)
    ensures ok ==> RowBounded(e.State(), sub, e.gate, i, ns, x, counted', clslim)
    ensures RowAdded(old(e.State()), sub, e.gate, i, ns, x, row)
    ensures ok || e.unsat || Assigned(e.units, x) || Exceeded(e.State(), x, counted', bound, clslim)
  {
    hide DbOk, OccsOk, Marking, Evolves, Tidy, PairBounded, ListOk, RowAdded, Paired, Exceeded, Distinct;
    ghost var before := e.State();
    EvolvesRefl(before, x);
    TidyRefl(before);
    ListDistinct(e.clauses, ns, -x);
    count', counted', row := count, counted, [];
    RowAddedNone(before, sub, e.gate, i, ns[..0], x);
    var m := 0;
    while m < |ns|
      invariant 0 <= m <= |ns| && e.Valid() && Marking(e.marks, {}) && !e.unsat && !Assigned(e.units, x)
      invariant Evolves(before, e.State(), x) && Tidy(before, e.State())
      invariant Occ(e.occs, x) == Occ(old(e.occs), x) && Occ(e.occs, -x) == Occ(old(e.occs), -x)
      invariant counted' == counted + Paired(i, row) && |counted'| == count' && (count' == 0 || count' <= bound)
      invariant RowBounded(e.State(), sub, e.gate, i, ns[..m], x, counted', clslim)
      invariant RowAdded(before, sub, e.gate, i, ns[..m], x, row)
    {
      hide RowBounded;
      StillThere(before, e.State(), x);
      ListMember(before.clauses, ns, -x, m);
      ghost var was, rowWas := counted', row;
      ok, count', counted', row := CountAt(e, i, x, ns, m, sub, bound, clslim, count', before, counted', row);
      PairedGrows(i, rowWas, row, ns[m], counted, was, counted');
      if !ok {
        RowAddedAll(before, sub, e.gate, i, ns, m + 1, x, row);
        return;
      }
      m := m + 1;
    }
    assert ns[..m] == ns;
    ok := true;
  }

  lemma PairedGrows(i: nat, row: seq<nat>, row': seq<nat>, j: nat, counted: seq<(nat, nat)>, was: seq<(nat, nat)>, now: seq<(nat, nat)>)
    requires was == counted + Paired(i, row)
    requires (now == was && row' == row) || (now == was + [(i, j)] && row' == row + [j])
    ensures now == counted + Paired(i, row')
  {
    PairedStep(i, row, j);
  }

  /** One more partner on top of the first m. */
  method CountAt(e: Eliminator, i: nat, x: int, ns: seq<nat>, m: nat, sub: bool, bound: int, clslim: int, count: nat,
                 ghost before: Db, ghost counted: seq<(nat, nat)>, ghost row: seq<nat>)
    returns (ok: bool, count': nat, ghost counted': seq<(nat, nat)>, ghost row': seq<nat>)
    requires e.Valid() && Marking(e.marks, {}) && !e.unsat && x != 0 && !Assigned(e.units, x) && m < |ns| && Distinct(ns)
    requires i < |e.clauses| && x in e.clauses[i] && ns[m] < |e.clauses| && -x in e.clauses[ns[m]]
    requires Evolves(before, e.State(), x) && Tidy(before, e.State())
    requires |counted| == count && (count == 0 || count <= bound)
    requires RowBounded(e.State(), sub, e.gate, i, ns[..m], x, counted, clslim) && RowAdded(before, sub, e.gate, i, ns[..m], x, row)
    modifies e`clauses, e`garbage, e`units, e`unsat, e`occs, e`marks
    ensures e.Valid() && Marking(e.marks, {}) && Evolves(before, e.State(), x) && Tidy(before, e.State())
    ensures Occ(e.occs, x) == Occ(old(e.occs), x) && Occ(e.occs, -x) == Occ(old(e.occs), -x) && |counted'| == count'
    ensures (counted' == counted && row' == row) || (counted' == counted + [(i, ns[m])] && row' == row + [ns[m]])
    ensures ok ==> !e.unsat && !Assigned(e.units, x) && (count' == 0 || count' <= bound)
    ensures ok ==> RowBounded(e.State(), sub, e.gate, i, ns[..m + 1], x, counted', clslim)
    ensures RowAdded(before, sub, e.gate, i, ns[..m + 1], x, row')
    ensures ok || e.unsat || Assigned(e.units, x) || Exceeded(e.State(), x, counted', bound, clslim)
  {
    hide DbOk, OccsOk, Marking, Evolves, Tidy, PairBounded, RowBounded, RowAdded, Distinct, Dead, Res;
    ghost var middle := e.State();
    var more, size := CountPair(e, i, x, ns[m], sub, clslim);
    StillThere(middle, e.State(), x);
    EvolvesTrans(before, middle, e.State(), x);
    TidyTrans(before, middle, e.State());
    RowAddedStep(before, middle, sub, e.gate, i, ns, m, x, row, more);
    ok, count', counted', row' := true, count, counted, row;
    if more {
      count', counted', row' := count + 1, counted + [(i, ns[m])], row + [ns[m]];
      if size > clslim || count' > bound {
        ok := false;
        return;
      }
    } else if e.unsat || Assigned(e.units, x) {
      ok := false;
      return;
    }
    PairNow(e.State(), sub, e.gate, i, ns[m], x, counted, counted', clslim, more);
    RowBoundedStep(middle, e.State(), sub, e.gate, i, ns, m, x, counted, counted', clslim);
  }

  /** Resolves one pair if it has to be resolved. */
  method CountPair(e: Eliminator, i: nat, x: int, j: nat, sub: bool, ghost clslim: int) returns (more: bool, size: nat)
    requires e.Valid() && Marking(e.marks, {}) && !e.unsat && x != 0 && !Assigned(e.units, x)
    requires i < |e.clauses| && j < |e.clauses| && x in e.clauses[i] && -x in e.clauses[j]
    modifies e`clauses, e`garbage, e`units, e`unsat, e`occs, e`marks
    ensures e.Valid() && Marking(e.marks, {}) && Evolves(old(e.State()), e.State(), x) && Tidy(old(e.State()), e.State())
    ensures Occ(e.occs, x) == Occ(old(e.occs), x) && Occ(e.occs, -x) == Occ(old(e.occs), -x)
    ensures i < |e.clauses| && j < |e.clauses|
    ensures more ==> Resolvable(sub, e.gate, i, j) && !Dead(old(e.State()), i, j, x)
    ensures more ==> !e.unsat && !Assigned(e.units, x) && size == |Res(e.units, e.clauses[i], e.clauses[j], x)|
    ensures !more ==> e.unsat || Assigned(e.units, x) || !Resolvable(sub, e.gate, i, j) || Dead(e.State(), i, j, x)
  {
    hide DbOk, OccsOk, Marking, Evolves, Tidy, Handled, Resolved;
    ghost var before := e.State();
    EvolvesRefl(before, x);
    TidyRefl(before);
    if i in e.garbage || j in e.garbage || !Resolvable(sub, e.gate, i, j) {
      return false, 0;
    }
    assert Opposite(x) == -x;
    hide Dead;
    var lits;
    ghost var r;
    more, lits, r := ResolveClauses(e, i, x, j, true);
    size := |lits|;
    ResolvedEvolves(before, e.State(), i, j, x, more, lits);
    StillThere(before, e.State(), x);
    HandledFacts(before, e.State(), i, j, x, more, lits);
  }

  lemma HandledFacts(a: Db, b: Db, i: nat, j: nat, x: int, more: bool, lits: seq<int>)
    requires i < |a.clauses| && j < |a.clauses| && Handled(a, b, i, j, x, true, more, lits)
    ensures Tidy(a, b) && (more ==> !Dead(a, i, j, x))
    ensures if more then |lits| == |Res(a.units, a.clauses[i], a.clauses[j], x)| else b.unsat || Assigned(b.units, x) || Dead(b, i, j, x)
  {
    if more { DistinctCount(lits); }
  }

  lemma PairNow(db: Db, sub: bool, gate: set<nat>, i: nat, j: nat, x: int, was: seq<(nat, nat)>, counted: seq<(nat, nat)>,
                clslim: int, more: bool)
    requires i < |db.clauses| && j < |db.clauses| && counted == if more then was + [(i, j)] else was
    requires if more then |Res(db.units, db.clauses[i], db.clauses[j], x)| <= clslim
             else !Resolvable(sub, gate, i, j) || Dead(db, i, j, x)
    ensures PairBounded(db, sub, gate, i, j, x, counted, clslim)
  {
    if more { assert counted[|was|] == (i, j); }
  }

  /** No more clauses are added than pairs were counted. */
  lemma AddedWithin(db: Db, sub: bool, gate: set<nat>, ps: seq<nat>, ns: seq<nat>, x: int, added: seq<(nat, nat)>,
                    counted: seq<(nat, nat)>, clslim: int)
    requires AllAdded(db, sub, gate, ps, ns, x, added) && AllBounded(db, sub, gate, ps, ns, x, counted, clslim)
    ensures |added| <= |counted|
  {
    forall k | 0 <= k < |added| ensures added[k] in counted {
      var a :| 0 <= a < |ps| && ps[a] == added[k].0;
      var b :| 0 <= b < |ns| && ns[b] == added[k].1;
      assert RowBounded(db, sub, gate, ps[a], ns, x, counted, clslim);
      assert PairBounded(db, sub, gate, ps[a], ns[b], x, counted, clslim);
    }
    PairsCount(added, set k | 0 <= k < |counted| :: counted[k]);
    PairSetCount(counted);
  }

  lemma {:induction false} PairsCount(added: seq<(nat, nat)>, all: set<(nat, nat)>)
    requires DistinctPairs(added) && forall k :: 0 <= k < |added| ==> added[k] in all
    ensures |added| <= |all|
  {
    if added != [] {
      var n := |added| - 1;
      PairsCount(added[..n], all - {added[n]});
    }
  }

  lemma {:induction false} PairSetCount(counted: seq<(nat, nat)>)
    ensures |set k | 0 <= k < |counted| :: counted[k]| <= |counted|
  {
    if counted != [] {
      var n := |counted| - 1;
      PairSetCount(counted[..n]);
      var front := set k | 0 <= k < n :: counted[..n][k];
      assert (set k | 0 <= k < |counted| :: counted[k]) == front + {counted[n]};
    }
  }

  lemma ResolvedEvolves(a: Db, b: Db, i: nat, j: nat, x: int, more: bool, lits: seq<int>)
    requires Resolved(a, b, i, j, x, more, lits)
    ensures Evolves(a, b, x) && (more && Clashing(a, i, j, x) ==> a == b)
  {
  }

  // ----- Removing the clauses of the eliminated variable ---------------------------------------------

  predicate Pushed(sub: bool, gate: set<nat>, i: nat)
  {
    !sub || i in gate
  }

  /** The clauses of the list that are live and pushed on the extension stack, or live and not pushed. */
  function Chosen(db: Db, os: seq<nat>, sub: bool, gate: set<nat>, pushed: bool): seq<Clause>
  {
    if os == [] then []
    else
      var i := os[|os| - 1];
      Chosen(db, os[..|os| - 1], sub, gate, pushed) +
      if Live(db, i) && Pushed(sub, gate, i) == pushed then [db.clauses[i]] else []
  }

  lemma {:induction false} ChosenFacts(db: Db, os: seq<nat>, sub: bool, gate: set<nat>, pushed: bool, l: int)
    requires ListOk(db.clauses, os, l) && DbOk(db)
    ensures AllOn(Chosen(db, os, sub, gate, pushed), l)
    ensures forall k :: 0 <= k < |os| && Live(db, os[k]) && Pushed(sub, gate, os[k]) == pushed ==>
              db.clauses[os[k]] in Chosen(db, os, sub, gate, pushed)
    ensures forall c :: c in Chosen(db, os, sub, gate, pushed) ==> FromList(db, os, sub, gate, pushed, c)
    decreases |os|
  {
    if os != [] {
      var n := |os| - 1;
      ChosenFacts(db, os[..n], sub, gate, pushed, l);
      DbClause(db, os[n]);
      assert On(db.clauses[os[n]], l) by { assert !(Opposite(l) in db.clauses[os[n]]); }
      var front := Chosen(db, os[..n], sub, gate, pushed);
      forall k | 0 <= k < |os| && Live(db, os[k]) && Pushed(sub, gate, os[k]) == pushed
        ensures db.clauses[os[k]] in Chosen(db, os, sub, gate, pushed)
      {
        if k < n { assert os[..n][k] == os[k]; }
      }
      forall c | c in Chosen(db, os, sub, gate, pushed)
        ensures FromList(db, os, sub, gate, pushed, c)
      {
        if c in front {
          var k :| 0 <= k < n && Live(db, os[..n][k]) && Pushed(sub, gate, os[..n][k]) == pushed && db.clauses[os[..n][k]] == c;
          assert os[..n][k] == os[k];
        } else {
          assert Live(db, os[n]) && db.clauses[os[n]] == c;
        }
      }
    }
  }

  ghost predicate FromList(db: Db, os: seq<nat>, sub: bool, gate: set<nat>, pushed: bool, c: Clause)
  {
    exists k :: 0 <= k < |os| && Live(db, os[k]) && Pushed(sub, gate, os[k]) == pushed && db.clauses[os[k]] == c
  }

  function Indices(os: seq<nat>): set<nat>
  {
    set k | 0 <= k < |os| :: os[k]
  }

  /** Pushes the clauses on one phase (with a gate only those of the gate) and marks all of them as garbage. */
  method RemovePhase(e: Eliminator, l: int, sub: bool)
    requires e.Valid() && l != 0 && e.external.Valid()
    modifies e`garbage, e.external`extension, e.external`entries
    ensures e.Valid() && e.external.Valid() && e.garbage == old(e.garbage) + Indices(Occ(e.occs, l))
    ensures ListOk(e.clauses, Occ(e.occs, l), l) && old(e.external.entries) <= e.external.entries
    ensures Strip(e.external.entries[|old(e.external.entries)|..]) ==
            EntriesOn(Chosen(old(e.State()), Occ(e.occs, l), sub, e.gate, true), l)
  {
    hide DbOk, OccsOk, ListOk, Chosen, EntriesOn, Strip, Indices, ClauseOk;
    ghost var before, start := e.State(), e.external.entries;
    var os := Occ(e.occs, l);
    ListOf(before, e.occs, l);
    ListBounds(e.clauses, os, l);
    NonePushed(before, sub, e.gate, l, start);
    var k := 0;
    assert os[..0] == [];
    while k < |os|
      invariant 0 <= k <= |os| && e.Valid() && e.external.Valid() && e.garbage == before.garbage + Indices(os[..k])
      invariant start <= e.external.entries
      invariant Strip(e.external.entries[|start|..]) == EntriesOn(Chosen(before, os[..k], sub, e.gate, true), l)
    {
      var i := os[k];
      OneMoreIndex(os, k);
      ChosenStep(before, os, k, sub, e.gate, true);
      ListFresh(e.clauses, os, l, k);
      if i !in e.garbage {
        if Pushed(sub, e.gate, i) {
          PushOne(e, i, l, start, Chosen(before, os[..k], sub, e.gate, true));
        }
        RemovedKept(e.State(), i, e.occs);
        e.garbage := e.garbage + {i};
      }
      k := k + 1;
    }
    assert os[..k] == os;
  }

  /** Pushes one clause on the extension stack. */
  method PushOne(e: Eliminator, i: nat, l: int, ghost start: seq<Entry>, ghost cs: seq<Clause>)
    requires e.Valid() && i < |e.clauses| && l != 0 && e.external.Valid() && start <= e.external.entries
    requires Strip(e.external.entries[|start|..]) == EntriesOn(cs, l)
    modifies e.external`extension, e.external`entries
    ensures e.external.Valid() && start <= e.external.entries
    ensures Strip(e.external.entries[|start|..]) == EntriesOn(cs + [e.clauses[i]], l)
  {
    hide DbOk, OccsOk, EntriesOn, Strip;
    DbClause(e.State(), i);
    ghost var middle := e.external.entries;
    e.external.PushClause(e.clauses[i], 0, i, l);
    EntriesExtended(middle[|start|..], e.clauses[i], 0, i, l, cs);
    assert e.external.entries[|start|..] == middle[|start|..] + [Entry([l], 0, i, e.clauses[i])];
  }

  lemma ListBounds(clauses: seq<Clause>, os: seq<nat>, l: int)
    requires ListOk(clauses, os, l)
    ensures forall k :: 0 <= k < |os| ==> os[k] < |clauses|
  {
  }

  lemma NonePushed(db: Db, sub: bool, gate: set<nat>, l: int, start: seq<Entry>)
    ensures Strip(start[|start|..]) == EntriesOn(Chosen(db, [], sub, gate, true), l) && Indices([]) == {}
  {
  }

  lemma OneMoreIndex(os: seq<nat>, k: nat)
    requires k < |os|
    ensures Indices(os[..k + 1]) == Indices(os[..k]) + {os[k]}
  {
    var more := os[..k + 1];
    forall i | i in Indices(os[..k]) + {os[k]} ensures i in Indices(more) {
      if i == os[k] { assert more[k] == i; } else { var j :| 0 <= j < k && os[..k][j] == i; assert more[j] == i; }
    }
    forall i | i in Indices(more) ensures i in Indices(os[..k]) + {os[k]} {
      var j :| 0 <= j < |more| && more[j] == i;
      if j < k { assert os[..k][j] == i; }
    }
  }

  lemma ChosenStep(db: Db, os: seq<nat>, k: nat, sub: bool, gate: set<nat>, pushed: bool)
    requires k < |os|
    ensures Chosen(db, os[..k + 1], sub, gate, pushed) ==
            if Live(db, os[k]) && Pushed(sub, gate, os[k]) == pushed
            then Chosen(db, os[..k], sub, gate, pushed) + [db.clauses[os[k]]]
            else Chosen(db, os[..k], sub, gate, pushed)
  {
    assert os[..k + 1][..k] == os[..k];
  }

  lemma ListFresh(clauses: seq<Clause>, os: seq<nat>, l: int, k: nat)
    requires ListOk(clauses, os, l) && k < |os|
    ensures os[k] !in Indices(os[..k])
  {
  }

  lemma EntriesExtended(es: seq<Entry>, c: Clause, high: int, low: int, l: int, cs: seq<Clause>)
    requires Strip(es) == EntriesOn(cs, l)
    ensures Strip(es + [Entry([l], high, low, c)]) == EntriesOn(cs + [c], l)
  {
    var more := es + [Entry([l], high, low, c)];
    assert Strip(more) == Strip(es) + [Entry([l], 0, 0, c)];
  }

  /** The clauses of the pivot as elimination splits them. */
  function Split(db: Db, ps: seq<nat>, ns: seq<nat>, sub: bool, gate: set<nat>): Occurrences
  {
    Occurrences(Chosen(db, ps, sub, gate, true), Chosen(db, ps, sub, gate, false),
                Chosen(db, ns, sub, gate, true), Chosen(db, ns, sub, gate, false))
  }

  /** The situation once all resolvents are there: b evolved from a, in which the gate, if any, was found. */
  ghost predicate ReadyToRemove(a: Db, b: Db, ps: seq<nat>, ns: seq<nat>, sub: bool, gate: set<nat>, x: int)
  {
    && Evolves(a, b, x) && DbOk(b) && x != 0 && !Assigned(b.units, x) && !b.unsat
    && (forall i :: i in gate ==> Live(a, i)) && (sub ==> Defines(a, gate, x))
    && ListOk(b.clauses, ps, x) && ListOk(b.clauses, ns, -x) && Listed(b, ps, x) && Listed(b, ns, -x)
    && AllDone(b, sub, gate, ps, ns, x)
  }

  ghost predicate Listed(db: Db, os: seq<nat>, l: int)
  {
    forall i :: Live(db, i) && l in db.clauses[i] ==> i in os
  }

  function Without(db: Db, ps: seq<nat>, ns: seq<nat>): Db
  {
    db.(garbage := db.garbage + Indices(ps) + Indices(ns))
  }

  /** What is left are exactly the models of the rest. */
  lemma WithoutModels(s: Assignment, a: Db, b: Db, ps: seq<nat>, ns: seq<nat>, sub: bool, gate: set<nat>, x: int)
    requires ReadyToRemove(a, b, ps, ns, sub, gate, x)
    ensures Sat(s, Contents(Without(b, ps, ns))) <==> Rest(s, b, x)
  {
    var c := Without(b, ps, ns);
    ContentsModels(s, c);
    assert Opposite(x) == -x;
    forall i
      ensures Live(c, i) <==> Live(b, i) && !Mentions(b.clauses[i], x)
    {
      if i in Indices(ps) {
        var k :| 0 <= k < |ps| && ps[k] == i;
      } else if i in Indices(ns) {
        var k :| 0 <= k < |ns| && ns[k] == i;
      } else if Live(b, i) {
        assert x in b.clauses[i] ==> i in ps;
        assert -x in b.clauses[i] ==> i in ns;
      }
    }
    if Rest(s, b, x) {
      forall i | Live(c, i) ensures ClauseTrue(s, c.clauses[i]) { assert Live(b, i) && !Mentions(b.clauses[i], x); }
    }
    if Models(s, c) {
      forall i | Live(b, i) && !Mentions(b.clauses[i], x) ensures ClauseTrue(s, b.clauses[i]) { assert Live(c, i); }
    }
  }

  /** Resolvents of clauses of the two lists are true. */
  lemma ChosenResolvents(s: Assignment, a: Db, b: Db, ps: seq<nat>, ns: seq<nat>, sub: bool, gate: set<nat>, x: int,
                         p: bool, q: bool)
    requires ReadyToRemove(a, b, ps, ns, sub, gate, x) && Rest(s, b, x) && (!sub || p != q)
    ensures ResolventsTrue(s, Chosen(b, ps, sub, gate, p), Chosen(b, ns, sub, gate, q), x)
  {
    hide Evolves, DbOk, ListOk, Listed, Rest, Defines, TrueBut;
    var cs, ds := Chosen(b, ps, sub, gate, p), Chosen(b, ns, sub, gate, q);
    hide Chosen;
    ChosenFacts(b, ps, sub, gate, p, x);
    ChosenFacts(b, ns, sub, gate, q, -x);
    forall i, j | 0 <= i < |cs| && 0 <= j < |ds|
      ensures ResolventTrue(s, cs[i], ds[j], x)
    {
      assert cs[i] in cs && ds[j] in ds;
      var k :| 0 <= k < |ps| && Live(b, ps[k]) && Pushed(sub, gate, ps[k]) == p && b.clauses[ps[k]] == cs[i];
      var m :| 0 <= m < |ns| && Live(b, ns[m]) && Pushed(sub, gate, ns[m]) == q && b.clauses[ns[m]] == ds[j];
      assert RowDone(b, sub, gate, ps[k], ns, x);
      assert PairDone(b, sub, gate, ps[k], ns[m], x);
    }
  }

  /** Gate clauses that are no longer live are true without the pivot, so the live ones say the same. */
  lemma LiveGate(s: Assignment, a: Db, b: Db, ps: seq<nat>, gate: set<nat>, l: int, x: int)
    requires Evolves(a, b, x) && DbOk(b) && !Assigned(b.units, x) && Rest(s, b, x) && (l == x || l == -x)
    requires (forall i :: i in gate ==> Live(a, i)) && ListOk(b.clauses, ps, l) && Listed(b, ps, l)
    ensures AllTrueBut(s, Chosen(b, ps, true, gate, true), l) <==> AllBut(s, a.clauses, gate, l)
  {
    var cs := Chosen(b, ps, true, gate, true);
    ChosenFacts(b, ps, true, gate, true, l);
    assert Opposite(x) == -x;
    if AllTrueBut(s, cs, l) {
      forall i | i in gate && i < |a.clauses| && l in a.clauses[i]
        ensures TrueBut(s, a.clauses[i], l)
      {
        assert Live(a, i) && a.clauses[i] == b.clauses[i];
        if i in b.garbage {
          assert TrueAway(s, a.clauses[i], x);
        } else {
          assert Live(b, i);
          var k :| 0 <= k < |ps| && ps[k] == i;
          assert b.clauses[ps[k]] in cs;
        }
      }
    }
    if AllBut(s, a.clauses, gate, l) {
      forall i | 0 <= i < |cs|
        ensures TrueBut(s, cs[i], l)
      {
        assert cs[i] in cs;
        var k :| 0 <= k < |ps| && Live(b, ps[k]) && Pushed(true, gate, ps[k]) && b.clauses[ps[k]] == cs[i];
        assert Live(a, ps[k]) && a.clauses[ps[k]] == b.clauses[ps[k]];
      }
    }
  }

  lemma NoOthers(db: Db, os: seq<nat>, gate: set<nat>)
    ensures Chosen(db, os, false, gate, false) == []
  {
  }

  lemma RemovalDecided(a: Db, b: Db, ps: seq<nat>, ns: seq<nat>, sub: bool, gate: set<nat>, x: int)
    requires ReadyToRemove(a, b, ps, ns, sub, gate, x)
    ensures Decided(Contents(Without(b, ps, ns)), Split(b, ps, ns, sub, gate), x)
  {
    var after, occs := Contents(Without(b, ps, ns)), Split(b, ps, ns, sub, gate);
    if sub {
      forall s | Sat(s, after)
        ensures DefinesPivot(s, occs.gatePos, occs.gateNeg, x)
      {
        WithoutModels(s, a, b, ps, ns, sub, gate, x);
        RestBack(s, a, b, x);
        LiveGate(s, a, b, ps, gate, x, x);
        LiveGate(s, a, b, ns, gate, -x, x);
        assert Opposite(x) == -x;
      }
    } else {
      NoOthers(b, ps, gate);
      NoOthers(b, ns, gate);
      forall s | Sat(s, after)
        ensures ResolventsTrue(s, occs.gatePos, occs.gateNeg, x)
      {
        WithoutModels(s, a, b, ps, ns, sub, gate, x);
        ChosenResolvents(s, a, b, ps, ns, sub, gate, x, true, true);
      }
    }
  }

  lemma SplitOk(a: Db, b: Db, ps: seq<nat>, ns: seq<nat>, sub: bool, gate: set<nat>, x: int)
    requires ReadyToRemove(a, b, ps, ns, sub, gate, x)
    ensures OccurrencesOk(Contents(b), Split(b, ps, ns, sub, gate), x)
  {
    ChosenFacts(b, ps, sub, gate, true, x);
    ChosenFacts(b, ps, sub, gate, false, x);
    ChosenFacts(b, ns, sub, gate, true, -x);
    ChosenFacts(b, ns, sub, gate, false, -x);
    var occs := Split(b, ps, ns, sub, gate);
    forall c | c in Contents(b)
      ensures ProperClause(c)
      ensures x in c ==> c in occs.gatePos || c in occs.otherPos
      ensures -x in c ==> c in occs.gateNeg || c in occs.otherNeg
    {
      if u :| u in b.units && c == [u] {
        assert u != x && u != -x;
      } else {
        var i :| 0 <= i < |b.clauses| && i !in b.garbage && b.clauses[i] == c;
        assert Live(b, i);
        DbClause(b, i);
        assert x in c ==> i in ps;
        assert -x in c ==> i in ns;
      }
    }
  }

  /** Removing the clauses of the pivot once all resolvents are there is sound. */
  lemma RemovalOfPivotSound(a: Db, b: Db, ps: seq<nat>, ns: seq<nat>, sub: bool, gate: set<nat>, x: int)
    requires ReadyToRemove(a, b, ps, ns, sub, gate, x)
    ensures Sound(Contents(b), Contents(Without(b, ps, ns)), EliminationEntries(Split(b, ps, ns, sub, gate), x))
  {
    var after, occs := Contents(Without(b, ps, ns)), Split(b, ps, ns, sub, gate);
    SplitOk(a, b, ps, ns, sub, gate, x);
    forall c | c in Contents(b) && x !in c && -x !in c
      ensures c in after
    {
      StaysThere(b, ps, ns, x, c);
    }
    forall s | Sat(s, Contents(b))
      ensures Sat(s, after)
    {
      ContentsModels(s, b);
      WithoutModels(s, a, b, ps, ns, sub, gate, x);
    }
    forall s | Sat(s, after)
      ensures ResolventsTrue(s, occs.gatePos, occs.otherNeg, x) && ResolventsTrue(s, occs.otherPos, occs.gateNeg, x)
    {
      WithoutModels(s, a, b, ps, ns, sub, gate, x);
      ChosenResolvents(s, a, b, ps, ns, sub, gate, x, true, false);
      ChosenResolvents(s, a, b, ps, ns, sub, gate, x, false, true);
    }
    RemovalDecided(a, b, ps, ns, sub, gate, x);
    EliminationSound(Contents(b), after, occs, x);
  }

  lemma StaysThere(b: Db, ps: seq<nat>, ns: seq<nat>, x: int, c: Clause)
    requires ListOk(b.clauses, ps, x) && ListOk(b.clauses, ns, -x) && c in Contents(b) && x !in c && -x !in c
    ensures c in Contents(Without(b, ps, ns))
  {
    if i :| 0 <= i < |b.clauses| && i !in b.garbage && b.clauses[i] == c {
      assert i !in Indices(ps) && i !in Indices(ns);
    }
  }

  // ----- Eliminating a variable ----------------------------------------------------------------------

  /** The gate flags: no gate, or live gate clauses that define the pivot. */
  ghost predicate GateReady(db: Db, gates: seq<nat>, gate: set<nat>, x: int)
  {
    && (forall i :: i in gate ==> Live(db, i))
    && if gates == [] then gate == {} else Defines(db, gate, x)
  }

  /** Soundness of a whole step from a to c, given that only the part from b on removes models' support. */
  lemma SoundFromEvolved(a: Db, b: Db, c: Db, x: int, pushed: seq<Entry>, stripped: seq<Entry>)
    requires Evolves(a, b, x) && Strip(pushed) == stripped && Sound(Contents(b), Contents(c), stripped)
    ensures Sound(Contents(a), Contents(c), pushed)
  {
    forall s
      ensures Sat(s, Contents(a)) <==> Sat(s, Contents(b))
      ensures RepairAll(s, pushed) == RepairAll(s, stripped)
    {
      ContentsModels(s, a);
      ContentsModels(s, b);
      RepairStrip(s, pushed);
    }
    forall s | Sat(s, Contents(c)) ensures Sat(RepairAll(s, pushed), Contents(a)) {
      assert Sat(RepairAll(s, stripped), Contents(b));
    }
  }

  lemma SoundEvolved(a: Db, b: Db, x: int)
    requires Evolves(a, b, x)
    ensures Sound(Contents(a), Contents(b), [])
  {
    forall s ensures Sat(s, Contents(a)) <==> Sat(s, Contents(b)) {
      ContentsModels(s, a);
      ContentsModels(s, b);
    }
  }

  /** Adds the resolvents on the pivot and removes its clauses. Whatever mix of units, strengthened clauses and
      resolvents this produces, the step is sound with the entries that it pushed if the gate defines the pivot. */
  method EliminatePivot(e: Eliminator, x: int, ghost found: Db) returns (ghost added: seq<(nat, nat)>)
    requires e.Valid() && Marking(e.marks, {}) && !e.unsat && x != 0 && !Assigned(e.units, x) && e.external.Valid()
    requires Evolves(found, e.State(), x)
    modifies e`clauses, e`garbage, e`units, e`unsat, e`occs, e`marks, e.external`extension, e.external`entries
    ensures e.Valid() && Marking(e.marks, {}) && e.external.Valid() && old(e.external.entries) <= e.external.entries
    ensures GateReady(found, e.gates, e.gate, x) ==>
              Sound(Contents(found), Contents(e.State()), e.external.entries[|old(e.external.entries)|..])
    ensures !e.unsat ==> forall i :: Live(e.State(), i) ==> !Mentions(e.clauses[i], x)
    ensures old(e.units) <= e.units && (e.units == old(e.units) ==> Tidy(old(e.State()), e.State()))
    ensures |e.clauses| <= |old(e.clauses)| + |added|
    ensures AllAdded(old(e.State()), e.gates != [], e.gate, Occ(old(e.occs), x), Occ(old(e.occs), -x), x, added)
  {
    hide DbOk, Marking, Evolves, AllDone, GateReady, Sound, OccsOk, Tidy, AllAdded;
    ghost var start, middle := e.external.entries, e.State();
    added := AddResolvents(e, x);
    StillThere(middle, e.State(), x);
    EvolvesTrans(found, middle, e.State(), x);
    if e.unsat {
      SoundEvolved(found, e.State(), x);
      assert e.external.entries[|start|..] == [];
      return;
    }
    ghost var b := e.State();
    RemoveClauses(e, x, found);
    TidyLess(middle, b, e.garbage);
  }

  /** Removes the clauses on the pivot once all resolvents are there. */
  method RemoveClauses(e: Eliminator, x: int, ghost found: Db)
    requires e.Valid() && !e.unsat && x != 0 && !Assigned(e.units, x) && e.external.Valid() && Evolves(found, e.State(), x)
    requires AllDone(e.State(), e.gates != [], e.gate, Occ(e.occs, x), Occ(e.occs, -x), x)
    modifies e`garbage, e.external`extension, e.external`entries
    ensures e.Valid() && e.external.Valid() && old(e.external.entries) <= e.external.entries && old(e.garbage) <= e.garbage
    ensures GateReady(found, e.gates, e.gate, x) ==>
              Sound(Contents(found), Contents(e.State()), e.external.entries[|old(e.external.entries)|..])
    ensures forall i :: Live(e.State(), i) ==> !Mentions(e.clauses[i], x)
  {
    hide DbOk, Evolves, AllDone, Defines, Sound, Complete, ListOk;
    ghost var start, b, sub := e.external.entries, e.State(), e.gates != [];
    ghost var ps, ns := Occ(e.occs, x), Occ(e.occs, -x);
    assert ListOk(b.clauses, ps, x) && ListOk(b.clauses, ns, -x);
    CompleteLists(b, e.occs, x);
    hide OccsOk;
    NoneLeft(b, ps, ns, x);
    ghost var ready := GateReady(found, e.gates, e.gate, x);
    if ready {
      assert ReadyToRemove(found, b, ps, ns, sub, e.gate, x);
      RemovalOfPivotSound(found, b, ps, ns, sub, e.gate, x);
    }
    hide ReadyToRemove, GateReady;
    RemoveBothPhases(e, x, e.gates != []);
    if ready {
      SoundFromEvolved(found, b, e.State(), x, e.external.entries[|start|..], EliminationEntries(Split(b, ps, ns, sub, e.gate), x));
    }
  }

  lemma TidyLess(a: Db, b: Db, garbage: set<nat>)
    requires b.garbage <= garbage
    ensures Tidy(a, b) ==> Tidy(a, b.(garbage := garbage))
  {
    var c := b.(garbage := garbage);
    if Tidy(a, b) {
      forall i | Live(c, i) && Satisfied(c.clauses[i], c.units) && !b.unsat ensures Live(a, i) && Satisfied(a.clauses[i], a.units) {
        assert Live(b, i);
      }
    }
  }

  lemma CompleteLists(db: Db, occs: Occs, x: int)
    requires OccsOk(db, occs) && !Assigned(db.units, x)
    ensures Listed(db, Occ(occs, x), x) && Listed(db, Occ(occs, -x), -x)
  {
    assert Opposite(-x) == x && Opposite(x) == -x;
  }

  lemma NoneLeft(b: Db, ps: seq<nat>, ns: seq<nat>, x: int)
    requires Listed(b, ps, x) && Listed(b, ns, -x)
    ensures forall i :: Live(Without(b, ps, ns), i) ==> !Mentions(b.clauses[i], x)
  {
    forall i | Live(Without(b, ps, ns), i)
      ensures !Mentions(b.clauses[i], x)
    {
      assert Live(b, i) && Opposite(x) == -x;
      assert x in b.clauses[i] ==> i in ps;
      assert -x in b.clauses[i] ==> i in ns;
    }
  }

  /** Both phases, the positive one first. */
  method RemoveBothPhases(e: Eliminator, x: int, sub: bool)
    requires e.Valid() && x != 0 && e.external.Valid()
    modifies e`garbage, e.external`extension, e.external`entries
    ensures e.Valid() && e.external.Valid() && old(e.external.entries) <= e.external.entries
    ensures ListOk(e.clauses, Occ(e.occs, x), x) && ListOk(e.clauses, Occ(e.occs, -x), -x)
    ensures e.garbage == old(e.garbage) + Indices(Occ(e.occs, x)) + Indices(Occ(e.occs, -x))
    ensures Strip(e.external.entries[|old(e.external.entries)|..]) ==
            EliminationEntries(Split(old(e.State()), Occ(e.occs, x), Occ(e.occs, -x), sub, e.gate), x)
  {
    hide DbOk, OccsOk, ListOk, Chosen, EntriesOn;
    ghost var start, before := e.external.entries, e.State();
    ghost var ps, ns := Occ(e.occs, x), Occ(e.occs, -x);
    RemovePhase(e, x, sub);
    ghost var half, middle := e.external.entries, e.State();
    RemovePhase(e, -x, sub);
    OtherPhaseUntouched(before, middle, ps, ns, sub, e.gate, x);
    StripParts(start, half, e.external.entries);
  }

  lemma StripParts(start: seq<Entry>, half: seq<Entry>, all: seq<Entry>)
    requires start <= half <= all
    ensures Strip(all[|start|..]) == Strip(half[|start|..]) + Strip(all[|half|..])
  {
    assert all[|start|..] == half[|start|..] + all[|half|..];
    StripConcat(half[|start|..], all[|half|..]);
  }

  lemma StripConcat(a: seq<Entry>, b: seq<Entry>)
    ensures Strip(a + b) == Strip(a) + Strip(b)
  {
  }

  /** Removing one phase does not change which clauses of the other phase are live. */
  lemma {:induction false} OtherPhaseUntouched(a: Db, b: Db, ps: seq<nat>, ns: seq<nat>, sub: bool, gate: set<nat>, x: int)
    requires DbOk(a) && ListOk(a.clauses, ps, x) && ListOk(a.clauses, ns, -x)
    requires b == a.(garbage := a.garbage + Indices(ps))
    ensures Chosen(b, ns, sub, gate, true) == Chosen(a, ns, sub, gate, true)
    decreases |ns|
  {
    if ns != [] {
      var n := |ns| - 1;
      OtherPhaseUntouched(a, b, ps, ns[..n], sub, gate, x);
      DbClause(a, ns[n]);
      assert Opposite(x) == -x;
      forall k | 0 <= k < |ps| ensures ps[k] != ns[n] {
        DbClause(a, ps[k]);
        assert !(Opposite(x) in a.clauses[ps[k]]);
      }
    }
  }
}
