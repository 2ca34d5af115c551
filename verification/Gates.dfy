/** When the clauses that gate recognition collects define the pivot (cadical/src/gates.cpp). Clauses are read
    through the root-level units: only their unassigned literals count. */
module Gates {
  import opened Logic
  import opened Extension
  import opened Reconstruction
  import opened Database

  /** All the clauses on x are true through another literal. */
  ghost predicate AllBut(s: Assignment, clauses: seq<Clause>, gate: set<nat>, x: int)
  {
    forall i :: i in gate && i < |clauses| && x in clauses[i] ==> TrueBut(s, clauses[i], x)
  }

  /** Under the units, the gate clauses define x: exactly one of its phases needs no help from them. */
  ghost predicate Defines(db: Db, gate: set<nat>, x: int)
  {
    forall s :: Agrees(s, db.units) ==>
      (AllBut(s, db.clauses, gate, x) <==> !AllBut(s, db.clauses, gate, Opposite(x)))
  }

  /** No gate clause has a literal that is true at the root. */
  predicate NoneSatisfied(db: Db, gate: set<nat>)
  {
    forall i :: i in gate && i < |db.clauses| ==> !Satisfied(db.clauses[i], db.units)
  }

  /** The clause of index i has exactly these unassigned literals. */
  predicate HasActual(db: Db, i: nat, lits: set<int>)
  {
    i < |db.clauses| && Actual(db.clauses[i], db.units) == lits
  }

  // ----- Assignments that agree with the units -------------------------------------------------------

  /** No literal of the set has a value or occurs with its negation. */
  predicate Free(units: set<int>, lits: set<int>)
  {
    forall l :: l in lits ==> l != 0 && !Assigned(units, l) && !(Opposite(l) in lits)
  }

  lemma AgreeingAssignment(units: set<int>, lits: set<int>) returns (s: Assignment)
    requires UnitsOk(units) && Free(units, lits)
    ensures Agrees(s, units) && Agrees(s, lits)
  {
    s := iset v | v in units || v in lits;
    forall u | u in units || u in lits
      ensures LitTrue(s, u)
    {
      assert Opposite(Opposite(u)) == u;
      assert Opposite(u) in lits ==> !Assigned(units, Opposite(u));
      assert !(Opposite(u) in units);
    }
  }

  // ----- Equivalences --------------------------------------------------------------------------------

  lemma EquivalenceDefines(db: Db, i: nat, j: nat, x: int, m: int)
    requires DbOk(db) && HasActual(db, i, {Opposite(x), m}) && HasActual(db, j, {x, Opposite(m)})
    requires x != m && x != Opposite(m) && NoneSatisfied(db, {i, j})
    ensures Defines(db, {i, j}, x)
  {
    var c, d := db.clauses[i], db.clauses[j];
    assert ClauseOk(c) && ClauseOk(d) && i in {i, j} && j in {i, j};
    assert m in Actual(c, db.units) && x in Actual(d, db.units) && Opposite(x) in Actual(c, db.units);
    assert Opposite(Opposite(x)) == x;
    forall s | Agrees(s, db.units)
      ensures AllBut(s, db.clauses, {i, j}, x) <==> !AllBut(s, db.clauses, {i, j}, Opposite(x))
    {
      TrueActual(s, c, db.units, Opposite(x));
      TrueActual(s, d, db.units, x);
      LitNegation(s, m);
      assert TrueBut(s, c, Opposite(x)) <==> LitTrue(s, m);
      assert TrueBut(s, d, x) <==> !LitTrue(s, m) by {
        assert Opposite(m) in Actual(d, db.units);
      }
      assert AllBut(s, db.clauses, {i, j}, x) <==> TrueBut(s, d, x);
      assert AllBut(s, db.clauses, {i, j}, Opposite(x)) <==> TrueBut(s, c, Opposite(x));
    }
  }

  // ----- AND gates -----------------------------------------------------------------------------------

  /** The gate clauses on the pivot's phase x are binary with the negation of some literal of the base clause, and
      every literal of the base clause has one. */
  ghost predicate AndShape(db: Db, base: nat, sides: set<nat>, x: int)
  {
    && base < |db.clauses| && Opposite(x) in Actual(db.clauses[base], db.units)
    && !Satisfied(db.clauses[base], db.units)
    && (forall i :: i in sides ==> i < |db.clauses| && !Satisfied(db.clauses[i], db.units) && SideOf(db, base, i, x))
    && (forall l {:trigger HasSide(db, sides, x, l)} ::
          l in Actual(db.clauses[base], db.units) && l != Opposite(x) ==> HasSide(db, sides, x, l))
  }

  ghost predicate HasSide(db: Db, sides: set<nat>, x: int, l: int)
  {
    exists i :: i in sides && HasActual(db, i, {x, Opposite(l)})
  }

  /** Clause i is the implication from x being false to some input. */
  ghost predicate SideOf(db: Db, base: nat, i: nat, x: int)
    requires base < |db.clauses| && i < |db.clauses|
  {
    exists l :: l in Actual(db.clauses[base], db.units) && l != Opposite(x) &&
                Actual(db.clauses[i], db.units) == {x, Opposite(l)}
  }

  lemma AndDefines(db: Db, base: nat, sides: set<nat>, x: int)
    requires DbOk(db) && AndShape(db, base, sides, x) && !Assigned(db.units, x)
    ensures Defines(db, {base} + sides, x)
  {
    var gate := {base} + sides;
    forall s | Agrees(s, db.units)
      ensures AllBut(s, db.clauses, gate, x) <==> !AllBut(s, db.clauses, gate, Opposite(x))
    {
      AndDecides(s, db, base, sides, x);
    }
  }

  lemma AndDecides(s: Assignment, db: Db, base: nat, sides: set<nat>, x: int)
    requires DbOk(db) && AndShape(db, base, sides, x) && Agrees(s, db.units) && !Assigned(db.units, x)
    ensures AllBut(s, db.clauses, {base} + sides, x) <==> !AllBut(s, db.clauses, {base} + sides, Opposite(x))
  {
    var gate, c, y := {base} + sides, db.clauses[base], Opposite(x);
    assert ClauseOk(c) && Opposite(y) == x && base in gate;
    TrueActual(s, c, db.units, y);
    if TrueBut(s, c, y) {
      var l :| l in Actual(c, db.units) && l != y && LitTrue(s, l);
      SideFails(s, db, base, sides, x, l);
      forall i | i in gate && y in db.clauses[i]
        ensures TrueBut(s, db.clauses[i], y)
      {
        if i in sides { SideHasNoOpposite(db, base, i, x); }
      }
    } else {
      assert x !in c;
      assert !AllBut(s, db.clauses, gate, y);
      forall i | i in gate && x in db.clauses[i]
        ensures TrueBut(s, db.clauses[i], x)
      {
        SideHolds(s, db, base, i, x);
      }
    }
  }

  /** The side clause of a true literal of the base clause relies on the pivot. */
  lemma SideFails(s: Assignment, db: Db, base: nat, sides: set<nat>, x: int, l: int)
    requires DbOk(db) && AndShape(db, base, sides, x) && Agrees(s, db.units)
    requires l in Actual(db.clauses[base], db.units) && l != Opposite(x) && LitTrue(s, l)
    ensures !AllBut(s, db.clauses, {base} + sides, x)
  {
    assert HasSide(db, sides, x, l);
    var i :| i in sides && HasActual(db, i, {x, Opposite(l)});
    var d := db.clauses[i];
    assert ClauseOk(d) && ClauseOk(db.clauses[base]) && l in db.clauses[base];
    TrueActual(s, d, db.units, x);
    LitNegation(s, l);
    assert x in Actual(d, db.units) && i in {base} + sides;
  }

  /** With all literals of the base clause false, the side clauses hold without the pivot. */
  lemma SideHolds(s: Assignment, db: Db, base: nat, i: nat, x: int)
    requires DbOk(db) && Agrees(s, db.units) && base < |db.clauses| && i < |db.clauses| && SideOf(db, base, i, x)
    requires !TrueBut(s, db.clauses[base], Opposite(x)) && !Satisfied(db.clauses[i], db.units)
    ensures TrueBut(s, db.clauses[i], x)
  {
    var l :| l in Actual(db.clauses[base], db.units) && l != Opposite(x) &&
             Actual(db.clauses[i], db.units) == {x, Opposite(l)};
    var d := db.clauses[i];
    assert ClauseOk(d) && ClauseOk(db.clauses[base]) && l in db.clauses[base];
    LitNegation(s, l);
    assert !LitTrue(s, l);
    assert Opposite(l) in Actual(d, db.units) && Opposite(l) != x;
    TrueActual(s, d, db.units, x);
  }

  lemma SideHasNoOpposite(db: Db, base: nat, i: nat, x: int)
    requires DbOk(db) && base < |db.clauses| && i < |db.clauses| && SideOf(db, base, i, x)
    ensures Opposite(x) !in db.clauses[i]
  {
    var l :| l in Actual(db.clauses[base], db.units) && l != Opposite(x) &&
             Actual(db.clauses[i], db.units) == {x, Opposite(l)};
    assert x in Actual(db.clauses[i], db.units);
    assert ClauseOk(db.clauses[i]);
  }

  // ----- If-then-else gates --------------------------------------------------------------------------

  /** The four ternary clauses of x = (-b ? -c : -e), up to root-level literals. */
  predicate IteShape(db: Db, i: nat, j: nat, k: nat, l: nat, x: int, b: int, c: int, e: int)
  {
    && HasActual(db, i, {x, b, c}) && HasActual(db, j, {x, Opposite(b), e})
    && HasActual(db, k, {Opposite(x), b, Opposite(c)}) && HasActual(db, l, {Opposite(x), Opposite(b), Opposite(e)})
    && Abs(x) != Abs(b) && Abs(x) != Abs(c) && Abs(x) != Abs(e) && Abs(b) != Abs(c) && Abs(b) != Abs(e)
    && Abs(c) != Abs(e)
  }

  /** The recognised clauses define the pivot if and only if none of them is satisfied at the root. */
  lemma IteDefines(db: Db, i: nat, j: nat, k: nat, l: nat, x: int, b: int, c: int, e: int)
    requires DbOk(db) && IteShape(db, i, j, k, l, x, b, c, e)
    ensures Defines(db, {i, j, k, l}, x) <==> NoneSatisfied(db, {i, j, k, l})
  {
    var gate := {i, j, k, l};
    var y := Opposite(x);
    if NoneSatisfied(db, gate) {
      forall s | Agrees(s, db.units)
        ensures AllBut(s, db.clauses, gate, x) <==> !AllBut(s, db.clauses, gate, y)
      {
        Ternary(s, db, i, x, b, c);
        Ternary(s, db, j, x, Opposite(b), e);
        Ternary(s, db, k, y, b, Opposite(c));
        Ternary(s, db, l, y, Opposite(b), Opposite(e));
        FourClauses(s, db, i, j, k, l, x);
        LitNegation(s, b);
        LitNegation(s, c);
        LitNegation(s, e);
      }
    } else {
      assert Opposite(Opposite(b)) == b && Opposite(Opposite(c)) == c && Opposite(Opposite(e)) == e;
      IteLiterals(db, i, j, k, l, x, b, c, e);
      if Satisfied(db.clauses[i], db.units) {
        Undefined(db, gate, x, {Opposite(b), Opposite(c)});
      } else if Satisfied(db.clauses[j], db.units) {
        Undefined(db, gate, x, {b, Opposite(e)});
      } else if Satisfied(db.clauses[k], db.units) {
        Undefined(db, gate, x, {Opposite(b), c});
      } else {
        Undefined(db, gate, x, {b, e});
      }
    }
  }

  lemma IteLiterals(db: Db, i: nat, j: nat, k: nat, l: nat, x: int, b: int, c: int, e: int)
    requires DbOk(db) && IteShape(db, i, j, k, l, x, b, c, e)
    ensures b in db.clauses[i] && c in db.clauses[i] && Opposite(b) in db.clauses[j] && e in db.clauses[j]
    ensures b in db.clauses[k] && Opposite(c) in db.clauses[k]
    ensures Opposite(b) in db.clauses[l] && Opposite(e) in db.clauses[l]
    ensures !Assigned(db.units, x) && !Assigned(db.units, b) && !Assigned(db.units, c) && !Assigned(db.units, e)
    ensures !Assigned(db.units, Opposite(b)) && !Assigned(db.units, Opposite(c)) && !Assigned(db.units, Opposite(e))
    ensures x != 0 && b != 0 && c != 0 && e != 0
  {
    assert x in Actual(db.clauses[i], db.units) && b in Actual(db.clauses[i], db.units) &&
           c in Actual(db.clauses[i], db.units);
    assert Opposite(b) in Actual(db.clauses[j], db.units) && e in Actual(db.clauses[j], db.units);
    assert b in Actual(db.clauses[k], db.units) && Opposite(c) in Actual(db.clauses[k], db.units);
    assert Opposite(b) in Actual(db.clauses[l], db.units) && Opposite(e) in Actual(db.clauses[l], db.units);
    assert ClauseOk(db.clauses[i]) && ClauseOk(db.clauses[j]);
  }

  /** A ternary clause, apart from x. */
  lemma Ternary(s: Assignment, db: Db, i: nat, x: int, p: int, q: int)
    requires DbOk(db) && HasActual(db, i, {x, p, q}) && x != p && x != q && Agrees(s, db.units)
    requires !Satisfied(db.clauses[i], db.units)
    ensures x in db.clauses[i] && Opposite(x) !in db.clauses[i]
    ensures TrueBut(s, db.clauses[i], x) <==> LitTrue(s, p) || LitTrue(s, q)
  {
    var c := db.clauses[i];
    assert ClauseOk(c);
    TrueActual(s, c, db.units, x);
    assert x in Actual(c, db.units) && p in Actual(c, db.units) && q in Actual(c, db.units);
  }

  lemma FourClauses(s: Assignment, db: Db, i: nat, j: nat, k: nat, l: nat, x: int)
    requires i < |db.clauses| && j < |db.clauses| && k < |db.clauses| && l < |db.clauses|
    requires x in db.clauses[i] && Opposite(x) !in db.clauses[i]
    requires x in db.clauses[j] && Opposite(x) !in db.clauses[j]
    requires Opposite(x) in db.clauses[k] && x !in db.clauses[k]
    requires Opposite(x) in db.clauses[l] && x !in db.clauses[l]
    ensures AllBut(s, db.clauses, {i, j, k, l}, x) <==> TrueBut(s, db.clauses[i], x) && TrueBut(s, db.clauses[j], x)
    ensures AllBut(s, db.clauses, {i, j, k, l}, Opposite(x)) <==>
            TrueBut(s, db.clauses[k], Opposite(x)) && TrueBut(s, db.clauses[l], Opposite(x))
  {
    var gate := {i, j, k, l};
    assert i in gate && j in gate && k in gate && l in gate;
  }

  /** If some values of unassigned literals other than the pivot make all gate clauses true that are not satisfied
      already, then the gate clauses do not define the pivot. */
  lemma Undefined(db: Db, gate: set<nat>, x: int, cube: set<int>)
    requires DbOk(db) && Free(db.units, cube) && !Assigned(db.units, x)
    requires x !in cube && Opposite(x) !in cube
    requires forall i :: i in gate ==>
               i < |db.clauses| && (Satisfied(db.clauses[i], db.units) || exists l :: l in cube && l in db.clauses[i])
    ensures !Defines(db, gate, x)
  {
    var s := AgreeingAssignment(db.units, cube);
    forall i | i in gate
      ensures TrueAway(s, db.clauses[i], x)
    {
      if Satisfied(db.clauses[i], db.units) {
        SatisfiedTrue(s, db.clauses[i], db.units);
      } else {
        var l :| l in cube && l in db.clauses[i];
        assert LitTrue(s, l);
      }
    }
    assert AllBut(s, db.clauses, gate, x) && AllBut(s, db.clauses, gate, Opposite(x)) by {
      forall i | i in gate ensures TrueBut(s, db.clauses[i], x) && TrueBut(s, db.clauses[i], Opposite(x)) {
        assert TrueAway(s, db.clauses[i], x);
      }
    }
  }

  // ----- XOR gates -----------------------------------------------------------------------------------

  /** An odd number of bits is set. */
  predicate Odd(bits: seq<bool>)
  {
    bits != [] && bits[0] != Odd(bits[1..])
  }

  /** Negates the literals whose bit is set. */
  function Signed(base: seq<int>, bits: seq<bool>): (r: seq<int>)
    requires |base| == |bits|
    ensures |r| == |base|
  {
    seq(|base|, j requires 0 <= j < |base| => if bits[j] then Opposite(base[j]) else base[j])
  }

  lemma {:induction false} OddFlip(f: seq<bool>, g: seq<bool>, q: nat)
    requires |f| == |g| && q < |f| && f[q] != g[q] && forall j :: 0 <= j < |f| && j != q ==> f[j] == g[j]
    ensures Odd(f) != Odd(g)
    decreases |f|
  {
    if q == 0 {
      assert f[1..] == g[1..];
    } else {
      OddFlip(f[1..], g[1..], q - 1);
    }
  }

  /** Two patterns of the same parity that differ on the pivot differ elsewhere. */
  lemma DifferElsewhere(f: seq<bool>, g: seq<bool>, q: nat)
    requires |f| == |g| && q < |f| && f != g && Odd(f) == Odd(g)
    ensures exists j :: 0 <= j < |f| && j != q && f[j] != g[j]
  {
    if f[q] == g[q] {
      var j :| 0 <= j < |f| && f[j] != g[j];
    } else if forall j :: 0 <= j < |f| && j != q ==> f[j] == g[j] {
      OddFlip(f, g, q);
    }
  }

  /** No variable occurs twice, and none has a root-level value. */
  predicate BaseOk(units: set<int>, base: seq<int>)
  {
    && (forall j :: 0 <= j < |base| ==> base[j] != 0 && !Assigned(units, base[j]) && !Assigned(units, Opposite(base[j])))
    && forall i, j :: 0 <= i < j < |base| ==> Abs(base[i]) != Abs(base[j])
  }

  /** The gate clauses are, one for one, the patterns of even parity over the base clause. */
  ghost predicate XorShape(db: Db, gate: set<nat>, base: seq<int>)
  {
    && BaseOk(db.units, base)
    && (forall bits: seq<bool> :: |bits| == |base| && !Odd(bits) ==> exists i :: i in gate && ForPattern(db, i, base, bits))
    && (forall i :: i in gate ==> exists bits: seq<bool> :: !Odd(bits) && ForPattern(db, i, base, bits))
    && forall i, j, bits: seq<bool> ::
         i in gate && j in gate && ForPattern(db, i, base, bits) && ForPattern(db, j, base, bits) ==> i == j
  }

  predicate ForPattern(db: Db, i: nat, base: seq<int>, bits: seq<bool>)
  {
    |bits| == |base| && HasActual(db, i, Lits(Signed(base, bits)))
  }

  /** The recognised clauses define the pivot if and only if none of them is satisfied at the root. */
  lemma XorDefines(db: Db, gate: set<nat>, base: seq<int>, q: nat)
    requires DbOk(db) && XorShape(db, gate, base) && q < |base|
    ensures Defines(db, gate, base[q]) <==> NoneSatisfied(db, gate)
  {
    if NoneSatisfied(db, gate) {
      forall s | Agrees(s, db.units)
        ensures AllBut(s, db.clauses, gate, base[q]) <==> !AllBut(s, db.clauses, gate, Opposite(base[q]))
      {
        XorDecides(s, db, gate, base, q);
      }
    } else {
      var i :| i in gate && i < |db.clauses| && Satisfied(db.clauses[i], db.units);
      var bits: seq<bool> :| !Odd(bits) && ForPattern(db, i, base, bits);
      XorUndefined(db, gate, base, q, i, bits);
    }
  }

  /** The negations of the signed literals other than that of the pivot. */
  function Falsifying(base: seq<int>, bits: seq<bool>, q: nat): set<int>
    requires |bits| == |base|
  {
    set j | 0 <= j < |base| && j != q :: Negated(base, bits, j)
  }

  function Negated(base: seq<int>, bits: seq<bool>, j: int): int
    requires |bits| == |base| && 0 <= j < |base|
  {
    if bits[j] then base[j] else Opposite(base[j])
  }

  lemma FalsifyingFree(units: set<int>, base: seq<int>, bits: seq<bool>, q: nat)
    requires |bits| == |base| && q < |base| && BaseOk(units, base)
    ensures Free(units, Falsifying(base, bits, q))
    ensures base[q] !in Falsifying(base, bits, q) && Opposite(base[q]) !in Falsifying(base, bits, q)
  {
    var cube := Falsifying(base, bits, q);
    forall l | l in cube
      ensures l != 0 && !Assigned(units, l) && !(Opposite(l) in cube) && l != base[q] && l != Opposite(base[q])
    {
      var i :| 0 <= i < |base| && i != q && l == Negated(base, bits, i);
      OtherVariable(units, base, i, q);
      forall j | 0 <= j < |base| && j != q
        ensures Negated(base, bits, j) != Opposite(l)
      {
        if i != j { OtherVariable(units, base, i, j); }
      }
    }
  }

  lemma OtherVariable(units: set<int>, base: seq<int>, i: nat, j: nat)
    requires BaseOk(units, base) && i < |base| && j < |base| && i != j
    ensures Abs(base[i]) != Abs(base[j])
  {
  }

  lemma XorUndefined(db: Db, gate: set<nat>, base: seq<int>, q: nat, i: nat, bits: seq<bool>)
    requires DbOk(db) && XorShape(db, gate, base) && q < |base| && i in gate && |bits| == |base| && !Odd(bits)
    requires ForPattern(db, i, base, bits) && Satisfied(db.clauses[i], db.units)
    ensures !Defines(db, gate, base[q])
  {
    var cube := Falsifying(base, bits, q);
    FalsifyingFree(db.units, base, bits, q);
    forall k | k in gate
      ensures k < |db.clauses| && (Satisfied(db.clauses[k], db.units) || exists l :: l in cube && l in db.clauses[k])
    {
      var other: seq<bool> :| !Odd(other) && ForPattern(db, k, base, other);
      if other == bits {
        assert k == i;
      } else {
        DifferElsewhere(bits, other, q);
        var j :| 0 <= j < |base| && j != q && bits[j] != other[j];
        var l := Signed(base, other)[j];
        assert l in Lits(Signed(base, other));
        assert l in Actual(db.clauses[k], db.units) && l == Negated(base, bits, j);
      }
    }
    Undefined(db, gate, base[q], cube);
  }

  /** The pattern that the assignment falsifies, with the given bit for the pivot. */
  ghost function Pattern(s: Assignment, base: seq<int>, q: nat, bit: bool): (r: seq<bool>)
    ensures |r| == |base|
  {
    seq(|base|, j requires 0 <= j < |base| => if j == q then bit else LitTrue(s, base[j]))
  }

  lemma XorDecides(s: Assignment, db: Db, gate: set<nat>, base: seq<int>, q: nat)
    requires DbOk(db) && XorShape(db, gate, base) && q < |base| && NoneSatisfied(db, gate) && Agrees(s, db.units)
    ensures AllBut(s, db.clauses, gate, base[q]) <==> !AllBut(s, db.clauses, gate, Opposite(base[q]))
  {
    OddFlip(Pattern(s, base, q, false), Pattern(s, base, q, true), q);
    var bit := Odd(Pattern(s, base, q, false));
    var f := Pattern(s, base, q, bit);
    var i :| i in gate && ForPattern(db, i, base, f);
    var y := Signed(base, f)[q];
    assert Opposite(Opposite(base[q])) == base[q];
    XorFalsified(s, db, base, q, i, bit);
    assert !AllBut(s, db.clauses, gate, y);
    forall k | k in gate && k < |db.clauses| && Opposite(y) in db.clauses[k]
      ensures TrueBut(s, db.clauses[k], Opposite(y))
    {
      var g: seq<bool> :| !Odd(g) && ForPattern(db, k, base, g);
      XorSatisfied(s, db, base, q, k, f, g);
    }
  }

  /** The clause of the falsified pattern depends on its pivot literal. */
  lemma XorFalsified(s: Assignment, db: Db, base: seq<int>, q: nat, i: nat, bit: bool)
    requires DbOk(db) && BaseOk(db.units, base) && q < |base| && Agrees(s, db.units)
    requires ForPattern(db, i, base, Pattern(s, base, q, bit)) && !Satisfied(db.clauses[i], db.units)
    ensures var y := Signed(base, Pattern(s, base, q, bit))[q];
            y in db.clauses[i] && !TrueBut(s, db.clauses[i], y)
  {
    var r := Signed(base, Pattern(s, base, q, bit));
    assert r[q] in Lits(r);
    assert r[q] in Actual(db.clauses[i], db.units);
    assert ClauseOk(db.clauses[i]);
    TrueActual(s, db.clauses[i], db.units, r[q]);
    forall l | l in Actual(db.clauses[i], db.units) && l != r[q]
      ensures !LitTrue(s, l)
    {
      assert l in r;
      var j :| 0 <= j < |base| && r[j] == l;
      LitNegation(s, base[j]);
    }
  }

  /** The clause of another pattern of the same parity is true without its pivot literal. */
  lemma XorSatisfied(s: Assignment, db: Db, base: seq<int>, q: nat, k: nat, f: seq<bool>, g: seq<bool>)
    requires DbOk(db) && BaseOk(db.units, base) && q < |base| && |f| == |base| && |g| == |base|
    requires f == Pattern(s, base, q, f[q]) && Odd(f) == Odd(g) && ForPattern(db, k, base, g)
    requires Opposite(Signed(base, f)[q]) in db.clauses[k]
    ensures TrueBut(s, db.clauses[k], Opposite(Signed(base, f)[q]))
  {
    var r := Signed(base, g);
    var y := Signed(base, f)[q];
    assert ClauseOk(db.clauses[k]);
    assert f != g by {
      assert r[q] in Lits(r);
      assert r[q] in Actual(db.clauses[k], db.units);
      assert Opposite(Opposite(y)) == y;
    }
    DifferElsewhere(f, g, q);
    var j :| 0 <= j < |base| && j != q && f[j] != g[j];
    LitNegation(s, base[j]);
    assert r[j] in Lits(r);
    assert r[j] in Actual(db.clauses[k], db.units);
    assert r[j] != Opposite(y) by {
      OtherVariable(db.units, base, j, q);
    }
  }
}
