/** Formula-changing steps of the solver and the reconstruction of models through the extension stack
    (cadical/src/elim.cpp, block.cpp, condition.cpp, decompose.cpp, extend.cpp). */
module Reconstruction {
  import opened Logic
  import opened Extension

  type Formula = set<Clause>

  ghost predicate Sat(s: Assignment, f: Formula)
  {
    forall c :: c in f ==> ClauseTrue(s, c)
  }

  /** A step is sound if nothing unimplied is added, and if the entries it pushes turn every model of the new
      formula into a model of the old one. */
  ghost predicate Sound(before: Formula, after: Formula, pushed: seq<Entry>)
  {
    && (forall s :: Sat(s, before) ==> Sat(s, after))
    && (forall s :: Sat(s, after) ==> Sat(RepairAll(s, pushed), before))
  }

  ghost predicate Satisfiable(f: Formula)
  {
    exists s :: Sat(s, f)
  }

  lemma SoundEquisatisfiable(before: Formula, after: Formula, pushed: seq<Entry>)
    requires Sound(before, after, pushed)
    ensures Satisfiable(before) <==> Satisfiable(after)
  {
    if Satisfiable(after) {
      var s :| Sat(s, after);
      assert Sat(RepairAll(s, pushed), before);
    }
  }

  /** Sound steps compose, with the entries of the later step on top. */
  lemma SoundTrans(a: Formula, b: Formula, c: Formula, p: seq<Entry>, q: seq<Entry>)
    requires Sound(a, b, p) && Sound(b, c, q)
    ensures Sound(a, c, p + q)
  {
    forall s | Sat(s, c)
      ensures Sat(RepairAll(s, p + q), a)
    {
      RepairConcat(s, p, q);
      assert Sat(RepairAll(s, q), b);
    }
  }

  // ----- Whole runs ----------------------------------------------------------------------------------

  datatype Step = Step(after: Formula, pushed: seq<Entry>)

  /** Every step of the run is sound for the formula it starts from. */
  ghost predicate SoundRun(start: Formula, steps: seq<Step>)
    decreases |steps|
  {
    steps == [] ||
    (SoundRun(start, steps[..|steps| - 1]) &&
     Sound(Final(start, steps[..|steps| - 1]), steps[|steps| - 1].after, steps[|steps| - 1].pushed))
  }

  function Final(start: Formula, steps: seq<Step>): Formula
  {
    if steps == [] then start else steps[|steps| - 1].after
  }

  /** All entries pushed during the run, in order. */
  function Stack(steps: seq<Step>): seq<Entry>
  {
    if steps == [] then [] else Stack(steps[..|steps| - 1]) + steps[|steps| - 1].pushed
  }

  /** For any mix of sound steps: the backward walk over the whole stack turns every model of what remains into a
      model of all original clauses, and satisfiability is the same before and after. */
  lemma {:induction false} RunReconstructs(start: Formula, steps: seq<Step>)
    requires SoundRun(start, steps)
    ensures forall s :: Sat(s, Final(start, steps)) ==> Sat(RepairAll(s, Stack(steps)), start)
    ensures Satisfiable(start) <==> Satisfiable(Final(start, steps))
    decreases |steps|
  {
    if steps != [] {
      var front, last := steps[..|steps| - 1], steps[|steps| - 1];
      RunReconstructs(start, front);
      var middle := Final(start, front);
      forall s | Sat(s, last.after)
        ensures Sat(RepairAll(s, Stack(steps)), start)
      {
        RepairConcat(s, Stack(front), last.pushed);
        assert Sat(RepairAll(s, last.pushed), middle);
      }
      SoundEquisatisfiable(middle, last.after, last.pushed);
    }
  }

  /** The walk over the flat stack, started from any model of what remains after the run, ends in a model of all
      original clauses. */
  method ExtendModel(ext: External, ghost start: Formula, ghost steps: seq<Step>)
    requires ext.Valid() && ext.entries == Stack(steps) && SoundRun(start, steps) && Sat(ext.View(), Final(start, steps))
    modifies ext`vals
    ensures ext.Valid() && Sat(ext.View(), start)
  {
    RunReconstructs(start, steps);
    ext.Extend();
  }

  // ----- Clauses without one literal -----------------------------------------------------------------

  /** Some literal other than x is true. */
  ghost predicate TrueBut(s: Assignment, c: Clause, x: int)
  {
    exists l :: l in c && l != x && LitTrue(s, l)
  }

  /** All clauses of the list are true through a literal other than x. */
  ghost predicate AllTrueBut(s: Assignment, cs: seq<Clause>, x: int)
  {
    forall i :: 0 <= i < |cs| ==> TrueBut(s, cs[i], x)
  }

  /** The clause has x but not its negation, and is proper. */
  predicate On(c: Clause, x: int)
  {
    x in c && -x !in c && ProperClause(c)
  }

  predicate AllOn(cs: seq<Clause>, x: int)
  {
    forall i :: 0 <= i < |cs| ==> On(cs[i], x)
  }

  lemma TrueButSame(s: Assignment, t: Assignment, c: Clause, x: int)
    requires On(c, x) && x != 0 && forall l :: l != 0 && l != x && l != -x ==> (LitTrue(s, l) <==> LitTrue(t, l))
    ensures TrueBut(s, c, x) <==> TrueBut(t, c, x)
  {
    if TrueBut(s, c, x) { var l :| l in c && l != x && LitTrue(s, l); assert LitTrue(t, l); }
    if TrueBut(t, c, x) { var l :| l in c && l != x && LitTrue(t, l); assert LitTrue(s, l); }
  }

  lemma TrueSplit(s: Assignment, c: Clause, x: int)
    requires x in c
    ensures ClauseTrue(s, c) <==> LitTrue(s, x) || TrueBut(s, c, x)
  {
    if ClauseTrue(s, c) { var l :| l in c && LitTrue(s, l); }
  }

  /** The two assignments agree on all variables but that of x. */
  ghost predicate SameBut(s: Assignment, t: Assignment, x: int)
  {
    forall l :: l != 0 && l != x && l != -x ==> (LitTrue(s, l) <==> LitTrue(t, l))
  }

  lemma UntouchedClause(s: Assignment, t: Assignment, c: Clause, x: int)
    requires SameBut(s, t, x) && ProperClause(c) && x !in c && -x !in c
    ensures ClauseTrue(s, c) <==> ClauseTrue(t, c)
  {
    if ClauseTrue(s, c) { var l :| l in c && LitTrue(s, l); assert LitTrue(t, l); }
    if ClauseTrue(t, c) { var l :| l in c && LitTrue(t, l); assert LitTrue(s, l); }
  }

  // ----- Repairing a list of clauses on one literal --------------------------------------------------

  /** The entries pushed for a list of clauses on x, with x as witness. */
  function EntriesOn(cs: seq<Clause>, x: int): seq<Entry>
  {
    seq(|cs|, i requires 0 <= i < |cs| => Entry([x], 0, 0, cs[i]))
  }

  /** The walk makes x true if one of the clauses needs it, and changes nothing else. */
  lemma {:induction false} RepairOn(s: Assignment, cs: seq<Clause>, x: int)
    requires x != 0 && AllOn(cs, x)
    ensures RepairAll(s, EntriesOn(cs, x)) == if LitTrue(s, x) || AllTrueBut(s, cs, x) then s else SetTrue(s, x)
    decreases |cs|
  {
    var es := EntriesOn(cs, x);
    if cs != [] {
      var front, last := cs[..|cs| - 1], cs[|cs| - 1];
      assert es[..|es| - 1] == EntriesOn(front, x);
      assert On(cs[|cs| - 1], x);
      TrueSplit(s, last, x);
      var e := es[|es| - 1];
      assert SetAll(s, [x]) == SetTrue(s, x) by {
        assert [x][..0] == [];
        assert SetAll(SetTrue(s, x), []) == SetTrue(s, x);
      }
      var t := Repair(s, e);
      RepairOn(t, front, x);
      SetTrueFacts(s, x);
      assert AllTrueBut(s, cs, x) <==> AllTrueBut(s, front, x) && TrueBut(s, last, x) by {
        if AllTrueBut(s, front, x) && TrueBut(s, last, x) {
          forall i | 0 <= i < |cs| ensures TrueBut(s, cs[i], x) { if i < |front| { assert cs[i] == front[i]; } }
        }
        if AllTrueBut(s, cs, x) {
          forall i | 0 <= i < |front| ensures TrueBut(s, front[i], x) { assert cs[i] == front[i]; }
        }
      }
    }
  }

  /** The walk over clauses on x followed by clauses on -x satisfies them all, provided one of the two lists does
      not depend on the variable. */
  lemma RepairBoth(s: Assignment, pos: seq<Clause>, neg: seq<Clause>, x: int)
    requires x != 0 && AllOn(pos, x) && AllOn(neg, -x)
    requires AllTrueBut(s, pos, x) || AllTrueBut(s, neg, -x)
    ensures var t := RepairAll(s, EntriesOn(pos, x) + EntriesOn(neg, -x));
            && SameBut(s, t, x)
            && (LitTrue(t, x) ==> AllTrueBut(s, neg, -x))
            && (!LitTrue(t, x) ==> AllTrueBut(s, pos, x))
  {
    var u := RepairAll(s, EntriesOn(neg, -x));
    RepairConcat(s, EntriesOn(pos, x), EntriesOn(neg, -x));
    RepairOn(s, neg, -x);
    RepairOn(u, pos, x);
    LitNegation(s, x);
    LitNegation(u, x);
    SetTrueFacts(s, -x);
    SetTrueFacts(u, x);
    assert SameBut(s, u, x);
    forall i | 0 <= i < |pos| ensures TrueBut(s, pos[i], x) <==> TrueBut(u, pos[i], x) {
      assert On(pos[i], x);
      TrueButSame(s, u, pos[i], x);
    }
    assert AllTrueBut(s, pos, x) <==> AllTrueBut(u, pos, x);
  }

  // ----- Variable elimination ------------------------------------------------------------------------

  /** The clauses in which a variable occurs, split by phase and by the gate flag. Without a gate all clauses
      count as gate clauses here: all are resolved against each other and all are pushed. */
  datatype Occurrences = Occurrences(gatePos: seq<Clause>, otherPos: seq<Clause>, gateNeg: seq<Clause>,
                                     otherNeg: seq<Clause>)

  ghost predicate OccurrencesOk(f: Formula, occs: Occurrences, x: int)
  {
    && x != 0
    && AllOn(occs.gatePos, x) && AllOn(occs.otherPos, x) && AllOn(occs.gateNeg, -x) && AllOn(occs.otherNeg, -x)
    && forall c :: c in f ==>
         ProperClause(c) &&
         (if x in c then c in occs.gatePos || c in occs.otherPos
          else if -x in c then c in occs.gateNeg || c in occs.otherNeg
          else true)
  }

  /** The resolvent of two clauses on x is true. */
  ghost predicate ResolventTrue(s: Assignment, c: Clause, d: Clause, x: int)
  {
    TrueBut(s, c, x) || TrueBut(s, d, -x)
  }

  ghost predicate ResolventsTrue(s: Assignment, cs: seq<Clause>, ds: seq<Clause>, x: int)
  {
    forall i, j :: 0 <= i < |cs| && 0 <= j < |ds| ==> ResolventTrue(s, cs[i], ds[j], x)
  }

  /** The gate clauses define x: whatever the other variables are, exactly one phase satisfies them. */
  ghost predicate DefinesPivot(s: Assignment, pos: seq<Clause>, neg: seq<Clause>, x: int)
  {
    AllTrueBut(s, pos, x) <==> !AllTrueBut(s, neg, -x)
  }

  lemma ResolventsDecide(s: Assignment, pos: seq<Clause>, neg: seq<Clause>, x: int)
    requires ResolventsTrue(s, pos, neg, x)
    ensures AllTrueBut(s, pos, x) || AllTrueBut(s, neg, -x)
  {
    if !AllTrueBut(s, pos, x) {
      var i :| 0 <= i < |pos| && !TrueBut(s, pos[i], x);
      forall j | 0 <= j < |neg| ensures TrueBut(s, neg[j], -x) {
        assert ResolventTrue(s, pos[i], neg[j], x);
      }
    }
  }

  /** A non-gate clause on x holds once x is false: some gate clause on -x then relies on its own literals only in
      vain, and their resolvent is true. */
  lemma OtherHolds(s: Assignment, c: Clause, gate: seq<Clause>, x: int)
    requires !AllTrueBut(s, gate, -x) && forall j :: 0 <= j < |gate| ==> ResolventTrue(s, c, gate[j], x)
    ensures TrueBut(s, c, x)
  {
    var j :| 0 <= j < |gate| && !TrueBut(s, gate[j], -x);
    assert ResolventTrue(s, c, gate[j], x);
  }

  /** What elimination leaves behind: the clauses without the variable stay, every clause left is implied, and every
      model of the rest satisfies the resolvents of gate against non-gate clauses. */
  ghost predicate Eliminated(before: Formula, after: Formula, occs: Occurrences, x: int)
  {
    && OccurrencesOk(before, occs, x)
    && (forall c :: c in before && x !in c && -x !in c ==> c in after)
    && (forall s :: Sat(s, before) ==> Sat(s, after))
    && (forall s :: Sat(s, after) ==>
          && ResolventsTrue(s, occs.gatePos, occs.otherNeg, x)
          && ResolventsTrue(s, occs.otherPos, occs.gateNeg, x))
  }

  /** Only the gate clauses are pushed, those on x before those on -x. */
  function EliminationEntries(occs: Occurrences, x: int): seq<Entry>
  {
    EntriesOn(occs.gatePos, x) + EntriesOn(occs.gateNeg, -x)
  }

  /** Without non-gate clauses all resolvents were added, and otherwise the gate clauses define the variable. */
  ghost predicate Decided(after: Formula, occs: Occurrences, x: int)
  {
    || (occs.otherPos == [] && occs.otherNeg == [] &&
        forall s :: Sat(s, after) ==> ResolventsTrue(s, occs.gatePos, occs.gateNeg, x))
    || forall s :: Sat(s, after) ==> DefinesPivot(s, occs.gatePos, occs.gateNeg, x)
  }

  /** Eliminating a variable is sound: without a gate because all resolvents are kept; with a gate although neither
      the resolvents among gate clauses nor those among non-gate clauses are, and only gate clauses are pushed. */
  lemma EliminationSound(before: Formula, after: Formula, occs: Occurrences, x: int)
    requires Eliminated(before, after, occs, x) && Decided(after, occs, x)
    ensures Sound(before, after, EliminationEntries(occs, x))
  {
    forall s | Sat(s, after)
      ensures Sat(RepairAll(s, EliminationEntries(occs, x)), before)
    {
      if !DefinesPivot(s, occs.gatePos, occs.gateNeg, x) {
        ResolventsDecide(s, occs.gatePos, occs.gateNeg, x);
      }
      RepairBoth(s, occs.gatePos, occs.gateNeg, x);
      var t := RepairAll(s, EliminationEntries(occs, x));
      forall c | c in before
        ensures ClauseTrue(t, c)
      {
        if x in c {
          PositiveHolds(s, t, occs, c, x);
        } else if -x in c {
          NegativeHolds(s, t, occs, c, x);
        } else {
          UntouchedClause(s, t, c, x);
        }
      }
    }
  }

  lemma PositiveHolds(s: Assignment, t: Assignment, occs: Occurrences, c: Clause, x: int)
    requires x != 0 && On(c, x) && (c in occs.gatePos || c in occs.otherPos) && SameBut(s, t, x)
    requires ResolventsTrue(s, occs.otherPos, occs.gateNeg, x)
    requires !LitTrue(t, x) ==> AllTrueBut(s, occs.gatePos, x)
    requires (occs.otherPos == [] && occs.otherNeg == []) || DefinesPivot(s, occs.gatePos, occs.gateNeg, x)
    ensures ClauseTrue(t, c)
  {
    if !LitTrue(t, x) {
      if c in occs.gatePos {
        var i :| 0 <= i < |occs.gatePos| && occs.gatePos[i] == c;
        assert TrueBut(s, occs.gatePos[i], x);
      } else {
        var i :| 0 <= i < |occs.otherPos| && occs.otherPos[i] == c;
        forall j | 0 <= j < |occs.gateNeg| ensures ResolventTrue(s, c, occs.gateNeg[j], x) {
          assert ResolventTrue(s, occs.otherPos[i], occs.gateNeg[j], x);
        }
        OtherHolds(s, c, occs.gateNeg, x);
      }
      TrueButSame(s, t, c, x);
    }
    TrueSplit(t, c, x);
  }

  lemma NegativeHolds(s: Assignment, t: Assignment, occs: Occurrences, c: Clause, x: int)
    requires x != 0 && On(c, -x) && (c in occs.gateNeg || c in occs.otherNeg) && SameBut(s, t, x)
    requires ResolventsTrue(s, occs.gatePos, occs.otherNeg, x)
    requires LitTrue(t, x) ==> AllTrueBut(s, occs.gateNeg, -x)
    requires (occs.otherPos == [] && occs.otherNeg == []) || DefinesPivot(s, occs.gatePos, occs.gateNeg, x)
    ensures ClauseTrue(t, c)
  {
    LitNegation(t, x);
    if LitTrue(t, x) {
      if c in occs.gateNeg {
        var i :| 0 <= i < |occs.gateNeg| && occs.gateNeg[i] == c;
        assert TrueBut(s, occs.gateNeg[i], -x);
      } else {
        var i :| 0 <= i < |occs.otherNeg| && occs.otherNeg[i] == c;
        assert - -x == x;
        forall j | 0 <= j < |occs.gatePos| ensures ResolventTrue(s, c, occs.gatePos[j], -x) {
          assert ResolventTrue(s, occs.gatePos[j], occs.otherNeg[i], x);
        }
        OtherHolds(s, c, occs.gatePos, -x);
      }
      TrueButSame(s, t, c, -x);
    }
    TrueSplit(t, c, -x);
  }

  // ----- Witness cubes -------------------------------------------------------------------------------

  /** No two literals of the cube are on the same variable. */
  ghost predicate Cube(w: seq<int>)
  {
    ProperClause(w) && forall l, m :: l in w && m in w ==> l != -m
  }

  /** After setting a cube its literals are true, and every literal whose negation is not in it keeps being true. */
  lemma {:induction false} SetCube(s: Assignment, w: seq<int>)
    requires Cube(w)
    ensures forall l :: l in w ==> LitTrue(SetAll(s, w), l)
    ensures forall l :: l != 0 && Opposite(l) !in w && LitTrue(s, l) ==> LitTrue(SetAll(s, w), l)
    decreases |w|
  {
    if w != [] {
      var front, last := w[..|w| - 1], w[|w| - 1];
      assert w == front + [last] && last in w;
      var t := SetTrue(s, last);
      SetTrueFacts(s, last);
      assert Cube(front) by { assert forall l :: l in front ==> l in w; }
      SetCube(t, front);
      forall l | l in front ensures l != Opposite(last) { assert l in w; }
      forall l | l != 0 && Opposite(l) !in w && LitTrue(s, l)
        ensures LitTrue(SetAll(s, w), l)
      {
        assert Opposite(l) != last;
      }
    }
  }

  lemma OneEntry(s: Assignment, e: Entry)
    ensures RepairAll(s, [e]) == Repair(s, e)
  {
    assert [e][..0] == [];
    assert RepairAll(Repair(s, e), []) == Repair(s, e);
  }

  /** Removing a clause with a witness is sound if every model of the rest that falsifies the clause becomes a model
      of everything by making the witness true. */
  lemma RemovalSound(before: Formula, c: Clause, w: seq<int>, high: int, low: int)
    requires c in before
    requires forall s :: Sat(s, before - {c}) && !ClauseTrue(s, c) ==> Sat(SetAll(s, w), before)
    ensures Sound(before, before - {c}, [Entry(w, high, low, c)])
  {
    forall s | Sat(s, before - {c})
      ensures Sat(RepairAll(s, [Entry(w, high, low, c)]), before)
    {
      OneEntry(s, Entry(w, high, low, c));
    }
  }

  // ----- Blocked clauses -----------------------------------------------------------------------------

  /** The resolvent of c and d on l contains a literal and its negation. */
  ghost predicate TautologicalOn(c: Clause, d: Clause, l: int)
  {
    exists m :: m in c && m != l && Opposite(m) in d
  }

  ghost predicate Blocked(f: Formula, c: Clause, l: int)
  {
    l in c && forall d :: d in f && Opposite(l) in d ==> TautologicalOn(c, d, l)
  }

  /** A blocked clause can be removed with its blocking literal as witness. */
  lemma BlockedSound(before: Formula, c: Clause, l: int, high: int, low: int)
    requires c in before && Blocked(before - {c}, c, l) && forall d :: d in before ==> ProperClause(d)
    ensures Sound(before, before - {c}, [Entry([l], high, low, c)])
  {
    forall s | Sat(s, before - {c}) && !ClauseTrue(s, c)
      ensures Sat(SetAll(s, [l]), before)
    {
      SetCube(s, [l]);
      var t := SetAll(s, [l]);
      forall d | d in before
        ensures ClauseTrue(t, d)
      {
        if d == c {
          assert LitTrue(t, l) by { assert l in [l]; }
        } else if Opposite(l) in d {
          BlockedPartner(s, t, c, d, l);
        } else {
          assert ClauseTrue(s, d) by { assert d in before - {c}; }
          var m :| m in d && LitTrue(s, m);
          assert Opposite(m) !in [l];
        }
      }
    }
    RemovalSound(before, c, [l], high, low);
  }

  lemma BlockedPartner(s: Assignment, t: Assignment, c: Clause, d: Clause, l: int)
    requires !ClauseTrue(s, c) && TautologicalOn(c, d, l) && ProperClause(c)
    requires forall m :: m != 0 && Opposite(m) !in [l] && LitTrue(s, m) ==> LitTrue(t, m)
    ensures ClauseTrue(t, d)
  {
    var m :| m in c && m != l && Opposite(m) in d;
    LitNegation(s, m);
    assert !LitTrue(s, m) && LitTrue(s, Opposite(m));
    assert Opposite(Opposite(m)) == m;
    assert LitTrue(t, Opposite(m));
  }

  // ----- Conditional autarkies -----------------------------------------------------------------------

  /** The refined assignment at its fixpoint: every conditional literal is negated in the candidate, every other
      clause that the autarky touches negatively has a true literal, and the candidate has an autarky literal. */
  ghost predicate GloballyBlocked(f: Formula, c: Clause, conditional: set<int>, autarky: seq<int>)
  {
    && Cube(autarky)
    && (forall k :: k in conditional ==> k != 0 && Opposite(k) in c && k !in autarky && Opposite(k) !in autarky)
    && (forall d :: d in f && Touched(d, autarky) ==> exists m :: m in d && (m in conditional || m in autarky))
    && (exists m :: m in c && m in autarky)
  }

  ghost predicate Touched(d: Clause, autarky: seq<int>)
  {
    exists m :: m in d && Opposite(m) in autarky
  }

  /** A globally blocked clause can be removed with the autarky as witness. */
  lemma GloballyBlockedSound(before: Formula, c: Clause, conditional: set<int>, autarky: seq<int>, high: int, low: int)
    requires c in before && GloballyBlocked(before - {c}, c, conditional, autarky)
    requires forall d :: d in before ==> ProperClause(d)
    ensures Sound(before, before - {c}, [Entry(autarky, high, low, c)])
  {
    forall s | Sat(s, before - {c}) && !ClauseTrue(s, c)
      ensures Sat(SetAll(s, autarky), before)
    {
      SetCube(s, autarky);
      var t := SetAll(s, autarky);
      forall k | k in conditional
        ensures LitTrue(t, k)
      {
        LitNegation(s, k);
        assert !LitTrue(s, Opposite(k)) && LitTrue(s, k);
      }
      forall d | d in before
        ensures ClauseTrue(t, d)
      {
        if d == c {
          var m :| m in c && m in autarky;
        } else if Touched(d, autarky) {
          var m :| m in d && (m in conditional || m in autarky);
        } else {
          assert ClauseTrue(s, d) by { assert d in before - {c}; }
          var m :| m in d && LitTrue(s, m);
          assert Opposite(m) !in autarky;
        }
      }
    }
    RemovalSound(before, c, autarky, high, low);
  }

  // ----- Equivalent literals -------------------------------------------------------------------------

  /** Each substituted variable with its representative literal, in the order in which they are pushed. */
  datatype Equivalence = Equivalence(variable: int, repr: int)

  ghost predicate SubstitutionOk(eqs: seq<Equivalence>)
  {
    && (forall i :: 0 <= i < |eqs| ==> eqs[i].variable > 0 && eqs[i].repr != 0)
    && (forall i, j :: 0 <= i < j < |eqs| ==> eqs[i].variable != eqs[j].variable)
    && (forall i, j :: 0 <= i < |eqs| && 0 <= j < |eqs| ==> Abs(eqs[i].repr) != eqs[j].variable)
  }

  /** The two binary clauses of the equivalence, with the phases of the variable as witnesses. */
  function EquivalenceEntries(eqs: seq<Equivalence>): seq<Entry>
  {
    if eqs == [] then []
    else
      var q := eqs[|eqs| - 1];
      EquivalenceEntries(eqs[..|eqs| - 1]) +
      [Entry([-q.variable], 0, 0, [-q.variable, q.repr]), Entry([q.variable], 0, 0, [q.variable, -q.repr])]
  }

  /** Repairing the two binary clauses copies the value of the representative. */
  lemma RepairEquivalence(s: Assignment, q: Equivalence)
    requires q.variable > 0 && q.repr != 0 && Abs(q.repr) != q.variable
    ensures var es := [Entry([-q.variable], 0, 0, [-q.variable, q.repr]), Entry([q.variable], 0, 0, [q.variable, -q.repr])];
            var t := RepairAll(s, es);
            && SameBut(s, t, q.variable) && (q.variable in t <==> LitTrue(s, q.repr))
  {
    var x, r := q.variable, q.repr;
    var e1, e2 := Entry([-x], 0, 0, [-x, r]), Entry([x], 0, 0, [x, -r]);
    assert [e1] + [e2] == [e1, e2];
    RepairConcat(s, [e1], [e2]);
    OneEntry(s, e2);
    var u := Repair(s, e2);
    OneEntry(u, e1);
    PairTrue(s, x, -r);
    PairTrue(u, -x, r);
    LitNegation(s, r);
    LitNegation(s, x);
    LitNegation(u, x);
    SetSingle(s, x);
    SetSingle(u, -x);
    SetTrueFacts(s, x);
    SetTrueFacts(u, -x);
  }

  lemma SetSingle(s: Assignment, l: int)
    ensures SetAll(s, [l]) == SetTrue(s, l)
  {
    assert [l][..0] == [];
    assert SetAll(SetTrue(s, l), []) == SetTrue(s, l);
  }

  lemma PairTrue(s: Assignment, a: int, b: int)
    ensures ClauseTrue(s, [a, b]) <==> LitTrue(s, a) || LitTrue(s, b)
  {
    assert a in [a, b] && b in [a, b];
  }

  /** In t every substituted variable has the value that its representative has in s, and nothing else changed. */
  ghost predicate Substitutes(s: Assignment, t: Assignment, eqs: seq<Equivalence>)
  {
    && (forall i :: 0 <= i < |eqs| ==> (eqs[i].variable in t <==> LitTrue(s, eqs[i].repr)))
    && (forall v :: v > 0 && !Substituted(eqs, v) ==> (v in t <==> v in s))
  }

  lemma {:induction false} RepairSubstitution(s: Assignment, eqs: seq<Equivalence>)
    requires SubstitutionOk(eqs)
    ensures Substitutes(s, RepairAll(s, EquivalenceEntries(eqs)), eqs)
    decreases |eqs|
  {
    if eqs != [] {
      hide RepairAll, Substitutes, SameBut;
      var front, q := eqs[..|eqs| - 1], eqs[|eqs| - 1];
      var es := [Entry([-q.variable], 0, 0, [-q.variable, q.repr]), Entry([q.variable], 0, 0, [q.variable, -q.repr])];
      assert EquivalenceEntries(eqs) == EquivalenceEntries(front) + es;
      hide EquivalenceEntries;
      RepairConcat(s, EquivalenceEntries(front), es);
      RepairEquivalence(s, q);
      var u := RepairAll(s, es);
      RepairSubstitution(u, front);
      SubstitutesOneMore(s, u, RepairAll(u, EquivalenceEntries(front)), eqs);
    }
  }

  lemma SubstitutesOneMore(s: Assignment, u: Assignment, t: Assignment, eqs: seq<Equivalence>)
    requires SubstitutionOk(eqs) && eqs != [] && Substitutes(u, t, eqs[..|eqs| - 1])
    requires var q := eqs[|eqs| - 1]; SameBut(s, u, q.variable) && (q.variable in u <==> LitTrue(s, q.repr))
    ensures Substitutes(s, t, eqs)
  {
    var n := |eqs| - 1;
    var front, q := eqs[..n], eqs[n];
    forall i | 0 <= i <= n
      ensures eqs[i].variable in t <==> LitTrue(s, eqs[i].repr)
    {
      if i < n {
        assert front[i] == eqs[i];
        assert Abs(eqs[i].repr) != eqs[n].variable;
      } else {
        assert !Substituted(front, q.variable) by {
          forall k | 0 <= k < n ensures front[k].variable != q.variable { assert front[k] == eqs[k]; }
        }
      }
    }
    forall v | v > 0 && !Substituted(eqs, v)
      ensures v in t <==> v in s
    {
      assert eqs[n].variable != v;
      NotSubstitutedFront(eqs, v);
      assert LitTrue(u, v) <==> LitTrue(s, v);
    }
  }

  ghost predicate Substituted(eqs: seq<Equivalence>, v: int)
  {
    exists i :: 0 <= i < |eqs| && eqs[i].variable == v
  }

  lemma NotSubstitutedFront(eqs: seq<Equivalence>, v: int)
    requires eqs != [] && !Substituted(eqs, v)
    ensures !Substituted(eqs[..|eqs| - 1], v)
  {
    var front := eqs[..|eqs| - 1];
    forall i | 0 <= i < |front| ensures front[i].variable != v { assert eqs[i].variable != v; }
  }

  /** The literal that replaces l. */
  function Replace(eqs: seq<Equivalence>, l: int): int
  {
    if eqs == [] then l
    else
      var q := eqs[|eqs| - 1];
      if l == q.variable then q.repr else if l == -q.variable then -q.repr else Replace(eqs[..|eqs| - 1], l)
  }

  /** The replacement of a substituted literal is its representative, and of any other literal itself. */
  ghost predicate Replaces(eqs: seq<Equivalence>, l: int, r: int)
  {
    if Substituted(eqs, Abs(l)) then
      exists i :: 0 <= i < |eqs| && eqs[i].variable == Abs(l) && r == if l > 0 then eqs[i].repr else -eqs[i].repr
    else r == l
  }

  lemma {:induction false} ReplaceFacts(eqs: seq<Equivalence>, l: int)
    requires (forall i :: 0 <= i < |eqs| ==> eqs[i].variable > 0) && l != 0
    ensures Replaces(eqs, l, Replace(eqs, l))
    decreases |eqs|
  {
    if eqs != [] {
      var front, q := eqs[..|eqs| - 1], eqs[|eqs| - 1];
      ReplaceFacts(front, l);
      hide Replaces, Substituted;
      if Abs(l) == q.variable {
        ReplacesLast(eqs, l);
      } else {
        ReplacesFront(eqs, l, Replace(front, l));
      }
    }
  }

  lemma ReplacesLast(eqs: seq<Equivalence>, l: int)
    requires eqs != [] && eqs[|eqs| - 1].variable == Abs(l)
    ensures var r := eqs[|eqs| - 1].repr; Replaces(eqs, l, if l > 0 then r else -r)
  {
    var n := |eqs| - 1;
    assert eqs[n].variable == Abs(l);
  }

  lemma ReplacesFront(eqs: seq<Equivalence>, l: int, r: int)
    requires eqs != [] && eqs[|eqs| - 1].variable != Abs(l) && Replaces(eqs[..|eqs| - 1], l, r)
    ensures Replaces(eqs, l, r)
  {
    var front := eqs[..|eqs| - 1];
    if Substituted(front, Abs(l)) {
      var i :| 0 <= i < |front| && front[i].variable == Abs(l) && r == if l > 0 then front[i].repr else -front[i].repr;
      assert eqs[i] == front[i];
    } else {
      forall i | 0 <= i < |eqs| ensures eqs[i].variable != Abs(l) {
        if i < |front| { assert front[i].variable != Abs(l); }
      }
    }
  }

  /** The value of a literal after the walk is the value of its replacement before. */
  lemma ReplacedValue(s: Assignment, eqs: seq<Equivalence>, l: int)
    requires SubstitutionOk(eqs) && l != 0
    ensures LitTrue(RepairAll(s, EquivalenceEntries(eqs)), l) <==> LitTrue(s, Replace(eqs, l))
  {
    RepairSubstitution(s, eqs);
    ReplaceFacts(eqs, l);
    SubstitutedValue(s, RepairAll(s, EquivalenceEntries(eqs)), eqs, l, Replace(eqs, l));
  }

  lemma SubstitutedValue(s: Assignment, t: Assignment, eqs: seq<Equivalence>, l: int, r: int)
    requires SubstitutionOk(eqs) && l != 0 && Substitutes(s, t, eqs) && Replaces(eqs, l, r)
    ensures LitTrue(t, l) <==> LitTrue(s, r)
  {
    if Substituted(eqs, Abs(l)) {
      var i :| 0 <= i < |eqs| && eqs[i].variable == Abs(l) && r == if l > 0 then eqs[i].repr else -eqs[i].repr;
      LitNegation(s, eqs[i].repr);
    }
  }

  /** Every clause of the old formula has its substituted form (or something stronger) among the consequences of the
      new one. */
  ghost predicate SubstitutedForm(before: Formula, after: Formula, eqs: seq<Equivalence>)
  {
    forall c, s :: c in before && Sat(s, after) ==> exists l :: l in c && LitTrue(s, Replace(eqs, l))
  }

  /** Substituting equivalent literals is sound: replaying the two binaries of each equivalence rebuilds a model. */
  lemma SubstitutionSound(before: Formula, after: Formula, eqs: seq<Equivalence>)
    requires SubstitutionOk(eqs) && forall c :: c in before ==> ProperClause(c)
    requires forall s :: Sat(s, before) ==> Sat(s, after)
    requires SubstitutedForm(before, after, eqs)
    ensures Sound(before, after, EquivalenceEntries(eqs))
  {
    forall s | Sat(s, after)
      ensures Sat(RepairAll(s, EquivalenceEntries(eqs)), before)
    {
      forall c | c in before
        ensures ClauseTrue(RepairAll(s, EquivalenceEntries(eqs)), c)
      {
        var l :| l in c && LitTrue(s, Replace(eqs, l));
        ReplacedValue(s, eqs, l);
      }
    }
  }
}
