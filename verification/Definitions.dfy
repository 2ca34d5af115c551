/** Definitional (Tseitin) clause sets: formulas that give every variable of an index range exactly one
    value, as a function of the variables below the range. The interpolant emitted by the tracer is such
    a set followed by one unit clause. */
module Definitions {
  import opened Logic

  datatype CnfType = NoCnf | Constant0 | Constant1 | Normal

  /** The value that each defined variable takes under an assignment. */
  type Meaning = (int, Assignment) -> bool

  ghost predicate AgreeBelow(s: Assignment, t: Assignment, n: int)
  {
    forall v :: 0 < v < n ==> (v in s <==> v in t)
  }

  /** Exactly the values given by meaning satisfy the clauses, and those values only depend on variables
      below base. */
  ghost predicate Defines(defs: seq<Clause>, base: int, lo: int, hi: int, meaning: Meaning)
  {
    && (forall s :: CnfTrue(s, defs) <==> Follows(s, lo, hi, meaning))
    && (forall v, s, t :: lo <= v < hi && AgreeBelow(s, t, base) ==> meaning(v, s) == meaning(v, t))
  }

  ghost predicate Follows(s: Assignment, lo: int, hi: int, meaning: Meaning)
  {
    forall v :: lo <= v < hi ==> (v in s <==> meaning(v, s))
  }

  /** The emitted clauses denote f. A constant needs no variables; otherwise the last clause is a unit and
      the clauses before it define the variables in [lo, hi) such that the unit's literal equals f. */
  ghost predicate Represents(kind: CnfType, cnf: seq<Clause>, base: int, lo: int, hi: int, meaning: Meaning,
                             f: Assignment -> bool)
  {
    && 0 < base <= lo <= hi
    && (forall s, t :: AgreeBelow(s, t, base) ==> f(s) == f(t))
    && match kind
       case NoCnf => false
       case Constant0 => cnf == [[]] && forall s :: !f(s)
       case Constant1 => cnf == [] && forall s :: f(s)
       case Normal =>
         && |cnf| > 0 && |cnf[|cnf| - 1]| == 1 && cnf[|cnf| - 1][0] != 0
         && Defines(cnf[..|cnf| - 1], base, lo, hi, meaning)
         && forall s :: Follows(s, lo, hi, meaning) ==> (LitTrue(s, cnf[|cnf| - 1][0]) <==> f(s))
  }

  /** The assignment that keeps s outside [lo, hi) and follows the definitions inside. */
  ghost function Complete(s: Assignment, lo: int, hi: int, meaning: Meaning): Assignment
  {
    iset v | (lo <= v < hi && meaning(v, s)) || (!(lo <= v < hi) && v in s)
  }

  /** Every assignment below the first fresh variable extends to the defined variables in exactly one way. */
  lemma UniqueCompletion(defs: seq<Clause>, base: int, lo: int, hi: int, meaning: Meaning, s: Assignment)
    requires base <= lo <= hi && Defines(defs, base, lo, hi, meaning)
    ensures CnfTrue(Complete(s, lo, hi, meaning), defs)
    ensures AgreeBelow(s, Complete(s, lo, hi, meaning), base)
    ensures forall t :: AgreeBelow(s, t, base) && CnfTrue(t, defs) ==>
              forall v :: lo <= v < hi ==> (v in t <==> v in Complete(s, lo, hi, meaning))
  {
    var u := Complete(s, lo, hi, meaning);
    assert AgreeBelow(s, u, base);
    assert Follows(u, lo, hi, meaning);
    forall t | AgreeBelow(s, t, base) && CnfTrue(t, defs)
      ensures forall v :: lo <= v < hi ==> (v in t <==> v in u)
    {
      assert Follows(t, lo, hi, meaning);
    }
  }

  /** The emitted CNF is satisfiable above s exactly when f holds of s: existentially quantifying the
      fresh variables gives back f. */
  lemma Projection(kind: CnfType, cnf: seq<Clause>, base: int, lo: int, hi: int, meaning: Meaning,
                   f: Assignment -> bool, s: Assignment)
    requires Represents(kind, cnf, base, lo, hi, meaning, f)
    ensures (exists t :: AgreeBelow(s, t, base) && CnfTrue(t, cnf)) <==> f(s)
  {
    match kind
    case Constant0 =>
      assert forall t :: !ClauseTrue(t, []);
      assert [] in cnf;
    case Constant1 =>
      assert AgreeBelow(s, s, base) && CnfTrue(s, cnf);
    case Normal =>
      var defs, root := cnf[..|cnf| - 1], cnf[|cnf| - 1];
      assert cnf == defs + [root] && root == [root[0]];
      UniqueCompletion(defs, base, lo, hi, meaning, s);
      var u := Complete(s, lo, hi, meaning);
      assert f(s) == f(u);
      forall t
        ensures CnfTrue(t, cnf) <==> CnfTrue(t, defs) && LitTrue(t, root[0])
      {
        CnfTrueConcat(t, defs, [root]);
        UnitTrue(t, root[0]);
      }
      assert CnfTrue(u, defs) && Follows(u, lo, hi, meaning);
      if f(s) {
        assert CnfTrue(u, cnf);
      }
      forall t | AgreeBelow(s, t, base) && CnfTrue(t, cnf)
        ensures f(s)
      {
        assert Follows(t, lo, hi, meaning);
        assert f(s) == f(t);
      }
  }

  lemma UnitTrue(s: Assignment, l: int)
    ensures CnfTrue(s, [[l]]) <==> LitTrue(s, l)
  {
    assert [l] in [[l]] && l in [l];
  }

  /** Inverting the last literal (or swapping the constants) denotes the negated function. */
  lemma NegatedRoot(kind: CnfType, cnf: seq<Clause>, base: int, lo: int, hi: int, meaning: Meaning,
                    f: Assignment -> bool)
    requires Represents(kind, cnf, base, lo, hi, meaning, f)
    ensures Represents(InvertKind(kind), InvertCnf(kind, cnf), base, lo, hi, meaning, Complement(f))
  {
    if kind == Normal {
      var last := |cnf| - 1;
      var inverted := InvertCnf(kind, cnf);
      assert inverted[..|inverted| - 1] == cnf[..last];
      forall s | Follows(s, lo, hi, meaning)
        ensures LitTrue(s, inverted[last][0]) <==> Complement(f)(s)
      {
        LitNegation(s, cnf[last][0]);
      }
    }
  }

  ghost function Complement(f: Assignment -> bool): Assignment -> bool
  {
    s => !f(s)
  }

  function InvertKind(kind: CnfType): CnfType
  {
    match kind
    case Constant0 => Constant1
    case Constant1 => Constant0
    case _ => kind
  }

  function InvertCnf(kind: CnfType, cnf: seq<Clause>): seq<Clause>
    requires kind == Normal ==> |cnf| > 0 && |cnf[|cnf| - 1]| == 1
  {
    match kind
    case Constant0 => []
    case Constant1 => [[]]
    case Normal => cnf[|cnf| - 1 := [-cnf[|cnf| - 1][0]]]
    case NoCnf => cnf
  }

  /** All variables of the formula lie in vars or in the range [lo, hi). */
  ghost predicate CnfOver(cnf: seq<Clause>, vars: set<int>, lo: int, hi: int)
  {
    forall c, l :: c in cnf && l in c ==> Abs(l) in vars || lo <= Abs(l) < hi
  }

  lemma InvertOver(kind: CnfType, cnf: seq<Clause>, vars: set<int>, lo: int, hi: int)
    requires kind == Normal ==> |cnf| > 0 && |cnf[|cnf| - 1]| == 1
    requires CnfOver(cnf, vars, lo, hi)
    ensures CnfOver(InvertCnf(kind, cnf), vars, lo, hi)
  {
    if kind == Normal {
      var last := cnf[|cnf| - 1];
      assert last in cnf && last[0] in last;
      var inverted := InvertCnf(kind, cnf);
      forall c, l | c in inverted && l in c
        ensures Abs(l) in vars || lo <= Abs(l) < hi
      {
        if c != [-last[0]] {
          var i :| 0 <= i < |inverted| && inverted[i] == c;
          assert c == cnf[i];
        }
      }
    }
  }
}
