/** Literals, clauses, formulas and total assignments, as every component of the solver reads them:
    a literal is a non-zero integer, negation is arithmetic negation, a clause is a sequence of
    literals, and a formula is a sequence of clauses. */
module Logic {

  type Clause = seq<int>

  /** A total assignment, given as the (possibly infinite) set of variables that are true. */
  type Assignment = iset<int>

  function Abs(lit: int): (v: nat)
  {
    if lit < 0 then -lit else lit
  }

  ghost predicate LitTrue(s: Assignment, lit: int)
  {
    if lit > 0 then lit in s else -lit !in s
  }

  ghost predicate ClauseTrue(s: Assignment, c: Clause)
  {
    exists l :: l in c && LitTrue(s, l)
  }

  ghost predicate CnfTrue(s: Assignment, f: seq<Clause>)
  {
    forall c :: c in f ==> ClauseTrue(s, c)
  }

  /** Every model of f satisfies c. */
  ghost predicate Implies(f: seq<Clause>, c: Clause)
  {
    forall s :: CnfTrue(s, f) ==> ClauseTrue(s, c)
  }

  ghost predicate Unsat(f: seq<Clause>)
  {
    forall s :: !CnfTrue(s, f)
  }

  /** No literal is zero (zero terminates lists and names no variable). */
  predicate ProperClause(c: Clause)
  {
    forall l :: l in c ==> l != 0
  }

  function Lits(c: Clause): set<int>
  {
    set l | l in c
  }

  /** The negation of a literal. */
  function Opposite(l: int): int { -l }

  predicate Distinct(s: seq<int>)
  {
    forall i, j :: 0 <= i < j < |s| ==> s[i] != s[j]
  }

  /** Distinct sequences have as many elements as members. */
  lemma {:induction false} DistinctCount(s: seq<int>)
    requires Distinct(s)
    ensures |Lits(s)| == |s|
  {
    if s != [] {
      var front := s[..|s| - 1];
      DistinctCount(front);
      assert Lits(s) == Lits(front) + {s[|s| - 1]};
    }
  }

  /** Permutations have the same members, and distinct ones stay so. */
  lemma SameElements(a: seq<int>, b: seq<int>)
    requires multiset(a) == multiset(b)
    ensures forall l :: l in a <==> l in b
    ensures Distinct(a) ==> Distinct(b)
  {
    forall l ensures l in a <==> l in b {
      assert l in multiset(a) <==> l in a;
      assert l in multiset(b) <==> l in b;
    }
    if Distinct(a) {
      forall i, j | 0 <= i < j < |b| ensures b[i] != b[j] {
        if b[i] == b[j] {
          TwiceCounts(b, i, j);
          DistinctOnce(a, b[i]);
        }
      }
    }
  }

  lemma TwiceCounts(b: seq<int>, i: nat, j: nat)
    requires i < j < |b| && b[i] == b[j]
    ensures multiset(b)[b[i]] >= 2
  {
    assert b == b[..i] + [b[i]] + b[i + 1..j] + [b[j]] + b[j + 1..];
  }

  lemma {:induction false} DistinctOnce(a: seq<int>, l: int)
    requires Distinct(a)
    ensures multiset(a)[l] <= 1
  {
    if a != [] {
      var front := a[..|a| - 1];
      DistinctOnce(front, l);
      assert a == front + [a[|a| - 1]];
      if l == a[|a| - 1] { assert l !in front; }
    }
  }

  lemma CnfTrueConcat(s: Assignment, f: seq<Clause>, g: seq<Clause>)
    ensures CnfTrue(s, f + g) <==> CnfTrue(s, f) && CnfTrue(s, g)
  {
    assert forall c :: c in f ==> c in f + g;
    assert forall c :: c in g ==> c in f + g;
    assert forall c :: c in f + g ==> c in f || c in g;
  }

  lemma LitNegation(s: Assignment, l: int)
    requires l != 0
    ensures LitTrue(s, -l) <==> !LitTrue(s, l)
  {
  }
}
