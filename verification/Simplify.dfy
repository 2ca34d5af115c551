/** Preparing an imported clause (cadical/src/checker.cpp, tautological): literals are sorted by variable and
    sign, duplicates are dropped, and satisfied or tautological clauses are recognized. */
module Simplify {
  import opened Logic
  import opened Watches
  import opened UnitPropagation

  /** The order of lit_smaller: by variable, then by sign. */
  predicate Before(a: int, b: int)
  {
    Abs(a) < Abs(b) || (Abs(a) == Abs(b) && a <= b)
  }

  ghost predicate InOrder(c: Clause)
  {
    forall i, j :: 0 <= i < j < |c| ==> Before(c[i], c[j])
  }

  function Insert(l: int, c: Clause): Clause
  {
    if c == [] then [l]
    else if Before(l, c[0]) then [l] + c
    else [c[0]] + Insert(l, c[1..])
  }

  function Sort(c: Clause): Clause
  {
    if c == [] then [] else Insert(c[0], Sort(c[1..]))
  }

  lemma {:induction false} InsertSorted(l: int, c: Clause)
    requires InOrder(c)
    ensures InOrder(Insert(l, c)) && forall m :: m in Insert(l, c) <==> m == l || m in c
    decreases |c|
  {
    if c != [] && !Before(l, c[0]) {
      assert c == [c[0]] + c[1..];
      InsertSorted(l, c[1..]);
      var rest := Insert(l, c[1..]);
      forall j | 0 <= j < |rest| ensures Before(c[0], rest[j]) {
        assert rest[j] in rest;
        if rest[j] != l { assert rest[j] in c[1..]; }
      }
    }
  }

  lemma {:induction false} SortSorted(c: Clause)
    ensures InOrder(Sort(c)) && forall m :: m in Sort(c) <==> m in c
    decreases |c|
  {
    if c != [] {
      SortSorted(c[1..]);
      InsertSorted(c[0], Sort(c[1..]));
      assert c == [c[0]] + c[1..];
    }
  }

  /** No two literals on the same variable. */
  ghost predicate DifferentVars(c: Clause)
  {
    forall i, j :: 0 <= i < j < |c| ==> c[i] != c[j] && c[i] != -c[j]
  }

  ghost predicate HasClash(c: Clause)
  {
    exists l, m :: l in c && m in c && l == -m
  }

  /** True exactly if the clause holds a true literal or a literal and its negation; otherwise simplified is the
      clause without duplicates. */
  method Tautological(c: Clause, vals: map<int, int>, ghost trail: seq<int>) returns (redundant: bool, simplified: Clause)
    requires ProperClause(c) && TrailOk(vals, trail)
    ensures redundant <==> TrueIn(trail, c) || HasClash(c)
    ensures !redundant ==>
              && (forall l :: l in simplified <==> l in c)
              && DifferentVars(simplified) && ProperClause(simplified) && !TrueIn(trail, simplified)
  {
    var sorted := Sort(c);
    SortSorted(c);
    simplified := [];
    var prev := 0;
    var i := 0;
    while i < |sorted|
      invariant 0 <= i <= |sorted|
      invariant forall l :: l in simplified <==> l in sorted[..i]
      invariant Increasing(simplified)
      invariant if simplified == [] then prev == 0 && i == 0 else i > 0 && prev == simplified[|simplified| - 1]
      invariant i > 0 ==> prev == sorted[i - 1]
      invariant forall l :: l in simplified ==> l !in trail
    {
      var lit := sorted[i];
      assert lit in sorted;
      assert sorted[..i + 1] == sorted[..i] + [lit];
      assert i > 0 ==> Before(prev, lit) && prev != 0 by { if i > 0 { assert sorted[i - 1] in sorted; } }
      if lit == prev {
        i := i + 1;
        continue;
      }
      if lit == -prev {
        assert prev in sorted;
        return true, simplified;
      }
      ValueOf(vals, trail, lit);
      if Val(vals, lit) > 0 {
        return true, simplified;
      }
      IncreasingAppend(simplified, lit);
      simplified := simplified + [lit];
      prev := lit;
      i := i + 1;
    }
    assert sorted[..i] == sorted;
    redundant := false;
    IncreasingDifferent(simplified);
    assert !HasClash(c) by { NoClash(simplified, c); }
  }

  ghost predicate Increasing(c: Clause)
  {
    forall i, j :: 0 <= i < j < |c| ==> Abs(c[i]) < Abs(c[j])
  }

  lemma IncreasingAppend(c: Clause, l: int)
    requires Increasing(c) && (c != [] ==> Abs(c[|c| - 1]) < Abs(l))
    ensures Increasing(c + [l])
  {
  }

  lemma IncreasingDifferent(c: Clause)
    requires Increasing(c)
    ensures DifferentVars(c)
  {
    forall i, j | 0 <= i < j < |c| ensures c[i] != c[j] && c[i] != -c[j] {
      assert Abs(c[j]) == Abs(-c[j]);
    }
  }

  lemma NoClash(d: Clause, c: Clause)
    requires DifferentVars(d) && ProperClause(c) && forall l :: l in d <==> l in c
    ensures !HasClash(c)
  {
    forall l, m | l in c && m in c ensures l != -m {
      var i :| 0 <= i < |d| && d[i] == l;
      var j :| 0 <= j < |d| && d[j] == m;
      assert i == j ==> l == m;
    }
  }
}
