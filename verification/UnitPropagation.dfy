/** Unit propagation in its plainest form: a derivation assigns one literal after the other, each forced by
    a clause whose other literals are all false. It is the reference that the watch-based checker meets. */
module UnitPropagation {
  import opened Logic

  /** The literal is false under the given set of true literals. */
  predicate Falsified(trail: seq<int>, l: int) { -l in trail }

  predicate TrueIn(trail: seq<int>, c: Clause) { exists l :: l in c && l in trail }

  /** All literals but l (and, if l is not in the clause, all literals) are false. */
  predicate Forces(trail: seq<int>, c: Clause, l: int)
  {
    forall m :: m in c && m != l ==> Falsified(trail, m)
  }

  /** A literal and the clause that forces it. */
  datatype Forced = Forced(lit: int, reason: Clause)

  /** Starting from start, each step assigns the literal that its clause forces. */
  ghost predicate Derivation(clauses: set<Clause>, start: seq<int>, steps: seq<Forced>)
    decreases |steps|
  {
    steps == [] ||
    var last := steps[|steps| - 1];
    && Derivation(clauses, start, steps[..|steps| - 1])
    && last.reason in clauses && last.lit in last.reason
    && Forces(start + Assigned(steps[..|steps| - 1]), last.reason, last.lit)
  }

  function Assigned(steps: seq<Forced>): seq<int>
  {
    if steps == [] then [] else Assigned(steps[..|steps| - 1]) + [steps[|steps| - 1].lit]
  }

  /** Plain unit propagation refutes start: some derivation ends with a falsified clause. */
  ghost predicate Refutes(clauses: set<Clause>, start: seq<int>)
  {
    exists steps, c :: Refutation(clauses, start, steps, c)
  }

  ghost predicate Refutation(clauses: set<Clause>, start: seq<int>, steps: seq<Forced>, c: Clause)
  {
    && Derivation(clauses, start, steps) && c in clauses
    && forall m :: m in c ==> Falsified(start + Assigned(steps), m)
  }

  ghost predicate Consistent(trail: seq<int>)
  {
    forall i, j :: 0 <= i < |trail| && 0 <= j < |trail| ==> trail[i] != -trail[j]
  }

  /** The clause neither is falsified nor forces a literal that is not yet true: it is satisfied, or two of its
      literals are not false. */
  ghost predicate Quiet(trail: seq<int>, c: Clause)
  {
    TrueIn(trail, c) || exists i, j :: 0 <= i < j < |c| && c[i] != c[j] && !Falsified(trail, c[i]) && !Falsified(trail, c[j])
  }

  /** Under a quiet, consistent assignment every plain derivation from part of it stays inside it. */
  lemma {:induction false} QuietContains(clauses: set<Clause>, start: seq<int>, trail: seq<int>, steps: seq<Forced>)
    requires Consistent(trail) && (forall l :: l in start ==> l in trail)
    requires forall c :: c in clauses ==> Quiet(trail, c)
    requires Derivation(clauses, start, steps)
    ensures forall l :: l in start + Assigned(steps) ==> l in trail
    decreases |steps|
  {
    if steps != [] {
      var front, last := steps[..|steps| - 1], steps[|steps| - 1];
      QuietContains(clauses, start, trail, front);
      var now := start + Assigned(front);
      assert Quiet(trail, last.reason);
      forall m | m in last.reason && m != last.lit ensures Falsified(trail, m) {
        assert Falsified(now, m);
      }
      QuietForces(trail, last.reason, last.lit);
    }
  }

  lemma NotBoth(trail: seq<int>, m: int)
    requires Consistent(trail) && m in trail
    ensures !Falsified(trail, m)
  {
    var i :| 0 <= i < |trail| && trail[i] == m;
    assert forall j :: 0 <= j < |trail| ==> trail[i] != -trail[j];
  }

  /** A quiet clause that forces a literal is satisfied already. */
  lemma QuietSatisfied(trail: seq<int>, c: Clause, l: int)
    requires Quiet(trail, c) && Forces(trail, c, l)
    ensures TrueIn(trail, c)
  {
    assert forall i :: 0 <= i < |c| ==> c[i] in c;
  }

  lemma QuietForces(trail: seq<int>, c: Clause, l: int)
    requires Consistent(trail) && Quiet(trail, c) && Forces(trail, c, l)
    ensures l in trail && l in c
  {
    QuietSatisfied(trail, c, l);
    var m :| m in c && m in trail;
    NotBoth(trail, m);
    assert m == l;
  }

  /** No plain refutation exists below a quiet, consistent assignment. */
  lemma QuietIrrefutable(clauses: set<Clause>, start: seq<int>, trail: seq<int>)
    requires Consistent(trail) && (forall l :: l in start ==> l in trail)
    requires forall c :: c in clauses ==> Quiet(trail, c)
    ensures !Refutes(clauses, start)
  {
    forall steps, c | Derivation(clauses, start, steps) && c in clauses
      ensures exists m :: m in c && !Falsified(start + Assigned(steps), m)
    {
      QuietContains(clauses, start, trail, steps);
      QuietSpare(trail, c);
      var m :| m in c && !Falsified(trail, m);
      assert !Falsified(start + Assigned(steps), m);
    }
  }

  lemma QuietSpare(trail: seq<int>, c: Clause)
    requires Consistent(trail) && Quiet(trail, c)
    ensures exists m :: m in c && !Falsified(trail, m)
  {
    if TrueIn(trail, c) {
      var m :| m in c && m in trail;
      NotBoth(trail, m);
    } else {
      var i, j :| 0 <= i < j < |c| && c[i] != c[j] && !Falsified(trail, c[i]) && !Falsified(trail, c[j]);
      assert c[i] in c;
    }
  }
}
