/** The four systems of partial interpolants kept by the Craig tracer, their rules, and the backward pass
    that turns an antecedent chain into resolution steps (cadical/contrib/craigtracer.cpp). */
module Interpolation {
  import opened Logic

  datatype VarType = ALocal | BLocal | Global
  datatype ClauseType = AClause | BClause | LClause
  datatype Construction = Symmetric | Asymmetric | DualSymmetric | DualAsymmetric

  type Labels = map<int, VarType>

  /** Looking up a variable without a label yields the zero value of the enumeration. */
  function TypeOf(labels: Labels, lit: int): VarType
  {
    if Abs(lit) in labels then labels[Abs(lit)] else ALocal
  }

  /** An A-clause has no B-local literal and a B-clause has no A-local literal. */
  predicate RespectsLabel(labels: Labels, c: Clause, kind: ClauseType)
  {
    && ProperClause(c)
    && (forall l :: l in c ==> Abs(l) in labels)
    && match kind
       case AClause => forall l :: l in c ==> TypeOf(labels, l) != BLocal
       case BClause => forall l :: l in c ==> TypeOf(labels, l) != ALocal
       case LClause => false
  }

  // ----- Partial interpolants ------------------------------------------------------------------------

  /** The literals of a clause that its partial interpolant may use on the A side ... */
  predicate OnLeft(k: Construction, t: VarType)
  {
    if k == Asymmetric then t == ALocal else t != BLocal
  }

  /** ... and on the B side. */
  predicate OnRight(k: Construction, t: VarType)
  {
    if k == DualAsymmetric then t == BLocal else t != ALocal
  }

  ghost predicate FalseLeft(k: Construction, labels: Labels, s: Assignment, c: set<int>)
  {
    forall l :: l in c && OnLeft(k, TypeOf(labels, l)) ==> !LitTrue(s, l)
  }

  ghost predicate FalseRight(k: Construction, labels: Labels, s: Assignment, c: set<int>)
  {
    forall l :: l in c && OnRight(k, TypeOf(labels, l)) ==> !LitTrue(s, l)
  }

  /** The dual symmetric graph stores the negation of its interpolant. */
  function Stored(k: Construction, raw: bool): bool
  {
    if k == DualSymmetric then !raw else raw
  }

  /** The invariant of a clause and its partial interpolant under one assignment, where a and b say whether
      the assignment satisfies the A side and the B side. */
  ghost predicate Partial(k: Construction, labels: Labels, s: Assignment, a: bool, b: bool, c: set<int>, raw: bool)
  {
    && (a && FalseLeft(k, labels, s, c) ==> Stored(k, raw))
    && !(b && Stored(k, raw) && FalseRight(k, labels, s, c))
  }

  /** The rule applied for a resolution on pivot, a literal of the first clause. */
  function Combine(k: Construction, t: VarType, pivotTrue: bool, first: bool, second: bool): bool
  {
    match k
    case Symmetric =>
      (match t
       case ALocal => first || second
       case BLocal => first && second
       case Global => (first || pivotTrue) && (second || !pivotTrue))
    case Asymmetric =>
      if t == ALocal then first || second else first && second
    case DualSymmetric =>
      (match t
       case ALocal => first && second
       case BLocal => first || second
       case Global => (first && !pivotTrue) || (second && pivotTrue))
    case DualAsymmetric =>
      if t == BLocal then first && second else first || second
  }

  function Resolvent(c: set<int>, pivot: int, d: set<int>): set<int>
  {
    (c - {pivot}) + (d - {-pivot})
  }

  /** Resolution keeps the invariant, whether or not the pivot really occurs in both clauses. */
  lemma ResolvePartial(k: Construction, labels: Labels, s: Assignment, a: bool, b: bool, c: set<int>, pivot: int,
                       d: set<int>, first: bool, second: bool)
    requires pivot != 0
    requires Partial(k, labels, s, a, b, c, first) && Partial(k, labels, s, a, b, d, second)
    ensures Partial(k, labels, s, a, b, Resolvent(c, pivot, d),
                    Combine(k, TypeOf(labels, pivot), LitTrue(s, pivot), first, second))
  {
    var r := Resolvent(c, pivot, d);
    LitNegation(s, pivot);
    assert TypeOf(labels, pivot) == TypeOf(labels, -pivot);
    if FalseLeft(k, labels, s, r) {
      assert !OnLeft(k, TypeOf(labels, pivot)) || !LitTrue(s, pivot) ==> FalseLeft(k, labels, s, c);
      assert !OnLeft(k, TypeOf(labels, pivot)) || LitTrue(s, pivot) ==> FalseLeft(k, labels, s, d);
    }
    if FalseRight(k, labels, s, r) {
      assert !OnRight(k, TypeOf(labels, pivot)) || !LitTrue(s, pivot) ==> FalseRight(k, labels, s, c);
      assert !OnRight(k, TypeOf(labels, pivot)) || LitTrue(s, pivot) ==> FalseRight(k, labels, s, d);
    }
  }

  lemma WeakenPartial(k: Construction, labels: Labels, s: Assignment, a: bool, b: bool, c: set<int>, d: set<int>,
                      raw: bool)
    requires c <= d && Partial(k, labels, s, a, b, c, raw)
    ensures Partial(k, labels, s, a, b, d, raw)
  {
    assert FalseLeft(k, labels, s, d) ==> FalseLeft(k, labels, s, c);
    assert FalseRight(k, labels, s, d) ==> FalseRight(k, labels, s, c);
  }

  /** The value an original clause starts with. */
  ghost predicate ClauseValue(k: Construction, labels: Labels, c: Clause, kind: ClauseType, s: Assignment)
  {
    match k
    case Symmetric => kind != AClause
    case Asymmetric =>
      kind != AClause || exists l :: l in c && TypeOf(labels, l) == Global && LitTrue(s, l)
    case DualSymmetric => kind != BClause
    case DualAsymmetric =>
      kind == LClause || (kind == BClause && forall l :: l in c && TypeOf(labels, l) == Global ==> LitTrue(s, -l))
  }

  lemma OriginalPartial(k: Construction, labels: Labels, c: Clause, kind: ClauseType, s: Assignment, a: bool, b: bool)
    requires RespectsLabel(labels, c, kind)
    requires kind == AClause && a ==> ClauseTrue(s, c)
    requires kind == BClause && b ==> ClauseTrue(s, c)
    ensures Partial(k, labels, s, a, b, Lits(c), ClauseValue(k, labels, c, kind, s))
  {
    if ClauseTrue(s, c) {
      var l :| l in c && LitTrue(s, l);
      assert l in Lits(c);
      LitNegation(s, l);
    }
    forall l | l in c
      ensures LitTrue(s, -l) <==> !LitTrue(s, l)
      ensures l in Lits(c)
    {
      LitNegation(s, l);
    }
  }

  /** The value an assumption starts with. */
  function AssumptionValue(k: Construction, t: VarType): bool
  {
    match t
    case ALocal => k == DualSymmetric
    case BLocal => k != DualSymmetric
    case Global => k == Symmetric || k == Asymmetric
  }

  /** On which side an assumption counts: local ones on their own side; a global one on the B side, except
      in the dual asymmetric system, where it counts on the A side. */
  predicate AssumedLeft(k: Construction, t: VarType)
  {
    t == ALocal || (t == Global && k == DualAsymmetric)
  }

  predicate AssumedRight(k: Construction, t: VarType)
  {
    t == BLocal || (t == Global && k != DualAsymmetric)
  }

  lemma AssumptionPartial(k: Construction, labels: Labels, lit: int, s: Assignment, a: bool, b: bool)
    requires AssumedLeft(k, TypeOf(labels, lit)) && a ==> LitTrue(s, lit)
    requires AssumedRight(k, TypeOf(labels, lit)) && b ==> LitTrue(s, lit)
    ensures Partial(k, labels, s, a, b, {lit}, AssumptionValue(k, TypeOf(labels, lit)))
  {
  }

  /** A refuted clause: the interpolant separates the two sides. */
  lemma EmptyPartial(k: Construction, labels: Labels, s: Assignment, a: bool, b: bool, raw: bool)
    ensures Partial(k, labels, s, a, b, {}, raw) <==> (a ==> Stored(k, raw)) && !(b && Stored(k, raw))
  {
  }

  /** A literal left over needs no resolution if its negation is assumed on every side that may use it. */
  predicate Discharged(k: Construction, t: VarType)
  {
    (OnLeft(k, t) ==> AssumedLeft(k, t)) && (OnRight(k, t) ==> AssumedRight(k, t))
  }

  // ----- The backward pass over an antecedent chain --------------------------------------------------

  /** Resolve the running clause, which holds pivot, with the antecedent at index, which holds its negation. */
  datatype Step = Step(pivot: int, index: nat)

  /** Scanning a clause with the literals marked so far: a literal whose negation is marked is resolved on,
      and every literal is marked. Marks are never removed during the pass. */
  function ClauseSteps(marked: set<int>, d: Clause, index: nat): seq<Step>
    decreases |d|
  {
    if d == [] then []
    else (if -d[0] in marked then [Step(-d[0], index)] else []) + ClauseSteps(marked + {d[0]}, d[1..], index)
  }

  /** The steps for chain[n - 1], then chain[n - 2], and so on down to chain[0]. */
  function ChainSteps(chain: seq<Clause>, n: nat, marked: set<int>): seq<Step>
    requires n <= |chain|
    decreases n
  {
    if n == 0 then []
    else ClauseSteps(marked, chain[n - 1], n - 1) + ChainSteps(chain, n - 1, marked + Lits(chain[n - 1]))
  }

  predicate StepsWithin(steps: seq<Step>, n: nat)
  {
    forall t :: t in steps ==> t.index < n && t.pivot != 0
  }

  /** The clause that the steps derive from start. */
  function RunClause(chain: seq<Clause>, steps: seq<Step>, start: set<int>): set<int>
    requires StepsWithin(steps, |chain|)
    decreases |steps|
  {
    if steps == [] then start
    else
      var last := steps[|steps| - 1];
      assert last in steps;
      Resolvent(RunClause(chain, steps[..|steps| - 1], start), last.pivot, Lits(chain[last.index]))
  }

  // ----- Unit-propagating chains ---------------------------------------------------------------------

  /** The literal is false after assuming the negation of c and propagating the first n antecedents. */
  ghost predicate Falsified(m: int, c: Clause, pivots: seq<int>, n: nat)
    requires n <= |pivots|
  {
    m in c || exists j :: 0 <= j < n && pivots[j] == -m
  }

  ghost predicate Unassigned(m: int, c: Clause, pivots: seq<int>, n: nat)
    requires n <= |pivots|
  {
    m !in c && -m !in c && forall j :: 0 <= j < n ==> pivots[j] != m && pivots[j] != -m
  }

  /** The antecedent at n propagates pivots[n], which was not assigned before. */
  ghost predicate Propagates(d: Clause, c: Clause, pivots: seq<int>, n: nat)
  {
    && n < |pivots| && pivots[n] != 0 && pivots[n] in d && Unassigned(pivots[n], c, pivots, n)
    && forall m :: m in d && m != pivots[n] ==> m != 0 && Falsified(m, c, pivots, n)
  }

  /** Every antecedent but the last propagates one literal not assigned before, and the last is falsified:
      the chain shows by unit propagation alone that c is implied. */
  ghost predicate UnitChain(chain: seq<Clause>, c: Clause, pivots: seq<int>)
  {
    && |chain| == |pivots| + 1
    && ProperClause(c) && NonTautological(c)
    && (forall i {:trigger Propagates(chain[i], c, pivots, i)} :: 0 <= i < |pivots| ==>
          Propagates(chain[i], c, pivots, i))
    && (forall m :: m in chain[|pivots|] ==> m != 0 && Falsified(m, c, pivots, |pivots|))
  }

  predicate NonTautological(c: Clause)
  {
    forall l, m :: l in c && m in c ==> l != -m
  }

  /** What a literal marked while chain[n..] was processed can be. */
  ghost predicate MarkOk(m: int, c: Clause, pivots: seq<int>, n: nat)
  {
    m in c || exists j :: 0 <= j < |pivots| && (pivots[j] == -m || (n <= j && pivots[j] == m))
  }

  /** Propagated literals are on pairwise different variables, none of them a variable of c. */
  ghost predicate FreshPivots(c: Clause, pivots: seq<int>)
  {
    && (forall i :: 0 <= i < |pivots| ==> pivots[i] != 0 && pivots[i] !in c && -pivots[i] !in c)
    && (forall i, j :: 0 <= i < j < |pivots| ==> pivots[i] != pivots[j] && pivots[i] != -pivots[j])
  }

  lemma PivotsAreFresh(chain: seq<Clause>, c: Clause, pivots: seq<int>)
    requires UnitChain(chain, c, pivots)
    ensures FreshPivots(c, pivots)
  {
    forall j | 0 <= j < |pivots|
      ensures pivots[j] != 0 && Unassigned(pivots[j], c, pivots, j)
    {
      assert Propagates(chain[j], c, pivots, j);
    }
  }

  /** A literal of chain[n] other than its pivot never meets a marked negation. */
  lemma OnlyPivotClashes(c: Clause, pivots: seq<int>, n: nat, m: int, x: int)
    requires FreshPivots(c, pivots) && n < |pivots| && NonTautological(c)
    requires Falsified(m, c, pivots, n) && (MarkOk(x, c, pivots, n + 1) || Falsified(x, c, pivots, n))
    ensures x != -m
  {
  }

  function Occurrences(l: int, d: Clause): nat
  {
    if d == [] then 0 else (if d[0] == l then 1 else 0) + Occurrences(l, d[1..])
  }

  /** If only p can clash, scanning yields one step on -p per occurrence of p when -p is marked, and no other. */
  lemma {:induction false} ScanPivot(marked: set<int>, d: Clause, index: nat, p: int)
    requires forall m :: m in d && m != p ==> -m !in marked && -m !in d
    requires p in d ==> -p !in d
    ensures forall t :: t in ClauseSteps(marked, d, index) ==> t == Step(-p, index) && p in d
    ensures |ClauseSteps(marked, d, index)| == if -p in marked then Occurrences(p, d) else 0
    decreases |d|
  {
    if d != [] {
      assert d[0] in d;
      assert forall m :: m in d[1..] ==> m in d;
      var rest := ClauseSteps(marked + {d[0]}, d[1..], index);
      assert forall m :: m in d[1..] && m != p ==> -m != d[0];
      ScanPivot(marked + {d[0]}, d[1..], index, p);
      if d[0] == -p { assert p !in d; OccursNot(p, d); OccursNot(p, d[1..]); }
    }
  }

  lemma {:induction false} OccursNot(l: int, d: Clause)
    ensures Occurrences(l, d) == 0 <==> l !in d
    decreases |d|
  {
    if d != [] {
      OccursNot(l, d[1..]);
      assert d == [d[0]] + d[1..];
    }
  }

  lemma {:induction false} RunAppend(chain: seq<Clause>, more: seq<Step>, steps: seq<Step>, start: set<int>)
    requires StepsWithin(steps, |chain|) && StepsWithin(more, |chain|)
    ensures StepsWithin(steps + more, |chain|)
    ensures RunClause(chain, steps + more, start) == RunClause(chain, more, RunClause(chain, steps, start))
    decreases |more|
  {
    if more == [] {
      assert steps + more == steps;
    } else {
      var last := more[|more| - 1];
      assert last in more;
      var front := more[..|more| - 1];
      RunAppend(chain, front, steps, start);
      assert (steps + more)[..|steps + more| - 1] == steps + front;
      assert (steps + more)[|steps + more| - 1] == last;
    }
  }

  /** Repeating one step changes nothing after the first time. */
  lemma {:induction false} RunRepeated(chain: seq<Clause>, steps: seq<Step>, t: Step, start: set<int>)
    requires StepsWithin(steps, |chain|) && forall x :: x in steps ==> x == t
    requires t.index < |chain| && -t.pivot in chain[t.index] && t.pivot !in chain[t.index]
    ensures RunClause(chain, steps, start) ==
            if steps == [] then start else Resolvent(start, t.pivot, Lits(chain[t.index]))
    decreases |steps|
  {
    if steps != [] {
      assert steps[|steps| - 1] in steps;
      var front := steps[..|steps| - 1];
      forall x | x in front ensures x == t { assert x in steps; }
      RunRepeated(chain, front, t, start);
    }
  }

  /** The state of the pass before chain[n - 1] is scanned. */
  ghost predicate PassOk(chain: seq<Clause>, c: Clause, pivots: seq<int>, n: nat, marked: set<int>, running: set<int>)
  {
    && n <= |pivots|
    && (forall m :: m in marked ==> MarkOk(m, c, pivots, n))
    && (forall m :: m in running ==> m in marked && Falsified(m, c, pivots, n))
  }

  lemma AntecedentScan(d: Clause, c: Clause, pivots: seq<int>, n: nat, marked: set<int>)
    requires FreshPivots(c, pivots) && NonTautological(c) && Propagates(d, c, pivots, n)
    requires forall m :: m in marked ==> MarkOk(m, c, pivots, n + 1)
    ensures -pivots[n] !in d
    ensures forall t :: t in ClauseSteps(marked, d, n) ==> t == Step(-pivots[n], n)
    ensures |ClauseSteps(marked, d, n)| == if -pivots[n] in marked then Occurrences(pivots[n], d) else 0
    ensures Occurrences(pivots[n], d) > 0
  {
    var p := pivots[n];
    assert -p !in d by { assert !Falsified(-p, c, pivots, n); }
    forall m | m in d && m != p
      ensures -m !in marked && -m !in d
    {
      assert Falsified(m, c, pivots, n);
      if -m in marked {
        OnlyPivotClashes(c, pivots, n, m, -m);
      }
      if -m in d && -m != p {
        OnlyPivotClashes(c, pivots, n, m, -m);
      }
    }
    ScanPivot(marked, d, n, p);
    OccursNot(p, d);
  }

  lemma MarksAfter(d: Clause, c: Clause, pivots: seq<int>, n: nat, marked: set<int>)
    requires Propagates(d, c, pivots, n)
    requires forall m :: m in marked ==> MarkOk(m, c, pivots, n + 1)
    ensures forall m :: m in marked + Lits(d) ==> MarkOk(m, c, pivots, n)
  {
    forall m | m in marked + Lits(d)
      ensures MarkOk(m, c, pivots, n)
    {
      if m in marked {
        assert MarkOk(m, c, pivots, n + 1);
      } else if m != pivots[n] {
        assert Falsified(m, c, pivots, n);
      }
    }
  }

  lemma RunningAfter(d: Clause, c: Clause, pivots: seq<int>, n: nat, marked: set<int>, running: set<int>)
    requires Propagates(d, c, pivots, n)
    requires forall m :: m in running ==> m in marked && Falsified(m, c, pivots, n + 1)
    ensures forall m :: m in Resolvent(running, -pivots[n], Lits(d)) ==> m in marked + Lits(d) && Falsified(m, c, pivots, n)
    ensures -pivots[n] !in marked ==> forall m :: m in running ==> Falsified(m, c, pivots, n)
  {
    forall m | m in running && m != -pivots[n]
      ensures Falsified(m, c, pivots, n)
    {
      assert Falsified(m, c, pivots, n + 1);
      if m !in c {
        var j :| 0 <= j < n + 1 && pivots[j] == -m;
        assert 0 <= j < n;
      }
    }
  }

  lemma PassStep(chain: seq<Clause>, c: Clause, pivots: seq<int>, n: nat, marked: set<int>, running: set<int>,
                 d: Clause)
    requires Propagates(d, c, pivots, n) && PassOk(chain, c, pivots, n + 1, marked, running)
    ensures PassOk(chain, c, pivots, n, marked + Lits(d), Resolvent(running, -pivots[n], Lits(d)))
    ensures -pivots[n] !in marked ==> PassOk(chain, c, pivots, n, marked + Lits(d), running)
  {
    MarksAfter(d, c, pivots, n, marked);
    RunningAfter(d, c, pivots, n, marked, running);
  }

  /** Scanning one antecedent resolves on its propagated literal if and only if that literal is needed. */
  lemma OnePass(chain: seq<Clause>, c: Clause, pivots: seq<int>, n: nat, marked: set<int>, running: set<int>,
                steps: seq<Step>)
    requires UnitChain(chain, c, pivots) && n < |pivots|
    requires PassOk(chain, c, pivots, n + 1, marked, running)
    requires steps == ClauseSteps(marked, chain[n], n)
    ensures StepsWithin(steps, |chain|)
    ensures forall t :: t in steps ==> t == Step(-pivots[n], n)
    ensures |steps| == if -pivots[n] in marked then Occurrences(pivots[n], chain[n]) else 0
    ensures Occurrences(pivots[n], chain[n]) > 0
    ensures PassOk(chain, c, pivots, n, marked + Lits(chain[n]), RunClause(chain, steps, running))
  {
    PivotsAreFresh(chain, c, pivots);
    assert Propagates(chain[n], c, pivots, n);
    AntecedentScan(chain[n], c, pivots, n, marked);
    PassStep(chain, c, pivots, n, marked, running, chain[n]);
    RunRepeated(chain, steps, Step(-pivots[n], n), running);
  }

  /** Indices never increase along the pass, and they strictly decrease if no clause repeats its pivot. */
  ghost predicate Decreasing(steps: seq<Step>, strict: bool)
  {
    forall i, j :: 0 <= i < j < |steps| ==> steps[j].index <= steps[i].index && (strict ==> steps[j].index < steps[i].index)
  }

  ghost predicate PivotsOnce(chain: seq<Clause>, pivots: seq<int>)
    requires |pivots| <= |chain|
  {
    forall i {:trigger Occurrences(pivots[i], chain[i])} :: 0 <= i < |pivots| ==>
      Occurrences(pivots[i], chain[i]) == 1
  }

  /** What the steps for chain[..n] achieve. */
  ghost predicate PassResult(chain: seq<Clause>, c: Clause, pivots: seq<int>, n: nat, marked: set<int>,
                             running: set<int>, steps: seq<Step>)
  {
    && n <= |pivots| < |chain| && StepsWithin(steps, |chain|)
    && (forall t :: t in steps ==> t.index < n && t.pivot == -pivots[t.index])
    && (forall i {:trigger Uses(steps, i)} :: 0 <= i < n ==> (Uses(steps, i) <==> MarkedBefore(chain, n, marked, i, -pivots[i])))
    && Decreasing(steps, PivotsOnce(chain, pivots))
    && RunClause(chain, steps, running) <= Lits(c)
  }

  ghost predicate Uses(steps: seq<Step>, i: nat)
  {
    exists t :: t in steps && t.index == i
  }

  lemma {:induction false} WholePass(chain: seq<Clause>, c: Clause, pivots: seq<int>, n: nat, marked: set<int>,
                                     running: set<int>)
    requires UnitChain(chain, c, pivots) && PassOk(chain, c, pivots, n, marked, running)
    ensures PassResult(chain, c, pivots, n, marked, running, ChainSteps(chain, n, marked))
    decreases n
  {
    hide PassOk, PassResult, UnitChain, RunClause, StepsWithin, Occurrences, ClauseSteps, Lits;
    ChainBounds(chain, c, pivots, n, marked, running);
    if n == 0 {
      NoPass(chain, c, pivots, marked, running);
    } else {
      var head := ClauseSteps(marked, chain[n - 1], n - 1);
      var marked' := marked + Lits(chain[n - 1]);
      OnePass(chain, c, pivots, n - 1, marked, running, head);
      WholePass(chain, c, pivots, n - 1, marked', RunClause(chain, head, running));
      JoinPass(chain, c, pivots, n, marked, running, head, ChainSteps(chain, n - 1, marked'));
    }
  }

  lemma ChainBounds(chain: seq<Clause>, c: Clause, pivots: seq<int>, n: nat, marked: set<int>, running: set<int>)
    requires UnitChain(chain, c, pivots) && PassOk(chain, c, pivots, n, marked, running)
    ensures n <= |pivots| < |chain|
  {
  }

  lemma NoPass(chain: seq<Clause>, c: Clause, pivots: seq<int>, marked: set<int>, running: set<int>)
    requires UnitChain(chain, c, pivots) && PassOk(chain, c, pivots, 0, marked, running)
    ensures PassResult(chain, c, pivots, 0, marked, running, ChainSteps(chain, 0, marked))
  {
    forall m | m in running
      ensures m in Lits(c)
    {
      assert Falsified(m, c, pivots, 0);
    }
  }

  lemma JoinPass(chain: seq<Clause>, c: Clause, pivots: seq<int>, n: nat, marked: set<int>, running: set<int>,
                 head: seq<Step>, tail: seq<Step>)
    requires 0 < n <= |pivots| < |chain| && StepsWithin(head, |chain|)
    requires forall t :: t in head ==> t == Step(-pivots[n - 1], n - 1)
    requires |head| == if -pivots[n - 1] in marked then Occurrences(pivots[n - 1], chain[n - 1]) else 0
    requires Occurrences(pivots[n - 1], chain[n - 1]) > 0
    requires PassResult(chain, c, pivots, n - 1, marked + Lits(chain[n - 1]), RunClause(chain, head, running), tail)
    ensures PassResult(chain, c, pivots, n, marked, running, head + tail)
  {
    hide Uses, MarkedBefore, Decreasing, RunClause, PivotsOnce, Occurrences, StepsWithin;
    OnceHead(chain, pivots, n);
    RunAppend(chain, tail, head, running);
    UsedSteps(chain, pivots, n, marked, head, tail);
    DecreasingAppend(head, tail, n - 1, PivotsOnce(chain, pivots));
    JoinedSteps(pivots, n, head, tail, |chain|);
  }

  lemma OnceHead(chain: seq<Clause>, pivots: seq<int>, n: nat)
    requires 0 < n <= |pivots| <= |chain|
    ensures PivotsOnce(chain, pivots) ==> Occurrences(pivots[n - 1], chain[n - 1]) == 1
  {
  }

  lemma JoinedSteps(pivots: seq<int>, n: nat, head: seq<Step>, tail: seq<Step>, m: nat)
    requires 0 < n <= |pivots| && StepsWithin(head, m) && StepsWithin(tail, m)
    requires forall t :: t in head ==> t == Step(-pivots[n - 1], n - 1)
    requires forall t :: t in tail ==> t.index < n - 1 && t.pivot == -pivots[t.index]
    ensures StepsWithin(head + tail, m)
    ensures forall t :: t in head + tail ==> t.index < n && t.pivot == -pivots[t.index]
  {
    forall t | t in head + tail ensures t in head || t in tail {}
  }

  /** The literal was marked at the start or occurs in one of chain[i + 1..n]. */
  ghost predicate MarkedBefore(chain: seq<Clause>, n: nat, marked: set<int>, i: nat, m: int)
    requires n <= |chain|
  {
    m in marked || exists j :: i < j < n && m in chain[j]
  }

  lemma UsedSteps(chain: seq<Clause>, pivots: seq<int>, n: nat, marked: set<int>, head: seq<Step>, tail: seq<Step>)
    requires 0 < n <= |pivots| <= |chain|
    requires forall t :: t in head ==> t.index == n - 1
    requires (|head| > 0) == (-pivots[n - 1] in marked)
    requires forall t :: t in tail ==> t.index < n - 1
    requires forall i {:trigger Uses(tail, i)} :: 0 <= i < n - 1 ==>
               (Uses(tail, i) <==> MarkedBefore(chain, n - 1, marked + Lits(chain[n - 1]), i, -pivots[i]))
    ensures forall i {:trigger Uses(head + tail, i)} :: 0 <= i < n ==> (Uses(head + tail, i) <==> MarkedBefore(chain, n, marked, i, -pivots[i]))
  {
    forall i | 0 <= i < n
      ensures Uses(head + tail, i) <==> MarkedBefore(chain, n, marked, i, -pivots[i])
    {
      assert forall t :: t in head + tail <==> t in head || t in tail;
      if i == n - 1 {
        if |head| > 0 { assert head[0] in head + tail; }
      } else {
        assert Uses(head + tail, i) <==> Uses(tail, i);
        assert MarkedBefore(chain, n - 1, marked + Lits(chain[n - 1]), i, -pivots[i]) <==>
               MarkedBefore(chain, n, marked, i, -pivots[i]);
      }
    }
  }

  lemma DecreasingAppend(head: seq<Step>, tail: seq<Step>, n: nat, strict: bool)
    requires forall t :: t in head ==> t.index == n
    requires forall t :: t in tail ==> t.index < n
    requires (strict ==> |head| <= 1) && Decreasing(tail, strict)
    ensures Decreasing(head + tail, strict)
  {
    var all := head + tail;
    forall i, j | 0 <= i < j < |all|
      ensures all[j].index <= all[i].index && (strict ==> all[j].index < all[i].index)
    {
      if i < |head| { assert all[i] in head; } else { assert all[i] == tail[i - |head|]; }
      if j < |head| { assert all[j] in head; } else { assert all[j] == tail[j - |head|] && all[j] in tail; }
    }
  }

  /** For every unit-propagating chain the pass resolves exactly on the propagated literals that a later
      antecedent uses, each of them once (if no antecedent repeats the literal it propagates), from the last
      antecedent to the first, and ends with a clause inside the derived one. */
  lemma BackwardPass(chain: seq<Clause>, c: Clause, pivots: seq<int>, steps: seq<Step>)
    requires UnitChain(chain, c, pivots)
    requires steps == ChainSteps(chain, |pivots|, Lits(chain[|pivots|]))
    ensures StepsWithin(steps, |chain|)
    ensures forall t :: t in steps ==> t.index < |pivots| && t.pivot == -pivots[t.index]
    ensures forall i {:trigger Uses(steps, i)} :: 0 <= i < |pivots| ==>
              (Uses(steps, i) <==> exists j :: i < j < |chain| && -pivots[i] in chain[j])
    ensures Decreasing(steps, PivotsOnce(chain, pivots))
    ensures RunClause(chain, steps, Lits(chain[|pivots|])) <= Lits(c)
  {
    var n := |pivots|;
    var start := Lits(chain[n]);
    StartPass(chain, c, pivots);
    WholePass(chain, c, pivots, n, start, start);
    forall i | 0 <= i < n
      ensures Uses(steps, i) <==> exists j :: i < j < |chain| && -pivots[i] in chain[j]
    {
      assert Uses(steps, i) <==> MarkedBefore(chain, n, start, i, -pivots[i]);
      if -pivots[i] in start { assert i < n < |chain| && -pivots[i] in chain[n]; }
    }
  }

  lemma StartPass(chain: seq<Clause>, c: Clause, pivots: seq<int>)
    requires UnitChain(chain, c, pivots)
    ensures PassOk(chain, c, pivots, |pivots|, Lits(chain[|pivots|]), Lits(chain[|pivots|]))
  {
    forall m | m in Lits(chain[|pivots|])
      ensures MarkOk(m, c, pivots, |pivots|) && Falsified(m, c, pivots, |pivots|)
    {
      assert Falsified(m, c, pivots, |pivots|);
    }
  }
}
