/** Joining the clause forms of several interpolants into one (cadical/contrib/craigtracer.cpp,
    create_craig_interpolant): the UNION trigger enforces all parts, the INTERSECTION trigger one of them. */
module CraigCnf {
  import opened Logic
  import opened Definitions

  datatype Part = Part(kind: CnfType, cnf: seq<Clause>)

  /** What a part stands for: the variables it defines, their values, and the function it denotes. */
  datatype Info = Info(lo: int, hi: int, meaning: Meaning, f: Assignment -> bool)

  /** The parts define adjacent ranges of fresh variables from base on, up to next. */
  ghost predicate PartsOk(parts: seq<Part>, infos: seq<Info>, base: int, next: int)
  {
    && |parts| == |infos| && 0 < base
    && (forall i :: 0 <= i < |parts| ==> PartOk(parts[i], infos[i], base))
    && (forall i :: 0 <= i < |infos| ==> infos[i].lo == Boundary(infos, i, base))
    && next == Boundary(infos, |infos|, base)
  }

  ghost predicate PartOk(part: Part, info: Info, base: int)
  {
    && Represents(part.kind, part.cnf, base, info.lo, info.hi, info.meaning, info.f)
    && (part.kind != Normal ==> info.lo == info.hi)
  }

  ghost function Boundary(infos: seq<Info>, i: nat, base: int): int
    requires i <= |infos|
  {
    if i == 0 then base else infos[i - 1].hi
  }

  /** The values of all variables defined by the first n parts. */
  ghost predicate JoinAt(infos: seq<Info>, n: nat, v: int, s: Assignment)
    requires n <= |infos|
  {
    n > 0 && if v < infos[n - 1].lo then JoinAt(infos, n - 1, v, s) else infos[n - 1].meaning(v, s)
  }

  ghost function JoinAll(infos: seq<Info>, n: nat): Meaning
    requires n <= |infos|
  {
    (v, s) => JoinAt(infos, n, v, s)
  }

  lemma JoinFollows(infos: seq<Info>, n: nat, base: int, s: Assignment)
    requires n < |infos| && base <= infos[n].lo <= infos[n].hi
    ensures Follows(s, base, infos[n].hi, JoinAll(infos, n + 1)) <==>
            Follows(s, base, infos[n].lo, JoinAll(infos, n)) && Follows(s, infos[n].lo, infos[n].hi, infos[n].meaning)
  {
    var m, m' := JoinAll(infos, n), JoinAll(infos, n + 1);
    assert forall v :: base <= v < infos[n].lo ==> m'(v, s) == m(v, s);
    assert forall v :: infos[n].lo <= v < infos[n].hi ==> m'(v, s) == infos[n].meaning(v, s);
    if Follows(s, base, infos[n].hi, m') {
      forall v | base <= v < infos[n].lo ensures v in s <==> m(v, s) { assert m'(v, s) == m(v, s); }
    }
  }

  ghost predicate AllHold(infos: seq<Info>, n: nat, s: Assignment)
    requires n <= |infos|
  {
    forall i :: 0 <= i < n ==> infos[i].f(s)
  }

  ghost predicate SomeHolds(infos: seq<Info>, n: nat, s: Assignment)
    requires n <= |infos|
  {
    exists i :: 0 <= i < n && infos[i].f(s)
  }

  ghost function Conjunction(infos: seq<Info>): Assignment -> bool
  {
    s => AllHold(infos, |infos|, s)
  }

  ghost function Disjunction(infos: seq<Info>): Assignment -> bool
  {
    s => SomeHolds(infos, |infos|, s)
  }

  /** The literal that triggers a part, the last clause of its form. */
  function Root(part: Part): int
  {
    if part.kind == Normal && |part.cnf| > 0 && |part.cnf[|part.cnf| - 1]| > 0 then part.cnf[|part.cnf| - 1][0] else 0
  }

  lemma {:induction false} BoundaryMonotone(parts: seq<Part>, infos: seq<Info>, base: int, next: int, i: nat)
    requires PartsOk(parts, infos, base, next) && i <= |infos|
    ensures base <= Boundary(infos, i, base)
  {
    if i > 0 {
      BoundaryMonotone(parts, infos, base, next, i - 1);
      assert PartOk(parts[i - 1], infos[i - 1], base);
    }
  }

  /** One more part: its definitions extend the joined definitions, and its root equals its function. */
  lemma PartStep(parts: seq<Part>, infos: seq<Info>, base: int, next: int, n: nat, s: Assignment)
    requires PartsOk(parts, infos, base, next) && n < |parts|
    ensures parts[n].kind == Normal ==> |parts[n].cnf| > 0 && |parts[n].cnf[|parts[n].cnf| - 1]| == 1
    ensures parts[n].kind == Normal ==> Root(parts[n]) != 0
    ensures parts[n].kind == Normal ==>
              (Follows(s, base, Boundary(infos, n + 1, base), JoinAll(infos, n + 1)) <==>
               Follows(s, base, Boundary(infos, n, base), JoinAll(infos, n)) &&
               CnfTrue(s, parts[n].cnf[..|parts[n].cnf| - 1]))
    ensures parts[n].kind != Normal ==>
              (Follows(s, base, Boundary(infos, n + 1, base), JoinAll(infos, n + 1)) <==>
               Follows(s, base, Boundary(infos, n, base), JoinAll(infos, n)))
    ensures parts[n].kind == Normal && CnfTrue(s, parts[n].cnf[..|parts[n].cnf| - 1]) ==>
              (LitTrue(s, Root(parts[n])) <==> infos[n].f(s))
  {
    BoundaryMonotone(parts, infos, base, next, n);
    var info := infos[n];
    assert PartOk(parts[n], info, base);
    JoinFollows(infos, n, base, s);
  }

  lemma PartDepends(part: Part, info: Info, base: int, v: int, s: Assignment, t: Assignment)
    requires PartOk(part, info, base) && info.lo <= v < info.hi && AgreeBelow(s, t, base)
    ensures info.meaning(v, s) == info.meaning(v, t)
  {
  }

  /** The joined values, too, depend on nothing above base. */
  lemma {:induction false} JoinDepends(parts: seq<Part>, infos: seq<Info>, base: int, next: int, n: nat, v: int,
                                       s: Assignment, t: Assignment)
    requires PartsOk(parts, infos, base, next) && n <= |infos| && base <= v < Boundary(infos, n, base)
    requires AgreeBelow(s, t, base)
    ensures JoinAt(infos, n, v, s) == JoinAt(infos, n, v, t)
    decreases n
  {
    hide PartOk, AgreeBelow;
    if n > 0 {
      if v < infos[n - 1].lo {
        JoinDepends(parts, infos, base, next, n - 1, v, s, t);
      } else {
        PartDepends(parts[n - 1], infos[n - 1], base, v, s, t);
      }
    }
  }

  ghost function WithTrigger(trigger: int, m: Meaning, f: Assignment -> bool): Meaning
  {
    (v: int, s: Assignment) => if v < trigger then m(v, s) else f(s)
  }

  /** A trigger equivalent to f completes the definitions to a clause form of f. */
  lemma TriggerRepresents(parts: seq<Part>, infos: seq<Info>, base: int, next: int, defs: seq<Clause>,
                          f: Assignment -> bool)
    requires PartsOk(parts, infos, base, next)
    requires forall s, t :: AgreeBelow(s, t, base) ==> f(s) == f(t)
    requires forall s :: CnfTrue(s, defs) <==>
                         Follows(s, base, next, JoinAll(infos, |infos|)) && (next in s <==> f(s))
    ensures Represents(Normal, defs + [[next]], base, base, next + 1,
                       WithTrigger(next, JoinAll(infos, |infos|), f), f)
  {
    hide PartOk;
    var n := |infos|;
    var all := defs + [[next]];
    var m := WithTrigger(next, JoinAll(infos, n), f);
    BoundaryMonotone(parts, infos, base, next, n);
    assert all[..|all| - 1] == defs && all[|all| - 1] == [next];
    forall s
      ensures CnfTrue(s, defs) <==> Follows(s, base, next + 1, m)
    {
      TriggerFollows(s, base, next, JoinAll(infos, n), f);
    }
    forall v, s, t | base <= v < next + 1 && AgreeBelow(s, t, base)
      ensures m(v, s) == m(v, t)
    {
      if v < next { JoinDepends(parts, infos, base, next, n, v, s, t); }
    }
    forall s | Follows(s, base, next + 1, m)
      ensures LitTrue(s, next) <==> f(s)
    {
      assert next in s <==> m(next, s);
    }
  }

  lemma TriggerFollows(s: Assignment, base: int, next: int, m: Meaning, f: Assignment -> bool)
    requires base <= next
    ensures Follows(s, base, next + 1, WithTrigger(next, m, f)) <==>
            Follows(s, base, next, m) && (next in s <==> f(s))
  {
    var w := WithTrigger(next, m, f);
    assert w(next, s) == f(s);
    forall v | base <= v < next ensures w(v, s) == m(v, s) {}
    if Follows(s, base, next + 1, w) {
      forall v | base <= v < next ensures v in s <==> m(v, s) { assert w(v, s) == m(v, s); }
    }
    if Follows(s, base, next, m) && (next in s <==> f(s)) {
      forall v | base <= v < next + 1 ensures v in s <==> w(v, s) {
        if v < next { assert w(v, s) == m(v, s); }
      }
    }
  }

  // ----- Roots and functions -------------------------------------------------------------------------

  /** Every proper part has a last clause of one literal. */
  predicate Rooted(parts: seq<Part>)
  {
    forall i :: 0 <= i < |parts| && parts[i].kind == Normal ==>
      |parts[i].cnf| > 0 && |parts[i].cnf[|parts[i].cnf| - 1]| == 1 && parts[i].cnf[|parts[i].cnf| - 1][0] != 0
  }

  lemma PartsRooted(parts: seq<Part>, infos: seq<Info>, base: int, next: int)
    requires PartsOk(parts, infos, base, next)
    ensures Rooted(parts)
  {
    forall i | 0 <= i < |parts| ensures PartOk(parts[i], infos[i], base) {}
  }

  /** The literal itself, or its negation. */
  function Flip(positive: bool, l: int): int
  {
    if positive then l else -l
  }

  /** All roots are true (or, for the negative form, all roots are false). */
  ghost predicate RootsAgree(parts: seq<Part>, n: nat, positive: bool, s: Assignment)
    requires n <= |parts| && Rooted(parts)
  {
    forall i :: 0 <= i < n && parts[i].kind == Normal ==> LitTrue(s, Flip(positive, Root(parts[i])))
  }

  /** Under the definitions, the roots of the proper parts have the values of their functions. */
  lemma {:induction false} RootsMean(parts: seq<Part>, infos: seq<Info>, base: int, next: int, n: nat, s: Assignment)
    requires PartsOk(parts, infos, base, next) && Rooted(parts) && n <= |parts|
    requires Follows(s, base, Boundary(infos, n, base), JoinAll(infos, n))
    ensures forall i :: 0 <= i < n && parts[i].kind == Normal ==> (LitTrue(s, Root(parts[i])) <==> infos[i].f(s))
    decreases n
  {
    hide PartOk, Follows;
    if n > 0 {
      PartStep(parts, infos, base, next, n - 1, s);
      RootsMean(parts, infos, base, next, n - 1, s);
    }
  }

  lemma ConstantParts(parts: seq<Part>, infos: seq<Info>, base: int, next: int, i: nat, s: Assignment)
    requires PartsOk(parts, infos, base, next) && i < |parts|
    ensures parts[i].kind != NoCnf
    ensures parts[i].kind == Constant0 ==> parts[i].cnf == [[]] && !infos[i].f(s)
    ensures parts[i].kind == Constant1 ==> parts[i].cnf == [] && infos[i].f(s)
  {
    assert PartOk(parts[i], infos[i], base);
  }

  lemma FunctionsDepend(parts: seq<Part>, infos: seq<Info>, base: int, next: int, s: Assignment, t: Assignment)
    requires PartsOk(parts, infos, base, next) && AgreeBelow(s, t, base)
    ensures Conjunction(infos)(s) == Conjunction(infos)(t) && Disjunction(infos)(s) == Disjunction(infos)(t)
  {
    forall i | 0 <= i < |infos| ensures infos[i].f(s) == infos[i].f(t) { assert PartOk(parts[i], infos[i], base); }
    if SomeHolds(infos, |infos|, s) {
      var i :| 0 <= i < |infos| && infos[i].f(s);
      assert infos[i].f(t);
    }
    if SomeHolds(infos, |infos|, t) {
      var i :| 0 <= i < |infos| && infos[i].f(t);
      assert infos[i].f(s);
    }
  }

  // ----- The trigger ---------------------------------------------------------------------------------

  /** The clauses of the first n parts, with a trigger literal that implies each of their (flipped) roots, and
      the clause for the other direction. */
  ghost predicate TriggerState(parts: seq<Part>, infos: seq<Info>, base: int, trigger: int, positive: bool, n: nat,
                               cnf: seq<Clause>, clause: Clause)
    requires n <= |parts| && |infos| == |parts| && Rooted(parts)
  {
    forall s :: TriggerStateAt(parts, infos, base, trigger, positive, n, cnf, clause, s)
  }

  ghost predicate TriggerStateAt(parts: seq<Part>, infos: seq<Info>, base: int, trigger: int, positive: bool, n: nat,
                                 cnf: seq<Clause>, clause: Clause, s: Assignment)
    requires n <= |parts| && |infos| == |parts| && Rooted(parts)
  {
    && (CnfTrue(s, cnf) <==>
        Follows(s, base, Boundary(infos, n, base), JoinAll(infos, n)) &&
        (LitTrue(s, Flip(positive, trigger)) ==> RootsAgree(parts, n, positive, s)))
    && (ClauseTrue(s, clause) <==> LitTrue(s, Flip(positive, trigger)) || !RootsAgree(parts, n, positive, s))
  }

  lemma AgreeStep(parts: seq<Part>, n: nat, positive: bool, s: Assignment)
    requires n < |parts| && Rooted(parts)
    ensures RootsAgree(parts, n + 1, positive, s) <==>
            RootsAgree(parts, n, positive, s) &&
            (parts[n].kind == Normal ==> LitTrue(s, Flip(positive, Root(parts[n]))))
  {
  }

  lemma NormalStep(parts: seq<Part>, infos: seq<Info>, base: int, next: int, positive: bool, n: nat, cnf: seq<Clause>,
                   clause: Clause, s: Assignment)
    requires PartsOk(parts, infos, base, next) && Rooted(parts) && n < |parts| && 0 < next
    requires TriggerStateAt(parts, infos, base, next, positive, n, cnf, clause, s) && parts[n].kind == Normal
    ensures var form, root := parts[n].cnf, Root(parts[n]);
            TriggerStateAt(parts, infos, base, next, positive, n + 1,
                           cnf + form[..|form| - 1] + [[-Flip(positive, next), Flip(positive, root)]],
                           clause + [-Flip(positive, root)], s)
  {
    hide PartOk, Follows, RootsAgree;
    var form, root := parts[n].cnf, Root(parts[n]);
    var defs := form[..|form| - 1];
    var pair := [[-Flip(positive, next), Flip(positive, root)]];
    PartStep(parts, infos, base, next, n, s);
    AgreeStep(parts, n, positive, s);
    CnfTrueConcat(s, cnf + defs, pair);
    CnfTrueConcat(s, cnf, defs);
    PairTrue(s, -Flip(positive, next), Flip(positive, root));
    LitNegation(s, Flip(positive, next));
    LitNegation(s, Flip(positive, root));
    AppendTrue(s, clause, -Flip(positive, root));
  }

  lemma OtherStep(parts: seq<Part>, infos: seq<Info>, base: int, next: int, positive: bool, n: nat, cnf: seq<Clause>,
                  clause: Clause, s: Assignment)
    requires PartsOk(parts, infos, base, next) && Rooted(parts) && n < |parts|
    requires TriggerStateAt(parts, infos, base, next, positive, n, cnf, clause, s) && parts[n].kind != Normal
    ensures TriggerStateAt(parts, infos, base, next, positive, n + 1, cnf, clause, s)
  {
    hide PartOk, Follows, RootsAgree;
    PartStep(parts, infos, base, next, n, s);
    AgreeStep(parts, n, positive, s);
  }

  lemma NormalTrigger(parts: seq<Part>, infos: seq<Info>, base: int, next: int, positive: bool, n: nat,
                      cnf: seq<Clause>, clause: Clause, cnf': seq<Clause>, clause': Clause)
    requires PartsOk(parts, infos, base, next) && Rooted(parts) && n < |parts| && 0 < next
    requires TriggerState(parts, infos, base, next, positive, n, cnf, clause) && parts[n].kind == Normal
    requires var form, root := parts[n].cnf, Root(parts[n]);
             && cnf' == cnf + form[..|form| - 1] + [[-Flip(positive, next), Flip(positive, root)]]
             && clause' == clause + [-Flip(positive, root)]
    ensures TriggerState(parts, infos, base, next, positive, n + 1, cnf', clause')
  {
    hide PartOk, TriggerStateAt;
    var m := n + 1;
    forall s ensures TriggerStateAt(parts, infos, base, next, positive, m, cnf', clause', s) {
      assert TriggerStateAt(parts, infos, base, next, positive, n, cnf, clause, s);
      NormalStep(parts, infos, base, next, positive, n, cnf, clause, s);
    }
  }

  lemma OtherTrigger(parts: seq<Part>, infos: seq<Info>, base: int, next: int, positive: bool, n: nat,
                     cnf: seq<Clause>, clause: Clause)
    requires PartsOk(parts, infos, base, next) && Rooted(parts) && n < |parts|
    requires TriggerState(parts, infos, base, next, positive, n, cnf, clause) && parts[n].kind != Normal
    ensures TriggerState(parts, infos, base, next, positive, n + 1, cnf, clause)
  {
    hide PartOk, TriggerStateAt;
    var m := n + 1;
    forall s ensures TriggerStateAt(parts, infos, base, next, positive, m, cnf, clause, s) {
      assert TriggerStateAt(parts, infos, base, next, positive, n, cnf, clause, s);
      OtherStep(parts, infos, base, next, positive, n, cnf, clause, s);
    }
  }

  lemma TriggerStart(parts: seq<Part>, infos: seq<Info>, base: int, trigger: int, positive: bool)
    requires Rooted(parts) && |infos| == |parts| && 0 < trigger
    ensures TriggerState(parts, infos, base, trigger, positive, 0, [], [Flip(positive, trigger)])
  {
    forall s ensures TriggerStateAt(parts, infos, base, trigger, positive, 0, [], [Flip(positive, trigger)], s) {
      assert Flip(positive, trigger) in [Flip(positive, trigger)];
    }
  }

  lemma PairTrue(s: Assignment, a: int, b: int)
    ensures CnfTrue(s, [[a, b]]) <==> LitTrue(s, a) || LitTrue(s, b)
  {
    assert a in [a, b] && b in [a, b] && [a, b] in [[a, b]];
  }

  lemma AppendTrue(s: Assignment, c: Clause, l: int)
    ensures ClauseTrue(s, c + [l]) <==> ClauseTrue(s, c) || LitTrue(s, l)
  {
    if LitTrue(s, l) { assert l in c + [l]; }
    if ClauseTrue(s, c) {
      var m :| m in c && LitTrue(s, m);
      assert m in c + [l];
    }
  }

  /** What the trigger means: all parts, or some part. */
  ghost function Joined(infos: seq<Info>, positive: bool): Assignment -> bool
  {
    if positive then Conjunction(infos) else Disjunction(infos)
  }

  /** A constant that decides the join. */
  function Absorbing(positive: bool): CnfType { if positive then Constant0 else Constant1 }

  function Neutral(positive: bool): CnfType { if positive then Constant1 else Constant0 }

  function NeutralCnf(positive: bool): seq<Clause> { if positive then [] else [[]] }

  /** A join is constant exactly if a part decides it or all parts are the other constant. */
  ghost function JoinKind(parts: seq<Part>, positive: bool): CnfType
  {
    if exists i :: 0 <= i < |parts| && parts[i].kind == Absorbing(positive) then Absorbing(positive)
    else if forall i :: 0 <= i < |parts| ==> parts[i].kind == Neutral(positive) then Neutral(positive)
    else Normal
  }

  lemma AgreeMeans(parts: seq<Part>, infos: seq<Info>, base: int, next: int, positive: bool, s: Assignment)
    requires PartsOk(parts, infos, base, next) && Rooted(parts)
    requires forall i :: 0 <= i < |parts| ==> parts[i].kind != Absorbing(positive)
    requires Follows(s, base, next, JoinAll(infos, |infos|))
    ensures RootsAgree(parts, |parts|, positive, s) <==> (if positive then Joined(infos, positive)(s) else !Joined(infos, positive)(s))
  {
    hide PartOk, Follows;
    RootsMean(parts, infos, base, next, |parts|, s);
    forall i | 0 <= i < |parts|
      ensures parts[i].kind != Normal ==> infos[i].f(s) == positive
      ensures parts[i].kind == Normal ==>
                (LitTrue(s, Flip(positive, Root(parts[i]))) <==> infos[i].f(s) == positive)
    {
      ConstantParts(parts, infos, base, next, i, s);
      if parts[i].kind == Normal { LitNegation(s, Root(parts[i])); }
    }
  }

  lemma TriggerDone(parts: seq<Part>, infos: seq<Info>, base: int, next: int, positive: bool, cnf: seq<Clause>,
                    clause: Clause)
    requires PartsOk(parts, infos, base, next) && Rooted(parts) && 0 < next
    requires forall i :: 0 <= i < |parts| ==> parts[i].kind != Absorbing(positive)
    requires TriggerState(parts, infos, base, next, positive, |parts|, cnf, clause)
    ensures Represents(Normal, cnf + [clause] + [[next]], base, base, next + 1,
                       WithTrigger(next, JoinAll(infos, |infos|), Joined(infos, positive)), Joined(infos, positive))
  {
    hide PartOk, Follows;
    var n := |parts|;
    var f := Joined(infos, positive);
    forall s
      ensures CnfTrue(s, cnf + [clause]) <==> Follows(s, base, next, JoinAll(infos, n)) && (next in s <==> f(s))
    {
      CnfTrueConcat(s, cnf, [clause]);
      assert CnfTrue(s, [clause]) <==> ClauseTrue(s, clause) by { assert clause in [clause]; }
      assert TriggerStateAt(parts, infos, base, next, positive, n, cnf, clause, s);
      LitNegation(s, next);
      if Follows(s, base, next, JoinAll(infos, n)) {
        AgreeMeans(parts, infos, base, next, positive, s);
      }
    }
    forall s, t | AgreeBelow(s, t, base) ensures f(s) == f(t) {
      FunctionsDepend(parts, infos, base, next, s, t);
    }
    TriggerRepresents(parts, infos, base, next, cnf + [clause], f);
  }

  /** Appends the definitions of all proper parts, a trigger pair for each, and the trigger clause. */
  method AddTrigger(parts: seq<Part>, nextFree: int, positive: bool, ghost infos: seq<Info>, ghost base: int)
    returns (cnf: seq<Clause>, next: int)
    requires PartsOk(parts, infos, base, nextFree)
    requires forall i :: 0 <= i < |parts| ==> parts[i].kind != Absorbing(positive)
    ensures next == nextFree + 1
    ensures Represents(Normal, cnf, base, base, next,
                       WithTrigger(nextFree, JoinAll(infos, |infos|), Joined(infos, positive)), Joined(infos, positive))
    ensures forall vars :: PartsOver(parts, vars, base, nextFree) ==> CnfOver(cnf, vars, base, next)
  {
    hide PartOk, Follows, Represents, TriggerState, OverAll;
    BoundaryMonotone(parts, infos, base, nextFree, |infos|);
    PartsRooted(parts, infos, base, nextFree);
    var trigger := nextFree;
    next := nextFree + 1;
    cnf := [];
    var clause := [Flip(positive, trigger)];
    TriggerStart(parts, infos, base, trigger, positive);
    OverStart(parts, base, trigger, positive);
    var i := 0;
    while i < |parts|
      invariant 0 <= i <= |parts|
      invariant TriggerState(parts, infos, base, trigger, positive, i, cnf, clause)
      invariant OverAll(parts, base, nextFree, cnf, clause)
    {
      hide PartsOk, Rooted;
      if parts[i].kind == Normal {
        cnf, clause := TriggerPart(parts, i, trigger, positive, cnf, clause, infos, base);
      } else {
        OtherTrigger(parts, infos, base, trigger, positive, i, cnf, clause);
      }
      i := i + 1;
    }
    TriggerDone(parts, infos, base, trigger, positive, cnf, clause);
    OverEnd(parts, base, trigger, cnf, clause);
    cnf := cnf + [clause] + [[trigger]];
  }

  /** One proper part: its definitions, and the implication between the trigger and its root. */
  method TriggerPart(parts: seq<Part>, i: nat, trigger: int, positive: bool, cnf: seq<Clause>, clause: Clause,
                     ghost infos: seq<Info>, ghost base: int) returns (cnf': seq<Clause>, clause': Clause)
    requires PartsOk(parts, infos, base, trigger) && Rooted(parts) && |infos| == |parts| && i < |parts| && 0 < base <= trigger
    requires TriggerState(parts, infos, base, trigger, positive, i, cnf, clause) && parts[i].kind == Normal
    requires OverAll(parts, base, trigger, cnf, clause)
    ensures TriggerState(parts, infos, base, trigger, positive, i + 1, cnf', clause')
    ensures OverAll(parts, base, trigger, cnf', clause')
  {
    hide TriggerState, OverAll, PartsOk;
    var form := parts[i].cnf;
    var root := form[|form| - 1][0];
    var pair := [-Flip(positive, trigger), Flip(positive, root)];
    cnf' := cnf + form[..|form| - 1] + [pair];
    clause' := clause + [-Flip(positive, root)];
    NormalTrigger(parts, infos, base, trigger, positive, i, cnf, clause, cnf', clause');
    OverStep(parts, base, trigger, positive, cnf, clause, i, pair, -Flip(positive, root));
  }

  /** The clauses so far use what the parts use, and the trigger. */
  ghost predicate OverAll(parts: seq<Part>, base: int, trigger: int, cnf: seq<Clause>, clause: Clause)
  {
    forall vars :: PartsOver(parts, vars, base, trigger) ==>
      CnfOver(cnf, vars, base, trigger + 1) && CnfOver([clause], vars, base, trigger + 1)
  }

  lemma OverStart(parts: seq<Part>, base: int, trigger: int, positive: bool)
    requires 0 < base <= trigger
    ensures OverAll(parts, base, trigger, [], [Flip(positive, trigger)])
  {
    var next, first := trigger + 1, [Flip(positive, trigger)];
    forall vars ensures CnfOver([], vars, base, next) && CnfOver([first], vars, base, next) {
      StartOver(vars, base, trigger, positive);
    }
  }

  lemma OverStep(parts: seq<Part>, base: int, trigger: int, positive: bool, cnf: seq<Clause>, clause: Clause, i: nat,
                 pair: Clause, lit: int)
    requires OverAll(parts, base, trigger, cnf, clause) && i < |parts| && 0 < base <= trigger
    requires var form := parts[i].cnf; |form| > 0 && |form[|form| - 1]| == 1 && Abs(lit) == Abs(form[|form| - 1][0])
    requires forall l :: l in pair ==> Abs(l) == trigger || Abs(l) == Abs(lit)
    ensures var form := parts[i].cnf; OverAll(parts, base, trigger, cnf + form[..|form| - 1] + [pair], clause + [lit])
  {
    var form := parts[i].cnf;
    forall vars | PartsOver(parts, vars, base, trigger)
      ensures CnfOver(cnf + form[..|form| - 1] + [pair], vars, base, trigger + 1)
      ensures CnfOver([clause + [lit]], vars, base, trigger + 1)
    {
      assert CnfOver(form, vars, base, trigger);
      hide CnfOver;
      JoinOver(cnf, form, vars, base, trigger, clause, pair, lit);
    }
  }

  lemma OverEnd(parts: seq<Part>, base: int, trigger: int, cnf: seq<Clause>, clause: Clause)
    requires OverAll(parts, base, trigger, cnf, clause) && 0 < base <= trigger
    ensures forall vars :: PartsOver(parts, vars, base, trigger) ==> CnfOver(cnf + [clause] + [[trigger]], vars, base, trigger + 1)
  {
    forall vars | PartsOver(parts, vars, base, trigger)
      ensures CnfOver(cnf + [clause] + [[trigger]], vars, base, trigger + 1)
    {
      hide CnfOver;
      EndOver(cnf, vars, base, trigger, clause);
    }
  }

  /** Joins the parts: positively (UNION) their conjunction, negatively (INTERSECTION) their disjunction. A part
      that decides the join is returned as it is; if no proper part is left the join is the other constant. */
  method JoinParts(parts: seq<Part>, nextFree: int, positive: bool, ghost infos: seq<Info>, ghost base: int)
    returns (kind: CnfType, cnf: seq<Clause>, next: int, ghost meaning: Meaning)
    requires PartsOk(parts, infos, base, nextFree)
    ensures nextFree <= next && Represents(kind, cnf, base, base, next, meaning, Joined(infos, positive))
    ensures kind == JoinKind(parts, positive) && next == if kind == Normal then nextFree + 1 else nextFree
    ensures forall vars :: PartsOver(parts, vars, base, nextFree) ==> CnfOver(cnf, vars, base, next)
  {
    hide PartOk, Follows, Represents, CnfOver;
    next, cnf, meaning := nextFree, [], JoinAll(infos, 0);
    BoundaryMonotone(parts, infos, base, nextFree, |infos|);
    var allNeutral := true;
    var i := 0;
    while i < |parts|
      invariant 0 <= i <= |parts|
      invariant forall j :: 0 <= j < i ==> parts[j].kind != Absorbing(positive)
      invariant allNeutral <==> forall j :: 0 <= j < i ==> parts[j].kind == Neutral(positive)
    {
      if parts[i].kind == Absorbing(positive) {
        AbsorbingJoin(parts, infos, base, nextFree, positive, meaning, i);
        return Absorbing(positive), parts[i].cnf, next, meaning;
      }
      allNeutral := allNeutral && parts[i].kind == Neutral(positive);
      i := i + 1;
    }
    if allNeutral {
      NeutralJoin(parts, infos, base, nextFree, positive, meaning);
      return Neutral(positive), NeutralCnf(positive), next, meaning;
    }
    kind := Normal;
    cnf, next := AddTrigger(parts, nextFree, positive, infos, base);
    meaning := WithTrigger(nextFree, JoinAll(infos, |infos|), Joined(infos, positive));
  }

  lemma AbsorbingJoin(parts: seq<Part>, infos: seq<Info>, base: int, next: int, positive: bool, meaning: Meaning, i: nat)
    requires PartsOk(parts, infos, base, next) && base <= next && i < |parts| && parts[i].kind == Absorbing(positive)
    ensures Represents(Absorbing(positive), parts[i].cnf, base, base, next, meaning, Joined(infos, positive))
    ensures forall vars :: CnfOver(parts[i].cnf, vars, base, next)
  {
    hide PartOk;
    forall s ensures Joined(infos, positive)(s) == !positive {
      ConstantParts(parts, infos, base, next, i, s);
    }
    forall s, t | AgreeBelow(s, t, base) ensures Joined(infos, positive)(s) == Joined(infos, positive)(t) {
      FunctionsDepend(parts, infos, base, next, s, t);
    }
    ConstantParts(parts, infos, base, next, i, iset{});
  }

  lemma NeutralJoin(parts: seq<Part>, infos: seq<Info>, base: int, next: int, positive: bool, meaning: Meaning)
    requires PartsOk(parts, infos, base, next) && base <= next
    requires forall i :: 0 <= i < |parts| ==> parts[i].kind == Neutral(positive)
    ensures Represents(Neutral(positive), NeutralCnf(positive), base, base, next, meaning, Joined(infos, positive))
    ensures forall vars :: CnfOver(NeutralCnf(positive), vars, base, next)
  {
    hide PartOk;
    forall s ensures Joined(infos, positive)(s) == positive {
      forall i | 0 <= i < |parts| ensures infos[i].f(s) == positive { ConstantParts(parts, infos, base, next, i, s); }
    }
  }

  // ----- Variables -----------------------------------------------------------------------------------

  /** The parts mention nothing but vars and the fresh variables. */
  ghost predicate PartsOver(parts: seq<Part>, vars: set<int>, base: int, next: int)
  {
    forall i :: 0 <= i < |parts| ==> CnfOver(parts[i].cnf, vars, base, next)
  }

  lemma StartOver(vars: set<int>, base: int, next: int, positive: bool)
    requires 0 < base <= next
    ensures CnfOver([], vars, base, next + 1) && CnfOver([[Flip(positive, next)]], vars, base, next + 1)
  {
  }

  /** Variables of a part, its trigger pair and the trigger clause stay within bounds. */
  lemma JoinOver(cnf: seq<Clause>, form: seq<Clause>, vars: set<int>, base: int, next: int, clause: Clause, pair: Clause,
                 lit: int)
    requires |form| > 0 && |form[|form| - 1]| == 1 && 0 < base <= next
    requires CnfOver(cnf, vars, base, next + 1) && CnfOver(form, vars, base, next)
    requires CnfOver([clause], vars, base, next + 1)
    requires Abs(lit) == Abs(form[|form| - 1][0]) && forall l :: l in pair ==> Abs(l) == next || Abs(l) == Abs(lit)
    ensures CnfOver(cnf + form[..|form| - 1] + [pair], vars, base, next + 1)
    ensures CnfOver([clause + [lit]], vars, base, next + 1)
  {
    var root := form[|form| - 1][0];
    assert form[|form| - 1] in form && root in form[|form| - 1];
    assert Abs(root) in vars || base <= Abs(root) < next;
    assert clause in [clause];
  }

  lemma EndOver(cnf: seq<Clause>, vars: set<int>, base: int, next: int, clause: Clause)
    requires 0 < base <= next && CnfOver(cnf, vars, base, next + 1) && CnfOver([clause], vars, base, next + 1)
    ensures CnfOver(cnf + [clause] + [[next]], vars, base, next + 1)
  {
    assert clause in [clause];
  }
}
