/** First-UIP conflict analysis and what happens with the learned clause (cadical/src/analyze.cpp). */
module Analyze {
  import opened Logic
  import opened Trail
  import opened ConflictWatches

  /** Some literal of the set is true in every model of the formula. */
  ghost predicate ImpliesSome(f: seq<Clause>, lits: set<int>)
  {
    forall s :: CnfTrue(s, f) ==> SomeTrue(s, lits)
  }

  ghost predicate SomeTrue(s: Assignment, lits: set<int>)
  {
    exists l :: l in lits && LitTrue(s, l)
  }

  /** The negations of the seen literals of the current level that lie before position i. */
  function OpenLits(t: State, seen: set<int>, i: nat): set<int>
    requires i <= |t.trail|
  {
    set k | 0 <= k < i && Abs(t.trail[k]) in seen && LevelOf(t, t.trail[k]) == t.level :: Opposite(t.trail[k])
  }

  /** The literals of lower levels collected so far are false, on levels above zero, and exactly the seen ones. */
  ghost predicate LowerOk(t: State, seen: set<int>, clause: seq<int>)
  {
    && Distinct(clause)
    && (forall l :: l in clause ==> l != 0 && False(t, l) && 0 < LevelOf(t, l) < t.level && Abs(l) in seen)
    && (forall l :: l != 0 && False(t, l) && Abs(l) in seen && LevelOf(t, l) < t.level ==> l in clause)
  }

  /** The resolvent so far: lower literals, open literals, and the literals of the reason still to be visited. */
  ghost predicate Resolvent(t: State, f: seq<Clause>, seen: set<int>, clause: seq<int>, i: nat, pending: set<int>)
    requires i <= |t.trail|
  {
    ImpliesSome(f, Lits(clause) + OpenLits(t, seen, i) + pending)
  }

  /** A literal that analysis can visit: false, before position i. */
  predicate Visitable(t: State, l: int, i: nat)
  {
    l != 0 && False(t, l) && PosOf(t, l) < i && LevelOf(t, l) <= t.level
  }

  // ----- One literal ---------------------------------------------------------------------------------

  lemma DropPending(f: seq<Clause>, lits: set<int>, pending: set<int>, l: int)
    requires ImpliesSome(f, lits + (pending + {l}))
    requires l in lits || forall s :: CnfTrue(s, f) ==> !LitTrue(s, l)
    ensures ImpliesSome(f, lits + pending)
  {
    forall s | CnfTrue(s, f)
      ensures SomeTrue(s, lits + pending)
    {
      assert SomeTrue(s, lits + (pending + {l}));
      var m :| m in lits + (pending + {l}) && LitTrue(s, m);
      assert m in lits + pending;
    }
  }

  /** Where a visited literal of the current level is among the open ones. */
  lemma OpenMember(t: State, f: seq<Clause>, seen: set<int>, i: nat, l: int)
    requires TrailOk(t, f) && i <= |t.trail| && Visitable(t, l, i) && LevelOf(t, l) == t.level
    ensures l in OpenLits(t, seen, i) <==> Abs(l) in seen
  {
    var k := PosOf(t, l);
    var o := Opposite(l);
    assert PosOf(t, o) == k && t.trail[k] == o;
    assert Opposite(t.trail[k]) == l && LevelOf(t, t.trail[k]) == t.level;
    if l in OpenLits(t, seen, i) {
      var m :| 0 <= m < i && Abs(t.trail[m]) in seen && LevelOf(t, t.trail[m]) == t.level && Opposite(t.trail[m]) == l;
      assert t.trail[m] == o;
    }
  }

  lemma OpenGrows(t: State, f: seq<Clause>, seen: set<int>, i: nat, l: int)
    requires TrailOk(t, f) && i <= |t.trail| && Visitable(t, l, i) && Abs(l) !in seen
    ensures OpenLits(t, seen + {Abs(l)}, i) ==
            if LevelOf(t, l) == t.level then OpenLits(t, seen, i) + {l} else OpenLits(t, seen, i)
  {
    var was, now := OpenLits(t, seen, i), OpenLits(t, seen + {Abs(l)}, i);
    var o, k := Opposite(l), PosOf(t, l);
    assert PosOf(t, o) == k && t.trail[k] == o && LevelOf(t, o) == LevelOf(t, l);
    forall m | m in now
      ensures m in was || (m == l && LevelOf(t, l) == t.level)
    {
      var j :| 0 <= j < i && Abs(t.trail[j]) in seen + {Abs(l)} && LevelOf(t, t.trail[j]) == t.level && Opposite(t.trail[j]) == m;
      if Abs(t.trail[j]) == Abs(l) {
        assert PosOf(t, t.trail[j]) == j;
      }
    }
    if LevelOf(t, l) == t.level {
      OpenMember(t, f, seen + {Abs(l)}, i, l);
    }
  }

  lemma LowerGrows(t: State, seen: set<int>, clause: seq<int>, l: int)
    requires PositionsOk(t) && LowerOk(t, seen, clause) && l != 0 && False(t, l) && Abs(l) !in seen && 0 < LevelOf(t, l) <= t.level
    ensures LowerOk(t, seen + {Abs(l)}, if LevelOf(t, l) < t.level then clause + [l] else clause)
  {
    var more := if LevelOf(t, l) < t.level then clause + [l] else clause;
    assert l !in clause;
    forall m | m != 0 && False(t, m) && Abs(m) in seen + {Abs(l)} && LevelOf(t, m) < t.level
      ensures m in more
    {
      if Abs(m) == Abs(l) {
        NotBoth(t, Opposite(l));
        assert m == l;
      }
    }
  }

  // ----- The first unique implication point ----------------------------------------------------------

  /** The variables of the literals above level zero. */
  function Above(t: State, c: Clause): set<int>
  {
    set l | l in c && LevelOf(t, l) > 0 :: Abs(l)
  }

  /** A variable of the current level at this position of the trail is among the given ones. */
  predicate AtLevel(t: State, seen: set<int>, k: int)
  {
    0 <= k < |t.trail| && Abs(t.trail[k]) in seen && LevelOf(t, t.trail[k]) == t.level
  }

  /** The variables seen once the trail was processed down to position i: those of the conflict, and those of the reasons of
      the seen variables of the current level from there on. */
  ghost function SeenFrom(t: State, conflict: Clause, i: nat): set<int>
    decreases |t.trail| - i
  {
    if i >= |t.trail| then Above(t, conflict)
    else
      var after := SeenFrom(t, conflict, i + 1);
      if AtLevel(t, after, i) then after + Above(t, ReasonOf(t, t.trail[i])) else after
  }

  /** The literal at position k is a seen one of the current level, with no other such literal before it. */
  ghost predicate Unique(t: State, conflict: Clause, k: nat)
  {
    AtLevel(t, SeenFrom(t, conflict, k + 1), k) && NoneBelow(t, SeenFrom(t, conflict, k + 1), k)
  }

  predicate NoneBelow(t: State, seen: set<int>, k: int)
  {
    forall m :: 0 <= m < k ==> !AtLevel(t, seen, m)
  }

  /** The clause is what analysis derives at the first such position from the end of the trail: the negation of the literal
      there, and the false literals of lower levels seen by then. */
  ghost predicate FirstUip(t: State, conflict: Clause, c: Clause, uip: int)
  {
    exists k: nat :: Unique(t, conflict, k) && t.trail[k] == uip && (forall q: nat :: q > k ==> !Unique(t, conflict, q))
                     && forall l :: l in c <==> l == -uip || LowerSeen(t, SeenFrom(t, conflict, k + 1), l)
  }

  predicate LowerSeen(t: State, seen: set<int>, l: int)
  {
    l != 0 && False(t, l) && Abs(l) in seen && 0 < LevelOf(t, l) < t.level
  }

  /** Nothing is seen between two open literals. */
  lemma {:induction false} SeenSkips(t: State, conflict: Clause, i: nat, k: nat)
    requires k <= i <= |t.trail| && forall m :: k <= m < i ==> !AtLevel(t, SeenFrom(t, conflict, i), m)
    ensures SeenFrom(t, conflict, k) == SeenFrom(t, conflict, i)
    ensures forall q: nat :: k <= q < i ==> !Unique(t, conflict, q)
    decreases i - k
  {
    if k < i {
      SeenSkips(t, conflict, i, k + 1);
    }
  }

  /** From an open literal at k on: either it is the first unique one, or its reason is seen next. */
  lemma SeenNext(t: State, conflict: Clause, i: nat, k: nat, seen: set<int>)
    requires k < i <= |t.trail| && seen == SeenFrom(t, conflict, i) && AtLevel(t, seen, k)
    requires forall m :: k < m < i ==> !AtLevel(t, seen, m)
    requires forall q: nat :: q >= i ==> !Unique(t, conflict, q)
    ensures SeenFrom(t, conflict, k + 1) == seen && SeenFrom(t, conflict, k) == seen + Above(t, ReasonOf(t, t.trail[k]))
    ensures forall q: nat :: q > k ==> !Unique(t, conflict, q)
    ensures Unique(t, conflict, k) <==> forall m :: 0 <= m < k ==> !AtLevel(t, seen, m)
  {
    SeenSkips(t, conflict, i, k + 1);
  }

  lemma NotUniqueBeyond(t: State, conflict: Clause)
    ensures forall q: nat :: q >= |t.trail| ==> !Unique(t, conflict, q)
  {
  }

  // ----- The analysis in memory ----------------------------------------------------------------------

  class Analysis {
    var seen: set<int>
    var analyzed: seq<int>
    var clause: seq<int>
    var open: nat

    constructor ()
      ensures seen == {} && analyzed == [] && clause == [] && open == 0
    {
      seen, analyzed, clause, open := {}, [], [], 0;
    }

    /** What holds between two literals. */
    ghost predicate Inv(t: State, f: seq<Clause>, i: nat, pending: set<int>)
      reads this
    {
      && i <= |t.trail| && LowerOk(t, seen, clause) && open == |OpenLits(t, seen, i)|
      && Resolvent(t, f, seen, clause, i, pending) && seen == Variables(analyzed)
    }

    /** Visits one literal of a reason: root-level and seen literals are skipped, lower ones go to the clause, and those
        of the current level are open. */
    method AnalyzeLiteral(s: Solver, l: int, ghost i: nat, ghost pending: set<int>)
      requires s.Valid() && Inv(s.Now(), s.formula, i, pending + {l}) && Visitable(s.Now(), l, i)
      modifies this
      ensures Inv(s.Now(), s.formula, i, pending)
      ensures open >= old(open) && (LevelOf(s.Now(), l) == s.level > 0 ==> open > 0)
      ensures seen == old(seen) + if LevelOf(s.Now(), l) > 0 then {Abs(l)} else {}
    {
      hide TrailOk, LowerOk, Resolvent, OpenLits, Variables, Visitable;
      ghost var t := s.Now();
      var v := Abs(l);
      VisitableKnown(t, s.formula, l, i);
      var lev := s.vars[v].level;
      if lev == 0 {
        VisitRoot(t, s.formula, seen, clause, i, pending, l);
        return;
      }
      if v in seen {
        VisitSeen(t, s.formula, seen, clause, i, pending, l);
        return;
      }
      VisitNew(t, s.formula, seen, clause, i, pending, l);
      seen := seen + {v};
      analyzed := analyzed + [l];
      if lev < s.level {
        clause := clause + [l];
      }
      if lev == s.level {
        open := open + 1;
      }
      VariablesGrow(old(analyzed), l);
    }

    /** Visits all literals of a reason but the one that it implied. */
    method AnalyzeReason(s: Solver, uip: int, reason: Clause, ghost i: nat)
      requires s.Valid() && Inv(s.Now(), s.formula, i, Others(reason, uip))
      requires forall m :: m in reason && m != uip ==> Visitable(s.Now(), m, i)
      modifies this
      ensures Inv(s.Now(), s.formula, i, {})
      ensures open >= old(open)
      ensures s.level > 0 && (exists m :: m in reason && m != uip && LevelOf(s.Now(), m) == s.level) ==> open > 0
      ensures seen == old(seen) + AboveBut(s.Now(), reason, uip)
    {
      hide *;
      ghost var t := s.Now();
      ghost var was := seen;
      AboveNone(t, reason, uip);
      assert reason[0..] == reason && reason[..|reason|] == reason;
      PendingNone(reason, uip);
      var k := 0;
      while k < |reason|
        invariant 0 <= k <= |reason| && Inv(t, s.formula, i, Others(reason[k..], uip)) && open >= old(open)
        invariant s.level > 0 && (exists m :: m in reason[..k] && m != uip && LevelOf(t, m) == s.level) ==> open > 0
        invariant seen == was + AboveBut(t, reason[..k], uip)
      {
        var other := reason[k];
        AboveStep(t, reason, k, uip);
        PendingSplit(reason, k, uip);
        if other != uip {
          AnalyzeLiteral(s, other, i, Others(reason[k + 1..], uip));
        }
        k := k + 1;
      }
    }

    /** Goes down the trail to the next open literal. */
    method NextOpen(s: Solver, i: nat) returns (k: nat)
      requires s.Valid() && Inv(s.Now(), s.formula, i, {}) && open > 0
      ensures k < i <= |s.trail| && Abs(s.trail[k]) in seen && LevelOf(s.Now(), s.trail[k]) == s.level
      ensures forall m :: k < m < i ==> !(Abs(s.trail[m]) in seen && LevelOf(s.Now(), s.trail[m]) == s.level)
    {
      hide TrailOk, LowerOk, Resolvent, OpenLits, Variables, LevelOf;
      ghost var t := s.Now();
      ghost var some := OneOpen(t, seen, i);
      hide Inv;
      k := i - 1;
      while !(Abs(s.trail[k]) in seen && LevelOf(s.Now(), s.trail[k]) == s.level)
        invariant some <= k < i
        invariant forall m :: k < m < i ==> !(Abs(s.trail[m]) in seen && LevelOf(t, s.trail[m]) == s.level)
        decreases k
      {
        k := k - 1;
      }
    }

    /** Resolves until only one literal of the current level is left, the first unique implication point. */
    method DeriveUip(s: Solver, conflict: Clause) returns (uip: int)
      requires s.Valid() && s.level > 0 && conflict in s.formula && AllFalse(s.Now(), conflict)
      requires exists l :: l in conflict && LevelOf(s.Now(), l) == s.level
      requires seen == {} && analyzed == [] && clause == [] && open == 0
      modifies this
      ensures seen == Variables(analyzed) && Learned(s.Now(), s.formula, clause, uip)
      ensures FirstUip(s.Now(), conflict, clause, uip)
    {
      hide TrailOk, Inv, Learned, Popped, Visitable, Others, AllFalse, OpenLits, Variables, FirstUip, SeenFrom, Unique, Above, AboveBut;
      ghost var t := s.Now();
      var i: nat := |s.trail|;
      StartAnalysis(this, t, s.formula, conflict);
      AnalyzeReason(s, 0, conflict, i);
      StartSeen(t, conflict, seen);
      while true
        invariant Inv(t, s.formula, i, {}) && open > 0 && i <= |t.trail|
        invariant seen == SeenFrom(t, conflict, i) && forall q: nat :: q >= i ==> !Unique(t, conflict, q)
        decreases i
      {
        var k := NextOpen(s, i);
        SeenNext(t, conflict, i, k, seen);
        PopOpen(this, t, s.formula, i, k);
        uip := s.trail[k];
        i := k;
        open := open - 1;
        NoneOpen(t, seen, k);
        if open == 0 {
          break;
        }
        HasReason(this, t, s.formula, k);
        var reason := s.vars[Abs(uip)].reason;
        AboveAll(t, reason, uip, seen);
        AnalyzeReason(s, uip, reason, i);
      }
      FoundUip(t, s.formula, seen, analyzed, conflict, clause, i);
      FinishAnalysis(t, s.formula, seen, analyzed, clause, i);
      clause := clause + [-uip];
    }
  }

  /** The variables above level zero of the literals other than the one that was implied. */
  function AboveBut(t: State, c: Clause, uip: int): set<int>
  {
    set l | l in c && l != uip && LevelOf(t, l) > 0 :: Abs(l)
  }

  lemma AboveNone(t: State, c: Clause, uip: int)
    ensures AboveBut(t, c[..0], uip) == {}
  {
  }

  lemma AboveStep(t: State, c: Clause, k: nat, uip: int)
    requires k < |c|
    ensures AboveBut(t, c[..k + 1], uip) ==
            AboveBut(t, c[..k], uip) + if c[k] != uip && LevelOf(t, c[k]) > 0 then {Abs(c[k])} else {}
  {
    assert c[..k + 1] == c[..k] + [c[k]];
    var r := AboveBut(t, c[..k + 1], uip);
    forall v | v in AboveBut(t, c[..k], uip) ensures v in r {
      var l :| l in c[..k] && l != uip && LevelOf(t, l) > 0 && Abs(l) == v;
      assert l in c[..k + 1];
    }
    if c[k] != uip && LevelOf(t, c[k]) > 0 { assert c[k] in c[..k + 1]; }
  }

  lemma AboveAll(t: State, c: Clause, uip: int, seen: set<int>)
    requires Abs(uip) in seen || uip !in c
    ensures seen + AboveBut(t, c, uip) == seen + Above(t, c)
  {
    forall v | v in Above(t, c) ensures v in seen + AboveBut(t, c, uip) {
      var l :| l in c && LevelOf(t, l) > 0 && Abs(l) == v;
    }
  }

  ghost function Variables(lits: seq<int>): set<int>
  {
    set l | l in lits :: Abs(l)
  }

  lemma StartSeen(t: State, conflict: Clause, seen: set<int>)
    requires seen == {} + AboveBut(t, conflict, 0) && forall m :: m in conflict ==> m != 0
    ensures seen == SeenFrom(t, conflict, |t.trail|) && forall q: nat :: q >= |t.trail| ==> !Unique(t, conflict, q)
  {
    AboveAll(t, conflict, 0, {});
    assert {} + AboveBut(t, conflict, 0) == AboveBut(t, conflict, 0) && {} + Above(t, conflict) == Above(t, conflict);
    NotUniqueBeyond(t, conflict);
  }

  lemma NoneOpen(t: State, seen: set<int>, k: nat)
    requires k < |t.trail|
    ensures |OpenLits(t, seen, k)| == 0 <==> forall m :: 0 <= m < k ==> !AtLevel(t, seen, m)
  {
    if m :| 0 <= m < k && AtLevel(t, seen, m) {
      assert Opposite(t.trail[m]) in OpenLits(t, seen, k);
    }
    if |OpenLits(t, seen, k)| > 0 {
      var m := OneOpen(t, seen, k);
      assert AtLevel(t, seen, m);
    }
  }

  lemma FoundUip(t: State, f: seq<Clause>, seen: set<int>, analyzed: seq<int>, conflict: Clause, clause: seq<int>, k: nat)
    requires k < |t.trail| && Popped(t, f, seen, analyzed, clause, k) && seen == SeenFrom(t, conflict, k + 1)
    requires Unique(t, conflict, k) && forall q: nat :: q > k ==> !Unique(t, conflict, q)
    ensures FirstUip(t, conflict, clause + [-t.trail[k]], t.trail[k])
  {
    hide SeenFrom, Unique, Resolvent;
    var c, uip := clause + [-t.trail[k]], t.trail[k];
    forall l ensures l in c <==> l == -uip || LowerSeen(t, seen, l) {
      assert l in clause ==> LowerSeen(t, seen, l);
      LowerOnly(t, seen, clause, l);
    }
  }

  lemma LowerOnly(t: State, seen: set<int>, clause: seq<int>, l: int)
    requires LowerOk(t, seen, clause)
    ensures l in clause <==> LowerSeen(t, seen, l)
  {
  }

  lemma VariablesGrow(lits: seq<int>, l: int)
    ensures Variables(lits + [l]) == Variables(lits) + {Abs(l)}
  {
    forall v | v in Variables(lits) + {Abs(l)} ensures v in Variables(lits + [l]) {
      if v == Abs(l) { assert l in lits + [l]; } else { var m :| m in lits && Abs(m) == v; assert m in lits + [l]; }
    }
  }

  lemma VisitableKnown(t: State, f: seq<Clause>, l: int, i: nat)
    requires TrailOk(t, f) && Visitable(t, l, i)
    ensures Abs(l) in t.vars
  {
    FalseLevel(t, f, l);
  }

  lemma VisitRoot(t: State, f: seq<Clause>, seen: set<int>, clause: seq<int>, i: nat, pending: set<int>, l: int)
    requires TrailOk(t, f) && i <= |t.trail| && Visitable(t, l, i) && LevelOf(t, l) == 0
    requires Resolvent(t, f, seen, clause, i, pending + {l})
    ensures Resolvent(t, f, seen, clause, i, pending)
  {
    forall s | CnfTrue(s, f) ensures !LitTrue(s, l) { RootFalse(s, t, f, l); }
    DropPending(f, Lits(clause) + OpenLits(t, seen, i), pending, l);
  }

  lemma VisitSeen(t: State, f: seq<Clause>, seen: set<int>, clause: seq<int>, i: nat, pending: set<int>, l: int)
    requires TrailOk(t, f) && i <= |t.trail| && Visitable(t, l, i) && LowerOk(t, seen, clause) && Abs(l) in seen
    requires Resolvent(t, f, seen, clause, i, pending + {l})
    ensures Resolvent(t, f, seen, clause, i, pending)
    ensures LevelOf(t, l) == t.level ==> |OpenLits(t, seen, i)| > 0
  {
    if LevelOf(t, l) == t.level {
      OpenMember(t, f, seen, i, l);
    }
    DropPending(f, Lits(clause) + OpenLits(t, seen, i), pending, l);
  }

  lemma VisitNew(t: State, f: seq<Clause>, seen: set<int>, clause: seq<int>, i: nat, pending: set<int>, l: int)
    requires TrailOk(t, f) && i <= |t.trail| && Visitable(t, l, i) && LowerOk(t, seen, clause) && Abs(l) !in seen
    requires LevelOf(t, l) > 0 && Resolvent(t, f, seen, clause, i, pending + {l})
    ensures var more := if LevelOf(t, l) < t.level then clause + [l] else clause;
            && LowerOk(t, seen + {Abs(l)}, more) && Resolvent(t, f, seen + {Abs(l)}, more, i, pending)
            && |OpenLits(t, seen + {Abs(l)}, i)| ==
               |OpenLits(t, seen, i)| + if LevelOf(t, l) == t.level then 1 else 0
  {
    assert LevelOf(t, l) <= t.level;
    hide LowerOk, ImpliesSome, TrailOk, Visitable, Distinct;
    VisitNewLower(t, f, seen, clause, i, l);
    OpenGrows(t, f, seen, i, l);
    if LevelOf(t, l) == t.level {
      OpenMember(t, f, seen, i, l);
    }
    hide OpenLits;
    SameResolvent(clause, OpenLits(t, seen, i), pending, l);
  }

  lemma VisitNewLower(t: State, f: seq<Clause>, seen: set<int>, clause: seq<int>, i: nat, l: int)
    requires TrailOk(t, f) && Visitable(t, l, i) && LowerOk(t, seen, clause) && Abs(l) !in seen && LevelOf(t, l) > 0
    ensures LowerOk(t, seen + {Abs(l)}, if LevelOf(t, l) < t.level then clause + [l] else clause)
  {
    LowerGrows(t, seen, clause, l);
  }

  /** A pending literal may as well be counted with the lower or the open ones. */
  lemma SameResolvent(clause: seq<int>, open: set<int>, pending: set<int>, l: int)
    ensures Lits(clause) + open + (pending + {l}) == Lits(clause + [l]) + open + pending
    ensures Lits(clause) + open + (pending + {l}) == Lits(clause) + (open + {l}) + pending
  {
    assert Lits(clause + [l]) == Lits(clause) + {l};
  }

  /** The literals of a clause but one. */
  ghost function Others(c: seq<int>, l: int): set<int>
  {
    set m | m in c && m != l
  }

  lemma PendingNone(reason: seq<int>, uip: int)
    ensures Others(reason[|reason|..], uip) == {}
  {
  }

  lemma PendingSplit(reason: seq<int>, k: nat, uip: int)
    requires k < |reason|
    ensures Others(reason[k..], uip) ==
            if reason[k] != uip then Others(reason[k + 1..], uip) + {reason[k]} else Others(reason[k + 1..], uip)
    ensures forall m :: m in reason[..k + 1] <==> m in reason[..k] || m == reason[k]
  {
    assert reason[k..] == [reason[k]] + reason[k + 1..];
    assert reason[..k + 1] == reason[..k] + [reason[k]];
  }

  ghost predicate AllFalse(t: State, c: Clause)
  {
    forall l :: l in c ==> l != 0 && False(t, l)
  }

  /** A learned clause: implied, false, with exactly one literal on the current level and none on level zero. */
  ghost predicate Learned(t: State, f: seq<Clause>, c: Clause, uip: int)
  {
    && Implies(f, c) && AllFalse(t, c) && Distinct(c)
    && uip in t.vals && uip != 0 && Opposite(uip) in c && LevelOf(t, uip) == t.level
    && forall l :: l in c && l != Opposite(uip) ==> 0 < LevelOf(t, l) < t.level
  }

  lemma OneOpen(t: State, seen: set<int>, i: nat) returns (k: nat)
    requires i <= |t.trail| && |OpenLits(t, seen, i)| > 0
    ensures k < i && Abs(t.trail[k]) in seen && LevelOf(t, t.trail[k]) == t.level
  {
    var l :| l in OpenLits(t, seen, i);
    k :| 0 <= k < i && Abs(t.trail[k]) in seen && LevelOf(t, t.trail[k]) == t.level && Opposite(t.trail[k]) == l;
  }

  /** Before the first reason the conflict itself is pending. */
  lemma StartAnalysis(a: Analysis, t: State, f: seq<Clause>, conflict: Clause)
    requires TrailOk(t, f) && conflict in f && AllFalse(t, conflict)
    requires a.seen == {} && a.analyzed == [] && a.clause == [] && a.open == 0
    ensures a.Inv(t, f, |t.trail|, Others(conflict, 0))
    ensures forall m :: m in conflict && m != 0 ==> Visitable(t, m, |t.trail|)
    ensures forall m :: m in conflict ==> m != 0
  {
    assert OpenLits(t, {}, |t.trail|) == {};
    assert Lits([]) == {};
    forall s | CnfTrue(s, f)
      ensures SomeTrue(s, Lits([]) + OpenLits(t, {}, |t.trail|) + Others(conflict, 0))
    {
      assert ClauseTrue(s, conflict);
      var l :| l in conflict && LitTrue(s, l);
      assert l in Others(conflict, 0);
    }
    forall m | m in conflict ensures Visitable(t, m, |t.trail|) { FalseLevel(t, f, m); }
  }

  lemma OpenSplit(t: State, f: seq<Clause>, seen: set<int>, i: nat, k: nat)
    requires TrailOk(t, f) && k < i <= |t.trail| && Abs(t.trail[k]) in seen && LevelOf(t, t.trail[k]) == t.level
    requires forall m :: k < m < i ==> !(Abs(t.trail[m]) in seen && LevelOf(t, t.trail[m]) == t.level)
    ensures OpenLits(t, seen, i) == OpenLits(t, seen, k) + {Opposite(t.trail[k])}
    ensures Opposite(t.trail[k]) !in OpenLits(t, seen, k)
  {
    var l := Opposite(t.trail[k]);
    forall m | 0 <= m < k ensures t.trail[m] != t.trail[k] {
      assert PosOf(t, t.trail[m]) == m && PosOf(t, t.trail[k]) == k;
    }
    forall x | x in OpenLits(t, seen, i)
      ensures x in OpenLits(t, seen, k) || x == l
    {
      var m :| 0 <= m < i && Abs(t.trail[m]) in seen && LevelOf(t, t.trail[m]) == t.level && Opposite(t.trail[m]) == x;
    }
  }

  /** Taking the last open literal off leaves a resolvent with its negation pending. */
  lemma PopOpen(a: Analysis, t: State, f: seq<Clause>, i: nat, k: nat)
    requires TrailOk(t, f) && a.Inv(t, f, i, {}) && k < i && Abs(t.trail[k]) in a.seen && LevelOf(t, t.trail[k]) == t.level
    requires forall m :: k < m < i ==> !(Abs(t.trail[m]) in a.seen && LevelOf(t, t.trail[m]) == t.level)
    ensures k < |t.trail| && Popped(t, f, a.seen, a.analyzed, a.clause, k) && a.open == |OpenLits(t, a.seen, k)| + 1
  {
    OpenSplit(t, f, a.seen, i, k);
    var lits := Lits(a.clause) + OpenLits(t, a.seen, i) + {};
    assert lits == Lits(a.clause) + OpenLits(t, a.seen, k) + {Opposite(t.trail[k])};
  }

  ghost predicate Popped(t: State, f: seq<Clause>, seen: set<int>, analyzed: seq<int>, clause: seq<int>, k: nat)
    requires k < |t.trail|
  {
    && LowerOk(t, seen, clause) && seen == Variables(analyzed) && LevelOf(t, t.trail[k]) == t.level
    && Resolvent(t, f, seen, clause, k, {Opposite(t.trail[k])})
  }

  /** A literal with other open literals below it has a reason, and resolving with it keeps the resolvent implied. */
  lemma HasReason(a: Analysis, t: State, f: seq<Clause>, k: nat)
    requires TrailOk(t, f) && t.level > 0 && k < |t.trail| && Popped(t, f, a.seen, a.analyzed, a.clause, k)
    requires a.open == |OpenLits(t, a.seen, k)| > 0
    ensures Abs(t.trail[k]) in t.vars
    ensures var reason := t.vars[Abs(t.trail[k])].reason;
            && a.Inv(t, f, k, Others(reason, t.trail[k]))
            && forall m :: m in reason && m != t.trail[k] ==> Visitable(t, m, k)
  {
    var uip := t.trail[k];
    var j := OneOpen(t, a.seen, k);
    var reason := ReasonOf(t, uip);
    assert uip in t.vals && Justified(t, f, uip);
    assert !(j < t.control[t.level]) && PosOf(t, uip) == k;
    assert ReasonOk(t, uip, reason);
    forall m | m in reason && m != uip ensures Visitable(t, m, k) { FalseLevel(t, f, m); }
    ResolveOn(f, Lits(a.clause) + OpenLits(t, a.seen, k), reason, uip);
  }

  lemma ResolveOn(f: seq<Clause>, lits: set<int>, reason: Clause, uip: int)
    requires ImpliesSome(f, lits + {Opposite(uip)}) && reason in f && uip != 0
    ensures ImpliesSome(f, lits + Others(reason, uip))
  {
    forall s | CnfTrue(s, f)
      ensures SomeTrue(s, lits + Others(reason, uip))
    {
      assert SomeTrue(s, lits + {Opposite(uip)}) && ClauseTrue(s, reason);
      var l :| l in lits + {Opposite(uip)} && LitTrue(s, l);
      if l in lits {
        assert l in lits + Others(reason, uip);
      } else {
        LitNegation(s, uip);
        var m :| m in reason && LitTrue(s, m);
        assert m in lits + Others(reason, uip);
      }
    }
  }

  lemma FinishLevels(t: State, f: seq<Clause>, seen: set<int>, clause: seq<int>, k: nat)
    requires TrailOk(t, f) && k < |t.trail| && LowerOk(t, seen, clause) && LevelOf(t, t.trail[k]) == t.level
    ensures var uip := t.trail[k];
            var c := clause + [-uip];
            && AllFalse(t, c) && Distinct(c) && uip in t.vals && uip != 0 && Opposite(uip) in c
            && forall l :: l in c && l != Opposite(uip) ==> 0 < LevelOf(t, l) < t.level
  {
    var uip := t.trail[k];
    assert uip in t.vals && Opposite(Opposite(uip)) == uip;
    assert LevelOf(t, Opposite(uip)) == LevelOf(t, uip);
    assert Opposite(uip) !in clause;
  }

  lemma FinishAnalysis(t: State, f: seq<Clause>, seen: set<int>, analyzed: seq<int>, clause: seq<int>, k: nat)
    requires TrailOk(t, f) && k < |t.trail| && Popped(t, f, seen, analyzed, clause, k) && |OpenLits(t, seen, k)| == 0
    ensures seen == Variables(analyzed) && Learned(t, f, clause + [-t.trail[k]], t.trail[k])
  {
    hide TrailOk, LowerOk, AllFalse, Distinct, Variables, OpenLits;
    var uip := t.trail[k];
    var c := clause + [-uip];
    FinishLevels(t, f, seen, clause, k);
    var lits := Lits(clause) + OpenLits(t, seen, k) + {Opposite(uip)};
    assert OpenLits(t, seen, k) == {};
    forall s | CnfTrue(s, f)
      ensures ClauseTrue(s, c)
    {
      assert SomeTrue(s, lits);
      var l :| l in lits && LitTrue(s, l);
      assert l in c;
    }
  }

  // ----- The driving clause --------------------------------------------------------------------------

  /** Literals in the order of their level, and on the same level of their position on the trail. */
  predicate Lower(t: State, a: int, b: int)
  {
    LevelOf(t, a) < LevelOf(t, b) || (LevelOf(t, a) == LevelOf(t, b) && PosOf(t, a) < PosOf(t, b))
  }

  predicate Descending(t: State, c: seq<int>)
  {
    forall i, j :: 0 <= i < j < |c| ==> !Lower(t, c[i], c[j])
  }

  /** Sorts the literals, the ones assigned last on the highest level first. */
  method SortByRank(t: State, c: Clause) returns (r: Clause)
    ensures multiset(r) == multiset(c) && Descending(t, r)
  {
    r := [];
    var k := 0;
    while k < |c|
      invariant 0 <= k <= |c| && multiset(r) == multiset(c[..k]) && Descending(t, r)
    {
      assert c[..k + 1] == c[..k] + [c[k]];
      r := InsertByRank(t, r, c[k]);
      k := k + 1;
    }
    assert c[..k] == c;
  }

  method InsertByRank(t: State, r: Clause, l: int) returns (more: Clause)
    requires Descending(t, r)
    ensures multiset(more) == multiset(r) + multiset{l} && Descending(t, more)
  {
    hide Lower, Descending;
    var i := 0;
    while i < |r| && !Lower(t, r[i], l)
      invariant 0 <= i <= |r| && forall j :: 0 <= j < i ==> !Lower(t, r[j], l)
    {
      i := i + 1;
    }
    more := r[..i] + [l] + r[i..];
    InsertedSame(r, i, l);
    InsertedDescending(t, r, i, l);
  }

  lemma InsertedSame(r: Clause, i: nat, l: int)
    requires i <= |r|
    ensures multiset(r[..i] + [l] + r[i..]) == multiset(r) + multiset{l}
  {
    assert r == r[..i] + r[i..];
  }

  lemma InsertedDescending(t: State, r: Clause, i: nat, l: int)
    requires Descending(t, r) && i <= |r| && (forall j :: 0 <= j < i ==> !Lower(t, r[j], l))
    requires i < |r| ==> Lower(t, r[i], l)
    ensures Descending(t, r[..i] + [l] + r[i..])
  {
    var more := r[..i] + [l] + r[i..];
    forall a, b | 0 <= a < b < |more|
      ensures !Lower(t, more[a], more[b])
    {
      hide Lower;
      var x := if a < i then a else a - 1;
      var y := if b < i then b else b - 1;
      if a != i { assert more[a] == r[x]; }
      if b != i { assert more[b] == r[y]; }
      if a == i {
        LowerTotal(t, r[i], l, r[y]);
        assert y > i ==> !Lower(t, r[i], r[y]);
      } else if b != i {
        assert x < y;
      }
    }
  }

  lemma LowerTotal(t: State, a: int, b: int, c: int)
    requires Lower(t, a, b)
    ensures !Lower(t, a, c) || a == c ==> !Lower(t, b, c)
  {
  }

  /** The learned clause sorted, and the jump level: the highest level of its other literals. */
  method NewDrivingClause(s: Solver, clause: Clause, ghost uip: int) returns (c: Clause, jump: nat)
    requires Learned(s.Now(), s.formula, clause, uip) && s.level > 0
    ensures Learned(s.Now(), s.formula, c, uip) && c != [] && c[0] == Opposite(uip) && multiset(c) == multiset(clause)
    ensures (forall l :: l in c && l != Opposite(uip) ==> LevelOf(s.Now(), l) <= jump) && jump < s.level
    ensures (jump == 0 <==> |c| == 1) && jump == HighestOther(s.Now(), c, Opposite(uip)) && (|c| > 1 ==> Descending(s.Now(), c))
  {
    ghost var t := s.Now();
    assert Opposite(uip) in clause;
    if |clause| == 1 {
      c, jump := clause, 0;
      assert forall m :: m in c ==> m == Opposite(uip);
    } else {
      c := SortByRank(s.Now(), clause);
      SortedLearned(t, s.formula, clause, c, uip);
      jump := LevelOf(s.Now(), c[1]);
    }
  }

  lemma SortedLearned(t: State, f: seq<Clause>, clause: Clause, c: Clause, uip: int)
    requires Learned(t, f, clause, uip) && multiset(c) == multiset(clause) && Descending(t, c) && |clause| > 1
    ensures Learned(t, f, c, uip) && |c| > 1 && c[0] == Opposite(uip) && c[1] != c[0] && c[1] in c
    ensures forall l :: l in c && l != Opposite(uip) ==> LevelOf(t, l) <= LevelOf(t, c[1])
  {
    SameElements(clause, c);
    var u := Opposite(uip);
    assert LevelOf(t, u) == t.level;
    assert |c| == |clause| by { assert |multiset(c)| == |multiset(clause)|; }
    assert c[0] in c && c[1] in c && u in c;
    assert c[0] == u;
    forall l | l in c && l != u
      ensures LevelOf(t, l) <= LevelOf(t, c[1])
    {
      var k :| 0 <= k < |c| && c[k] == l;
      if k > 1 { assert !Lower(t, c[1], c[k]); }
    }
    assert Implies(f, c) by {
      forall s | CnfTrue(s, f) ensures ClauseTrue(s, c) {
        assert ClauseTrue(s, clause);
        var l :| l in clause && LitTrue(s, l);
        assert l in c;
      }
    }
  }

  // ----- The backtrack level -------------------------------------------------------------------------

  /** The options that decide between back-jumping and chronological backtracking. */
  datatype Options = Options(chrono: bool, always: bool, levelim: int, reuse: bool)

  /** The levels above jump may be kept: nothing forces the jump level. */
  predicate MayKeep(level: nat, jump: nat, opts: Options, assumptions: nat)
  {
    opts.chrono && (opts.always || (jump < level - 1 && assumptions <= jump))
  }

  /** Jumping over the levels above jump is prohibited. */
  predicate MustKeep(level: nat, jump: nat, opts: Options, assumptions: nat)
  {
    MayKeep(level, jump, opts, assumptions) && (opts.always || level - jump > opts.levelim)
  }

  /** No variable from start on has a larger stamp than the one at best. */
  predicate LargestFrom(trail: seq<int>, start: nat, bumped: int -> int, best: nat)
  {
    start <= best < |trail| && forall k :: start <= k < |trail| ==> bumped(Abs(trail[k])) <= bumped(Abs(trail[best]))
  }

  /** The level is the lowest one from jump on whose backtracking keeps the trail up to the position. */
  predicate KeepsPosition(t: State, jump: nat, res: nat, best: nat)
  {
    && res < t.level < |t.control| && jump <= res
    && (res < t.level - 1 ==> best < t.control[res + 1])
    && (jump < res ==> t.control[res] <= best)
  }

  /** The level that the options choose between the jump level and the one before the current. */
  ghost predicate Chosen(t: State, jump: nat, opts: Options, assumptions: nat, bumped: int -> int, res: nat)
  {
    && jump <= res < t.level
    && if MustKeep(t.level, jump, opts, assumptions) then res == t.level - 1
       else if MayKeep(t.level, jump, opts, assumptions) && opts.reuse then
         jump + 1 < |t.control| && exists best :: FirstLargest(t.trail, t.control[jump + 1], bumped, best) && KeepsPosition(t, jump, res, best)
       else res == jump
  }

  /** The first position from start on with the largest stamp; zero if there is none. */
  predicate FirstLargest(trail: seq<int>, start: nat, bumped: int -> int, best: nat)
  {
    if start >= |trail| then best == 0
    else LargestFrom(trail, start, bumped, best) && forall k :: start <= k < best ==> bumped(Abs(trail[k])) < bumped(Abs(trail[best]))
  }

  /** Whatever the options and the variable order, the level lies between the jump level and the one before the
      current. */
  method DetermineLevel(s: Solver, jump: nat, opts: Options, assumptions: nat, bumped: int -> int) returns (res: nat)
    requires s.Valid() && s.level > jump
    ensures Chosen(s.Now(), jump, opts, assumptions, bumped, res)
  {
    hide ReasonsOk, PositionsOk, BelowOk;
    if !opts.chrono {
      res := jump;
    } else if opts.always {
      res := s.level - 1;
    } else if jump >= s.level - 1 || jump < assumptions {
      res := jump;
    } else if s.level - jump > opts.levelim {
      res := s.level - 1;
    } else if opts.reuse {
      var best := BestPosition(s, s.control[jump + 1], bumped);
      res := jump;
      while res < s.level - 1 && s.control[res + 1] <= best
        invariant jump <= res < s.level && (jump < res ==> s.control[res] <= best)
      {
        res := res + 1;
      }
      assert FirstLargest(s.trail, s.control[jump + 1], bumped, best) && KeepsPosition(s.Now(), jump, res, best);
    } else {
      res := jump;
    }
  }

  /** The trail position from the given one on with the largest stamp, the first of those. */
  method BestPosition(s: Solver, start: nat, bumped: int -> int) returns (pos: nat)
    requires start <= |s.trail|
    ensures FirstLargest(s.trail, start, bumped, pos)
  {
    pos := 0;
    var i := start;
    while i < |s.trail|
      invariant start <= i <= |s.trail| && (i > start ==> start <= pos < i)
      invariant forall k :: start <= k < i ==> bumped(Abs(s.trail[k])) <= bumped(Abs(s.trail[pos]))
      invariant i > start ==> forall k :: start <= k < pos ==> bumped(Abs(s.trail[k])) < bumped(Abs(s.trail[pos]))
      invariant i == start ==> pos == 0
    {
      if i == start || bumped(Abs(s.trail[pos])) < bumped(Abs(s.trail[i])) {
        pos := i;
      }
      i := i + 1;
    }
  }

  // ----- The conflict level --------------------------------------------------------------------------

  /** How many literals are on the given level. */
  function CountAt(t: State, c: seq<int>, lev: nat): nat
  {
    if c == [] then 0 else CountAt(t, c[..|c| - 1], lev) + if LevelOf(t, c[|c| - 1]) == lev then 1 else 0
  }

  lemma {:induction false} CountNone(t: State, c: seq<int>, lev: nat)
    requires forall l :: l in c ==> LevelOf(t, l) < lev
    ensures CountAt(t, c, lev) == 0
  {
    if c != [] {
      assert c[|c| - 1] in c;
      CountNone(t, c[..|c| - 1], lev);
    }
  }

  lemma {:induction false} CountMonotone(t: State, c: seq<int>, k: nat, lev: nat)
    requires k <= |c|
    ensures CountAt(t, c[..k], lev) <= CountAt(t, c, lev)
    decreases |c|
  {
    if k < |c| {
      assert c[..|c| - 1][..k] == c[..k];
      CountMonotone(t, c[..|c| - 1], k, lev);
    } else {
      assert c[..k] == c;
    }
  }

  /** The level of the conflict and its literals on it. */
  ghost predicate ConflictLevel(t: State, c: Clause, res: nat, forced: int)
  {
    && (forall l :: l in c ==> LevelOf(t, l) <= res) && (res > 0 ==> exists l :: l in c && LevelOf(t, l) == res)
    && (forced != 0 <==> CountAt(t, c, res) == 1 && res > 0)
    && (forced != 0 ==> forced in c && LevelOf(t, forced) == res)
  }

  /** The reordered clause holds the same literals and is watched by its first two, if it was before; the watches of other
      clauses stay. */
  ghost predicate Reordered(id: nat, c: Clause, lists: WatchLists, d: Clause, lists': WatchLists)
  {
    && multiset(d) == multiset(c) && SameOthers(lists, lists', id)
    && (Distinct(c) && Watched(lists, id, c) ==> Watched(lists', id, d))
  }

  lemma ReorderedTrans(id: nat, c: Clause, lists: WatchLists, d: Clause, lists': WatchLists, e: Clause, lists'': WatchLists)
    requires Reordered(id, c, lists, d, lists') && Reordered(id, d, lists', e, lists'')
    ensures Reordered(id, c, lists, e, lists'')
  {
    SameElements(c, d);
    hide Watched, Distinct, SameOthers;
    SameOthersTrans(lists, lists', lists'', id);
  }

  lemma ReorderedRefl(id: nat, c: Clause, lists: WatchLists)
    ensures Reordered(id, c, lists, c, lists)
  {
  }

  lemma ReorderedSame(id: nat, c: Clause, lists: WatchLists, d: Clause, lists': WatchLists)
    requires Reordered(id, c, lists, d, lists')
    ensures |d| == |c| && forall l :: l in d <==> l in c
  {
    SameElements(c, d);
    assert |c| == |multiset(c)| && |d| == |multiset(d)|;
  }

  /** The level of the conflict, and its literals and watches with the two highest literals moved in front. */
  method FindConflictLevel(s: Solver, c: Clause, id: nat, lists: WatchLists)
    returns (res: nat, forced: int, lits: Clause, lists': WatchLists)
    requires s.Valid() && AllFalse(s.Now(), c) && |c| >= 2
    ensures ConflictLevel(s.Now(), c, res, forced) && res <= s.level && Reordered(id, c, lists, lits, lists')
    ensures forall k :: 0 < k < |lits| ==> LevelOf(s.Now(), lits[k]) <= LevelOf(s.Now(), lits[0])
    ensures forall k :: 1 < k < |lits| ==> LevelOf(s.Now(), lits[k]) <= LevelOf(s.Now(), lits[1])
  {
    hide Reordered, TrailOk, AllFalse, LevelOf;
    res, forced := ScanLevels(s, c);
    var once, first := MoveHighest(s.Now(), c, 0, res, id, lists);
    ReorderedSame(id, c, lists, once, first);
    lits, lists' := MoveHighest(s.Now(), once, 1, res, id, first);
    ReorderedSame(id, once, first, lits, lists');
    ReorderedTrans(id, c, lists, once, first, lits, lists');
    forall k | 0 < k < |lits| ensures LevelOf(s.Now(), lits[k]) <= LevelOf(s.Now(), lits[0]) {
      assert lits[..1][0] == lits[0] && once[..1][0] == once[0];
      assert lits[k] in lits;
    }
  }

  method ScanLevels(s: Solver, c: Clause) returns (res: nat, forced: int)
    requires s.Valid() && AllFalse(s.Now(), c) && |c| >= 2
    ensures ConflictLevel(s.Now(), c, res, forced) && res <= s.level
  {
    ghost var t := s.Now();
    forall l | l in c ensures LevelOf(t, l) <= t.level { FalseLevel(t, s.formula, l); }
    hide TrailOk, Scanned, ConflictLevel, AllFalse, LevelOf;
    res, forced := 0, 0;
    var count, k := 0, 0;
    ScannedNone(t);
    assert c[..0] == [];
    while k < |c| && !(res == s.level && count > 1)
      invariant 0 <= k <= |c| && res <= s.level && Scanned(t, c[..k], res, forced, count)
    {
      var lit := c[k];
      assert c[..k + 1] == c[..k] + [lit] && lit in c;
      ScannedStep(t, c[..k], res, forced, count, lit);
      var tmp := LevelOf(s.Now(), lit);
      if tmp > res {
        res, forced, count := tmp, lit, 1;
      } else if tmp == res {
        count := count + 1;
      }
      k := k + 1;
    }
    ScannedDone(t, c, k, res, forced, count);
    if count != 1 {
      forced := 0;
    }
  }

  /** After part of the conflict: its highest level, the first literal on it, and their number. */
  ghost predicate Scanned(t: State, c: Clause, res: nat, forced: int, count: nat)
  {
    && (forall l :: l in c ==> LevelOf(t, l) <= res) && count == CountAt(t, c, res)
    && (res > 0 ==> count > 0 && forced in c && LevelOf(t, forced) == res)
    && (res == 0 ==> forced == 0 && count == |c|)
  }

  lemma ScannedNone(t: State)
    ensures Scanned(t, [], 0, 0, 0)
  {
  }

  lemma ScannedStep(t: State, c: Clause, res: nat, forced: int, count: nat, l: int)
    requires Scanned(t, c, res, forced, count)
    ensures if LevelOf(t, l) > res then Scanned(t, c + [l], LevelOf(t, l), l, 1)
            else Scanned(t, c + [l], res, forced, if LevelOf(t, l) == res then count + 1 else count)
  {
    var more := c + [l];
    assert more[..|more| - 1] == c && more[|more| - 1] == l;
    if LevelOf(t, l) > res { CountNone(t, c, LevelOf(t, l)); }
  }

  lemma ScannedDone(t: State, c: Clause, k: nat, res: nat, forced: int, count: nat)
    requires |c| >= 2 && k <= |c| && Scanned(t, c[..k], res, forced, count) && AllFalse(t, c)
    requires k == |c| || (res == t.level && count > 1)
    requires forall l :: l in c ==> LevelOf(t, l) <= t.level
    ensures ConflictLevel(t, c, res, if count == 1 then forced else 0)
  {
    CountMonotone(t, c, k, res);
    assert k == |c| ==> c[..k] == c;
    assert res > 0 ==> forced in c;
  }

  /** Swaps a literal of the highest level into one of the first two positions, and moves the watch if it was not watched. */
  method MoveHighest(t: State, c: Clause, i: nat, res: nat, id: nat, lists: WatchLists) returns (lits: Clause, lists': WatchLists)
    requires i < 2 <= |c| && forall l :: l in c ==> LevelOf(t, l) <= res
    ensures Reordered(id, c, lists, lits, lists') && |lits| == |c| && lits[..i] == c[..i]
    ensures forall k :: i <= k < |lits| ==> LevelOf(t, lits[k]) <= LevelOf(t, lits[i])
  {
    hide LevelOf, Watched, SameOthers;
    var highest, j := i, i + 1;
    while j < |c| && (highest == i || LevelOf(t, c[highest]) != res)
      invariant i <= highest < j <= |c| && forall k :: i <= k < j ==> LevelOf(t, c[k]) <= LevelOf(t, c[highest])
    {
      if LevelOf(t, c[highest]) < LevelOf(t, c[j]) {
        highest := j;
      }
      j := j + 1;
    }
    assert forall k :: i <= k < |c| ==> c[k] in c;
    lits := Swapped(c, i, highest);
    lists' := SwapWatched(lists, id, c, i, highest);
  }

  // ----- The whole analysis --------------------------------------------------------------------------

  /** Adding an implied clause keeps the trail's invariant. */
  lemma FormulaGrows(t: State, f: seq<Clause>, c: Clause)
    requires TrailOk(t, f)
    ensures TrailOk(t, f + [c])
  {
    forall l | l in t.vals
      ensures Justified(t, f + [c], l)
    {
      assert Justified(t, f, l);
      if LevelOf(t, l) == 0 {
        forall s | CnfTrue(s, f + [c]) ensures ClauseTrue(s, [l]) { CnfTrueConcat(s, f, [c]); }
      }
    }
  }

  /** The clause has become unit: all literals but l are false, and l has no value. */
  ghost predicate UnitUnder(t: State, c: Clause, l: int)
  {
    l in c && l != 0 && Unassigned(t, l) && forall m :: m in c && m != l ==> m != 0 && False(t, m)
  }

  /** If all but one literal of a false clause are on levels up to n, backtracking to n makes the clause unit. */
  lemma BecomesUnit(t: State, u: State, f: seq<Clause>, c: Clause, l: int, n: nat)
    requires TrailOk(t, f) && Backtracked(t, u, n) && AllFalse(t, c) && l in c && LevelOf(t, l) > n
    requires forall m :: m in c && m != l ==> LevelOf(t, m) <= n
    ensures UnitUnder(u, c, l)
  {
    assert l != 0 && Opposite(l) in t.vals && LevelOf(t, Opposite(l)) == LevelOf(t, l);
    NotBoth(t, Opposite(l));
    assert Opposite(Opposite(l)) == l;
    forall m | m in c && m != l
      ensures m != 0 && False(u, m)
    {
      assert LevelOf(t, Opposite(m)) == LevelOf(t, m);
    }
  }

  /** What analysis leads to: unsatisfiability, or a driving clause and the literal it assigns. */
  datatype Outcome = Refuted | Forced(lit: int) | Driven(lit: int, clause: Clause)

  /** A conflict on level zero refutes the formula. */
  lemma RootConflict(t: State, f: seq<Clause>, c: Clause)
    requires TrailOk(t, f) && c in f && AllFalse(t, c) && forall l :: l in c ==> LevelOf(t, l) == 0
    ensures Unsat(f)
  {
    forall s
      ensures !CnfTrue(s, f)
    {
      if CnfTrue(s, f) {
        assert ClauseTrue(s, c);
        var l :| l in c && LitTrue(s, l);
        RootFalse(s, t, f, l);
      }
    }
  }

  lemma {:induction false} CountTwo(t: State, c: seq<int>, lev: nat, i: nat, j: nat)
    requires i < j < |c| && LevelOf(t, c[i]) == lev && LevelOf(t, c[j]) == lev
    ensures CountAt(t, c, lev) >= 2
    decreases |c|
  {
    var front := c[..|c| - 1];
    if j < |c| - 1 {
      CountTwo(t, front, lev, i, j);
    } else {
      CountSome(t, front, lev, i);
    }
  }

  lemma {:induction false} CountSome(t: State, c: seq<int>, lev: nat, i: nat)
    requires i < |c| && LevelOf(t, c[i]) == lev
    ensures CountAt(t, c, lev) >= 1
    decreases |c|
  {
    if i < |c| - 1 {
      CountSome(t, c[..|c| - 1], lev, i);
    }
  }

  /** The single literal of the conflict level: all others are on lower levels. */
  lemma ForcedAlone(t: State, c: Clause, res: nat, forced: int)
    requires ConflictLevel(t, c, res, forced) && forced != 0
    ensures forall m :: m in c && m != forced ==> LevelOf(t, m) <= res - 1
  {
    forall m | m in c && m != forced
      ensures LevelOf(t, m) <= res - 1
    {
      if LevelOf(t, m) == res {
        var i :| 0 <= i < |c| && c[i] == m;
        var j :| 0 <= j < |c| && c[j] == forced;
        CountTwo(t, c, res, if i < j then i else j, if i < j then j else i);
      }
    }
  }

  /** After backtracking to the conflict level the conflict is still false, with literals on that level. */
  lemma StillConflict(t: State, u: State, f: seq<Clause>, c: Clause, res: nat, forced: int)
    requires TrailOk(t, f) && AllFalse(t, c) && ConflictLevel(t, c, res, forced)
    requires if res == t.level then u == t else Backtracked(t, u, res)
    ensures AllFalse(u, c) && u.level == res && forall l :: l in c ==> LevelOf(u, l) == LevelOf(t, l)
  {
    hide TrailOk, Kept, CountAt, Rank, PosOf, ReasonOf;
    forall l | l in c
      ensures False(u, l) && LevelOf(u, l) == LevelOf(t, l)
    {
      assert LevelOf(t, Opposite(l)) == LevelOf(t, l);
    }
  }

  /** The parameters of an analysis. */
  datatype Setting = Setting(opts: Options, assumptions: nat, bumped: int -> int)

  /** The result of analyzing a conflict: at is the state in which it is analyzed, mid the one right before the driven literal
      is assigned. A learned clause is the first-UIP clause of that state in descending order; the solver backtracks to the
      level chosen for it and assigns the flipped literal on its own level. */
  ghost predicate OutcomeOk(f: seq<Clause>, g: seq<Clause>, conflict: Clause, m: Setting, out: Outcome, at: State, mid: State, now: State)
  {
    match out
    case Refuted => Unsat(f) && g == f && at.level == 0 && now == at
    case Forced(l) =>
      && g == f && UnitUnder(mid, conflict, l) && now == Assign(mid, l, AssignedLevel(mid, l, conflict, m.opts.chrono), conflict)
      && mid.level + 1 == LevelOf(at, l)
    case Driven(l, c) =>
      && Implies(f, c) && g == f + [c] && UnitUnder(mid, c, l) && now == Assign(mid, l, AssignedLevel(mid, l, c, m.opts.chrono), c)
      && FirstUip(at, conflict, c, Opposite(l)) && c[0] == l && (|c| > 1 ==> Descending(at, c))
      && Chosen(at, HighestOther(at, c, l), m.opts, m.assumptions, m.bumped, mid.level)
  }

  /** Which kind of result there is: with chronological backtracking the solver first goes to the conflict level, and a single
      literal on it is forced. Then a conflict on level zero refutes the formula, and any other is learned from. */
  ghost predicate KindOk(t: State, conflict: Clause, m: Setting, out: Outcome, at: State)
  {
    if m.opts.chrono then
      exists res, forced :: ConflictLevel(t, conflict, res, forced) &&
        if forced != 0 then out == Forced(forced) && at == t
        else !out.Forced? && (out.Refuted? <==> res == 0) && at.level == res && (at == t || Backtracked(t, at, res))
    else
      !out.Forced? && at == t && (out.Refuted? <==> t.level == 0)
  }

  method ClearAnalyzed(a: Analysis)
    requires a.seen == Variables(a.analyzed)
    modifies a
    ensures a.seen == {} && a.analyzed == [] && a.clause == [] && a.open == 0
  {
    var k := 0;
    assert a.analyzed[0..] == a.analyzed;
    while k < |a.analyzed|
      invariant 0 <= k <= |a.analyzed| && a.analyzed == old(a.analyzed) && a.seen <= Variables(a.analyzed[k..])
    {
      assert a.analyzed[k..] == [a.analyzed[k]] + a.analyzed[k + 1..];
      a.seen := a.seen - {Abs(a.analyzed[k])};
      k := k + 1;
    }
    a.analyzed, a.clause, a.open := [], [], 0;
  }

  /** Learns the first-UIP clause, backtracks, and assigns its flipped literal. */
  method LearnAndDrive(s: Solver, a: Analysis, conflict: Clause, opts: Options, assumptions: nat, bumped: int -> int)
    returns (out: Outcome, ghost mid: State)
    requires s.Valid() && s.level > 0 && conflict in s.formula && AllFalse(s.Now(), conflict)
    requires exists l :: l in conflict && LevelOf(s.Now(), l) == s.level
    requires a.seen == {} && a.analyzed == [] && a.clause == [] && a.open == 0
    modifies s, a
    ensures s.Valid() && a.seen == {} && a.analyzed == [] && a.clause == [] && a.open == 0
    ensures OutcomeOk(old(s.formula), s.formula, conflict, Setting(opts, assumptions, bumped), out, old(s.Now()), mid, s.Now()) && out.Driven?
    ensures Backtracked(old(s.Now()), mid, mid.level) && mid.level == s.level
  {
    hide TrailOk, AllFalse, Learned, Backtracked, UnitUnder, Implies, LevelOf, FirstUip, Descending, Chosen, AssignedLevel, HighestOther;
    ghost var t := s.Now();
    var uip := a.DeriveUip(s, conflict);
    var c, jump := NewDrivingClause(s, a.clause, uip);
    SameUip(t, conflict, a.clause, c, uip);
    assert Opposite(-uip) == uip && Opposite(uip) == -uip;
    ChosenBelow(t, jump, opts, assumptions, bumped);
    var level := DetermineLevel(s, jump, opts, assumptions, bumped);
    LearnedFacts(t, s.formula, c, uip, level);
    FormulaGrows(t, s.formula, c);
    s.formula := s.formula + [c];
    s.Backtrack(level);
    mid := s.Now();
    BecomesUnit(t, mid, s.formula, c, -uip, level);
    MidLevel(t, mid, level);
    UnitMeans(mid, c, -uip);
    s.SearchAssign(-uip, c, opts.chrono);
    out := Driven(-uip, c);
    ClearAnalyzed(a);
  }

  /** Reordering keeps the first-UIP clause. */
  lemma SameUip(t: State, conflict: Clause, clause: Clause, c: Clause, uip: int)
    requires FirstUip(t, conflict, clause, uip) && multiset(c) == multiset(clause)
    ensures FirstUip(t, conflict, c, uip)
  {
    hide Unique, SeenFrom, LowerSeen;
    SameElements(clause, c);
  }

  lemma ChosenBelow(t: State, jump: nat, opts: Options, assumptions: nat, bumped: int -> int)
    ensures forall res: nat :: Chosen(t, jump, opts, assumptions, bumped, res) ==> jump <= res < t.level
  {
  }

  lemma UnitMeans(t: State, c: Clause, l: int)
    requires UnitUnder(t, c, l)
    ensures l != 0 && l in c && Unassigned(t, l) && forall m :: m in c && m != l ==> m != 0 && False(t, m)
  {
  }

  lemma MidLevel(t: State, u: State, n: nat)
    requires Backtracked(t, u, n)
    ensures u.level == n < t.level
  {
  }

  lemma LearnedFacts(t: State, f: seq<Clause>, c: Clause, uip: int, n: nat)
    requires Learned(t, f, c, uip) && n < t.level
    requires forall l :: l in c && l != Opposite(uip) ==> LevelOf(t, l) <= n
    ensures AllFalse(t, c) && Implies(f, c) && -uip in c && LevelOf(t, -uip) > n
    ensures forall m :: m in c && m != -uip ==> LevelOf(t, m) <= n
  {
    assert Opposite(uip) == -uip;
  }

  /** Conflict analysis. The conflict refutes the formula, or is itself turned into a driving clause, or leads to a new
      clause that the formula implies. The driving clause is unit once the solver has backtracked. The conflict may be
      reordered, with its watches. */
  method AnalyzeConflict(s: Solver, a: Analysis, conflict: Clause, id: nat, lists: WatchLists, opts: Options, assumptions: nat,
                         bumped: int -> int)
    returns (out: Outcome, lits: Clause, lists': WatchLists, ghost at: State, ghost mid: State)
    requires s.Valid() && conflict in s.formula && AllFalse(s.Now(), conflict) && |conflict| >= 2
    requires opts.chrono || s.level == 0 || exists l :: l in conflict && LevelOf(s.Now(), l) == s.level
    requires a.seen == {} && a.analyzed == [] && a.clause == [] && a.open == 0
    modifies s, a
    ensures s.Valid() && a.seen == {} && a.analyzed == [] && a.clause == [] && a.open == 0
    ensures OutcomeOk(old(s.formula), s.formula, conflict, Setting(opts, assumptions, bumped), out, at, mid, s.Now())
    ensures KindOk(old(s.Now()), conflict, Setting(opts, assumptions, bumped), out, at)
    ensures !out.Refuted? ==> Backtracked(old(s.Now()), mid, mid.level) && mid.level == s.level
    ensures Reordered(id, conflict, lists, lits, lists')
  {
    hide TrailOk, Backtracked, UnitUnder, LevelOf, CountAt, Unsat, Implies, Reordered, FirstUip, Descending, Chosen, AssignedLevel, HighestOther;
    ghost var t := s.Now();
    at, mid, lits, lists' := t, t, conflict, lists;
    ReorderedRefl(id, conflict, lists);
    if opts.chrono {
      var level, forced;
      level, forced, lits, lists' := FindConflictLevel(s, conflict, id, lists);
      if forced != 0 {
        ForcedAlone(t, conflict, level, forced);
        s.Backtrack(level - 1);
        mid := s.Now();
        BecomesUnit(t, mid, s.formula, conflict, forced, level - 1);
        MidLevel(t, mid, level - 1);
        UnitMeans(mid, conflict, forced);
        s.SearchAssign(forced, conflict, opts.chrono);
        out := Forced(forced);
        return;
      }
      s.Backtrack(level);
      at := s.Now();
      StillConflict(t, at, s.formula, conflict, level, forced);
      if level == t.level { assert at == t; }
    }
    hide ConflictLevel;
    if s.level == 0 {
      RootLevels(s.Now(), s.formula, conflict);
      RootConflict(s.Now(), s.formula, conflict);
      out := Refuted;
      return;
    }
    ghost var u := s.Now();
    out, mid := LearnAndDrive(s, a, conflict, opts, assumptions, bumped);
    if u != t {
      BacktrackTwice(t, u, mid, u.level, mid.level);
    }
  }

  lemma RootLevels(t: State, f: seq<Clause>, c: Clause)
    requires TrailOk(t, f) && AllFalse(t, c) && t.level == 0
    ensures forall l :: l in c ==> LevelOf(t, l) == 0
  {
    forall l | l in c ensures LevelOf(t, l) == 0 { FalseLevel(t, f, l); }
  }
}
