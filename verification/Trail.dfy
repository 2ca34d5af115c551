/** The assignment trail with out-of-order levels (cadical/src/backtrack.cpp, decide.cpp, propagate.cpp). */
module Trail {
  import opened Logic

  /** What is recorded per variable; an empty reason stands for none. */
  datatype Info = Info(level: nat, pos: nat, reason: Clause)

  /** The current level, the assigned literals in order, where each level starts, the variable table, and the set of
      true literals. */
  datatype State = State(level: nat, trail: seq<int>, control: seq<nat>, vars: map<int, Info>, vals: set<int>)

  function LevelOf(t: State, l: int): nat
  {
    if Abs(l) in t.vars then t.vars[Abs(l)].level else 0
  }

  function PosOf(t: State, l: int): nat
  {
    if Abs(l) in t.vars then t.vars[Abs(l)].pos else 0
  }

  function ReasonOf(t: State, l: int): Clause
  {
    if Abs(l) in t.vars then t.vars[Abs(l)].reason else []
  }

  predicate False(t: State, l: int)
  {
    Opposite(l) in t.vals
  }

  predicate Unassigned(t: State, l: int)
  {
    l !in t.vals && Opposite(l) !in t.vals
  }

  // ----- The invariant -------------------------------------------------------------------------------

  /** One start per level, in order and within the trail. */
  predicate ControlOk(t: State)
  {
    && |t.control| == t.level + 1 && t.control[0] == 0
    && (forall l :: 0 <= l <= t.level ==> t.control[l] <= |t.trail|)
    && (forall l, m :: 0 <= l <= m <= t.level ==> t.control[l] <= t.control[m])
  }

  /** Each assigned variable sits on the trail exactly once, at its recorded position. */
  predicate PositionsOk(t: State)
  {
    && (forall i :: 0 <= i < |t.trail| ==>
          t.trail[i] != 0 && t.trail[i] in t.vals && Abs(t.trail[i]) in t.vars && PosOf(t, t.trail[i]) == i &&
          LevelOf(t, t.trail[i]) <= t.level)
    && (forall l :: l in t.vals ==> PosOf(t, l) < |t.trail| && t.trail[PosOf(t, l)] == l)
  }

  /** Everything before the start of a level has a smaller level. */
  predicate BelowOk(t: State)
  {
    forall i, l :: 0 <= i < |t.trail| && 0 < l < |t.control| && i < t.control[l] ==> LevelOf(t, t.trail[i]) < l
  }

  /** The other literals of a reason are false, earlier on the trail, and not on a higher level. */
  predicate ReasonOk(t: State, l: int, reason: Clause)
  {
    && l in reason
    && forall m :: m in reason && m != l ==>
         m != 0 && False(t, m) && PosOf(t, m) < PosOf(t, l) && LevelOf(t, m) <= LevelOf(t, l)
  }

  /** Every true literal is a unit consequence at level zero, the decision of its level, or has a reason. */
  ghost predicate Justified(t: State, f: seq<Clause>, l: int)
  {
    if LevelOf(t, l) == 0 then Implies(f, [l])
    else if ReasonOf(t, l) == [] then LevelOf(t, l) < |t.control| && PosOf(t, l) == t.control[LevelOf(t, l)]
    else ReasonOf(t, l) in f && ReasonOk(t, l, ReasonOf(t, l))
  }

  ghost predicate ReasonsOk(t: State, f: seq<Clause>)
  {
    forall l :: l in t.vals ==> Justified(t, f, l)
  }

  ghost predicate TrailOk(t: State, f: seq<Clause>)
  {
    ControlOk(t) && PositionsOk(t) && BelowOk(t) && ReasonsOk(t, f)
  }

  lemma NotBoth(t: State, l: int)
    requires PositionsOk(t) && l in t.vals && l != 0
    ensures Opposite(l) !in t.vals && l in t.trail
  {
    assert PosOf(t, Opposite(l)) == PosOf(t, l);
    assert t.trail[PosOf(t, l)] == l;
  }

  /** The highest level of the literals of a clause other than l, zero if there is none. */
  function HighestOther(t: State, c: Clause, l: int): (h: nat)
    ensures forall m :: m in c && m != l ==> LevelOf(t, m) <= h
    ensures h > 0 ==> exists m :: m in c && m != l && LevelOf(t, m) == h
  {
    if c == [] then 0
    else
      var last, h := c[|c| - 1], HighestOther(t, c[..|c| - 1], l);
      assert c == c[..|c| - 1] + [last];
      if last != l && LevelOf(t, last) > h then LevelOf(t, last) else h
  }

  /** The level on which a clause assigns its literal: units are root-level units, with chronological backtracking it is the
      highest level of the other literals, and otherwise the current one. */
  function AssignedLevel(t: State, l: int, reason: Clause, chrono: bool): nat
  {
    if |reason| == 1 then 0 else if chrono then HighestOther(t, reason, l) else t.level
  }

  // ----- Assigning -----------------------------------------------------------------------------------

  /** The state after assigning l. */
  function Assign(t: State, l: int, level: nat, reason: Clause): State
  {
    t.(trail := t.trail + [l], vals := t.vals + {l},
       vars := t.vars[Abs(l) := Info(level, |t.trail|, if level == 0 then [] else reason)])
  }

  lemma AssignOthers(t: State, l: int, level: nat, reason: Clause, m: int)
    requires Abs(m) != Abs(l)
    ensures var u := Assign(t, l, level, reason);
            && LevelOf(u, m) == LevelOf(t, m) && PosOf(u, m) == PosOf(t, m) && ReasonOf(u, m) == ReasonOf(t, m)
            && (m in u.vals <==> m in t.vals)
  {
  }

  lemma AssignKeepsShape(t: State, l: int, level: nat, reason: Clause)
    requires ControlOk(t) && PositionsOk(t) && BelowOk(t) && l != 0 && Unassigned(t, l) && level <= t.level
    ensures var u := Assign(t, l, level, reason); ControlOk(u) && PositionsOk(u) && BelowOk(u)
  {
    var u := Assign(t, l, level, reason);
    forall i | 0 <= i < |t.trail|
      ensures Abs(t.trail[i]) != Abs(l)
    {
      assert t.trail[i] in t.vals;
    }
    forall m | m in u.vals
      ensures PosOf(u, m) < |u.trail| && u.trail[PosOf(u, m)] == m
    {
      if m != l {
        assert t.trail[PosOf(t, m)] == m;
        assert Abs(m) != Abs(l);
      }
    }
  }

  lemma AssignKeepsReasons(t: State, f: seq<Clause>, l: int, level: nat, reason: Clause)
    requires PositionsOk(t) && ReasonsOk(t, f) && l != 0 && Unassigned(t, l)
    requires Justified(Assign(t, l, level, reason), f, l)
    ensures ReasonsOk(Assign(t, l, level, reason), f)
  {
    var u := Assign(t, l, level, reason);
    forall m | m in u.vals
      ensures Justified(u, f, m)
    {
      if m != l {
        assert t.trail[PosOf(t, m)] == m;
        assert Abs(m) != Abs(l);
        OtherJustified(t, f, l, level, reason, m);
      }
    }
  }

  lemma OtherJustified(t: State, f: seq<Clause>, l: int, level: nat, reason: Clause, m: int)
    requires Justified(t, f, m) && Abs(m) != Abs(l) && Unassigned(t, l)
    ensures Justified(Assign(t, l, level, reason), f, m)
  {
    var u := Assign(t, l, level, reason);
    AssignOthers(t, l, level, reason, m);
    if LevelOf(t, m) > 0 && ReasonOf(t, m) != [] {
      forall k | k in ReasonOf(t, m) && k != m
        ensures False(u, k) && PosOf(u, k) < PosOf(u, m) && LevelOf(u, k) <= LevelOf(u, m)
      {
        assert False(t, k);
        assert Abs(k) != Abs(l);
        AssignOthers(t, l, level, reason, k);
      }
    }
  }

  // ----- Backtracking --------------------------------------------------------------------------------

  /** The literals of level at most n, in their old order. */
  function Kept(t: State, trail: seq<int>, n: nat): seq<int>
  {
    if trail == [] then []
    else
      var last := trail[|trail| - 1];
      Kept(t, trail[..|trail| - 1], n) + if LevelOf(t, last) <= n then [last] else []
  }

  /** The position of a kept literal after backtracking: the number of kept literals before it. */
  function Rank(t: State, n: nat, i: nat): nat
    requires i <= |t.trail|
  {
    |Kept(t, t.trail[..i], n)|
  }

  lemma {:induction false} KeptGrows(t: State, n: nat, i: nat, j: nat)
    requires i <= j <= |t.trail|
    ensures Kept(t, t.trail[..i], n) <= Kept(t, t.trail[..j], n)
    decreases j - i
  {
    if i < j {
      KeptGrows(t, n, i, j - 1);
      assert t.trail[..j][..j - 1] == t.trail[..j - 1];
    }
  }

  /** A kept literal sits at its rank, and ranks keep the order. */
  lemma RankFacts(t: State, n: nat, i: nat, j: nat)
    requires i < j <= |t.trail| && LevelOf(t, t.trail[i]) <= n
    ensures Rank(t, n, i) < Rank(t, n, j) && Kept(t, t.trail[..j], n)[Rank(t, n, i)] == t.trail[i]
  {
    assert t.trail[..i + 1][..i] == t.trail[..i];
    KeptGrows(t, n, i + 1, j);
  }

  lemma {:induction false} KeptMembers(t: State, n: nat, j: nat, k: nat) returns (i: nat)
    requires j <= |t.trail| && k < |Kept(t, t.trail[..j], n)|
    ensures i < j && LevelOf(t, t.trail[i]) <= n && Kept(t, t.trail[..j], n)[k] == t.trail[i] && Rank(t, n, i) == k
    decreases j
  {
    assert t.trail[..j][..j - 1] == t.trail[..j - 1];
    if k < |Kept(t, t.trail[..j - 1], n)| {
      i := KeptMembers(t, n, j - 1, k);
    } else {
      i := j - 1;
    }
  }

  /** Up to the start of level n + 1 everything is kept. */
  lemma {:induction false} KeptPrefix(t: State, n: nat, i: nat)
    requires BelowOk(t) && n + 1 < |t.control| && i <= t.control[n + 1] && i <= |t.trail|
    ensures Kept(t, t.trail[..i], n) == t.trail[..i]
  {
    if i > 0 {
      KeptPrefix(t, n, i - 1);
      assert t.trail[..i][..i - 1] == t.trail[..i - 1];
      assert LevelOf(t, t.trail[i - 1]) < n + 1;
    }
  }

  /** From t to u exactly the literals of level at most n were kept, in order, at their new positions. */
  ghost predicate Backtracked(t: State, u: State, n: nat)
  {
    && n < t.level && n + 1 < |t.control|
    && u.level == n && u.control == t.control[..n + 1] && u.trail == Kept(t, t.trail, n)
    && (forall l :: l in u.vals <==> l in t.vals && LevelOf(t, l) <= n)
    && u.vars.Keys == t.vars.Keys
    && (forall l {:trigger LevelOf(u, l)} {:trigger ReasonOf(u, l)} ::
          LevelOf(u, l) == LevelOf(t, l) && ReasonOf(u, l) == ReasonOf(t, l))
    && (forall l {:trigger PosOf(u, l)} :: l in t.vals && LevelOf(t, l) <= n && PosOf(t, l) <= |t.trail| ==>
          PosOf(u, l) == Rank(t, n, PosOf(t, l)))
  }

  lemma BacktrackPositions(t: State, u: State, n: nat)
    requires ControlOk(t) && PositionsOk(t) && BelowOk(t) && Backtracked(t, u, n)
    ensures PositionsOk(u)
  {
    assert t.trail[..|t.trail|] == t.trail;
    forall k | 0 <= k < |u.trail|
      ensures u.trail[k] != 0 && u.trail[k] in u.vals && Abs(u.trail[k]) in u.vars && PosOf(u, u.trail[k]) == k
      ensures LevelOf(u, u.trail[k]) <= n
    {
      var i := KeptMembers(t, n, |t.trail|, k);
      assert u.trail[k] == t.trail[i] && PosOf(t, t.trail[i]) == i;
    }
    forall l | l in u.vals
      ensures PosOf(u, l) < |u.trail| && u.trail[PosOf(u, l)] == l
    {
      RankFacts(t, n, PosOf(t, l), |t.trail|);
    }
  }

  lemma BacktrackControl(t: State, u: State, n: nat)
    requires ControlOk(t) && PositionsOk(t) && BelowOk(t) && Backtracked(t, u, n)
    ensures ControlOk(u) && BelowOk(u) && t.trail[..t.control[n + 1]] <= u.trail
  {
    var c := t.control[n + 1];
    KeptPrefix(t, n, c);
    KeptGrows(t, n, c, |t.trail|);
    assert t.trail[..|t.trail|] == t.trail;
    forall i, l | 0 <= i < |u.trail| && 0 < l < |u.control| && i < u.control[l]
      ensures LevelOf(u, u.trail[i]) < l
    {
      assert t.control[l] <= c;
      assert u.trail[i] == t.trail[..c][i] == t.trail[i];
      assert LevelOf(t, t.trail[i]) < l;
    }
  }

  lemma BacktrackReasons(t: State, u: State, n: nat, f: seq<Clause>)
    requires ControlOk(t) && PositionsOk(t) && BelowOk(t) && ReasonsOk(t, f) && Backtracked(t, u, n)
    ensures ReasonsOk(u, f)
  {
    forall l | l in u.vals
      ensures Justified(u, f, l)
    {
      assert Justified(t, f, l) && LevelOf(t, l) <= n;
      if LevelOf(t, l) > 0 {
        if ReasonOf(t, l) == [] {
          var i := t.control[LevelOf(t, l)];
          assert i <= t.control[n + 1];
          KeptPrefix(t, n, i);
          assert u.control[LevelOf(t, l)] == i;
        } else {
          BacktrackReason(t, u, n, l, ReasonOf(t, l));
        }
      }
    }
  }

  lemma BacktrackReason(t: State, u: State, n: nat, l: int, reason: Clause)
    requires PositionsOk(t) && Backtracked(t, u, n) && l in u.vals && ReasonOk(t, l, reason)
    ensures ReasonOk(u, l, reason)
  {
    forall m | m in reason && m != l
      ensures False(u, m) && PosOf(u, m) < PosOf(u, l) && LevelOf(u, m) <= LevelOf(u, l)
    {
      assert False(t, m) && LevelOf(t, m) <= LevelOf(t, l);
      var o := Opposite(m);
      assert LevelOf(t, o) == LevelOf(t, m) && PosOf(t, o) == PosOf(t, m) && PosOf(u, o) == PosOf(u, m);
      RankFacts(t, n, PosOf(t, o), PosOf(t, l));
    }
  }

  /** Backtracking keeps the invariant. */
  lemma BacktrackOk(t: State, u: State, n: nat, f: seq<Clause>)
    requires TrailOk(t, f) && Backtracked(t, u, n)
    ensures TrailOk(u, f)
  {
    BacktrackPositions(t, u, n);
    BacktrackControl(t, u, n);
    BacktrackReasons(t, u, n, f);
  }

  lemma {:induction false} KeptTwice(t: State, u: State, n: nat, m: nat, trail: seq<int>)
    requires m <= n && forall l :: LevelOf(u, l) == LevelOf(t, l)
    ensures Kept(u, Kept(t, trail, n), m) == Kept(t, trail, m)
  {
    if trail != [] {
      var front, last := trail[..|trail| - 1], trail[|trail| - 1];
      KeptTwice(t, u, n, m, front);
      var kept := Kept(t, front, n);
      if LevelOf(t, last) <= n {
        assert (kept + [last])[..|kept|] == kept;
      } else {
        assert kept + [] == kept;
      }
    }
  }

  lemma RankTwice(t: State, u: State, n: nat, m: nat, p: nat)
    requires m <= n && p <= |t.trail| && u.trail == Kept(t, t.trail, n) && forall l :: LevelOf(u, l) == LevelOf(t, l)
    ensures Rank(t, n, p) <= |u.trail| && Rank(u, m, Rank(t, n, p)) == Rank(t, m, p)
  {
    KeptGrows(t, n, p, |t.trail|);
    assert t.trail[..|t.trail|] == t.trail;
    assert u.trail[..Rank(t, n, p)] == Kept(t, t.trail[..p], n);
    KeptTwice(t, u, n, m, t.trail[..p]);
  }

  /** Backtracking in two steps is backtracking at once. */
  lemma BacktrackTwice(t: State, u: State, w: State, n: nat, m: nat)
    requires Backtracked(t, u, n) && Backtracked(u, w, m)
    ensures Backtracked(t, w, m)
  {
    hide Rank, Kept;
    KeptTwice(t, u, n, m, t.trail);
    forall l {:trigger PosOf(w, l)} | l in t.vals && LevelOf(t, l) <= m && PosOf(t, l) <= |t.trail|
      ensures PosOf(w, l) == Rank(t, m, PosOf(t, l))
    {
      RankTwice(t, u, n, m, PosOf(t, l));
      assert l in u.vals && PosOf(u, l) == Rank(t, n, PosOf(t, l));
    }
  }

  // ----- The solver's trail in memory ----------------------------------------------------------------

  class Solver {
    var level: nat
    var trail: seq<int>
    var control: seq<nat>
    var vars: map<int, Info>
    var vals: set<int>
    var formula: seq<Clause>

    function Now(): State
      reads this
    {
      State(level, trail, control, vars, vals)
    }

    ghost predicate Valid()
      reads this
    {
      TrailOk(Now(), formula)
    }

    constructor (f: seq<Clause>)
      ensures Valid() && formula == f && level == 0 && trail == []
    {
      level, trail, control, vars, vals, formula := 0, [], [0], map[], {}, f;
    }

    /** Opens a new decision level. */
    method NewTrailLevel()
      requires Valid()
      modifies this`level, this`control
      ensures Valid() && level == old(level) + 1 && control == old(control) + [|trail|]
    {
      hide TrailOk;
      level := level + 1;
      control := control + [|trail|];
      LevelOpened(old(Now()), formula);
    }

    /** Assigns a decision right after its level was opened. */
    method AssignDecision(l: int)
      requires Valid() && level > 0 && l != 0 && Unassigned(Now(), l) && |trail| == control[level]
      modifies this`trail, this`vars, this`vals
      ensures Valid() && Now() == Assign(old(Now()), l, level, [])
    {
      ghost var before := Now();
      vars := vars[Abs(l) := Info(level, |trail|, [])];
      vals := vals + {l};
      trail := trail + [l];
      AssignKeepsShape(before, l, level, []);
      AssignKeepsReasons(before, formula, l, level, []);
    }

    /** The highest level of the other literals of a reason. */
    method AssignmentLevel(l: int, reason: Clause) returns (res: nat)
      requires Valid() && forall m :: m in reason && m != l ==> m != 0 && False(Now(), m)
      ensures (forall m :: m in reason && m != l ==> LevelOf(Now(), m) <= res) && res <= level
      ensures res == HighestOther(Now(), reason, l)
    {
      res := 0;
      var k := 0;
      while k < |reason|
        invariant 0 <= k <= |reason| && res <= level
        invariant forall m :: m in reason[..k] && m != l ==> LevelOf(Now(), m) <= res
        invariant res == HighestOther(Now(), reason[..k], l)
      {
        assert reason[..k + 1][..k] == reason[..k];
        var other := reason[k];
        assert reason[..k + 1] == reason[..k] + [other] && other in reason;
        if other != l {
          FalseLevel(Now(), formula, other);
          var tmp := vars[Abs(other)].level;
          if tmp > res {
            res := tmp;
          }
        }
        k := k + 1;
      }
      assert reason[..k] == reason;
    }

    /** The level for a literal that a clause makes unit. */
    method LevelFor(l: int, reason: Clause, chrono: bool) returns (lev: nat)
      requires Valid() && l in reason && forall m :: m in reason && m != l ==> m != 0 && False(Now(), m)
      ensures lev == AssignedLevel(Now(), l, reason, chrono) <= level
      ensures forall m :: m in reason && m != l ==> LevelOf(Now(), m) <= lev
    {
      if |reason| == 1 {
        assert reason == [l];
        return 0;
      }
      if chrono {
        lev := AssignmentLevel(l, reason);
      } else {
        lev := level;
        forall m | m in reason && m != l ensures LevelOf(Now(), m) <= level { FalseLevel(Now(), formula, m); }
      }
    }

    /** Assigns a literal that a clause of the formula makes unit; out of order if its other literals allow it. Without other
        literals it is a root-level unit. */
    method SearchAssign(l: int, reason: Clause, chrono: bool)
      requires Valid() && l != 0 && Unassigned(Now(), l) && reason in formula && l in reason
      requires forall m :: m in reason && m != l ==> m != 0 && False(Now(), m)
      modifies this`trail, this`vars, this`vals
      ensures Valid() && Now() == Assign(old(Now()), l, AssignedLevel(old(Now()), l, reason, chrono), reason)
      ensures forall m :: m in reason && m != l ==> LevelOf(Now(), m) <= LevelOf(Now(), l)
    {
      hide AssignedLevel;
      ghost var before := Now();
      var lev := LevelFor(l, reason, chrono);
      vars := vars[Abs(l) := Info(lev, |trail|, if lev == 0 then [] else reason)];
      vals := vals + {l};
      trail := trail + [l];
      AssignKeepsShape(before, l, lev, reason);
      DrivenJustified(before, formula, l, lev, reason);
      AssignKeepsReasons(before, formula, l, lev, reason);
      assert Now() == Assign(before, l, lev, reason);
    }

    /** Unassigns everything above the new level, and keeps the rest of the trail in order. */
    method Backtrack(n: nat)
      requires Valid() && n <= level
      modifies this`level, this`trail, this`control, this`vars, this`vals
      ensures Valid() && (n == old(level) ==> Now() == old(Now()))
      ensures n < old(level) ==> Backtracked(old(Now()), Now(), n)
    {
      if n == level {
        return;
      }
      ghost var before := Now();
      var start := control[n + 1];
      CompactTrail(n, start);
      control := control[..n + 1];
      level := n;
      BacktrackOk(before, Now(), n, formula);
    }

    /** The loop that compacts the trail in place. */
    method CompactTrail(n: nat, start: nat)
      requires Valid() && n < level && n + 1 < |control| && start == control[n + 1]
      modifies this`trail, this`vars, this`vals
      ensures Backtracked(old(Now()), Now().(level := n, control := control[..n + 1]), n)
    {
      hide TrailOk, Compacted, Kept, PositionsOk, Backtracked, LevelOf, PosOf, ReasonOf;
      ghost var before := Now();
      CompactReady(before, formula, n);
      var i, j := start, start;
      var end := |trail|;
      while i < end
        invariant start <= j <= i <= end == |trail| == |before.trail|
        invariant trail[..j] == Kept(before, before.trail[..i], n) && trail[i..] == before.trail[i..]
        invariant Compacted(before, Now(), n, i)
      {
        j := CompactStep(n, i, j, before);
        i := i + 1;
      }
      assert before.trail[..i] == before.trail;
      CompactedDone(before, Now(), trail[..j], n);
      trail := trail[..j];
    }

    /** One literal: dropped, or moved down to position j. */
    method CompactStep(n: nat, i: nat, j: nat, ghost before: State) returns (j': nat)
      requires PositionsOk(before) && j <= i < |trail| == |before.trail|
      requires trail[..j] == Kept(before, before.trail[..i], n) && trail[i..] == before.trail[i..]
      requires Compacted(before, Now(), n, i)
      modifies this`trail, this`vars, this`vals
      ensures j <= j' <= i + 1 <= |trail| == |before.trail|
      ensures trail[..j'] == Kept(before, before.trail[..i + 1], n) && trail[i + 1..] == before.trail[i + 1..]
      ensures Compacted(before, Now(), n, i + 1)
    {
      j' := j;
      var lit := trail[i];
      assert lit == trail[i..][0] == before.trail[i];
      assert before.trail[..i + 1][..i] == before.trail[..i];
      assert trail[i..][1..] == trail[i + 1..] && before.trail[i..][1..] == before.trail[i + 1..];
      CompactedLevel(before, Now(), n, i);
      assert Kept(before, before.trail[..i + 1], n) ==
             Kept(before, before.trail[..i], n) + if LevelOf(before, lit) <= n then [lit] else [];
      hide Compacted, Kept, PositionsOk;
      if vars[Abs(lit)].level > n {
        CompactedDrop(before, Now(), n, i);
        vals := vals - {lit};
      } else {
        CompactedKeep(before, Now(), trail[j := lit], n, i);
        trail := trail[j := lit];
        vars := vars[Abs(lit) := vars[Abs(lit)].(pos := j)];
        j' := j + 1;
        assert trail[..j'] == trail[..j] + [lit];
      }
    }
  }

  lemma CompactedLevel(t: State, u: State, n: nat, i: nat)
    requires PositionsOk(t) && i < |t.trail| && Compacted(t, u, n, i)
    ensures Abs(t.trail[i]) in u.vars && u.vars[Abs(t.trail[i])].level == LevelOf(t, t.trail[i])
  {
    assert LevelOf(u, t.trail[i]) == LevelOf(t, t.trail[i]);
  }

  lemma LevelOpened(t: State, f: seq<Clause>)
    requires TrailOk(t, f)
    ensures TrailOk(t.(level := t.level + 1, control := t.control + [|t.trail|]), f)
  {
    var u := t.(level := t.level + 1, control := t.control + [|t.trail|]);
    forall i, l | 0 <= i < |u.trail| && 0 < l < |u.control| && i < u.control[l]
      ensures LevelOf(u, u.trail[i]) < l
    {
      if l < |t.control| { assert LevelOf(t, t.trail[i]) < l; }
    }
    forall l | l in u.vals ensures Justified(u, f, l) {
      assert Justified(t, f, l);
    }
  }

  lemma FalseLevel(t: State, f: seq<Clause>, m: int)
    requires TrailOk(t, f) && False(t, m) && m != 0
    ensures Abs(m) in t.vars && LevelOf(t, m) <= t.level && PosOf(t, m) < |t.trail|
  {
    var o := Opposite(m);
    assert t.trail[PosOf(t, o)] == o;
  }

  /** A literal driven by a clause is justified, and a unit consequence if all other literals are on level zero. */
  lemma DrivenJustified(t: State, f: seq<Clause>, l: int, lev: nat, reason: Clause)
    requires TrailOk(t, f) && l != 0 && Unassigned(t, l) && reason in f && l in reason && lev <= t.level
    requires forall m :: m in reason && m != l ==> m != 0 && False(t, m) && LevelOf(t, m) <= lev
    ensures Justified(Assign(t, l, lev, reason), f, l)
  {
    var u := Assign(t, l, lev, reason);
    forall m | m in reason && m != l
      ensures False(u, m) && PosOf(u, m) < PosOf(u, l) && LevelOf(u, m) == LevelOf(t, m) <= lev
    {
      FalseLevel(t, f, m);
      assert Abs(m) != Abs(l);
      AssignOthers(t, l, lev, reason, m);
    }
    if lev == 0 {
      forall s | CnfTrue(s, f)
        ensures ClauseTrue(s, [l])
      {
        RootForces(s, t, f, reason, l);
        assert l in [l];
      }
    }
  }

  /** In a model, literals false on level zero are false. */
  lemma RootForces(s: Assignment, t: State, f: seq<Clause>, c: Clause, l: int)
    requires TrailOk(t, f) && CnfTrue(s, f) && c in f
    requires forall m :: m in c && m != l ==> m != 0 && False(t, m) && LevelOf(t, m) == 0
    ensures LitTrue(s, l)
  {
    assert ClauseTrue(s, c);
    var m :| m in c && LitTrue(s, m);
    if m != l {
      RootFalse(s, t, f, m);
    }
  }

  lemma RootFalse(s: Assignment, t: State, f: seq<Clause>, m: int)
    requires TrailOk(t, f) && CnfTrue(s, f) && m != 0 && False(t, m) && LevelOf(t, m) == 0
    ensures !LitTrue(s, m)
  {
    var o := Opposite(m);
    assert Justified(t, f, o) && LevelOf(t, o) == 0;
    assert ClauseTrue(s, [o]);
    LitNegation(s, m);
  }

  /** Part of the way through compaction: literals before position i were handled. */
  ghost predicate Compacted(t: State, u: State, n: nat, i: nat)
    requires i <= |t.trail|
  {
    && u.vars.Keys == t.vars.Keys
    && (forall l {:trigger LevelOf(u, l)} {:trigger ReasonOf(u, l)} ::
          LevelOf(u, l) == LevelOf(t, l) && ReasonOf(u, l) == ReasonOf(t, l))
    && (forall l {:trigger l in u.vals} ::
          l in u.vals <==> l in t.vals && (LevelOf(t, l) <= n || PosOf(t, l) >= i))
    && (forall l {:trigger PosOf(u, l)} :: l in t.vals && LevelOf(t, l) <= n ==>
          PosOf(u, l) == if PosOf(t, l) < i then Rank(t, n, PosOf(t, l)) else PosOf(t, l))
  }

  lemma CompactReady(t: State, f: seq<Clause>, n: nat)
    requires TrailOk(t, f) && n < t.level && n + 1 < |t.control|
    ensures PositionsOk(t) && t.control[n + 1] <= |t.trail| && Compacted(t, t, n, t.control[n + 1])
    ensures Kept(t, t.trail[..t.control[n + 1]], n) == t.trail[..t.control[n + 1]]
  {
    KeptPrefix(t, n, t.control[n + 1]);
    CompactedStart(t, n, t.control[n + 1]);
  }

  lemma CompactedStart(t: State, n: nat, i: nat)
    requires ControlOk(t) && PositionsOk(t) && BelowOk(t) && n < t.level && i == t.control[n + 1]
    ensures Compacted(t, t, n, i)
  {
    forall l | l in t.vals && PosOf(t, l) < i
      ensures LevelOf(t, l) <= n && Rank(t, n, PosOf(t, l)) == PosOf(t, l)
    {
      assert t.trail[PosOf(t, l)] == l;
      assert LevelOf(t, t.trail[PosOf(t, l)]) < n + 1;
      KeptPrefix(t, n, PosOf(t, l));
    }
  }

  lemma CompactedDrop(t: State, u: State, n: nat, i: nat)
    requires PositionsOk(t) && i < |t.trail| && Compacted(t, u, n, i) && LevelOf(t, t.trail[i]) > n
    ensures Compacted(t, u.(vals := u.vals - {t.trail[i]}), n, i + 1)
  {
    var v := u.(vals := u.vals - {t.trail[i]});
    forall l
      ensures LevelOf(v, l) == LevelOf(t, l) && ReasonOf(v, l) == ReasonOf(t, l) && PosOf(v, l) == PosOf(u, l)
    {
      assert LevelOf(v, l) == LevelOf(u, l) && ReasonOf(v, l) == ReasonOf(u, l);
    }
    forall l | l in t.vals && PosOf(t, l) == i ensures l == t.trail[i] {}
  }

  lemma CompactedKeep(t: State, u: State, trail: seq<int>, n: nat, i: nat)
    requires PositionsOk(t) && i < |t.trail| && Compacted(t, u, n, i) && LevelOf(t, t.trail[i]) <= n
    requires Abs(t.trail[i]) in u.vars
    ensures var x := Abs(t.trail[i]);
            Compacted(t, u.(trail := trail, vars := u.vars[x := u.vars[x].(pos := Rank(t, n, i))]), n, i + 1)
  {
    var x := Abs(t.trail[i]);
    var v := u.(trail := trail, vars := u.vars[x := u.vars[x].(pos := Rank(t, n, i))]);
    forall l
      ensures LevelOf(v, l) == LevelOf(t, l) && ReasonOf(v, l) == ReasonOf(t, l)
      ensures PosOf(v, l) == if Abs(l) == x then Rank(t, n, i) else PosOf(u, l)
    {
      assert LevelOf(v, l) == LevelOf(u, l) && ReasonOf(v, l) == ReasonOf(u, l);
    }
    forall l | l in t.vals && LevelOf(t, l) <= n
      ensures PosOf(v, l) == if PosOf(t, l) < i + 1 then Rank(t, n, PosOf(t, l)) else PosOf(t, l)
    {
      assert Abs(l) == x <==> PosOf(t, l) == i;
      assert PosOf(u, l) == if PosOf(t, l) < i then Rank(t, n, PosOf(t, l)) else PosOf(t, l);
    }
    forall l | l in t.vals && PosOf(t, l) == i ensures l == t.trail[i] {}
  }

  lemma CompactedDone(t: State, u: State, trail: seq<int>, n: nat)
    requires PositionsOk(t) && n < t.level && n + 1 < |t.control| && Compacted(t, u, n, |t.trail|) && trail == Kept(t, t.trail, n)
    ensures Backtracked(t, u.(level := n, control := t.control[..n + 1], trail := trail), n)
  {
    var v := u.(level := n, control := t.control[..n + 1], trail := trail);
    forall l
      ensures LevelOf(v, l) == LevelOf(t, l) && ReasonOf(v, l) == ReasonOf(t, l) && PosOf(v, l) == PosOf(u, l)
    {
      assert LevelOf(v, l) == LevelOf(u, l) && ReasonOf(v, l) == ReasonOf(u, l);
    }
  }
}
