/** The online forward proof checker (cadical/src/checker.cpp, class Checker): it accepts a derived clause if
    unit propagation over its clauses refutes the negation of the clause. */
module OnlineChecker {
  import opened Logic
  import opened UnitPropagation
  import opened Watches
  import opened Simplify
  import opened HashTable

  class Checker {
    var vals: map<int, int>
    var trail: seq<int>
    var next: nat
    var arena: Arena
    var watchers: Watchers
    var table: Buckets
    var numClauses: nat
    var garbage: seq<nat>
    var inconsistent: bool

    ghost var originals: seq<Clause>

    method Assign(lit: int)
      modifies this`vals, this`trail
      ensures vals == old(vals)[lit := 1][-lit := -1] && trail == old(trail) + [lit]
    {
      vals := vals[lit := 1];
      vals := vals[-lit := -1];
      trail := trail + [lit];
    }

    /** The state inside the loop over the watcher list of lit, with the entries in rest still to be visited. */
    ghost predicate Visiting(goal: Goal, lit: int, kept: seq<Watch>, rest: seq<Watch>)
      reads this
    {
      && Steady(goal, vals, trail, arena, watchers[lit := kept + rest])
      && 0 < next <= |trail| && trail[next - 1] == -lit
    }

    ghost predicate Waiting(lit: int, rest: seq<Watch>)
      reads this
    {
      next <= |trail| && Propagated(arena, trail, trail[..next], lit, rest)
    }

    /** A true literal was found in the clause: the entry stays. */
    lemma KeepEntry(goal: Goal, lit: int, kept: seq<Watch>, w: Watch, rest: seq<Watch>, l: int)
      requires Visiting(goal, lit, kept, [w] + rest) && Waiting(lit, [w] + rest)
      requires w.clause < |arena| && l in arena[w.clause].literals && l in trail
      ensures Visiting(goal, lit, kept + [w], rest) && Waiting(lit, rest)
    {
      hide Steady, Propagated;
      assert kept + [w] + rest == kept + ([w] + rest);
      VisitDone(arena, trail, trail, trail[..next], lit, w, rest);
    }

    /** Facts about the entry under visit. */
    lemma EntryUnderVisit(goal: Goal, lit: int, kept: seq<Watch>, w: Watch, rest: seq<Watch>)
      requires Visiting(goal, lit, kept, [w] + rest)
      ensures WatchOk(arena, lit, w) && ClauseOk(arena[w.clause]) && ProperClause(arena[w.clause].literals)
      ensures Implies(goal.f, arena[w.clause].literals) && forall l :: l in trail ==> Follows(goal.f, goal.given, l)
      ensures TrailOk(vals, trail) && Falsified(trail, lit) && lit != 0 && Falsified(trail[..next], lit)
    {
      hide WatchOk, Implies, Follows, TrailOk, Consistent, ListOk, AllListed, Settled;
      assert kept + [w] + rest == kept + ([w] + rest);
      assert ListOk(arena, lit, ListOf(watchers[lit := kept + ([w] + rest)], lit));
      EntryFacts(arena, lit, kept, w, rest, kept + [w] + rest);
      InArena(arena, lit, w);
      assert trail[next - 1] in trail && trail[..next][next - 1] in trail[..next];
      ProperTrail(vals, trail, trail[next - 1]);
    }

    /** A justified literal of the clause is assigned: the entry stays. */
    method AssignAndKeep(l: int, ghost goal: Goal, ghost lit: int, ghost kept: seq<Watch>, ghost w: Watch,
                         ghost rest: seq<Watch>)
      requires Visiting(goal, lit, kept, [w] + rest) && Waiting(lit, [w] + rest)
      requires w.clause < |arena| && l in arena[w.clause].literals && l != 0 && Val(vals, l) == 0
      requires Follows(goal.f, goal.given, l)
      modifies this`vals, this`trail
      ensures Visiting(goal, lit, kept + [w], rest) && Waiting(lit, rest)
      ensures trail == old(trail) + [l]
    {
      hide Steady, Propagated, Follows;
      assert kept + [w] + rest == kept + ([w] + rest);
      AssignSteady(goal, vals, trail, arena, watchers[lit := kept + ([w] + rest)], l);
      Assign(l);
      assert trail[..next] == old(trail)[..next];
      assert l in trail;
      VisitDone(arena, old(trail), trail, trail[..next], lit, w, rest);
    }

    /** A watch of a binary clause: the clause itself is not looked at, so it may even be garbage. */
    method VisitBinary(lit: int, w: Watch, ghost goal: Goal, ghost kept: seq<Watch>, ghost rest: seq<Watch>)
      returns (res: bool)
      requires Visiting(goal, lit, kept, [w] + rest) && Waiting(lit, [w] + rest)
      requires w.size == 2 && Val(vals, w.blit) <= 0
      modifies this`vals, this`trail
      ensures Visiting(goal, lit, kept + [w], rest)
      ensures res ==> Waiting(lit, rest)
      ensures !res ==> Contradicts(goal.f, goal.given)
      ensures Grows(arena, old(trail), trail)
    {
      hide Steady, Propagated, Follows, Implies, TrailOk, ClauseOk, Contradicts;
      EntryUnderVisit(goal, lit, kept, w, rest);
      ValueOf(vals, trail, w.blit);
      ghost var c := arena[w.clause].literals;
      forall m | m in c ensures m == lit || m == w.blit { BinaryOther(arena, lit, w, m); }
      if Val(vals, w.blit) < 0 {
        FalsifiedContradicts(goal.f, goal.given, trail, c);
        assert kept + [w] + rest == kept + ([w] + rest);
        res := false;
      } else {
        ForcedFollows(goal.f, goal.given, trail, c, w.blit);
        AssignAndKeep(w.blit, goal, lit, kept, w, rest);
        res := true;
      }
    }

    /** The position of the first literal from 2 on that is not false. */
    method FindReplacement(c: Clause) returns (k: nat)
      requires |c| >= 2
      ensures 2 <= k <= |c|
      ensures k < |c| ==> Val(vals, c[k]) >= 0
      ensures forall i :: 2 <= i < k ==> Val(vals, c[i]) < 0
    {
      k := 2;
      while k < |c| && Val(vals, c[k]) < 0
        invariant 2 <= k <= |c|
        invariant forall i :: 2 <= i < k ==> Val(vals, c[i]) < 0
      {
        k := k + 1;
      }
    }

    /** Puts the two watches first, lit second. */
    method NormalizeClause(w: Watch, lit: int, ghost goal: Goal, ghost kept: seq<Watch>, ghost rest: seq<Watch>)
      requires Visiting(goal, lit, kept, [w] + rest) && Waiting(lit, [w] + rest)
      requires w.clause < |arena| && ClauseOk(arena[w.clause]) && FirstTwo(arena[w.clause].literals, lit)
      modifies this`arena
      ensures Visiting(goal, lit, kept, [w] + rest) && Waiting(lit, [w] + rest)
      ensures SameArena(old(arena), arena)
      ensures arena[w.clause].literals[1] == lit
      ensures arena[w.clause].literals[0] == Other(old(arena)[w.clause].literals, lit)
    {
      var c := arena[w.clause];
      var d := c.(literals := Normalized(c.literals, Other(c.literals, lit), lit));
      OtherFacts(c, lit);
      NormalizedSame(c, Other(c.literals, lit), lit);
      assert forall l :: FirstTwo(d.literals, l) <==> FirstTwo(c.literals, l);
      hide Steady, Propagated, SameClause, ClauseOk, FirstTwo;
      SwapSteady(goal, vals, trail, arena, watchers[lit := kept + ([w] + rest)], w.clause, d);
      SwapPropagated(arena, trail, trail[..next], lit, [w] + rest, w.clause, d);
      UpdateSame(arena, w.clause, d);
      arena := arena[w.clause := d];
    }

    /** The clause gets another watch in place of lit, or its first literal is assigned, or it is falsified. */
    method Rewatch(w: Watch, lit: int, ghost goal: Goal, ghost kept: seq<Watch>, ghost rest: seq<Watch>)
      returns (res: bool, keep: bool)
      requires Visiting(goal, lit, kept, [w] + rest) && Waiting(lit, [w] + rest)
      requires w.clause < |arena| && arena[w.clause].Live() && ClauseOk(arena[w.clause])
      requires arena[w.clause].literals[1] == lit && Val(vals, arena[w.clause].literals[0]) <= 0
      modifies this`vals, this`trail, this`arena, this`watchers
      ensures Visiting(goal, lit, if keep then kept + [w] else kept, rest)
      ensures res ==> Waiting(lit, rest)
      ensures !res ==> Contradicts(goal.f, goal.given)
      ensures SameArena(old(arena), arena) && ListOf(watchers, lit) == ListOf(old(watchers), lit)
      ensures Grows(old(arena), old(trail), trail)
    {
      EntryUnderVisit(goal, lit, kept, w, rest);
      var c := arena[w.clause];
      var other := c.literals[0];
      hide Steady, Propagated, Follows, Implies, TrailOk, Contradicts, SameClause, SameArena, ClauseOk, FirstTwo;
      assert kept + [w] + rest == kept + ([w] + rest);
      var k := FindReplacement(c.literals);
      if k < |c.literals| {
        MoveWatch(w, lit, k, goal, kept, rest);
        return true, false;
      }
      forall m | m in c.literals && m != other ensures Falsified(trail, m) {
        var i :| 0 <= i < |c.literals| && c.literals[i] == m;
        ValueOf(vals, trail, m);
      }
      ValueOf(vals, trail, other);
      SameArenaReflexive(arena);
      if Val(vals, other) == 0 {
        ForcedFollows(goal.f, goal.given, trail, c.literals, other);
        AssignAndKeep(other, goal, lit, kept, w, rest);
        return true, true;
      }
      FalsifiedContradicts(goal.f, goal.given, trail, c.literals);
      return false, true;
    }

    method MoveWatch(w: Watch, lit: int, k: nat, ghost goal: Goal, ghost kept: seq<Watch>, ghost rest: seq<Watch>)
      requires Visiting(goal, lit, kept, [w] + rest) && Waiting(lit, [w] + rest)
      requires w.clause < |arena| && arena[w.clause].Live() && ClauseOk(arena[w.clause])
      requires 2 <= k < |arena[w.clause].literals| && arena[w.clause].literals[1] == lit
      requires Val(vals, arena[w.clause].literals[k]) >= 0
      modifies this`arena, this`watchers
      ensures Visiting(goal, lit, kept, rest) && Waiting(lit, rest)
      ensures SameArena(old(arena), arena) && ListOf(watchers, lit) == ListOf(old(watchers), lit)
    {
      EntryUnderVisit(goal, lit, kept, w, rest);
      var c := arena[w.clause];
      var replacement := c.literals[k];
      var d := c.(literals := c.literals[1 := replacement][k := lit]);
      assert replacement != lit && d.literals[0] != lit && !FirstTwo(d.literals, lit);
      assert FirstTwo(c.literals, d.literals[0]) && d.literals[1] == replacement;
      RewatchSame(c, c.literals[0], lit, k);
      RewatchCanMove(c, lit, k);
      ValueOf(vals, trail, replacement);
      assert c.size == w.size;
      hide Steady, Propagated, SameClause, ClauseOk, FirstTwo, CanMove, TrailOk, WatchOk;
      assert kept + [w] + rest == kept + ([w] + rest);
      MoveSteady(goal, vals, trail, arena, watchers, lit, kept, w, rest, d);
      MovePropagated(arena, trail, trail[..next], lit, [w] + rest, w.clause, d);
      VisitMoved(arena[w.clause := d], trail, trail[..next], lit, w, rest);
      UpdateSame(arena, w.clause, d);
      watchers := watchers[replacement := ListOf(watchers, replacement) + [Watch(lit, c.size, w.clause)]];
      arena := arena[w.clause := d];
    }

    /** A watch of a larger clause: find another true or unassigned literal to watch, or propagate. */
    method VisitLarge(lit: int, w: Watch, ghost goal: Goal, ghost kept: seq<Watch>, ghost rest: seq<Watch>)
      returns (res: bool, keep: bool, w': Watch)
      requires Visiting(goal, lit, kept, [w] + rest) && Waiting(lit, [w] + rest)
      modifies this`vals, this`trail, this`arena, this`watchers
      ensures Visiting(goal, lit, if keep then kept + [w'] else kept, rest)
      ensures res ==> Waiting(lit, rest)
      ensures !res ==> Contradicts(goal.f, goal.given)
      ensures SameArena(old(arena), arena) && ListOf(watchers, lit) == ListOf(old(watchers), lit)
      ensures Grows(old(arena), old(trail), trail)
    {
      hide Steady, Propagated, Follows, Implies, TrailOk, Contradicts, SameClause, SameArena;
      EntryUnderVisit(goal, lit, kept, w, rest);
      SameArenaReflexive(arena);
      res, keep, w' := true, true, w;
      var c := arena[w.clause];
      assert kept + [w] + rest == kept + ([w] + rest);
      if c.size == 0 {
        keep := false;
        DropSteady(goal, vals, trail, arena, watchers, lit, kept, w, rest);
        VisitDone(arena, trail, trail, trail[..next], lit, w, rest);
        return;
      }
      OtherFacts(c, lit);
      var other := Other(c.literals, lit);
      ValueOf(vals, trail, other);
      if Val(vals, other) > 0 {
        w' := w.(blit := other);
        BlitSteady(goal, vals, trail, arena, watchers, lit, kept, w, rest, other);
        VisitDone(arena, trail, trail, trail[..next], lit, w, rest);
        return;
      }
      NormalizeClause(w, lit, goal, kept, rest);
      ghost var middle := arena;
      NormalizedFacts(old(arena), middle, w.clause);
      res, keep := Rewatch(w, lit, goal, kept, rest);
      SameArenaTransitive(old(arena), middle, arena);
      SameGrows(old(arena), middle, old(trail), trail);
    }

    /** Visits one watch. */
    method VisitWatch(lit: int, w: Watch, ghost goal: Goal, ghost kept: seq<Watch>, ghost rest: seq<Watch>)
      returns (res: bool, keep: bool, w': Watch)
      requires Visiting(goal, lit, kept, [w] + rest) && Waiting(lit, [w] + rest)
      modifies this`vals, this`trail, this`arena, this`watchers
      ensures Visiting(goal, lit, if keep then kept + [w'] else kept, rest)
      ensures res ==> Waiting(lit, rest)
      ensures !res ==> Contradicts(goal.f, goal.given)
      ensures SameArena(old(arena), arena) && Grows(old(arena), old(trail), trail)
    {
      hide Steady, Propagated, Follows, Implies, TrailOk, Contradicts, SameArena, ClauseOk;
      EntryUnderVisit(goal, lit, kept, w, rest);
      SameArenaReflexive(arena);
      ValueOf(vals, trail, w.blit);
      if Val(vals, w.blit) > 0 {
        KeepEntry(goal, lit, kept, w, rest, w.blit);
        return true, true, w;
      }
      if w.size == 2 {
        res := VisitBinary(lit, w, goal, kept, rest);
        return res, true, w;
      }
      res, keep, w' := VisitLarge(lit, w, goal, kept, rest);
    }

    /** Visits the watches of a literal that became false, compacting its list. */
    method PropagateLiteral(lit: int, ghost goal: Goal) returns (res: bool)
      requires Steady(goal, vals, trail, arena, watchers)
      requires 0 < next <= |trail| && trail[next - 1] == -lit && Propagated(arena, trail, trail[..next - 1], 0, [])
      modifies this`vals, this`trail, this`arena, this`watchers
      ensures Steady(goal, vals, trail, arena, watchers) && next <= |trail|
      ensures res ==> Propagated(arena, trail, trail[..next], 0, [])
      ensures !res ==> Contradicts(goal.f, goal.given)
      ensures SameArena(old(arena), arena) && GrowsMany(old(arena), old(trail), trail)
    {
      var ws := ListOf(watchers, lit);
      StartVisiting(goal, vals, trail, next, arena, watchers, lit);
      hide Steady, Propagated, Contradicts, SameArena, GrowsMany;
      assert [] + ws == ws;
      var list;
      res, list := VisitAll(lit, ws, goal);
      watchers := watchers[lit := list];
      if res { NothingWaits(arena, trail, trail[..next], lit); }
    }

    method VisitAll(lit: int, ws: seq<Watch>, ghost goal: Goal) returns (res: bool, list: seq<Watch>)
      requires Visiting(goal, lit, [], ws) && Waiting(lit, ws)
      modifies this`vals, this`trail, this`arena, this`watchers
      ensures Visiting(goal, lit, list, [])
      ensures Steady(goal, vals, trail, arena, watchers[lit := list])
      ensures res ==> Waiting(lit, [])
      ensures !res ==> Contradicts(goal.f, goal.given)
      ensures SameArena(old(arena), arena) && GrowsMany(old(arena), old(trail), trail)
    {
      hide Visiting, Waiting, Contradicts, SameArena, GrowsMany, Grows;
      SameArenaReflexive(arena);
      GrowsNothing(arena, trail);
      res := true;
      var kept, i := [], 0;
      assert ws[i..] == ws;
      while res && i < |ws|
        invariant 0 <= i <= |ws| && Visiting(goal, lit, kept, ws[i..])
        invariant res ==> Waiting(lit, ws[i..])
        invariant !res ==> Contradicts(goal.f, goal.given)
        invariant SameArena(old(arena), arena) && GrowsMany(old(arena), old(trail), trail)
      {
        var w := ws[i];
        assert ws[i..] == [w] + ws[i + 1..];
        ghost var before, trailBefore := arena, trail;
        var keep, w';
        res, keep, w' := VisitWatch(lit, w, goal, kept, ws[i + 1..]);
        SameArenaTransitive(old(arena), before, arena);
        SameGrows(old(arena), before, trailBefore, trail);
        GrowsMore(old(arena), old(trail), trailBefore, trail);
        if keep {
          kept := kept + [w'];
        }
        i := i + 1;
      }
      list := kept + ws[i..];
      assert res ==> ws[i..] == [];
      CopyRest(goal, lit, kept, ws[i..]);
    }

    lemma CopyRest(goal: Goal, lit: int, kept: seq<Watch>, rest: seq<Watch>)
      requires Visiting(goal, lit, kept, rest)
      ensures Visiting(goal, lit, kept + rest, []) && Steady(goal, vals, trail, arena, watchers[lit := kept + rest])
    {
      assert kept + rest + [] == kept + rest;
    }

    /** Propagates all literals of the trail. If it succeeds every live clause is settled; if not, the given
        literals are refuted. */
    method Propagate(ghost goal: Goal) returns (res: bool)
      requires Steady(goal, vals, trail, arena, watchers)
      requires next <= |trail| && Propagated(arena, trail, trail[..next], 0, [])
      modifies this`vals, this`trail, this`next, this`arena, this`watchers
      ensures Steady(goal, vals, trail, arena, watchers) && next <= |trail|
      ensures res ==> next == |trail| && Settled(arena, trail)
      ensures !res ==> Contradicts(goal.f, goal.given)
      ensures SameArena(old(arena), arena) && old(trail) <= trail
    {
      hide Steady, Propagated, Contradicts, SameArena, GrowsMany, Distinct, TrailOk, Settled;
      SameArenaReflexive(arena);
      GrowsNothing(arena, trail);
      res := true;
      while res && next < |trail|
        invariant next <= |trail| <= |old(trail)| + |Universe(old(arena))|
        invariant Steady(goal, vals, trail, arena, watchers)
        invariant res ==> Propagated(arena, trail, trail[..next], 0, [])
        invariant !res ==> Contradicts(goal.f, goal.given)
        invariant SameArena(old(arena), arena) && GrowsMany(old(arena), old(trail), trail) && old(trail) <= trail
        decreases |old(trail)| + |Universe(old(arena))| - next, res
      {
        var lit := trail[next];
        next := next + 1;
        ghost var before, trailBefore := arena, trail;
        res := PropagateLiteral(-lit, goal);
        SameArenaTransitive(old(arena), before, arena);
        SameGrowsMany(old(arena), before, trailBefore, trail);
        GrowsJoin(old(arena), old(trail), trailBefore, trail);
        SteadyClauses(goal, vals, trail, arena, watchers);
        BoundedTrail(trail, old(arena), old(trail));
      }
      if res {
        assert trail[..next] == trail;
        SteadyClauses(goal, vals, trail, arena, watchers);
        PropagatedSettled(arena, trail);
      }
    }

    const hashOf: nat -> nat

    const fold: Fold

    /** The hash table holds exactly the live clauses, each in the bucket of its reduced hash, and they are counted. */
    ghost predicate TableOk()
      reads this
    {
      && BucketsOk(fold, arena, table) && numClauses == |LiveIndices(arena)|
      && (forall c: nat :: c in garbage ==> c < |arena| && !arena[c].Live())
    }

    /** Between calls: what is on the trail and in the clauses is implied by the original clauses, every live
        clause is settled, and an inconsistent checker has seen an unsatisfiable formula. */
    ghost predicate Valid()
      reads this
    {
      if inconsistent then Unsat(originals)
      else
        && Steady(Goal(originals, {}, []), vals, trail, arena, watchers)
        && next == |trail| && Settled(arena, trail) && TableOk()
    }

    /** The clauses that propagation may use. */
    ghost function LiveClauses(): set<Clause>
      reads this
    {
      set c | 0 <= c < |arena| && arena[c].Live() :: arena[c].literals
    }

    constructor (hash: nat -> nat, folded: Fold)
      ensures Valid() && !inconsistent && originals == [] && arena == [] && trail == [] && hashOf == hash && fold == folded
    {
      hashOf, fold, numClauses := hash, folded, 0;
      vals, trail, next := map[], [], 0;
      arena, watchers, table, garbage := [], map[], [], [];
      inconsistent, originals := false, [];
    }

    /** Removes the literals from a position of the trail on. */
    method Backtrack(previous: nat)
      requires previous <= |trail| && TrailOk(vals, trail)
      modifies this`vals, this`trail, this`next
      ensures trail == old(trail)[..previous] && next == previous && TrailOk(vals, trail)
    {
      while |trail| > previous
        invariant previous <= |trail| <= |old(trail)| && trail == old(trail)[..|trail|] && TrailOk(vals, trail)
        decreases |trail|
      {
        var lit := trail[|trail| - 1];
        UnassignTrail(vals, trail);
        vals := vals[lit := 0][-lit := 0];
        trail := trail[..|trail| - 1];
      }
      next := previous;
    }

    /** Assumes the negation of every literal of the clause. */
    method AssumeNegation(simplified: Clause, ghost goal: Goal)
      requires Steady(goal, vals, trail, arena, watchers)
      requires DifferentVars(simplified) && ProperClause(simplified) && !TrueIn(trail, simplified)
      requires goal.given == NegatedSet(simplified)
      modifies this`vals, this`trail
      ensures Steady(goal, vals, trail, arena, watchers) && old(trail) <= trail
      ensures forall l :: l in simplified ==> Falsified(trail, l)
    {
      assert forall i :: 0 <= i < |simplified| ==> simplified[i] in simplified && simplified[i] !in trail;
      hide Steady, Falsified, TrueIn;
      var j := 0;
      while j < |simplified|
        invariant 0 <= j <= |simplified| && Steady(goal, vals, trail, arena, watchers) && old(trail) <= trail
        invariant forall i :: 0 <= i < j ==> Falsified(trail, simplified[i])
        invariant forall i :: j <= i < |simplified| ==> simplified[i] !in trail
      {
        var lit := simplified[j];
        assert lit in simplified;
        SteadyClauses(goal, vals, trail, arena, watchers);
        ValueOf(vals, trail, lit);
        ValueOf(vals, trail, -lit);
        AssumptionFollows(goal.f, simplified, lit);
        if Val(vals, -lit) <= 0 {
          AssignSteady(goal, vals, trail, arena, watchers, -lit);
          AssignedFalse(simplified, trail, j);
          Assign(-lit);
        }
        j := j + 1;
      }
      forall l | l in simplified ensures Falsified(trail, l) {
        var i :| 0 <= i < |simplified| && simplified[i] == l;
      }
    }

    /** Unit propagation decides whether the clause is accepted. An accepted clause is implied by the original
        clauses, and a clause that plain unit propagation over the live clauses can justify is accepted. */
    method Check(simplified: Clause) returns (res: bool)
      requires Valid() && !inconsistent
      requires DifferentVars(simplified) && ProperClause(simplified) && !TrueIn(trail, simplified)
      modifies this`vals, this`trail, this`next, this`arena, this`watchers
      ensures Valid() && trail == old(trail) && SameArena(old(arena), arena)
      ensures res ==> Implies(originals, simplified)
      ensures Refutes(old(LiveClauses()), old(trail) + Negated(simplified)) ==> res
    {
      hide Steady, Propagated, Contradicts, SameArena, Settled, Falsified, TrueIn, Implies, TrailOk, Refutes;
      var previous := next;
      ghost var goal := Goal(originals, NegatedSet(simplified), trail);
      Rebase(originals, goal.given, vals, trail, arena, watchers);
      AssumeNegation(simplified, goal);
      assert trail[..next] == old(trail);
      StillPropagated(arena, old(trail), trail);
      ghost var assumed := trail;
      var ok := Propagate(goal);
      StillFalse(simplified, assumed, trail);
      if ok {
        SteadyClauses(goal, vals, trail, arena, watchers);
        Irrefutable(old(arena), arena, old(LiveClauses()), old(trail) + Negated(simplified), vals, trail, simplified);
      } else {
        ContradictsImplies(originals, simplified);
      }
      res := !ok;
      SteadyClauses(goal, vals, trail, arena, watchers);
      ghost var full, valsFull := trail, vals;
      Backtrack(previous);
      assert trail == old(trail);
      Unrebase(goal, old(vals), old(arena), old(watchers), valsFull, full, vals, arena, watchers);
      SameTable(fold, old(arena), arena, table, garbage);
    }

    /** How many literals are not false: none, exactly one (returned), or more. */
    method FindUnit(simplified: Clause) returns (unit: int, more: bool)
      requires ProperClause(simplified) && DifferentVars(simplified) && forall l :: l in simplified ==> Val(vals, l) <= 0
      ensures unit == 0 && !more ==> forall l :: l in simplified ==> Val(vals, l) < 0
      ensures unit != 0 && !more ==>
                unit in simplified && Val(vals, unit) == 0 && forall l :: l in simplified && l != unit ==> Val(vals, l) < 0
      ensures more ==> exists i, j :: 0 <= i < j < |simplified| && Val(vals, simplified[i]) == 0 && Val(vals, simplified[j]) == 0
    {
      unit, more := 0, false;
      var i := 0;
      ghost var at := 0;
      while i < |simplified|
        invariant 0 <= i <= |simplified| && !more
        invariant unit == 0 ==> forall k :: 0 <= k < i ==> Val(vals, simplified[k]) < 0
        invariant unit != 0 ==> 0 <= at < i && simplified[at] == unit && Val(vals, unit) == 0
        invariant unit != 0 ==> forall k :: 0 <= k < i && k != at ==> Val(vals, simplified[k]) < 0
      {
        assert simplified[i] in simplified;
        if Val(vals, simplified[i]) == 0 {
          if unit != 0 {
            return unit, true;
          }
          unit, at := simplified[i], i;
        }
        i := i + 1;
      }
    }

    /** Moves two unassigned literals to the front. */
    method SelectWatches(simplified: Clause) returns (c: Clause)
      requires DifferentVars(simplified) && ProperClause(simplified)
      requires exists i, j :: 0 <= i < j < |simplified| && Val(vals, simplified[i]) == 0 && Val(vals, simplified[j]) == 0
      ensures |c| == |simplified| && LiteralsOk(c) && (forall l :: l in c <==> l in simplified)
      ensures Val(vals, c[0]) == 0 && Val(vals, c[1]) == 0
    {
      c := simplified;
      LiteralsDifferent(c);
      c := MoveUnassigned(c, 0);
      c := MoveUnassigned(c, 1);
    }

    /** If the literal at i is assigned, swaps the first unassigned literal after it to i. */
    method MoveUnassigned(c: Clause, i: nat) returns (d: Clause)
      requires LiteralsOk(c) && i < 2 && (i == 1 ==> Val(vals, c[0]) == 0)
      requires exists j, k :: 0 <= j < k < |c| && Val(vals, c[j]) == 0 && Val(vals, c[k]) == 0
      ensures |d| == |c| && LiteralsOk(d) && (forall l :: l in d <==> l in c) && Val(vals, d[i]) == 0
      ensures i == 1 ==> d[0] == c[0]
      ensures exists j, k :: 0 <= j < k < |d| && Val(vals, d[j]) == 0 && Val(vals, d[k]) == 0
    {
      d := c;
      if Val(vals, c[i]) == 0 {
        return;
      }
      var j := i + 1;
      while j < |c| && Val(vals, c[j]) != 0
        invariant i + 1 <= j <= |c|
        invariant forall k :: i <= k < j ==> Val(vals, c[k]) != 0
      {
        j := j + 1;
      }
      SwapLiterals(c, i, j);
      d := c[i := c[j]][j := c[i]];
      StillTwo(vals, c, d, i, j);
    }

    /** A new clause, watched by two unassigned literals. */
    method InsertClause(simplified: Clause, id: nat)
      requires Valid() && !inconsistent && Implies(originals, simplified)
      requires DifferentVars(simplified) && ProperClause(simplified)
      requires exists i, j :: 0 <= i < j < |simplified| && Val(vals, simplified[i]) == 0 && Val(vals, simplified[j]) == 0
      modifies this`arena, this`watchers, this`table, this`numClauses
      ensures Valid() && |arena| == |old(arena)| + 1 && arena[..|old(arena)|] == old(arena)
      ensures arena[|old(arena)|].Live() && arena[|old(arena)|].hash == hashOf(id)
      ensures forall l :: l in arena[|old(arena)|].literals <==> l in simplified
    {
      hide Steady, Settled, BucketsOk, LiveIndices;
      var c := SelectWatches(simplified);
      var clause := CheckerClause(hashOf(id), |c|, c);
      var index := |arena|;
      SteadyClauses(Goal(originals, {}, []), vals, trail, arena, watchers);
      ValueOf(vals, trail, c[0]);
      ValueOf(vals, trail, c[1]);
      AddSteady(originals, vals, trail, arena, watchers, clause, simplified);
      watchers := watchers[c[0] := ListOf(watchers, c[0]) + [Watch(c[1], |c|, index)]];
      watchers := watchers[c[1] := ListOf(watchers, c[1]) + [Watch(c[0], |c|, index)]];
      NoBuckets(fold, arena, table);
      if numClauses == |table| {
        table := Enlarge(fold, arena, table);
      }
      PushedOk(fold, arena, table, clause);
      CountAdded(arena, clause);
      table := Pushed(fold, table, clause.hash, index);
      numClauses := numClauses + 1;
      arena := arena + [clause];
    }

    /** Adds a clause that is implied by the original clauses: falsified, unit or to be watched. */
    method AddClause(simplified: Clause, id: nat)
      requires Valid() && !inconsistent && Implies(originals, simplified)
      requires DifferentVars(simplified) && ProperClause(simplified) && !TrueIn(trail, simplified)
      modifies this`vals, this`trail, this`next, this`arena, this`watchers, this`table, this`numClauses, this`inconsistent
      ensures Valid() && old(trail) <= trail && KeepsClauses(old(arena), arena)
      ensures !inconsistent ==> Entered(|old(arena)|, simplified, hashOf(id))
      ensures !inconsistent && |arena| > |old(arena)| ==> trail == old(trail)
    {
      hide Steady, Settled, Falsified, Implies, TrailOk, TrueIn, KeepsClauses;
      KeepsAll(arena, arena);
      ghost var goal := Goal(originals, {}, []);
      SteadyClauses(goal, vals, trail, arena, watchers);
      SteadyFollows(goal, vals, trail, arena, watchers);
      forall l | l in simplified ensures Val(vals, l) <= 0 && (Val(vals, l) < 0 <==> Falsified(trail, l)) {
        ValueOf(vals, trail, l);
        NotTrue(trail, simplified, l);
      }
      var unit, more := FindUnit(simplified);
      if unit == 0 && !more {
        FalsifiedContradicts(originals, {}, trail, simplified);
        GivenNothing(originals);
        inconsistent := true;
      } else if !more {
        ForcedFollows(originals, {}, trail, simplified, unit);
        AssignSteady(goal, vals, trail, arena, watchers, unit);
        StillPropagated(arena, trail, trail + [unit]);
        Assign(unit);
        assert trail[..next] == old(trail) && unit in trail;
        var ok := Propagate(goal);
        KeepsAll(old(arena), arena);
        SatisfiedBy(trail, simplified, unit);
        if !ok {
          GivenNothing(originals);
          inconsistent := true;
        } else {
          SameTable(fold, old(arena), arena, table, garbage);
        }
      } else {
        InsertClause(simplified, id);
        KeepsAll(old(arena), arena);
        assert arena[|old(arena)|].Live();
        NoClash(simplified, simplified);
      }
    }

    /** The clause is stored, or it is satisfied by the permanent trail. */
    ghost predicate Present(c: Clause)
      reads this
    {
      StoredIn(arena, trail, c)
    }

    /** The clause became the one entry after the first n ones, or there is no new entry and it is redundant: satisfied by the
        permanent trail or tautological. */
    ghost predicate Entered(n: nat, c: Clause, hash: nat)
      reads this
    {
      if |arena| == n then TrueIn(trail, c) || HasClash(c)
      else |arena| == n + 1 && arena[n].Live() && Matches(arena[n], c, hash) && !TrueIn(trail, c) && !HasClash(c)
    }

    /** Original clauses are taken as they are. */
    method AddOriginalClause(id: nat, c: Clause)
      requires Valid() && ProperClause(c)
      modifies this
      ensures Valid() && originals == old(originals) + [c]
      ensures old(inconsistent) ==> inconsistent
      ensures KeepsClauses(old(arena), arena)
      ensures !inconsistent ==> old(trail) <= trail && Entered(|old(arena)|, c, hashOf(id))
      ensures !inconsistent && |arena| > |old(arena)| ==> trail == old(trail)
    {
      hide Steady, Settled, Implies, TrailOk, HasClash, KeepsClauses;
      KeepsAll(arena, arena);
      originals := originals + [c];
      MoreOriginals(old(originals), c);
      if inconsistent {
        return;
      }
      SteadyMore(old(originals), c, vals, trail, arena, watchers);
      SteadyClauses(Goal(originals, {}, []), vals, trail, arena, watchers);
      var redundant, simplified := Tautological(c, vals, trail);
      if !redundant {
        SameImplied(originals, c, simplified);
        AddClause(simplified, id);
        SameEntered(|old(arena)|, c, simplified, hashOf(id));
      }
    }

    /** A derived clause is accepted only if it is implied by the original clauses added so far. It is rejected
        only if plain unit propagation over the live clauses cannot justify it. */
    method AddDerivedClause(id: nat, c: Clause) returns (accepted: bool)
      requires Valid() && ProperClause(c)
      modifies this`vals, this`trail, this`next, this`arena, this`watchers, this`table, this`numClauses, this`inconsistent
      ensures Valid() && (old(inconsistent) ==> inconsistent)
      ensures accepted ==> Implies(originals, c)
      ensures old(trail) <= trail && KeepsClauses(old(arena), arena)
      ensures accepted && !inconsistent ==> Entered(|old(arena)|, c, hashOf(id))
      ensures accepted && !inconsistent && |arena| > |old(arena)| ==> trail == old(trail)
      ensures !accepted ==> trail == old(trail) && SameArena(old(arena), arena) && !inconsistent
      ensures !old(inconsistent) && Refutes(old(LiveClauses()), old(trail) + Negated(c)) ==> accepted
    {
      hide Steady, Settled, TrailOk, HasClash, Implies, TrueIn, SameArena, Refutes, KeepsClauses;
      KeepsAll(arena, arena);
      if inconsistent {
        UnsatImplies(originals, c);
        return true;
      }
      ghost var goal := Goal(originals, {}, []);
      SteadyClauses(goal, vals, trail, arena, watchers);
      SteadyFollows(goal, vals, trail, arena, watchers);
      var redundant, simplified := Tautological(c, vals, trail);
      if redundant {
        RedundantImplied(originals, trail, c);
        return true;
      }
      ghost var live, before := LiveClauses(), trail;
      accepted := Check(simplified);
      ghost var middle := arena;
      KeepsAll(old(arena), middle);
      SameLength(old(arena), middle);
      if Refutes(live, before + Negated(c)) {
        RefutesSame(live, before, c, simplified);
      }
      if accepted {
        AddClause(simplified, id);
        KeepsTransitive(old(arena), middle, arena);
        SameImplied(originals, simplified, c);
        SameEntered(|old(arena)|, c, simplified, hashOf(id));
      }
    }

    /** A clause that entered the arena is there for deletion. */
    lemma EnteredFound(n: nat, was: Arena, c: Clause, hash: nat)
      requires |was| == n + 1 && was[n].Live() && Matches(was[n], c, hash)
      ensures exists i :: 0 <= i < |was| && was[i].Live() && Matches(was[i], c, hash)
    {
    }

    lemma SameEntered(n: nat, c: Clause, d: Clause, hash: nat)
      requires SameLits(d, c)
      ensures Entered(n, d, hash) ==> Entered(n, c, hash)
    {
    }

    /** The bucket and the position in its chain of a clause with the given hash and literals. Only the chain of the
        reduced hash is searched. */
    method Find(simplified: Clause, hash: nat) returns (found: bool, h: nat, pos: nat)
      requires Valid() && !inconsistent && DifferentVars(simplified)
      ensures found ==> h < |table| && pos < |table[h]| && table[h][pos] < |arena| && Matches(arena[table[h][pos]], simplified, hash)
      ensures found ==> forall j :: 0 <= j < pos ==> table[h][j] < |arena| && !Matches(arena[table[h][j]], simplified, hash)
      ensures !found ==> forall c :: 0 <= c < |arena| && arena[c].Live() ==> !Matches(arena[c], simplified, hash)
    {
      hide Steady, Settled, Matches, BucketsOk, Reduce;
      NoBuckets(fold, arena, table);
      found, h, pos := false, 0, 0;
      if table == [] {
        return;
      }
      h := Reduce(fold, hash, |table|);
      ChainMembers(fold, arena, table, h);
      while pos < |table[h]|
        invariant pos <= |table[h]|
        invariant forall j :: 0 <= j < pos ==> table[h][j] < |arena| && !Matches(arena[table[h][j]], simplified, hash)
      {
        assert table[h][pos] in table[h];
        var c := arena[table[h][pos]];
        SteadyClauses(Goal(originals, {}, []), vals, trail, arena, watchers);
        SizeMatches(c, simplified, hash);
        if c.hash == hash && c.size == |simplified| && forall j :: 0 <= j < |c.literals| ==> c.literals[j] in simplified {
          return true, h, pos;
        }
        pos := pos + 1;
      }
      forall c: nat | c < |arena| && arena[c].Live() ensures !Matches(arena[c], simplified, hash) {
        if arena[c].hash == hash {
          assert c in table[h];
          var j :| 0 <= j < |table[h]| && table[h][j] == c;
        } else {
          OtherHash(arena[c], simplified, hash);
        }
      }
    }

    /** Marks a clause as garbage: it leaves its chain but stays in the watcher lists. */
    method MarkGarbage(h: nat, pos: nat)
      requires Valid() && !inconsistent && h < |table| && pos < |table[h]| && table[h][pos] < |arena|
      modifies this`arena, this`table, this`numClauses, this`garbage
      ensures Valid() && table == Dropped(old(table), h, pos) && garbage == [old(table)[h][pos]] + old(garbage)
      ensures |arena| == |old(arena)| && arena == old(arena)[old(table)[h][pos] := old(arena)[old(table)[h][pos]].(size := 0)]
    {
      hide Steady, Settled, BucketsOk, LiveIndices;
      var d := table[h][pos];
      DroppedOk(fold, arena, table, h, pos);
      CountRemoved(arena, d);
      SomeLive(arena, d);
      KillSteady(originals, vals, trail, arena, watchers, d);
      arena := arena[d := arena[d].(size := 0)];
      table := table[h := table[h][..pos] + table[h][pos + 1..]];
      numClauses := numClauses - 1;
      garbage := [d] + garbage;
    }

    /** Deletes a clause, and possibly collects garbage. Clauses that are redundant under the permanent trail are
        left alone; deleting an unknown clause is an error. */
    method DeleteClause(id: nat, c: Clause, collect: bool) returns (found: bool, ghost victim: nat)
      requires Valid() && ProperClause(c)
      modifies this`arena, this`table, this`numClauses, this`garbage, this`watchers
      ensures Valid()
      ensures old(inconsistent) || TrueIn(trail, c) || HasClash(c) || !found ==> arena == old(arena)
      ensures !old(inconsistent) && !TrueIn(trail, c) && !HasClash(c) && found ==>
                Removed(old(arena), arena, trail, c, hashOf(id), victim, collect)
      ensures found <==> old(inconsistent) || TrueIn(trail, c) || HasClash(c) || old(Stores(c, hashOf(id)))
      ensures garbage == if arena == old(arena) then old(garbage) else if collect then [] else [victim] + old(garbage)
    {
      hide Steady, Settled, TrailOk, HasClash, TrueIn, Matches, BucketsOk, Reduce, LiveIndices, Dropped;
      victim := 0;
      if inconsistent {
        return true, victim;
      }
      SteadyClauses(Goal(originals, {}, []), vals, trail, arena, watchers);
      var redundant, simplified := Tautological(c, vals, trail);
      if redundant {
        return true, victim;
      }
      var h, pos;
      found, h, pos := Find(simplified, hashOf(id));
      forall i | 0 <= i < |arena| ensures Matches(arena[i], simplified, hashOf(id)) <==> Matches(arena[i], c, hashOf(id)) {
        MatchesSame(arena[i], simplified, c, hashOf(id));
      }
      if found {
        ChainMembers(fold, arena, table, h);
        assert table[h][pos] in table[h];
        victim := table[h][pos];
        MarkGarbage(h, pos);
        if collect {
          CollectGarbage();
        }
      }
    }

    ghost predicate Stores(c: Clause, hash: nat)
      reads this
    {
      exists i :: 0 <= i < |arena| && arena[i].Live() && Matches(arena[i], c, hash)
    }

    /** Removes satisfied clauses from the table and garbage clauses from the watcher lists. */
    method CollectGarbage()
      requires Valid() && !inconsistent
      modifies this`arena, this`table, this`numClauses, this`garbage, this`watchers
      ensures Valid() && garbage == [] && |arena| == |old(arena)|
      ensures forall c :: 0 <= c < |arena| ==>
                && (arena[c] == old(arena)[c] || arena[c] == old(arena)[c].(size := 0))
                && (arena[c].Live() <==> old(arena)[c].Live() && !TrueIn(trail, arena[c].literals))
      ensures forall lit, i :: 0 <= i < |ListOf(watchers, lit)| ==> Watched(arena, ListOf(watchers, lit)[i])
    {
      hide Steady, Settled, TrueIn, MarkedOnly;
      RemoveSatisfied();
      assert TableOk();
      FlushSteady(originals, vals, trail, arena, watchers);
      MarkedFacts(old(arena), arena, trail);
      watchers := Flushed(arena, watchers);
      garbage := [];
    }

    /** Marks the clauses satisfied by the trail as garbage, and no other clause. */
    method RemoveSatisfied()
      requires Valid() && !inconsistent
      modifies this`arena, this`table, this`numClauses, this`garbage
      ensures Valid() && MarkedOnly(old(arena), arena, trail)
      ensures forall c :: 0 <= c < |arena| && arena[c].Live() ==> !TrueIn(trail, arena[c].literals)
    {
      hide Steady, Settled, TrueIn, MarkedOnly, BucketsOk, LiveIndices, Reduce;
      var h := 0;
      MarkedNone(arena, trail);
      while h < |table|
        invariant 0 <= h <= |table| == |old(table)| && Valid() && MarkedOnly(old(arena), arena, trail)
        invariant forall b :: 0 <= b < h ==> NoneSatisfied(arena, trail, table[b])
      {
        ghost var middle := arena;
        CleanChain(h);
        MarkedTrans(old(arena), middle, arena, trail);
        h := h + 1;
      }
      forall c: nat | c < |arena| && arena[c].Live() ensures !TrueIn(trail, arena[c].literals) {
        NoBuckets(fold, arena, table);
        var b := Reduce(fold, arena[c].hash, |table|);
        ChainMembers(fold, arena, table, b);
        assert c in table[b] && NoneSatisfied(arena, trail, table[b]);
        var j :| 0 <= j < |table[b]| && table[b][j] == c;
      }
    }

    /** Goes through one chain. */
    method CleanChain(h: nat)
      requires Valid() && !inconsistent && h < |table|
      requires forall b :: 0 <= b < h ==> NoneSatisfied(arena, trail, table[b])
      modifies this`arena, this`table, this`numClauses, this`garbage
      ensures Valid() && |table| == |old(table)| && MarkedOnly(old(arena), arena, trail)
      ensures forall b :: 0 <= b <= h ==> NoneSatisfied(arena, trail, table[b])
    {
      hide Steady, Settled, TrueIn, MarkedOnly, BucketsOk, LiveIndices, Reduce, NoneSatisfied;
      var pos := 0;
      MarkedNone(arena, trail);
      NoneYet(arena, trail, table[h][..0]);
      while pos < |table[h]|
        invariant |table| == |old(table)| && 0 <= pos <= |table[h]| && Valid() && MarkedOnly(old(arena), arena, trail)
        invariant NoneSatisfied(arena, trail, table[h][..pos])
        invariant forall b :: 0 <= b < h ==> NoneSatisfied(arena, trail, table[b])
        decreases |table[h]| - pos
      {
        ChainMembers(fold, arena, table, h);
        assert table[h][pos] in table[h];
        SteadyClauses(Goal(originals, {}, []), vals, trail, arena, watchers);
        var satisfied := ClauseSatisfied(arena[table[h][pos]].literals);
        if satisfied {
          DropSatisfied(h, pos, old(arena));
        } else {
          NoneNext(arena, trail, table[h], pos);
          pos := pos + 1;
        }
      }
      assert table[h][..pos] == table[h];
    }

    /** Removes a satisfied clause from a chain. */
    method DropSatisfied(h: nat, pos: nat, ghost was: Arena)
      requires Valid() && !inconsistent && h < |table| && pos < |table[h]| && table[h][pos] < |arena|
      requires TrueIn(trail, arena[table[h][pos]].literals) && MarkedOnly(was, arena, trail)
      requires NoneSatisfied(arena, trail, table[h][..pos]) && forall b :: 0 <= b < h ==> NoneSatisfied(arena, trail, table[b])
      modifies this`arena, this`table, this`numClauses, this`garbage
      ensures Valid() && |table| == |old(table)| && |table[h]| == |old(table)[h]| - 1 && MarkedOnly(was, arena, trail)
      ensures NoneSatisfied(arena, trail, table[h][..pos]) && forall b :: 0 <= b < h ==> NoneSatisfied(arena, trail, table[b])
    {
      hide Steady, Settled, TrueIn, MarkedOnly, BucketsOk, LiveIndices, Reduce, NoneSatisfied;
      ghost var before, t := arena, table;
      MarkedOne(was, arena, trail, table[h][pos]);
      MarkGarbage(h, pos);
      assert table[h][..pos] == t[h][..pos];
      NoneKept(before, arena, trail, t[h][..pos]);
      forall b | 0 <= b < h ensures NoneSatisfied(arena, trail, table[b]) {
        assert table[b] == t[b];
        NoneKept(before, arena, trail, t[b]);
      }
    }

    method ClauseSatisfied(c: Clause) returns (res: bool)
      requires TrailOk(vals, trail)
      ensures res <==> TrueIn(trail, c)
    {
      var i := 0;
      while i < |c|
        invariant 0 <= i <= |c| && forall j :: 0 <= j < i ==> c[j] !in trail
      {
        ValueOf(vals, trail, c[i]);
        if Val(vals, c[i]) > 0 {
          assert c[i] in c;
          return true;
        }
        i := i + 1;
      }
      res := false;
    }

    /** Assumption clauses are checked and forgotten: no clause is stored more often than before, and without a collection
        every clause just as often. */
    method AddAssumptionClause(id: nat, c: Clause, collect: bool) returns (accepted: bool)
      requires Valid() && ProperClause(c)
      modifies this`vals, this`trail, this`next, this`arena, this`watchers, this`table, this`numClauses, this`garbage, this`inconsistent
      ensures Valid() && (old(inconsistent) ==> inconsistent)
      ensures accepted ==> Implies(originals, c)
      ensures !old(inconsistent) && Refutes(old(LiveClauses()), old(trail) + Negated(c)) ==> accepted
      ensures !inconsistent ==> forall d :: old(Present(d)) ==> Present(d)
      ensures !inconsistent ==> forall d, hash :: Copies(arena, d, hash) <= Copies(old(arena), d, hash)
      ensures !inconsistent && !collect ==> forall d, hash :: Copies(arena, d, hash) == Copies(old(arena), d, hash)
      ensures !accepted ==> trail == old(trail) && SameArena(old(arena), arena) && garbage == old(garbage)
    {
      hide Steady, Settled, TrailOk, HasClash, TrueIn, Implies, Refutes, KeepsClauses, Removed, Copies, Matches, SameArena;
      accepted := AddDerivedClause(id, c);
      ghost var middle := arena;
      KeepsEqual(old(arena), middle);
      if !accepted { SameLength(old(arena), middle); }
      forall d | old(Present(d)) ensures Present(d) {
        KeepsStored(old(arena), middle, old(trail), trail, d);
      }
      if accepted {
        var found, victim := DeleteClause(id, c, collect);
        if !inconsistent && |middle| > |old(arena)| {
          EnteredFound(|old(arena)|, middle, c, hashOf(id));
          ForgottenEqual(old(arena), middle, arena, trail, c, hashOf(id), victim, collect);
          forall d | old(Present(d)) ensures Present(d) {
            ForgottenStored(old(arena), middle, arena, old(trail), trail, c, hashOf(id), victim, collect, d);
          }
        }
      }
    }
  }

  /** How often a clause is stored with a hash. */
  ghost function Copies(arena: Arena, c: Clause, hash: nat): nat
  {
    if arena == [] then 0
    else
      var last := arena[|arena| - 1];
      Copies(arena[..|arena| - 1], c, hash) + if last.Live() && Matches(last, c, hash) then 1 else 0
  }

  lemma {:induction false} CopiesSame(a: Arena, b: Arena, c: Clause, hash: nat)
    requires SameArena(a, b)
    ensures Copies(a, c, hash) == Copies(b, c, hash)
    decreases |a|
  {
    if a != [] {
      var n := |a| - 1;
      assert SameClause(a[n], b[n]);
      CopiesSame(a[..n], b[..n], c, hash);
    }
  }

  lemma SameLength(a: Arena, b: Arena)
    requires SameArena(a, b)
    ensures |a| == |b|
  {
  }

  lemma KeepsEqual(a: Arena, b: Arena)
    requires KeepsClauses(a, b)
    ensures |a| <= |b| <= |a| + 1 && (|b| == |a| ==> b[..|a|] == b)
    ensures forall c, hash :: Copies(a, c, hash) == Copies(b[..|a|], c, hash)
  {
    forall c, hash ensures Copies(a, c, hash) == Copies(b[..|a|], c, hash) { CopiesSame(a, b[..|a|], c, hash); }
    assert b[..|b|] == b;
  }

  /** Killing clauses removes what is killed. */
  lemma {:induction false} CopiesKilled(a: Arena, b: Arena, c: Clause, hash: nat)
    requires |a| == |b| && forall i :: 0 <= i < |a| ==> b[i] == a[i] || b[i] == a[i].(size := 0)
    ensures Copies(b, c, hash) <= Copies(a, c, hash)
    ensures forall i :: 0 <= i < |a| && a[i].Live() && !b[i].Live() && Matches(a[i], c, hash) ==> Copies(b, c, hash) < Copies(a, c, hash)
    ensures (forall i :: 0 <= i < |a| && a[i].Live() && Matches(a[i], c, hash) ==> b[i].Live()) ==> Copies(b, c, hash) == Copies(a, c, hash)
    decreases |a|
  {
    if a != [] {
      var n := |a| - 1;
      CopiesKilled(a[..n], b[..n], c, hash);
      assert a[..n] + [a[n]] == a && b[..n] + [b[n]] == b;
      forall i | 0 <= i < |a| && a[i].Live() && !b[i].Live() && Matches(a[i], c, hash) ensures Copies(b, c, hash) < Copies(a, c, hash) {
        if i < n { assert a[..n][i] == a[i] && b[..n][i] == b[i]; }
      }
    }
  }

  /** Adding a clause and removing one with the same hash and literals. */
  lemma ForgottenEqual(arena: Arena, middle: Arena, arena': Arena, trail: seq<int>, c: Clause, hash: nat, victim: nat, collect: bool)
    requires |middle| == |arena| + 1 && middle[|arena|].Live() && Matches(middle[|arena|], c, hash)
    requires forall d, h :: Copies(arena, d, h) == Copies(middle[..|arena|], d, h)
    requires Removed(middle, arena', trail, c, hash, victim, collect)
    ensures forall d, h :: Copies(arena', d, h) <= Copies(arena, d, h)
    ensures !collect ==> forall d, h :: Copies(arena', d, h) == Copies(arena, d, h)
  {
    forall d, h
      ensures Copies(arena', d, h) <= Copies(arena, d, h)
      ensures !collect ==> Copies(arena', d, h) == Copies(arena, d, h)
    {
      ForgottenAt(arena, middle, arena', trail, c, hash, victim, collect, d, h);
    }
  }

  lemma ForgottenAt(arena: Arena, middle: Arena, arena': Arena, trail: seq<int>, c: Clause, hash: nat, victim: nat, collect: bool,
                    d: Clause, h: nat)
    requires |middle| == |arena| + 1 && middle[|arena|].Live() && Matches(middle[|arena|], c, hash)
    requires Copies(arena, d, h) == Copies(middle[..|arena|], d, h) && Removed(middle, arena', trail, c, hash, victim, collect)
    ensures Copies(arena', d, h) <= Copies(arena, d, h) && (!collect ==> Copies(arena', d, h) == Copies(arena, d, h))
  {
    var one := middle[victim := middle[victim].(size := 0)];
    CopiesOne(middle, victim, d, h);
    CopiesKilled(one, arena', d, h);
    assert !collect ==> arena' == one;
    MatchesBoth(middle[|arena|], middle[victim], c, hash, d, h);
  }

  lemma MatchesBoth(a: CheckerClause, b: CheckerClause, c: Clause, hash: nat, d: Clause, h: nat)
    requires Matches(a, c, hash) && Matches(b, c, hash)
    ensures Matches(a, d, h) <==> Matches(b, d, h)
  {
  }

  /** Killing one clause takes away one copy of what it matches. */
  lemma {:induction false} CopiesOne(arena: Arena, i: nat, c: Clause, hash: nat)
    requires i < |arena| && arena[i].Live()
    ensures Copies(arena[i := arena[i].(size := 0)], c, hash) == Copies(arena, c, hash) - if Matches(arena[i], c, hash) then 1 else 0
    decreases |arena|
  {
    var n, b := |arena| - 1, arena[i := arena[i].(size := 0)];
    if i < n {
      CopiesOne(arena[..n], i, c, hash);
      assert b[..n] == arena[..n][i := arena[i].(size := 0)] && b[n] == arena[n];
    } else {
      assert b[..n] == arena[..n];
    }
  }

  ghost predicate SameLits(c: Clause, d: Clause)
  {
    forall l :: l in c <==> l in d
  }

  /** A live clause has exactly these literals, or the trail satisfies them. */
  ghost predicate StoredIn(arena: Arena, trail: seq<int>, c: Clause)
  {
    TrueIn(trail, c) || exists i :: 0 <= i < |arena| && arena[i].Live() && SameLits(arena[i].literals, c)
  }

  /** Every clause is still there, up to the order of its literals; at most one clause is new. */
  ghost predicate KeepsClauses(arena: Arena, arena': Arena)
  {
    |arena| <= |arena'| <= |arena| + 1 && forall c :: 0 <= c < |arena| ==> SameClause(arena[c], arena'[c])
  }

  lemma SatisfiedBy(trail: seq<int>, c: Clause, l: int)
    requires l in c && l in trail
    ensures TrueIn(trail, c)
  {
  }

  lemma KeepsAll(arena: Arena, arena': Arena)
    requires SameArena(arena, arena') || (|arena'| == |arena| + 1 && arena'[..|arena|] == arena) || arena == arena'
    ensures KeepsClauses(arena, arena')
  {
    if !SameArena(arena, arena') {
      forall c | 0 <= c < |arena| ensures SameClause(arena[c], arena'[c]) {
        assert arena'[c] == arena[c];
      }
    }
  }

  lemma KeepsTransitive(a: Arena, b: Arena, c: Arena)
    requires SameArena(a, b) && KeepsClauses(b, c)
    ensures KeepsClauses(a, c)
  {
    forall i | 0 <= i < |a| ensures SameClause(a[i], c[i]) {
      assert SameClause(a[i], b[i]) && SameClause(b[i], c[i]);
    }
  }

  /** One matching clause was removed, together with the satisfied clauses if garbage was collected. */
  ghost predicate Removed(arena: Arena, arena': Arena, trail: seq<int>, c: Clause, hash: nat, victim: nat, collect: bool)
  {
    && victim < |arena| == |arena'| && arena[victim].Live() && Matches(arena[victim], c, hash)
    && forall i :: 0 <= i < |arena| ==>
         && (arena'[i] == arena[i] || arena'[i] == arena[i].(size := 0))
         && (arena'[i].Live() <==> arena[i].Live() && i != victim && !(collect && TrueIn(trail, arena[i].literals)))
  }

  lemma KeepsStored(arena: Arena, arena': Arena, trail: seq<int>, trail': seq<int>, d: Clause)
    requires KeepsClauses(arena, arena') && trail <= trail' && StoredIn(arena, trail, d)
    ensures StoredIn(arena', trail', d)
  {
    if TrueIn(trail, d) {
      MoreTrue(trail, trail', d);
    } else {
      var i :| 0 <= i < |arena| && arena[i].Live() && SameLits(arena[i].literals, d);
      assert SameClause(arena[i], arena'[i]);
    }
  }

  /** Adding a clause and removing one with the same literals leaves everything stored that was stored. */
  lemma ForgottenStored(arena: Arena, middle: Arena, arena': Arena, trail: seq<int>, trail': seq<int>, c: Clause,
                        hash: nat, victim: nat, collect: bool, d: Clause)
    requires KeepsClauses(arena, middle) && trail <= trail' && StoredIn(arena, trail, d)
    requires |middle| == |arena| + 1 && middle[|arena|].Live() && Matches(middle[|arena|], c, hash)
    requires Removed(middle, arena', trail', c, hash, victim, collect)
    ensures StoredIn(arena', trail', d)
  {
    if TrueIn(trail, d) {
      MoreTrue(trail, trail', d);
    } else {
      var i :| 0 <= i < |arena| && arena[i].Live() && SameLits(arena[i].literals, d);
      assert SameClause(arena[i], middle[i]);
      var k := if i == victim then |arena| else i;
      assert SameLits(middle[k].literals, d);
      if TrueIn(trail', middle[k].literals) {
        var l :| l in middle[k].literals && l in trail';
        assert l in d;
      }
    }
  }

  /** The clauses are the same, except that some clauses satisfied by the trail are dead now. */
  ghost predicate MarkedOnly(arena: Arena, arena': Arena, trail: seq<int>)
  {
    |arena'| == |arena| && forall c :: 0 <= c < |arena| ==>
      && (arena'[c] == arena[c] || arena'[c] == arena[c].(size := 0))
      && (arena[c].Live() && !TrueIn(trail, arena[c].literals) ==> arena'[c].Live())
  }

  lemma MarkedNone(arena: Arena, trail: seq<int>)
    ensures MarkedOnly(arena, arena, trail)
  {
  }

  lemma MarkedTrans(a: Arena, b: Arena, c: Arena, trail: seq<int>)
    requires MarkedOnly(a, b, trail) && MarkedOnly(b, c, trail)
    ensures MarkedOnly(a, c, trail)
  {
    hide TrueIn;
  }

  lemma MarkedOne(arena: Arena, arena': Arena, trail: seq<int>, d: nat)
    requires MarkedOnly(arena, arena', trail) && d < |arena'| && TrueIn(trail, arena'[d].literals)
    ensures MarkedOnly(arena, arena'[d := arena'[d].(size := 0)], trail)
  {
  }

  lemma MarkedFacts(arena: Arena, arena': Arena, trail: seq<int>)
    requires MarkedOnly(arena, arena', trail)
    requires forall c :: 0 <= c < |arena'| && arena'[c].Live() ==> !TrueIn(trail, arena'[c].literals)
    ensures |arena'| == |arena|
    ensures forall c :: 0 <= c < |arena'| ==>
              && (arena'[c] == arena[c] || arena'[c] == arena[c].(size := 0))
              && (arena'[c].Live() <==> arena[c].Live() && !TrueIn(trail, arena'[c].literals))
  {
  }

  lemma MatchesSame(clause: CheckerClause, c: Clause, d: Clause, hash: nat)
    requires forall l :: l in c <==> l in d
    ensures Matches(clause, c, hash) <==> Matches(clause, d, hash)
  {
  }

  ghost predicate Watched(arena: Arena, w: Watch)
  {
    w.clause < |arena| && arena[w.clause].Live()
  }

  /** The entries whose clause is not garbage. */
  function FlushList(arena: Arena, ws: seq<Watch>): seq<Watch>
  {
    if ws == [] then []
    else
      var last := ws[|ws| - 1];
      FlushList(arena, ws[..|ws| - 1]) + (if last.clause < |arena| && arena[last.clause].Live() then [last] else [])
  }

  function Flushed(arena: Arena, watchers: Watchers): Watchers
  {
    map lit | lit in watchers :: FlushList(arena, watchers[lit])
  }

  lemma {:induction false} FlushKeeps(arena: Arena, ws: seq<Watch>)
    ensures forall i :: 0 <= i < |FlushList(arena, ws)| ==>
              Watched(arena, FlushList(arena, ws)[i]) && FlushList(arena, ws)[i] in ws
    decreases |ws|
  {
    if ws != [] {
      assert ws == ws[..|ws| - 1] + [ws[|ws| - 1]];
      FlushKeeps(arena, ws[..|ws| - 1]);
    }
  }

  lemma {:induction false} FlushListed(arena: Arena, ws: seq<Watch>, c: nat)
    requires c < |arena| && arena[c].Live()
    ensures Lists(ws, c) ==> Lists(FlushList(arena, ws), c)
    decreases |ws|
  {
    if ws != [] && Lists(ws, c) {
      var front, last := ws[..|ws| - 1], ws[|ws| - 1];
      FlushListed(arena, front, c);
      var less := FlushList(arena, front);
      if last.clause == c {
        LastListed(less, last);
      } else {
        var i :| 0 <= i < |ws| && ws[i].clause == c;
        assert front[i].clause == c;
        MoreListed(less, last, c);
        assert less + [] == less;
      }
    }
  }

  lemma {:induction false} FlushOk(arena: Arena, lit: int, ws: seq<Watch>)
    requires ListOk(arena, lit, ws)
    ensures ListOk(arena, lit, FlushList(arena, ws))
    decreases |ws|
  {
    if ws != [] {
      var front, last := ws[..|ws| - 1], ws[|ws| - 1];
      FrontOk(arena, lit, ws);
      FlushOk(arena, lit, front);
      FlushKeeps(arena, front);
      var less := FlushList(arena, front);
      hide WatchOk, FlushList;
      forall i | 0 <= i < |less| ensures less[i].clause != last.clause {
        assert less[i] in front;
        var j :| 0 <= j < |front| && front[j] == less[i];
        assert ws[j] == less[i] && ws[|ws| - 1] == last;
      }
      assert ListOk(arena, lit, less + [last]);
      FlushStep(arena, ws);
    }
  }

  lemma FrontOk(arena: Arena, lit: int, ws: seq<Watch>)
    requires ListOk(arena, lit, ws) && ws != []
    ensures ListOk(arena, lit, ws[..|ws| - 1]) && WatchOk(arena, lit, ws[|ws| - 1])
  {
  }

  lemma FlushStep(arena: Arena, ws: seq<Watch>)
    requires ws != []
    ensures var less := FlushList(arena, ws[..|ws| - 1]);
            FlushList(arena, ws) == less || FlushList(arena, ws) == less + [ws[|ws| - 1]]
  {
    var less := FlushList(arena, ws[..|ws| - 1]);
    assert less + [] == less;
  }

  /** Flushing keeps everything, and leaves no entry of a garbage clause. */
  lemma FlushSteady(f: seq<Clause>, vals: map<int, int>, trail: seq<int>, arena: Arena, watchers: Watchers)
    requires Steady(Goal(f, {}, []), vals, trail, arena, watchers)
    ensures Steady(Goal(f, {}, []), vals, trail, arena, Flushed(arena, watchers))
    ensures forall lit, i :: 0 <= i < |ListOf(Flushed(arena, watchers), lit)| ==>
              Watched(arena, ListOf(Flushed(arena, watchers), lit)[i])
  {
    var flushed := Flushed(arena, watchers);
    hide TrailOk, Justified, Settled, ListOk, Lists, FlushList, ClauseOk, Watched;
    forall l
      ensures ListOk(arena, l, ListOf(flushed, l))
      ensures forall i :: 0 <= i < |ListOf(flushed, l)| ==> Watched(arena, ListOf(flushed, l)[i])
    {
      assert ListOk(arena, l, ListOf(watchers, l));
      if l in watchers {
        FlushOk(arena, l, watchers[l]);
        FlushKeeps(arena, watchers[l]);
      }
    }
    forall c, l | 0 <= c < |arena| && arena[c].Live() && FirstTwo(arena[c].literals, l)
      ensures Lists(ListOf(flushed, l), c)
    {
      assert Lists(ListOf(watchers, l), c);
      if l in watchers { FlushListed(arena, watchers[l], c); }
    }
  }

  /** The clause has the hash, and its literals are exactly those of c. */
  ghost predicate Matches(clause: CheckerClause, c: Clause, hash: nat)
  {
    clause.hash == hash && forall l :: l in clause.literals <==> l in c
  }

  /** Comparing sizes and testing one inclusion suffices, as neither clause repeats a literal. */
  lemma SizeMatches(clause: CheckerClause, c: Clause, hash: nat)
    requires ClauseOk(clause) && clause.Live() && DifferentVars(c)
    ensures Matches(clause, c, hash) <==>
            clause.hash == hash && clause.size == |c| && forall j :: 0 <= j < |clause.literals| ==> clause.literals[j] in c
  {
    var d := clause.literals;
    DistinctCount(d);
    DistinctCount(c);
    if Matches(clause, c, hash) {
      assert Lits(d) == Lits(c);
      forall j | 0 <= j < |d| ensures d[j] in c { assert d[j] in d; }
    }
    if clause.hash == hash && clause.size == |c| && forall j :: 0 <= j < |d| ==> d[j] in c {
      forall l | l in d ensures l in c { var j :| 0 <= j < |d| && d[j] == l; }
      assert Lits(d) <= Lits(c);
      SubsetSameSize(Lits(d), Lits(c));
      forall l | l in c ensures l in d { assert l in Lits(d); }
    }
  }

  lemma SubsetSameSize(a: set<int>, b: set<int>)
    requires a <= b && |a| == |b|
    ensures a == b
  {
    assert |b - a| == |b| - |a|;
  }

  lemma KillSteady(f: seq<Clause>, vals: map<int, int>, trail: seq<int>, arena: Arena, watchers: Watchers, d: nat)
    requires Steady(Goal(f, {}, []), vals, trail, arena, watchers) && Settled(arena, trail) && d < |arena|
    ensures Steady(Goal(f, {}, []), vals, trail, arena[d := arena[d].(size := 0)], watchers)
    ensures Settled(arena[d := arena[d].(size := 0)], trail)
  {
    var arena' := arena[d := arena[d].(size := 0)];
    forall c | 0 <= c < |arena| ensures ClauseOk(arena'[c]) && arena'[c].literals == arena[c].literals {
      assert ClauseOk(arena[c]);
    }
    hide TrailOk, Implies, Follows, ClauseOk, ClauseSettled, Lists;
    forall l ensures ListOk(arena', l, ListOf(watchers, l)) {
      assert ListOk(arena, l, ListOf(watchers, l));
      KillListOk(arena, l, ListOf(watchers, l), d);
    }
  }

  lemma KillListOk(arena: Arena, l: int, ws: seq<Watch>, d: nat)
    requires ListOk(arena, l, ws) && d < |arena|
    ensures ListOk(arena[d := arena[d].(size := 0)], l, ws)
  {
    forall j | 0 <= j < |ws| ensures WatchOk(arena[d := arena[d].(size := 0)], l, ws[j]) {
      assert WatchOk(arena, l, ws[j]);
    }
  }

  lemma NoBuckets(fold: Fold, arena: Arena, t: Buckets)
    requires BucketsOk(fold, arena, t)
    ensures t == [] ==> LiveIndices(arena) == {} && forall c :: 0 <= c < |arena| ==> !arena[c].Live()
  {
  }

  lemma ChainMembers(fold: Fold, arena: Arena, t: Buckets, h: nat)
    requires BucketsOk(fold, arena, t) && h < |t|
    ensures forall c: nat :: c in t[h] <==> c < |arena| && arena[c].Live() && Reduce(fold, arena[c].hash, |t|) == h
  {
    assert BucketOk(fold, arena, |t|, h, t[h]);
  }

  lemma OtherHash(clause: CheckerClause, c: Clause, hash: nat)
    requires clause.hash != hash
    ensures !Matches(clause, c, hash)
  {
  }

  lemma SomeLive(arena: Arena, d: nat)
    requires d < |arena| && arena[d].Live()
    ensures |LiveIndices(arena)| > 0
  {
    assert d in LiveIndices(arena);
  }

  /** No clause of the chain is satisfied by the trail. */
  ghost predicate NoneSatisfied(arena: Arena, trail: seq<int>, chain: seq<nat>)
  {
    forall j :: 0 <= j < |chain| ==> chain[j] < |arena| && !TrueIn(trail, arena[chain[j]].literals)
  }

  lemma NoneYet(arena: Arena, trail: seq<int>, chain: seq<nat>)
    requires chain == []
    ensures NoneSatisfied(arena, trail, chain)
  {
  }

  lemma NoneNext(arena: Arena, trail: seq<int>, chain: seq<nat>, pos: nat)
    requires pos < |chain| && NoneSatisfied(arena, trail, chain[..pos]) && chain[pos] < |arena|
    requires !TrueIn(trail, arena[chain[pos]].literals)
    ensures NoneSatisfied(arena, trail, chain[..pos + 1])
  {
    hide TrueIn;
    assert chain[..pos + 1] == chain[..pos] + [chain[pos]];
  }

  lemma NoneKept(arena: Arena, arena': Arena, trail: seq<int>, chain: seq<nat>)
    requires NoneSatisfied(arena, trail, chain) && |arena'| == |arena|
    requires forall c :: 0 <= c < |arena| ==> arena'[c].literals == arena[c].literals
    ensures NoneSatisfied(arena', trail, chain)
  {
    hide TrueIn;
  }

  lemma SteadyFollows(goal: Goal, vals: map<int, int>, trail: seq<int>, arena: Arena, watchers: Watchers)
    requires Steady(goal, vals, trail, arena, watchers)
    ensures forall l :: l in trail ==> Follows(goal.f, goal.given, l)
  {
  }

  lemma NotTrue(trail: seq<int>, c: Clause, l: int)
    requires !TrueIn(trail, c) && l in c
    ensures l !in trail
  {
  }

  lemma GivenNothing(f: seq<Clause>)
    requires Contradicts(f, {})
    ensures Unsat(f)
  {
    forall s ensures !CnfTrue(s, f) { assert HoldAll(s, {}); }
  }

  lemma UnsatImplies(f: seq<Clause>, c: Clause)
    requires Unsat(f)
    ensures Implies(f, c)
  {
  }

  lemma MoreOriginals(f: seq<Clause>, c: Clause)
    ensures Unsat(f) ==> Unsat(f + [c])
    ensures Implies(f + [c], c)
  {
    forall s ensures CnfTrue(s, f + [c]) <==> CnfTrue(s, f) && CnfTrue(s, [c]) { CnfTrueConcat(s, f, [c]); }
    assert c in [c];
  }

  lemma SteadyMore(f: seq<Clause>, c: Clause, vals: map<int, int>, trail: seq<int>, arena: Arena, watchers: Watchers)
    requires Steady(Goal(f, {}, []), vals, trail, arena, watchers)
    ensures Steady(Goal(f + [c], {}, []), vals, trail, arena, watchers)
  {
    hide TrailOk, Structure, Settled;
    forall s ensures CnfTrue(s, f + [c]) ==> CnfTrue(s, f) { CnfTrueConcat(s, f, [c]); }
    forall i | 0 <= i < |arena| ensures Implies(f + [c], arena[i].literals) { assert Implies(f, arena[i].literals); }
    forall l | l in trail ensures Follows(f + [c], {}, l) { assert Follows(f, {}, l); }
  }

  lemma SameImplied(f: seq<Clause>, c: Clause, d: Clause)
    requires Implies(f, c) && forall l :: l in d <==> l in c
    ensures Implies(f, d)
  {
    forall s | CnfTrue(s, f) ensures ClauseTrue(s, d) {
      var l :| l in c && LitTrue(s, l);
      assert l in d;
    }
  }

  lemma RedundantImplied(f: seq<Clause>, trail: seq<int>, c: Clause)
    requires ProperClause(c) && (TrueIn(trail, c) || HasClash(c)) && forall l :: l in trail ==> Follows(f, {}, l)
    ensures Implies(f, c) && (!HasClash(c) ==> exists l :: l in c && l in trail)
  {
    forall s | CnfTrue(s, f) ensures ClauseTrue(s, c) {
      if TrueIn(trail, c) {
        var l :| l in c && l in trail;
        assert Follows(f, {}, l) && HoldAll(s, {});
      } else {
        var l, m :| l in c && m in c && l == -m;
        LitNegation(s, m);
      }
    }
  }

  /** Plain unit propagation starts from the same literals, in whatever order they are listed. */
  lemma RefutesSame(clauses: set<Clause>, base: seq<int>, c: Clause, d: Clause)
    requires Refutes(clauses, base + Negated(c)) && forall l :: l in d <==> l in c
    ensures Refutes(clauses, base + Negated(d))
  {
    var steps, last :| Refutation(clauses, base + Negated(c), steps, last);
    var a, b := base + Negated(c), base + Negated(d);
    forall l | l in a ensures l in b {
      if l !in base {
        var i :| 0 <= i < |c| && Negated(c)[i] == l;
        assert c[i] in d;
        var j :| 0 <= j < |d| && d[j] == c[i];
        assert Negated(d)[j] == l;
      }
    }
    DerivationMore(clauses, a, b, steps);
    forall m | m in last ensures Falsified(b + Assigned(steps), m) { assert Falsified(a + Assigned(steps), m); }
    assert Refutation(clauses, b, steps, last);
  }

  lemma {:induction false} DerivationMore(clauses: set<Clause>, a: seq<int>, b: seq<int>, steps: seq<Forced>)
    requires Derivation(clauses, a, steps) && forall l :: l in a ==> l in b
    ensures Derivation(clauses, b, steps)
    decreases |steps|
  {
    if steps != [] {
      var front, last := steps[..|steps| - 1], steps[|steps| - 1];
      DerivationMore(clauses, a, b, front);
      forall m | m in last.reason && m != last.lit ensures Falsified(b + Assigned(front), m) {
        assert Falsified(a + Assigned(front), m);
      }
    }
  }

  /** Appending a clause that is watched by two unassigned literals. */
  lemma AddSteady(f: seq<Clause>, vals: map<int, int>, trail: seq<int>, arena: Arena, watchers: Watchers,
                  clause: CheckerClause, simplified: Clause)
    requires Steady(Goal(f, {}, []), vals, trail, arena, watchers) && Settled(arena, trail)
    requires ClauseOk(clause) && clause.Live() && Implies(f, simplified)
    requires forall l :: l in clause.literals <==> l in simplified
    requires !Falsified(trail, clause.literals[0]) && !Falsified(trail, clause.literals[1])
    ensures Steady(Goal(f, {}, []), vals, trail, arena + [clause], WithClause(watchers, clause, |arena|))
    ensures Settled(arena + [clause], trail)
  {
    SameImplied(f, simplified, clause.literals);
    assert ClauseSettled(clause.literals, trail) && ClauseSettled(clause.literals, []);
    hide TrailOk, Implies, Follows, ClauseOk, ClauseSettled, AllListsOk, AllListed;
    AddLists(arena, watchers, clause);
    var more := arena + [clause];
    forall c | 0 <= c < |more| ensures ClauseOk(more[c]) && Implies(f, more[c].literals) {
      if c < |arena| { assert more[c] == arena[c]; }
    }
    forall c | 0 <= c < |more| && more[c].Live()
      ensures ClauseSettled(more[c].literals, trail) && ClauseSettled(more[c].literals, [])
    {
      if c < |arena| { assert more[c] == arena[c]; }
    }
  }

  ghost function WithClause(watchers: Watchers, clause: CheckerClause, index: nat): Watchers
    requires |clause.literals| >= 2
  {
    var c := clause.literals;
    var first := watchers[c[0] := ListOf(watchers, c[0]) + [Watch(c[1], |c|, index)]];
    first[c[1] := ListOf(first, c[1]) + [Watch(c[0], |c|, index)]]
  }

  lemma AddLists(arena: Arena, watchers: Watchers, clause: CheckerClause)
    requires AllListsOk(arena, watchers) && AllListed(arena, watchers) && ClauseOk(clause) && clause.Live()
    ensures AllListsOk(arena + [clause], WithClause(watchers, clause, |arena|))
    ensures AllListed(arena + [clause], WithClause(watchers, clause, |arena|))
  {
    var more, after := arena + [clause], WithClause(watchers, clause, |arena|);
    forall l
      ensures ListOk(more, l, ListOf(after, l))
    {
      AddListOk(arena, watchers, clause, l);
    }
    forall i, l | 0 <= i < |more| && more[i].Live() && FirstTwo(more[i].literals, l)
      ensures Lists(ListOf(after, l), i)
    {
      AddListed(arena, watchers, clause, i, l);
    }
  }

  lemma ListWithClause(watchers: Watchers, clause: CheckerClause, index: nat, l: int)
    requires |clause.literals| >= 2 && clause.literals[0] != clause.literals[1]
    ensures var c := clause.literals;
            ListOf(WithClause(watchers, clause, index), l) ==
            if l == c[0] then ListOf(watchers, l) + [Watch(c[1], |c|, index)]
            else if l == c[1] then ListOf(watchers, l) + [Watch(c[0], |c|, index)]
            else ListOf(watchers, l)
  {
  }

  lemma AddListOk(arena: Arena, watchers: Watchers, clause: CheckerClause, l: int)
    requires AllListsOk(arena, watchers) && ClauseOk(clause) && clause.Live()
    ensures ListOk(arena + [clause], l, ListOf(WithClause(watchers, clause, |arena|), l))
  {
    var c, index := clause.literals, |arena|;
    assert ListOk(arena, l, ListOf(watchers, l));
    assert c[0] != c[1] && c[0] in c && c[1] in c;
    hide AllListsOk, ListOk;
    ListWithClause(watchers, clause, index, l);
    OldListOk(arena, clause, l, ListOf(watchers, l));
    if l == c[0] {
      NewEntryOk(arena, clause, l, ListOf(watchers, l), Watch(c[1], |c|, index));
    } else if l == c[1] {
      NewEntryOk(arena, clause, l, ListOf(watchers, l), Watch(c[0], |c|, index));
    }
  }

  lemma AddListed(arena: Arena, watchers: Watchers, clause: CheckerClause, i: nat, l: int)
    requires AllListed(arena, watchers) && ClauseOk(clause) && clause.Live() && i <= |arena|
    requires (arena + [clause])[i].Live() && FirstTwo((arena + [clause])[i].literals, l)
    ensures Lists(ListOf(WithClause(watchers, clause, |arena|), l), i)
  {
    var c, index := clause.literals, |arena|;
    assert c[0] != c[1];
    ListWithClause(watchers, clause, index, l);
    if i < |arena| {
      assert Lists(ListOf(watchers, l), i);
      hide AllListed, ClauseOk;
      if l == c[0] { MoreListed(ListOf(watchers, l), Watch(c[1], |c|, index), i); }
      if l == c[1] { MoreListed(ListOf(watchers, l), Watch(c[0], |c|, index), i); }
    } else if l == c[0] {
      LastListed(ListOf(watchers, l), Watch(c[1], |c|, index));
    } else {
      LastListed(ListOf(watchers, l), Watch(c[0], |c|, index));
    }
  }

  lemma OldListOk(arena: Arena, clause: CheckerClause, l: int, ws: seq<Watch>)
    requires ListOk(arena, l, ws)
    ensures ListOk(arena + [clause], l, ws)
  {
    forall j | 0 <= j < |ws| ensures WatchOk(arena + [clause], l, ws[j]) { assert WatchOk(arena, l, ws[j]); }
  }

  lemma NewEntryOk(arena: Arena, clause: CheckerClause, l: int, ws: seq<Watch>, w: Watch)
    requires ListOk(arena, l, ws) && ListOk(arena + [clause], l, ws) && WatchOk(arena + [clause], l, w) && w.clause == |arena|
    ensures ListOk(arena + [clause], l, ws + [w])
  {
    forall j | 0 <= j < |ws| ensures ws[j].clause < |arena| { assert WatchOk(arena, l, ws[j]); }
  }

  lemma LiteralsDifferent(c: Clause)
    requires DifferentVars(c) && ProperClause(c) && |c| >= 2
    ensures LiteralsOk(c)
  {
  }

  lemma SwapLiterals(c: Clause, i: nat, j: nat)
    requires LiteralsOk(c) && i < j < |c|
    ensures LiteralsOk(c[i := c[j]][j := c[i]]) && forall l :: l in c[i := c[j]][j := c[i]] <==> l in c
  {
    var d := c[i := c[j]][j := c[i]];
    assert forall k :: 0 <= k < |c| && k != i && k != j ==> d[k] == c[k];
    forall l | l in c ensures l in d {
      var k :| 0 <= k < |c| && c[k] == l;
      assert d[if k == i then j else if k == j then i else k] == l;
    }
    forall l | l in d ensures l in c {
      var k :| 0 <= k < |d| && d[k] == l;
      assert c[if k == i then j else if k == j then i else k] == l;
    }
  }

  lemma StillTwo(vals: map<int, int>, c: Clause, d: Clause, i: nat, j: nat)
    requires i < j < |c| && d == c[i := c[j]][j := c[i]]
    requires Val(vals, c[j]) == 0 && forall k :: i <= k < j ==> Val(vals, c[k]) != 0
    requires exists k, l :: 0 <= k < l < |c| && Val(vals, c[k]) == 0 && Val(vals, c[l]) == 0
    ensures exists k, l :: 0 <= k < l < |d| && Val(vals, d[k]) == 0 && Val(vals, d[l]) == 0
  {
    var k, l :| 0 <= k < l < |c| && Val(vals, c[k]) == 0 && Val(vals, c[l]) == 0;
    assert d[i] == c[j];
    if l != j {
      assert d[l] == c[l];
    } else {
      assert d[k] == c[k];
    }
  }

  lemma UnassignTrail(vals: map<int, int>, trail: seq<int>)
    requires TrailOk(vals, trail) && trail != []
    ensures var l := trail[|trail| - 1]; TrailOk(vals[l := 0][-l := 0], trail[..|trail| - 1])
  {
    var l, rest := trail[|trail| - 1], trail[..|trail| - 1];
    assert trail == rest + [l] && l in trail;
    NotBoth(trail, l);
    assert l !in rest && -l !in trail;
    forall m ensures Val(vals[l := 0][-l := 0], m) == TrailVal(rest, m) {
      assert Val(vals, m) == TrailVal(trail, m);
      UnassignOne(vals, rest, l, m);
    }
  }

  lemma UnassignOne(vals: map<int, int>, rest: seq<int>, l: int, m: int)
    requires l !in rest && -l !in rest + [l] && Val(vals, m) == TrailVal(rest + [l], m)
    ensures Val(vals[l := 0][-l := 0], m) == TrailVal(rest, m)
  {
    assert m in rest + [l] <==> m in rest || m == l;
    assert -m in rest + [l] <==> -m in rest || -m == l;
    assert -m == l ==> m == -l;
  }

  lemma AssumptionFollows(f: seq<Clause>, c: Clause, l: int)
    requires l in c
    ensures Follows(f, NegatedSet(c), -l)
  {
    assert -l in NegatedSet(c);
  }

  lemma AssignedFalse(c: Clause, trail: seq<int>, j: nat)
    requires j < |c| && DifferentVars(c) && ProperClause(c)
    ensures Falsified(trail + [-c[j]], c[j])
    ensures forall l :: Falsified(trail, l) ==> Falsified(trail + [-c[j]], l)
    ensures forall i :: j < i < |c| && c[i] !in trail ==> c[i] !in trail + [-c[j]]
  {
  }

  /** The negated literals of a clause. */
  function Negated(c: Clause): seq<int>
  {
    seq(|c|, i requires 0 <= i < |c| => -c[i])
  }

  function NegatedSet(c: Clause): set<int>
  {
    set l | l in c :: -l
  }

  lemma StillFalse(c: Clause, trail: seq<int>, trail': seq<int>)
    requires trail <= trail' && forall l :: l in c ==> Falsified(trail, l)
    ensures forall l :: l in c ==> Falsified(trail', l)
  {
    forall l | l in c ensures Falsified(trail', l) { assert Falsified(trail, l); }
  }

  /** The goal of a check: the current trail is the base, and the negated literals are given. */
  lemma Rebase(f: seq<Clause>, given: set<int>, vals: map<int, int>, trail: seq<int>, arena: Arena, watchers: Watchers)
    requires Steady(Goal(f, {}, []), vals, trail, arena, watchers) && Settled(arena, trail)
    ensures Steady(Goal(f, given, trail), vals, trail, arena, watchers)
  {
    hide TrailOk, Structure, Settled;
    forall l | l in trail ensures Follows(f, given, l) {
      assert Follows(f, {}, l);
    }
  }

  lemma Unrebase(goal: Goal, vals0: map<int, int>, arena0: Arena, watchers0: Watchers, valsFull: map<int, int>,
                 full: seq<int>, vals: map<int, int>, arena: Arena, watchers: Watchers)
    requires Steady(Goal(goal.f, {}, []), vals0, goal.base, arena0, watchers0)
    requires Steady(goal, valsFull, full, arena, watchers) && TrailOk(vals, goal.base)
    ensures Steady(Goal(goal.f, {}, []), vals, goal.base, arena, watchers) && Settled(arena, goal.base)
  {
    SteadyClauses(goal, valsFull, full, arena, watchers);
    hide TrailOk, Structure, Follows, Implies;
    forall c | 0 <= c < |arena| && arena[c].Live() ensures ClauseSettled(arena[c].literals, []) {
      assert ClauseOk(arena[c]);
    }
  }

  lemma StillPropagated(arena: Arena, base: seq<int>, trail: seq<int>)
    requires Settled(arena, base) && base <= trail
    ensures Propagated(arena, trail, base, 0, [])
  {
    forall c, w | 0 <= c < |arena| && arena[c].Live() && FirstTwo(arena[c].literals, w) && Falsified(base, w)
      ensures TrueIn(trail, arena[c].literals)
    {
      assert ClauseSettled(arena[c].literals, base);
      MoreTrue(base, trail, arena[c].literals);
    }
  }

  lemma ContradictsImplies(f: seq<Clause>, c: Clause)
    requires Contradicts(f, NegatedSet(c)) && ProperClause(c)
    ensures Implies(f, c)
  {
    forall s | CnfTrue(s, f) ensures ClauseTrue(s, c) {
      assert !HoldAll(s, NegatedSet(c));
      var g :| g in NegatedSet(c) && !LitTrue(s, g);
      LitNegation(s, -g);
      assert -g in c;
    }
  }

  /** A settled trail that falsifies the clause leaves nothing for plain unit propagation to refute. */
  lemma Irrefutable(arena0: Arena, arena: Arena, clauses: set<Clause>, start: seq<int>, vals: map<int, int>,
                    trail: seq<int>, simplified: Clause)
    requires SameArena(arena0, arena) && Settled(arena, trail) && TrailOk(vals, trail)
    requires forall c :: 0 <= c < |arena| ==> ClauseOk(arena[c])
    requires clauses == set c | 0 <= c < |arena0| && arena0[c].Live() :: arena0[c].literals
    requires exists base :: base <= trail && start == base + Negated(simplified)
    requires forall l :: l in simplified ==> Falsified(trail, l)
    ensures !Refutes(clauses, start)
  {
    forall d | d in clauses ensures Quiet(trail, d) {
      var c :| 0 <= c < |arena0| && arena0[c].Live() && arena0[c].literals == d;
      assert SameClause(arena0[c], arena[c]);
      SettledQuiet(arena, trail, c);
      QuietSame(trail, arena[c], arena0[c]);
    }
    var base :| base <= trail && start == base + Negated(simplified);
    forall l | l in start ensures l in trail {
      if l !in base {
        var i :| 0 <= i < |simplified| && Negated(simplified)[i] == l;
        assert simplified[i] in simplified;
      }
    }
    QuietIrrefutable(clauses, start, trail);
  }

  lemma QuietSame(trail: seq<int>, c: CheckerClause, d: CheckerClause)
    requires SameClause(d, c) && Quiet(trail, c.literals)
    ensures Quiet(trail, d.literals)
  {
    SameTrue(trail, d, c);
    if !TrueIn(trail, c.literals) {
      var i, j :| 0 <= i < j < |c.literals| && c.literals[i] != c.literals[j] &&
                  !Falsified(trail, c.literals[i]) && !Falsified(trail, c.literals[j]);
      assert c.literals[i] in d.literals && c.literals[j] in d.literals;
      var k :| 0 <= k < |d.literals| && d.literals[k] == c.literals[i];
      var l :| 0 <= l < |d.literals| && d.literals[l] == c.literals[j];
      assert k < l || l < k;
    }
  }

  lemma SameTable(fold: Fold, arena: Arena, arena': Arena, t: Buckets, garbage: seq<nat>)
    requires SameArena(arena, arena') && BucketsOk(fold, arena, t)
    requires forall c: nat :: c in garbage ==> c < |arena| && !arena[c].Live()
    ensures BucketsOk(fold, arena', t) && LiveIndices(arena') == LiveIndices(arena)
    ensures forall c: nat :: c in garbage ==> c < |arena'| && !arena'[c].Live()
  {
    SameBuckets(fold, arena, arena', t);
    CountSame(arena, arena');
    forall c | 0 <= c < |arena| ensures arena'[c].Live() == arena[c].Live() {
      assert SameClause(arena[c], arena'[c]);
    }
  }

  /** Every literal added to the trail comes from some clause. */
  ghost predicate GrowsMany(arena: Arena, trail: seq<int>, trail': seq<int>)
  {
    trail <= trail' && forall i :: |trail| <= i < |trail'| ==> InSome(arena, trail'[i])
  }

  lemma GrowsMore(arena: Arena, a: seq<int>, b: seq<int>, c: seq<int>)
    requires GrowsMany(arena, a, b) && Grows(arena, b, c)
    ensures GrowsMany(arena, a, c)
  {
  }

  lemma GrowsNothing(arena: Arena, a: seq<int>)
    ensures GrowsMany(arena, a, a)
  {
  }

  lemma GrowsJoin(arena: Arena, a: seq<int>, b: seq<int>, c: seq<int>)
    requires GrowsMany(arena, a, b) && GrowsMany(arena, b, c)
    ensures GrowsMany(arena, a, c) && a <= c
  {
  }

  lemma SameGrowsMany(arena: Arena, arena': Arena, trail: seq<int>, trail': seq<int>)
    requires SameArena(arena, arena') && GrowsMany(arena', trail, trail')
    ensures GrowsMany(arena, trail, trail')
  {
    forall i | |trail| <= i < |trail'| ensures InSome(arena, trail'[i]) { SameInSome(arena, arena', trail'[i]); }
  }

  ghost function Universe(arena: Arena): set<int>
  {
    set c, l | 0 <= c < |arena| && l in arena[c].literals :: l
  }

  /** The trail holds no literal twice, so it cannot outgrow the literals of the clauses. */
  lemma BoundedTrail(trail: seq<int>, arena: Arena, start: seq<int>)
    requires Distinct(trail) && GrowsMany(arena, start, trail)
    ensures |trail| <= |start| + |Universe(arena)|
  {
    var added := trail[|start|..];
    forall l | l in added ensures l in Universe(arena) {
      var i :| 0 <= i < |added| && added[i] == l;
      assert InSome(arena, trail[|start| + i]);
    }
    DistinctBound(added, Universe(arena));
  }

  lemma {:induction false} DistinctBound(s: seq<int>, u: set<int>)
    requires Distinct(s) && forall l :: l in s ==> l in u
    ensures |s| <= |u|
    decreases |s|
  {
    if s != [] {
      var rest, last := s[..|s| - 1], s[|s| - 1];
      forall l | l in rest ensures l in u - {last} {
        var i :| 0 <= i < |rest| && rest[i] == l;
        assert s[i] == l && l in s;
      }
      assert last in s;
      DistinctBound(rest, u - {last});
    }
  }

  lemma SteadyClauses(goal: Goal, vals: map<int, int>, trail: seq<int>, arena: Arena, watchers: Watchers)
    requires Steady(goal, vals, trail, arena, watchers)
    ensures forall c :: 0 <= c < |arena| ==> ClauseOk(arena[c])
    ensures TrailOk(vals, trail) && Distinct(trail)
  {
  }

  lemma StartVisiting(goal: Goal, vals: map<int, int>, trail: seq<int>, next: nat, arena: Arena, watchers: Watchers,
                      lit: int)
    requires Steady(goal, vals, trail, arena, watchers) && 0 < next <= |trail| && trail[next - 1] == -lit
    requires Propagated(arena, trail, trail[..next - 1], 0, [])
    ensures Steady(goal, vals, trail, arena, watchers[lit := ListOf(watchers, lit)])
    ensures Propagated(arena, trail, trail[..next], lit, ListOf(watchers, lit))
  {
    hide Steady, Propagated;
    SameWatchers(goal, vals, trail, arena, watchers, lit);
    WaitsNow(arena, trail, next, watchers, lit);
  }

  /** Writing a list back changes nothing. */
  lemma SameWatchers(goal: Goal, vals: map<int, int>, trail: seq<int>, arena: Arena, watchers: Watchers, lit: int)
    requires Steady(goal, vals, trail, arena, watchers)
    ensures Steady(goal, vals, trail, arena, watchers[lit := ListOf(watchers, lit)]) && AllListed(arena, watchers)
  {
    var same := watchers[lit := ListOf(watchers, lit)];
    assert forall l :: ListOf(same, l) == ListOf(watchers, l);
    hide TrailOk, Settled, Justified, ListOk, Lists;
    assert AllListsOk(arena, same) by {
      forall l ensures ListOk(arena, l, ListOf(same, l)) { assert ListOk(arena, l, ListOf(watchers, l)); }
    }
  }

  lemma WaitsNow(arena: Arena, trail: seq<int>, next: nat, watchers: Watchers, lit: int)
    requires AllListed(arena, watchers) && 0 < next <= |trail| && trail[next - 1] == -lit
    requires Propagated(arena, trail, trail[..next - 1], 0, [])
    ensures Propagated(arena, trail, trail[..next], lit, ListOf(watchers, lit))
  {
    hide Lists;
    var ws := ListOf(watchers, lit);
    assert trail[..next] == trail[..next - 1] + [-lit];
    forall c, w | 0 <= c < |arena| && arena[c].Live() && FirstTwo(arena[c].literals, w) && Falsified(trail[..next], w)
      ensures TrueIn(trail, arena[c].literals) || (w == lit && Lists(ws, c))
    {
      if !Falsified(trail[..next - 1], w) {
        assert w == lit;
        assert Lists(ListOf(watchers, w), c);
      } else {
        NoneListed(c);
      }
    }
  }

  lemma NoneListed(c: nat)
    ensures !Lists([], c)
  {
  }

  lemma NothingWaits(arena: Arena, trail: seq<int>, done: seq<int>, lit: int)
    requires Propagated(arena, trail, done, lit, [])
    ensures Propagated(arena, trail, done, 0, [])
  {
  }

  /** At most one literal, from some clause, was added to the trail. */
  ghost predicate Grows(arena: Arena, trail: seq<int>, trail': seq<int>)
  {
    trail' == trail || (|trail'| == |trail| + 1 && trail <= trail' && InSome(arena, trail'[|trail|]))
  }

  ghost predicate InSome(arena: Arena, l: int)
  {
    exists c :: 0 <= c < |arena| && l in arena[c].literals
  }

  lemma SameGrows(arena: Arena, arena': Arena, trail: seq<int>, trail': seq<int>)
    requires SameArena(arena, arena') && Grows(arena', trail, trail')
    ensures Grows(arena, trail, trail')
  {
    if trail' != trail { SameInSome(arena, arena', trail'[|trail|]); }
  }

  lemma SameInSome(arena: Arena, arena': Arena, l: int)
    requires SameArena(arena, arena')
    ensures InSome(arena, l) <==> InSome(arena', l)
  {
    forall c | 0 <= c < |arena| ensures SameClause(arena[c], arena'[c]) {}
    if InSome(arena, l) { var c :| 0 <= c < |arena| && l in arena[c].literals; assert l in arena'[c].literals; }
    if InSome(arena', l) { var c :| 0 <= c < |arena'| && l in arena'[c].literals; assert l in arena[c].literals; }
  }

  lemma SameArenaReflexive(arena: Arena)
    ensures SameArena(arena, arena)
  {
  }

  lemma NormalizedFacts(arena: Arena, arena': Arena, i: nat)
    requires SameArena(arena, arena') && i < |arena| && ClauseOk(arena[i])
    ensures |arena'| == |arena| && ClauseOk(arena'[i]) && arena'[i].Live() == arena[i].Live()
  {
    assert SameClause(arena[i], arena'[i]);
  }

  lemma DropSteady(goal: Goal, vals: map<int, int>, trail: seq<int>, arena: Arena, watchers: Watchers, lit: int,
                   kept: seq<Watch>, w: Watch, rest: seq<Watch>)
    requires Steady(goal, vals, trail, arena, watchers[lit := kept + [w] + rest])
    requires w.clause < |arena| && !arena[w.clause].Live()
    ensures Steady(goal, vals, trail, arena, watchers[lit := kept + rest])
  {
    hide Structure, TrailOk, Settled, Justified;
    DropStructure(arena, watchers, lit, kept, w, rest);
  }

  lemma BlitSteady(goal: Goal, vals: map<int, int>, trail: seq<int>, arena: Arena, watchers: Watchers, lit: int,
                   kept: seq<Watch>, w: Watch, rest: seq<Watch>, blit: int)
    requires Steady(goal, vals, trail, arena, watchers[lit := kept + [w] + rest])
    requires w.clause < |arena| && blit in arena[w.clause].literals && blit != lit
    ensures Steady(goal, vals, trail, arena, watchers[lit := kept + [w.(blit := blit)] + rest])
  {
    hide Structure, TrailOk, Settled, Justified;
    BlitStructure(arena, watchers, lit, kept, w, rest, blit);
  }

  lemma InArena(arena: Arena, lit: int, w: Watch)
    requires WatchOk(arena, lit, w)
    ensures w.clause < |arena|
  {
  }

  lemma ProperTrail(vals: map<int, int>, trail: seq<int>, l: int)
    requires TrailOk(vals, trail) && l in trail
    ensures l != 0
  {
  }
}
