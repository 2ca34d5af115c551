/** One attempt to eliminate a variable (cadical/src/elim.cpp, try_to_eliminate_variable). */
module VariableElimination {
  import opened Logic
  import opened Extension
  import opened Reconstruction
  import opened Database
  import opened Gates
  import opened EliminationState
  import opened Elimination
  import opened GateSearch

  lemma {:induction false} FlushedOk(clauses: seq<Clause>, os: seq<nat>, garbage: set<nat>, l: int)
    requires ListOk(clauses, os, l)
    ensures ListOk(clauses, Flushed(os, garbage), l)
    decreases |os|
  {
    if os != [] {
      var front, last := os[..|os| - 1], os[|os| - 1];
      assert ListOk(clauses, front, l);
      FlushedOk(clauses, front, garbage, l);
      var r := Flushed(front, garbage);
      forall k | 0 <= k < |r| ensures r[k] != last { assert r[k] in front; }
    }
  }

  lemma FlushKept(db: Db, occs: Occs, l: int, kept: seq<nat>)
    requires OccsOk(db, occs) && kept == Flushed(Occ(occs, l), db.garbage)
    ensures OccsOk(db, occs[l := kept])
  {
    var after := occs[l := kept];
    forall m
      ensures ListOk(db.clauses, Occ(after, m), m)
    {
      assert ListOk(db.clauses, Occ(occs, m), m);
      if m == l { FlushedOk(db.clauses, Occ(occs, l), db.garbage, l); }
    }
    forall i, m | Live(db, i) && m in db.clauses[i] && !Assigned(db.units, m)
      ensures i in Occ(after, m)
    {
      assert i in Occ(occs, m);
    }
  }

  lemma FlushedNone(os: seq<nat>, garbage: set<nat>)
    ensures Flushed(os[..0], garbage) == []
  {
  }

  lemma FlushedStep(os: seq<nat>, i: nat, garbage: set<nat>)
    requires i < |os|
    ensures Flushed(os[..i + 1], garbage) == Flushed(os[..i], garbage) + if os[i] in garbage then [] else [os[i]]
  {
    assert os[..i + 1][..i] == os[..i];
  }

  /** Removes garbage clauses from an occurrence list and counts what is left. */
  method FlushOccs(e: Eliminator, l: int) returns (res: nat)
    requires e.Valid()
    modifies e`occs
    ensures e.Valid() && Occ(e.occs, l) == Flushed(Occ(old(e.occs), l), e.garbage) && res == |Occ(e.occs, l)|
    ensures forall m :: m != l ==> Occ(e.occs, m) == Occ(old(e.occs), m)
  {
    ghost var db, was := e.State(), e.occs;
    hide OccsOk, DbOk, Flushed;
    var os := Occ(e.occs, l);
    FlushedNone(os, e.garbage);
    var kept: seq<nat> := [];
    res := 0;
    var i := 0;
    while i < |os|
      invariant 0 <= i <= |os| && kept == Flushed(os[..i], e.garbage) && res == |kept| && e.occs == was
    {
      FlushedStep(os, i, e.garbage);
      if os[i] !in e.garbage {
        kept := kept + [os[i]];
        res := res + 1;
      }
      i := i + 1;
    }
    assert os[..i] == os;
    FlushKept(db, was, l, kept);
    e.occs := e.occs[l := kept];
    assert e.State() == db;
  }

  lemma SoundSame(a: Db, b: Db)
    requires Same(a, b)
    ensures Sound(Contents(a), Contents(b), [])
  {
    forall s ensures Sat(s, Contents(a)) <==> Sat(s, Contents(b)) {
      ContentsModels(s, a);
      ContentsModels(s, b);
    }
  }

  lemma SoundAfterSame(a: Db, b: Db, c: Db, pushed: seq<Entry>)
    requires Same(a, b) && Sound(Contents(b), Contents(c), pushed)
    ensures Sound(Contents(a), Contents(c), pushed)
  {
    forall s ensures Sat(s, Contents(a)) <==> Sat(s, Contents(b)) {
      ContentsModels(s, a);
      ContentsModels(s, b);
    }
  }

  /** What one attempt went through: the pivot, the formula and gate when the search for a gate was over, the formula when
      resolvents were counted, and the pairs that were counted. */
  datatype Attempt = Attempt(pivot: int, found: Db, gate: set<nat>, adding: Db, counted: seq<(nat, nat)>)

  /** The live clauses with a literal, in the order of its list. */
  function LiveOccs(occs: Occs, garbage: set<nat>, l: int): seq<nat>
  {
    Flushed(Occ(occs, l), garbage)
  }

  /** Both phases occur, and one of them more often than allowed. */
  predicate TooOften(occs: Occs, garbage: set<nat>, x: int, occlim: int)
  {
    && LiveOccs(occs, garbage, x) != [] && LiveOccs(occs, garbage, -x) != []
    && (|LiveOccs(occs, garbage, x)| > occlim || |LiveOccs(occs, garbage, -x)| > occlim)
  }

  /** Why the resolvents were too many or too large: the counted pairs are different pairs that had to be resolved. */
  ghost predicate NoRoom(now: Db, t: Attempt, ps: seq<nat>, ns: seq<nat>, elimbound: int, clslim: int)
  {
    || (elimbound < 0 && (ps == [] || ns == []))
    || (AllAdded(t.found, t.gate != {}, t.gate, ps, ns, t.pivot, t.counted)
        && Exceeded(now, t.pivot, t.counted, |ps| + |ns| + elimbound, clslim))
  }

  /** Why there was room: all pairs that had to be resolved were counted, within the bound, and none was too large. */
  ghost predicate Room(t: Attempt, ps: seq<nat>, ns: seq<nat>, elimbound: int, clslim: int)
  {
    && (ps == [] || ns == [] ==> elimbound >= 0)
    && (|t.counted| == 0 || |t.counted| <= |ps| + |ns| + elimbound)
    && AllBounded(t.adding, t.gate != {}, t.gate, ps, ns, t.pivot, t.counted, clslim)
  }

  datatype Limits = Limits(occlim: int, xorlim: int, elimbound: int, clslim: int)

  /** The phase that occurs less often, the positive one if both occur as often. */
  function Pivot(occs: Occs, garbage: set<nat>, x: int): int
  {
    if |LiveOccs(occs, garbage, x)| > |LiveOccs(occs, garbage, -x)| then -x else x
  }

  /** Which answer an attempt gives, and why. The pivot is the phase that occurs less often. */
  ghost predicate Outcome(occs: Occs, before: Db, after: Db, x: int, t: Attempt, eliminated: bool, m: Limits)
  {
    var ps, ns := LiveOccs(occs, before.garbage, t.pivot), LiveOccs(occs, before.garbage, -t.pivot);
    && t.pivot == Pivot(occs, before.garbage, x) && |ps| <= |ns|
    && if TooOften(occs, before.garbage, x, m.occlim) then !eliminated && after == before
       else
         && Searched(before, t, ps, m.xorlim)
         && if eliminated then Room(t, ps, ns, m.elimbound, m.clslim)
            else after.unsat || Assigned(after.units, t.pivot) || NoRoom(after, t, ps, ns, m.elimbound, m.clslim)
  }

  /** Tries to eliminate a variable. It is left alone exactly if it occurs too often. Otherwise it is eliminated, unless the
      formula is refuted, the variable gets a value, or the resolvents are too many or too large. For every gate that is
      recognised, every limit, and whatever units and strengthened clauses turn up, the step is sound with the entries
      pushed on the extension stack if no clause of the gate was satisfied at the root when it was found, in particular if
      no live clause on the variable is satisfied to begin with. An eliminated variable occurs in no live clause, no more
      clauses are added than the bound allows, and satisfied clauses do not appear unless a unit was assigned while
      resolvents were added. */
  method TryToEliminate(e: Eliminator, variable: int, occlim: int, xorlim: int, elimbound: int, clslim: int)
    returns (eliminated: bool, ghost t: Attempt)
    requires e.Valid() && e.external.Valid() && variable != 0 && !e.unsat && !Assigned(e.units, variable)
    requires e.gates == [] && e.gate == {} && e.marked == [] && Marking(e.marks, {})
    modifies e, e.external`extension, e.external`entries
    ensures e.Valid() && e.external.Valid() && old(e.external.entries) <= e.external.entries
    ensures Outcome(old(e.occs), old(e.State()), e.State(), variable, t, eliminated, Limits(occlim, xorlim, elimbound, clslim))
    ensures TooOften(old(e.occs), old(e.garbage), variable, occlim) ==> e.external.entries == old(e.external.entries)
    ensures Same(old(e.State()), t.found) && forall i :: i in t.gate ==> Live(t.found, i) && Mentions(t.found.clauses[i], variable)
    ensures NoneSatisfied(t.found, t.gate) || CleanOn(old(e.State()), variable) ==>
              Sound(Contents(old(e.State())), Contents(e.State()), e.external.entries[|old(e.external.entries)|..])
    ensures eliminated && !e.unsat ==> forall i :: Live(e.State(), i) ==> !Mentions(e.clauses[i], variable)
    ensures t.adding.units <= e.units && (t.adding.units == e.units ==> Tidy(old(e.State()), e.State()))
    ensures |e.clauses| <= |t.adding.clauses| + Allowed(old(e.occs), old(e.garbage), variable, elimbound)
    ensures e.gates == [] && e.gate == {} && e.marked == [] && Marking(e.marks, {})
  {
    hide DbOk, OccsOk, Marking, Same, GatesFound, Sound, Contents, Mentions, Tidy, NoneSatisfied, CleanOn, Flushed, NoRoom, Room, Searched;
    ghost var before, start := e.State(), e.external.entries;
    eliminated := false;
    SameRefl(before);
    SoundSame(before, before);
    TidyRefl(before);
    assert e.external.entries[|start|..] == [];
    var pivot, pos, neg := ChoosePhase(e, variable);
    t := Attempt(pivot, before, {}, before, []);
    assert - -variable == variable;
    if pos > 0 && neg > occlim {
      return;
    }
    CleanOpposite(before, variable);
    eliminated, t := EliminatePhase(e, pivot, pos, xorlim, elimbound, clslim);
    MentionsOpposite(variable);
    e.gates := [];
    e.gate := {};
  }

  /** If both phases occur and the search for a gate ended with neither a gate nor a unit, there is none to be recognised. */
  ghost predicate Searched(before: Db, t: Attempt, ps: seq<nat>, xorlim: int)
  {
    ps != [] && t.gate == {} && !t.found.unsat && !Assigned(t.found.units, t.pivot) && t.found.units == before.units ==>
      NoGate(t.found, ps, t.pivot, xorlim)
  }

  /** The number of resolvents that may be added. */
  function Allowed(occs: Occs, garbage: set<nat>, x: int, elimbound: int): nat
  {
    var bound := |Flushed(Occ(occs, x), garbage)| + |Flushed(Occ(occs, -x), garbage)| + elimbound;
    if bound < 0 then 0 else bound
  }

  /** Flushes both lists and takes the phase with fewer occurrences as pivot. */
  method ChoosePhase(e: Eliminator, variable: int) returns (pivot: int, pos: nat, neg: nat)
    requires e.Valid() && variable != 0
    modifies e`occs
    ensures e.Valid() && (pivot == variable || pivot == -variable) && pos <= neg
    ensures pivot == Pivot(old(e.occs), e.garbage, variable)
    ensures pos == |Occ(e.occs, pivot)| && neg == |Occ(e.occs, -pivot)|
    ensures Occ(e.occs, variable) == Flushed(Occ(old(e.occs), variable), e.garbage)
    ensures Occ(e.occs, -variable) == Flushed(Occ(old(e.occs), -variable), e.garbage)
  {
    hide DbOk, OccsOk, Flushed;
    pivot := variable;
    pos := FlushOccs(e, pivot);
    neg := FlushOccs(e, -pivot);
    if pos > neg {
      assert - -variable == variable;
      pivot, pos, neg := -pivot, neg, pos;
    }
  }

  /** Searches for a gate if there are positive occurrences, and goes on unless that decided the variable. */
  method EliminatePhase(e: Eliminator, x: int, pos: nat, xorlim: int, elimbound: int, clslim: int)
    returns (eliminated: bool, ghost t: Attempt)
    requires e.Valid() && e.external.Valid() && x != 0 && !e.unsat && !Assigned(e.units, x) && pos == |Occ(e.occs, x)|
    requires e.gates == [] && e.gate == {} && e.marked == [] && Marking(e.marks, {})
    modifies e, e.external`extension, e.external`entries
    ensures e.Valid() && e.external.Valid() && old(e.external.entries) <= e.external.entries && t.pivot == x
    ensures || eliminated || e.unsat || Assigned(e.units, x)
            || NoRoom(e.State(), t, Occ(old(e.occs), x), Occ(old(e.occs), -x), elimbound, clslim)
    ensures eliminated ==> Room(t, Occ(old(e.occs), x), Occ(old(e.occs), -x), elimbound, clslim)
    ensures Same(old(e.State()), t.found) && forall i :: i in t.gate ==> Live(t.found, i) && Mentions(t.found.clauses[i], x)
    ensures Searched(old(e.State()), t, Occ(old(e.occs), x), xorlim)
    ensures NoneSatisfied(t.found, t.gate) || CleanOn(old(e.State()), x) ==>
              Sound(Contents(old(e.State())), Contents(e.State()), e.external.entries[|old(e.external.entries)|..])
    ensures eliminated && !e.unsat ==> forall i :: Live(e.State(), i) ==> !Mentions(e.clauses[i], x)
    ensures t.adding.units <= e.units && (t.adding.units == e.units ==> Tidy(old(e.State()), e.State()))
    ensures |e.clauses| <= |t.adding.clauses| + NotNegative(|Occ(old(e.occs), x)| + |Occ(old(e.occs), -x)| + elimbound)
    ensures e.marked == [] && Marking(e.marks, {})
  {
    hide DbOk, OccsOk, Marking, Same, GatesFound, Sound, Contents, Mentions, Tidy, NoneSatisfied, CleanOn, Defines, NoGate, NoRoom, Room;
    ghost var before, start := e.State(), e.external.entries;
    SameRefl(before);
    NoGates(before, x);
    eliminated := false;
    if pos > 0 {
      FindGateClauses(e, x, xorlim);
    }
    ghost var found, gate, adding := e.State(), e.gate, e.State();
    ghost var counted := [];
    SameTidy(before, found);
    GateLive(found, e.gates, gate, x);
    if !e.unsat && e.Val(x) == 0 {
      eliminated, adding, counted := ResolveAndRemove(e, x, elimbound, clslim, before);
    } else {
      SoundSame(before, e.State());
      assert e.external.entries[|start|..] == [];
    }
    t := Attempt(x, found, gate, adding, counted);
  }

  function NotNegative(n: int): nat
  {
    if n < 0 then 0 else n
  }

  lemma SameTidy(a: Db, b: Db)
    requires Same(a, b)
    ensures Tidy(a, b)
  {
  }

  lemma GateLive(db: Db, gates: seq<nat>, gate: set<nat>, x: int)
    requires GatesFound(db, gates, gate, x)
    ensures (gates == [] <==> gate == {}) && forall i :: i in gate ==> Live(db, i) && Mentions(db.clauses[i], x)
  {
    if gates != [] { assert gates[0] in gate; }
  }

  lemma MentionsOpposite(x: int)
    ensures forall c :: Mentions(c, x) <==> Mentions(c, -x)
  {
    assert Opposite(x) == -x && Opposite(-x) == x;
  }

  lemma CleanOpposite(db: Db, x: int)
    ensures CleanOn(db, x) <==> CleanOn(db, -x)
  {
    MentionsOpposite(x);
  }

  /** The second half, once the search for a gate is over. */
  method ResolveAndRemove(e: Eliminator, x: int, elimbound: int, clslim: int, ghost before: Db)
    returns (eliminated: bool, ghost adding: Db, ghost counted: seq<(nat, nat)>)
    requires e.Valid() && e.external.Valid() && x != 0 && !e.unsat && !Assigned(e.units, x) && Marking(e.marks, {})
    requires e.gates == [] <==> e.gate == {}
    requires Same(before, e.State()) && GatesFound(e.State(), e.gates, e.gate, x)
    modifies e`clauses, e`garbage, e`units, e`unsat, e`occs, e`marks, e.external`extension, e.external`entries
    ensures e.Valid() && e.external.Valid() && old(e.external.entries) <= e.external.entries && Marking(e.marks, {})
    ensures NoneSatisfied(old(e.State()), e.gate) || CleanOn(before, x) ==>
              Sound(Contents(before), Contents(e.State()), e.external.entries[|old(e.external.entries)|..])
    ensures eliminated && !e.unsat ==> forall i :: Live(e.State(), i) ==> !Mentions(e.clauses[i], x)
    ensures adding.units <= e.units && (adding.units == e.units ==> Tidy(before, e.State()))
    ensures |e.clauses| <= |adding.clauses| + NotNegative(|Occ(old(e.occs), x)| + |Occ(old(e.occs), -x)| + elimbound)
    ensures var t := Attempt(x, old(e.State()), e.gate, adding, counted);
            && (|| eliminated || e.unsat || Assigned(e.units, x)
                || NoRoom(e.State(), t, Occ(old(e.occs), x), Occ(old(e.occs), -x), elimbound, clslim))
            && (eliminated ==> Room(t, Occ(old(e.occs), x), Occ(old(e.occs), -x), elimbound, clslim))
  {
    hide DbOk, OccsOk, Marking, Sound, Defines, Evolves, GatesFound, Same, GateReady, Tidy, NoneSatisfied, CleanOn, AllBounded, AllAdded, Exceeded;
    ghost var found, start := e.State(), e.external.entries;
    ghost var ready := NoneSatisfied(found, e.gate) || CleanOn(before, x);
    if ready {
      FoundReady(before, found, e.gates, e.gate, x);
    }
    SameTidy(before, found);
    eliminated, counted := ResolventsAreBounded(e, x, elimbound, clslim);
    adding := e.State();
    StillThere(found, adding, x);
    TidyTrans(before, found, adding);
    if eliminated {
      ghost var added := EliminatePivot(e, x, found);
      AddedWithin(adding, e.gates != [], e.gate, Occ(old(e.occs), x), Occ(old(e.occs), -x), x, added, counted, clslim);
      if adding.units == e.units {
        TidyTrans(before, adding, e.State());
      }
    } else {
      SoundEvolved(found, e.State(), x);
      assert e.external.entries[|start|..] == [];
    }
    if ready {
      SoundAfterSame(before, found, e.State(), e.external.entries[|start|..]);
    }
  }

  lemma FoundReady(a: Db, b: Db, gates: seq<nat>, gate: set<nat>, x: int)
    requires Same(a, b) && !b.unsat && GatesFound(b, gates, gate, x) && (NoneSatisfied(b, gate) || CleanOn(a, x))
    ensures GateReady(b, gates, gate, x)
  {
    if CleanOn(a, x) {
      forall i | i in gate ensures !Satisfied(b.clauses[i], b.units) {
        assert Live(b, i) && Mentions(b.clauses[i], x);
      }
    }
  }

  // ----- A round of attempts -------------------------------------------------------------------------

  /** One attempt of a round, with the formula and lists before and after. */
  datatype Turn = Turn(occs: Occs, before: Db, after: Db, t: Attempt, eliminated: bool)

  /** The turns of the first variables follow each other. A variable that has a value is skipped, and every other one has
      the outcome of an attempt. */
  ghost predicate Turns(variables: seq<int>, log: seq<Turn>, first: Db, last: Db, m: Limits)
  {
    && |log| <= |variables| && (if log == [] then last == first else log[0].before == first && log[|log| - 1].after == last)
    && (forall k :: 0 < k < |log| ==> log[k].before == log[k - 1].after)
    && forall k :: 0 <= k < |log| ==> TurnOk(variables[k], log[k], m)
  }

  ghost predicate TurnOk(v: int, turn: Turn, m: Limits)
  {
    if Assigned(turn.before.units, v) then turn.after == turn.before
    else Outcome(turn.occs, turn.before, turn.after, v, turn.t, turn.eliminated, m)
  }

  lemma TurnsAdd(variables: seq<int>, log: seq<Turn>, first: Db, last: Db, m: Limits, turn: Turn)
    requires Turns(variables, log, first, last, m) && |log| < |variables| && turn.before == last && TurnOk(variables[|log|], turn, m)
    ensures Turns(variables, log + [turn], first, turn.after, m)
  {
    hide TurnOk;
  }

  /** Tries variables one after the other, until the formula is refuted. The whole round is sound if no attempt found a gate with a clause satisfied at
      the root. That holds if no live clause is satisfied to begin with and no attempt assigned a unit while it added
      resolvents. */
  method EliminateRound(e: Eliminator, variables: seq<int>, occlim: int, xorlim: int, elimbound: int, clslim: int)
    returns (ghost safe: bool, ghost quiet: bool, ghost log: seq<Turn>)
    requires e.Valid() && e.external.Valid() && forall k :: 0 <= k < |variables| ==> variables[k] != 0
    requires e.gates == [] && e.gate == {} && e.marked == [] && Marking(e.marks, {})
    modifies e, e.external`extension, e.external`entries
    ensures e.Valid() && e.external.Valid() && old(e.external.entries) <= e.external.entries
    ensures safe ==> Sound(Contents(old(e.State())), Contents(e.State()), e.external.entries[|old(e.external.entries)|..])
    ensures quiet ==> Tidy(old(e.State()), e.State())
    ensures Clean(old(e.State())) && quiet ==> safe
    ensures Turns(variables, log, old(e.State()), e.State(), Limits(occlim, xorlim, elimbound, clslim))
    ensures |log| == |variables| || e.unsat
  {
    hide Turns, TurnOk, Outcome, DbOk, OccsOk, Marking, Same, Sound, Contents, Tidy, NoneSatisfied, CleanOn, Mentions, Clean;
    ghost var before, start := e.State(), e.external.entries;
    SameRefl(before);
    SoundSame(before, before);
    TidyRefl(before);
    assert e.external.entries[|start|..] == [];
    ghost var m := Limits(occlim, xorlim, elimbound, clslim);
    safe, quiet, log := true, true, [];
    assert Turns(variables, log, before, before, m) by { NoTurns(variables, before, m); }
    var k := 0;
    while k < |variables| && !e.unsat
      invariant 0 <= k <= |variables| && e.Valid() && e.external.Valid() && start <= e.external.entries
      invariant e.gates == [] && e.gate == {} && e.marked == [] && Marking(e.marks, {})
      invariant safe ==> Sound(Contents(before), Contents(e.State()), e.external.entries[|start|..])
      invariant quiet ==> Tidy(before, e.State())
      invariant Clean(before) && quiet ==> safe
      invariant |log| == k && Turns(variables, log, before, e.State(), m)
    {
      var v := variables[k];
      ghost var occs, was := e.occs, e.State();
      ghost var turn := Turn(occs, was, was, Attempt(v, was, {}, was, []), false);
      if e.Val(v) == 0 {
        ghost var middle, entries := e.State(), e.external.entries;
        var eliminated;
        ghost var t;
        eliminated, t := TryToEliminate(e, v, occlim, xorlim, elimbound, clslim);
        ghost var sound := NoneSatisfied(t.found, t.gate) || CleanOn(middle, v);
        CleanNow(before, middle, v);
        if safe && sound {
          SoundTrans(Contents(before), Contents(middle), Contents(e.State()), entries[|start|..], e.external.entries[|entries|..]);
          assert e.external.entries[|start|..] == entries[|start|..] + e.external.entries[|entries|..];
        }
        if quiet && t.adding.units == e.units {
          TidyTrans(before, middle, e.State());
        }
        safe, quiet := safe && sound, quiet && t.adding.units == e.units;
        turn := Turn(occs, was, e.State(), t, eliminated);
        Tried(v, turn, m);
      } else {
        Skipped(v, turn, m);
      }
      TurnsAdd(variables, log, before, was, m, turn);
      log := log + [turn];
      k := k + 1;
    }
  }

  lemma NoTurns(variables: seq<int>, db: Db, m: Limits)
    ensures Turns(variables, [], db, db, m)
  {
  }

  lemma Tried(v: int, turn: Turn, m: Limits)
    requires Outcome(turn.occs, turn.before, turn.after, v, turn.t, turn.eliminated, m) && !Assigned(turn.before.units, v)
    ensures TurnOk(v, turn, m)
  {
  }

  lemma Skipped(v: int, turn: Turn, m: Limits)
    requires turn.after == turn.before && Assigned(turn.before.units, v)
    ensures TurnOk(v, turn, m)
  {
  }

  lemma CleanNow(a: Db, b: Db, x: int)
    ensures Clean(a) && Tidy(a, b) && !b.unsat ==> CleanOn(b, x)
  {
  }

  // ----- Why satisfied clauses matter ----------------------------------------------------------------

  /** Ten clauses without model, four of which look like an if-then-else gate for variable 1 once a literal 9 of the first
      one is ignored, and six clauses on variable 8. */
  function Examples(): seq<Clause>
  {
    [[1, 2, 3, 9], [1, -2, 4], [-1, 2, -3], [-1, -2, -4], [1, 5], [-1, 6], [-5, 7], [-5, -7], [-6, 7], [-6, -7],
     [8, 10, 9], [-8, 11, 9], [8, -10, 12], [-8, -10, 12], [8, -11, 12], [-8, -11, 12]]
  }

  /** The start: no clause is satisfied at the root. Variable 8 is tried first and then variable 1; the others are frozen
      or not scheduled, 9 among them, which is pure. */
  function Start(): Db
  {
    Db(Examples(), {}, {-12}, false)
  }

  /** Counting the resolvents on 8 gave the units -10 and -11, which were propagated. */
  function Counted(): Db
  {
    Db(Examples(), {12, 13, 14, 15}, {-12, -10, -11}, false)
  }

  /** Adding the resolvents on 8 gave the unit 9, which was not propagated. */
  function Unpropagated(): Db
  {
    Counted().(units := Counted().units + {9})
  }

  /** The clauses on 8 were removed. */
  function Unclean(): Db
  {
    Without(Unpropagated(), [10, 12, 14], [11, 13, 15])
  }

  /** The resolvents of gate against other clauses on 1 were added; the satisfied clause was found and removed. */
  function Added(): Db
  {
    Db(Examples() + [[-2, 4, 6], [5, 2, -3], [5, -2, -4]], Unclean().garbage + {0}, Unclean().units, false)
  }

  function Eliminated(): Db
  {
    Without(Added(), [0, 1, 4], [2, 3, 5])
  }

  lemma ExamplesAt()
    ensures |Examples()| == 16
    ensures Examples()[0] == [1, 2, 3, 9] && Examples()[1] == [1, -2, 4] && Examples()[2] == [-1, 2, -3] && Examples()[3] == [-1, -2, -4]
    ensures Examples()[4] == [1, 5] && Examples()[5] == [-1, 6] && Examples()[6] == [-5, 7] && Examples()[7] == [-5, -7]
    ensures Examples()[8] == [-6, 7] && Examples()[9] == [-6, -7] && Examples()[10] == [8, 10, 9] && Examples()[11] == [-8, 11, 9]
    ensures Examples()[12] == [8, -10, 12] && Examples()[13] == [-8, -10, 12]
    ensures Examples()[14] == [8, -11, 12] && Examples()[15] == [-8, -11, 12]
  {
  }

  lemma SixClauses(s: Assignment)
    ensures !(ClauseTrue(s, [1, 5]) && ClauseTrue(s, [-1, 6]) && ClauseTrue(s, [-5, 7]) && ClauseTrue(s, [-5, -7]) &&
              ClauseTrue(s, [-6, 7]) && ClauseTrue(s, [-6, -7]))
  {
    PairTrue(s, 1, 5);
    PairTrue(s, -1, 6);
    PairTrue(s, -5, 7);
    PairTrue(s, -5, -7);
    PairTrue(s, -6, 7);
    PairTrue(s, -6, -7);
  }

  /** Clauses 4 to 9 have no model. */
  lemma NoModel(db: Db)
    requires Examples() <= db.clauses && forall i :: 4 <= i < 10 ==> i !in db.garbage
    ensures forall s :: !Models(s, db)
  {
    ExamplesAt();
    hide Examples;
    assert |db.clauses| >= 16 && forall i :: 0 <= i < 16 ==> db.clauses[i] == Examples()[i];
    assert Live(db, 4) && Live(db, 5) && Live(db, 6) && Live(db, 7) && Live(db, 8) && Live(db, 9);
    hide ClauseTrue;
    forall s ensures !Models(s, db) { SixClauses(s); }
  }

  lemma PairOk(a: int, b: int)
    requires a != 0 && b != 0 && Abs(a) != Abs(b)
    ensures ClauseOk([a, b])
  {
  }

  lemma TripleOk(a: int, b: int, c: int)
    requires a != 0 && b != 0 && c != 0 && Abs(a) != Abs(b) && Abs(a) != Abs(c) && Abs(b) != Abs(c)
    ensures ClauseOk([a, b, c])
  {
  }

  lemma ExamplesOk()
    ensures forall i :: 0 <= i < |Examples()| ==> ClauseOk(Examples()[i])
  {
    ExamplesAt();
    assert ClauseOk([1, 2, 3, 9]);
    hide ClauseOk, Examples;
    TripleOk(1, -2, 4);
    TripleOk(-1, 2, -3);
    TripleOk(-1, -2, -4);
    PairOk(1, 5);
    PairOk(-1, 6);
    PairOk(-5, 7);
    PairOk(-5, -7);
    PairOk(-6, 7);
    PairOk(-6, -7);
    TripleOk(8, 10, 9);
    TripleOk(-8, 11, 9);
    TripleOk(8, -10, 12);
    TripleOk(-8, -10, 12);
    TripleOk(8, -11, 12);
    TripleOk(-8, -11, 12);
  }

  /** The start is a proper database without satisfied clauses. */
  lemma StartClean()
    ensures DbOk(Start()) && Clean(Start())
  {
    ExamplesOk();
    ExamplesAt();
    assert UnitsOk({-12});
    hide ClauseOk, Examples;
    forall i | Live(Start(), i) ensures !Satisfied(Start().clauses[i], Start().units) {
      NotIn(i);
    }
  }

  lemma NotIn(i: nat)
    requires i < 16
    ensures i < |Examples()| && -12 !in Examples()[i]
  {
    ExamplesAt();
  }

  // ----- The first attempt, on variable 8 ------------------------------------------------------------

  /** What holds after the resolvents on 8 were counted: the state that the count may end in, with all pairs that are left
      counted, one of which has the unit resolvent 9. */
  lemma CountedReached()
    ensures DbOk(Counted()) && Evolves(Start(), Counted(), 8) && Tidy(Start(), Counted())
    ensures AllBounded(Counted(), false, {}, [10, 12, 14], [11, 13, 15], 8, [(10, 11), (10, 15), (12, 11)], 100)
    ensures Clashing(Counted(), 10, 11, 8) && Res(Counted().units, Counted().clauses[10], Counted().clauses[11], 8) == {9}
  {
    CountedOk();
    CountedEvolves();
    CountedTidy();
    CountedPairs();
  }

  lemma CountedOk()
    ensures DbOk(Counted()) && Clashing(Counted(), 10, 11, 8)
    ensures Res(Counted().units, Counted().clauses[10], Counted().clauses[11], 8) == {9}
  {
    ExamplesOk();
    ExamplesAt();
    assert UnitsOk({-12, -10, -11});
    hide ClauseOk, Examples;
    assert 8 in [8, 10, 9] && -8 in [-8, 11, 9];
    assert Actual([8, 10, 9], {-12, -10, -11}) == {8, 9};
    assert Actual([-8, 11, 9], {-12, -10, -11}) == {-8, 9};
  }

  lemma CountedEvolves()
    ensures Evolves(Start(), Counted(), 8)
  {
    NoModel(Start());
    NoModel(Counted());
    CountedCovered();
    hide Examples, Models, Covered;
  }

  lemma CountedCovered()
    ensures Covered(Start(), Counted(), 8)
  {
    ExamplesAt();
    hide Examples, ClauseTrue, TrueAway;
    forall s, i | Agrees(s, Counted().units) && 12 <= i < 16
      ensures TrueAway(s, Start().clauses[i], 8)
    {
      AwayFrom(s, i);
    }
  }

  lemma AwayFrom(s: Assignment, i: nat)
    requires Agrees(s, {-12, -10, -11}) && 12 <= i < 16
    ensures i < |Examples()| && TrueAway(s, Examples()[i], 8)
  {
    ExamplesAt();
    var c, l := Examples()[i], if i == 12 || i == 13 then -10 else -11;
    hide Examples;
    assert l in {-12, -10, -11} && LitTrue(s, l) && l in c;
  }

  lemma CountedTidy()
    ensures Tidy(Start(), Counted())
  {
    var b := Counted();
    forall i | Live(b, i) ensures !Satisfied(b.clauses[i], b.units) {
      NoneFalse(i);
    }
  }

  lemma NoneFalse(i: nat)
    requires i < 12
    ensures i < |Examples()| && -12 !in Examples()[i] && -10 !in Examples()[i] && -11 !in Examples()[i]
  {
    ExamplesAt();
  }

  lemma CountedPairs()
    ensures AllBounded(Counted(), false, {}, [10, 12, 14], [11, 13, 15], 8, [(10, 11), (10, 15), (12, 11)], 100)
  {
    var db, ps, ns, counted := Counted(), [10, 12, 14], [11, 13, 15], [(10, 11), (10, 15), (12, 11)];
    CountedOk();
    ExamplesAt();
    assert (10, 11) in counted by { assert counted[0] == (10, 11); }
    hide Examples, DbOk, Res;
    forall a, b | 0 <= a < 3 && 0 <= b < 3
      ensures PairBounded(db, false, {}, ps[a], ns[b], 8, counted, 100)
    {
      if a == 0 && b == 0 {
        assert |Res(db.units, db.clauses[10], db.clauses[11], 8)| == 1;
      } else {
        assert ps[a] in db.garbage || ns[b] in db.garbage;
      }
    }
  }

  /** The unit of the only pair left makes a state in which all that adding resolvents promises holds and in which a clause
      not on 8 is satisfied. */
  lemma UnpropagatedReached()
    ensures Evolves(Counted(), Unpropagated(), 8)
    ensures AllDone(Unpropagated(), false, {}, [10, 12, 14], [11, 13, 15], 8)
    ensures Clean(Counted()) && Live(Unpropagated(), 0) && Satisfied(Unpropagated().clauses[0], Unpropagated().units)
  {
    CountedTidy();
    StartClean();
    NoModel(Counted());
    NoModel(Unpropagated());
    ExamplesAt();
    UnpropagatedDone();
    hide Examples, Models, AllDone, DbOk;
    assert 9 in [1, 2, 3, 9] && 9 in Unpropagated().units;
  }

  lemma UnpropagatedDone()
    ensures AllDone(Unpropagated(), false, {}, [10, 12, 14], [11, 13, 15], 8)
  {
    var db, ps, ns := Unpropagated(), [10, 12, 14], [11, 13, 15];
    ExamplesAt();
    hide Examples, ResolventTrue;
    forall a, b | 0 <= a < 3 && 0 <= b < 3
      ensures PairDone(db, false, {}, ps[a], ns[b], 8)
    {
      if a == 0 && b == 0 {
        forall s | Rest(s, db, 8) ensures ResolventTrue(s, db.clauses[10], db.clauses[11], 8) {
          assert 9 in db.units && LitTrue(s, 9);
          NineResolvent(s);
        }
      } else {
        assert ps[a] in db.garbage || ns[b] in db.garbage;
      }
    }
  }

  lemma NineResolvent(s: Assignment)
    requires LitTrue(s, 9)
    ensures ResolventTrue(s, [8, 10, 9], [-8, 11, 9], 8)
  {
    assert 9 in [8, 10, 9] && TrueBut(s, [8, 10, 9], 8);
  }

  // ----- The second attempt, on variable 1 -----------------------------------------------------------

  /** The first attempt leaves a satisfied clause behind. The first four clauses are recognised as a gate for 1 but do not
      define it. */
  lemma UncleanShape()
    ensures DbOk(Unclean()) && !CleanOn(Unclean(), 1)
    ensures IteShape(Unclean(), 0, 1, 2, 3, 1, 2, 3, 4) && !Defines(Unclean(), {0, 1, 2, 3}, 1)
  {
    var db := Unclean();
    UncleanUnits();
    UncleanOk();
    ExamplesAt();
    hide ClauseOk, DbOk, Defines, Examples, Unclean, Actual;
    UncleanActual();
    assert Satisfied(db.clauses[0], db.units) by { assert 9 in [1, 2, 3, 9] && 9 in db.units; }
    assert Live(db, 0) && Mentions(db.clauses[0], 1) && 0 in {0, 1, 2, 3};
    IteDefines(db, 0, 1, 2, 3, 1, 2, 3, 4);
  }

  lemma UncleanOk()
    ensures DbOk(Unclean())
  {
    UncleanUnits();
    ExamplesOk();
    ExamplesAt();
    hide ClauseOk, Examples, Unclean;
    assert UnitsOk({-12, -10, -11, 9});
  }

  lemma UncleanActual()
    ensures Actual([1, 2, 3, 9], {-12, -10, -11, 9}) == {1, 2, 3}
    ensures Actual([1, -2, 4], {-12, -10, -11, 9}) == {1, -2, 4}
    ensures Actual([-1, 2, -3], {-12, -10, -11, 9}) == {-1, 2, -3}
    ensures Actual([-1, -2, -4], {-12, -10, -11, 9}) == {-1, -2, -4}
  {
  }

  lemma UncleanUnits()
    ensures Unclean().clauses == Examples() && Unclean().units == {-12, -10, -11, 9} && !Unclean().unsat
    ensures Unclean().garbage == {10, 11, 12, 13, 14, 15}
  {
    ThreeIndices(10, 12, 14);
    ThreeIndices(11, 13, 15);
    hide Examples, Indices;
  }

  lemma ThreeIndices(a: nat, b: nat, c: nat)
    ensures Indices([a, b, c]) == {a, b, c}
  {
    var os := [a, b, c];
    assert os[0] == a && os[1] == b && os[2] == c;
  }

  /** All that adding resolvents promises holds of the state reached, and removing the clauses on 1 from it turns a formula
      without model into one with a model, whatever is pushed. */
  lemma UncleanGateUnsound(pushed: seq<Entry>)
    ensures Evolves(Unclean(), Added(), 1) && AllDone(Added(), true, {0, 1, 2, 3}, [0, 1, 4], [2, 3, 5], 1)
    ensures !Satisfiable(Contents(Start())) && !Satisfiable(Contents(Unclean())) && Satisfiable(Contents(Eliminated()))
    ensures !Sound(Contents(Unclean()), Contents(Eliminated()), pushed)
  {
    UncleanUnits();
    AddedEvolves();
    AddedDone1();
    EliminatedModel();
    NoModel(Start());
    NoModel(Unclean());
    forall s ensures !Sat(s, Contents(Start())) && !Sat(s, Contents(Unclean())) {
      ContentsModels(s, Start());
      ContentsModels(s, Unclean());
    }
    hide Contents, AllDone, Evolves;
    assert Sat(iset{9}, Contents(Eliminated()));
  }

  lemma AddedAt()
    ensures Examples() <= Added().clauses && |Added().clauses| == 19 && Added().units == {-12, -10, -11, 9} && !Added().unsat
    ensures Added().clauses[16] == [-2, 4, 6] && Added().clauses[17] == [5, 2, -3] && Added().clauses[18] == [5, -2, -4]
    ensures Added().garbage == {0, 10, 11, 12, 13, 14, 15}
  {
    UncleanUnits();
    ExamplesAt();
    hide Examples, Unclean;
  }

  lemma AddedEvolves()
    ensures Evolves(Unclean(), Added(), 1)
  {
    var a, b := Unclean(), Added();
    UncleanUnits();
    AddedAt();
    NoModel(a);
    NoModel(b);
    ExamplesAt();
    hide Examples, Models, Unclean, Added, Covered;
    AddedCovered();
    forall i | |a.clauses| <= i < |b.clauses| ensures !Mentions(b.clauses[i], 1) {
      assert i == 16 || i == 17 || i == 18;
      assert Opposite(1) == -1;
    }
  }

  lemma AddedCovered()
    ensures Unclean().clauses <= Added().clauses && Covered(Unclean(), Added(), 1)
  {
    var a, b := Unclean(), Added();
    UncleanUnits();
    AddedAt();
    ExamplesAt();
    hide Examples, Unclean, Added, TrueAway, ClauseTrue;
    forall s, i | Rest(s, b, 1) && Live(a, i) && i in b.garbage
      ensures TrueAway(s, a.clauses[i], 1)
    {
      assert i == 0 && 9 in b.units && LitTrue(s, 9);
      NineAway(s);
    }
  }

  lemma NineAway(s: Assignment)
    requires LitTrue(s, 9)
    ensures TrueAway(s, [1, 2, 3, 9], 1)
  {
    assert 9 in [1, 2, 3, 9];
  }

  /** The three resolvents that were added. */
  lemma ResolventHolds(s: Assignment, c: Clause, d: Clause, r: Clause)
    requires ClauseTrue(s, r) && forall l :: l in r ==> (l in c && l != 1) || (l in d && l != -1)
    ensures ResolventTrue(s, c, d, 1)
  {
    var l :| l in r && LitTrue(s, l);
    if l in c && l != 1 { assert TrueBut(s, c, 1); } else { assert TrueBut(s, d, -1); }
  }

  lemma AddedDone1()
    ensures AllDone(Added(), true, {0, 1, 2, 3}, [0, 1, 4], [2, 3, 5], 1)
  {
    var db, ps, ns := Added(), [0, 1, 4], [2, 3, 5];
    AddedAt();
    ExamplesAt();
    assert forall i :: 0 <= i < 16 ==> db.clauses[i] == Examples()[i];
    hide Examples, Added, ResolventTrue;
    forall a, b | 0 <= a < 3 && 0 <= b < 3
      ensures PairDone(db, true, {0, 1, 2, 3}, ps[a], ns[b], 1)
    {
      var i, j := ps[a], ns[b];
      if Live(db, i) && Live(db, j) && Resolvable(true, {0, 1, 2, 3}, i, j) {
        var k := if i == 1 then 16 else if j == 2 then 17 else 18;
        assert Live(db, k) && !Mentions(db.clauses[k], 1) by { assert Opposite(1) == -1; }
        forall s | Rest(s, db, 1) ensures ResolventTrue(s, db.clauses[i], db.clauses[j], 1) {
          ResolventHolds(s, db.clauses[i], db.clauses[j], db.clauses[k]);
        }
      }
    }
  }

  lemma EliminatedAt()
    ensures Eliminated().clauses == Added().clauses && Eliminated().units == {-12, -10, -11, 9} && !Eliminated().unsat
    ensures Eliminated().garbage == {0, 1, 2, 3, 4, 5, 10, 11, 12, 13, 14, 15}
  {
    AddedAt();
    ThreeIndices(0, 1, 4);
    ThreeIndices(2, 3, 5);
    hide Examples, Added, Indices;
  }

  lemma EliminatedHolds(i: nat)
    requires 6 <= i < 10 || 16 <= i < 19
    ensures |Added().clauses| == 19 && ClauseTrue(iset{9}, Added().clauses[i])
  {
    AddedAt();
    ExamplesAt();
    var l := if i == 6 || i == 7 then -5 else if i == 8 || i == 9 then -6 else if i == 17 then -3 else -2;
    assert i < 16 ==> Added().clauses[i] == Examples()[i];
    hide Examples, Added;
    assert l in Added().clauses[i] && LitTrue(iset{9}, l);
  }

  lemma EliminatedModel()
    ensures Sat(iset{9}, Contents(Eliminated()))
  {
    var s, db := iset{9}, Eliminated();
    AddedAt();
    EliminatedAt();
    hide Examples, Added, Eliminated, ClauseTrue;
    forall i | Live(db, i) ensures ClauseTrue(s, db.clauses[i]) { EliminatedHolds(i); }
    assert Agrees(s, db.units);
    ContentsModels(s, db);
  }
}
