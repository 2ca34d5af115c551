/** Blocked clause elimination (cadical/src/block.cpp): the test whether a clause is blocked, with its two move-to-front
    schemes that work in place, and the removal of blocked clauses. */
module Block {
  import opened Logic
  import opened Extension
  import opened Reconstruction
  import opened Database
  import opened EliminationState

  // ----- Moving elements in place --------------------------------------------------------------------

  /** The sequence while position k is visited: the elements before k one position to the right, and a gap in front. */
  function Shifted<T>(s: seq<T>, k: nat, gap: T): seq<T>
    requires k <= |s|
  {
    if k == 0 then s else [gap] + s[..k - 1] + s[k..]
  }

  function Previous<T>(s: seq<T>, k: nat, gap: T): T
    requires k <= |s|
  {
    if k == 0 then gap else s[k - 1]
  }

  /** The element at position k moved to the front. */
  function Front<T>(s: seq<T>, k: nat): seq<T>
    requires k < |s|
  {
    [s[k]] + s[..k] + s[k + 1..]
  }

  lemma ShiftStep<T>(s: seq<T>, k: nat, gap: T)
    requires k < |s|
    ensures |Shifted(s, k, gap)| == |s| && Shifted(s, k, gap)[k] == s[k]
    ensures Shifted(s, k, gap)[k := Previous(s, k, gap)] == Shifted(s, k + 1, gap)
    ensures Shifted(s, k + 1, gap)[0 := s[k]] == Front(s, k)
    ensures Shifted(s, k + 1, gap)[k := s[k]] == Shifted(s, k, gap)
    ensures Shifted(s, k + 1, gap)[k] == Previous(s, k, gap)
  {
  }

  lemma FrontSame<T>(s: seq<T>, k: nat)
    requires k < |s|
    ensures multiset(Front(s, k)) == multiset(s)
  {
    assert s == s[..k] + [s[k]] + s[k + 1..];
  }

  // ----- The test ------------------------------------------------------------------------------------

  /** Some literal of d other than -lit is the negation of a marked one. */
  ghost predicate Clashes(d: Clause, marked: set<int>, lit: int)
  {
    exists m :: m in d && m != Opposite(lit) && Opposite(m) in marked
  }

  predicate ClashAt(d: Clause, marked: set<int>, lit: int, k: int)
  {
    0 <= k < |d| && d[k] != Opposite(lit) && Opposite(d[k]) in marked
  }

  predicate FirstClash(d: Clause, marked: set<int>, lit: int, k: int)
  {
    ClashAt(d, marked, lit, k) && forall j :: 0 <= j < k ==> !ClashAt(d, marked, lit, j)
  }

  /** The clauses after the first clashing literal of one of them was moved to its front. */
  ghost function Matched(cs: seq<Clause>, i: nat, marked: set<int>, lit: int): (r: seq<Clause>)
    ensures |r| == |cs|
  {
    if i < |cs| && exists k :: FirstClash(cs[i], marked, lit, k) then
      var k :| FirstClash(cs[i], marked, lit, k);
      cs[i := Front(cs[i], k)]
    else cs
  }

  /** The same for the clauses of a list, one after the other. */
  ghost function MatchedAll(cs: seq<Clause>, os: seq<nat>, marked: set<int>, lit: int): (r: seq<Clause>)
    ensures |r| == |cs|
  {
    if os == [] then cs else Matched(MatchedAll(cs, os[..|os| - 1], marked, lit), os[|os| - 1], marked, lit)
  }

  /** What the test does in memory: if the clause is blocked, the first clashing literal of each clause in the list moved to the
      front; otherwise only in the clauses before the first one without a clash, which moved to the front of the list. */
  ghost predicate TestedOn(cs: seq<Clause>, start: seq<nat>, c: Clause, lit: int, blocked: bool, cs': seq<Clause>, os: seq<nat>)
  {
    if blocked then cs' == MatchedAll(cs, start, Lits(c), lit) && os == start
    else exists k :: Stopped(cs, start, Lits(c), lit, k, cs', os)
  }

  lemma MatchedAt(cs: seq<Clause>, i: nat, marked: set<int>, lit: int, k: nat)
    requires i < |cs| && FirstClash(cs[i], marked, lit, k)
    ensures Matched(cs, i, marked, lit) == cs[i := Front(cs[i], k)]
  {
  }

  lemma NotMatched(cs: seq<Clause>, i: nat, marked: set<int>, lit: int)
    requires i < |cs| && !Clashes(cs[i], marked, lit)
    ensures Matched(cs, i, marked, lit) == cs
  {
    forall k ensures !FirstClash(cs[i], marked, lit, k) {
      assert 0 <= k < |cs[i]| ==> cs[i][k] in cs[i];
    }
  }

  /** The first clause of a list without a clash: it stopped the attempt and moved to the front of the list. */
  ghost predicate Stopped(cs: seq<Clause>, start: seq<nat>, marked: set<int>, lit: int, k: int, cs': seq<Clause>, os: seq<nat>)
  {
    && 0 <= k < |start| && start[k] < |cs| && AllClash(cs, start[..k], marked, lit) && !Clashes(cs[start[k]], marked, lit)
    && os == Front(start, k) && cs' == MatchedAll(cs, start[..k], marked, lit)
  }

  lemma ClashesTautological(c: Clause, d: Clause, lit: int)
    ensures Clashes(d, Lits(c), lit) <==> TautologicalOn(c, d, lit)
  {
    if Clashes(d, Lits(c), lit) {
      var m :| m in d && m != Opposite(lit) && Opposite(m) in Lits(c);
      assert Opposite(m) in c && Opposite(m) != lit && Opposite(Opposite(m)) in d;
    }
    if TautologicalOn(c, d, lit) {
      var m :| m in c && m != lit && Opposite(m) in d;
      assert Opposite(m) in d && Opposite(m) != Opposite(lit) && Opposite(Opposite(m)) == m;
    }
  }

  /** Each clause is a permutation of what it was. */
  ghost predicate Permuted(a: seq<Clause>, b: seq<Clause>)
  {
    |a| == |b| && forall i :: 0 <= i < |a| ==> multiset(a[i]) == multiset(b[i])
  }

  lemma ClashesSame(c: Clause, d: Clause, marked: set<int>, lit: int)
    requires multiset(c) == multiset(d)
    ensures Clashes(c, marked, lit) <==> Clashes(d, marked, lit)
  {
    SameElements(c, d);
  }

  /** Occurrence lists name clauses with the literal, and all live ones; live clauses have no root-level literal. */
  ghost predicate ListsOk(db: Db, occs: Occs)
  {
    (forall l :: Names(db.clauses, Occ(occs, l), l)) && Complete(db, occs) && Free(db)
  }

  ghost predicate Free(db: Db)
  {
    forall i, l :: Live(db, i) && l in db.clauses[i] ==> !Assigned(db.units, l)
  }

  ghost predicate Names(clauses: seq<Clause>, os: seq<nat>, l: int)
  {
    forall k: nat :: k in os ==> k < |clauses| && l in clauses[k]
  }

  class Blocker {
    var clauses: seq<Clause>
    var garbage: set<nat>
    const units: set<int>
    var occs: Occs
    var marked: set<int>
    const external: External

    ghost function State(): Db
      reads this
    {
      Db(clauses, garbage, units, false)
    }

    constructor (cs: seq<Clause>, us: set<int>, os: Occs, ext: External)
      ensures State() == Db(cs, {}, us, false) && occs == os && marked == {} && external == ext
    {
      clauses, garbage, units, occs, marked, external := cs, {}, us, os, {}, ext;
    }

    /** Looks for a literal that makes the resolvent tautological, and moves it to the front of its clause. If there is
        none, the clause is as it was. */
    method MatchLiteral(i: nat, lit: int) returns (found: bool)
      requires i < |clauses|
      modifies this`clauses
      ensures found <==> Clashes(old(clauses[i]), marked, lit)
      ensures Permuted(old(clauses), clauses) && (!found ==> clauses == old(clauses))
      ensures clauses == Matched(old(clauses), i, marked, lit)
    {
      var d, prev, l := clauses[i], 0, 0;
      ghost var was := d;
      while l < |d|
        invariant 0 <= l <= |d| == |was| && d == Shifted(was, l, 0) && prev == Previous(was, l, 0)
        invariant clauses == old(clauses) && !Clashes(was[..l], marked, lit)
        invariant forall j :: 0 <= j < l ==> !ClashAt(was, marked, lit, j)
      {
        ShiftStep(was, l, 0);
        assert was[..l + 1] == was[..l] + [was[l]] && was[l] in was;
        var other := d[l];
        d := d[l := prev];
        prev := other;
        if other != -lit && -other in marked {
          d := d[0 := other];
          FrontSame(was, l);
          assert Opposite(other) in marked && other != Opposite(lit);
          MatchedAt(clauses, i, marked, lit, l);
          clauses := clauses[i := d];
          return true;
        }
        l := l + 1;
      }
      assert was[..l] == was;
      d := Unshift(d, prev, was, 0);
      clauses := clauses[i := d];
      assert clauses == old(clauses);
      NotMatched(clauses, i, marked, lit);
      found := false;
    }

    /** Tries the clauses of the list one after the other, shifting the list, until one is not tautological with the
        marked clause: that one ends up in front. */
    method TryAll(start: seq<nat>, lit: int) returns (res: bool, os: seq<nat>, prev: nat)
      requires forall k :: k in start ==> k < |clauses|
      modifies this`clauses
      ensures Permuted(old(clauses), clauses) && |os| == |start|
      ensures res <==> AllClash(old(clauses), start, marked, lit)
      ensures if res then os == Shifted(start, |start|, 0) && prev == Previous(start, |start|, 0)
              else multiset(os) == multiset(start)
      ensures res ==> clauses == MatchedAll(old(clauses), start, marked, lit)
      ensures !res ==> exists k :: Stopped(old(clauses), start, marked, lit, k, clauses, os)
    {
      ghost var before := clauses;
      var i := 0;
      os, prev := start, 0;
      while i < |os|
        invariant 0 <= i <= |os| == |start| && Permuted(before, clauses)
        invariant os == Shifted(start, i, 0) && prev == Previous(start, i, 0) && AllClash(before, start[..i], marked, lit)
        invariant clauses == MatchedAll(before, start[..i], marked, lit)
      {
        ShiftStep(start, i, 0);
        assert start[..i + 1] == start[..i] + [start[i]] && start[i] in start;
        var d := os[i];
        os := os[i := prev];
        prev := d;
        ghost var middle := clauses;
        ClashesSame(before[d], middle[d], marked, lit);
        var found := MatchLiteral(d, lit);
        PermutedTrans(before, middle, clauses);
        if !found {
          os := os[0 := d];
          FrontSame(start, i);
          assert Stopped(before, start, marked, lit, i, clauses, os);
          return false, os, prev;
        }
        assert start[..i + 1][..i] == start[..i];
        i := i + 1;
      }
      assert start[..i] == start;
      res := true;
    }

    /** Whether a clause is blocked on one of its literals: whether all its resolvents are tautological. Clauses and the
        occurrence list are only permuted, and the list is as it was if the clause is blocked. */
    method IsBlockedClause(c: Clause, lit: int) returns (res: bool)
      requires marked == {} && forall k :: k in Occ(occs, Opposite(lit)) ==> k < |clauses|
      modifies this`clauses, this`occs, this`marked
      ensures marked == {} && Permuted(old(clauses), clauses)
      ensures res <==> forall k :: k in Occ(old(occs), Opposite(lit)) ==> TautologicalOn(c, old(clauses)[k], lit)
      ensures multiset(Occ(occs, Opposite(lit))) == multiset(Occ(old(occs), Opposite(lit)))
      ensures res ==> Occ(occs, Opposite(lit)) == Occ(old(occs), Opposite(lit))
      ensures forall l :: l != Opposite(lit) ==> Occ(occs, l) == Occ(old(occs), l)
      ensures TestedOn(old(clauses), Occ(old(occs), Opposite(lit)), c, lit, res, clauses, Occ(occs, Opposite(lit)))
    {
      marked := Lits(c);
      ghost var before := clauses;
      var start := Occ(occs, -lit);
      var os, prev;
      res, os, prev := TryAll(start, lit);
      marked := {};
      if res {
        os := Unshift(os, prev, start, 0);
      }
      occs := occs[-lit := os];
      assert Opposite(lit) == -lit;
      forall k | k in start ensures Clashes(before[k], Lits(c), lit) <==> TautologicalOn(c, before[k], lit) {
        ClashesTautological(c, before[k], lit);
      }
    }

    ghost predicate Valid()
      reads this
    {
      DbOk(State()) && marked == {} && ListsOk(State(), occs)
    }

    /** Removes a clause exactly if all its resolvents on the literal are tautological. Removing it is sound, and otherwise
        nothing changes but the order of literals and clauses. */
    method BlockClause(i: nat, lit: int) returns (blocked: bool)
      requires Valid() && external.Valid() && Live(State(), i) && lit in clauses[i]
      modifies this, external`extension, external`entries
      ensures Valid() && external.Valid() && old(external.entries) <= external.entries
      ensures Sound(Contents(old(State())), Contents(State()), external.entries[|old(external.entries)|..])
      ensures Permuted(old(clauses), clauses) && garbage == (if blocked then old(garbage) + {i} else old(garbage))
      ensures blocked <==> forall k :: k in Occ(old(occs), Opposite(lit)) ==> TautologicalOn(old(clauses)[i], old(clauses)[k], lit)
      ensures multiset(Occ(occs, Opposite(lit))) == multiset(Occ(old(occs), Opposite(lit)))
      ensures forall l :: l != Opposite(lit) || blocked ==> Occ(occs, l) == Occ(old(occs), l)
      ensures TestedOn(old(clauses), Occ(old(occs), Opposite(lit)), old(clauses)[i], lit, blocked, clauses, Occ(occs, Opposite(lit)))
      ensures external.entries == old(external.entries) + if blocked then [Entry([lit], 0, i, clauses[i])] else []
    {
      hide TestedOn, Sound, Contents;
      ghost var before, start, was := State(), external.entries, occs;
      var c := clauses[i];
      blocked := IsBlockedClause(c, lit);
      ghost var middle := State();
      ListsPermuted(before, middle, was, occs, lit);
      PermutedOk(before, middle);
      PermutedSound(before, middle);
      assert external.entries[|start|..] == [];
      if blocked {
        assert !Assigned(before.units, lit);
        AllBlocked(before, middle, i, lit);
        hide DbOk, Sound, Contents;
        LiteralProper(middle, i, lit);
        external.PushClause(clauses[i], 0, i, lit);
        assert external.entries[|start|..] == [Entry([lit], 0, i, clauses[i])];
        SoundTrans(Contents(before), Contents(middle), Contents(middle.(garbage := garbage + {i})), [],
                   [Entry([lit], 0, i, clauses[i])]);
        assert [] + [Entry([lit], 0, i, clauses[i])] == [Entry([lit], 0, i, clauses[i])];
        garbage := garbage + {i};
        GarbageKept(middle, occs, i);
      }
    }

    /** The case of a single live clause d with -lit: a candidate with lit is blocked exactly if it clashes with d on
        another literal. The list of -lit shrinks to d, and the list of lit loses the clauses that are gone. */
    method BlockWithOneNegative(lit: int, minlim: int, maxlim: int) returns (d: nat)
      requires Valid() && external.Valid() && lit != 0 && OneLive(Occ(occs, -lit), garbage)
      modifies this, external`extension, external`entries
      ensures Valid() && external.Valid() && old(external.entries) <= external.entries && Permuted(old(clauses), clauses)
      ensures Sound(Contents(old(State())), Contents(State()), external.entries[|old(external.entries)|..])
      ensures d in Occ(old(occs), -lit) && d !in old(garbage) && d < |old(clauses)|
      ensures garbage == old(garbage) + Gone(old(State()), Occ(old(occs), lit), d, lit, minlim, maxlim)
      ensures Occ(occs, -lit) == [d] && forall l :: l != lit && l != -lit ==> Occ(occs, l) == Occ(old(occs), l)
      ensures Occ(occs, lit) == if |old(clauses)[d]| > maxlim then Occ(old(occs), lit) else Flushed(Occ(old(occs), lit), garbage)
    {
      hide ListsOk, DbOk, Sound, Contents, Permuted, TautologicalOn, Gone, Goes, Flushed, OnlyAt, OneLive;
      ghost var a, n := State(), |external.entries|;
      d := FirstLive(Occ(occs, -lit));
      OnlyNegative(a, occs, lit, d);
      occs := occs[-lit := [d]];
      ghost var middle := occs;
      assert external.entries[n..] == [];
      SoundRefl(Contents(a));
      if |clauses[d]| > maxlim {
        GoneNone(a, Occ(occs, lit), d, lit, minlim, maxlim);
        PermutedRefl(clauses);
        return;
      }
      marked := Lits(clauses[d]);
      var pos := Occ(occs, lit);
      PermutedRefl(clauses);
      AllPositive(a, middle, lit);
      var kept := BlockAll(pos, lit, d, minlim, maxlim, a, n);
      occs := occs[lit := kept];
      marked := {};
      assert external.entries[..n] == old(external.entries);
      ListsFlushed(a, State(), middle, occs, lit);
    }

    /** Tries all candidates of a list with lit, and compacts the list. */
    method BlockAll(pos: seq<nat>, lit: int, d: nat, minlim: int, maxlim: int, ghost a: Db, ghost n: nat) returns (kept: seq<nat>)
      requires DbOk(State()) && external.Valid() && Permuted(a.clauses, clauses) && a.garbage == garbage && d < |a.clauses|
      requires a.units == units && !Assigned(units, lit) && !a.unsat && marked == Lits(a.clauses[d]) && OnlyAt(a, d, lit) && |a.clauses[d]| <= maxlim
      requires n == |external.entries| && Sound(Contents(a), Contents(State()), external.entries[n..])
      requires forall k :: k in pos ==> k < |a.clauses| && lit in a.clauses[k]
      modifies this`clauses, this`garbage, external`extension, external`entries
      ensures DbOk(State()) && external.Valid() && Permuted(a.clauses, clauses) && old(external.entries) <= external.entries
      ensures Sound(Contents(a), Contents(State()), external.entries[n..])
      ensures garbage == a.garbage + Gone(a, pos, d, lit, minlim, maxlim) && kept == Flushed(pos, garbage)
    {
      hide DbOk, Sound, Contents, Permuted, TautologicalOn, OnlyAt, Gone, Goes, Flushed;
      ghost var all := a.garbage + Gone(a, pos, d, lit, minlim, maxlim);
      GoneStart(a, pos, d, lit, minlim, maxlim, all);
      kept := [];
      var j := 0;
      while j < |pos|
        invariant 0 <= j <= |pos| && Permuted(a.clauses, clauses) && DbOk(State()) && external.Valid()
        invariant garbage == a.garbage + Gone(a, pos[..j], d, lit, minlim, maxlim) && kept == Flushed(pos[..j], all)
        invariant old(external.entries) <= external.entries && Sound(Contents(a), Contents(State()), external.entries[n..])
      {
        assert pos[j] in pos;
        GoneStep(a, pos, j, d, lit, minlim, maxlim);
        BlockCandidate(pos[j], lit, d, minlim, maxlim, a, n);
        if pos[j] !in garbage {
          kept := kept + [pos[j]];
        }
        j := j + 1;
      }
      assert pos[..j] == pos;
    }

    /** Tries one candidate with lit against the only clause with -lit, whose literals are marked. */
    method BlockCandidate(k: nat, lit: int, d: nat, minlim: int, maxlim: int, ghost a: Db, ghost n: nat)
      requires DbOk(State()) && external.Valid() && Permuted(a.clauses, clauses) && a.garbage <= garbage && d < |a.clauses|
      requires a.units == units && !Assigned(units, lit) && !a.unsat && k < |a.clauses| && lit in a.clauses[k] && marked == Lits(a.clauses[d])
      requires OnlyAt(a, d, lit) && |a.clauses[d]| <= maxlim && n <= |external.entries|
      requires Sound(Contents(a), Contents(State()), external.entries[n..])
      modifies this`clauses, this`garbage, external`extension, external`entries
      ensures DbOk(State()) && external.Valid() && Permuted(a.clauses, clauses) && old(external.entries) <= external.entries
      ensures Sound(Contents(a), Contents(State()), external.entries[n..])
      ensures garbage == if Goes(a, k, d, lit, minlim, maxlim) then old(garbage) + {k} else old(garbage)
      ensures clauses == if k !in old(garbage) && minlim <= |old(clauses)[k]| <= maxlim then Matched(old(clauses), k, marked, -lit)
                         else old(clauses)
    {
      hide DbOk, Sound, Contents, TautologicalOn, Permuted, OnlyAt, Clashes;
      CandidateMeans(a.clauses, clauses, k, d, lit);
      if k in garbage {
        assert old(garbage) + {k} == garbage;
        return;
      }
      if |clauses[k]| > maxlim || |clauses[k]| < minlim {
        return;
      }
      ghost var b := State();
      var found := MatchLiteral(k, -lit);
      ghost var c := State();
      PermutedTrans(a.clauses, b.clauses, clauses);
      PermutedOk(b, c);
      PermutedSound(b, c);
      ghost var pushed := external.entries[n..];
      assert pushed + [] == pushed;
      SoundTrans(Contents(a), Contents(b), Contents(c), pushed, []);
      if found {
        OnlyBlocked(a, c, k, d, lit);
        LiteralProper(c, k, lit);
        external.PushClause(clauses[k], 0, k, lit);
        garbage := garbage + {k};
        assert external.entries[n..] == pushed + [Entry([lit], 0, k, clauses[k])];
        SoundTrans(Contents(a), Contents(c), Contents(State()), pushed, [Entry([lit], 0, k, clauses[k])]);
        GarbageOk(c, k);
      }
    }

    /** The only live clause of a list. */
    method FirstLive(os: seq<nat>) returns (d: nat)
      requires OneLive(os, garbage)
      ensures d in os && d !in garbage && forall k: nat :: k in os && k !in garbage ==> k == d
    {
      var i := 0;
      while os[i] in garbage
        invariant 0 <= i < |os| && forall j :: 0 <= j < i ==> os[j] in garbage
        decreases |os| - i
      {
        i := i + 1;
      }
      d := os[i];
    }
  }

  /** Exactly one clause of the list is live. */
  ghost predicate OneLive(os: seq<nat>, garbage: set<nat>)
  {
    (exists k :: k in os && k !in garbage) && forall j, k :: j in os && k in os && j !in garbage && k !in garbage ==> j == k
  }

  /** At most the clause d has the negation of lit. */
  ghost predicate OnlyAt(a: Db, d: nat, lit: int)
  {
    forall k: nat :: Live(a, k) && Opposite(lit) in a.clauses[k] ==> k == d
  }

  lemma OnlyNegative(a: Db, occs: Occs, lit: int, d: nat)
    requires ListsOk(a, occs) && d in Occ(occs, -lit) && d !in a.garbage
    requires forall k: nat :: k in Occ(occs, -lit) && k !in a.garbage ==> k == d
    ensures OnlyAt(a, d, lit) && d < |a.clauses| && ListsOk(a, occs[-lit := [d]]) && !Assigned(a.units, lit)
  {
    assert Opposite(lit) == -lit && Opposite(-lit) == lit && Names(a.clauses, Occ(occs, -lit), -lit);
    assert Live(a, d) && -lit in a.clauses[d] && !Assigned(a.units, -lit);
    forall l ensures Fewer(Occ(occs, l), Occ(occs[-lit := [d]], l), a.garbage) {}
    PermutedRefl(a.clauses);
    ListsFewer(a, a, occs, occs[-lit := [d]]);
  }

  /** The candidate is within the limits and clashes with the clause d. */
  ghost predicate Goes(a: Db, k: nat, d: nat, lit: int, minlim: int, maxlim: int)
    requires k < |a.clauses| && d < |a.clauses|
  {
    |a.clauses[d]| <= maxlim && minlim <= |a.clauses[k]| <= maxlim && TautologicalOn(a.clauses[k], a.clauses[d], lit)
  }

  /** The clauses of a list that are blocked. */
  ghost function Gone(a: Db, os: seq<nat>, d: nat, lit: int, minlim: int, maxlim: int): set<nat>
    requires d < |a.clauses|
  {
    set k | k in os && k < |a.clauses| && k !in a.garbage && Goes(a, k, d, lit, minlim, maxlim)
  }

  lemma GoneNone(a: Db, os: seq<nat>, d: nat, lit: int, minlim: int, maxlim: int)
    requires d < |a.clauses| && |a.clauses[d]| > maxlim
    ensures a.garbage + Gone(a, os, d, lit, minlim, maxlim) == a.garbage
  {
  }

  lemma GoneStart(a: Db, os: seq<nat>, d: nat, lit: int, minlim: int, maxlim: int, all: set<nat>)
    requires d < |a.clauses|
    ensures a.garbage + Gone(a, os[..0], d, lit, minlim, maxlim) == a.garbage && Flushed(os[..0], all) == []
  {
  }

  lemma GoneStep(a: Db, os: seq<nat>, j: nat, d: nat, lit: int, minlim: int, maxlim: int)
    requires d < |a.clauses| && j < |os| && os[j] < |a.clauses|
    ensures var goes := Goes(a, os[j], d, lit, minlim, maxlim);
            var gone := a.garbage + Gone(a, os[..j], d, lit, minlim, maxlim);
            var all := a.garbage + Gone(a, os, d, lit, minlim, maxlim);
            && a.garbage + Gone(a, os[..j + 1], d, lit, minlim, maxlim) == (if goes then gone + {os[j]} else gone)
            && (os[j] in all <==> os[j] in gone || goes)
            && Flushed(os[..j + 1], all) == Flushed(os[..j], all) + (if os[j] in all then [] else [os[j]])
  {
    assert os[..j + 1][..j] == os[..j] && os[..j + 1] == os[..j] + [os[j]];
    assert os[j] in os && forall k :: k in os[..j] ==> k in os;
  }

  lemma AllPositive(a: Db, occs: Occs, lit: int)
    requires ListsOk(a, occs)
    ensures forall k :: k in Occ(occs, lit) ==> k < |a.clauses| && lit in a.clauses[k]
  {
    assert Names(a.clauses, Occ(occs, lit), lit);
  }

  lemma CandidateMeans(was: seq<Clause>, clauses: seq<Clause>, k: nat, d: nat, lit: int)
    requires Permuted(was, clauses) && k < |was| && d < |was|
    ensures |clauses| == |was| && |clauses[k]| == |was[k]|
    ensures Clashes(clauses[k], Lits(was[d]), -lit) <==> TautologicalOn(was[k], was[d], lit)
  {
    SameSize(was[k], clauses[k]);
    ClashesSame(was[k], clauses[k], Lits(was[d]), -lit);
    ClashesTautological(was[d], was[k], -lit);
    TautologicalSwap(was[k], was[d], lit);
  }

  lemma SameSize(c: Clause, d: Clause)
    requires multiset(c) == multiset(d)
    ensures |c| == |d|
  {
    assert |multiset(c)| == |c| && |multiset(d)| == |d|;
  }

  lemma TautologicalSwap(c: Clause, d: Clause, lit: int)
    ensures TautologicalOn(d, c, -lit) <==> TautologicalOn(c, d, lit)
  {
    if TautologicalOn(d, c, -lit) {
      var m :| m in d && m != -lit && Opposite(m) in c;
      assert Opposite(m) != lit && Opposite(Opposite(m)) in d;
    }
    if TautologicalOn(c, d, lit) {
      var m :| m in c && m != lit && Opposite(m) in d;
      assert Opposite(m) != -lit && Opposite(Opposite(m)) in c;
    }
  }

  lemma OnlyBlocked(a: Db, c: Db, k: nat, d: nat, lit: int)
    requires DbOk(c) && Permuted(a.clauses, c.clauses) && a.garbage <= c.garbage && Live(c, k) && d < |a.clauses|
    requires lit in a.clauses[k] && !Assigned(c.units, lit) && !c.unsat && OnlyAt(a, d, lit)
    requires TautologicalOn(a.clauses[k], a.clauses[d], lit)
    ensures lit in c.clauses[k]
    ensures Sound(Contents(c), Contents(c.(garbage := c.garbage + {k})), [Entry([lit], 0, k, c.clauses[k])])
  {
    hide TautologicalOn, DbOk, Sound, Contents;
    AllBlocked(a, c, k, lit);
  }

  lemma SoundRefl(f: Formula)
    ensures Sound(f, f, [])
  {
  }

  lemma PermutedRefl(cs: seq<Clause>)
    ensures Permuted(cs, cs)
  {
  }

  lemma ListsFlushed(a: Db, b: Db, was: Occs, occs: Occs, lit: int)
    requires ListsOk(a, was) && Permuted(a.clauses, b.clauses) && a.garbage <= b.garbage && b.units == a.units
    requires occs == was[lit := Flushed(Occ(was, lit), b.garbage)]
    ensures ListsOk(b, occs)
  {
    forall l ensures Fewer(Occ(was, l), Occ(occs, l), b.garbage) {}
    ListsFewer(a, b, was, occs);
  }

  lemma GarbageKept(db: Db, occs: Occs, i: nat)
    requires DbOk(db) && i < |db.clauses| && ListsOk(db, occs)
    ensures DbOk(db.(garbage := db.garbage + {i})) && ListsOk(db.(garbage := db.garbage + {i}), occs)
  {
    forall l ensures Fewer(Occ(occs, l), Occ(occs, l), db.garbage) {}
    PermutedRefl(db.clauses);
    ListsFewer(db, db.(garbage := db.garbage + {i}), occs, occs);
  }

  lemma LiteralProper(db: Db, i: nat, lit: int)
    requires DbOk(db) && i < |db.clauses| && lit in db.clauses[i]
    ensures lit != 0 && ProperClause(db.clauses[i])
  {
    DbClause(db, i);
  }

  /** Lists stay complete when clauses and one list are permuted. */
  lemma ListsPermuted(a: Db, b: Db, was: Occs, occs: Occs, lit: int)
    requires Permuted(a.clauses, b.clauses) && a.garbage == b.garbage
    requires multiset(Occ(occs, Opposite(lit))) == multiset(Occ(was, Opposite(lit)))
    requires forall l :: l != Opposite(lit) ==> Occ(occs, l) == Occ(was, l)
    requires ListsOk(a, was) && b.units == a.units
    ensures ListsOk(b, occs)
  {
    forall l ensures forall k: nat :: k in Occ(occs, l) <==> k in Occ(was, l) {
      forall k: nat ensures k in Occ(occs, l) <==> k in Occ(was, l) {
        assert k in multiset(Occ(occs, l)) <==> k in Occ(occs, l);
        assert k in multiset(Occ(was, l)) <==> k in Occ(was, l);
      }
    }
    ListsFewer(a, b, was, occs);
  }

  /** Lists stay right when clauses are permuted or removed, and the lists lose only removed clauses. */
  lemma ListsFewer(a: Db, b: Db, was: Occs, occs: Occs)
    requires ListsOk(a, was) && Permuted(a.clauses, b.clauses) && a.garbage <= b.garbage && b.units == a.units
    requires forall l :: Fewer(Occ(was, l), Occ(occs, l), b.garbage)
    ensures ListsOk(b, occs)
  {
    forall l ensures Names(b.clauses, Occ(occs, l), l) {
      assert Names(a.clauses, Occ(was, l), l) && Fewer(Occ(was, l), Occ(occs, l), b.garbage);
      forall k: nat | k in Occ(occs, l) ensures k < |b.clauses| && l in b.clauses[k] {
        SameElements(a.clauses[k], b.clauses[k]);
      }
    }
    forall k, l | Live(b, k) && l in b.clauses[k] ensures k in Occ(occs, l) && !Assigned(b.units, l) {
      SameElements(a.clauses[k], b.clauses[k]);
      assert Live(a, k) && l in a.clauses[k] && !Assigned(a.units, l) && k in Occ(was, l);
      assert Fewer(Occ(was, l), Occ(occs, l), b.garbage);
    }
  }

  ghost predicate Fewer(was: seq<nat>, now: seq<nat>, garbage: set<nat>)
  {
    (forall k: nat :: k in now ==> k in was) && forall k: nat :: k in was && k !in garbage ==> k in now
  }

  lemma PermutedOk(a: Db, b: Db)
    requires DbOk(a) && Permuted(a.clauses, b.clauses) && b == a.(clauses := b.clauses)
    ensures DbOk(b)
  {
    forall i | 0 <= i < |b.clauses|
      ensures ClauseOk(b.clauses[i])
    {
      DbClause(a, i);
      SameElements(a.clauses[i], b.clauses[i]);
    }
  }

  lemma PermutedSound(a: Db, b: Db)
    requires Permuted(a.clauses, b.clauses) && b == a.(clauses := b.clauses)
    ensures Sound(Contents(a), Contents(b), [])
  {
    forall s
      ensures Sat(s, Contents(a)) <==> Sat(s, Contents(b))
    {
      ContentsModels(s, a);
      ContentsModels(s, b);
      forall i | 0 <= i < |a.clauses| ensures ClauseTrue(s, a.clauses[i]) <==> ClauseTrue(s, b.clauses[i]) {
        SameElements(a.clauses[i], b.clauses[i]);
      }
    }
  }

  /** All resolvents tautological: the clause is blocked in the permuted formula and can be removed. */
  lemma AllBlocked(a: Db, b: Db, i: nat, lit: int)
    requires DbOk(b) && Permuted(a.clauses, b.clauses) && a.garbage <= b.garbage && Live(b, i)
    requires lit in a.clauses[i] && !Assigned(b.units, lit) && !b.unsat
    requires forall k: nat :: Live(a, k) && Opposite(lit) in a.clauses[k] ==> TautologicalOn(a.clauses[i], a.clauses[k], lit)
    ensures lit in b.clauses[i]
    ensures Sound(Contents(b), Contents(b.(garbage := b.garbage + {i})), [Entry([lit], 0, i, b.clauses[i])])
  {
    var c, f := b.clauses[i], Contents(b);
    SameElements(a.clauses[i], c);
    assert c in f;
    forall d | d in f
      ensures ProperClause(d) && (Opposite(lit) in d ==> TautologicalOn(c, d, lit))
    {
      if u :| u in b.units && d == [u] {
        assert u != 0 && u != Opposite(lit);
      } else {
        var k :| 0 <= k < |b.clauses| && k !in b.garbage && b.clauses[k] == d;
        BlockedPair(a, b, i, k, lit);
      }
    }
    BlockedSound(f, c, lit, 0, i);
    RemovalHere(b, i, [lit], 0, i);
  }

  lemma BlockedPair(a: Db, b: Db, i: nat, k: nat, lit: int)
    requires DbOk(b) && Permuted(a.clauses, b.clauses) && a.garbage <= b.garbage && Live(b, k) && i < |b.clauses|
    requires Live(a, k) && Opposite(lit) in a.clauses[k] ==> TautologicalOn(a.clauses[i], a.clauses[k], lit)
    ensures ProperClause(b.clauses[k]) && (Opposite(lit) in b.clauses[k] ==> TautologicalOn(b.clauses[i], b.clauses[k], lit))
  {
    DbClause(b, k);
    SameElements(a.clauses[i], b.clauses[i]);
    SameElements(a.clauses[k], b.clauses[k]);
    if Opposite(lit) in b.clauses[k] {
      var m :| m in a.clauses[i] && m != lit && Opposite(m) in a.clauses[k];
      assert m in b.clauses[i] && Opposite(m) in b.clauses[k];
    }
  }

  /** Undoes the shift from the end. */
  method Unshift<T>(shifted: seq<T>, last: T, ghost was: seq<T>, gap: T) returns (d: seq<T>)
    requires shifted == Shifted(was, |was|, gap) && last == Previous(was, |was|, gap)
    ensures d == was
  {
    d := shifted;
    var prev, l := last, |shifted|;
    while l != 0
      invariant 0 <= l <= |d| == |was| && d == Shifted(was, l, gap) && prev == Previous(was, l, gap)
      decreases l
    {
      l := l - 1;
      ShiftStep(was, l, gap);
      var other := d[l];
      d := d[l := prev];
      prev := other;
    }
  }

  lemma PermutedTrans(a: seq<Clause>, b: seq<Clause>, c: seq<Clause>)
    requires Permuted(a, b) && Permuted(b, c)
    ensures Permuted(a, c)
  {
  }

  ghost predicate AllClash(clauses: seq<Clause>, os: seq<nat>, marked: set<int>, lit: int)
  {
    forall k :: k in os && k < |clauses| ==> Clashes(clauses[k], marked, lit)
  }
}
