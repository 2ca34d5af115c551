/** Globally blocked clause elimination (cadical/src/condition.cpp): the current assignment is refined into a
    conditional part and an autarky, until a fixpoint shows that the candidate clause can be removed. */
module Condition {
  import opened Logic
  import opened Extension
  import opened Reconstruction
  import opened Database
  import opened EliminationState

  /** True and not conditional. */
  predicate IsAutarky(vals: set<int>, bits: set<int>, l: int)
  {
    l in vals && l !in bits
  }

  /** The autarky makes no literal of the clause false. */
  ghost predicate Untouched(d: Clause, vals: set<int>, bits: set<int>)
  {
    forall l :: l in d ==> !IsAutarky(vals, bits, Opposite(l))
  }

  /** The clause is in the list of one of its literals that is true, or about to be visited. */
  ghost predicate Watched(d: Clause, i: nat, occs: Occs, vals: set<int>, pending: set<int>)
  {
    exists w :: w in d && i in Occ(occs, w) && (w in vals || w in pending)
  }

  /** Every live clause is untouched by the autarky or watched. */
  ghost predicate Guarded(db: Db, occs: Occs, vals: set<int>, bits: set<int>, pending: set<int>)
  {
    forall i :: Live(db, i) ==> Untouched(db.clauses[i], vals, bits) || Watched(db.clauses[i], i, occs, vals, pending)
  }

  // ----- The steps of the refinement -----------------------------------------------------------------

  /** Unassigning a conditional literal makes it pending. */
  lemma GuardedUnassign(db: Db, occs: Occs, vals: set<int>, bits: set<int>, pending: set<int>, x: int)
    requires Guarded(db, occs, vals, bits, pending)
    ensures Guarded(db, occs, vals - {x}, bits, pending + {x})
  {
    forall i | Live(db, i)
      ensures Untouched(db.clauses[i], vals - {x}, bits) || Watched(db.clauses[i], i, occs, vals - {x}, pending + {x})
    {
      if !Untouched(db.clauses[i], vals, bits) {
        var w :| w in db.clauses[i] && i in Occ(occs, w) && (w in vals || w in pending);
        assert w in vals - {x} || w in pending + {x};
      }
    }
  }

  /** Turning autarky literals into conditional ones keeps everything guarded. */
  lemma GuardedMore(db: Db, occs: Occs, vals: set<int>, bits: set<int>, pending: set<int>, more: set<int>)
    requires Guarded(db, occs, vals, bits, pending) && bits <= more
    ensures Guarded(db, occs, vals, more, pending)
  {
    forall i | Live(db, i)
      ensures Untouched(db.clauses[i], vals, more) || Watched(db.clauses[i], i, occs, vals, pending)
    {
      assert Untouched(db.clauses[i], vals, bits) ==> Untouched(db.clauses[i], vals, more);
    }
  }

  /** Moving the watch of a clause from x to a true literal. */
  lemma GuardedMove(db: Db, occs: Occs, more: Occs, vals: set<int>, bits: set<int>, pending: set<int>, i: nat, x: int, r: int)
    requires Guarded(db, occs, vals, bits, pending) && i < |db.clauses| && r in db.clauses[i] && r in vals
    requires forall w, k :: k in Occ(occs, w) && !(w == x && k == i) ==> k in Occ(more, w)
    requires i in Occ(more, r)
    ensures Guarded(db, more, vals, bits, pending)
  {
    forall k | Live(db, k)
      ensures Untouched(db.clauses[k], vals, bits) || Watched(db.clauses[k], k, more, vals, pending)
    {
      if !Untouched(db.clauses[k], vals, bits) {
        var w :| w in db.clauses[k] && k in Occ(occs, w) && (w in vals || w in pending);
        if w == x && k == i {
          assert r in db.clauses[k] && k in Occ(more, r);
        }
      }
    }
  }

  /** A literal all of whose clauses are untouched need not be pending any more. */
  lemma GuardedVisited(db: Db, occs: Occs, vals: set<int>, bits: set<int>, pending: set<int>, x: int)
    requires Guarded(db, occs, vals, bits, pending + {x})
    requires forall k :: k in Occ(occs, x) && Live(db, k) ==> Untouched(db.clauses[k], vals, bits)
    ensures Guarded(db, occs, vals, bits, pending - {x})
  {
    forall k | Live(db, k)
      ensures Untouched(db.clauses[k], vals, bits) || Watched(db.clauses[k], k, occs, vals, pending - {x})
    {
      if !Untouched(db.clauses[k], vals, bits) {
        var w :| w in db.clauses[k] && k in Occ(occs, w) && (w in vals || w in pending + {x});
        assert w != x;
      }
    }
  }

  // ----- The state while trying one candidate --------------------------------------------------------

  /** The assignment and the conditional literals that all candidates start from. */
  datatype Start = Start(vals: set<int>, conditional: seq<int>)

  /** Unassigned, conditional and processed literals fit together. */
  ghost predicate RefineOk(c: Clause, t: Start, vals: set<int>, bits: set<int>, conditional: seq<int>, unassigned: seq<int>, n: nat)
  {
    && vals == t.vals - Lits(unassigned) && Lits(unassigned) <= t.vals && Distinct(unassigned)
    && bits == Lits(conditional) && t.conditional <= conditional && Lits(conditional) <= t.vals && Distinct(conditional)
    && n <= |conditional|
    && (forall l :: l in unassigned ==> l in conditional[..n])
    && (forall k :: 0 <= k < n ==> conditional[k] in unassigned || Opposite(conditional[k]) in c)
  }

  /** An autarky literal of the candidate, or zero if it has none. */
  ghost predicate WatchOk(c: Clause, vals: set<int>, bits: set<int>, watched: int)
  {
    if watched != 0 then watched in c && IsAutarky(vals, bits, watched)
    else forall l :: l in c ==> !IsAutarky(vals, bits, l)
  }

  // ----- No part of the assignment is given up without need ------------------------------------------

  /** If the autarky makes a literal of the clause false, the part that is kept makes one true. */
  ghost predicate Tolerates(d: Clause, keep: set<int>, aut: set<int>)
  {
    (exists m :: m in d && Opposite(m) in aut) ==> exists m :: m in d && m in keep
  }

  ghost predicate AllTolerate(clauses: seq<Clause>, os: seq<nat>, keep: set<int>, aut: set<int>)
  {
    forall j :: 0 <= j < |os| ==> os[j] < |clauses| && Tolerates(clauses[os[j]], keep, aut)
  }

  /** A part of an assignment and an autarky within it that would block the candidate as far as the listed clauses go. */
  ghost predicate Fits(clauses: seq<Clause>, c: Clause, occs: Occs, keep: set<int>, aut: set<int>)
  {
    && (forall w :: AllTolerate(clauses, Occ(occs, w), keep, aut))
    && forall k :: k in keep && k !in aut ==> Opposite(k) in c
  }

  /** Nothing of it was unassigned, and none of its autarky literals became conditional. */
  ghost predicate Spared(vals: set<int>, bits: set<int>, keep: set<int>, aut: set<int>)
  {
    aut <= keep <= vals && aut !! bits
  }

  datatype Split = Split(vals: set<int>, bits: set<int>, occs: Occs)

  /** From a to b the refinement spares every such part. */
  ghost predicate Spares(clauses: seq<Clause>, c: Clause, a: Split, b: Split)
  {
    forall keep, aut :: Fits(clauses, c, a.occs, keep, aut) && Spared(a.vals, a.bits, keep, aut) ==>
      Fits(clauses, c, b.occs, keep, aut) && Spared(b.vals, b.bits, keep, aut)
  }

  lemma SparesRefl(clauses: seq<Clause>, c: Clause, a: Split)
    ensures Spares(clauses, c, a, a)
  {
  }

  lemma SparesTrans(clauses: seq<Clause>, c: Clause, a: Split, b: Split, d: Split)
    requires Spares(clauses, c, a, b) && Spares(clauses, c, b, d)
    ensures Spares(clauses, c, a, d)
  {
  }

  /** The negations of literals of a listed clause without true literal cannot be in such an autarky. */
  lemma SparesMark(clauses: seq<Clause>, c: Clause, a: Split, bits: set<int>, w: int, j: nat)
    requires j < |Occ(a.occs, w)| && Occ(a.occs, w)[j] < |clauses|
    requires forall l :: l in clauses[Occ(a.occs, w)[j]] ==> l !in a.vals
    requires forall b :: b in bits ==> b in a.bits || Opposite(b) in clauses[Occ(a.occs, w)[j]]
    ensures Spares(clauses, c, a, a.(bits := bits))
  {
    var d := clauses[Occ(a.occs, w)[j]];
    forall keep, aut | Fits(clauses, c, a.occs, keep, aut) && Spared(a.vals, a.bits, keep, aut)
      ensures aut !! bits
    {
      assert AllTolerate(clauses, Occ(a.occs, w), keep, aut);
      assert Tolerates(d, keep, aut);
      forall b | b in aut ensures b !in bits { assert Opposite(Opposite(b)) == b; }
    }
  }

  /** A conditional literal that does not occur negated in the candidate is in no such part. */
  lemma SparesDrop(clauses: seq<Clause>, c: Clause, a: Split, x: int)
    requires x in a.bits && Opposite(x) !in c
    ensures Spares(clauses, c, a, a.(vals := a.vals - {x}))
  {
  }

  /** Moving watches between lists changes nothing. */
  lemma SparesMove(clauses: seq<Clause>, c: Clause, a: Split, occs: Occs)
    requires forall w :: ComesFrom(a.occs, Occ(occs, w))
    ensures Spares(clauses, c, a, a.(occs := occs))
  {
    forall keep, aut, w | Fits(clauses, c, a.occs, keep, aut)
      ensures AllTolerate(clauses, Occ(occs, w), keep, aut)
    {
      var os := Occ(occs, w);
      assert ComesFrom(a.occs, os);
      forall j | 0 <= j < |os| ensures os[j] < |clauses| && Tolerates(clauses[os[j]], keep, aut) {
        assert Listed(a.occs, os[j]);
        var x :| os[j] in Occ(a.occs, x);
        var k :| 0 <= k < |Occ(a.occs, x)| && Occ(a.occs, x)[k] == os[j];
        assert AllTolerate(clauses, Occ(a.occs, x), keep, aut);
      }
    }
  }

  ghost predicate ComesFrom(occs: Occs, os: seq<nat>)
  {
    forall j :: 0 <= j < |os| ==> Listed(occs, os[j])
  }

  ghost predicate Listed(occs: Occs, i: nat)
  {
    exists x :: i in Occ(occs, x)
  }

  lemma ComesMoved(was: Occs, occs: Occs, x: int, r: int, i: nat, kept: seq<nat>, rest: seq<nat>)
    requires x != r && Occ(was, x) == kept + ([i] + rest)
    requires occs == was[x := kept + rest][r := Occ(was, r) + [i]]
    ensures forall w :: ComesFrom(was, Occ(occs, w))
  {
    var all := Occ(was, x);
    assert all[|kept|] == i;
    forall w ensures ComesFrom(was, Occ(occs, w)) {
      var os := Occ(occs, w);
      forall j | 0 <= j < |os| ensures Listed(was, os[j]) {
        if w == r && j == |Occ(was, r)| {
          assert Occ(was, x)[|kept|] == os[j];
        } else if w == x && j >= |kept| {
          assert Occ(was, x)[j + 1] == os[j];
        } else {
          assert Occ(was, w)[j] == os[j];
        }
      }
    }
  }

  lemma ComesSame(was: Occs, occs: Occs)
    requires forall w :: Occ(was, w) == Occ(occs, w)
    ensures forall w :: ComesFrom(was, Occ(occs, w))
  {
    forall w ensures ComesFrom(was, Occ(occs, w)) {
      var os := Occ(was, w);
      forall j | 0 <= j < |os| ensures Listed(was, os[j]) {
        assert os[j] in Occ(was, w);
      }
      assert Occ(occs, w) == os;
    }
  }

  /** What a clause looks like under the current assignment. */
  datatype View = View(replacement: int, negative: nat)

  class Conditioner {
    var clauses: seq<Clause>
    var garbage: set<nat>
    const units: set<int>
    const trail: seq<int>
    var vals: set<int>
    var bits: set<int>
    var conditional: seq<int>
    var unassigned: seq<int>
    var occs: Occs
    var candidate: set<int>
    var watched: int
    var props: nat
    ghost var initial: set<nat>
    const external: External

    ghost function State(): Db
      reads this
    {
      Db(clauses, garbage, units, false)
    }

    ghost function Now(): Split
      reads this
    {
      Split(vals, bits, occs)
    }

    constructor (cs: seq<Clause>, us: set<int>, tr: seq<int>, conds: seq<int>, os: Occs, ext: External)
      ensures State() == Db(cs, {}, us, false) && trail == tr && vals == Lits(tr) && bits == Lits(conds)
      ensures conditional == conds && unassigned == [] && occs == os && candidate == {} && external == ext && props == 0 && initial == {}
    {
      clauses, garbage, units, trail, vals, bits := cs, {}, us, tr, Lits(tr), Lits(conds);
      conditional, unassigned, occs, candidate, watched, props, external, initial := conds, [], os, {}, 0, 0, ext, {};
    }

    /** Some true literal, and the number of false literals whose negation is in the autarky. */
    method Scan(d: Clause) returns (r: View)
      requires 0 !in vals
      ensures r.replacement != 0 ==> r.replacement in d && r.replacement in vals
      ensures r.replacement == 0 ==> forall l :: l in d ==> l !in vals
      ensures r.negative == 0 ==> Untouched(d, vals, bits)
    {
      var replacement, negative, k := 0, 0, 0;
      while k < |d|
        invariant 0 <= k <= |d| && (replacement != 0 ==> replacement in d && replacement in vals)
        invariant replacement == 0 ==> forall l :: l in d[..k] ==> l !in vals
        invariant negative == 0 ==> Untouched(d[..k], vals, bits)
      {
        var lit := d[k];
        assert d[..k + 1] == d[..k] + [lit] && lit in d;
        if lit in vals {
          replacement := lit;
        }
        if -lit in vals && IsAutarky(vals, bits, -lit) {
          negative := negative + 1;
        }
        k := k + 1;
      }
      assert d[..k] == d;
      r := View(replacement, negative);
    }

    /** The first literal of a clause that is in the autarky, or zero. */
    method FindAutarky(c: Clause) returns (r: int)
      requires 0 !in vals
      ensures WatchOk(c, vals, bits, r)
    {
      r := 0;
      var k := 0;
      while k < |c| && r == 0
        invariant 0 <= k <= |c| && (r != 0 ==> r in c && IsAutarky(vals, bits, r))
        invariant r == 0 ==> forall l :: l in c[..k] ==> !IsAutarky(vals, bits, l)
      {
        assert c[..k + 1] == c[..k] + [c[k]];
        if IsAutarky(vals, bits, c[k]) {
          r := c[k];
        }
        k := k + 1;
      }
      if r == 0 { assert c[..k] == c; }
    }

    /** Turns the negations of all false literals of a clause into conditional ones, as long as the candidate keeps an
        autarky literal. */
    method MakeConditional(d: Clause, c: Clause, ghost t: Start, ghost n: nat)
      requires RefineOk(c, t, vals, bits, conditional, unassigned, n) && WatchOk(c, vals, bits, watched) && watched != 0
      requires 0 !in vals && ProperClause(d)
      modifies this`bits, this`conditional, this`watched
      ensures RefineOk(c, t, vals, bits, conditional, unassigned, n) && WatchOk(c, vals, bits, watched)
      ensures old(bits) <= bits && (watched != 0 ==> Untouched(d, vals, bits))
      ensures forall b :: b in bits ==> b in old(bits) || Opposite(b) in d
    {
      var k := 0;
      while k < |d| && watched != 0
        invariant 0 <= k <= |d| && RefineOk(c, t, vals, bits, conditional, unassigned, n) && WatchOk(c, vals, bits, watched)
        invariant old(bits) <= bits && Untouched(d[..k], vals, bits)
        invariant forall b :: b in bits ==> b in old(bits) || Opposite(b) in d
      {
        var lit := d[k];
        assert d[..k + 1] == d[..k] + [lit] && lit in d && Opposite(lit) == -lit && Opposite(-lit) == lit;
        if IsAutarky(vals, bits, -lit) {
          RefineMark(c, t, vals, bits, conditional, unassigned, n, -lit);
          bits := bits + {-lit};
          conditional := conditional + [-lit];
          if -lit == watched {
            watched := FindAutarky(c);
          }
        }
        k := k + 1;
      }
      if watched != 0 { assert d[..k] == d; }
    }

    /** Everything is guarded, both now and from where all candidates start. */
    ghost predicate Safe(t: Start, pending: set<int>)
      reads this
    {
      && ListsOk(clauses, occs, initial) && Guarded(State(), occs, t.vals, Lits(t.conditional), {})
      && (watched != 0 ==> Guarded(State(), occs, vals, bits, pending))
    }

    /** Visits the clauses watched by a literal that was just unassigned. Those with another true literal are watched by
        it from now on; in the others the autarky must not make any literal false. */
    method VisitWatches(x: int, c: Clause, ghost t: Start, ghost n: nat, ghost pending: set<int>)
      requires RefineOk(c, t, vals, bits, conditional, unassigned, n) && WatchOk(c, vals, bits, watched) && watched != 0
      requires 0 !in t.vals && DbOk(State()) && x !in vals && Safe(t, pending + {x})
      modifies this`bits, this`conditional, this`watched, this`occs
      ensures RefineOk(c, t, vals, bits, conditional, unassigned, n) && WatchOk(c, vals, bits, watched)
      ensures Safe(t, pending - {x}) && Spares(clauses, c, old(Now()), Now())
    {
      hide DbOk, RefineOk, Guarded, ListsOk, Spares, WatchOk, ComesFrom;
      var os := Occ(occs, x);
      var kept: seq<nat>, j := [], 0;
      occs := occs[x := os];
      SameLists(old(occs), occs, x);
      assert kept + os[0..] == os;
      GuardedSame(State(), old(occs), occs, t.vals, Lits(t.conditional), {});
      GuardedSame(State(), old(occs), occs, vals, bits, pending + {x});
      ListsSame(clauses, old(occs), occs, initial);
      ComesSame(old(occs), occs);
      SparesMove(clauses, c, old(Now()), occs);
      while j < |os| && watched != 0
        invariant 0 <= j <= |os| && Occ(occs, x) == kept + os[j..]
        invariant RefineOk(c, t, vals, bits, conditional, unassigned, n) && WatchOk(c, vals, bits, watched)
        invariant Safe(t, pending + {x})
        invariant watched != 0 ==> AllUntouched(State(), kept, vals, bits)
        invariant Spares(clauses, c, old(Now()), Now())
      {
        ghost var before := Now();
        kept := VisitWatch(x, c, os, j, kept, t, n, pending);
        SparesTrans(clauses, c, old(Now()), before, Now());
        j := j + 1;
      }
      if watched != 0 {
        assert kept + os[j..] == kept;
        KeptAll(State(), occs, kept, vals, bits, x);
        GuardedVisited(State(), occs, vals, bits, pending, x);
      }
    }

    /** One clause of the list. */
    method VisitWatch(x: int, c: Clause, os: seq<nat>, j: nat, kept: seq<nat>, ghost t: Start, ghost n: nat, ghost pending: set<int>)
      returns (kept': seq<nat>)
      requires RefineOk(c, t, vals, bits, conditional, unassigned, n) && WatchOk(c, vals, bits, watched) && watched != 0
      requires 0 !in t.vals && DbOk(State()) && x !in vals && Safe(t, pending + {x})
      requires j < |os| && Occ(occs, x) == kept + os[j..] && AllUntouched(State(), kept, vals, bits)
      modifies this`bits, this`conditional, this`watched, this`occs
      ensures RefineOk(c, t, vals, bits, conditional, unassigned, n) && WatchOk(c, vals, bits, watched)
      ensures Safe(t, pending + {x}) && Occ(occs, x) == kept' + os[j + 1..]
      ensures watched != 0 ==> AllUntouched(State(), kept', vals, bits)
      ensures Spares(clauses, c, old(Now()), Now())
    {
      ghost var now := Now();
      SparesRefl(clauses, c, now);
      var i := os[j];
      assert os[j..] == [i] + os[j + 1..];
      ListMember(clauses, occs, initial, x, kept, i, os[j + 1..]);
      DbClause(State(), i);
      hide DbOk, Guarded, ListsOk, AllUntouched, RefineOk, Spares;
      RefineVals(c, t, vals, bits, conditional, unassigned, n);
      var r := Scan(clauses[i]);
      if r.replacement != 0 {
        ghost var was := occs;
        occs := occs[x := kept + os[j + 1..]][r.replacement := Occ(occs, r.replacement) + [i]];
        Moved(was, occs, x, r.replacement, i, kept, os[j + 1..]);
        GuardedMove(State(), was, occs, vals, bits, pending + {x}, i, x, r.replacement);
        GuardedMove(State(), was, occs, t.vals, Lits(t.conditional), {}, i, x, r.replacement);
        ListsMoved(clauses, was, occs, initial, x, r.replacement, i, kept, os[j + 1..]);
        ComesMoved(was, occs, x, r.replacement, i, kept, os[j + 1..]);
        SparesMove(clauses, c, now, occs);
        kept' := kept;
      } else {
        kept' := kept + [i];
        assert kept' + os[j + 1..] == kept + os[j..];
        if r.negative > 0 {
          ghost var less := bits;
          MakeConditional(clauses[i], c, t, n);
          GuardedMore(State(), occs, vals, less, pending + {x}, bits);
          assert Occ(now.occs, x)[|kept|] == i;
          SparesMark(clauses, c, now, bits, x, |kept|);
          if watched != 0 {
            KeptMore(State(), kept, vals, less, bits);
            KeptOne(State(), kept, i, vals, bits);
          }
        } else {
          KeptOne(State(), kept, i, vals, bits);
        }
      }
    }

    /** Visits the watches of all literals that were unassigned and not yet visited, within the limit. */
    method VisitUnassigned(c: Clause, first: nat, limit: nat, ghost t: Start, ghost n: nat) returns (u: nat)
      requires RefineOk(c, t, vals, bits, conditional, unassigned, n) && WatchOk(c, vals, bits, watched)
      requires 0 !in t.vals && DbOk(State()) && first <= |unassigned| && Safe(t, Lits(unassigned[first..]))
      modifies this`bits, this`conditional, this`watched, this`occs, this`props
      ensures RefineOk(c, t, vals, bits, conditional, unassigned, n) && WatchOk(c, vals, bits, watched)
      ensures first <= u <= |unassigned| && Safe(t, Lits(unassigned[u..]))
      ensures watched == 0 || props >= limit || u == |unassigned|
      ensures Spares(clauses, c, old(Now()), Now()) && props == old(props) + (u - first)
    {
      u := first;
      SparesRefl(clauses, c, Now());
      while watched != 0 && props < limit && u < |unassigned|
        invariant first <= u <= |unassigned| && Safe(t, Lits(unassigned[u..]))
        invariant RefineOk(c, t, vals, bits, conditional, unassigned, n) && WatchOk(c, vals, bits, watched)
        invariant Spares(clauses, c, old(Now()), Now()) && props == old(props) + (u - first)
        decreases |unassigned| - u
      {
        hide RefineOk, DbOk, Safe, Spares;
        ghost var now := Now();
        var x := unassigned[u];
        PendingHead(unassigned, u);
        RefineUnassigned(c, t, vals, bits, conditional, unassigned, n, x);
        u := u + 1;
        props := props + 1;
        assert Safe(t, Lits(unassigned[u..]) + {x});
        VisitWatches(x, c, t, n, Lits(unassigned[u..]));
        SafeMore(this, t, Lits(unassigned[u..]) - {x}, Lits(unassigned[u..]));
        SparesTrans(clauses, c, old(Now()), now, Now());
      }
    }

    /** The next conditional literal: unless it occurs negated in the candidate, it is unassigned. */
    method RefineStep(c: Clause, n: nat, u: nat, limit: nat, ghost t: Start) returns (u': nat)
      requires n < |conditional| && u == |unassigned| && watched != 0 && candidate == Lits(c)
      requires RefineOk(c, t, vals, bits, conditional, unassigned, n) && WatchOk(c, vals, bits, watched)
      requires 0 !in t.vals && DbOk(State()) && Safe(t, {})
      modifies this`vals, this`bits, this`conditional, this`unassigned, this`watched, this`occs, this`props
      ensures u' <= |unassigned| && n + 1 <= |conditional|
      ensures RefineOk(c, t, vals, bits, conditional, unassigned, n + 1) && WatchOk(c, vals, bits, watched)
      ensures Safe(t, Lits(unassigned[u'..]))
      ensures watched == 0 || props >= limit || u' == |unassigned|
      ensures Spares(clauses, c, old(Now()), Now()) && u <= u' && props == old(props) + (u' - u)
    {
      hide DbOk, RefineOk, Spares;
      SparesRefl(clauses, c, Now());
      ghost var start := Now();
      var x := conditional[n];
      u' := u;
      assert Lits(unassigned[u..]) == {};
      assert -x in candidate <==> Opposite(x) in c;
      if -x in candidate {
        RefineKeep(c, t, vals, bits, conditional, unassigned, n);
        return;
      }
      RefineDrop(c, t, vals, bits, conditional, unassigned, n);
      GuardedUnassign(State(), occs, vals, bits, {}, x);
      assert {} + {x} == Lits([x]) && (unassigned + [x])[u..] == [x];
      SparesDrop(clauses, c, start, x);
      vals := vals - {x};
      unassigned := unassigned + [x];
      ghost var dropped := Now();
      WatchKept(c, vals + {x}, bits, watched, x);
      hide Guarded, ListsOk;
      u' := VisitUnassigned(c, u, limit, t, n + 1);
      SparesTrans(clauses, c, start, dropped, Now());
      RefineLength(c, t, vals, bits, conditional, unassigned, n + 1);
    }

    /** Refines the assignment until every conditional literal that is left occurs negated in the candidate, or the
        candidate has no autarky literal any more, or the limit is hit. */
    method Refine(c: Clause, limit: nat, ghost t: Start) returns (fixpoint: bool, ghost n: nat, ghost visited: nat)
      requires RefineOk(c, t, vals, bits, conditional, unassigned, 0) && WatchOk(c, vals, bits, watched)
      requires 0 !in t.vals && DbOk(State()) && unassigned == [] && Safe(t, {}) && candidate == Lits(c)
      modifies this`vals, this`bits, this`conditional, this`unassigned, this`watched, this`occs, this`props
      ensures n <= |conditional| && RefineOk(c, t, vals, bits, conditional, unassigned, n) && WatchOk(c, vals, bits, watched)
      ensures Safe(t, if fixpoint then {} else Lits(unassigned))
      ensures fixpoint ==> watched != 0 && n == |conditional|
      ensures visited <= |unassigned| <= |t.vals| && props == old(props) + visited && (fixpoint ==> visited == |unassigned|)
      ensures Spares(clauses, c, old(Now()), Now()) && (fixpoint || watched == 0 || props >= limit)
    {
      hide DbOk, RefineOk, Safe, Spares;
      SparesRefl(clauses, c, Now());
      var k, u := 0, 0;
      NothingPending(unassigned);
      while watched != 0 && props < limit && k < |conditional|
        invariant 0 <= k <= |conditional| && 0 <= u <= |unassigned|
        invariant RefineOk(c, t, vals, bits, conditional, unassigned, k) && WatchOk(c, vals, bits, watched)
        invariant Safe(t, Lits(unassigned[u..]))
        invariant watched == 0 || props >= limit || u == |unassigned|
        invariant Spares(clauses, c, old(Now()), Now()) && props == old(props) + u
        decreases |t.vals| - k
      {
        ghost var now := Now();
        NothingPending(unassigned);
        u := RefineStep(c, k, u, limit, t);
        SparesTrans(clauses, c, old(Now()), now, Now());
        k := k + 1;
        RefineBound(c, t, vals, bits, conditional, unassigned, k);
      }
      fixpoint := watched != 0 && props < limit;
      n, visited := k, u;
      UnassignedBound(c, t, vals, bits, conditional, unassigned, n);
      if fixpoint {
        NothingPending(unassigned);
      } else {
        SafeMore(this, t, Lits(unassigned[u..]), Lits(unassigned));
      }
    }

    /** The literals of the trail that are in the autarky, in order. */
    method CollectAutarky() returns (cube: seq<int>)
      ensures forall l :: l in cube <==> l in trail && IsAutarky(vals, bits, l)
    {
      cube := [];
      var k := 0;
      while k < |trail|
        invariant 0 <= k <= |trail| && forall l :: l in cube <==> l in trail[..k] && IsAutarky(vals, bits, l)
      {
        assert trail[..k + 1] == trail[..k] + [trail[k]];
        if IsAutarky(vals, bits, trail[k]) {
          cube := cube + [trail[k]];
        }
        k := k + 1;
      }
      assert trail[..k] == trail;
    }

    /** Removes a clause at the fixpoint, with the autarky as witness. */
    method RemoveBlocked(i: nat, ghost t: Start)
      requires DbOk(State()) && TrailConsistent(trail, units) && t.vals == Lits(trail) && external.Valid()
      requires i < |clauses| && i !in garbage && watched != 0 && WatchOk(clauses[i], vals, bits, watched) && Safe(t, {})
      requires RefineOk(clauses[i], t, vals, bits, conditional, unassigned, |conditional|)
      modifies this`garbage, external`extension, external`entries
      ensures DbOk(State()) && external.Valid() && garbage == old(garbage) + {i} && Safe(t, {})
      ensures old(external.entries) <= external.entries
      ensures Sound(Contents(old(State())), Contents(State()), external.entries[|old(external.entries)|..])
      ensures exists cube :: (forall l :: l in cube <==> l in trail && IsAutarky(vals, bits, l)) &&
                external.entries == old(external.entries) + [Entry(cube, 0, i, clauses[i])]
    {
      ghost var before, start := State(), external.entries;
      var c := clauses[i];
      DbClause(before, i);
      var cube := CollectAutarky();
      assert Guarded(before, occs, vals, bits, {});
      hide DbOk, ListsOk, Guarded;
      AutarkyCube(c, t, vals, bits, conditional, unassigned, trail, units, cube);
      FixpointBlocked(before, c, t, vals, bits, conditional, unassigned, watched, occs, trail, cube);
      hide RefineOk, Sound, GloballyBlocked, Contents;
      external.PushClauseWithWitness(c, 0, i, cube);
      assert external.entries[|start|..] == [Entry(cube, 0, i, c)];
      BlockedSoundHere(before, i, vals * bits, cube);
      GarbageGuarded(before, occs, i, t.vals, Lits(t.conditional));
      GarbageGuarded(before, occs, i, vals, bits);
      garbage := garbage + {i};
      GarbageOk(before, i);
    }

    /** Reassigns what was unassigned, and forgets the literals that became conditional. */
    method Restore(c: Clause, ghost n: nat, count: nat, ghost t: Start)
      requires RefineOk(c, t, vals, bits, conditional, unassigned, n) && count == |t.conditional|
      modifies this`vals, this`bits, this`conditional, this`unassigned
      ensures vals == t.vals && conditional == t.conditional && bits == Lits(t.conditional) && unassigned == []
    {
      ghost var all := conditional;
      while unassigned != []
        invariant vals == t.vals - Lits(unassigned) && Lits(unassigned) <= t.vals && Distinct(unassigned)
        invariant conditional == all && bits == Lits(all)
        decreases |unassigned|
      {
        var k := |unassigned| - 1;
        ForgetLast(unassigned);
        vals := vals + {unassigned[k]};
        unassigned := unassigned[..k];
      }
      while |conditional| > count
        invariant count <= |conditional| <= |all| && conditional == all[..|conditional|] && bits == Lits(conditional)
        invariant vals == t.vals && unassigned == []
        decreases |conditional|
      {
        ForgetLast(conditional);
        bits := bits - {conditional[|conditional| - 1]};
        conditional := conditional[..|conditional| - 1];
      }
    }

    /** Tries one candidate clause. If it is found to be globally blocked, it is removed with the autarky as witness,
        which is sound. If not, and the limit was not hit, no part of the assignment blocks it in the formula the round
        started from. In any case the assignment, the conditional literals and the marks are as they were. */
    method TryCandidate(i: nat, limit: nat) returns (blocked: bool)
      requires Ready() && i < |clauses| && i !in garbage && external.Valid()
      modifies this, external`extension, external`entries
      ensures initial == old(initial) && old(props) <= props <= old(props) + |vals|
      ensures !blocked && props < limit ==> NotBlockable(Named(old(clauses), initial), old(clauses)[i], vals)
      ensures Ready() && clauses == old(clauses) && garbage == (if blocked then old(garbage) + {i} else old(garbage))
      ensures vals == old(vals) && bits == old(bits) && conditional == old(conditional) && candidate == old(candidate)
      ensures external.Valid() && old(external.entries) <= external.entries
      ensures Sound(Contents(old(State())), Contents(State()), external.entries[|old(external.entries)|..])
    {
      hide DbOk, Guarded, ListsOk, Sound, Contents, TrailConsistent, ForcedBy, Within, NotBlockable, Named, WatchOk, RefineOk;
      ghost var t, before := Start(vals, conditional), State();
      var c, count := clauses[i], |conditional|;
      DbClause(State(), i);
      TrailProper(trail, units);
      blocked := false;
      candidate := Lits(c);
      watched := FindAutarky(c);
      if watched == 0 {
        assert external.entries[|external.entries|..] == [];
        NothingRemoved(before);
        SparesRefl(clauses, c, Now());
        GivenUp(clauses, initial, c, Now(), Now());
        candidate := {};
        return;
      }
      RefineNone(c, t, vals, bits);
      WithinLess(clauses, garbage, initial, i);
      ghost var n;
      blocked, n := RefineCandidate(i, limit, t);
      Restore(c, n, count, t);
      candidate := {};
    }

    /** Refines the assignment for a candidate, and removes the candidate if a fixpoint is reached. */
    method RefineCandidate(i: nat, limit: nat, ghost t: Start) returns (blocked: bool, ghost n: nat)
      requires DbOk(State()) && i < |clauses| && i !in garbage && external.Valid() && TrailConsistent(trail, units)
      requires t.vals == Lits(trail) && 0 !in t.vals && unassigned == [] && candidate == Lits(clauses[i]) && Safe(t, {})
      requires RefineOk(clauses[i], t, vals, bits, conditional, unassigned, 0) && WatchOk(clauses[i], vals, bits, watched)
      requires ForcedBy(clauses, initial, vals, bits) && vals == t.vals && watched != 0
      modifies this`vals, this`bits, this`conditional, this`unassigned, this`watched, this`occs, this`props
      modifies this`garbage, external`extension, external`entries
      ensures DbOk(State()) && RefineOk(clauses[i], t, vals, bits, conditional, unassigned, n)
      ensures ListsOk(clauses, occs, initial) && Guarded(State(), occs, t.vals, Lits(t.conditional), {})
      ensures old(props) <= props <= old(props) + |t.vals|
      ensures garbage == (if blocked then old(garbage) + {i} else old(garbage))
      ensures external.Valid() && old(external.entries) <= external.entries
      ensures Sound(Contents(old(State())), Contents(State()), external.entries[|old(external.entries)|..])
      ensures !blocked && props < limit ==> NotBlockable(Named(clauses, initial), clauses[i], t.vals)
    {
      hide DbOk, Guarded, ListsOk, Sound, Contents, TrailConsistent, Spares, ForcedBy, NotBlockable, Named, WatchOk, RefineOk;
      ghost var now := Now();
      ghost var visited;
      blocked, n, visited := Refine(clauses[i], limit, t);
      if blocked {
        RemoveBlocked(i, t);
      } else {
        assert external.entries[|external.entries|..] == [];
        NothingRemoved(State());
        if watched == 0 {
          GivenUp(clauses, initial, clauses[i], now, Now());
        }
      }
    }

    /** Between two candidates. */
    ghost predicate Ready()
      reads this
    {
      && DbOk(State()) && TrailConsistent(trail, units) && vals == Lits(trail) && bits == Lits(conditional)
      && Distinct(conditional) && Lits(conditional) <= vals && unassigned == [] && candidate == {}
      && ListsOk(clauses, occs, initial) && Guarded(State(), occs, vals, bits, {})
      && ForcedBy(clauses, initial, vals, bits) && Within(clauses, garbage, initial)
    }

    /** The assignment and the conditional literals, before any watches. */
    ghost predicate Assigned0()
      reads this
    {
      && TrailConsistent(trail, units) && vals == Lits(trail) && bits == Lits(conditional) && Distinct(conditional)
      && Lits(conditional) <= vals && unassigned == [] && candidate == {}
    }

    /** Part of the way through the clauses: those before k are guarded. */
    ghost predicate Preparing(k: nat)
      reads this
    {
      && DbOk(State()) && Assigned0() && ListsOk(clauses, occs, initial) && GuardedTo(State(), occs, vals, bits, k)
      && ForcedBy(clauses, initial, vals, bits) && WithinTo(clauses, garbage, initial, k)
    }

    /** The true literal of a clause with the fewest watches, and the numbers of true and false literals. */
    method Classify(d: Clause) returns (satisfied: bool, positive: nat, negative: nat, watch: int)
      requires TrailConsistent(trail, units) && vals == Lits(trail)
      ensures satisfied <==> Satisfied(d, units)
      ensures !satisfied && positive > 0 ==> watch in d && watch in vals
      ensures !satisfied && positive == 0 ==> NoneTrue(d, vals)
      ensures !satisfied && negative == 0 ==> forall l :: l in d ==> Opposite(l) !in vals
    {
      satisfied, positive, negative, watch := false, 0, 0, 0;
      var k, least := 0, 0;
      while k < |d| && !satisfied
        invariant 0 <= k <= |d| && (satisfied ==> Satisfied(d, units)) && (positive > 0 ==> watch in d && watch in vals)
        invariant negative == 0 && !satisfied ==> forall l :: l in d[..k] ==> Opposite(l) !in vals
        invariant !satisfied ==> (positive == 0 ==> NoneTrue(d[..k], vals)) && !Satisfied(d[..k], units)
      {
        var lit := d[k];
        assert d[..k + 1] == d[..k] + [lit] && lit in d;
        NotBothTrue(trail, units, lit);
        if lit in units || -lit in units {
          satisfied := lit in units;
        } else if lit in vals {
          var size := |Occ(occs, lit)|;
          if positive == 0 || size < least {
            watch, least := lit, size;
          }
          positive := positive + 1;
        } else if -lit in vals {
          negative := negative + 1;
        }
        k := k + 1;
      }
      if !satisfied { assert d[..k] == d; }
    }

    /** The negations of all literals of a falsified clause become conditional. */
    method MarkInitial(d: Clause)
      requires Assigned0()
      modifies this`bits, this`conditional
      ensures Assigned0() && old(bits) <= bits && Untouched(d, vals, bits)
      ensures forall b :: b in bits ==> b in old(bits) || Opposite(b) in d
    {
      var k := 0;
      while k < |d|
        invariant 0 <= k <= |d| && Assigned0() && old(bits) <= bits && Untouched(d[..k], vals, bits)
        invariant forall b :: b in bits ==> b in old(bits) || Opposite(b) in d
      {
        var lit := d[k];
        assert d[..k + 1] == d[..k] + [lit] && lit in d && Opposite(lit) == -lit && Opposite(-lit) == lit;
        if -lit in vals && -lit !in bits {
          assert -lit !in conditional by { assert -lit in conditional ==> -lit in Lits(conditional); }
          assert Lits(conditional + [-lit]) == Lits(conditional) + {-lit};
          bits := bits + {-lit};
          conditional := conditional + [-lit];
        }
        k := k + 1;
      }
      assert d[..k] == d;
    }

    /** Sorts one clause in: removed if satisfied, watched, or the source of conditional literals. */
    method PrepareClause(k: nat, ghost before: Db) returns (candidate': bool)
      requires Preparing(k) && k < |clauses| && Sound(Contents(before), Contents(State()), [])
      modifies this`garbage, this`bits, this`conditional, this`occs, this`initial
      ensures Preparing(k + 1) && Sound(Contents(before), Contents(State()), [])
      ensures garbage == if Satisfied(clauses[k], units) then old(garbage) + {k} else old(garbage)
      ensures !candidate' && k !in garbage ==> NoneTrue(clauses[k], vals)
    {
      hide DbOk, ListsOk, GuardedTo, Sound, Contents, Untouched, ForcedBy, WithinTo, Satisfied, NoneTrue;
      candidate' := false;
      if k in garbage {
        GuardedSkip(State(), occs, vals, bits, k);
        WithinStep(clauses, garbage, initial, k);
        assert garbage + {k} == garbage;
        return;
      }
      var satisfied, positive, negative, watch := Classify(clauses[k]);
      if satisfied {
        RootSatisfied(before, State(), k);
        GuardedGarbage(State(), occs, vals, bits, k);
        WithinStep(clauses, garbage + {k}, initial, k);
        garbage := garbage + {k};
        return;
      }
      WithinStep(clauses, garbage, initial, k);
      ForcedGrows(clauses, initial, vals, bits, k);
      ListsGrow(clauses, occs, initial, k);
      initial := initial + {k};
      candidate' := positive > 0;
      if negative > 0 && positive > 0 {
        ListsWatch(clauses, occs, initial, k, watch);
        GuardedWatch(State(), occs, vals, bits, k, watch);
        occs := occs[watch := Occ(occs, watch) + [k]];
      } else if negative > 0 {
        ghost var less := bits;
        MarkInitial(clauses[k]);
        ForcedMore(clauses, initial, vals, less, bits, k);
        GuardedMarked(State(), occs, vals, less, bits, k);
      } else {
        NotTouched(clauses[k], vals, bits);
        GuardedMarked(State(), occs, vals, bits, bits, k);
      }
    }

    /** Looks at all clauses: satisfied ones are removed, those with true and false literals are watched by a true one,
        and the negations of all literals of the falsified ones become the first conditional literals. Returns the
        clauses with a true literal. */
    method Prepare() returns (candidates: seq<nat>)
      requires Preparing(0)
      modifies this`garbage, this`bits, this`conditional, this`occs, this`initial
      ensures Ready() && clauses == old(clauses)
      ensures forall i: nat :: i in initial <==> i < |clauses| && i !in old(garbage) && !Satisfied(clauses[i], units)
      ensures garbage == old(garbage) + SatisfiedTo(clauses, units, |clauses|)
      ensures |candidates| <= |clauses| && forall i :: i in candidates ==> i < |clauses|
      ensures LeftOver(clauses, garbage, candidates, vals, |clauses|)
      ensures Sound(Contents(old(State())), Contents(State()), [])
    {
      ghost var before := State();
      candidates := [];
      NothingRemoved(before);
      hide DbOk, ListsOk, GuardedTo, Sound, Contents, Assigned0, ForcedBy, Satisfied, NoneTrue;
      var k := 0;
      while k < |clauses|
        invariant 0 <= k <= |clauses| && Preparing(k) && clauses == before.clauses
        invariant garbage == before.garbage + SatisfiedTo(clauses, units, k)
        invariant LeftOver(clauses, garbage, candidates, vals, k)
        invariant |candidates| <= k && forall i :: i in candidates ==> i < |clauses|
        invariant Sound(Contents(before), Contents(State()), [])
      {
        var some := PrepareClause(k, before);
        if some {
          candidates := candidates + [k];
        }
        k := k + 1;
      }
      AllPrepared(this);
    }

    /** One round over all candidates. Whatever limit stops it, the clauses removed can be reconstructed from the
        extension stack. If no limit stops it, no clause that stays was blocked by a part of the assignment. */
    method ConditionRound(limit: nat)
      requires Preparing(0) && external.Valid()
      modifies this, external`extension, external`entries
      ensures external.Valid() && old(external.entries) <= external.entries && clauses == old(clauses) && vals == old(vals)
      ensures Sound(Contents(old(State())), Contents(State()), external.entries[|old(external.entries)|..])
      ensures forall i: nat :: i in initial <==> i < |clauses| && i !in old(garbage) && !Satisfied(clauses[i], units)
      ensures props < limit ==> forall i: nat :: i < |clauses| && i !in garbage ==>
                NotBlockable(Named(clauses, initial), clauses[i], vals)
      ensures old(props) <= props <= old(props) + |clauses| * |vals|
      ensures bits == {} && conditional == [] && unassigned == [] && candidate == {} && occs == map[]
    {
      hide DbOk, ListsOk, Guarded, GuardedTo, Sound, Contents, Assigned0, TrailConsistent, ForcedBy, NotBlockable, Named,
           Satisfied, NoneTrue, Within, LeftOver, SatisfiedTo;
      ghost var before, start := State(), external.entries;
      var candidates := Prepare();
      ghost var first := garbage;
      assert external.entries[|start|..] == [];
      var k := 0;
      while k < |candidates| && props < limit
        invariant 0 <= k <= |candidates| && Ready() && external.Valid() && start <= external.entries
        invariant clauses == old(clauses) && vals == old(vals) && first <= garbage
        invariant forall i: nat :: i in initial <==> i < |clauses| && i !in old(garbage) && !Satisfied(clauses[i], units)
        invariant props < limit ==> Tried(clauses, garbage, initial, candidates[..k], vals)
        invariant Sound(Contents(before), Contents(State()), external.entries[|start|..])
        invariant old(props) <= props <= old(props) + k * |vals|
        modifies this, external`extension, external`entries
      {
        assert (k + 1) * |vals| == k * |vals| + |vals|;
        var i := candidates[k];
        assert i in candidates && candidates[..k + 1] == candidates[..k] + [i];
        ghost var g := garbage;
        if i !in garbage {
          ghost var middle, was := State(), external.entries;
          var blocked := TryCandidate(i, limit);
          SoundTrans(Contents(before), Contents(middle), Contents(State()), was[|start|..], external.entries[|was|..]);
          assert external.entries[|start|..] == was[|start|..] + external.entries[|was|..];
        }
        if props < limit {
          TriedMore(clauses, g, garbage, initial, candidates[..k], i, vals);
        }
        k := k + 1;
      }
      if props < limit {
        assert candidates[..k] == candidates;
        AllTried(clauses, first, garbage, initial, candidates, vals);
      }
      MoreTimes(k, |clauses|, |vals|);
      Unmark();
    }

    /** Unmarks the conditional literals, and empties the stacks and lists. */
    method Unmark()
      requires bits == Lits(conditional)
      modifies this`bits, this`conditional, this`unassigned, this`occs
      ensures bits == {} && conditional == [] && unassigned == [] && occs == map[]
    {
      var k := 0;
      while k < |conditional|
        invariant 0 <= k <= |conditional| && conditional == old(conditional) && bits <= Lits(conditional[k..])
        modifies this`bits
      {
        assert conditional[k..] == [conditional[k]] + conditional[k + 1..];
        bits := bits - {conditional[k]};
        k := k + 1;
      }
      conditional, unassigned, occs := [], [], map[];
    }
  }

  lemma TrailProper(trail: seq<int>, units: set<int>)
    requires TrailConsistent(trail, units)
    ensures 0 !in Lits(trail)
  {
  }

  lemma MoreTimes(a: nat, b: nat, n: nat)
    requires a <= b
    ensures a * n <= b * n
  {
  }

  /** The clauses before k that are satisfied at the root. */
  ghost function SatisfiedTo(clauses: seq<Clause>, units: set<int>, k: nat): set<nat>
    requires k <= |clauses|
  {
    set i: nat | i < k && Satisfied(clauses[i], units)
  }

  /** The live clauses before k that are no candidates have no true literal. */
  ghost predicate LeftOver(clauses: seq<Clause>, garbage: set<nat>, candidates: seq<nat>, vals: set<int>, k: nat)
  {
    forall i: nat :: i < k <= |clauses| && i !in garbage && i !in candidates ==> NoneTrue(clauses[i], vals)
  }

  /** The candidates were removed or are not blocked. */
  ghost predicate Tried(clauses: seq<Clause>, garbage: set<nat>, initial: set<nat>, done: seq<nat>, vals: set<int>)
  {
    forall i :: i in done && i < |clauses| && i !in garbage ==> NotBlockable(Named(clauses, initial), clauses[i], vals)
  }

  lemma TriedMore(clauses: seq<Clause>, was: set<nat>, garbage: set<nat>, initial: set<nat>, done: seq<nat>, i: nat, vals: set<int>)
    requires Tried(clauses, was, initial, done, vals) && was <= garbage
    requires i < |clauses| && i !in garbage ==> NotBlockable(Named(clauses, initial), clauses[i], vals)
    ensures Tried(clauses, garbage, initial, done + [i], vals)
  {
    hide NotBlockable;
  }

  lemma AllTried(clauses: seq<Clause>, was: set<nat>, garbage: set<nat>, initial: set<nat>, candidates: seq<nat>, vals: set<int>)
    requires Tried(clauses, garbage, initial, candidates, vals) && was <= garbage
    requires LeftOver(clauses, was, candidates, vals, |clauses|)
    ensures forall i: nat :: i < |clauses| && i !in garbage ==> NotBlockable(Named(clauses, initial), clauses[i], vals)
  {
    forall i: nat | i < |clauses| && i !in garbage ensures NotBlockable(Named(clauses, initial), clauses[i], vals) {
      if i !in candidates { NoneTrueNotBlockable(Named(clauses, initial), clauses[i], vals); }
    }
  }

  /** The set holds all live clauses. */
  ghost predicate Within(clauses: seq<Clause>, garbage: set<nat>, initial: set<nat>)
  {
    forall i: nat :: i < |clauses| && i !in garbage ==> i in initial
  }

  lemma WithinStep(clauses: seq<Clause>, garbage: set<nat>, initial: set<nat>, k: nat)
    requires k < |clauses| && exists less: set<nat> :: less + {k} == garbage + {k} && WithinTo(clauses, less, initial, k)
    ensures WithinTo(clauses, garbage, if k in garbage then initial else initial + {k}, k + 1)
  {
  }

  lemma WithinLess(clauses: seq<Clause>, garbage: set<nat>, initial: set<nat>, i: nat)
    requires Within(clauses, garbage, initial)
    ensures Within(clauses, garbage + {i}, initial)
  {
  }

  /** The set holds exactly the live clauses before k. */
  ghost predicate WithinTo(clauses: seq<Clause>, garbage: set<nat>, initial: set<nat>, k: nat)
  {
    k <= |clauses| && forall i: nat :: i in initial <==> i < k && i !in garbage
  }

  ghost predicate NoneTrue(d: Clause, vals: set<int>)
  {
    forall l :: l in d ==> l !in vals
  }

  /** Every conditional literal is the negation of a literal in a clause without true literal. */
  ghost predicate ForcedBy(clauses: seq<Clause>, initial: set<nat>, vals: set<int>, bits: set<int>)
  {
    forall b :: b in bits ==> Forced(clauses, initial, vals, b)
  }

  ghost predicate Forced(clauses: seq<Clause>, initial: set<nat>, vals: set<int>, b: int)
  {
    exists k: nat :: k in initial && k < |clauses| && Opposite(b) in clauses[k] && NoneTrue(clauses[k], vals)
  }

  lemma ForcedMore(clauses: seq<Clause>, initial: set<nat>, vals: set<int>, bits: set<int>, more: set<int>, k: nat)
    requires ForcedBy(clauses, initial, vals, bits) && k in initial && k < |clauses| && NoneTrue(clauses[k], vals)
    requires forall b :: b in more ==> b in bits || Opposite(b) in clauses[k]
    ensures ForcedBy(clauses, initial, vals, more)
  {
    forall b | b in more ensures Forced(clauses, initial, vals, b) {
      if b !in bits { assert Opposite(b) in clauses[k]; }
    }
  }

  lemma ForcedGrows(clauses: seq<Clause>, initial: set<nat>, vals: set<int>, bits: set<int>, k: nat)
    requires ForcedBy(clauses, initial, vals, bits)
    ensures ForcedBy(clauses, initial + {k}, vals, bits)
  {
    forall b | b in bits ensures Forced(clauses, initial + {k}, vals, b) {
      var j: nat :| j in initial && j < |clauses| && Opposite(b) in clauses[j] && NoneTrue(clauses[j], vals);
      assert j in initial + {k};
    }
  }

  lemma ListsGrow(clauses: seq<Clause>, occs: Occs, within: set<nat>, k: nat)
    requires ListsOk(clauses, occs, within)
    ensures ListsOk(clauses, occs, within + {k})
  {
    forall w ensures Names(clauses, Occ(occs, w), within + {k}, w) { assert Names(clauses, Occ(occs, w), within, w); }
  }

  // ----- What stays is not blocked -------------------------------------------------------------------

  function Named(clauses: seq<Clause>, initial: set<nat>): Formula
  {
    set k | k in initial && k < |clauses| :: clauses[k]
  }

  /** No two parts of the assignment are a conditional part and an autarky that block the clause. */
  ghost predicate NotBlockable(f: Formula, c: Clause, vals: set<int>)
  {
    forall cond: set<int>, aut: seq<int> :: cond <= vals && Lits(aut) <= vals ==> !GloballyBlocked(f - {c}, c, cond, aut)
  }

  lemma BlockableFits(clauses: seq<Clause>, initial: set<nat>, c: Clause, a: Split, cond: set<int>, aut: seq<int>)
    requires ListsOk(clauses, a.occs, initial) && ForcedBy(clauses, initial, a.vals, a.bits)
    requires cond <= a.vals && Lits(aut) <= a.vals && GloballyBlocked(Named(clauses, initial) - {c}, c, cond, aut)
    ensures Fits(clauses, c, a.occs, cond + Lits(aut), Lits(aut)) && Spared(a.vals, a.bits, cond + Lits(aut), Lits(aut))
  {
    var keep := cond + Lits(aut);
    forall k: nat | k in initial && k < |clauses| ensures Tolerates(clauses[k], keep, Lits(aut)) {
      InitialTolerates(clauses, initial, c, k, cond, aut);
    }
    forall w ensures AllTolerate(clauses, Occ(a.occs, w), keep, Lits(aut)) {
      assert Names(clauses, Occ(a.occs, w), initial, w);
    }
    forall b | b in Lits(aut) ensures b !in a.bits {
      NotForced(clauses, initial, a.vals, keep, Lits(aut), b);
    }
  }

  lemma NotForced(clauses: seq<Clause>, initial: set<nat>, vals: set<int>, keep: set<int>, aut: set<int>, b: int)
    requires b in aut && keep <= vals
    requires forall k: nat :: k in initial && k < |clauses| ==> Tolerates(clauses[k], keep, aut)
    ensures !Forced(clauses, initial, vals, b)
  {
    forall k: nat | k in initial && k < |clauses| && Opposite(b) in clauses[k]
      ensures !NoneTrue(clauses[k], vals)
    {
      assert Opposite(Opposite(b)) == b && Tolerates(clauses[k], keep, aut);
      var m :| m in clauses[k] && m in keep;
      assert m in vals;
    }
  }

  lemma InitialTolerates(clauses: seq<Clause>, initial: set<nat>, c: Clause, k: nat, cond: set<int>, aut: seq<int>)
    requires k in initial && k < |clauses| && GloballyBlocked(Named(clauses, initial) - {c}, c, cond, aut)
    ensures Tolerates(clauses[k], cond + Lits(aut), Lits(aut))
  {
    var d := clauses[k];
    if d == c {
      var m :| m in c && m in aut;
      assert m in cond + Lits(aut);
    } else if m :| m in d && Opposite(m) in Lits(aut) {
      assert d in Named(clauses, initial) - {c} && Touched(d, aut);
      var m' :| m' in d && (m' in cond || m' in aut);
      assert m' in cond + Lits(aut);
    }
  }

  /** A refinement that ends without autarky literal in the candidate shows that the candidate is not blocked. */
  lemma GivenUp(clauses: seq<Clause>, initial: set<nat>, c: Clause, a: Split, b: Split)
    requires ListsOk(clauses, a.occs, initial) && ForcedBy(clauses, initial, a.vals, a.bits) && Spares(clauses, c, a, b)
    requires WatchOk(c, b.vals, b.bits, 0)
    ensures NotBlockable(Named(clauses, initial), c, a.vals)
  {
    forall cond: set<int>, aut: seq<int> | cond <= a.vals && Lits(aut) <= a.vals
      ensures !GloballyBlocked(Named(clauses, initial) - {c}, c, cond, aut)
    {
      if GloballyBlocked(Named(clauses, initial) - {c}, c, cond, aut) {
        AutarkyLeft(clauses, initial, c, a, b, cond, aut);
      }
    }
  }

  lemma AutarkyLeft(clauses: seq<Clause>, initial: set<nat>, c: Clause, a: Split, b: Split, cond: set<int>, aut: seq<int>)
    requires ListsOk(clauses, a.occs, initial) && ForcedBy(clauses, initial, a.vals, a.bits) && Spares(clauses, c, a, b)
    requires cond <= a.vals && Lits(aut) <= a.vals && GloballyBlocked(Named(clauses, initial) - {c}, c, cond, aut)
    ensures exists l :: l in c && IsAutarky(b.vals, b.bits, l)
  {
    BlockableFits(clauses, initial, c, a, cond, aut);
    assert Spared(b.vals, b.bits, cond + Lits(aut), Lits(aut));
    var m :| m in c && m in aut;
    assert m in Lits(aut) && IsAutarky(b.vals, b.bits, m);
  }

  /** A clause without true literal is not blocked by any part of the assignment. */
  lemma NoneTrueNotBlockable(f: Formula, c: Clause, vals: set<int>)
    requires NoneTrue(c, vals)
    ensures NotBlockable(f, c, vals)
  {
    forall cond: set<int>, aut: seq<int> | cond <= vals && Lits(aut) <= vals
      ensures !GloballyBlocked(f - {c}, c, cond, aut)
    {
      if GloballyBlocked(f - {c}, c, cond, aut) {
        BlockedHasTrue(f - {c}, c, cond, aut, vals);
      }
    }
  }

  lemma BlockedHasTrue(f: Formula, c: Clause, cond: set<int>, aut: seq<int>, vals: set<int>)
    requires GloballyBlocked(f, c, cond, aut) && Lits(aut) <= vals
    ensures !NoneTrue(c, vals)
  {
    var m :| m in c && m in aut;
    assert m in Lits(aut);
  }

  /** The clauses before k are guarded. */
  ghost predicate GuardedTo(db: Db, occs: Occs, vals: set<int>, bits: set<int>, k: nat)
  {
    forall i :: 0 <= i < k && Live(db, i) ==>
      Untouched(db.clauses[i], vals, bits) || Watched(db.clauses[i], i, occs, vals, {})
  }

  lemma NotBothTrue(trail: seq<int>, units: set<int>, l: int)
    requires TrailConsistent(trail, units)
    ensures l in trail ==> !(Opposite(l) in trail)
    ensures l in units || Opposite(l) in units ==> l !in trail && Opposite(l) !in trail
  {
    assert Opposite(Opposite(l)) == l;
  }

  lemma NotTouched(d: Clause, vals: set<int>, bits: set<int>)
    requires forall l :: l in d ==> Opposite(l) !in vals
    ensures Untouched(d, vals, bits)
  {
  }

  lemma GuardedSkip(db: Db, occs: Occs, vals: set<int>, bits: set<int>, k: nat)
    requires GuardedTo(db, occs, vals, bits, k) && k in db.garbage
    ensures GuardedTo(db, occs, vals, bits, k + 1)
  {
  }

  lemma GuardedGarbage(db: Db, occs: Occs, vals: set<int>, bits: set<int>, k: nat)
    requires GuardedTo(db, occs, vals, bits, k)
    ensures GuardedTo(db.(garbage := db.garbage + {k}), occs, vals, bits, k + 1)
  {
    var b := db.(garbage := db.garbage + {k});
    forall i | 0 <= i < k + 1 && Live(b, i)
      ensures Untouched(b.clauses[i], vals, bits) || Watched(b.clauses[i], i, occs, vals, {})
    {
      assert Live(db, i) && i < k;
    }
  }

  lemma GuardedWatch(db: Db, occs: Occs, vals: set<int>, bits: set<int>, k: nat, w: int)
    requires GuardedTo(db, occs, vals, bits, k) && k < |db.clauses| && w in db.clauses[k] && w in vals
    ensures GuardedTo(db, occs[w := Occ(occs, w) + [k]], vals, bits, k + 1)
  {
    var more := occs[w := Occ(occs, w) + [k]];
    forall i | 0 <= i < k + 1 && Live(db, i)
      ensures Untouched(db.clauses[i], vals, bits) || Watched(db.clauses[i], i, more, vals, {})
    {
      if i == k {
        assert k in Occ(more, w);
      } else if !Untouched(db.clauses[i], vals, bits) {
        var x :| x in db.clauses[i] && i in Occ(occs, x) && (x in vals || x in {});
        assert i in Occ(more, x);
      }
    }
  }

  lemma ListsWatch(clauses: seq<Clause>, occs: Occs, within: set<nat>, k: nat, w: int)
    requires ListsOk(clauses, occs, within) && k in within && k < |clauses| && w in clauses[k]
    ensures ListsOk(clauses, occs[w := Occ(occs, w) + [k]], within)
  {
    var more := occs[w := Occ(occs, w) + [k]];
    forall x
      ensures Names(clauses, Occ(more, x), within, x)
    {
      assert Names(clauses, Occ(occs, x), within, x);
      assert Occ(more, x) == if x == w then Occ(occs, w) + [k] else Occ(occs, x);
    }
  }

  lemma GuardedMarked(db: Db, occs: Occs, vals: set<int>, bits: set<int>, more: set<int>, k: nat)
    requires GuardedTo(db, occs, vals, bits, k) && bits <= more && k < |db.clauses| && Untouched(db.clauses[k], vals, more)
    ensures GuardedTo(db, occs, vals, more, k + 1)
  {
    forall i | 0 <= i < k + 1 && Live(db, i)
      ensures Untouched(db.clauses[i], vals, more) || Watched(db.clauses[i], i, occs, vals, {})
    {
      assert Untouched(db.clauses[i], vals, bits) ==> Untouched(db.clauses[i], vals, more);
    }
  }

  /** Removing a clause that is satisfied at the root. */
  lemma RootSatisfied(a: Db, b: Db, k: nat)
    requires Sound(Contents(a), Contents(b), []) && DbOk(b) && !b.unsat && k < |b.clauses| && Satisfied(b.clauses[k], b.units)
    ensures Sound(Contents(a), Contents(b.(garbage := b.garbage + {k})), []) && DbOk(b.(garbage := b.garbage + {k}))
  {
    var c := b.(garbage := b.garbage + {k});
    SatisfiedRemoved(b, k);
    forall s
      ensures Sat(s, Contents(b)) <==> Sat(s, Contents(c))
    {
      PropagatedModels(s, b, c);
      ContentsModels(s, b);
      ContentsModels(s, c);
    }
  }

  lemma AllPrepared(d: Conditioner)
    requires d.Preparing(|d.clauses|)
    ensures d.Ready()
  {
  }

  /** An autarky literal becomes conditional. */
  lemma RefineMark(c: Clause, t: Start, vals: set<int>, bits: set<int>, conditional: seq<int>, unassigned: seq<int>, n: nat, l: int)
    requires RefineOk(c, t, vals, bits, conditional, unassigned, n) && IsAutarky(vals, bits, l)
    ensures RefineOk(c, t, vals, bits + {l}, conditional + [l], unassigned, n)
  {
    var more := conditional + [l];
    assert Lits(more) == Lits(conditional) + {l};
    assert l !in conditional by { assert l !in Lits(conditional); }
    assert more[..n] == conditional[..n];
    forall k | 0 <= k < n ensures more[k] in unassigned || Opposite(more[k]) in c { assert more[k] == conditional[k]; }
  }

  /** Lists only name clauses of the given set, with the literal. */
  ghost predicate ListsOk(clauses: seq<Clause>, occs: Occs, within: set<nat>)
  {
    forall w :: Names(clauses, Occ(occs, w), within, w)
  }

  ghost predicate Names(clauses: seq<Clause>, os: seq<nat>, within: set<nat>, w: int)
  {
    forall j :: 0 <= j < |os| ==> os[j] in within && os[j] < |clauses| && w in clauses[os[j]]
  }

  ghost predicate AllUntouched(db: Db, kept: seq<nat>, vals: set<int>, bits: set<int>)
  {
    forall k :: k in kept && Live(db, k) ==> Untouched(db.clauses[k], vals, bits)
  }

  lemma KeptMore(db: Db, kept: seq<nat>, vals: set<int>, bits: set<int>, more: set<int>)
    requires AllUntouched(db, kept, vals, bits) && bits <= more
    ensures AllUntouched(db, kept, vals, more)
  {
    forall k | k in kept && Live(db, k) ensures Untouched(db.clauses[k], vals, more) {
      assert Untouched(db.clauses[k], vals, bits);
    }
  }

  lemma KeptOne(db: Db, kept: seq<nat>, i: nat, vals: set<int>, bits: set<int>)
    requires AllUntouched(db, kept, vals, bits) && i < |db.clauses| && Untouched(db.clauses[i], vals, bits)
    ensures AllUntouched(db, kept + [i], vals, bits)
  {
  }

  lemma KeptAll(db: Db, occs: Occs, kept: seq<nat>, vals: set<int>, bits: set<int>, x: int)
    requires AllUntouched(db, kept, vals, bits) && Occ(occs, x) == kept
    ensures forall k :: k in Occ(occs, x) && Live(db, k) ==> Untouched(db.clauses[k], vals, bits)
  {
  }

  lemma SameLists(a: Occs, b: Occs, x: int)
    requires b == a[x := Occ(a, x)]
    ensures forall w :: Occ(a, w) == Occ(b, w)
  {
  }

  lemma GuardedSame(db: Db, a: Occs, b: Occs, vals: set<int>, bits: set<int>, pending: set<int>)
    requires Guarded(db, a, vals, bits, pending) && forall w :: Occ(a, w) == Occ(b, w)
    ensures Guarded(db, b, vals, bits, pending)
  {
    forall i | Live(db, i) && !Untouched(db.clauses[i], vals, bits)
      ensures Watched(db.clauses[i], i, b, vals, pending)
    {
      var w :| w in db.clauses[i] && i in Occ(a, w) && (w in vals || w in pending);
      assert i in Occ(b, w);
    }
  }

  lemma ListsSame(clauses: seq<Clause>, a: Occs, b: Occs, within: set<nat>)
    requires ListsOk(clauses, a, within) && forall w :: Occ(a, w) == Occ(b, w)
    ensures ListsOk(clauses, b, within)
  {
    forall w ensures Names(clauses, Occ(b, w), within, w) { assert Names(clauses, Occ(a, w), within, w); }
  }

  lemma ListMember(clauses: seq<Clause>, occs: Occs, within: set<nat>, x: int, kept: seq<nat>, i: nat, rest: seq<nat>)
    requires ListsOk(clauses, occs, within) && Occ(occs, x) == kept + ([i] + rest)
    ensures i in within && i < |clauses| && x in clauses[i]
  {
    assert Names(clauses, Occ(occs, x), within, x);
    assert Occ(occs, x)[|kept|] == i;
  }

  lemma RefineVals(c: Clause, t: Start, vals: set<int>, bits: set<int>, conditional: seq<int>, unassigned: seq<int>, n: nat)
    requires RefineOk(c, t, vals, bits, conditional, unassigned, n)
    ensures vals <= t.vals
  {
  }

  lemma Moved(was: Occs, occs: Occs, x: int, r: int, i: nat, kept: seq<nat>, rest: seq<nat>)
    requires x != r && Occ(was, x) == kept + ([i] + rest)
    requires occs == was[x := kept + rest][r := Occ(was, r) + [i]]
    ensures forall w, k :: k in Occ(was, w) && !(w == x && k == i) ==> k in Occ(occs, w)
    ensures i in Occ(occs, r) && Occ(occs, x) == kept + rest
  {
    assert i in Occ(was, r) + [i];
  }

  lemma ListsMoved(clauses: seq<Clause>, was: Occs, occs: Occs, within: set<nat>, x: int, r: int, i: nat, kept: seq<nat>, rest: seq<nat>)
    requires ListsOk(clauses, was, within) && x != r && Occ(was, x) == kept + ([i] + rest) && i in within && i < |clauses| && r in clauses[i]
    requires occs == was[x := kept + rest][r := Occ(was, r) + [i]]
    ensures ListsOk(clauses, occs, within)
  {
    forall w
      ensures Names(clauses, Occ(occs, w), within, w)
    {
      assert Names(clauses, Occ(was, w), within, w);
      assert Occ(occs, w) == if w == r then Occ(was, r) + [i] else if w == x then kept + rest else Occ(was, w);
      if w == x { NamesLess(clauses, kept, i, rest, within, x); }
    }
  }

  lemma NamesLess(clauses: seq<Clause>, kept: seq<nat>, i: nat, rest: seq<nat>, within: set<nat>, w: int)
    requires Names(clauses, kept + ([i] + rest), within, w)
    ensures Names(clauses, kept + rest, within, w)
  {
    var all, less := kept + ([i] + rest), kept + rest;
    forall j | 0 <= j < |less| ensures less[j] in within && less[j] < |clauses| && w in clauses[less[j]] {
      assert less[j] == all[if j < |kept| then j else j + 1];
    }
  }

  lemma NothingPending(unassigned: seq<int>)
    ensures Lits(unassigned[|unassigned|..]) == {}
  {
  }

  lemma PendingHead(unassigned: seq<int>, u: nat)
    requires u < |unassigned|
    ensures Lits(unassigned[u..]) == Lits(unassigned[u + 1..]) + {unassigned[u]}
  {
    assert unassigned[u..] == [unassigned[u]] + unassigned[u + 1..];
  }

  lemma SafeMore(d: Conditioner, t: Start, pending: set<int>, more: set<int>)
    requires d.Safe(t, pending) && pending <= more
    ensures d.Safe(t, more)
  {
    if d.watched != 0 {
      forall i | Live(d.State(), i) && !Untouched(d.clauses[i], d.vals, d.bits)
        ensures Watched(d.clauses[i], i, d.occs, d.vals, more)
      {
        var w :| w in d.clauses[i] && i in Occ(d.occs, w) && (w in d.vals || w in pending);
        assert w in d.vals || w in more;
      }
    }
  }

  lemma RefineUnassigned(c: Clause, t: Start, vals: set<int>, bits: set<int>, conditional: seq<int>, unassigned: seq<int>, n: nat, x: int)
    requires RefineOk(c, t, vals, bits, conditional, unassigned, n) && x in unassigned
    ensures x !in vals
  {
    assert x in Lits(unassigned);
  }

  lemma RefineLength(c: Clause, t: Start, vals: set<int>, bits: set<int>, conditional: seq<int>, unassigned: seq<int>, n: nat)
    requires RefineOk(c, t, vals, bits, conditional, unassigned, n)
    ensures n <= |conditional|
  {
  }

  lemma RefineBound(c: Clause, t: Start, vals: set<int>, bits: set<int>, conditional: seq<int>, unassigned: seq<int>, n: nat)
    requires RefineOk(c, t, vals, bits, conditional, unassigned, n)
    ensures n <= |conditional| <= |t.vals|
  {
    DistinctCount(conditional);
    assert t.vals == Lits(conditional) + (t.vals - Lits(conditional));
  }

  lemma UnassignedBound(c: Clause, t: Start, vals: set<int>, bits: set<int>, conditional: seq<int>, unassigned: seq<int>, n: nat)
    requires RefineOk(c, t, vals, bits, conditional, unassigned, n)
    ensures |unassigned| <= |t.vals|
  {
    DistinctCount(unassigned);
    assert t.vals == Lits(unassigned) + (t.vals - Lits(unassigned));
  }

  /** A conditional literal that occurs negated in the candidate stays. */
  lemma RefineKeep(c: Clause, t: Start, vals: set<int>, bits: set<int>, conditional: seq<int>, unassigned: seq<int>, n: nat)
    requires RefineOk(c, t, vals, bits, conditional, unassigned, n) && n < |conditional| && Opposite(conditional[n]) in c
    ensures RefineOk(c, t, vals, bits, conditional, unassigned, n + 1)
  {
    assert conditional[..n + 1] == conditional[..n] + [conditional[n]];
  }

  /** Any other conditional literal is unassigned. */
  lemma RefineDrop(c: Clause, t: Start, vals: set<int>, bits: set<int>, conditional: seq<int>, unassigned: seq<int>, n: nat)
    requires RefineOk(c, t, vals, bits, conditional, unassigned, n) && n < |conditional|
    ensures var x := conditional[n];
            x in vals && x in bits && RefineOk(c, t, vals - {x}, bits, conditional, unassigned + [x], n + 1)
  {
    var x := conditional[n];
    var more := unassigned + [x];
    assert conditional[..n + 1] == conditional[..n] + [x] && x !in conditional[..n] && x in conditional;
    assert x in Lits(conditional) && x !in Lits(unassigned);
    assert Lits(more) == Lits(unassigned) + {x};
    assert x !in unassigned by { assert x in unassigned ==> x in Lits(unassigned); }
    forall k | 0 <= k < n + 1 ensures conditional[k] in more || Opposite(conditional[k]) in c {
      if k < n { assert conditional[k] in unassigned || Opposite(conditional[k]) in c; }
    }
  }

  lemma WatchKept(c: Clause, vals: set<int>, bits: set<int>, watched: int, x: int)
    requires WatchOk(c, vals, bits, watched) && x in bits
    ensures WatchOk(c, vals - {x}, bits, watched)
  {
  }

  lemma ForgetLast(s: seq<int>)
    requires Distinct(s) && s != []
    ensures var k := |s| - 1; Lits(s[..k]) == Lits(s) - {s[k]} && Distinct(s[..k]) && s[k] in Lits(s)
  {
    var k := |s| - 1;
    assert s == s[..k] + [s[k]] && s[k] !in s[..k];
  }

  /** The trail assigns no variable twice, and none that has a root-level value. */
  ghost predicate TrailConsistent(trail: seq<int>, units: set<int>)
  {
    forall l :: l in trail ==> l != 0 && !(Opposite(l) in trail) && !Assigned(units, l)
  }

  lemma RefineNone(c: Clause, t: Start, vals: set<int>, bits: set<int>)
    requires vals == t.vals && bits == Lits(t.conditional) && Distinct(t.conditional) && Lits(t.conditional) <= t.vals
    ensures RefineOk(c, t, vals, bits, t.conditional, [], 0)
  {
    assert Lits([]) == {};
  }

  lemma NothingRemoved(db: Db)
    ensures Sound(Contents(db), Contents(db), [])
  {
  }

  lemma GarbageGuarded(db: Db, occs: Occs, i: nat, vals: set<int>, bits: set<int>)
    requires Guarded(db, occs, vals, bits, {})
    ensures Guarded(db.(garbage := db.garbage + {i}), occs, vals, bits, {})
  {
    var b := db.(garbage := db.garbage + {i});
    forall k | Live(b, k) ensures Untouched(b.clauses[k], vals, bits) || Watched(b.clauses[k], k, occs, vals, {}) {
      assert Live(db, k);
    }
  }

  /** The autarky is a consistent cube over variables without root-level value. */
  lemma AutarkyCube(c: Clause, t: Start, vals: set<int>, bits: set<int>, conditional: seq<int>, unassigned: seq<int>,
                    trail: seq<int>, units: set<int>, cube: seq<int>)
    requires TrailConsistent(trail, units) && t.vals == Lits(trail)
    requires RefineOk(c, t, vals, bits, conditional, unassigned, |conditional|)
    requires forall l :: l in cube <==> l in trail && IsAutarky(vals, bits, l)
    ensures Cube(cube) && (forall l :: l in cube ==> !Assigned(units, l))
    ensures forall l :: l in cube <==> IsAutarky(vals, bits, l)
    ensures forall l :: l in vals ==> l in trail
  {
    forall l, m | l in cube && m in cube ensures l != -m {
      assert !(Opposite(m) in trail);
    }
  }

  /** At the fixpoint every remaining conditional literal occurs negated in the candidate, and every clause that the
      autarky touches has a true literal. */
  lemma FixpointBlocked(db: Db, c: Clause, t: Start, vals: set<int>, bits: set<int>, conditional: seq<int>,
                        unassigned: seq<int>, watched: int, occs: Occs, trail: seq<int>, cube: seq<int>)
    requires RefineOk(c, t, vals, bits, conditional, unassigned, |conditional|) && !db.unsat
    requires watched != 0 && WatchOk(c, vals, bits, watched) && Guarded(db, occs, vals, bits, {})
    requires TrailConsistent(trail, db.units) && t.vals == Lits(trail) && Cube(cube)
    requires (forall l :: l in cube <==> IsAutarky(vals, bits, l)) && forall l :: l in vals ==> l in trail
    ensures GloballyBlocked(Contents(db) - {c}, c, vals * bits, cube)
  {
    forall k | k in vals * bits
      ensures k != 0 && Opposite(k) in c && k !in cube && Opposite(k) !in cube
    {
      FixpointConditional(c, t, vals, bits, conditional, unassigned, trail, db.units, k);
    }
    forall d | d in Contents(db) - {c} && Touched(d, cube)
      ensures exists m :: m in d && (m in vals * bits || m in cube)
    {
      FixpointTouched(db, vals, bits, occs, trail, cube, d);
    }
    assert watched in c && watched in cube;
  }

  lemma FixpointConditional(c: Clause, t: Start, vals: set<int>, bits: set<int>, conditional: seq<int>, unassigned: seq<int>,
                            trail: seq<int>, units: set<int>, k: int)
    requires RefineOk(c, t, vals, bits, conditional, unassigned, |conditional|) && k in vals && k in bits
    requires TrailConsistent(trail, units) && t.vals == Lits(trail)
    ensures k != 0 && Opposite(k) in c && !IsAutarky(vals, bits, k) && !IsAutarky(vals, bits, Opposite(k))
  {
    assert k in trail;
    var j :| 0 <= j < |conditional| && conditional[j] == k;
    assert k in unassigned ==> k in Lits(unassigned);
  }

  lemma FixpointTouched(db: Db, vals: set<int>, bits: set<int>, occs: Occs, trail: seq<int>, cube: seq<int>, d: Clause)
    requires !db.unsat && Guarded(db, occs, vals, bits, {}) && TrailConsistent(trail, db.units)
    requires (forall l :: l in cube <==> IsAutarky(vals, bits, l)) && (forall l :: l in vals ==> l in trail)
    requires d in Contents(db) && Touched(d, cube)
    ensures exists m :: m in d && (m in vals * bits || m in cube)
  {
    var x :| x in d && Opposite(x) in cube;
    assert Opposite(Opposite(x)) == x && !Assigned(db.units, Opposite(x));
    assert x !in db.units;
    assert forall u :: u in db.units ==> x !in [u];
    var i :| 0 <= i < |db.clauses| && i !in db.garbage && db.clauses[i] == d;
    assert Live(db, i) && !Untouched(d, vals, bits);
    var w :| w in d && i in Occ(occs, w) && (w in vals || w in {});
    assert w in vals * bits || w in cube;
  }

  /** Removing the clause at position i is sound, also if the same clause occurs again. */
  lemma BlockedSoundHere(db: Db, i: nat, conditional: set<int>, cube: seq<int>)
    requires DbOk(db) && !db.unsat && Live(db, i) && GloballyBlocked(Contents(db) - {db.clauses[i]}, db.clauses[i], conditional, cube)
    ensures Sound(Contents(db), Contents(db.(garbage := db.garbage + {i})), [Entry(cube, 0, i, db.clauses[i])])
  {
    var c, before := db.clauses[i], Contents(db);
    assert c in before;
    forall d | d in before ensures ProperClause(d) {
      if k :| 0 <= k < |db.clauses| && k !in db.garbage && db.clauses[k] == d { DbClause(db, k); }
    }
    GloballyBlockedSound(before, c, conditional, cube, 0, i);
    RemovalHere(db, i, cube, 0, i);
  }
}
