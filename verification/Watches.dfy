/** The clause database and watcher lists of the online proof checker (cadical/src/checker.cpp) as values, and
    what its watch-based propagation maintains. Clauses are named by their index in an arena. */
module Watches {
  import opened Logic
  import opened UnitPropagation

  /** A clause; size zero marks it as garbage, but its literals stay in place. */
  datatype CheckerClause = CheckerClause(hash: nat, size: nat, literals: Clause) {
    predicate Live() { size != 0 }
  }

  datatype Watch = Watch(blit: int, size: nat, clause: nat)

  type Arena = seq<CheckerClause>
  type Watchers = map<int, seq<Watch>>

  function ListOf(watchers: Watchers, lit: int): seq<Watch>
  {
    if lit in watchers then watchers[lit] else []
  }

  // ----- Literal values ------------------------------------------------------------------------------

  function Val(vals: map<int, int>, lit: int): int
  {
    if lit in vals then vals[lit] else 0
  }

  function TrailVal(trail: seq<int>, lit: int): int
  {
    if lit in trail then 1 else if -lit in trail then -1 else 0
  }

  /** Literals on the trail are proper and on different variables, and vals agrees with the trail. */
  ghost predicate TrailOk(vals: map<int, int>, trail: seq<int>)
  {
    && (forall l :: l in trail ==> l != 0)
    && Consistent(trail)
    && (forall i, j :: 0 <= i < j < |trail| ==> trail[i] != trail[j])
    && (forall l :: Val(vals, l) == TrailVal(trail, l))
  }

  // ----- Clauses and watches -------------------------------------------------------------------------

  /** At least two proper literals, all on different variables. */
  ghost predicate LiteralsOk(c: Clause)
  {
    && |c| >= 2 && ProperClause(c)
    && forall i, j :: 0 <= i < j < |c| ==> c[i] != c[j] && c[i] != -c[j]
  }

  ghost predicate ClauseOk(c: CheckerClause)
  {
    LiteralsOk(c.literals) && (c.Live() ==> c.size == |c.literals|)
  }

  /** A watch of lit: the blocking literal is another literal of the clause, and if the clause is live then lit
      is one of its first two literals. */
  ghost predicate WatchOk(arena: Arena, lit: int, w: Watch)
  {
    && w.clause < |arena| && w.size == |arena[w.clause].literals|
    && w.blit in arena[w.clause].literals && lit in arena[w.clause].literals && w.blit != lit
    && (arena[w.clause].Live() ==> FirstTwo(arena[w.clause].literals, lit))
  }

  predicate FirstTwo(c: Clause, lit: int) { |c| >= 2 && (c[0] == lit || c[1] == lit) }

  predicate Lists(ws: seq<Watch>, clause: nat) { exists i :: 0 <= i < |ws| && ws[i].clause == clause }

  ghost predicate ListOk(arena: Arena, lit: int, ws: seq<Watch>)
  {
    && (forall i :: 0 <= i < |ws| ==> WatchOk(arena, lit, ws[i]))
    && (forall i, j :: 0 <= i < j < |ws| && ws[i].clause < |arena| && arena[ws[i].clause].Live() ==>
          ws[i].clause != ws[j].clause)
  }

  /** Every live clause is watched by its first two literals, once each, and by nothing else. */
  ghost predicate Structure(arena: Arena, watchers: Watchers)
  {
    && (forall c :: 0 <= c < |arena| ==> ClauseOk(arena[c]))
    && AllListsOk(arena, watchers)
    && AllListed(arena, watchers)
  }

  // ----- What propagation maintains ------------------------------------------------------------------

  /** A watched literal that is false and was propagated leaves a satisfied clause, unless the clause still waits
      in the watcher list under way. */
  ghost predicate Propagated(arena: Arena, trail: seq<int>, done: seq<int>, lit: int, rest: seq<Watch>)
  {
    forall c, w :: 0 <= c < |arena| && arena[c].Live() && FirstTwo(arena[c].literals, w) && Falsified(done, w) ==>
      TrueIn(trail, arena[c].literals) || (w == lit && Lists(rest, c))
  }

  /** Every live clause is satisfied by the trail or watched by two literals that are not false. */
  ghost predicate Settled(arena: Arena, trail: seq<int>)
  {
    forall c :: 0 <= c < |arena| && arena[c].Live() ==> ClauseSettled(arena[c].literals, trail)
  }

  ghost predicate ClauseSettled(c: Clause, trail: seq<int>)
  {
    TrueIn(trail, c) || (|c| >= 2 && !Falsified(trail, c[0]) && !Falsified(trail, c[1]))
  }

  lemma SettledQuiet(arena: Arena, trail: seq<int>, c: nat)
    requires Settled(arena, trail) && c < |arena| && arena[c].Live() && ClauseOk(arena[c])
    ensures Quiet(trail, arena[c].literals)
  {
  }

  /** Once everything on the trail is propagated, every live clause is settled. */
  lemma PropagatedSettled(arena: Arena, trail: seq<int>)
    requires Propagated(arena, trail, trail, 0, []) && forall c :: 0 <= c < |arena| ==> ClauseOk(arena[c])
    ensures Settled(arena, trail)
  {
    forall c | 0 <= c < |arena| && arena[c].Live()
      ensures ClauseSettled(arena[c].literals, trail)
    {
      var d := arena[c].literals;
      assert FirstTwo(d, d[0]) && FirstTwo(d, d[1]);
    }
  }

  // ----- Soundness -----------------------------------------------------------------------------------

  /** Every model of f in which all literals of given hold satisfies l. */
  ghost predicate Follows(f: seq<Clause>, given: set<int>, l: int)
  {
    forall s :: CnfTrue(s, f) && HoldAll(s, given) ==> LitTrue(s, l)
  }

  ghost predicate HoldAll(s: Assignment, given: set<int>)
  {
    forall g :: g in given ==> LitTrue(s, g)
  }

  /** All clauses, garbage or not, are implied by f, and the trail follows from f and the given literals. */
  ghost predicate Justified(f: seq<Clause>, given: set<int>, arena: Arena, trail: seq<int>)
  {
    && (forall c :: 0 <= c < |arena| ==> Implies(f, arena[c].literals))
    && (forall l :: l in trail ==> Follows(f, given, l))
  }

  /** Nothing satisfies f together with the given literals. */
  ghost predicate Contradicts(f: seq<Clause>, given: set<int>)
  {
    forall s :: CnfTrue(s, f) ==> !HoldAll(s, given)
  }

  lemma FalsifiedFalse(f: seq<Clause>, given: set<int>, trail: seq<int>, s: Assignment, m: int)
    requires CnfTrue(s, f) && HoldAll(s, given) && (forall l :: l in trail ==> Follows(f, given, l)) && m != 0
    ensures Falsified(trail, m) ==> !LitTrue(s, m)
  {
    LitNegation(s, m);
  }

  /** A clause whose other literals are false justifies the remaining one. */
  lemma ForcedFollows(f: seq<Clause>, given: set<int>, trail: seq<int>, c: Clause, l: int)
    requires Implies(f, c) && ProperClause(c) && (forall m :: m in trail ==> Follows(f, given, m))
    requires Forces(trail, c, l)
    ensures Follows(f, given, l)
  {
    forall s | CnfTrue(s, f) && HoldAll(s, given)
      ensures LitTrue(s, l)
    {
      var m :| m in c && LitTrue(s, m);
      FalsifiedFalse(f, given, trail, s, m);
      assert m == l;
    }
  }

  /** A falsified clause refutes the given literals. */
  lemma FalsifiedContradicts(f: seq<Clause>, given: set<int>, trail: seq<int>, c: Clause)
    requires Implies(f, c) && ProperClause(c) && (forall m :: m in trail ==> Follows(f, given, m))
    requires forall m :: m in c ==> Falsified(trail, m)
    ensures Contradicts(f, given)
  {
    forall s | CnfTrue(s, f)
      ensures !HoldAll(s, given)
    {
      var m :| m in c && LitTrue(s, m);
      if HoldAll(s, given) {
        FalsifiedFalse(f, given, trail, s, m);
        assert false;
      }
    }
  }

  // ----- Changes to one clause and one list ----------------------------------------------------------

  /** The same clause with its literals in another order. */
  ghost predicate SameClause(c: CheckerClause, d: CheckerClause)
  {
    && d.hash == c.hash && d.size == c.size && |d.literals| == |c.literals|
    && (forall l :: l in d.literals <==> l in c.literals)
    && (ClauseOk(c) ==> ClauseOk(d))
  }

  ghost predicate SameArena(arena: Arena, arena': Arena)
  {
    |arena'| == |arena| && forall c :: 0 <= c < |arena| ==> SameClause(arena[c], arena'[c])
  }

  lemma SameArenaTransitive(a: Arena, b: Arena, c: Arena)
    requires SameArena(a, b) && SameArena(b, c)
    ensures SameArena(a, c)
  {
    forall i | 0 <= i < |a| ensures SameClause(a[i], c[i]) {
      assert SameClause(a[i], b[i]) && SameClause(b[i], c[i]);
    }
  }

  lemma UpdateSame(arena: Arena, i: nat, d: CheckerClause)
    requires i < |arena| && SameClause(arena[i], d)
    ensures SameArena(arena, arena[i := d])
  {
    forall c | 0 <= c < |arena| ensures SameClause(arena[c], arena[i := d][c]) {}
  }

  lemma SameTrue(trail: seq<int>, c: CheckerClause, d: CheckerClause)
    requires SameClause(c, d)
    ensures TrueIn(trail, c.literals) <==> TrueIn(trail, d.literals)
  {
    if TrueIn(trail, c.literals) { var l :| l in c.literals && l in trail; assert l in d.literals; }
    if TrueIn(trail, d.literals) { var l :| l in d.literals && l in trail; assert l in c.literals; }
  }

  lemma SameJustified(f: seq<Clause>, given: set<int>, arena: Arena, arena': Arena, trail: seq<int>)
    requires SameArena(arena, arena') && Justified(f, given, arena, trail)
    ensures Justified(f, given, arena', trail)
  {
    forall c | 0 <= c < |arena'|
      ensures Implies(f, arena'[c].literals)
    {
      assert SameClause(arena[c], arena'[c]) && Implies(f, arena[c].literals);
      forall s | CnfTrue(s, f) ensures ClauseTrue(s, arena'[c].literals) {
        var l :| l in arena[c].literals && LitTrue(s, l);
        assert l in arena'[c].literals;
      }
    }
  }

  /** The watched literals first, lit second. */
  function Normalized(c: Clause, other: int, lit: int): Clause
    requires |c| >= 2
  {
    c[0 := other][1 := lit]
  }

  lemma NormalizedSame(c: CheckerClause, other: int, lit: int)
    requires ClauseOk(c) && FirstTwo(c.literals, other) && FirstTwo(c.literals, lit) && other != lit
    ensures SameClause(c, c.(literals := Normalized(c.literals, other, lit)))
  {
    var a, b := c.literals, Normalized(c.literals, other, lit);
    assert forall i :: 2 <= i < |a| ==> b[i] == a[i];
    assert forall l :: l in b ==> exists i :: 0 <= i < |b| && b[i] == l;
    assert a[0] in a && a[1] in a && b[0] in b && b[1] in b;
    forall l | l in a ensures l in b {
      var i :| 0 <= i < |a| && a[i] == l;
      if i >= 2 { assert b[i] == l; }
    }
    forall l | l in b ensures l in a {
      var i :| 0 <= i < |b| && b[i] == l;
      if i >= 2 { assert a[i] == l; }
    }
  }

  /** After that, the literal at k replaces lit as second watch. */
  lemma RewatchSame(c: CheckerClause, other: int, lit: int, k: nat)
    requires ClauseOk(c) && c.literals[0] == other && c.literals[1] == lit && 2 <= k < |c.literals|
    ensures SameClause(c, c.(literals := c.literals[1 := c.literals[k]][k := lit]))
  {
    var a, b := c.literals, c.literals[1 := c.literals[k]][k := lit];
    assert forall i :: 0 <= i < |a| && i != 1 && i != k ==> b[i] == a[i];
    assert b[1] == a[k] && b[k] == a[1] && a[1] in a && a[k] in a && b[1] in b && b[k] in b;
    forall l | l in a ensures l in b {
      var i :| 0 <= i < |a| && a[i] == l;
      if i != 1 && i != k { assert b[i] == l; }
    }
    forall l | l in b ensures l in a {
      var i :| 0 <= i < |b| && b[i] == l;
      if i != 1 && i != k { assert a[i] == l; }
    }
  }

  /** Reordering the two watches changes nothing about the lists. */
  lemma SwapStructure(arena: Arena, watchers: Watchers, i: nat, d: CheckerClause)
    requires Structure(arena, watchers) && i < |arena| && SameClause(arena[i], d)
    requires forall l :: FirstTwo(d.literals, l) <==> FirstTwo(arena[i].literals, l)
    ensures Structure(arena[i := d], watchers)
  {
    var arena' := arena[i := d];
    assert ClauseOk(arena[i]);
    forall lit
      ensures ListOk(arena', lit, ListOf(watchers, lit))
    {
      var ws := ListOf(watchers, lit);
      assert ListOk(arena, lit, ws);
      forall j | 0 <= j < |ws| ensures WatchOk(arena', lit, ws[j]) { assert WatchOk(arena, lit, ws[j]); }
    }
  }

  lemma SwapPropagated(arena: Arena, trail: seq<int>, done: seq<int>, lit: int, rest: seq<Watch>, i: nat,
                       d: CheckerClause)
    requires Propagated(arena, trail, done, lit, rest) && i < |arena| && SameClause(arena[i], d)
    requires forall l :: FirstTwo(d.literals, l) <==> FirstTwo(arena[i].literals, l)
    ensures Propagated(arena[i := d], trail, done, lit, rest)
  {
    SameTrue(trail, arena[i], d);
  }

  lemma SwapSettled(arena: Arena, trail: seq<int>, i: nat, d: CheckerClause)
    requires Settled(arena, trail) && i < |arena| && SameClause(arena[i], d) && ClauseOk(arena[i])
    requires forall l :: FirstTwo(d.literals, l) <==> FirstTwo(arena[i].literals, l)
    ensures Settled(arena[i := d], trail)
  {
    SameTrue(trail, arena[i], d);
    assert FirstTwo(d.literals, d.literals[0]) && FirstTwo(d.literals, d.literals[1]);
    assert arena[i].Live() ==> ClauseSettled(arena[i].literals, trail);
  }

  /** A literal that is not false becomes the second watch. */
  lemma MovePropagated(arena: Arena, trail: seq<int>, done: seq<int>, lit: int, rest: seq<Watch>, i: nat,
                       d: CheckerClause)
    requires Propagated(arena, trail, done, lit, rest) && i < |arena| && SameClause(arena[i], d) && ClauseOk(arena[i])
    requires FirstTwo(arena[i].literals, d.literals[0]) && d.literals[0] != lit && !Falsified(trail, d.literals[1])
    requires forall l :: l in done ==> l in trail
    ensures Propagated(arena[i := d], trail, done, lit, rest)
  {
    SameTrue(trail, arena[i], d);
  }

  lemma MoveSettled(arena: Arena, base: seq<int>, trail: seq<int>, i: nat, d: CheckerClause)
    requires Settled(arena, base) && i < |arena| && SameClause(arena[i], d) && ClauseOk(arena[i])
    requires FirstTwo(arena[i].literals, d.literals[0]) && !Falsified(trail, d.literals[1])
    requires forall l :: l in base ==> l in trail
    ensures Settled(arena[i := d], base)
  {
    SameTrue(base, arena[i], d);
    assert arena[i].Live() ==> ClauseSettled(arena[i].literals, base);
  }

  /** The entry of a garbage clause can be dropped. */
  lemma DropStructure(arena: Arena, watchers: Watchers, lit: int, kept: seq<Watch>, w: Watch, rest: seq<Watch>)
    requires Structure(arena, watchers[lit := kept + [w] + rest]) && w.clause < |arena| && !arena[w.clause].Live()
    ensures Structure(arena, watchers[lit := kept + rest])
  {
    var old_, new_ := watchers[lit := kept + [w] + rest], watchers[lit := kept + rest];
    forall l
      ensures ListOk(arena, l, ListOf(new_, l))
    {
      assert ListOk(arena, l, ListOf(old_, l));
      if l == lit { DropListOk(arena, lit, kept, w, rest); }
    }
    forall c, l | 0 <= c < |arena| && arena[c].Live() && FirstTwo(arena[c].literals, l)
      ensures Lists(ListOf(new_, l), c)
    {
      assert Lists(ListOf(old_, l), c);
      if l == lit { DropLists(kept, w, rest, c); }
    }
  }

  lemma DropListOk(arena: Arena, lit: int, kept: seq<Watch>, w: Watch, rest: seq<Watch>)
    requires ListOk(arena, lit, kept + [w] + rest)
    ensures ListOk(arena, lit, kept + rest)
  {
    var all, less := kept + [w] + rest, kept + rest;
    forall i | 0 <= i < |less|
      ensures WatchOk(arena, lit, less[i])
    {
      var k := if i < |kept| then i else i + 1;
      assert less[i] == all[k];
    }
    forall i, j | 0 <= i < j < |less| && less[i].clause < |arena| && arena[less[i].clause].Live()
      ensures less[i].clause != less[j].clause
    {
      var k, l := if i < |kept| then i else i + 1, if j < |kept| then j else j + 1;
      assert less[i] == all[k] && less[j] == all[l];
    }
  }

  lemma DropLists(kept: seq<Watch>, w: Watch, rest: seq<Watch>, c: nat)
    requires Lists(kept + [w] + rest, c) && w.clause != c
    ensures Lists(kept + rest, c)
  {
    var all, less := kept + [w] + rest, kept + rest;
    var i :| 0 <= i < |all| && all[i].clause == c;
    assert i < |kept| ==> less[i] == all[i];
    assert i > |kept| ==> less[i - 1] == all[i];
  }

  /** The blocking literal may become any other literal of the clause. */
  lemma BlitStructure(arena: Arena, watchers: Watchers, lit: int, kept: seq<Watch>, w: Watch, rest: seq<Watch>,
                      blit: int)
    requires Structure(arena, watchers[lit := kept + [w] + rest])
    requires w.clause < |arena| && blit in arena[w.clause].literals && blit != lit
    ensures Structure(arena, watchers[lit := kept + [w.(blit := blit)] + rest])
  {
    var a, b := kept + [w] + rest, kept + [w.(blit := blit)] + rest;
    var before, after := watchers[lit := a], watchers[lit := b];
    assert ListOf(before, lit) == a && ListOf(after, lit) == b;
    assert ListOk(arena, lit, ListOf(before, lit));
    BlitList(arena, lit, kept, w, rest, blit);
    hide ListOk;
    forall l
      ensures ListOk(arena, l, ListOf(after, l))
    {
      assert ListOk(arena, l, ListOf(before, l));
    }
    forall c, l | 0 <= c < |arena| && arena[c].Live() && FirstTwo(arena[c].literals, l)
      ensures Lists(ListOf(after, l), c)
    {
      assert Lists(ListOf(before, l), c);
      if l == lit { BlitLists(kept, w, rest, blit, c); }
    }
  }

  lemma BlitList(arena: Arena, lit: int, kept: seq<Watch>, w: Watch, rest: seq<Watch>, blit: int)
    requires ListOk(arena, lit, kept + [w] + rest)
    requires w.clause < |arena| && blit in arena[w.clause].literals && blit != lit
    ensures ListOk(arena, lit, kept + [w.(blit := blit)] + rest)
  {
    var a, b := kept + [w] + rest, kept + [w.(blit := blit)] + rest;
    assert forall i :: 0 <= i < |a| ==> b[i].clause == a[i].clause && (i != |kept| ==> b[i] == a[i]);
    assert WatchOk(arena, lit, a[|kept|]);
    forall i | 0 <= i < |b| ensures WatchOk(arena, lit, b[i]) { assert WatchOk(arena, lit, a[i]); }
  }

  lemma BlitLists(kept: seq<Watch>, w: Watch, rest: seq<Watch>, blit: int, c: nat)
    requires Lists(kept + [w] + rest, c)
    ensures Lists(kept + [w.(blit := blit)] + rest, c)
  {
    var a, b := kept + [w] + rest, kept + [w.(blit := blit)] + rest;
    var i :| 0 <= i < |a| && a[i].clause == c;
    assert b[i].clause == c;
  }

  ghost predicate AllListsOk(arena: Arena, watchers: Watchers)
  {
    forall lit :: ListOk(arena, lit, ListOf(watchers, lit))
  }

  ghost predicate AllListed(arena: Arena, watchers: Watchers)
  {
    forall c, lit :: 0 <= c < |arena| && arena[c].Live() && FirstTwo(arena[c].literals, lit) ==>
      Lists(ListOf(watchers, lit), c)
  }

  /** The clause is watched by first and lit; second is to replace lit. */
  ghost predicate CanMove(c: CheckerClause, lit: int, d: CheckerClause)
  {
    && c.Live() && ClauseOk(c) && SameClause(c, d) && lit in c.literals
    && d.literals[0] != lit && d.literals[1] != lit && !FirstTwo(c.literals, d.literals[1])
    && forall l :: FirstTwo(c.literals, l) <==> l == d.literals[0] || l == lit
  }

  ghost function Moved(watchers: Watchers, lit: int, kept: seq<Watch>, w: Watch, rest: seq<Watch>, r: int): Watchers
  {
    watchers[r := ListOf(watchers, r) + [Watch(lit, w.size, w.clause)]][lit := kept + rest]
  }

  /** A clause leaves the list of lit and joins the list of its new second watch. */
  lemma MoveStructure(arena: Arena, watchers: Watchers, lit: int, kept: seq<Watch>, w: Watch, rest: seq<Watch>,
                      d: CheckerClause)
    requires Structure(arena, watchers[lit := kept + [w] + rest])
    requires w.clause < |arena| && CanMove(arena[w.clause], lit, d)
    ensures Structure(arena[w.clause := d], Moved(watchers, lit, kept, w, rest, d.literals[1]))
  {
    hide ListOk, WatchOk, Lists, SameClause, ClauseOk;
    assert AllListsOk(arena, watchers[lit := kept + [w] + rest]);
    MoveListsOk(arena, watchers, lit, kept, w, rest, d);
    assert AllListed(arena, watchers[lit := kept + [w] + rest]);
    MoveListed(arena, watchers, lit, kept, w, rest, d);
    SameOk(arena[w.clause], d);
  }

  lemma SameOk(c: CheckerClause, d: CheckerClause)
    requires SameClause(c, d) && ClauseOk(c)
    ensures ClauseOk(d) && d.Live() == c.Live()
  {
  }

  lemma MoveListsOk(arena: Arena, watchers: Watchers, lit: int, kept: seq<Watch>, w: Watch, rest: seq<Watch>,
                    d: CheckerClause)
    requires AllListsOk(arena, watchers[lit := kept + [w] + rest])
    requires w.clause < |arena| && CanMove(arena[w.clause], lit, d)
    ensures AllListsOk(arena[w.clause := d], Moved(watchers, lit, kept, w, rest, d.literals[1]))
  {
    var before := watchers[lit := kept + [w] + rest];
    var after := Moved(watchers, lit, kept, w, rest, d.literals[1]);
    EntryFacts(arena, lit, kept, w, rest, ListOf(before, lit));
    hide ListOk, WatchOk, SameClause, ClauseOk, FirstTwo;
    forall l
      ensures ListOk(arena[w.clause := d], l, ListOf(after, l))
    {
      assert ListOk(arena, l, ListOf(before, l));
      if l == lit {
        MoveAwayOk(arena, lit, kept, w, rest, d);
      } else if l == d.literals[1] {
        SameOk(arena[w.clause], d);
        MoveToOk(arena, before, lit, w, d);
      } else {
        assert FirstTwo(arena[w.clause].literals, l) ==> l == d.literals[0];
        FirstIsFirst(d.literals);
        SameOk(arena[w.clause], d);
        OthersOk(arena, l, ListOf(before, l), w.clause, d);
      }
    }
  }

  lemma FirstIsFirst(c: Clause)
    ensures |c| >= 2 ==> FirstTwo(c, c[0]) && FirstTwo(c, c[1])
  {
  }

  lemma EntryFacts(arena: Arena, lit: int, kept: seq<Watch>, w: Watch, rest: seq<Watch>, ws: seq<Watch>)
    requires ws == kept + [w] + rest && ListOk(arena, lit, ws)
    ensures WatchOk(arena, lit, w)
  {
    assert ws[|kept|] == w;
  }

  lemma MoveListed(arena: Arena, watchers: Watchers, lit: int, kept: seq<Watch>, w: Watch, rest: seq<Watch>,
                   d: CheckerClause)
    requires AllListed(arena, watchers[lit := kept + [w] + rest])
    requires w.clause < |arena| && CanMove(arena[w.clause], lit, d)
    ensures AllListed(arena[w.clause := d], Moved(watchers, lit, kept, w, rest, d.literals[1]))
  {
    hide ClauseOk;
    var r := d.literals[1];
    var before := watchers[lit := kept + [w] + rest];
    var after := Moved(watchers, lit, kept, w, rest, r);
    var arena' := arena[w.clause := d];
    hide Lists;
    forall c, l | 0 <= c < |arena'| && arena'[c].Live() && FirstTwo(arena'[c].literals, l)
      ensures Lists(ListOf(after, l), c)
    {
      if c == w.clause && l == r {
        LastListed(ListOf(watchers, r), Watch(lit, w.size, c));
      } else {
        assert Lists(ListOf(before, l), c);
        if l == lit {
          DropLists(kept, w, rest, c);
        } else if l == r {
          MoreListed(ListOf(watchers, r), Watch(lit, w.size, w.clause), c);
        }
      }
    }
  }

  lemma LastListed(ws: seq<Watch>, w: Watch)
    ensures Lists(ws + [w], w.clause)
  {
    assert (ws + [w])[|ws|] == w;
  }

  lemma MoreListed(ws: seq<Watch>, w: Watch, c: nat)
    requires Lists(ws, c)
    ensures Lists(ws + [w], c)
  {
    var k :| 0 <= k < |ws| && ws[k].clause == c;
    assert (ws + [w])[k].clause == c;
  }

  /** The list that the clause leaves: none of the remaining entries belongs to it. */
  lemma MoveAwayOk(arena: Arena, lit: int, kept: seq<Watch>, w: Watch, rest: seq<Watch>, d: CheckerClause)
    requires ListOk(arena, lit, kept + [w] + rest) && w.clause < |arena| && arena[w.clause].Live()
    ensures ListOk(arena[w.clause := d], lit, kept + rest)
  {
    var all, less := kept + [w] + rest, kept + rest;
    assert all[|kept|] == w;
    forall i | 0 <= i < |less|
      ensures less[i].clause != w.clause && WatchOk(arena[w.clause := d], lit, less[i])
    {
      var k := if i < |kept| then i else i + 1;
      assert less[i] == all[k] && WatchOk(arena, lit, all[k]);
    }
    DropListOk(arena, lit, kept, w, rest);
  }

  /** The list that the clause joins did not hold it before. */
  lemma MoveToOk(arena: Arena, watchers: Watchers, lit: int, w: Watch, d: CheckerClause)
    requires w.clause < |arena| && arena[w.clause].Live() && SameClause(arena[w.clause], d) && ClauseOk(d)
    requires w.size == |arena[w.clause].literals| && lit in arena[w.clause].literals && d.literals[1] != lit
    requires !FirstTwo(arena[w.clause].literals, d.literals[1])
    requires ListOk(arena, d.literals[1], ListOf(watchers, d.literals[1]))
    ensures ListOk(arena[w.clause := d], d.literals[1], ListOf(watchers, d.literals[1]) + [Watch(lit, w.size, w.clause)])
  {
    var ws := ListOf(watchers, d.literals[1]);
    var more := ws + [Watch(lit, w.size, w.clause)];
    assert d.literals[1] in d.literals && lit in d.literals;
    forall j | 0 <= j < |ws|
      ensures ws[j].clause != w.clause && more[j] == ws[j]
    {
      assert WatchOk(arena, d.literals[1], ws[j]);
    }
  }

  lemma OthersOk(arena: Arena, l: int, ws: seq<Watch>, i: nat, d: CheckerClause)
    requires ListOk(arena, l, ws) && i < |arena| && SameClause(arena[i], d)
    requires FirstTwo(arena[i].literals, l) ==> FirstTwo(d.literals, l)
    ensures ListOk(arena[i := d], l, ws)
  {
    forall j | 0 <= j < |ws| ensures WatchOk(arena[i := d], l, ws[j]) { assert WatchOk(arena, l, ws[j]); }
  }

  // ----- One visit of the propagation loop -----------------------------------------------------------

  /** Everything the checker keeps while it propagates, except that clauses still waiting in a list may be
      unit or false: the given literals justify the trail, and base is the part of the trail to return to. */
  datatype Goal = Goal(f: seq<Clause>, given: set<int>, base: seq<int>)

  ghost predicate Steady(goal: Goal, vals: map<int, int>, trail: seq<int>, arena: Arena, watchers: Watchers)
  {
    && TrailOk(vals, trail) && goal.base <= trail
    && Structure(arena, watchers)
    && Settled(arena, goal.base)
    && Justified(goal.f, goal.given, arena, trail)
  }

  /** After the visit of w the clause of w is satisfied (or garbage), so it need not wait any longer. */
  lemma VisitDone(arena: Arena, trail: seq<int>, trail': seq<int>, done: seq<int>, lit: int, w: Watch, rest: seq<Watch>)
    requires Propagated(arena, trail, done, lit, [w] + rest) && trail <= trail' && w.clause < |arena|
    requires arena[w.clause].Live() ==> TrueIn(trail', arena[w.clause].literals)
    ensures Propagated(arena, trail', done, lit, rest)
  {
    forall c, x | 0 <= c < |arena| && arena[c].Live() && FirstTwo(arena[c].literals, x) && Falsified(done, x)
      ensures TrueIn(trail', arena[c].literals) || (x == lit && Lists(rest, c))
    {
      if TrueIn(trail, arena[c].literals) {
        var l :| l in arena[c].literals && l in trail;
        assert l in trail';
      } else if c != w.clause {
        var i :| 0 <= i < |[w] + rest| && ([w] + rest)[i].clause == c;
        assert rest[i - 1].clause == c;
      }
    }
  }

  /** The moved clause no longer waits under lit. */
  lemma VisitMoved(arena: Arena, trail: seq<int>, done: seq<int>, lit: int, w: Watch, rest: seq<Watch>)
    requires Propagated(arena, trail, done, lit, [w] + rest) && w.clause < |arena|
    requires !FirstTwo(arena[w.clause].literals, lit)
    ensures Propagated(arena, trail, done, lit, rest)
  {
    forall c, x | 0 <= c < |arena| && arena[c].Live() && FirstTwo(arena[c].literals, x) && Falsified(done, x)
      ensures TrueIn(trail, arena[c].literals) || (x == lit && Lists(rest, c))
    {
      if !TrueIn(trail, arena[c].literals) {
        var i :| 0 <= i < |[w] + rest| && ([w] + rest)[i].clause == c;
        assert rest[i - 1].clause == c;
      }
    }
  }

  lemma AssignTrail(vals: map<int, int>, trail: seq<int>, l: int)
    requires TrailOk(vals, trail) && l != 0 && Val(vals, l) == 0
    ensures TrailOk(vals[l := 1][-l := -1], trail + [l])
  {
    var vals', trail' := vals[l := 1][-l := -1], trail + [l];
    assert TrailVal(trail, l) == 0;
    forall m ensures Val(vals', m) == TrailVal(trail', m) {
      assert Val(vals, m) == TrailVal(trail, m);
      assert m in trail' <==> m in trail || m == l;
      assert -m in trail' <==> -m in trail || -m == l;
    }
    assert l !in trail && -l !in trail;
    forall i, j | 0 <= i < |trail'| && 0 <= j < |trail'| ensures trail'[i] != -trail'[j] {
      assert i < |trail| ==> trail[i] in trail;
      assert j < |trail| ==> trail[j] in trail;
    }
  }

  /** Assigning a justified, unassigned literal. */
  lemma AssignSteady(goal: Goal, vals: map<int, int>, trail: seq<int>, arena: Arena, watchers: Watchers, l: int)
    requires Steady(goal, vals, trail, arena, watchers) && l != 0 && Val(vals, l) == 0
    requires Follows(goal.f, goal.given, l)
    ensures Steady(goal, vals[l := 1][-l := -1], trail + [l], arena, watchers)
  {
    hide TrailOk, Structure, Settled, Follows;
    AssignTrail(vals, trail, l);
  }

  lemma ValueOf(vals: map<int, int>, trail: seq<int>, l: int)
    requires TrailOk(vals, trail)
    ensures Val(vals, l) > 0 <==> l in trail
    ensures Val(vals, l) < 0 <==> Falsified(trail, l)
  {
    assert Val(vals, l) == TrailVal(trail, l);
    if l in trail { NotBoth(trail, l); }
  }

  /** Values only grow, so what was false stays false and what was satisfied stays satisfied. */
  lemma MoreTrue(trail: seq<int>, trail': seq<int>, c: Clause)
    requires trail <= trail' && TrueIn(trail, c)
    ensures TrueIn(trail', c)
  {
    var l :| l in c && l in trail;
    assert l in trail';
  }

  /** In a binary clause the blocking literal is the only other literal. */
  lemma BinaryOther(arena: Arena, lit: int, w: Watch, m: int)
    requires WatchOk(arena, lit, w) && w.size == 2 && ClauseOk(arena[w.clause]) && m in arena[w.clause].literals
    ensures m == lit || m == w.blit
  {
  }

  /** A Steady state after reordering a clause without changing its watches. */
  lemma SwapSteady(goal: Goal, vals: map<int, int>, trail: seq<int>, arena: Arena, watchers: Watchers, i: nat,
                   d: CheckerClause)
    requires Steady(goal, vals, trail, arena, watchers) && i < |arena| && SameClause(arena[i], d)
    requires forall l :: FirstTwo(d.literals, l) <==> FirstTwo(arena[i].literals, l)
    ensures Steady(goal, vals, trail, arena[i := d], watchers)
  {
    assert ClauseOk(arena[i]);
    hide TrailOk, AllListsOk, AllListed, Justified, ClauseOk, SameClause, FirstTwo;
    SwapStructure(arena, watchers, i, d);
    SwapSettled(arena, goal.base, i, d);
    UpdateSame(arena, i, d);
    SameJustified(goal.f, goal.given, arena, arena[i := d], trail);
  }

  /** A Steady state after the clause of w got the literal at k of its normalized form as second watch. */
  lemma MoveSteady(goal: Goal, vals: map<int, int>, trail: seq<int>, arena: Arena, watchers: Watchers, lit: int,
                   kept: seq<Watch>, w: Watch, rest: seq<Watch>, d: CheckerClause)
    requires Steady(goal, vals, trail, arena, watchers[lit := kept + [w] + rest])
    requires w.clause < |arena| && CanMove(arena[w.clause], lit, d) && !Falsified(trail, d.literals[1])
    ensures Steady(goal, vals, trail, arena[w.clause := d], Moved(watchers, lit, kept, w, rest, d.literals[1]))
  {
    assert FirstTwo(arena[w.clause].literals, d.literals[0]) && ClauseOk(arena[w.clause]);
    assert SameClause(arena[w.clause], d);
    hide TrailOk, AllListsOk, AllListed, Justified, ClauseOk, SameClause, FirstTwo, CanMove, Moved;
    MoveStructure(arena, watchers, lit, kept, w, rest, d);
    MoveSettled(arena, goal.base, trail, w.clause, d);
    UpdateSame(arena, w.clause, d);
    SameJustified(goal.f, goal.given, arena, arena[w.clause := d], trail);
  }

  /** The other watch of a clause. */
  function Other(c: Clause, lit: int): int
    requires |c| >= 2
  {
    if c[0] == lit then c[1] else c[0]
  }

  lemma OtherFacts(c: CheckerClause, lit: int)
    requires ClauseOk(c) && FirstTwo(c.literals, lit)
    ensures FirstTwo(c.literals, Other(c.literals, lit)) && Other(c.literals, lit) != lit
    ensures Other(c.literals, lit) in c.literals
    ensures forall l :: FirstTwo(c.literals, l) <==> l == Other(c.literals, lit) || l == lit
    ensures forall l :: FirstTwo(Normalized(c.literals, Other(c.literals, lit), lit), l) <==> FirstTwo(c.literals, l)
  {
  }

  lemma RewatchCanMove(c: CheckerClause, lit: int, k: nat)
    requires c.Live() && ClauseOk(c) && c.literals[1] == lit && 2 <= k < |c.literals|
    ensures CanMove(c, lit, c.(literals := c.literals[1 := c.literals[k]][k := lit]))
  {
    RewatchSame(c, c.literals[0], lit, k);
  }
}
