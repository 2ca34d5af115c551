/** The moving garbage collector (cadical/src/collect.cpp) on top of the clause arena (cadical/src/arena.hpp). */
module Collect {
  import opened Logic

  /** A clause in memory. Once it was moved, the copy names its new address. */
  datatype Cell = Cell(lits: Clause, garbage: bool, reason: bool, bytes: nat, moved: bool, copy: int)

  type Memory = map<int, Cell>

  /** Garbage clauses are collected unless they are reasons. */
  predicate Collected(c: Cell)
  {
    c.garbage && !c.reason
  }

  /** What a clause says, wherever it lies. */
  function Content(c: Cell): (Clause, bool, bool)
  {
    (c.lits, c.garbage, c.reason)
  }

  predicate Known(mem: Memory, refs: seq<int>)
  {
    forall i :: 0 <= i < |refs| ==> refs[i] in mem
  }

  /** The references to clauses that survive, in order. */
  function Survivors(mem: Memory, refs: seq<int>): (r: seq<int>)
    requires Known(mem, refs)
    ensures Known(mem, r) && forall p :: p in r <==> p in refs && p in mem && !Collected(mem[p])
  {
    if refs == [] then []
    else
      var last := refs[|refs| - 1];
      assert refs == refs[..|refs| - 1] + [last];
      Survivors(mem, refs[..|refs| - 1]) + if Collected(mem[last]) then [] else [last]
  }

  function Bytes(mem: Memory, refs: seq<int>): nat
    requires Known(mem, refs)
  {
    if refs == [] then 0
    else Bytes(mem, refs[..|refs| - 1]) + mem[refs[|refs| - 1]].bytes
  }

  // ----- Copying -------------------------------------------------------------------------------------

  /** The state of copying: which clauses were copied, in this order, one behind the other from the given start. */
  ghost predicate Copying(before: Memory, mem: Memory, start: int, top: int, end: int, done: seq<int>)
  {
    && Known(before, done) && Distinct(done) && top == start + Bytes(before, done) <= end && Originals(before, mem, start, end, done)
    && NewCells(before, mem, start, top, done)
    && (forall k {:trigger Placed(before, mem, start, done, k)} :: 0 <= k < |done| ==> Placed(before, mem, start, done, k))
  }

  /** Everything else in memory are copies. */
  ghost predicate NewCells(before: Memory, mem: Memory, start: int, top: int, done: seq<int>)
  {
    forall a :: a in mem && a !in before ==> start <= a < top && !mem[a].moved && IsCopy(mem, done, a)
  }

  ghost predicate IsCopy(mem: Memory, done: seq<int>, a: int)
  {
    exists p :: p in done && p in mem && mem[p].copy == a
  }

  /** The originals are outside of the new space, unchanged, and marked if they were copied. */
  ghost predicate Originals(before: Memory, mem: Memory, start: int, end: int, done: seq<int>)
  {
    forall p :: p in before ==>
      (p < start || end <= p) && p in mem && !before[p].moved && Content(mem[p]) == Content(before[p]) &&
      mem[p].bytes == before[p].bytes && (mem[p].moved <==> p in done)
  }

  /** The k-th copy lies behind those before it and says the same as the original. */
  ghost predicate Placed(before: Memory, mem: Memory, start: int, done: seq<int>, k: int)
  {
    && Known(before, done) && 0 <= k < |done| && done[k] in mem
    && var a := start + Bytes(before, done[..k]);
       mem[done[k]].copy == a && a in mem && Content(mem[a]) == Content(before[done[k]]) && !mem[a].moved &&
       mem[a].bytes == before[done[k]].bytes
  }

  lemma {:induction false} BytesFrame(a: Memory, b: Memory, refs: seq<int>)
    requires Known(a, refs) && Known(b, refs) && forall i :: 0 <= i < |refs| ==> a[refs[i]].bytes == b[refs[i]].bytes
    ensures Bytes(a, refs) == Bytes(b, refs)
  {
    if refs != [] { BytesFrame(a, b, refs[..|refs| - 1]); }
  }

  lemma {:induction false} BytesMonotone(mem: Memory, refs: seq<int>, i: nat, j: nat)
    requires Known(mem, refs) && i < j <= |refs|
    ensures Bytes(mem, refs[..i]) + mem[refs[i]].bytes <= Bytes(mem, refs[..j])
    decreases j
  {
    assert refs[..j][..j - 1] == refs[..j - 1];
    if i < j - 1 { BytesMonotone(mem, refs, i, j - 1); }
  }

  /** Two copies do not overlap, and no two clauses have the same copy. */
  lemma CopiesDisjoint(before: Memory, mem: Memory, start: int, top: int, end: int, done: seq<int>, i: nat, j: nat)
    requires Copying(before, mem, start, top, end, done) && i < j < |done|
    ensures mem[done[i]].copy + before[done[i]].bytes <= mem[done[j]].copy
    ensures start <= mem[done[i]].copy && mem[done[j]].copy + before[done[j]].bytes <= top
  {
    BytesMonotone(before, done, i, j);
    BytesMonotone(before, done, j, |done|);
    assert done[..|done|] == done;
    assert Placed(before, mem, start, done, i) && Placed(before, mem, start, done, j);
  }

  /** Memory after copying the clause at p to the top. */
  function Copied(mem: Memory, p: int, top: int): Memory
    requires p in mem
  {
    mem[top := mem[p]][p := mem[p].(moved := true, copy := top)]
  }

  lemma CopyOne(before: Memory, mem: Memory, start: int, top: int, end: int, done: seq<int>, p: int)
    requires Copying(before, mem, start, top, end, done) && p in before && p !in done && before[p].bytes > 0
    requires top + before[p].bytes <= end && forall q :: q in before ==> before[q].bytes > 0
    ensures Copying(before, Copied(mem, p, top), start, top + before[p].bytes, end, done + [p])
  {
    var more, after := done + [p], Copied(mem, p, top);
    forall k | 0 <= k < |more|
      ensures Placed(before, after, start, more, k)
    {
      if k < |done| { PlacedKept(before, mem, start, top, end, done, p, k); } else { PlacedNew(before, mem, start, top, end, done, p); }
    }
    hide Placed;
    assert Originals(before, mem, start, end, done) && top == start + Bytes(before, done) && Distinct(done) && Known(before, done);
    NewCellsKept(before, mem, start, top, end, done, p);
    hide Copying, NewCells;
    OriginalsKept(before, mem, start, top, end, done, p);
    BytesAppend(before, done, p);
    hide Originals, Bytes, Known;
    assert Distinct(more);
    Copies(before, after, start, top + before[p].bytes, end, more);
  }

  lemma Copies(before: Memory, mem: Memory, start: int, top: int, end: int, done: seq<int>)
    requires Known(before, done) && Distinct(done) && top == start + Bytes(before, done) <= end && Originals(before, mem, start, end, done)
    requires NewCells(before, mem, start, top, done)
    requires forall k {:trigger Placed(before, mem, start, done, k)} :: 0 <= k < |done| ==> Placed(before, mem, start, done, k)
    ensures Copying(before, mem, start, top, end, done)
  {
  }

  lemma NewCellsKept(before: Memory, mem: Memory, start: int, top: int, end: int, done: seq<int>, p: int)
    requires Copying(before, mem, start, top, end, done) && p in before && p !in done && before[p].bytes > 0
    requires top + before[p].bytes <= end
    ensures NewCells(before, Copied(mem, p, top), start, top + before[p].bytes, done + [p])
  {
    hide Placed;
    assert p != top && start <= top && !mem[p].moved;
    var more, after := done + [p], Copied(mem, p, top);
    forall a | a in after && a !in before
      ensures start <= a < top + before[p].bytes && !after[a].moved && IsCopy(after, more, a)
    {
      if a == top {
        assert p in more && after[p].copy == top;
      } else {
        var q :| q in done && q in mem && mem[q].copy == a;
        assert q in more && q != top && after[q].copy == a;
      }
    }
  }

  lemma OriginalsKept(before: Memory, mem: Memory, start: int, top: int, end: int, done: seq<int>, p: int)
    requires Originals(before, mem, start, end, done) && start <= top < end && p in before
    ensures Originals(before, Copied(mem, p, top), start, end, done + [p])
  {
    var more, after := done + [p], Copied(mem, p, top);
    forall q | q in before
      ensures (q < start || end <= q) && q in after && !before[q].moved && Content(after[q]) == Content(before[q])
      ensures after[q].bytes == before[q].bytes && (after[q].moved <==> q in more)
    {
      assert q != top;
    }
  }

  lemma PlacedKept(before: Memory, mem: Memory, start: int, top: int, end: int, done: seq<int>, p: int, k: nat)
    requires Copying(before, mem, start, top, end, done) && p in before && p !in done && k < |done| && top + before[p].bytes <= end
    requires forall q :: q in before ==> before[q].bytes > 0
    ensures Placed(before, Copied(mem, p, top), start, done + [p], k)
  {
    var more := done + [p];
    assert more[..k] == done[..k] && more[k] == done[k] && done[k] in done;
    assert Placed(before, mem, start, done, k);
    BytesMonotone(before, done, k, |done|);
    assert done[..|done|] == done;
    hide Copying;
    assert done[k] in before && before[done[k]].bytes > 0;
  }

  lemma PlacedNew(before: Memory, mem: Memory, start: int, top: int, end: int, done: seq<int>, p: int)
    requires Copying(before, mem, start, top, end, done) && p in before && p !in done && top < end
    ensures Placed(before, Copied(mem, p, top), start, done + [p], |done|)
  {
    var more := done + [p];
    assert more[..|done|] == done && more[|done|] == p;
    assert p != top && start <= top && !mem[p].moved;
    hide Placed;
    assert Known(before, more);
  }

  // ----- The order of the copies ---------------------------------------------------------------------

  /** Where visiting a list of references leaves the order of copies: survivors that were not copied yet come next, only those
      between two addresses if asked to. */
  function Visited(mem: Memory, done: seq<int>, refs: seq<int>, only: bool, lo: int, hi: int): seq<int>
  {
    if refs == [] then done
    else
      var d, p := Visited(mem, done, refs[..|refs| - 1], only, lo, hi), refs[|refs| - 1];
      if p in mem && !Collected(mem[p]) && p !in d && (!only || lo <= p < hi) then d + [p] else d
  }

  lemma VisitedNone(mem: Memory, done: seq<int>, only: bool, lo: int, hi: int)
    ensures Visited(mem, done, [], only, lo, hi) == done
  {
  }

  lemma DoneKnown(before: Memory, mem: Memory, start: int, top: int, end: int, done: seq<int>)
    requires Copying(before, mem, start, top, end, done)
    ensures forall p :: p in done ==> p in before
  {
  }

  /** A clause is marked once it was copied, and stays as it was otherwise. */
  lemma StateOf(before: Memory, mem: Memory, start: int, top: int, end: int, done: seq<int>, p: int)
    requires Copying(before, mem, start, top, end, done) && p in before
    ensures p in mem && (mem[p].moved <==> p in done) && Collected(mem[p]) == Collected(before[p])
  {
  }

  lemma VisitedStep(mem: Memory, done: seq<int>, refs: seq<int>, k: nat, only: bool, lo: int, hi: int)
    requires k < |refs|
    ensures var d, p := Visited(mem, done, refs[..k], only, lo, hi), refs[k];
            Visited(mem, done, refs[..k + 1], only, lo, hi) ==
            if p in mem && !Collected(mem[p]) && p !in d && (!only || lo <= p < hi) then d + [p] else d
  {
    assert refs[..k + 1][..k] == refs[..k];
  }

  /** The order of all copies: clauses in the arena first if it is compacted, then the visited ones, then the rest. */
  function CopyOrder(mem: Memory, clauses: seq<int>, visit: seq<int>, compact: bool, lo: int, hi: int): seq<int>
  {
    var first := if compact then Visited(mem, [], clauses, true, lo, hi) else [];
    Visited(mem, Visited(mem, first, visit, false, lo, hi), clauses, false, lo, hi)
  }

  /** Each clause of the order lies right behind those before it. */
  ghost predicate LiesInOrder(before: Memory, phi: map<int, int>, base: int, order: seq<int>)
  {
    Known(before, order) && forall k :: 0 <= k < |order| ==> order[k] in phi && phi[order[k]] == base + Bytes(before, order[..k])
  }

  lemma CopiesInOrder(before: Memory, mem: Memory, start: int, top: int, end: int, done: seq<int>)
    requires Copying(before, mem, start, top, end, done) && forall p :: p in done ==> p in before && !Collected(before[p])
    ensures LiesInOrder(before, Phi(before, mem), start, done)
  {
    forall k | 0 <= k < |done|
      ensures done[k] in Phi(before, mem) && Phi(before, mem)[done[k]] == start + Bytes(before, done[..k])
    {
      assert Placed(before, mem, start, done, k) && done[k] in done;
    }
  }

  // ----- All survivors, whatever the order -----------------------------------------------------------

  /** A list without duplicates takes no more space than one that has all its members. */
  lemma {:induction false} FewerBytes(mem: Memory, a: seq<int>, b: seq<int>)
    requires Known(mem, a) && Known(mem, b) && Distinct(a) && Distinct(b) && forall p :: p in a ==> p in b
    ensures Bytes(mem, a) <= Bytes(mem, b)
    decreases |a|
  {
    if a != [] {
      var n := |a| - 1;
      var p := a[n];
      assert p in a;
      var k :| 0 <= k < |b| && b[k] == p;
      var less := b[..k] + b[k + 1..];
      BytesWithout(mem, b, k);
      assert a == a[..n] + [p];
      forall q | q in a[..n] ensures q in less { WithoutMember(b, k, q); }
      FewerBytes(mem, a[..n], less);
    }
  }

  /** Two lists without duplicates and with the same members take the same space. */
  lemma SameBytes(mem: Memory, a: seq<int>, b: seq<int>)
    requires Known(mem, a) && Known(mem, b) && Distinct(a) && Distinct(b) && forall p :: p in a <==> p in b
    ensures Bytes(mem, a) == Bytes(mem, b)
  {
    FewerBytes(mem, a, b);
    FewerBytes(mem, b, a);
  }

  lemma WithoutMember(b: seq<int>, k: nat, q: int)
    requires Distinct(b) && k < |b|
    ensures q in b[..k] + b[k + 1..] <==> q in b && q != b[k]
  {
    var less := b[..k] + b[k + 1..];
    if q in b && q != b[k] {
      var j :| 0 <= j < |b| && b[j] == q;
      assert less[if j < k then j else j - 1] == q;
    }
    if q in less {
      var j :| 0 <= j < |less| && less[j] == q;
      assert q == b[if j < k then j else j + 1];
    }
  }

  lemma {:induction false} BytesWithout(mem: Memory, b: seq<int>, k: nat)
    requires Known(mem, b) && k < |b|
    ensures Known(mem, b[..k] + b[k + 1..]) && Bytes(mem, b) == Bytes(mem, b[..k] + b[k + 1..]) + mem[b[k]].bytes
    decreases |b|
  {
    var n := |b| - 1;
    var less := b[..k] + b[k + 1..];
    if k == n {
      assert less == b[..n];
    } else {
      BytesWithout(mem, b[..n], k);
      assert less[..|less| - 1] == b[..n][..k] + b[..n][k + 1..] && less[|less| - 1] == b[n];
    }
  }

  lemma {:induction false} SurvivorsDistinct(mem: Memory, refs: seq<int>)
    requires Known(mem, refs) && Distinct(refs)
    ensures Distinct(Survivors(mem, refs))
    decreases |refs|
  {
    if refs != [] {
      var n := |refs| - 1;
      SurvivorsDistinct(mem, refs[..n]);
      assert refs[n] !in refs[..n];
    }
  }

  // ----- Following references ------------------------------------------------------------------------

  /** Where the surviving clauses went. */
  ghost function Phi(before: Memory, mem: Memory): map<int, int>
  {
    map p | p in before && p in mem && !Collected(before[p]) :: mem[p].copy
  }

  /** The map leads one to one from the surviving clauses to all clauses of the new memory, which say the same, take the
      same space, and do not overlap. */
  ghost predicate Relocates(before: Memory, after: Memory, start: int, top: int, phi: map<int, int>)
  {
    && (forall p :: p in phi <==> p in before && !Collected(before[p]))
    && (forall p :: p in phi ==> phi[p] in after && Content(after[phi[p]]) == Content(before[p]) && after[phi[p]].bytes == before[p].bytes)
    && (forall p :: p in phi ==> start <= phi[p] && phi[p] + before[p].bytes <= top)
    && (forall p, q :: p in phi && q in phi && p != q ==> phi[p] != phi[q] && Apart(before, phi, p, q))
    && (forall a :: a in after ==> exists p :: p in phi && phi[p] == a)
  }

  ghost predicate Apart(before: Memory, phi: map<int, int>, p: int, q: int)
  {
    && p in phi && q in phi && p in before && q in before
    && (phi[p] + before[p].bytes <= phi[q] || phi[q] + before[q].bytes <= phi[p])
  }

  /** The references that a list becomes. */
  function Follow(phi: map<int, int>, refs: seq<int>): (r: seq<int>)
    requires forall i :: 0 <= i < |refs| ==> refs[i] in phi
    ensures |r| == |refs|
  {
    seq(|refs|, i requires 0 <= i < |refs| => phi[refs[i]])
  }

  lemma FollowAppend(phi: map<int, int>, refs: seq<int>, p: int)
    requires (forall i :: 0 <= i < |refs| ==> refs[i] in phi) && p in phi
    ensures Follow(phi, refs + [p]) == Follow(phi, refs) + [phi[p]]
  {
  }

  /** Once all survivors were copied, the copies are a relocation, before and after the old space is released. */
  lemma CopiesRelocate(before: Memory, mem: Memory, after: Memory, start: int, top: int, end: int, done: seq<int>)
    requires Copying(before, mem, start, top, end, done) && (forall p :: p in before ==> (p in done <==> !Collected(before[p])))
    requires (forall p :: p in before ==> before[p].bytes > 0)
    requires forall a :: a in after <==> a in mem && start <= a < top
    requires forall a :: a in after ==> after[a] == mem[a]
    ensures Relocates(before, after, start, top, Phi(before, mem))
  {
    hide Copying;
    var phi := Phi(before, mem);
    forall p ensures p in phi <==> p in before && !Collected(before[p]) {
      if p in before { OriginalAt(before, mem, start, top, end, done, p); }
    }
    forall p | p in phi
      ensures phi[p] in after && Content(after[phi[p]]) == Content(before[p]) && after[phi[p]].bytes == before[p].bytes
      ensures start <= phi[p] && phi[p] + before[p].bytes <= top
    {
      CopyAt(before, mem, start, top, end, done, p);
    }
    forall p, q | p in phi && q in phi && p != q
      ensures phi[p] != phi[q] && Apart(before, phi, p, q)
    {
      CopiesApart(before, mem, start, top, end, done, p, q);
    }
    forall a | a in after
      ensures exists p :: p in phi && phi[p] == a
    {
      CopyFrom(before, mem, start, top, end, done, a);
      var p :| p in done && p in mem && mem[p].copy == a;
      assert p in before by { var k :| 0 <= k < |done| && done[k] == p; }
      assert p in phi && phi[p] == a;
    }
  }

  lemma CopyFrom(before: Memory, mem: Memory, start: int, top: int, end: int, done: seq<int>, a: int)
    requires Copying(before, mem, start, top, end, done) && a in mem && start <= a < top
    ensures IsCopy(mem, done, a) && Known(before, done)
  {
    hide Placed;
  }

  lemma CopiesApart(before: Memory, mem: Memory, start: int, top: int, end: int, done: seq<int>, p: int, q: int)
    requires Copying(before, mem, start, top, end, done) && p in done && q in done && p != q && p in before && q in before
    requires before[p].bytes > 0 && before[q].bytes > 0
    ensures p in mem && q in mem && mem[p].copy != mem[q].copy
    ensures mem[p].copy + before[p].bytes <= mem[q].copy || mem[q].copy + before[q].bytes <= mem[p].copy
  {
    var i :| 0 <= i < |done| && done[i] == p;
    var j :| 0 <= j < |done| && done[j] == q;
    OriginalAt(before, mem, start, top, end, done, p);
    OriginalAt(before, mem, start, top, end, done, q);
    if i < j { CopiesDisjoint(before, mem, start, top, end, done, i, j); } else { CopiesDisjoint(before, mem, start, top, end, done, j, i); }
  }

  /** A watch of a clause. */
  datatype Watch = Watch(clause: int, blit: int, size: nat)

  class Collector {
    var memory: Memory
    var clauses: seq<int>
    var occs: map<int, seq<int>>
    var watches: map<int, seq<Watch>>
    var reasons: map<int, int>
    var fromStart: int
    var fromTop: int
    var toTop: int
    var toEnd: int
    ghost var before: Memory
    var start: int
    ghost var done: seq<int>

    /** No clause was moved yet, all references lead to clauses, and reasons are protected. */
    ghost predicate Ready()
      reads this
    {
      && Known(memory, clauses) && Distinct(clauses) && (forall p :: p in memory ==> !memory[p].moved && memory[p].bytes > 0)
      && (forall p :: p in memory ==> p in clauses)
      && (forall l :: l in occs ==> Known(memory, occs[l]))
      && (forall l :: l in watches ==> WatchesOk(memory, watches[l], l))
      && (forall v :: v in reasons ==> reasons[v] in memory && memory[reasons[v]].reason)
    }

    constructor (mem: Memory, refs: seq<int>, os: map<int, seq<int>>, ws: map<int, seq<Watch>>, rs: map<int, int>, a: int, b: int)
      ensures memory == mem && clauses == refs && occs == os && watches == ws && reasons == rs && fromStart == a && fromTop == b
    {
      memory, clauses, occs, watches, reasons, fromStart, fromTop := mem, refs, os, ws, rs, a, b;
      toTop, toEnd, before, start, done := 0, 0, mem, 0, [];
    }

    /** The space that the surviving clauses need. */
    method CountBytes() returns (moved: nat)
      requires Known(memory, clauses)
      ensures moved == Bytes(memory, Survivors(memory, clauses))
    {
      moved := 0;
      var k := 0;
      Tallied(memory, clauses, 0, 0);
      while k < |clauses|
        invariant 0 <= k <= |clauses| && Tally(memory, clauses, k, moved)
      {
        hide Tally;
        Tallied(memory, clauses, k, moved);
        var c := memory[clauses[k]];
        if !Collected(c) {
          moved := moved + c.bytes;
        }
        k := k + 1;
      }
      assert clauses[..k] == clauses;
    }

    /** Copies one clause to the top of the new space. */
    method CopyClause(p: int)
      requires Copying(before, memory, start, toTop, toEnd, done) && p in before && p !in done && before[p].bytes > 0
      requires toTop + before[p].bytes <= toEnd && forall q :: q in before ==> before[q].bytes > 0
      modifies this`memory, this`toTop, this`done
      ensures Copying(before, memory, start, toTop, toEnd, done) && done == old(done) + [p]
    {
      var top := toTop;
      CopyOne(before, memory, start, top, toEnd, done, p);
      toTop := toTop + memory[p].bytes;
      memory := memory[top := memory[p]][p := memory[p].(moved := true, copy := top)];
      done := done + [p];
    }

    /** Visits references in any order and copies what survives and was not copied yet. */
    method CopyInOrder(refs: seq<int>, compact: bool)
      requires Copying(before, memory, start, toTop, toEnd, done) && Known(before, refs)
      requires (forall q :: q in before ==> before[q].bytes > 0) && forall p :: p in done ==> !Collected(before[p])
      requires Prepared(before, clauses, start, toEnd)
      modifies this`memory, this`toTop, this`done
      ensures Copying(before, memory, start, toTop, toEnd, done) && (forall p :: p in done ==> p in before && !Collected(before[p]))
      ensures forall p :: p in old(done) ==> p in done
      ensures !compact ==> forall p :: p in refs && !Collected(before[p]) ==> p in done
      ensures done == Visited(before, old(done), refs, compact, fromStart, fromTop)
    {
      hide Copying, Prepared, Visited, Collected;
      var k := 0;
      assert refs[..0] == [];
      VisitedNone(before, done, compact, fromStart, fromTop);
      DoneKnown(before, memory, start, toTop, toEnd, done);
      while k < |refs|
        invariant 0 <= k <= |refs| && Copying(before, memory, start, toTop, toEnd, done)
        invariant (forall p :: p in done ==> p in before && !Collected(before[p])) && forall p :: p in old(done) ==> p in done
        invariant !compact ==> forall i :: 0 <= i < k && !Collected(before[refs[i]]) ==> refs[i] in done
        invariant done == Visited(before, old(done), refs[..k], compact, fromStart, fromTop)
      {
        VisitedStep(before, old(done), refs, k, compact, fromStart, fromTop);
        var p := refs[k];
        StateOf(before, memory, start, toTop, toEnd, done, p);
        var c := memory[p];
        if !c.moved && !Collected(c) && (!compact || (fromStart <= p < fromTop)) {
          RoomFor(before, memory, clauses, start, toTop, toEnd, done, p);
          CopyClause(p);
        }
        k := k + 1;
      }
      assert refs[..k] == refs;
    }

    /** All survivors were copied. */
    ghost predicate Moved()
      reads this
    {
      && Copying(before, memory, start, toTop, toEnd, done)
      && (forall p :: p in before ==> (p in done <==> !Collected(before[p])))
    }

    /** Replaces references in a list by those to the copies, without collected clauses. */
    method FlushList(refs: seq<int>) returns (r: seq<int>)
      requires Moved() && Known(before, refs)
      ensures Flushed(before, Phi(before, memory), refs, r)
    {
      hide Copying, Flushed, Phi;
      ghost var phi := Phi(before, memory);
      r := [];
      var k := 0;
      assert refs[..0] == [];
      FlushedNone(before, phi);
      while k < |refs|
        invariant 0 <= k <= |refs| && Flushed(before, phi, refs[..k], r)
      {
        var p := refs[k];
        assert refs[..k + 1] == refs[..k] + [p];
        OriginalAt(before, memory, start, toTop, toEnd, done, p);
        var c := memory[p];
        if !Collected(c) {
          CopyAt(before, memory, start, toTop, toEnd, done, p);
          FlushedAdd(before, phi, refs[..k], r, p);
          r := r + [if c.moved then c.copy else p];
        } else {
          FlushedSkip(before, phi, refs[..k], r, p);
        }
        k := k + 1;
      }
      assert refs[..k] == refs;
    }

    /** Flushes a watch list: collected clauses go, sizes and blocking literals are refreshed, and the watches of binary
        clauses come first, in their old order. */
    method FlushWatches(ws: seq<Watch>, lit: int) returns (r: seq<Watch>)
      requires Moved() && WatchesOk(before, ws, lit)
      ensures WatchesFlushed(before, Phi(before, memory), ws, r, lit)
    {
      hide Copying, Phi, Picks;
      ghost var phi := Phi(before, memory);
      r := [];
      var saved: seq<Watch> := [];
      var k := 0;
      assert ws[..0] == [];
      PicksNone(before, phi, lit, true);
      PicksNone(before, phi, lit, false);
      while k < |ws|
        invariant 0 <= k <= |ws| && Picks(before, phi, ws[..k], r, lit, true) && Picks(before, phi, ws[..k], saved, lit, false)
      {
        assert ws[..k + 1] == ws[..k] + [ws[k]];
        var w := ws[k];
        OriginalAt(before, memory, start, toTop, toEnd, done, w.clause);
        var c := memory[w.clause];
        if !Collected(c) {
          CopyAt(before, memory, start, toTop, toEnd, done, w.clause);
          var a := if c.moved then c.copy else w.clause;
          var d := memory[a].lits;
          var other := if d[0] == lit then d[1] else d[0];
          var updated := Watch(a, other, |d|);
          RefreshedRight(before, phi, w, updated, lit);
          PicksStep(before, phi, ws[..k], r, w, updated, lit, true);
          PicksStep(before, phi, ws[..k], saved, w, updated, lit, false);
          if updated.size == 2 {
            r := r + [updated];
          } else {
            saved := saved + [updated];
          }
        } else {
          PicksStep(before, phi, ws[..k], r, w, w, lit, true);
          PicksStep(before, phi, ws[..k], saved, w, w, lit, false);
        }
        k := k + 1;
      }
      assert ws[..k] == ws;
      PicksJoin(before, phi, ws, r, saved, lit);
      r := r + saved;
    }

    /** Copies every surviving clause, first those already in the arena if asked to, then in the order of some list of
        references, and then whatever is left. In any order each survivor is copied exactly once, and the copies fill
        exactly the space that was prepared. */
    method CopySurvivors(base: int, compact: bool, visit: seq<int>)
      requires Ready() && Known(memory, visit) && Outside(memory, clauses, base)
      modifies this`memory, this`toTop, this`toEnd, this`before, this`start, this`done
      ensures Moved() && before == old(memory) && start == base && toTop == toEnd
      ensures toEnd == base + Bytes(before, Survivors(before, clauses))
      ensures Distinct(done) && forall p :: p in done <==> p in Survivors(before, clauses)
      ensures done == CopyOrder(before, clauses, visit, compact, fromStart, fromTop)
    {
      hide Ready, Visited, Copying, Survivors, Bytes, Known, Distinct;
      ReadyClauses(this);
      var bytes := CountBytes();
      NothingCopied(memory, clauses, base);
      toTop, toEnd := base, base + bytes;
      before, start, done := memory, base, [];
      CopyAll(compact, visit);
      SurvivorsDistinct(before, clauses);
      CopiedOnce(before, memory, start, toTop, toEnd, done);
      ExactFill(before, memory, start, toTop, toEnd, done, Survivors(before, clauses));
    }

    /** The passes over the clauses. */
    method CopyAll(compact: bool, visit: seq<int>)
      requires Copying(before, memory, start, toTop, toEnd, done) && done == [] && Known(before, visit) && Known(before, clauses)
      requires (forall p :: p in before ==> before[p].bytes > 0) && Prepared(before, clauses, start, toEnd)
      modifies this`memory, this`toTop, this`done
      ensures Moved() && forall p :: p in done <==> p in Survivors(before, clauses)
      ensures done == CopyOrder(before, clauses, visit, compact, fromStart, fromTop)
    {
      hide Visited, Copying, Survivors, Known, Distinct, Bytes;
      if compact {
        CopyInOrder(clauses, true);
      }
      CopyInOrder(visit, false);
      CopyInOrder(clauses, false);
      AllCopied(before, clauses, done);
    }

    /** The whole collection. One map leads from the surviving clauses to the clauses of the new memory, and clause list,
        occurrence lists, watches and reasons are what they were before, minus the collected clauses, under this map. The
        clause list is in its old order, or in the order of addresses if it is sorted. The copies lie one behind the other in
        the order of the visits. */
    method CollectGarbage(base: int, compact: bool, visit: seq<int>, lits: seq<int>, sort: bool) returns (ghost phi: map<int, int>)
      requires Ready() && Known(memory, visit) && Outside(memory, clauses, base)
      requires Distinct(lits) && (forall l :: l in occs ==> l in lits) && forall l :: l in watches ==> l in lits
      modifies this
      ensures Relocates(old(memory), memory, base, fromTop, phi)
      ensures ClausesFlushed(old(memory), phi, old(clauses), clauses, sort)
      ensures occs.Keys == old(occs.Keys) && forall l :: l in occs ==> Flushed(old(memory), phi, old(occs)[l], occs[l])
      ensures watches.Keys == old(watches.Keys) && forall l :: l in watches ==>
                WatchesFlushed(old(memory), phi, old(watches)[l], watches[l], l)
      ensures reasons.Keys == old(reasons.Keys) && forall v :: v in reasons ==>
                old(reasons)[v] in phi && reasons[v] == phi[old(reasons)[v]]
      ensures fromTop == toEnd && fromTop == base + Bytes(old(memory), Survivors(old(memory), old(clauses)))
      ensures fromStart == base && forall p :: p in memory ==> !memory[p].moved
      ensures LiesInOrder(old(memory), phi, base, CopyOrder(old(memory), old(clauses), visit, compact, old(fromStart), old(fromTop)))
    {
      hide LiesInOrder, CopyOrder, Copying, Flushed, WatchesFlushed, Survivors, Bytes, Phi, Relocates, Known, Distinct;
      ReadyClauses(this);
      ghost var mem := memory;
      CopySurvivors(base, compact, visit);
      phi := Phi(before, memory);
      CopiesInOrder(before, memory, start, toTop, toEnd, done);
      FlushAllOccs(lits);
      FlushAllWatches(lits);
      UpdateReasons();
      var refs := FlushList(clauses);
      ghost var old' := clauses;
      clauses := if sort then Sorted(refs) else refs;
      Arranged(mem, phi, old', refs, sort);
      ghost var both := memory;
      SwapSpaces();
      CopiesRelocate(mem, both, memory, base, fromTop, toEnd, done);
    }

    /** Relocates all occurrence lists. */
    method FlushAllOccs(lits: seq<int>)
      requires Moved() && (forall l :: l in occs ==> Known(before, occs[l]) && l in lits) && Distinct(lits)
      modifies this`occs
      ensures occs.Keys == old(occs.Keys) && forall l :: l in occs ==> Flushed(before, Phi(before, memory), old(occs)[l], occs[l])
    {
      hide Copying, Flushed;
      var k := 0;
      while k < |lits|
        invariant 0 <= k <= |lits| && occs.Keys == old(occs.Keys)
        invariant forall l :: l in occs && l !in lits[..k] ==> occs[l] == old(occs)[l]
        invariant forall l :: l in occs && l in lits[..k] ==> Flushed(before, Phi(before, memory), old(occs)[l], occs[l])
      {
        var l := lits[k];
        assert lits[..k + 1] == lits[..k] + [l] && l !in lits[..k];
        if l in occs {
          var r := FlushList(occs[l]);
          occs := occs[l := r];
        }
        k := k + 1;
      }
      assert lits[..k] == lits;
    }

    /** Relocates all watch lists. */
    method FlushAllWatches(lits: seq<int>)
      requires Moved() && (forall l :: l in watches ==> WatchesOk(before, watches[l], l) && l in lits) && Distinct(lits)
      modifies this`watches
      ensures watches.Keys == old(watches.Keys)
      ensures forall l :: l in watches ==> WatchesFlushed(before, Phi(before, memory), old(watches)[l], watches[l], l)
    {
      hide Copying, WatchesFlushed;
      var k := 0;
      while k < |lits|
        invariant 0 <= k <= |lits| && watches.Keys == old(watches.Keys)
        invariant forall l :: l in watches && l !in lits[..k] ==> watches[l] == old(watches)[l]
        invariant forall l :: l in watches && l in lits[..k] ==> WatchesFlushed(before, Phi(before, memory), old(watches)[l], watches[l], l)
      {
        var l := lits[k];
        assert lits[..k + 1] == lits[..k] + [l] && l !in lits[..k];
        if l in watches {
          var r := FlushWatches(watches[l], l);
          watches := watches[l := r];
        }
        k := k + 1;
      }
      assert lits[..k] == lits;
    }

    /** Reasons are never collected, and are relocated. */
    method UpdateReasons()
      requires Moved() && forall v :: v in reasons ==> reasons[v] in before && before[reasons[v]].reason
      modifies this`reasons
      ensures reasons.Keys == old(reasons.Keys) && forall v :: v in reasons ==>
                old(reasons)[v] in Phi(before, memory) && reasons[v] == Phi(before, memory)[old(reasons)[v]]
    {
      hide Copying, Phi;
      forall v | v in reasons
        ensures reasons[v] in memory && reasons[v] in Phi(before, memory)
        ensures Phi(before, memory)[reasons[v]] == memory[reasons[v]].copy
      {
        CopyAt(before, memory, start, toTop, toEnd, done, reasons[v]);
      }
      reasons := map v | v in reasons :: memory[reasons[v]].copy;
    }

    /** Releases the old space. */
    method SwapSpaces()
      requires Copying(before, memory, start, toTop, toEnd, done) && toTop == toEnd
      modifies this`memory, this`fromStart, this`fromTop
      ensures fromStart == start && fromTop == toEnd && memory.Keys <= old(memory).Keys
      ensures forall p :: p in memory ==> start <= p < fromTop && !memory[p].moved && memory[p] == old(memory)[p]
      ensures forall p :: p in old(memory) && start <= p < fromTop ==> p in memory
    {
      memory := map p | p in memory && start <= p < toTop :: memory[p];
      fromStart, fromTop := start, toTop;
    }
  }

  lemma ReadyClauses(d: Collector)
    requires d.Ready()
    ensures Known(d.memory, d.clauses) && Distinct(d.clauses)
    ensures forall p :: p in d.memory ==> !d.memory[p].moved && d.memory[p].bytes > 0 && p in d.clauses
  {
  }

  /** No clause lies in the space that will be prepared at this address. */
  ghost predicate Outside(mem: Memory, refs: seq<int>, base: int)
  {
    Known(mem, refs) && forall p :: p in mem ==> p < base || base + Bytes(mem, Survivors(mem, refs)) <= p
  }

  lemma NothingCopied(mem: Memory, refs: seq<int>, base: int)
    requires Outside(mem, refs, base) && forall p :: p in mem ==> !mem[p].moved
    ensures Copying(mem, mem, base, base, base + Bytes(mem, Survivors(mem, refs)), [])
  {
  }

  /** The space is large enough for all survivors, and all clauses are listed once. */
  ghost predicate Prepared(before: Memory, refs: seq<int>, start: int, end: int)
  {
    && Known(before, refs) && Distinct(refs) && (forall p :: p in before ==> p in refs)
    && end == start + Bytes(before, Survivors(before, refs))
  }

  /** There is room for one more survivor. */
  lemma RoomFor(before: Memory, mem: Memory, refs: seq<int>, start: int, top: int, end: int, done: seq<int>, p: int)
    requires Copying(before, mem, start, top, end, done) && Prepared(before, refs, start, end)
    requires p in before && !Collected(before[p]) && p !in done && forall q :: q in done ==> q in before && !Collected(before[q])
    ensures top + before[p].bytes <= end
  {
    SurvivorsDistinct(before, refs);
    BytesAppend(before, done, p);
    FewerBytes(before, done + [p], Survivors(before, refs));
  }

  lemma CopiedOnce(before: Memory, mem: Memory, start: int, top: int, end: int, done: seq<int>)
    requires Copying(before, mem, start, top, end, done)
    ensures Distinct(done)
  {
  }

  lemma AllCopied(before: Memory, refs: seq<int>, done: seq<int>)
    requires Known(before, refs) && (forall p :: p in before ==> p in refs)
    requires forall p :: p in done ==> p in before && !Collected(before[p])
    requires forall p :: p in refs && p in before && !Collected(before[p]) ==> p in done
    ensures forall p :: p in before ==> (p in done <==> !Collected(before[p]))
    ensures forall p :: p in done <==> p in Survivors(before, refs)
  {
  }

  lemma ExactFill(before: Memory, mem: Memory, start: int, top: int, end: int, done: seq<int>, refs: seq<int>)
    requires Copying(before, mem, start, top, end, done) && Known(before, refs) && Distinct(refs) && forall p :: p in done <==> p in refs
    ensures top == start + Bytes(before, refs)
  {
    SameBytes(before, done, refs);
  }

  lemma SurvivorsStep(mem: Memory, refs: seq<int>, k: nat)
    requires Known(mem, refs) && k < |refs|
    ensures Survivors(mem, refs[..k + 1]) ==
            if Collected(mem[refs[k]]) then Survivors(mem, refs[..k]) else Survivors(mem, refs[..k]) + [refs[k]]
  {
    assert refs[..k + 1][..k] == refs[..k];
  }

  ghost predicate Tally(mem: Memory, refs: seq<int>, k: nat, moved: nat)
  {
    k <= |refs| && Known(mem, refs[..k]) && moved == Bytes(mem, Survivors(mem, refs[..k]))
  }

  lemma Tallied(mem: Memory, refs: seq<int>, k: nat, moved: nat)
    requires Known(mem, refs) && k <= |refs|
    ensures Tally(mem, refs, 0, 0)
    ensures k < |refs| && Tally(mem, refs, k, moved) ==>
              Tally(mem, refs, k + 1, if Collected(mem[refs[k]]) then moved else moved + mem[refs[k]].bytes)
  {
    assert refs[..0] == [];
    if k < |refs| {
      SurvivorsStep(mem, refs, k);
      assert Known(mem, refs[..k]) && Known(mem, refs[..k + 1]);
      hide Survivors;
      BytesAppend(mem, Survivors(mem, refs[..k]), refs[k]);
    }
  }

  lemma BytesAppend(mem: Memory, refs: seq<int>, p: int)
    requires Known(mem, refs) && p in mem
    ensures Known(mem, refs + [p]) && Bytes(mem, refs + [p]) == Bytes(mem, refs) + mem[p].bytes
  {
    var more := refs + [p];
    assert more[..|more| - 1] == refs;
  }

  /** Watches lead to clauses of at least two literals, with the literal in one of the first two positions. */
  predicate WatchesOk(mem: Memory, ws: seq<Watch>, lit: int)
  {
    forall i :: 0 <= i < |ws| ==> ws[i].clause in mem && |mem[ws[i].clause].lits| >= 2 && lit in mem[ws[i].clause].lits[..2]
  }

  lemma OriginalAt(before: Memory, mem: Memory, start: int, top: int, end: int, done: seq<int>, p: int)
    requires Copying(before, mem, start, top, end, done) && p in before
    ensures p in mem && Content(mem[p]) == Content(before[p])
  {
  }

  lemma CopyAt(before: Memory, mem: Memory, start: int, top: int, end: int, done: seq<int>, p: int)
    requires Copying(before, mem, start, top, end, done) && p in before && p in done
    ensures p in mem && mem[p].moved && mem[p].copy in mem && Content(mem[mem[p].copy]) == Content(before[p])
    ensures mem[mem[p].copy].bytes == before[p].bytes && start <= mem[p].copy && mem[p].copy + before[p].bytes <= top
    ensures !Collected(before[p]) ==> p in Phi(before, mem) && Phi(before, mem)[p] == mem[p].copy
  {
    var k :| 0 <= k < |done| && done[k] == p;
    assert Placed(before, mem, start, done, k);
    BytesMonotone(before, done, k, |done|);
    assert done[..|done|] == done;
  }

  /** A relocated list: the references to the copies of the surviving clauses, in order. */
  ghost predicate Flushed(before: Memory, phi: map<int, int>, refs: seq<int>, r: seq<int>)
  {
    && Known(before, refs) && (forall i :: 0 <= i < |Survivors(before, refs)| ==> Survivors(before, refs)[i] in phi)
    && r == Follow(phi, Survivors(before, refs))
  }

  lemma FlushedNone(before: Memory, phi: map<int, int>)
    ensures Flushed(before, phi, [], [])
  {
  }

  lemma FlushedAdd(before: Memory, phi: map<int, int>, refs: seq<int>, r: seq<int>, p: int)
    requires Flushed(before, phi, refs, r) && p in before && !Collected(before[p]) && p in phi
    ensures Flushed(before, phi, refs + [p], r + [phi[p]])
  {
    SurvivorsAppend(before, refs, p);
    hide Survivors;
    FollowAppend(phi, Survivors(before, refs), p);
  }

  // ----- The order of the clause list ----------------------------------------------------------------

  function Insert(p: int, refs: seq<int>): seq<int>
  {
    if refs == [] || p <= refs[0] then [p] + refs else [refs[0]] + Insert(p, refs[1..])
  }

  function Sorted(refs: seq<int>): seq<int>
  {
    if refs == [] then [] else Insert(refs[0], Sorted(refs[1..]))
  }

  predicate Ascending(refs: seq<int>)
  {
    forall i, j :: 0 <= i < j < |refs| ==> refs[i] <= refs[j]
  }

  lemma {:induction false} InsertOk(p: int, refs: seq<int>)
    requires Ascending(refs)
    ensures Ascending(Insert(p, refs)) && multiset(Insert(p, refs)) == multiset(refs) + multiset{p}
  {
    if refs != [] {
      assert refs == [refs[0]] + refs[1..];
      if p > refs[0] {
        InsertOk(p, refs[1..]);
        var rest := Insert(p, refs[1..]);
        forall j | 0 <= j < |rest| ensures refs[0] <= rest[j] {
          assert rest[j] in multiset(rest);
          AtLeast(refs, p, rest[j]);
        }
        hide Insert;
        FrontAscending(refs[0], rest);
      }
    }
  }

  lemma AtLeast(refs: seq<int>, p: int, q: int)
    requires Ascending(refs) && refs != [] && refs[0] < p && q in multiset(refs[1..]) + multiset{p}
    ensures refs[0] <= q
  {
    if q != p { assert q in refs[1..]; }
  }

  lemma FrontAscending(p: int, refs: seq<int>)
    requires Ascending(refs) && forall j :: 0 <= j < |refs| ==> p <= refs[j]
    ensures Ascending([p] + refs)
  {
  }

  lemma {:induction false} SortedOk(refs: seq<int>)
    ensures Ascending(Sorted(refs)) && multiset(Sorted(refs)) == multiset(refs)
  {
    if refs != [] {
      SortedOk(refs[1..]);
      InsertOk(refs[0], Sorted(refs[1..]));
      assert refs == [refs[0]] + refs[1..];
    }
  }

  /** The relocated clause list, in its old order or sorted by address. */
  ghost predicate ClausesFlushed(before: Memory, phi: map<int, int>, refs: seq<int>, r: seq<int>, sort: bool)
  {
    exists list :: Flushed(before, phi, refs, list) && multiset(r) == multiset(list) && (if sort then Ascending(r) else r == list)
  }

  lemma Arranged(before: Memory, phi: map<int, int>, refs: seq<int>, r: seq<int>, sort: bool)
    requires Flushed(before, phi, refs, r)
    ensures ClausesFlushed(before, phi, refs, if sort then Sorted(r) else r, sort)
  {
    SortedOk(r);
  }

  lemma SurvivorsAppend(mem: Memory, refs: seq<int>, p: int)
    requires Known(mem, refs) && p in mem
    ensures Known(mem, refs + [p])
    ensures Survivors(mem, refs + [p]) == if Collected(mem[p]) then Survivors(mem, refs) else Survivors(mem, refs) + [p]
  {
    var more := refs + [p];
    assert more[..|refs|] == refs;
    SurvivorsStep(mem, more, |refs|);
    assert more[..|more|] == more;
  }

  lemma FlushedSkip(before: Memory, phi: map<int, int>, refs: seq<int>, r: seq<int>, p: int)
    requires Flushed(before, phi, refs, r) && p in before && Collected(before[p])
    ensures Flushed(before, phi, refs + [p], r)
  {
    SurvivorsAppend(before, refs, p);
    hide Survivors;
  }

  /** A refreshed watch of the clause that w watches: it names the copy, its size, and the other watched literal. */
  ghost predicate WatchRight(before: Memory, phi: map<int, int>, w: Watch, v: Watch, lit: int)
  {
    && w.clause in phi && w.clause in before && |before[w.clause].lits| >= 2
    && v.clause == phi[w.clause] && v.size == |before[w.clause].lits|
    && var lits := before[w.clause].lits;
       (lits[0] == lit && v.blit == lits[1]) || (lits[0] != lit && lits[1] == lit && v.blit == lits[0])
  }

  /** The watches of the surviving clauses that are binary, or that are not, in order. */
  function Picked(mem: Memory, ws: seq<Watch>, binary: bool): seq<Watch>
    requires forall i :: 0 <= i < |ws| ==> ws[i].clause in mem
  {
    if ws == [] then []
    else
      var w := ws[|ws| - 1];
      Picked(mem, ws[..|ws| - 1], binary) +
      if !Collected(mem[w.clause]) && (|mem[w.clause].lits| == 2) == binary then [w] else []
  }

  /** One refreshed watch for each watch. */
  ghost predicate AllRight(before: Memory, phi: map<int, int>, ws: seq<Watch>, r: seq<Watch>, lit: int)
  {
    |r| == |ws| && forall i :: 0 <= i < |ws| ==> WatchRight(before, phi, ws[i], r[i], lit)
  }

  ghost predicate Picks(before: Memory, phi: map<int, int>, ws: seq<Watch>, r: seq<Watch>, lit: int, binary: bool)
  {
    (forall i :: 0 <= i < |ws| ==> ws[i].clause in before) && AllRight(before, phi, Picked(before, ws, binary), r, lit)
  }

  /** A relocated watch list: a refreshed watch for each watch of a surviving clause, binary ones first, in order. */
  ghost predicate WatchesFlushed(before: Memory, phi: map<int, int>, ws: seq<Watch>, r: seq<Watch>, lit: int)
  {
    && (forall i :: 0 <= i < |ws| ==> ws[i].clause in before)
    && AllRight(before, phi, Picked(before, ws, true) + Picked(before, ws, false), r, lit)
  }

  lemma PicksNone(before: Memory, phi: map<int, int>, lit: int, binary: bool)
    ensures Picks(before, phi, [], [], lit, binary)
  {
  }

  lemma PicksStep(before: Memory, phi: map<int, int>, ws: seq<Watch>, r: seq<Watch>, w: Watch, v: Watch, lit: int, binary: bool)
    requires Picks(before, phi, ws, r, lit, binary) && w.clause in before
    requires Collected(before[w.clause]) || WatchRight(before, phi, w, v, lit)
    ensures var takes := !Collected(before[w.clause]) && (|before[w.clause].lits| == 2) == binary;
            Picks(before, phi, ws + [w], if takes then r + [v] else r, lit, binary)
  {
    assert (ws + [w])[..|ws|] == ws;
  }

  lemma PicksJoin(before: Memory, phi: map<int, int>, ws: seq<Watch>, r: seq<Watch>, saved: seq<Watch>, lit: int)
    requires Picks(before, phi, ws, r, lit, true) && Picks(before, phi, ws, saved, lit, false)
    ensures WatchesFlushed(before, phi, ws, r + saved, lit)
  {
  }

  lemma RefreshedRight(before: Memory, phi: map<int, int>, w: Watch, v: Watch, lit: int)
    requires w.clause in before && w.clause in phi && |before[w.clause].lits| >= 2 && lit in before[w.clause].lits[..2]
    requires var lits := before[w.clause].lits;
             v == Watch(phi[w.clause], if lits[0] == lit then lits[1] else lits[0], |lits|)
    ensures WatchRight(before, phi, w, v, lit)
  {
    var lits := before[w.clause].lits;
    assert lits[..2] == [lits[0], lits[1]];
  }
}
