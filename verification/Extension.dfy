/** The extension stack (cadical/src/extend.cpp): removed clauses with their witnesses on one flat vector of
    integers, and the backward walk that repairs an assignment. */
module Extension {
  import opened Logic

  /** A removed clause, the two words of its identifier, and the witness cube to be made true if it is falsified. */
  datatype Entry = Entry(cube: seq<int>, high: int, low: int, clause: Clause)

  ghost predicate EntryOk(e: Entry)
  {
    ProperClause(e.cube) && ProperClause(e.clause)
  }

  ghost predicate AllOk(entries: seq<Entry>)
  {
    forall i :: 0 <= i < |entries| ==> EntryOk(entries[i])
  }

  /** The layout of one entry. */
  function Flat(e: Entry): seq<int>
  {
    [0] + e.cube + [0, e.high, e.low, 0] + e.clause
  }

  function Flatten(entries: seq<Entry>): seq<int>
  {
    if entries == [] then [] else Flatten(entries[..|entries| - 1]) + Flat(entries[|entries| - 1])
  }

  // ----- The repair as a function --------------------------------------------------------------------

  ghost function SetTrue(s: Assignment, l: int): Assignment
  {
    if l > 0 then s + iset{l} else s - iset{-l}
  }

  /** Makes the literals true one after the other, the last one first. */
  ghost function SetAll(s: Assignment, cube: seq<int>): Assignment
    decreases |cube|
  {
    if cube == [] then s else SetAll(SetTrue(s, cube[|cube| - 1]), cube[..|cube| - 1])
  }

  ghost function Repair(s: Assignment, e: Entry): Assignment
  {
    if ClauseTrue(s, e.clause) then s else SetAll(s, e.cube)
  }

  /** The last entry is repaired first. */
  ghost function RepairAll(s: Assignment, entries: seq<Entry>): Assignment
    decreases |entries|
  {
    if entries == [] then s else RepairAll(Repair(s, entries[|entries| - 1]), entries[..|entries| - 1])
  }

  lemma {:induction false} RepairConcat(s: Assignment, a: seq<Entry>, b: seq<Entry>)
    ensures RepairAll(s, a + b) == RepairAll(RepairAll(s, b), a)
    decreases |b|
  {
    if b == [] {
      assert a + b == a;
    } else {
      var front, last := b[..|b| - 1], b[|b| - 1];
      assert (a + b)[..|a + b| - 1] == a + front && (a + b)[|a + b| - 1] == last;
      RepairConcat(Repair(s, last), a, front);
    }
  }

  /** The entries without their identifiers. */
  function Strip(entries: seq<Entry>): (r: seq<Entry>)
    ensures |r| == |entries|
  {
    seq(|entries|, i requires 0 <= i < |entries| => Entry(entries[i].cube, 0, 0, entries[i].clause))
  }

  /** Identifiers do not matter for the repair. */
  lemma {:induction false} RepairStrip(s: Assignment, entries: seq<Entry>)
    ensures RepairAll(s, entries) == RepairAll(s, Strip(entries))
    decreases |entries|
  {
    if entries != [] {
      var n := |entries| - 1;
      assert Strip(entries)[..n] == Strip(entries[..n]);
      assert Repair(s, Strip(entries)[n]) == Repair(s, entries[n]);
      RepairStrip(Repair(s, entries[n]), entries[..n]);
    }
  }

  lemma SetTrueFacts(s: Assignment, l: int)
    requires l != 0
    ensures LitTrue(SetTrue(s, l), l)
    ensures forall m :: m != 0 && m != -l && LitTrue(s, m) ==> LitTrue(SetTrue(s, l), m)
    ensures forall m :: m != 0 && m != l && m != -l ==> (LitTrue(SetTrue(s, l), m) <==> LitTrue(s, m))
  {
  }

  // ----- The stack in memory -------------------------------------------------------------------------

  class External {
    var extension: seq<int>
    var vals: seq<bool>
    ghost var entries: seq<Entry>

    ghost predicate Valid()
      reads this
    {
      extension == Flatten(entries) && AllOk(entries)
    }

    /** The values as an assignment; variables beyond the vector are false. */
    ghost function View(): Assignment
      reads this
    {
      iset v | 0 < v < |vals| && vals[v]
    }

    constructor ()
      ensures Valid() && entries == [] && vals == []
    {
      extension, vals, entries := [], [], [];
    }

    /** Pushes the rest of an entry, after its witness: the identifier and the clause. */
    method PushClauseAfterWitness(c: Clause, high: int, low: int, ghost cube: seq<int>)
      requires ProperClause(c) && ProperClause(cube) && extension == Flatten(entries) + [0] + cube
      requires AllOk(entries)
      modifies this`extension, this`entries
      ensures Valid() && entries == old(entries) + [Entry(cube, high, low, c)]
    {
      hide Flatten, Flat, EntryOk, AllOk;
      extension := extension + [0] + [high] + [low] + [0];
      ghost var before := extension;
      var j := 0;
      while j < |c|
        invariant 0 <= j <= |c| && extension == before + c[..j] && entries == old(entries)
      {
        extension := extension + [c[j]];
        assert c[..j + 1] == c[..j] + [c[j]];
        j := j + 1;
      }
      assert c[..j] == c;
      ghost var e := Entry(cube, high, low, c);
      FlatParts(Flatten(entries), e);
      AppendFlat(entries, e);
      entries := entries + [e];
    }

    /** A clause with a single witness literal (eliminated and blocked clauses). */
    method PushClause(c: Clause, high: int, low: int, pivot: int)
      requires Valid() && ProperClause(c) && pivot != 0
      modifies this`extension, this`entries
      ensures Valid() && entries == old(entries) + [Entry([pivot], high, low, c)]
    {
      extension := extension + [0] + [pivot];
      PushClauseAfterWitness(c, high, low, [pivot]);
    }

    /** A binary clause with its first literal as witness (substituted literals). */
    method PushBinary(high: int, low: int, pivot: int, other: int)
      requires Valid() && pivot != 0 && other != 0
      modifies this`extension, this`entries
      ensures Valid() && entries == old(entries) + [Entry([pivot], high, low, [pivot, other])]
    {
      hide Flatten, Flat, EntryOk, AllOk;
      ghost var e := Entry([pivot], high, low, [pivot, other]);
      FlatBinary(high, low, pivot, other);
      AppendFlat(entries, e);
      extension := extension + [0, pivot, 0, high, low, 0, pivot, other];
      entries := entries + [e];
    }

    /** A clause with a whole witness cube (globally blocked clauses). */
    method PushClauseWithWitness(c: Clause, high: int, low: int, cube: seq<int>)
      requires Valid() && ProperClause(c) && ProperClause(cube)
      modifies this`extension, this`entries
      ensures Valid() && entries == old(entries) + [Entry(cube, high, low, c)]
    {
      extension := extension + [0];
      ghost var before := extension;
      var j := 0;
      while j < |cube|
        invariant 0 <= j <= |cube| && extension == before + cube[..j] && entries == old(entries)
      {
        extension := extension + [cube[j]];
        assert cube[..j + 1] == cube[..j] + [cube[j]];
        j := j + 1;
      }
      assert cube[..j] == cube;
      PushClauseAfterWitness(c, high, low, cube);
    }

    /** The literal's value: the literal itself if it is true, otherwise its negation. */
    method IVal(lit: int) returns (r: int)
      requires lit != 0
      ensures r == if LitTrue(View(), lit) then lit else -lit
    {
      var idx := Abs(lit);
      var val := idx < |vals| && vals[idx];
      if lit < 0 {
        val := !val;
      }
      r := if val then lit else -lit;
    }

    /** Flips the variable of a false literal. */
    method FlipLiteral(lit: int)
      requires lit != 0 && !LitTrue(View(), lit)
      modifies this`vals
      ensures View() == SetTrue(old(View()), lit)
    {
      var idx := Abs(lit);
      if idx >= |vals| {
        vals := vals + seq(idx + 1 - |vals|, _ => false);
        assert View() == old(View());
      }
      vals := vals[idx := !vals[idx]];
    }

    /** Reads a clause backward from position hi down to the zero before it. */
    method ReadClause(hi: nat, ghost e: Entry, ghost start: nat) returns (i: nat, satisfied: bool)
      requires At(extension, start, e) && EntryOk(e) && hi == start + |Flat(e)|
      ensures i == start + |e.cube| + 4 && satisfied == ClauseTrue(View(), e.clause)
    {
      ghost var first := start + |e.cube| + 5;
      ClauseAt(extension, start, e);
      i, satisfied := hi - 1, false;
      while extension[i] != 0
        invariant first - 1 <= i < hi
        invariant satisfied <==> exists j :: i - first < j < |e.clause| && LitTrue(View(), e.clause[j])
        decreases i
      {
        var lit := extension[i];
        if !satisfied {
          var v := IVal(lit);
          if v == lit {
            assert LitTrue(View(), e.clause[i - first]);
            satisfied := true;
          }
        }
        i := i - 1;
      }
      if satisfied {
        ghost var j :| i - first < j < |e.clause| && LitTrue(View(), e.clause[j]);
        assert e.clause[j] in e.clause;
      }
    }

    /** Makes the witness literals true, from position hi down to the zero before the witness. */
    method FlipWitness(hi: nat, ghost e: Entry, ghost start: nat) returns (i: nat)
      requires At(extension, start, e) && EntryOk(e) && hi == start + |e.cube| + 1
      modifies this`vals
      ensures i == start && View() == SetAll(old(View()), e.cube)
    {
      ClauseAt(extension, start, e);
      hide At, EntryOk, Flat, LitTrue;
      i := hi - 1;
      assert e.cube[..|e.cube|] == e.cube;
      while extension[i] != 0
        invariant start <= i < hi && extension == old(extension)
        invariant SetAll(View(), e.cube[..i - start]) == SetAll(old(View()), e.cube)
        decreases i
      {
        var lit := extension[i];
        assert lit == e.cube[i - 1 - start];
        SetLast(View(), e.cube, i - start);
        MakeTrue(lit);
        i := i - 1;
      }
      assert e.cube[..0] == [];
    }

    /** Makes one literal true. */
    method MakeTrue(lit: int)
      requires lit != 0
      modifies this`vals
      ensures View() == SetTrue(old(View()), lit)
    {
      var tmp := IVal(lit);
      if tmp != lit {
        FlipLiteral(lit);
      } else {
        AlreadyTrue(View(), lit);
      }
    }

    /** Skips the witness, down to the zero before it. */
    method SkipWitness(hi: nat, ghost e: Entry, ghost start: nat) returns (i: nat)
      requires At(extension, start, e) && EntryOk(e) && hi == start + |e.cube| + 1
      ensures i == start
    {
      ClauseAt(extension, start, e);
      i := hi - 1;
      while extension[i] != 0
        invariant start <= i < hi
        decreases i
      {
        i := i - 1;
      }
    }

    /** The backward walk over the whole stack computes the repair of the current values. */
    method Extend()
      requires Valid()
      modifies this`vals
      ensures Valid() && View() == RepairAll(old(View()), entries)
    {
      var i := |extension|;
      ghost var n := |entries|;
      assert entries[..n] == entries;
      while i != 0
        invariant 0 <= n <= |entries| && i == |Flatten(entries[..n])| && Valid()
        invariant RepairAll(View(), entries[..n]) == RepairAll(old(View()), entries)
        decreases n
      {
        ghost var start := |Flatten(entries[..n - 1])|;
        ghost var e := entries[n - 1];
        LastEntryAt(extension, entries, n);
        var satisfied;
        i, satisfied := ReadClause(i, e, start);
        i := i - 1;
        i := i - 1;
        i := i - 1;
        if satisfied {
          i := SkipWitness(i, e, start);
        } else {
          i := FlipWitness(i, e, start);
        }
        assert entries[..n][..n - 1] == entries[..n - 1];
        n := n - 1;
      }
      FlattenZero(entries, n);
    }
  }

  lemma SetLast(s: Assignment, cube: seq<int>, k: nat)
    requires 0 < k <= |cube|
    ensures SetAll(s, cube[..k]) == SetAll(SetTrue(s, cube[k - 1]), cube[..k - 1])
  {
    assert cube[..k][..k - 1] == cube[..k - 1];
  }

  lemma AlreadyTrue(s: Assignment, l: int)
    requires l != 0 && LitTrue(s, l)
    ensures SetTrue(s, l) == s
  {
  }

  lemma FlattenZero(entries: seq<Entry>, n: nat)
    requires n <= |entries|
    ensures |Flatten(entries[..n])| == 0 <==> n == 0
  {
  }

  /** The last of the first n entries lies at the end of their flattening. */
  lemma LastEntryAt(extension: seq<int>, entries: seq<Entry>, n: nat)
    requires extension == Flatten(entries) && n <= |entries| && |Flatten(entries[..n])| > 0
    ensures n > 0 && At(extension, |Flatten(entries[..n - 1])|, entries[n - 1])
    ensures |Flatten(entries[..n])| == |Flatten(entries[..n - 1])| + |Flat(entries[n - 1])|
  {
    FlattenPrefix(entries, n);
    assert entries[..n][..n - 1] == entries[..n - 1];
    var a, f := Flatten(entries[..n - 1]), Flat(entries[n - 1]);
    assert Flatten(entries[..n]) == a + f;
    assert extension[|a|..|a| + |f|] == Flatten(entries[..n])[|a|..|a| + |f|] == f;
  }

  lemma {:induction false} FlattenPrefix(entries: seq<Entry>, n: nat)
    requires n <= |entries|
    ensures Flatten(entries[..n]) <= Flatten(entries)
    decreases |entries|
  {
    if n == |entries| {
      assert entries[..n] == entries;
    } else {
      var front := entries[..|entries| - 1];
      FlattenPrefix(front, n);
      assert front[..n] == entries[..n];
    }
  }

  ghost predicate At(extension: seq<int>, start: nat, e: Entry)
  {
    start + |Flat(e)| <= |extension| && extension[start..start + |Flat(e)|] == Flat(e)
  }

  /** Where the parts of an entry lie. */
  lemma ClauseAt(extension: seq<int>, start: nat, e: Entry)
    requires At(extension, start, e) && EntryOk(e)
    ensures |Flat(e)| == |e.cube| + 5 + |e.clause|
    ensures extension[start] == 0 && extension[start + |e.cube| + 1] == 0 && extension[start + |e.cube| + 4] == 0
    ensures forall j :: 0 <= j < |e.cube| ==> extension[start + 1 + j] == e.cube[j] && e.cube[j] != 0
    ensures forall j :: 0 <= j < |e.clause| ==>
              extension[start + |e.cube| + 5 + j] == e.clause[j] && e.clause[j] != 0
  {
    var f := Flat(e);
    assert forall k :: 0 <= k < |f| ==> extension[start + k] == f[k];
    forall j | 0 <= j < |e.cube| ensures f[1 + j] == e.cube[j] && e.cube[j] in e.cube {}
    forall j | 0 <= j < |e.clause| ensures f[|e.cube| + 5 + j] == e.clause[j] && e.clause[j] in e.clause {}
  }

  lemma AppendFlat(entries: seq<Entry>, e: Entry)
    ensures Flatten(entries + [e]) == Flatten(entries) + Flat(e)
    ensures AllOk(entries) && ProperClause(e.cube) && ProperClause(e.clause) ==> AllOk(entries + [e])
  {
    var more := entries + [e];
    assert more[..|more| - 1] == entries && more[|more| - 1] == e;
  }

  lemma FlatBinary(high: int, low: int, pivot: int, other: int)
    ensures Flat(Entry([pivot], high, low, [pivot, other])) == [0, pivot, 0, high, low, 0, pivot, other]
  {
  }

  lemma FlatParts(before: seq<int>, e: Entry)
    ensures before + [0] + e.cube + [0] + [e.high] + [e.low] + [0] + e.clause == before + Flat(e)
  {
    assert [0] + [e.high] + [e.low] + [0] == [0, e.high, e.low, 0];
    assert before + [0] + e.cube + [0] + [e.high] + [e.low] + [0] + e.clause ==
           before + ([0] + e.cube + ([0] + [e.high] + [e.low] + [0]) + e.clause);
  }
}
