/** The chained hash table of the online proof checker (cadical/src/checker.cpp, find, insert, enlarge_clauses): a
    clause sits in the bucket of its reduced hash, whatever the size of the table. */
module HashTable {
  import opened Logic
  import opened Watches

  /** The chains, first clause first. */
  type Buckets = seq<seq<nat>>

  /** How a hash is folded before it is cut down to the size of the table. */
  type Fold = (nat, nat) -> nat

  function Reduce(fold: Fold, hash: nat, size: nat): (h: nat)
    requires size > 0
    ensures h < size
  {
    fold(hash, size) % size
  }

  /** The live clauses that belong into bucket b of a table of the given size. */
  predicate Belongs(fold: Fold, arena: Arena, size: nat, b: int, c: nat)
  {
    size > 0 && c < |arena| && arena[c].Live() && Reduce(fold, arena[c].hash, size) == b
  }

  /** The chain holds exactly the live clauses of bucket b, each once. */
  ghost predicate BucketOk(fold: Fold, arena: Arena, size: nat, b: int, chain: seq<nat>)
  {
    Distinct(chain) && forall c: nat :: c in chain <==> Belongs(fold, arena, size, b, c)
  }

  /** Every chain is right; without any chain there is no live clause. */
  ghost predicate BucketsOk(fold: Fold, arena: Arena, t: Buckets)
  {
    && (forall b :: 0 <= b < |t| ==> BucketOk(fold, arena, |t|, b, t[b]))
    && (t == [] ==> forall c :: 0 <= c < |arena| ==> !arena[c].Live())
  }

  // ----- Adding and removing -------------------------------------------------------------------------

  function Pushed(fold: Fold, t: Buckets, hash: nat, c: nat): Buckets
    requires t != []
  {
    var h := Reduce(fold, hash, |t|);
    t[h := [c] + t[h]]
  }

  lemma PushedOk(fold: Fold, arena: Arena, t: Buckets, clause: CheckerClause)
    requires BucketsOk(fold, arena, t) && t != [] && clause.Live()
    ensures BucketsOk(fold, arena + [clause], Pushed(fold, t, clause.hash, |arena|))
  {
    var more, t', h := arena + [clause], Pushed(fold, t, clause.hash, |arena|), Reduce(fold, clause.hash, |t|);
    forall b | 0 <= b < |t'|
      ensures BucketOk(fold, more, |t'|, b, t'[b])
    {
      assert BucketOk(fold, arena, |t|, b, t[b]);
      forall c: nat ensures Belongs(fold, more, |t|, b, c) <==> Belongs(fold, arena, |t|, b, c) || (c == |arena| && b == h) {
      }
      assert |arena| !in t[b];
    }
  }

  function Dropped(t: Buckets, b: nat, pos: nat): Buckets
    requires b < |t| && pos < |t[b]|
  {
    t[b := t[b][..pos] + t[b][pos + 1..]]
  }

  lemma DroppedChain(chain: seq<nat>, pos: nat)
    requires pos < |chain| && Distinct(chain)
    ensures Distinct(chain[..pos] + chain[pos + 1..])
    ensures forall c: nat :: c in chain[..pos] + chain[pos + 1..] <==> c in chain && c != chain[pos]
  {
    var less := chain[..pos] + chain[pos + 1..];
    forall i, j | 0 <= i < j < |less| ensures less[i] != less[j] {
      assert less[i] == chain[if i < pos then i else i + 1] && less[j] == chain[if j < pos then j else j + 1];
    }
    forall c: nat ensures c in less <==> c in chain && c != chain[pos] {
      if c in chain && c != chain[pos] {
        var j :| 0 <= j < |chain| && chain[j] == c;
        assert less[if j < pos then j else j - 1] == c;
      }
      if c in less {
        var j :| 0 <= j < |less| && less[j] == c;
        assert chain[if j < pos then j else j + 1] == c;
      }
    }
  }

  lemma DroppedOk(fold: Fold, arena: Arena, t: Buckets, b: nat, pos: nat)
    requires BucketsOk(fold, arena, t) && b < |t| && pos < |t[b]|
    ensures t[b][pos] < |arena| && arena[t[b][pos]].Live()
    ensures BucketsOk(fold, arena[t[b][pos] := arena[t[b][pos]].(size := 0)], Dropped(t, b, pos))
  {
    var d := t[b][pos];
    assert BucketOk(fold, arena, |t|, b, t[b]) && d in t[b];
    var less, t' := arena[d := arena[d].(size := 0)], Dropped(t, b, pos);
    DroppedChain(t[b], pos);
    forall k | 0 <= k < |t'|
      ensures BucketOk(fold, less, |t'|, k, t'[k])
    {
      assert BucketOk(fold, arena, |t|, k, t[k]);
      forall c: nat ensures Belongs(fold, less, |t|, k, c) <==> Belongs(fold, arena, |t|, k, c) && c != d {
      }
    }
  }

  lemma SameBuckets(fold: Fold, arena: Arena, arena': Arena, t: Buckets)
    requires BucketsOk(fold, arena, t) && SameArena(arena, arena')
    ensures BucketsOk(fold, arena', t)
  {
    forall c | 0 <= c < |arena| ensures arena'[c].Live() == arena[c].Live() && arena'[c].hash == arena[c].hash {
      assert SameClause(arena[c], arena'[c]);
    }
    forall b | 0 <= b < |t|
      ensures BucketOk(fold, arena', |t|, b, t[b])
    {
      assert BucketOk(fold, arena, |t|, b, t[b]);
      forall c: nat ensures Belongs(fold, arena', |t|, b, c) <==> Belongs(fold, arena, |t|, b, c) {}
    }
  }

  // ----- Counting ------------------------------------------------------------------------------------

  function LiveIndices(arena: Arena): set<nat>
  {
    set c: nat | c < |arena| && arena[c].Live()
  }

  lemma CountAdded(arena: Arena, clause: CheckerClause)
    requires clause.Live()
    ensures |LiveIndices(arena + [clause])| == |LiveIndices(arena)| + 1
  {
    var more := arena + [clause];
    assert forall c: nat :: c < |arena| ==> more[c] == arena[c];
    assert more[|arena|] == clause;
    var a, b := LiveIndices(arena), LiveIndices(more);
    assert |arena| !in a;
    assert b == a + {|arena|};
  }

  lemma CountRemoved(arena: Arena, d: nat)
    requires d < |arena| && arena[d].Live()
    ensures |LiveIndices(arena[d := arena[d].(size := 0)])| == |LiveIndices(arena)| - 1
  {
    assert LiveIndices(arena[d := arena[d].(size := 0)]) == LiveIndices(arena) - {d};
  }

  lemma CountSame(arena: Arena, arena': Arena)
    requires SameArena(arena, arena')
    ensures LiveIndices(arena') == LiveIndices(arena)
  {
    forall c: nat | c < |arena| ensures arena'[c].Live() == arena[c].Live() {
      assert SameClause(arena[c], arena'[c]);
    }
  }

  // ----- Enlarging -----------------------------------------------------------------------------------

  /** The clauses in the first i chains and in the first j places of chain i. */
  ghost predicate MovedTo(t: Buckets, i: nat, j: nat, c: nat)
  {
    (exists b :: 0 <= b < i && b < |t| && c in t[b]) || (i < |t| && j <= |t[i]| && c in t[i][..j])
  }

  /** The new chains hold exactly the clauses moved so far, each in the bucket of its hash. */
  ghost predicate Moving(fold: Fold, arena: Arena, t: Buckets, i: nat, j: nat, t': Buckets)
  {
    forall b :: 0 <= b < |t'| ==> MovingAt(fold, arena, t, i, j, |t'|, b, t'[b])
  }

  ghost predicate MovingAt(fold: Fold, arena: Arena, t: Buckets, i: nat, j: nat, size: nat, b: int, chain: seq<nat>)
  {
    Distinct(chain) && forall c: nat :: c in chain <==> MovedTo(t, i, j, c) && Belongs(fold, arena, size, b, c)
  }

  /** Moves one clause to the front of its new chain. */
  lemma MoveOne(fold: Fold, arena: Arena, t: Buckets, i: nat, j: nat, t': Buckets)
    requires BucketsOk(fold, arena, t) && i < |t| && j < |t[i]| && t' != [] && Moving(fold, arena, t, i, j, t')
    ensures t[i][j] < |arena| && Moving(fold, arena, t, i, j + 1, Pushed(fold, t', arena[t[i][j]].hash, t[i][j]))
  {
    var c := t[i][j];
    assert BucketOk(fold, arena, |t|, i, t[i]) && c in t[i];
    NotMoved(fold, arena, t, i, j);
    var h, next := Reduce(fold, arena[c].hash, |t'|), Pushed(fold, t', arena[c].hash, c);
    assert t[i][..j + 1] == t[i][..j] + [c];
    forall d: nat ensures MovedTo(t, i, j + 1, d) <==> MovedTo(t, i, j, d) || d == c {}
    hide MovedTo;
    forall b | 0 <= b < |next|
      ensures MovingAt(fold, arena, t, i, j + 1, |next|, b, next[b])
    {
      assert MovingAt(fold, arena, t, i, j, |t'|, b, t'[b]);
      assert c !in t'[b];
    }
  }

  lemma NotMoved(fold: Fold, arena: Arena, t: Buckets, i: nat, j: nat)
    requires BucketsOk(fold, arena, t) && i < |t| && j < |t[i]|
    ensures !MovedTo(t, i, j, t[i][j])
  {
    var c := t[i][j];
    assert BucketOk(fold, arena, |t|, i, t[i]) && c in t[i];
    assert c !in t[i][..j];
    forall b | 0 <= b < i ensures c !in t[b] {
      assert BucketOk(fold, arena, |t|, b, t[b]);
    }
  }

  lemma NextChain(fold: Fold, arena: Arena, t: Buckets, i: nat, t': Buckets)
    requires i < |t| && Moving(fold, arena, t, i, |t[i]|, t')
    ensures Moving(fold, arena, t, i + 1, 0, t')
  {
    assert t[i][..|t[i]|] == t[i];
    forall c: nat ensures MovedTo(t, i + 1, 0, c) <==> MovedTo(t, i, |t[i]|, c) {
      if MovedTo(t, i, |t[i]|, c) && c in t[i] { assert MovedTo(t, i + 1, 0, c); }
      if b :| 0 <= b < i + 1 && b < |t| && c in t[b] {}
    }
    hide MovedTo;
    forall b | 0 <= b < |t'| ensures MovingAt(fold, arena, t, i + 1, 0, |t'|, b, t'[b]) {
      assert MovingAt(fold, arena, t, i, |t[i]|, |t'|, b, t'[b]);
    }
  }

  lemma AllMoved(fold: Fold, arena: Arena, t: Buckets, t': Buckets)
    requires BucketsOk(fold, arena, t) && Moving(fold, arena, t, |t|, 0, t') && t' != []
    ensures BucketsOk(fold, arena, t')
  {
    forall b | 0 <= b < |t'|
      ensures BucketOk(fold, arena, |t'|, b, t'[b])
    {
      assert MovingAt(fold, arena, t, |t|, 0, |t'|, b, t'[b]);
      forall c: nat | Belongs(fold, arena, |t'|, b, c) ensures MovedTo(t, |t|, 0, c) {
        var k := Reduce(fold, arena[c].hash, |t|);
        assert BucketOk(fold, arena, |t|, k, t[k]) && c in t[k];
      }
    }
  }

  /** Doubles the table and distributes all clauses anew; every clause is again in the bucket of its hash. */
  method Enlarge(fold: Fold, arena: Arena, t: Buckets) returns (t': Buckets)
    requires BucketsOk(fold, arena, t)
    ensures BucketsOk(fold, arena, t') && |t'| == if t == [] then 1 else 2 * |t|
  {
    hide BucketsOk, Moving, Pushed;
    t' := seq(if t == [] then 1 else 2 * |t|, _ => []);
    NothingMoved(fold, arena, t, t');
    var i := 0;
    while i < |t|
      invariant 0 <= i <= |t| && |t'| == (if t == [] then 1 else 2 * |t|) && Moving(fold, arena, t, i, 0, t')
    {
      var j := 0;
      while j < |t[i]|
        invariant 0 <= j <= |t[i]| && |t'| == (if t == [] then 1 else 2 * |t|) && Moving(fold, arena, t, i, j, t')
      {
        MoveOne(fold, arena, t, i, j, t');
        var c := t[i][j];
        PushedSize(fold, t', arena[c].hash, c);
        t' := Pushed(fold, t', arena[c].hash, c);
        j := j + 1;
      }
      NextChain(fold, arena, t, i, t');
      i := i + 1;
    }
    AllMoved(fold, arena, t, t');
  }

  lemma PushedSize(fold: Fold, t: Buckets, hash: nat, c: nat)
    requires t != []
    ensures |Pushed(fold, t, hash, c)| == |t|
  {
  }

  lemma NothingMoved(fold: Fold, arena: Arena, t: Buckets, t': Buckets)
    requires forall b :: 0 <= b < |t'| ==> t'[b] == []
    ensures Moving(fold, arena, t, 0, 0, t')
  {
  }
}
