/** The binary heap with updates that schedules variables (cadical/src/heap.hpp). */
module Heap {

  function Parent(i: int): int { (i - 1) / 2 }

  /** The array and the position table are inverse to each other. */
  predicate PosOk(a: seq<nat>, pos: map<nat, nat>)
  {
    && (forall i :: 0 <= i < |a| ==> a[i] in pos && pos[a[i]] == i)
    && (forall e :: e in pos ==> pos[e] < |a| && a[pos[e]] == e)
  }

  /** The element at position i is not larger than its parent. */
  predicate Ordered(a: seq<nat>, key: nat -> int, i: int)
    requires 0 <= i < |a|
  {
    i > 0 ==> key(a[i]) <= key(a[Parent(i)])
  }

  predicate HeapOrder(a: seq<nat>, key: nat -> int)
  {
    forall i :: 0 <= i < |a| ==> Ordered(a, key, i)
  }

  /** The order holds everywhere but around position p, and would hold without the element there. */
  predicate OrderBut(a: seq<nat>, key: nat -> int, p: int)
  {
    && (forall i :: 0 <= i < |a| && i != p && Parent(i) != p ==> Ordered(a, key, i))
    && (p > 0 ==> forall i :: p < i < |a| && Parent(i) == p ==> key(a[i]) <= key(a[Parent(p)]))
  }

  function Swap(a: seq<nat>, i: nat, j: nat): seq<nat>
    requires i < |a| && j < |a|
  {
    a[i := a[j]][j := a[i]]
  }

  /** Moving a larger element up over its parent. */
  lemma MoveUp(a: seq<nat>, key: nat -> int, p: nat)
    requires 0 < p < |a| && OrderBut(a, key, p) && key(a[Parent(p)]) < key(a[p])
    ensures var q := Parent(p); 0 <= q < p && OrderBut(Swap(a, q, p), key, q)
  {
    var q := Parent(p);
    var b := Swap(a, q, p);
    assert Ordered(a, key, q);
    forall i | 0 <= i < |b| && i != q && Parent(i) != q
      ensures Ordered(b, key, i)
    {
      if Parent(i) == p {
        assert key(a[i]) <= key(a[Parent(p)]);
      } else {
        assert Ordered(a, key, i);
      }
    }
    if q > 0 {
      forall i | q < i < |b| && Parent(i) == q
        ensures key(b[i]) <= key(b[Parent(q)])
      {
        if i != p { assert Ordered(a, key, i); }
      }
    }
  }

  /** Moving a smaller element down over its larger child c. */
  lemma MoveDown(a: seq<nat>, key: nat -> int, p: nat, c: nat)
    requires p < c < |a| && Parent(c) == p && OrderBut(a, key, p) && Ordered(a, key, p) && key(a[p]) < key(a[c])
    requires forall i :: p < i < |a| && Parent(i) == p ==> key(a[i]) <= key(a[c])
    ensures var b := Swap(a, p, c); OrderBut(b, key, c) && Ordered(b, key, c)
  {
    var b := Swap(a, p, c);
    forall i | 0 <= i < |b| && i != c && Parent(i) != c
      ensures Ordered(b, key, i)
    {
      if i == p {
        if p > 0 { assert key(a[c]) <= key(a[Parent(p)]); }
      } else if Parent(i) == p {
        assert key(a[i]) <= key(a[c]);
      } else {
        assert Ordered(a, key, i);
      }
    }
    forall i | c < i < |b| && Parent(i) == c
      ensures key(b[i]) <= key(b[Parent(c)])
    {
      assert Ordered(a, key, i);
    }
  }

  /** Once the element is between its parent and its children, the order holds everywhere. */
  lemma Settled(a: seq<nat>, key: nat -> int, p: nat)
    requires p < |a| && OrderBut(a, key, p) && Ordered(a, key, p)
    requires forall i :: p < i < |a| && Parent(i) == p ==> key(a[i]) <= key(a[p])
    ensures HeapOrder(a, key)
  {
  }

  /** In a heap nothing is larger than the first element. */
  lemma {:induction false} FrontIsMaximum(a: seq<nat>, key: nat -> int, i: nat)
    requires HeapOrder(a, key) && i < |a|
    ensures key(a[i]) <= key(a[0])
    decreases i
  {
    if i > 0 {
      assert Ordered(a, key, i);
      FrontIsMaximum(a, key, Parent(i));
    }
  }

  /** The elements, without their order. */
  function Elements(a: seq<nat>): set<nat>
  {
    set e | e in a
  }

  lemma SwapPos(a: seq<nat>, pos: map<nat, nat>, i: nat, j: nat)
    requires PosOk(a, pos) && i < |a| && j < |a|
    ensures PosOk(Swap(a, i, j), pos[a[i] := j][a[j] := i]) && Elements(Swap(a, i, j)) == Elements(a)
  {
    var b := Swap(a, i, j);
    forall e | e in a ensures e in b {
      var k :| 0 <= k < |a| && a[k] == e;
      assert b[if k == i then j else if k == j then i else k] == e;
    }
    forall e | e in b ensures e in a {
      var k :| 0 <= k < |b| && b[k] == e;
      assert a[if k == i then j else if k == j then i else k] == e;
    }
  }

  class Heap {
    var elems: seq<nat>
    var pos: map<nat, nat>

    ghost predicate Valid(key: nat -> int)
      reads this
    {
      PosOk(elems, pos) && HeapOrder(elems, key)
    }

    constructor ()
      ensures elems == [] && PosOk(elems, pos) && forall key :: Valid(key)
    {
      elems, pos := [], map[];
    }

    method Contains(e: nat) returns (r: bool)
      requires PosOk(elems, pos)
      ensures r <==> e in elems
    {
      r := e in pos;
      if e in elems { assert exists i :: 0 <= i < |elems| && elems[i] == e; }
    }

    /** Exchanges two elements and fixes their positions. */
    method Exchange(a: nat, b: nat)
      requires PosOk(elems, pos) && a in pos && b in pos
      modifies this
      ensures PosOk(elems, pos) && elems == Swap(old(elems), old(pos[a]), old(pos[b]))
      ensures Elements(elems) == Elements(old(elems)) && pos.Keys == old(pos.Keys)
      ensures pos[a] == old(pos[b]) && pos[b] == old(pos[a])
    {
      var i, j := pos[a], pos[b];
      SwapPos(elems, pos, i, j);
      elems := elems[i := elems[j]][j := elems[i]];
      pos := pos[a := j][b := i];
    }

    /** Bubbles an element up as far as necessary. */
    method Up(e: nat, key: nat -> int)
      requires PosOk(elems, pos) && e in pos && OrderBut(elems, key, pos[e])
      modifies this
      ensures PosOk(elems, pos) && Elements(elems) == Elements(old(elems)) && |elems| == |old(elems)|
      ensures e in pos && OrderBut(elems, key, pos[e]) && Ordered(elems, key, pos[e])
    {
      while pos[e] > 0 && key(elems[(pos[e] - 1) / 2]) < key(e)
        invariant PosOk(elems, pos) && e in pos && OrderBut(elems, key, pos[e])
        invariant Elements(elems) == Elements(old(elems)) && |elems| == |old(elems)|
        decreases pos[e]
      {
        var p := elems[(pos[e] - 1) / 2];
        MoveUp(elems, key, pos[e]);
        Exchange(p, e);
      }
    }

    /** Bubbles an element down as far as necessary. */
    method Down(e: nat, key: nat -> int)
      requires PosOk(elems, pos) && e in pos && OrderBut(elems, key, pos[e]) && Ordered(elems, key, pos[e])
      modifies this
      ensures Valid(key) && Elements(elems) == Elements(old(elems)) && |elems| == |old(elems)|
    {
      while 2 * pos[e] + 1 < |elems|
        invariant PosOk(elems, pos) && e in pos && OrderBut(elems, key, pos[e]) && Ordered(elems, key, pos[e])
        invariant Elements(elems) == Elements(old(elems)) && |elems| == |old(elems)|
        decreases |elems| - pos[e]
      {
        var c := LargerChild(pos[e], key);
        ChildrenOf(pos[e]);
        if !(key(e) < key(c)) {
          break;
        }
        MoveDown(elems, key, pos[e], pos[c]);
        Exchange(e, c);
      }
      ChildrenOf(pos[e]);
      Settled(elems, key, pos[e]);
    }

    method LargerChild(p: nat, key: nat -> int) returns (c: nat)
      requires PosOk(elems, pos) && 2 * p + 1 < |elems|
      ensures c in pos && Parent(pos[c]) == p && pos[c] > p
      ensures forall i :: p < i < |elems| && Parent(i) == p ==> key(elems[i]) <= key(c)
    {
      ChildrenOf(p);
      c := elems[2 * p + 1];
      if 2 * p + 2 < |elems| {
        var r := elems[2 * p + 2];
        if key(c) < key(r) {
          c := r;
        }
      }
    }

    /** Adds an element that is not contained. */
    method PushBack(e: nat, key: nat -> int)
      requires Valid(key) && e !in elems
      modifies this
      ensures Valid(key) && Elements(elems) == Elements(old(elems)) + {e} && |elems| == |old(elems)| + 1
    {
      var i := |elems|;
      assert e !in pos;
      elems := elems + [e];
      pos := pos[e := i];
      Appended(old(elems), key, e);
      Up(e, key);
      Down(e, key);
    }

    /** The maximum. */
    method Front(key: nat -> int) returns (e: nat)
      requires Valid(key) && elems != []
      ensures e == elems[0] && forall f :: f in elems ==> key(f) <= key(e)
    {
      e := elems[0];
      forall f | f in elems ensures key(f) <= key(e) {
        var i :| 0 <= i < |elems| && elems[i] == f;
        FrontIsMaximum(elems, key, i);
      }
    }

    /** Removes and returns the maximum. */
    method PopFront(key: nat -> int) returns (res: nat)
      requires Valid(key) && elems != []
      modifies this
      ensures Valid(key) && res == old(elems[0]) && (forall f :: f in old(elems) ==> key(f) <= key(res))
      ensures Elements(elems) == Elements(old(elems)) - {res} && |elems| == |old(elems)| - 1
    {
      res := Front(key);
      var last := elems[|elems| - 1];
      ghost var a := elems;
      assert pos[res] == 0 && pos[last] == |elems| - 1;
      if |elems| > 1 {
        Exchange(res, last);
      }
      pos := pos - {res};
      elems := elems[..|elems| - 1];
      Popped(a, key);
      if |elems| > 1 {
        Down(last, key);
      }
    }

    /** Restores the order after the key of one element changed in either direction. */
    method Update(e: nat, was: nat -> int, key: nat -> int)
      requires Valid(was) && e in elems && forall f :: f != e ==> key(f) == was(f)
      modifies this
      ensures Valid(key) && Elements(elems) == Elements(old(elems)) && |elems| == |old(elems)|
    {
      KeyChanged(elems, pos, was, key, e);
      Up(e, key);
      Down(e, key);
    }
  }

  lemma ChildrenOf(p: nat)
    ensures forall i :: i > p && Parent(i) == p ==> i == 2 * p + 1 || i == 2 * p + 2
    ensures Parent(2 * p + 1) == p && Parent(2 * p + 2) == p
  {
  }

  lemma Appended(a: seq<nat>, key: nat -> int, e: nat)
    requires HeapOrder(a, key)
    ensures OrderBut(a + [e], key, |a|) && Elements(a + [e]) == Elements(a) + {e}
  {
    var b := a + [e];
    forall i | 0 <= i < |b| && i != |a| && Parent(i) != |a| ensures Ordered(b, key, i) {
      assert Ordered(a, key, i);
    }
  }

  /** Replacing the first element by the last one leaves an order but around the first position. */
  lemma Popped(a: seq<nat>, key: nat -> int)
    requires HeapOrder(a, key) && a != []
    ensures var b := (if |a| > 1 then Swap(a, 0, |a| - 1) else a)[..|a| - 1];
            OrderBut(b, key, 0) && (b != [] ==> Ordered(b, key, 0))
  {
    var b := (if |a| > 1 then Swap(a, 0, |a| - 1) else a)[..|a| - 1];
    forall i | 0 <= i < |b| && i != 0 && Parent(i) != 0 ensures Ordered(b, key, i) {
      assert Ordered(a, key, i);
    }
  }

  lemma KeyChanged(a: seq<nat>, pos: map<nat, nat>, was: nat -> int, key: nat -> int, e: nat)
    requires PosOk(a, pos) && HeapOrder(a, was) && e in a && forall f :: f != e ==> key(f) == was(f)
    ensures e in pos && OrderBut(a, key, pos[e])
  {
    var p :| 0 <= p < |a| && a[p] == e;
    assert pos[a[p]] == p;
    forall i | 0 <= i < |a| && i != p && Parent(i) != p ensures Ordered(a, key, i) {
      assert Ordered(a, was, i) && a[i] != e && (i > 0 ==> a[Parent(i)] != e);
    }
    forall i | p < i < |a| && Parent(i) == p && p > 0 ensures key(a[i]) <= key(a[Parent(p)]) {
      assert Ordered(a, was, i) && Ordered(a, was, p) && a[i] != e && a[Parent(p)] != e;
    }
  }
}
