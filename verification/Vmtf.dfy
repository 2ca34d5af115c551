/** The variable-move-to-front decision queue (cadical/src/queue.hpp, queue.cpp, analyze.cpp, backtrack.cpp,
    decide.cpp). */
module Vmtf {
  import opened Logic

  datatype Link = Link(prev: int, next: int)

  /** The doubly linked list with its anchors; zero stands for none. */
  datatype Chain = Chain(first: int, last: int, links: map<int, Link>)

  function Before(order: seq<int>, i: int): int
  {
    if 0 < i <= |order| then order[i - 1] else 0
  }

  function After(order: seq<int>, i: int): int
  {
    if 0 <= i < |order| - 1 then order[i + 1] else 0
  }

  /** The links describe exactly this order of variables. */
  ghost predicate Linked(c: Chain, order: seq<int>)
  {
    && Distinct(order) && (forall i :: 0 <= i < |order| ==> order[i] > 0)
    && (forall i {:trigger LinkedAt(c, order, i)} :: 0 <= i < |order| ==> LinkedAt(c, order, i))
    && c.first == (if order == [] then 0 else order[0]) && c.last == Before(order, |order|)
  }

  predicate LinkedAt(c: Chain, order: seq<int>, i: int)
  {
    0 <= i < |order| && order[i] in c.links && c.links[order[i]] == Link(Before(order, i), After(order, i))
  }

  function Removed(order: seq<int>, i: nat): seq<int>
    requires i < |order|
  {
    order[..i] + order[i + 1..]
  }

  lemma RemovedAt(order: seq<int>, i: nat, j: nat)
    requires i < |order| && j < |order| - 1 && Distinct(order)
    ensures Removed(order, i)[j] == (if j < i then order[j] else order[j + 1]) && Removed(order, i)[j] != order[i]
  {
  }

  /** What unlinking the variable at position i does to the links. */
  ghost predicate Unlinked(c: Chain, d: Chain, order: seq<int>, i: nat)
    requires i < |order|
  {
    var p, n := Before(order, i), After(order, i);
    && d.first == (if p == 0 then n else c.first) && d.last == (if n == 0 then p else c.last)
    && d.links.Keys == c.links.Keys
    && forall v :: v in c.links && v != order[i] ==>
         d.links[v] == Link(if v == n && n != 0 then p else c.links[v].prev, if v == p && p != 0 then n else c.links[v].next)
  }

  lemma UnlinkedOk(c: Chain, d: Chain, order: seq<int>, i: nat)
    requires Linked(c, order) && i < |order| && Unlinked(c, d, order, i)
    ensures Linked(d, Removed(order, i))
  {
    var less := Removed(order, i);
    RemovedDistinct(order, i);
    UnlinkedEnds(c, d, order, i);
    hide Unlinked, Distinct;
    forall j | 0 <= j < |less|
      ensures less[j] > 0 && LinkedAt(d, less, j)
    {
      UnlinkedAt(c, d, order, i, j);
    }
  }

  lemma RemovedDistinct(order: seq<int>, i: nat)
    requires i < |order| && Distinct(order)
    ensures Distinct(Removed(order, i))
  {
    var less := Removed(order, i);
    forall j, k | 0 <= j < k < |less| ensures less[j] != less[k] {
      RemovedAt(order, i, j);
      RemovedAt(order, i, k);
    }
  }

  lemma UnlinkedEnds(c: Chain, d: Chain, order: seq<int>, i: nat)
    requires Linked(c, order) && i < |order| && Unlinked(c, d, order, i)
    ensures var less := Removed(order, i);
            d.first == (if less == [] then 0 else less[0]) && d.last == Before(less, |less|)
  {
    var less, n := Removed(order, i), |order|;
    if n > 1 {
      RemovedAt(order, i, 0);
      RemovedAt(order, i, n - 2);
    }
  }

  lemma UnlinkedAt(c: Chain, d: Chain, order: seq<int>, i: nat, j: nat)
    requires Linked(c, order) && i < |order| && Unlinked(c, d, order, i) && j < |order| - 1
    ensures var less := Removed(order, i);
            less[j] > 0 && LinkedAt(d, less, j)
  {
    var less := Removed(order, i);
    RemovedAt(order, i, j);
    var k := if j < i then j else j + 1;
    assert order[k] == less[j] && LinkedAt(c, order, k);
    assert (less[j] == Before(order, i) <==> k == i - 1) && (less[j] == After(order, i) <==> k == i + 1);
  }

  /** Appending a variable at the end. */
  ghost predicate Appended(c: Chain, d: Chain, v: int)
  {
    && d.first == (if c.last == 0 then v else c.first) && d.last == v && d.links.Keys == c.links.Keys + {v}
    && d.links[v] == Link(c.last, 0)
    && forall w :: w in c.links && w != v ==> d.links[w] == Link(c.links[w].prev, if w == c.last && c.last != 0 then v else c.links[w].next)
  }

  lemma AppendedOk(c: Chain, d: Chain, order: seq<int>, v: int)
    requires Linked(c, order) && v !in order && v > 0 && Appended(c, d, v)
    ensures Linked(d, order + [v])
  {
    var more := order + [v];
    forall j | 0 <= j < |more|
      ensures LinkedAt(d, more, j)
    {
      if j < |order| {
        assert more[j] == order[j] && LinkedAt(c, order, j);
        assert order[j] == c.last <==> j == |order| - 1;
      }
    }
  }

  // ----- The queue -----------------------------------------------------------------------------------

  /** Variables are ordered by their stamps, and no stamp exceeds the counter. */
  ghost predicate Stamped(order: seq<int>, btab: map<int, int>, stamp: int)
  {
    && (forall i :: 0 <= i < |order| ==> order[i] in btab && btab[order[i]] <= stamp)
    && (forall i, j :: 0 <= i < j < |order| ==> btab[order[i]] < btab[order[j]])
  }

  /** Every variable stamped later than the recorded stamp is assigned, and the variable to search from is stamped at
      least that. */
  ghost predicate SearchFrom(order: seq<int>, btab: map<int, int>, valued: set<int>, unassigned: int, bumped: int)
    requires forall v :: v in order ==> v in btab
  {
    && (forall v :: v in order && btab[v] > bumped ==> v in valued)
    && (order != [] ==> unassigned in order && btab[unassigned] >= bumped)
  }

  lemma NeighboursLinked(c: Chain, order: seq<int>, i: nat)
    requires Linked(c, order) && i < |order|
    ensures var p, n := Before(order, i), After(order, i);
            && (p != 0 ==> p in c.links && p != order[i]) && (n != 0 ==> n in c.links && n != order[i])
            && (p != 0 && n != 0 ==> p != n)
  {
    if i > 0 { assert LinkedAt(c, order, i - 1); }
    if i + 1 < |order| { assert LinkedAt(c, order, i + 1); }
  }

  lemma LastLinked(c: Chain, order: seq<int>)
    requires Linked(c, order)
    ensures c.last != 0 ==> c.last in c.links && c.last in order
  {
    if order != [] { assert LinkedAt(c, order, |order| - 1); }
  }

  lemma RemovedStamps(order: seq<int>, btab: map<int, int>, stamp: int, i: nat)
    requires Stamped(order, btab, stamp) && i < |order| && Distinct(order)
    ensures Stamped(Removed(order, i), btab, stamp)
  {
    var less := Removed(order, i);
    forall j | 0 <= j < |less| ensures less[j] in btab && btab[less[j]] <= stamp { RemovedAt(order, i, j); }
    forall j, k | 0 <= j < k < |less| ensures btab[less[j]] < btab[less[k]] {
      RemovedAt(order, i, j);
      RemovedAt(order, i, k);
    }
  }

  lemma MovedStamps(order: seq<int>, btab: map<int, int>, stamp: int, v: int)
    requires Stamped(order, btab, stamp) && v !in order
    ensures Stamped(order + [v], btab[v := stamp + 1], stamp + 1)
  {
    var more, after := order + [v], btab[v := stamp + 1];
    forall j | 0 <= j < |more| ensures more[j] in after && after[more[j]] <= stamp + 1 {
      if j < |order| { assert more[j] == order[j] && order[j] in order; }
    }
    forall j, k | 0 <= j < k < |more| ensures after[more[j]] < after[more[k]] {
      assert more[j] == order[j] && order[j] in order;
      if k < |order| { assert more[k] == order[k] && order[k] in order; }
    }
  }

  lemma RemovedMembers(order: seq<int>, i: nat)
    requires i < |order| && Distinct(order)
    ensures forall w :: w in Removed(order, i) <==> w in order && w != order[i]
  {
    var less := Removed(order, i);
    forall w | w in order && w != order[i] ensures w in less {
      var j :| 0 <= j < |order| && order[j] == w;
      assert less[if j < i then j else j - 1] == w;
    }
    forall w | w in less ensures w in order && w != order[i] {
      var j :| 0 <= j < |less| && less[j] == w;
      RemovedAt(order, i, j);
    }
  }

  /** Bumping keeps the search invariant: an assigned variable because it may be stamped late, even if it is the one to
      search from, and an unassigned one because it becomes the one to search from. */
  lemma SearchMoved(order: seq<int>, btab: map<int, int>, vals: set<int>, unassigned: int, bumped: int, stamp: int, i: nat)
    requires Stamped(order, btab, stamp - 1) && Distinct(order) && i < |order| && (forall v :: v in order ==> v in btab)
    requires SearchFrom(order, btab, vals, unassigned, bumped)
    ensures var v := order[i];
            var more, after := Removed(order, i) + [v], btab[v := stamp];
            && (forall w :: w in more ==> w in after)
            && (if v in vals then SearchFrom(more, after, vals, unassigned, bumped)
                else SearchFrom(more, after, vals, v, stamp))
  {
    var v := order[i];
    var more, after := Removed(order, i) + [v], btab[v := stamp];
    RemovedMembers(order, i);
    forall w ensures w in more <==> w in order {}
    forall w | w in order ensures btab[w] <= stamp - 1 {
      var j :| 0 <= j < |order| && order[j] == w;
    }
  }

  lemma AlreadyLast(order: seq<int>)
    requires order != []
    ensures Removed(order, |order| - 1) + [order[|order| - 1]] == order
  {
  }

  lemma BumpedOk(order: seq<int>, btab: map<int, int>, vals: set<int>, unassigned: int, bumped: int, stamp: int, i: nat)
    requires Stamped(order, btab, stamp) && Distinct(order) && i < |order| && (forall v :: v in order ==> v in btab)
    requires SearchFrom(order, btab, vals, unassigned, bumped) && unassigned in order
    ensures var v := order[i];
            var more, after := Removed(order, i) + [v], btab[v := stamp + 1];
            && (forall w :: w in more ==> w in after) && v in more && unassigned in more && Stamped(more, after, stamp + 1)
            && (if v in vals then SearchFrom(more, after, vals, unassigned, bumped)
                else SearchFrom(more, after, vals, v, stamp + 1))
  {
    hide Stamped, SearchFrom, Removed;
    RemovedStamps(order, btab, stamp, i);
    RemovedMembers(order, i);
    MovedStamps(Removed(order, i), btab, stamp, order[i]);
    SearchMoved(order, btab, vals, unassigned, bumped, stamp + 1, i);
  }

  /** Unassigning a variable keeps the search invariant, with the variable as the one to search from if it is stamped
      later. */
  lemma SearchUnassigned(order: seq<int>, btab: map<int, int>, vals: set<int>, unassigned: int, bumped: int, v: int)
    requires (forall w :: w in order ==> w in btab) && SearchFrom(order, btab, vals, unassigned, bumped) && v in order
    ensures if bumped < btab[v] then SearchFrom(order, btab, vals - {v}, v, btab[v])
            else SearchFrom(order, btab, vals - {v}, unassigned, bumped)
  {
  }

  /** A stamp before all others. */
  function Earliest(order: seq<int>, btab: map<int, int>): int
    requires order != [] ==> order[0] in btab
  {
    if order == [] then 0 else btab[order[0]] - 1
  }

  class Queue {
    var first: int
    var last: int
    var unassigned: int
    var bumped: int
    var links: map<int, Link>
    var btab: map<int, int>
    var stamp: int
    var vals: set<int>
    ghost var order: seq<int>

    ghost function Links(): Chain
      reads this
    {
      Chain(first, last, links)
    }

    /** The links describe the order, which is the order of the stamps. */
    ghost predicate Formed()
      reads this
    {
      && Linked(Links(), order) && Stamped(order, btab, stamp) && (forall v :: v in order ==> v in btab)
      && 0 <= stamp && (if order == [] then unassigned == 0 else unassigned in order)
    }

    ghost predicate Valid()
      reads this
    {
      Formed() && SearchFrom(order, btab, vals, unassigned, bumped)
    }

    constructor ()
      ensures Valid() && order == [] && vals == {} && stamp == 0 && btab == map[]
    {
      first, last, unassigned, bumped, links, btab, stamp, vals, order := 0, 0, 0, 0, map[], map[], 0, {}, [];
    }

    method Dequeue(v: int, ghost i: nat)
      requires Linked(Links(), order) && i < |order| && order[i] == v
      modifies this`first, this`last, this`links, this`order
      ensures Linked(Links(), order) && order == Removed(old(order), i) && links.Keys == old(links.Keys)
    {
      ghost var c := Links();
      assert LinkedAt(c, order, i);
      var l := links[v];
      NeighboursLinked(c, order, i);
      if l.prev != 0 {
        links := links[l.prev := links[l.prev].(next := l.next)];
      } else {
        first := l.next;
      }
      if l.next != 0 {
        links := links[l.next := links[l.next].(prev := l.prev)];
      } else {
        last := l.prev;
      }
      UnlinkedOk(c, Links(), order, i);
      order := Removed(order, i);
    }

    method Enqueue(v: int)
      requires Linked(Links(), order) && v !in order && v > 0 && v in links
      modifies this`first, this`last, this`links, this`order
      ensures Linked(Links(), order) && order == old(order) + [v] && links.Keys == old(links.Keys)
    {
      ghost var c := Links();
      LastLinked(c, order);
      var l := links[v].(prev := last, next := 0);
      if last != 0 {
        links := links[last := links[last].(next := v)];
      } else {
        first := v;
      }
      links := links[v := l];
      last := v;
      AppendedOk(c, Links(), order, v);
      order := order + [v];
    }

    /** Adds a new variable at the end of the queue. */
    method InitEnqueue(v: int)
      requires Valid() && v > 0 && v !in order && v !in vals
      modifies this
      ensures Valid() && order == old(order) + [v] && vals == old(vals)
      ensures stamp == old(stamp) + 1 && btab == old(btab)[v := stamp] && unassigned == v && bumped == stamp
    {
      hide Stamped, SearchFrom;
      ghost var was := btab;
      MovedStamps(order, was, stamp, v);
      SearchNew(order, was, vals, stamp, v);
      links := links[v := Link(0, 0)];
      LinkedExtended(old(Links()), Links(), order, v);
      Enqueue(v);
      stamp := stamp + 1;
      btab := btab[v := stamp];
      UpdateUnassigned(v);
    }

    /** Adds a new variable at the front of the queue, for the reverse order. The search invariant survives if and only
        if the new stamp does not exceed the recorded one. */
    method InitEnqueueReverse(v: int)
      requires Formed() && v > 0 && v !in order && v !in vals
      modifies this
      ensures Formed() && order == [v] + old(order) && vals == old(vals) && stamp == old(stamp)
      ensures btab == old(btab)[v := Earliest(old(order), old(btab))]
      ensures if old(order) == [] then unassigned == v && bumped == 0
              else unassigned == old(unassigned) && bumped == old(bumped)
      ensures old(Valid()) ==> (Valid() <==> old(order) == [] || Earliest(old(order), old(btab)) <= old(bumped))
    {
      hide Stamped, SearchFrom;
      ghost var c := Links();
      FirstLinked(c, order);
      SearchEarliest(order, btab, vals, unassigned, bumped, v);
      EarliestStamps(order, btab, stamp, v);
      var l := Link(0, first);
      if first != 0 {
        links := links[first := links[first].(prev := v)];
        btab := btab[v := btab[first] - 1];
      } else {
        last := v;
        btab := btab[v := 0];
      }
      links := links[v := l];
      first := v;
      PrependedOk(c, Links(), order, v);
      order := [v] + order;
      if unassigned == 0 {
        UpdateUnassigned(last);
      }
    }

    method UpdateUnassigned(v: int)
      requires v in btab
      modifies this`unassigned, this`bumped
      ensures unassigned == v && bumped == btab[v]
    {
      unassigned := v;
      bumped := btab[v];
    }

    method MoveToEnd(v: int, ghost i: nat)
      requires Linked(Links(), order) && i < |order| && order[i] == v
      modifies this`first, this`last, this`links, this`order
      ensures Linked(Links(), order) && order == Removed(old(order), i) + [v] && links.Keys == old(links.Keys)
    {
      LinkOf(Links(), order, i);
      RemovedMembers(order, i);
      hide Linked, Removed;
      Dequeue(v, i);
      Enqueue(v);
    }

    /** Moves a variable to the end of the queue and stamps it, whether it is assigned or not. */
    method Bump(v: int, ghost i: nat)
      requires Valid() && i < |order| && order[i] == v
      modifies this
      ensures Valid() && vals == old(vals) && order == Removed(old(order), i) + [v]
      ensures if i == |old(order)| - 1 then stamp == old(stamp) && btab == old(btab)
              else stamp == old(stamp) + 1 && btab == old(btab)[v := stamp]
      ensures if v in vals || i == |old(order)| - 1 then unassigned == old(unassigned) && bumped == old(bumped)
              else unassigned == v && bumped == stamp
    {
      hide Stamped, SearchFrom, Linked, Removed;
      LinkOf(Links(), order, i);
      if links[v].next == 0 {
        AlreadyLast(order);
        return;
      }
      BumpedOk(order, btab, vals, unassigned, bumped, stamp, i);
      MoveToEnd(v, i);
      stamp := stamp + 1;
      btab := btab[v := stamp];
      if v !in vals {
        UpdateUnassigned(v);
      }
    }

    method Assign(v: int)
      requires Formed() && v in order && v !in vals
      modifies this`vals
      ensures Formed() && (old(Valid()) ==> Valid()) && vals == old(vals) + {v}
    {
      vals := vals + {v};
    }

    /** Unassigning a variable moves the search position if its stamp is later. */
    method Unassign(v: int)
      requires Formed() && v in order && v in vals
      modifies this`vals, this`unassigned, this`bumped
      ensures Formed() && (old(Valid()) ==> Valid()) && vals == old(vals) - {v}
      ensures if old(bumped) < btab[v] then unassigned == v && bumped == btab[v]
              else unassigned == old(unassigned) && bumped == old(bumped)
    {
      hide Stamped, SearchFrom, Linked;
      if Valid() {
        SearchUnassigned(order, btab, vals, unassigned, bumped, v);
      }
      vals := vals - {v};
      if bumped < btab[v] {
        UpdateUnassigned(v);
      }
    }

    /** The search finds the unassigned variable with the largest stamp if the search invariant holds. It answers the
        variable it starts from if that one is unassigned, whether the invariant holds or not. */
    method NextDecisionVariable() returns (res: int)
      requires Formed() && (exists v :: v in order && v !in vals) && (Valid() || unassigned !in vals)
      modifies this`unassigned, this`bumped
      ensures Formed() && (old(Valid()) ==> Valid()) && res in order && res !in vals
      ensures old(Valid()) ==> forall v :: v in order && v !in vals ==> btab[v] <= btab[res]
      ensures old(unassigned) !in vals ==> res == old(unassigned)
      ensures unassigned == res && bumped == if old(unassigned) !in vals then old(bumped) else btab[res]
    {
      hide Stamped, SearchFrom, Linked;
      ghost var k, p := 0, 0;
      if Valid() {
        k := SomeUnassigned(order, vals);
        p := StartPosition(order, btab, stamp, vals, unassigned, bumped);
      } else {
        p :| 0 <= p < |order| && order[p] == unassigned;
        k := p;
      }
      ghost var valid := Valid();
      var searched;
      res, searched, p := SearchBack(unassigned, k, p);
      if valid { Largest(order, btab, stamp, vals, p); }
      if searched > 0 {
        UpdateUnassigned(res);
      }
    }

    /** Walks from a variable towards the front until an unassigned one is found. */
    method SearchBack(start: int, ghost k: nat, ghost p: nat) returns (res: int, searched: nat, ghost q: nat)
      requires Linked(Links(), order) && k <= p < |order| && order[k] !in vals && order[p] == start
      ensures q <= p && order[q] == res && res !in vals && forall j :: q < j <= p ==> order[j] in vals
      ensures if start !in vals then res == start && searched == 0 else searched > 0
    {
      hide Linked;
      res, searched, q := start, 0, p;
      while res in vals
        invariant k <= q <= p && order[q] == res && forall j :: q < j <= p ==> order[j] in vals
        invariant start !in vals ==> res == start && searched == 0
        invariant searched == 0 ==> res == start
        decreases q
      {
        LinkOf(Links(), order, q);
        res := links[res].prev;
        searched := searched + 1;
        q := q - 1;
      }
    }
  }

  /** Two variables added in reverse order after the others were bumped: once the later one was assigned and unassigned
      again, the search answers it, although the other one is unassigned too and has a larger stamp. */
  method ReverseMisses() returns (q: Queue, res: int)
    ensures q.Formed() && res == 4 && 3 in q.order && 4 in q.order
    ensures 3 !in q.vals && 4 !in q.vals && q.btab[res] < q.btab[3]
  {
    hide Stamped, SearchFrom, Linked;
    q := ReverseStart();
    q.InitEnqueueReverse(3);
    assert q.order == [3, 2, 1];
    q.InitEnqueueReverse(4);
    assert q.order == [4, 3, 2, 1];
    q.Assign(4);
    q.Unassign(4);
    assert 4 in q.order && 3 in q.order;
    res := q.NextDecisionVariable();
  }

  /** Two variables in reverse order, both assigned and bumped twice. */
  method ReverseStart() returns (q: Queue)
    ensures fresh(q) && q.Valid() && q.order == [2, 1] && q.vals == {1, 2} && q.stamp == 4 && q.bumped == 0
    ensures 1 in q.btab && 2 in q.btab && q.btab[1] == 4 && q.btab[2] == 3
  {
    hide Stamped, SearchFrom, Linked;
    q := new Queue();
    q.InitEnqueueReverse(1);
    q.InitEnqueueReverse(2);
    assert q.order == [2, 1];
    q.Assign(1);
    q.Assign(2);
    BumpBoth(q, 2, 1);
    BumpBoth(q, 2, 1);
  }

  /** Bumps two assigned variables, so that they keep their order. */
  method BumpBoth(q: Queue, a: int, b: int)
    requires q.Valid() && q.order == [a, b] && a in q.vals && b in q.vals
    modifies q
    ensures q.Valid() && q.order == [a, b] && q.vals == old(q.vals) && q.stamp == old(q.stamp) + 2
    ensures q.btab == old(q.btab)[a := old(q.stamp) + 1][b := old(q.stamp) + 2]
    ensures q.bumped == old(q.bumped) && q.unassigned == old(q.unassigned)
  {
    hide Stamped, SearchFrom, Linked;
    q.Bump(a, 0);
    assert q.order == [b, a];
    q.Bump(b, 0);
    assert q.order == [a, b];
  }

  lemma FirstLinked(c: Chain, order: seq<int>)
    requires Linked(c, order)
    ensures c.first == 0 <==> order == []
    ensures order != [] ==> c.first == order[0] && c.first in c.links && c.first in order
  {
    if order != [] { assert LinkedAt(c, order, 0); }
  }

  /** Prepending a variable at the front. */
  ghost predicate Prepended(c: Chain, d: Chain, v: int)
  {
    && d.first == v && d.last == (if c.first == 0 then v else c.last) && d.links.Keys == c.links.Keys + {v}
    && d.links[v] == Link(0, c.first)
    && forall w :: w in c.links && w != v ==> d.links[w] == Link(if w == c.first && c.first != 0 then v else c.links[w].prev, c.links[w].next)
  }

  lemma PrependedOk(c: Chain, d: Chain, order: seq<int>, v: int)
    requires Linked(c, order) && v !in order && v > 0 && Prepended(c, d, v)
    ensures Linked(d, [v] + order)
  {
    var more := [v] + order;
    forall j | 0 <= j < |more|
      ensures LinkedAt(d, more, j)
    {
      if j > 0 {
        assert more[j] == order[j - 1] && LinkedAt(c, order, j - 1);
        assert order[j - 1] == c.first <==> j == 1;
      }
    }
  }

  lemma EarliestStamps(order: seq<int>, btab: map<int, int>, stamp: int, v: int)
    requires Stamped(order, btab, stamp) && v !in order && 0 <= stamp
    ensures Stamped([v] + order, btab[v := Earliest(order, btab)], stamp)
  {
    var more, after := [v] + order, btab[v := Earliest(order, btab)];
    forall j | 0 <= j < |more| ensures more[j] in after && after[more[j]] <= stamp {
      if j > 0 { assert more[j] == order[j - 1] && order[j - 1] in order; }
    }
    forall j, k | 0 <= j < k < |more| ensures after[more[j]] < after[more[k]] {
      assert more[k] == order[k - 1] && order[k - 1] in order;
      if j > 0 { assert more[j] == order[j - 1] && order[j - 1] in order; }
    }
  }

  lemma SearchEarliest(order: seq<int>, btab: map<int, int>, vals: set<int>, unassigned: int, bumped: int, v: int)
    requires v !in order && v !in vals && (forall w :: w in order ==> w in btab) && (order != [] ==> order[0] in btab)
    requires if order == [] then unassigned == 0 else unassigned in order
    ensures var more := [v] + order;
            var after := btab[v := Earliest(order, btab)];
            && (forall w :: w in more ==> w in after) && (order == [] ==> SearchFrom(more, after, vals, v, 0))
            && (order != [] && SearchFrom(order, btab, vals, unassigned, bumped) ==>
                  (SearchFrom(more, after, vals, unassigned, bumped) <==> Earliest(order, btab) <= bumped))
  {
    var more := [v] + order;
    var after := btab[v := Earliest(order, btab)];
    assert v in more && forall w :: w in more <==> w == v || w in order;
    if order != [] && SearchFrom(order, btab, vals, unassigned, bumped) {
      assert forall w :: w in order ==> after[w] == btab[w];
    }
  }

  lemma LinkOf(c: Chain, order: seq<int>, i: nat)
    requires Linked(c, order) && i < |order|
    ensures order[i] in c.links && c.links[order[i]].prev == Before(order, i) && c.links[order[i]].next == After(order, i)
    ensures (After(order, i) == 0 <==> i == |order| - 1) && order[i] > 0 && Distinct(order)
  {
    assert LinkedAt(c, order, i);
  }

  /** A further variable in the table does not disturb the list. */
  lemma LinkedExtended(c: Chain, d: Chain, order: seq<int>, v: int)
    requires Linked(c, order) && v !in order && d == c.(links := c.links[v := Link(0, 0)])
    ensures Linked(d, order)
  {
    forall i | 0 <= i < |order| ensures LinkedAt(d, order, i) {
      assert LinkedAt(c, order, i) && order[i] in order;
    }
  }

  lemma SearchNew(order: seq<int>, btab: map<int, int>, vals: set<int>, stamp: int, v: int)
    requires Stamped(order, btab, stamp) && v !in order
    ensures var more, after := order + [v], btab[v := stamp + 1];
            (forall w :: w in more ==> w in after) && SearchFrom(more, after, vals, v, stamp + 1)
  {
    var more, after := order + [v], btab[v := stamp + 1];
    forall w | w in more
      ensures w in after && after[w] <= stamp + 1
    {
      if w != v {
        var j :| 0 <= j < |order| && order[j] == w;
      }
    }
  }

  lemma SomeUnassigned(order: seq<int>, vals: set<int>) returns (k: nat)
    requires exists v :: v in order && v !in vals
    ensures k < |order| && order[k] !in vals
  {
    var v :| v in order && v !in vals;
    k :| 0 <= k < |order| && order[k] == v;
  }

  /** Everything after the variable to search from is assigned. */
  lemma StartPosition(order: seq<int>, btab: map<int, int>, stamp: int, vals: set<int>, unassigned: int, bumped: int)
    returns (p: nat)
    requires Stamped(order, btab, stamp) && order != [] && (forall v :: v in order ==> v in btab)
    requires SearchFrom(order, btab, vals, unassigned, bumped)
    ensures p < |order| && order[p] == unassigned && forall j :: p < j < |order| ==> order[j] in vals
    ensures forall k :: 0 <= k < |order| && order[k] !in vals ==> k <= p
  {
    p :| 0 <= p < |order| && order[p] == unassigned;
    forall j | p < j < |order| ensures order[j] in vals {
      var v := order[j];
      assert v in order && bumped <= btab[unassigned] == btab[order[p]] < btab[v];
    }
  }

  /** With everything after it assigned, an unassigned variable has the largest stamp of all of them. */
  lemma Largest(order: seq<int>, btab: map<int, int>, stamp: int, vals: set<int>, p: nat)
    requires Stamped(order, btab, stamp) && p < |order| && order[p] !in vals && (forall v :: v in order ==> v in btab)
    requires forall j :: p < j < |order| ==> order[j] in vals
    ensures forall v :: v in order && v !in vals ==> btab[v] <= btab[order[p]]
    ensures SearchFrom(order, btab, vals, order[p], btab[order[p]])
  {
    forall v | v in order && v !in vals
      ensures btab[v] <= btab[order[p]]
    {
      var j :| 0 <= j < |order| && order[j] == v;
      if j < p { assert btab[order[j]] < btab[order[p]]; }
    }
  }
}
