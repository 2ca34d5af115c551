/** The watches of one clause while its literals are reordered (cadical/src/watch.hpp). */
module ConflictWatches {
  import opened Logic

  datatype Watch = Watch(clause: nat, blit: int, size: nat)

  type WatchLists = map<int, seq<Watch>>

  function ListOf(lists: WatchLists, lit: int): seq<Watch>
  {
    if lit in lists then lists[lit] else []
  }

  /** The watches of a clause in a list, or those of all other clauses. */
  function Part(ws: seq<Watch>, id: nat, mine: bool): seq<Watch>
  {
    if ws == [] then []
    else
      var last := ws[|ws| - 1];
      Part(ws[..|ws| - 1], id, mine) + if (last.clause == id) == mine then [last] else []
  }

  lemma PartAppend(ws: seq<Watch>, w: Watch, id: nat, mine: bool)
    ensures Part(ws + [w], id, mine) == Part(ws, id, mine) + if (w.clause == id) == mine then [w] else []
  {
    var more := ws + [w];
    assert more[..|more| - 1] == ws;
  }

  /** What is left without the clause holds all watches of the others and none of the clause. */
  lemma {:induction false} PartOfOthers(ws: seq<Watch>, id: nat)
    ensures Part(Part(ws, id, false), id, true) == [] && Part(Part(ws, id, false), id, false) == Part(ws, id, false)
  {
    if ws != [] {
      var front, last := ws[..|ws| - 1], ws[|ws| - 1];
      PartOfOthers(front, id);
      assert Part(front, id, false) + [] == Part(front, id, false);
      if last.clause != id {
        PartAppend(Part(front, id, false), last, id, true);
        PartAppend(Part(front, id, false), last, id, false);
      }
    }
  }

  /** Takes the watches of a clause out of a list, in place. */
  method RemoveWatch(ws: seq<Watch>, id: nat) returns (r: seq<Watch>)
    ensures r == Part(ws, id, false)
  {
    r := ws;
    var i, j := 0, 0;
    assert ws[..0] == [];
    while j < |ws|
      invariant 0 <= i <= j <= |ws| == |r| && r[..i] == Part(ws[..j], id, false) && r[j..] == ws[j..]
    {
      assert ws[..j + 1] == ws[..j] + [ws[j]] && r[j] == ws[j];
      PartAppend(ws[..j], ws[j], id, false);
      ghost var kept := r[..i];
      r := r[i := ws[j]];
      assert r[..i + 1] == kept + [ws[j]] && r[j + 1..] == ws[j + 1..];
      if ws[j].clause != id {
        i := i + 1;
      } else {
        assert r[..i] == kept;
      }
      j := j + 1;
    }
    assert ws[..j] == ws;
    r := r[..i];
  }

  /** A clause is watched once by each of its first two literals, with another of its literals as blocking literal, and by
      nothing else. */
  ghost predicate Watched(lists: WatchLists, id: nat, c: Clause)
  {
    |c| >= 2 && c[0] != c[1] && forall l :: WatchedIn(Part(ListOf(lists, l), id, true), c, l)
  }

  predicate WatchedIn(mine: seq<Watch>, c: Clause, l: int)
    requires |c| >= 2
  {
    if l == c[0] || l == c[1] then |mine| == 1 && mine[0].blit in c && mine[0].blit != l && mine[0].size == |c| else mine == []
  }

  ghost predicate SameOthers(a: WatchLists, b: WatchLists, id: nat)
  {
    forall l :: Part(ListOf(b, l), id, false) == Part(ListOf(a, l), id, false)
  }

  /** The clause after two of its literals changed places. */
  function Swapped(c: Clause, i: nat, j: nat): (d: Clause)
    requires i < |c| && j < |c|
    ensures |d| == |c| && multiset(d) == multiset(c)
  {
    c[i := c[j]][j := c[i]]
  }

  /** Exchanges a watched literal with another literal of the clause, and moves the watch if that one was not watched. */
  method SwapWatched(lists: WatchLists, id: nat, c: Clause, i: nat, j: nat) returns (r: WatchLists)
    requires i < 2 <= |c| && i <= j < |c|
    ensures Distinct(c) && Watched(lists, id, c) ==> Watched(r, id, Swapped(c, i, j))
    ensures SameOthers(lists, r, id)
  {
    hide Watched, Part, SameOthers, Distinct;
    r := lists;
    var d := Swapped(c, i, j);
    if j > 1 {
      var rest := RemoveWatch(ListOf(lists, c[i]), id);
      r := r[c[i] := rest];
      ghost var without := r;
      var w := Watch(id, d[1 - i], |d|);
      r := r[c[j] := ListOf(r, c[j]) + [w]];
      OthersStay(lists, without, r, id, c[i], c[j], w);
      if Distinct(c) && Watched(lists, id, c) {
        MovedWatch(lists, without, r, id, c, i, j, w);
      }
    } else {
      SameOthersRefl(lists, id);
      if Watched(lists, id, c) {
        SameFront(lists, id, c, i, j);
      }
    }
  }

  lemma OthersStay(lists: WatchLists, without: WatchLists, r: WatchLists, id: nat, from: int, to: int, w: Watch)
    requires without == lists[from := Part(ListOf(lists, from), id, false)] && w.clause == id
    requires r == without[to := ListOf(without, to) + [w]]
    ensures SameOthers(lists, r, id)
  {
    PartOfOthers(ListOf(lists, from), id);
    PartAppend(ListOf(without, to), w, id, false);
    hide Part;
    assert forall ws: seq<Watch> :: ws + [] == ws;
    forall l ensures Part(ListOf(r, l), id, false) == Part(ListOf(lists, l), id, false) {
      assert Part(ListOf(without, l), id, false) == Part(ListOf(lists, l), id, false);
    }
  }

  lemma SameMembers(c: Clause, i: nat, j: nat)
    requires i < |c| && j < |c|
    ensures forall l :: l in Swapped(c, i, j) <==> l in c
  {
    var d := Swapped(c, i, j);
    forall l ensures l in d <==> l in c { assert l in d <==> l in multiset(d); assert l in c <==> l in multiset(c); }
  }

  lemma SameFront(lists: WatchLists, id: nat, c: Clause, i: nat, j: nat)
    requires i <= j < 2 <= |c| && Watched(lists, id, c)
    ensures Watched(lists, id, Swapped(c, i, j))
  {
    var d := Swapped(c, i, j);
    SameMembers(c, i, j);
    forall l ensures WatchedIn(Part(ListOf(lists, l), id, true), d, l) {
      assert WatchedIn(Part(ListOf(lists, l), id, true), c, l);
    }
  }

  lemma MovedWatch(lists: WatchLists, without: WatchLists, r: WatchLists, id: nat, c: Clause, i: nat, j: nat, w: Watch)
    requires i < 2 <= j < |c| && Distinct(c) && Watched(lists, id, c) && w == Watch(id, c[1 - i], |c|)
    requires without == lists[c[i] := Part(ListOf(lists, c[i]), id, false)] && r == without[c[j] := ListOf(without, c[j]) + [w]]
    ensures Watched(r, id, Swapped(c, i, j))
  {
    hide Part, Swapped, Distinct, WatchedIn, ListOf;
    var d := Swapped(c, i, j);
    SwappedAt(c, i, j);
    SameMembers(c, i, j);
    NotWatched(lists, id, c, j);
    forall l ensures WatchedIn(Part(ListOf(r, l), id, true), d, l) {
      MovedPart(lists, without, r, id, c[i], c[j], w, l);
      assert WatchedIn(Part(ListOf(lists, l), id, true), c, l);
      MovedAt(Part(ListOf(lists, l), id, true), Part(ListOf(r, l), id, true), c, d, i, j, l, w);
    }
  }

  lemma SwappedAt(c: Clause, i: nat, j: nat)
    requires i < 2 <= j < |c| && Distinct(c)
    ensures var d := Swapped(c, i, j); d[i] == c[j] && d[1 - i] == c[1 - i] && c[1 - i] in d
    ensures c[1 - i] != c[j] && c[i] != c[j] && c[0] != c[1]
  {
    assert Swapped(c, i, j)[1 - i] == c[1 - i];
  }

  lemma NotWatched(lists: WatchLists, id: nat, c: Clause, j: nat)
    requires 2 <= j < |c| && Distinct(c) && Watched(lists, id, c)
    ensures Part(ListOf(lists, c[j]), id, true) == []
  {
    assert WatchedIn(Part(ListOf(lists, c[j]), id, true), c, c[j]);
  }

  lemma MovedPart(lists: WatchLists, without: WatchLists, r: WatchLists, id: nat, from: int, to: int, w: Watch, l: int)
    requires without == lists[from := Part(ListOf(lists, from), id, false)] && r == without[to := ListOf(without, to) + [w]]
    requires from != to && w.clause == id && Part(ListOf(lists, to), id, true) == []
    ensures Part(ListOf(r, l), id, true) == if l == from then [] else if l == to then [w] else Part(ListOf(lists, l), id, true)
  {
    PartOfOthers(ListOf(lists, from), id);
    PartAppend(ListOf(without, to), w, id, true);
  }

  lemma MovedAt(old': seq<Watch>, mine: seq<Watch>, c: Clause, d: Clause, i: nat, j: nat, l: int, w: Watch)
    requires i < 2 <= j < |c| == |d| && d[i] == c[j] && d[1 - i] == c[1 - i] && c[1 - i] in d && c[1 - i] != c[j] && c[i] != c[j]
    requires WatchedIn(old', c, l) && w.blit == c[1 - i] && w.size == |c| && forall m :: m in d <==> m in c
    requires mine == if l == c[i] then [] else if l == c[j] then [w] else old'
    requires c[0] != c[1]
    ensures WatchedIn(mine, d, l)
  {
  }

  lemma SameOthersTrans(a: WatchLists, b: WatchLists, c: WatchLists, id: nat)
    requires SameOthers(a, b, id) && SameOthers(b, c, id)
    ensures SameOthers(a, c, id)
  {
  }

  lemma SameOthersRefl(a: WatchLists, id: nat)
    ensures SameOthers(a, a, id)
  {
  }
}
