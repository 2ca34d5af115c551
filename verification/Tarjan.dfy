/** Strongly connected components of the binary implication graph by an iterative depth first search
    (cadical/src/decompose.cpp). */
module Tarjan {
  import opened Logic

  /** The literals and, for each, the literals that it implies through a binary clause. */
  datatype Graph = Graph(nodes: set<int>, succ: map<int, seq<int>>)

  ghost predicate GraphOk(g: Graph)
  {
    0 !in g.nodes && g.nodes <= g.succ.Keys && forall v, w :: v in g.nodes && w in g.succ[v] ==> w in g.nodes
  }

  ghost predicate Edge(g: Graph, v: int, w: int)
  {
    v in g.nodes && v in g.succ && w in g.succ[v]
  }

  // ----- Reachability --------------------------------------------------------------------------------

  ghost predicate IsPath(g: Graph, p: seq<int>)
  {
    p != [] && forall i :: 0 <= i < |p| - 1 ==> Edge(g, p[i], p[i + 1])
  }

  ghost predicate Reach(g: Graph, v: int, w: int)
  {
    exists p :: IsPath(g, p) && p[0] == v && p[|p| - 1] == w
  }

  lemma ReachRefl(g: Graph, v: int)
    ensures Reach(g, v, v)
  {
    assert IsPath(g, [v]);
  }

  lemma ReachEdge(g: Graph, v: int, w: int)
    requires Edge(g, v, w)
    ensures Reach(g, v, w)
  {
    assert IsPath(g, [v, w]);
  }

  lemma ReachTrans(g: Graph, u: int, v: int, w: int)
    requires Reach(g, u, v) && Reach(g, v, w)
    ensures Reach(g, u, w)
  {
    var p :| IsPath(g, p) && p[0] == u && p[|p| - 1] == v;
    var q :| IsPath(g, q) && q[0] == v && q[|q| - 1] == w;
    var r := p + q[1..];
    forall i | 0 <= i < |r| - 1
      ensures Edge(g, r[i], r[i + 1])
    {
      if i < |p| - 1 {
      } else if i == |p| - 1 {
        assert r[i] == q[0] && r[i + 1] == q[1];
        assert Edge(g, q[0], q[0 + 1]);
      } else {
        var k := i - |p| + 1;
        assert r[i] == q[k] && r[i + 1] == q[k + 1];
      }
    }
    assert IsPath(g, r);
  }

  ghost predicate Closed(g: Graph, s: set<int>)
  {
    forall v, w :: v in s && Edge(g, v, w) ==> w in s
  }

  /** What a closed set can reach stays in it. */
  lemma ClosedReach(g: Graph, s: set<int>, v: int, w: int)
    requires Closed(g, s) && v in s && Reach(g, v, w)
    ensures w in s
  {
    var p :| IsPath(g, p) && p[0] == v && p[|p| - 1] == w;
    var i := 0;
    while i < |p| - 1
      invariant 0 <= i < |p| && p[i] in s
    {
      assert Edge(g, p[i], p[i + 1]);
      i := i + 1;
    }
  }

  /** In the same strongly connected component. */
  ghost predicate Mutual(g: Graph, v: int, w: int)
  {
    Reach(g, v, w) && Reach(g, w, v)
  }

  // ----- The state of the search ---------------------------------------------------------------------

  /** Search index and smallest known reachable index per visited literal, the traversed literals, the stack of
      visited literals of unfinished components, and the path of literals whose children are being visited. */
  datatype Dfs = Dfs(idx: map<int, nat>, min: map<int, nat>, done: set<int>, scc: seq<int>, path: seq<int>)

  function Idx(t: Dfs, v: int): nat
  {
    if v in t.idx then t.idx[v] else 0
  }

  function Min(t: Dfs, v: int): nat
  {
    if v in t.min then t.min[v] else 0
  }

  /** Finished with, but its component is not yet known. */
  predicate Black(t: Dfs, v: int)
  {
    v in t.scc && v !in t.path
  }

  /** The component stack holds the visited literals that are not done, in the order of their indices. */
  ghost predicate StackOk(g: Graph, t: Dfs, counter: nat)
  {
    && (forall v :: v in t.idx ==> v in g.nodes && 0 < t.idx[v] <= counter) && t.idx.Keys == t.min.Keys
    && (forall v :: v in t.scc <==> v in t.idx && v !in t.done) && t.done <= t.idx.Keys
    && (forall i, j :: 0 <= i < j < |t.scc| ==> Idx(t, t.scc[i]) < Idx(t, t.scc[j]))
    && (forall v :: v in t.path ==> v in t.scc)
    && (forall i, j :: 0 <= i < j < |t.path| ==> Idx(t, t.path[i]) < Idx(t, t.path[j]))
  }

  /** Literals on the component stack reach those after them, and some literal of the path not after them. */
  ghost predicate ReachOk(g: Graph, t: Dfs)
  {
    && (forall v, w {:trigger Reach(g, v, w)} :: v in t.scc && w in t.scc && Idx(t, v) <= Idx(t, w) ==> Reach(g, v, w))
    && (forall v {:trigger Anchored(g, t, v)} :: v in t.scc ==> Anchored(g, t, v))
  }

  ghost predicate Anchored(g: Graph, t: Dfs, v: int)
  {
    exists a :: a in t.path && Idx(t, a) <= Idx(t, v) && Reach(g, v, a)
  }

  /** All children of a black literal are visited, and those still on the stack are not below its minimum. */
  ghost predicate BlackOk(g: Graph, t: Dfs)
  {
    && (forall v :: Black(t, v) ==> Min(t, v) < Idx(t, v))
    && (forall v, w :: Black(t, v) && Edge(g, v, w) ==> w in t.idx && (w in t.scc ==> Min(t, v) <= Idx(t, w)))
  }

  /** The minimum of a literal on the stack is the index of a literal on the stack that it reaches. */
  ghost predicate MinOk(g: Graph, t: Dfs)
  {
    && (forall v :: v in t.scc ==> Min(t, v) <= Idx(t, v))
    && (forall v {:trigger Lowest(g, t, v)} :: v in t.scc ==> Lowest(g, t, v))
    && (forall v :: v in t.path ==> Min(t, v) == Idx(t, v))
  }

  ghost predicate Lowest(g: Graph, t: Dfs, v: int)
  {
    exists w :: w in t.scc && Idx(t, w) == Min(t, v) && Reach(g, v, w)
  }

  /** v belongs to the part of the stack that the literal at depth j has finished with. */
  predicate Under(t: Dfs, j: int, v: int)
    requires 0 <= j < |t.path|
  {
    Black(t, v) && Idx(t, t.path[j]) < Idx(t, v) && (j + 1 < |t.path| ==> Idx(t, v) < Idx(t, t.path[j + 1]))
  }

  /** The minimum of every such literal has reached a child of the literal at depth j. */
  ghost predicate LowOk(g: Graph, t: Dfs)
  {
    forall j, v {:trigger Under(t, j, v)} :: 0 <= j < |t.path| && Under(t, j, v) ==> Handed(g, t, t.path[j], v)
  }

  ghost predicate Handed(g: Graph, t: Dfs, a: int, v: int)
  {
    exists c :: Black(t, c) && Edge(g, a, c) && Min(t, c) <= Min(t, v)
  }

  ghost predicate SearchOk(g: Graph, t: Dfs, counter: nat)
  {
    && StackOk(g, t, counter) && ReachOk(g, t) && BlackOk(g, t) && MinOk(g, t) && LowOk(g, t) && Closed(g, t.done)
  }

  // ----- Visiting a new literal ----------------------------------------------------------------------

  function Visit(t: Dfs, v: int, n: nat): Dfs
  {
    t.(idx := t.idx[v := n], min := t.min[v := n], scc := t.scc + [v], path := t.path + [v])
  }

  /** A new literal is the first one, or a child of the last literal of the path. */
  ghost predicate Next(g: Graph, t: Dfs, v: int)
  {
    v in g.nodes && v !in t.idx && (t.path == [] || Edge(g, t.path[|t.path| - 1], v))
  }

  lemma VisitStack(g: Graph, t: Dfs, n: nat, v: int)
    requires StackOk(g, t, n) && Next(g, t, v)
    ensures StackOk(g, Visit(t, v, n + 1), n + 1)
  {
    hide Reach;
    var u := Visit(t, v, n + 1);
    assert v !in t.scc && v !in t.done && v !in t.path;
    assert forall w :: w in t.idx ==> Idx(u, w) == Idx(t, w) <= n;
    forall i, j | 0 <= i < j < |u.scc| ensures Idx(u, u.scc[i]) < Idx(u, u.scc[j]) {
      assert u.scc[i] == t.scc[i] && t.scc[i] in t.scc;
      if j < |t.scc| { assert u.scc[j] == t.scc[j] && t.scc[j] in t.scc; }
    }
    forall i, j | 0 <= i < j < |u.path| ensures Idx(u, u.path[i]) < Idx(u, u.path[j]) {
      assert u.path[i] == t.path[i] && t.path[i] in t.path;
      if j < |t.path| { assert u.path[j] == t.path[j] && t.path[j] in t.path; }
    }
  }

  lemma VisitReach(g: Graph, t: Dfs, n: nat, v: int)
    requires StackOk(g, t, n) && ReachOk(g, t) && Next(g, t, v)
    ensures ReachOk(g, Visit(t, v, n + 1))
  {
    hide Reach;
    var u := Visit(t, v, n + 1);
    ReachRefl(g, v);
    assert v !in t.scc;
    forall x, y | x in u.scc && y in u.scc && Idx(u, x) <= Idx(u, y)
      ensures Reach(g, x, y)
    {
      if x in t.scc && y in t.scc {
        assert Idx(t, x) <= Idx(t, y);
      } else if x in t.scc {
        ReachNext(g, t, n, v, x);
      }
    }
    forall x | x in u.scc
      ensures Anchored(g, u, x)
    {
      if x == v {
        assert v in u.path;
      } else {
        assert Anchored(g, t, x);
        var a :| a in t.path && Idx(t, a) <= Idx(t, x) && Reach(g, x, a);
        assert a in u.path && Idx(u, a) <= Idx(u, x);
      }
    }
  }

  /** Everything on the stack reaches the next literal. */
  lemma ReachNext(g: Graph, t: Dfs, n: nat, v: int, x: int)
    requires StackOk(g, t, n) && ReachOk(g, t) && Next(g, t, v) && x in t.scc
    ensures Reach(g, x, v)
  {
    hide Reach;
    assert Anchored(g, t, x);
    var a :| a in t.path && Idx(t, a) <= Idx(t, x) && Reach(g, x, a);
    var k :| 0 <= k < |t.path| && t.path[k] == a;
    var last := t.path[|t.path| - 1];
    assert last in t.path && Idx(t, a) <= Idx(t, last);
    assert Reach(g, a, last);
    ReachEdge(g, last, v);
    ReachTrans(g, x, a, last);
    ReachTrans(g, x, last, v);
  }

  lemma VisitFrame(g: Graph, t: Dfs, n: nat, v: int)
    requires StackOk(g, t, n) && Next(g, t, v)
    ensures var u := Visit(t, v, n + 1);
            && v !in t.scc && v !in t.path && Idx(u, v) == n + 1 && Min(u, v) == n + 1
            && (forall x {:trigger Black(u, x)} {:trigger Black(t, x)} :: Black(u, x) <==> Black(t, x))
            && (forall x :: x in t.idx ==> Idx(u, x) == Idx(t, x) && Min(u, x) == Min(t, x) && Idx(t, x) <= n)
  {
  }

  lemma VisitBlack(g: Graph, t: Dfs, n: nat, v: int)
    requires StackOk(g, t, n) && BlackOk(g, t) && Next(g, t, v)
    ensures BlackOk(g, Visit(t, v, n + 1))
  {
    VisitFrame(g, t, n, v);
    var u := Visit(t, v, n + 1);
    forall x | Black(u, x) ensures Min(u, x) < Idx(u, x) { assert Black(t, x); }
    forall x, w | Black(u, x) && Edge(g, x, w)
      ensures w in u.idx && (w in u.scc ==> Min(u, x) <= Idx(u, w))
    {
      assert Black(t, x);
    }
  }

  lemma VisitLowest(g: Graph, t: Dfs, n: nat, v: int, x: int)
    requires StackOk(g, t, n) && MinOk(g, t) && Next(g, t, v) && x in t.scc
    ensures Lowest(g, Visit(t, v, n + 1), x)
  {
    hide Reach;
    VisitFrame(g, t, n, v);
    var u := Visit(t, v, n + 1);
    assert Lowest(g, t, x);
    var w :| w in t.scc && Idx(t, w) == Min(t, x) && Reach(g, x, w);
    assert w in u.scc && w in t.idx && x in t.idx;
    hide StackOk, MinOk;
    assert Idx(u, w) == Min(u, x);
  }

  lemma VisitMin(g: Graph, t: Dfs, n: nat, v: int)
    requires StackOk(g, t, n) && MinOk(g, t) && Next(g, t, v)
    ensures MinOk(g, Visit(t, v, n + 1))
  {
    hide Reach, Lowest;
    VisitFrame(g, t, n, v);
    var u := Visit(t, v, n + 1);
    VisitFirst(g, t, n, v);
    forall x | x in t.scc ensures Lowest(g, u, x) { VisitLowest(g, t, n, v, x); }
    forall x | x in t.scc ensures Min(u, x) <= Idx(u, x) { assert x in t.idx; }
    forall x | x in t.path ensures Min(u, x) == Idx(u, x) { assert x in t.scc && x in t.idx; }
  }

  lemma VisitFirst(g: Graph, t: Dfs, n: nat, v: int)
    ensures Lowest(g, Visit(t, v, n + 1), v)
  {
    ReachRefl(g, v);
    var u := Visit(t, v, n + 1);
    assert v in u.scc && Idx(u, v) == Min(u, v);
  }

  lemma VisitLow(g: Graph, t: Dfs, n: nat, v: int)
    requires StackOk(g, t, n) && LowOk(g, t) && Next(g, t, v)
    ensures LowOk(g, Visit(t, v, n + 1))
  {
    VisitFrame(g, t, n, v);
    var u := Visit(t, v, n + 1);
    forall j, x | 0 <= j < |u.path| && Under(u, j, x)
      ensures Handed(g, u, u.path[j], x)
    {
      assert Black(t, x) && x in t.idx;
      if j < |t.path| {
        VisitUnder(g, t, n, v, j, x);
        var c :| Black(t, c) && Edge(g, t.path[j], c) && Min(t, c) <= Min(t, x);
        assert Black(u, c) && u.path[j] == t.path[j];
      }
    }
  }

  lemma VisitUnder(g: Graph, t: Dfs, n: nat, v: int, j: nat, x: int)
    requires StackOk(g, t, n) && LowOk(g, t) && Next(g, t, v) && j < |t.path| && Under(Visit(t, v, n + 1), j, x)
    ensures Handed(g, t, t.path[j], x)
  {
    VisitFrame(g, t, n, v);
    var u := Visit(t, v, n + 1);
    assert Black(t, x) && x in t.idx;
    assert u.path[j] == t.path[j] && t.path[j] in t.path;
    if j + 1 < |t.path| { assert u.path[j + 1] == t.path[j + 1] && t.path[j + 1] in t.path; }
    assert Under(t, j, x);
  }

  lemma VisitOk(g: Graph, t: Dfs, n: nat, v: int)
    requires SearchOk(g, t, n) && Next(g, t, v)
    ensures SearchOk(g, Visit(t, v, n + 1), n + 1)
  {
    VisitStack(g, t, n, v);
    VisitReach(g, t, n, v);
    VisitBlack(g, t, n, v);
    VisitMin(g, t, n, v);
    VisitLow(g, t, n, v);
  }

  // ----- Lowering a minimum --------------------------------------------------------------------------

  /** What the scan over the children computes. */
  ghost predicate NewMin(g: Graph, t: Dfs, v: int, m: nat)
  {
    && m <= Min(t, v) && (forall c :: Edge(g, v, c) && c in t.scc ==> m <= Min(t, c))
    && (m == Min(t, v) || exists c :: Edge(g, v, c) && c in t.scc && m == Min(t, c))
  }

  lemma NewMinLowest(g: Graph, t: Dfs, v: int, m: nat)
    requires MinOk(g, t) && v in t.scc && NewMin(g, t, v, m)
    ensures exists w :: w in t.scc && Idx(t, w) == m && Reach(g, v, w)
  {
    hide Reach;
    if m == Min(t, v) {
      assert Lowest(g, t, v);
    } else {
      var c :| Edge(g, v, c) && c in t.scc && m == Min(t, c);
      assert Lowest(g, t, c);
      var w :| w in t.scc && Idx(t, w) == Min(t, c) && Reach(g, c, w);
      ReachEdge(g, v, c);
      ReachTrans(g, v, c, w);
    }
  }

  /** Visiting a finished literal once more: it is a child of the last literal of the path. */
  lemma LowerAgain(g: Graph, t: Dfs, n: nat, v: int, m: nat)
    requires SearchOk(g, t, n) && Black(t, v) && NewMin(g, t, v, m) && t.path != []
    requires Edge(g, t.path[|t.path| - 1], v) && Idx(t, t.path[|t.path| - 1]) < Idx(t, v)
    ensures SearchOk(g, t.(min := t.min[v := m]), n)
  {
    LowerStack(g, t, n, v, m);
    LowerReach(g, t, v, m);
    LowerMin(g, t, v, m);
    LowerBlack(g, t, v, m);
    LowerHanded(g, t, n, v, m);
  }

  lemma LowerReach(g: Graph, t: Dfs, v: int, m: nat)
    requires ReachOk(g, t)
    ensures ReachOk(g, t.(min := t.min[v := m]))
  {
    hide Reach;
    var u := t.(min := t.min[v := m]);
    assert forall x :: Idx(u, x) == Idx(t, x);
    forall x | x in u.scc
      ensures Anchored(g, u, x)
    {
      assert Anchored(g, t, x);
      var a :| a in t.path && Idx(t, a) <= Idx(t, x) && Reach(g, x, a);
      assert a in u.path && Idx(u, a) <= Idx(u, x);
    }
  }

  lemma LowerMin(g: Graph, t: Dfs, v: int, m: nat)
    requires MinOk(g, t) && Black(t, v) && NewMin(g, t, v, m)
    ensures MinOk(g, t.(min := t.min[v := m]))
  {
    hide Reach;
    var u := t.(min := t.min[v := m]);
    NewMinLowest(g, t, v, m);
    var o :| o in t.scc && Idx(t, o) == m && Reach(g, v, o);
    assert m <= Min(t, v);
    hide NewMin;
    assert Idx(u, o) == Min(u, v) && Lowest(g, u, v);
    forall x | x in u.scc && x != v
      ensures Lowest(g, u, x)
    {
      assert Lowest(g, t, x);
      var w :| w in t.scc && Idx(t, w) == Min(t, x) && Reach(g, x, w);
      assert Idx(u, w) == Min(u, x);
    }
    forall x | x in u.scc ensures Min(u, x) <= Idx(u, x) { assert Min(t, x) <= Idx(t, x); }
    forall x | x in u.path ensures Min(u, x) == Idx(u, x) { assert Min(t, x) == Idx(t, x); }
  }

  lemma LowerBlack(g: Graph, t: Dfs, v: int, m: nat)
    requires BlackOk(g, t) && m <= Min(t, v)
    ensures BlackOk(g, t.(min := t.min[v := m]))
  {
    var u := t.(min := t.min[v := m]);
    assert forall x :: Idx(u, x) == Idx(t, x) && Min(u, x) <= Min(t, x);
    forall x | Black(u, x) ensures Min(u, x) < Idx(u, x) { assert Black(t, x); }
    forall x, w | Black(u, x) && Edge(g, x, w)
      ensures w in u.idx && (w in u.scc ==> Min(u, x) <= Idx(u, w))
    {
      assert Black(t, x);
    }
  }

  lemma LowerStack(g: Graph, t: Dfs, n: nat, v: int, m: nat)
    requires StackOk(g, t, n) && v in t.scc
    ensures StackOk(g, t.(min := t.min[v := m]), n)
  {
    var u := t.(min := t.min[v := m]);
    assert u.min.Keys == t.min.Keys;
    assert forall x :: Idx(u, x) == Idx(t, x);
  }

  lemma LowerHanded(g: Graph, t: Dfs, n: nat, v: int, m: nat)
    requires StackOk(g, t, n) && LowOk(g, t) && Black(t, v) && m <= Min(t, v) && t.path != []
    requires Edge(g, t.path[|t.path| - 1], v) && Idx(t, t.path[|t.path| - 1]) < Idx(t, v)
    ensures LowOk(g, t.(min := t.min[v := m]))
  {
    hide Reach;
    var u := t.(min := t.min[v := m]);
    var last := |t.path| - 1;
    assert forall x :: Idx(u, x) == Idx(t, x) && Min(u, x) == if x == v then m else Min(t, x);
    forall j, x | 0 <= j < |u.path| && Under(u, j, x)
      ensures Handed(g, u, u.path[j], x)
    {
      assert Under(t, j, x);
      if x == v {
        assert Black(u, v);
      } else {
        assert Handed(g, t, t.path[j], x);
        var c :| Black(t, c) && Edge(g, t.path[j], c) && Min(t, c) <= Min(t, x);
        assert Black(u, c);
      }
    }
  }

  // ----- Finishing a literal inside a component ------------------------------------------------------

  /** The last literal of the path, with all its children visited and its predecessor on the path leading to it. */
  ghost predicate Finishing(g: Graph, t: Dfs, v: int, m: nat)
  {
    && t.path != [] && t.path[|t.path| - 1] == v && NewMin(g, t, v, m) && (forall w :: Edge(g, v, w) ==> w in t.idx)
    && (|t.path| > 1 ==> Edge(g, t.path[|t.path| - 2], v))
  }

  function Finish(t: Dfs, v: int, m: nat): Dfs
    requires t.path != []
  {
    t.(min := t.min[v := m], path := t.path[..|t.path| - 1])
  }

  lemma FinishFrame(g: Graph, t: Dfs, n: nat, v: int, m: nat)
    requires StackOk(g, t, n) && Finishing(g, t, v, m)
    ensures var u := Finish(t, v, m);
            && v in t.scc && v in t.path && (forall x :: x in t.path <==> x in u.path || x == v) && v !in u.path
            && (forall x {:trigger Black(u, x)} {:trigger Black(t, x)} :: Black(u, x) <==> Black(t, x) || x == v)
            && (forall x {:trigger Idx(u, x)} :: Idx(u, x) == Idx(t, x))
            && (forall x {:trigger Min(u, x)} :: Min(u, x) == if x == v then m else Min(t, x))
  {
    PathLast(g, t, n);
    FinishPath(g, t, n, v, m);
    hide StackOk, Finishing;
    var u := Finish(t, v, m);
    forall x ensures Black(u, x) <==> Black(t, x) || x == v {}
  }

  lemma FinishPath(g: Graph, t: Dfs, n: nat, v: int, m: nat)
    requires StackOk(g, t, n) && Finishing(g, t, v, m)
    ensures v in t.path && v !in t.path[..|t.path| - 1]
    ensures forall x :: x in t.path <==> x in t.path[..|t.path| - 1] || x == v
  {
    PathLast(g, t, n);
    var less := t.path[..|t.path| - 1];
    assert t.path == less + [v];
    hide StackOk, Finishing;
    assert v !in less;
  }

  /** Everything else on the path has a smaller index than its last literal. */
  lemma PathLast(g: Graph, t: Dfs, n: nat)
    requires StackOk(g, t, n) && t.path != []
    ensures t.path[|t.path| - 1] in t.scc
    ensures forall x :: x in t.path[..|t.path| - 1] ==> Idx(t, x) < Idx(t, t.path[|t.path| - 1])
  {
    var last := |t.path| - 1;
    assert t.path[last] in t.path;
    forall x | x in t.path[..last]
      ensures Idx(t, x) < Idx(t, t.path[last])
    {
      var k :| 0 <= k < last && t.path[..last][k] == x;
      PathOrder(g, t, n, k, last);
    }
  }

  lemma PathOrder(g: Graph, t: Dfs, n: nat, i: nat, j: nat)
    requires StackOk(g, t, n) && i <= j < |t.path|
    ensures i < j ==> Idx(t, t.path[i]) < Idx(t, t.path[j])
  {
  }

  lemma FinishStack(g: Graph, t: Dfs, n: nat, v: int, m: nat)
    requires StackOk(g, t, n) && Finishing(g, t, v, m)
    ensures StackOk(g, Finish(t, v, m), n)
  {
    FinishFrame(g, t, n, v, m);
    var u := Finish(t, v, m);
    assert u.min.Keys == t.min.Keys;
    forall i, j | 0 <= i < j < |u.scc| ensures Idx(u, u.scc[i]) < Idx(u, u.scc[j]) {
      assert Idx(t, t.scc[i]) < Idx(t, t.scc[j]);
    }
    forall i, j | 0 <= i < j < |u.path| ensures Idx(u, u.path[i]) < Idx(u, u.path[j]) {
      assert t.path[i] == u.path[i] && t.path[j] == u.path[j];
    }
  }

  /** A literal that is not the entry of its component reaches an earlier literal of the path. */
  lemma FinishAnchor(g: Graph, t: Dfs, n: nat, v: int, m: nat) returns (b: int)
    requires StackOk(g, t, n) && ReachOk(g, t) && MinOk(g, t) && Finishing(g, t, v, m) && m < Idx(t, v)
    ensures b in t.path && Idx(t, b) < Idx(t, v) && Reach(g, v, b)
  {
    hide Reach;
    PathLast(g, t, n);
    NewMinLowest(g, t, v, m);
    var w :| w in t.scc && Idx(t, w) == m && Reach(g, v, w);
    hide NewMin, MinOk, StackOk;
    assert Anchored(g, t, w);
    b :| b in t.path && Idx(t, b) <= Idx(t, w) && Reach(g, w, b);
    ReachTrans(g, v, w, b);
  }

  lemma FinishReach(g: Graph, t: Dfs, n: nat, v: int, m: nat)
    requires StackOk(g, t, n) && ReachOk(g, t) && MinOk(g, t) && Finishing(g, t, v, m) && m < Idx(t, v)
    ensures ReachOk(g, Finish(t, v, m))
  {
    hide Reach, NewMin, MinOk, StackOk;
    FinishFrame(g, t, n, v, m);
    var u := Finish(t, v, m);
    var b := FinishAnchor(g, t, n, v, m);
    forall x | x in u.scc
      ensures Anchored(g, u, x)
    {
      assert Anchored(g, t, x);
      var a :| a in t.path && Idx(t, a) <= Idx(t, x) && Reach(g, x, a);
      if a == v {
        ReachTrans(g, x, v, b);
        assert b in u.path && Idx(u, b) <= Idx(u, x);
      } else {
        assert a in u.path && Idx(u, a) <= Idx(u, x);
      }
    }
    forall x, y | x in u.scc && y in u.scc && Idx(u, x) <= Idx(u, y) ensures Reach(g, x, y) {
      assert Idx(t, x) <= Idx(t, y);
    }
  }

  lemma FinishBlack(g: Graph, t: Dfs, n: nat, v: int, m: nat)
    requires StackOk(g, t, n) && BlackOk(g, t) && MinOk(g, t) && Finishing(g, t, v, m) && m < Idx(t, v)
    ensures BlackOk(g, Finish(t, v, m))
  {
    FinishFrame(g, t, n, v, m);
    var u := Finish(t, v, m);
    hide StackOk;
    forall x | Black(u, x) ensures Min(u, x) < Idx(u, x) { if x != v { assert Black(t, x); } }
    forall x, w | Black(u, x) && Edge(g, x, w)
      ensures w in u.idx && (w in u.scc ==> Min(u, x) <= Idx(u, w))
    {
      if x != v {
        assert Black(t, x);
      } else if w in u.scc {
        assert m <= Min(t, w) <= Idx(t, w);
      }
    }
  }

  lemma FinishMin(g: Graph, t: Dfs, n: nat, v: int, m: nat)
    requires StackOk(g, t, n) && MinOk(g, t) && Finishing(g, t, v, m)
    ensures MinOk(g, Finish(t, v, m))
  {
    hide Reach;
    FinishFrame(g, t, n, v, m);
    var u := Finish(t, v, m);
    NewMinLowest(g, t, v, m);
    var o :| o in t.scc && Idx(t, o) == m && Reach(g, v, o);
    assert m <= Min(t, v);
    hide NewMin, StackOk;
    assert Idx(u, o) == Min(u, v) && Lowest(g, u, v);
    forall x | x in u.scc && x != v
      ensures Lowest(g, u, x)
    {
      assert Lowest(g, t, x);
      var w :| w in t.scc && Idx(t, w) == Min(t, x) && Reach(g, x, w);
      assert Idx(u, w) == Min(u, x);
    }
    forall x | x in u.scc ensures Min(u, x) <= Idx(u, x) { assert Min(t, x) <= Idx(t, x); }
    forall x | x in u.path ensures Min(u, x) == Idx(u, x) { assert Min(t, x) == Idx(t, x); }
  }

  lemma FinishLow(g: Graph, t: Dfs, n: nat, v: int, m: nat)
    requires StackOk(g, t, n) && LowOk(g, t) && Finishing(g, t, v, m)
    ensures LowOk(g, Finish(t, v, m))
  {
    var u := Finish(t, v, m);
    forall j, x | 0 <= j < |u.path| && Under(u, j, x)
      ensures Handed(g, u, u.path[j], x)
    {
      FinishHanded(g, t, n, v, m, j, x);
    }
  }

  lemma FinishHanded(g: Graph, t: Dfs, n: nat, v: int, m: nat, j: nat, x: int)
    requires StackOk(g, t, n) && LowOk(g, t) && Finishing(g, t, v, m) && j < |t.path| - 1 && Under(Finish(t, v, m), j, x)
    ensures Handed(g, Finish(t, v, m), t.path[j], x)
  {
    FinishFrame(g, t, n, v, m);
    var u, last := Finish(t, v, m), |t.path| - 1;
    assert forall k :: 0 <= k < last ==> u.path[k] == t.path[k];
    PathOrder(g, t, n, j + 1, last);
    if x == v {
      assert j == last - 1;
      assert Black(u, v) && Edge(g, t.path[j], v);
    } else if Idx(t, x) < Idx(t, v) {
      assert Black(t, x) && Under(t, j, x);
      var c :| Black(t, c) && Edge(g, t.path[j], c) && Min(t, c) <= Min(t, x);
      assert Black(u, c) && Min(u, c) <= Min(u, x);
    } else {
      HandedUp(g, t, n, v, m, j, x);
    }
  }

  lemma HandedUp(g: Graph, t: Dfs, n: nat, v: int, m: nat, j: nat, x: int)
    requires StackOk(g, t, n) && LowOk(g, t) && Finishing(g, t, v, m) && j < |t.path| - 1 && Under(Finish(t, v, m), j, x)
    requires x != v && Idx(t, x) >= Idx(t, v)
    ensures Handed(g, Finish(t, v, m), t.path[j], x)
  {
    FinishFrame(g, t, n, v, m);
    var u, last := Finish(t, v, m), |t.path| - 1;
    assert forall k :: 0 <= k < last ==> u.path[k] == t.path[k];
    PathOrder(g, t, n, j + 1, last);
    assert j == last - 1;
    assert Black(t, x);
    DifferentIdx(g, t, n, v, x);
    assert Under(t, last, x);
    var c :| Black(t, c) && Edge(g, v, c) && Min(t, c) <= Min(t, x);
    assert m <= Min(t, c) && Black(u, v) && Edge(g, t.path[j], v);
    assert Min(u, v) <= Min(u, x);
  }

  lemma DifferentIdx(g: Graph, t: Dfs, n: nat, v: int, w: int)
    requires StackOk(g, t, n) && v in t.scc && w in t.scc && v != w
    ensures Idx(t, v) != Idx(t, w)
  {
    var i :| 0 <= i < |t.scc| && t.scc[i] == v;
    var j :| 0 <= j < |t.scc| && t.scc[j] == w;
  }

  /** A literal that is not the entry of its component stays on the component stack. */
  lemma FinishOk(g: Graph, t: Dfs, n: nat, v: int, m: nat)
    requires SearchOk(g, t, n) && Finishing(g, t, v, m) && m < Idx(t, v)
    ensures SearchOk(g, Finish(t, v, m), n)
  {
    FinishStack(g, t, n, v, m);
    FinishReach(g, t, n, v, m);
    FinishBlack(g, t, n, v, m);
    FinishMin(g, t, n, v, m);
    FinishLow(g, t, n, v, m);
  }

  // ----- Completing a component ----------------------------------------------------------------------

  /** The last literal of the path is the entry of its component, at position k of the component stack. */
  ghost predicate Entry(g: Graph, t: Dfs, v: int, k: nat)
  {
    Finishing(g, t, v, Idx(t, v)) && k < |t.scc| && t.scc[k] == v
  }

  function Members(s: seq<int>): set<int>
  {
    set v | v in s
  }

  function Complete(t: Dfs, k: nat): Dfs
    requires t.path != [] && k <= |t.scc|
  {
    t.(done := t.done + Members(t.scc[k..]), scc := t.scc[..k], path := t.path[..|t.path| - 1])
  }

  /** The component stack from the entry on holds the larger indices, and before it the smaller ones. */
  lemma Cut(g: Graph, t: Dfs, n: nat, k: nat)
    requires StackOk(g, t, n) && k < |t.scc|
    ensures forall x :: x in t.scc ==> (x in t.scc[k..] <==> Idx(t, t.scc[k]) <= Idx(t, x))
    ensures forall x :: x in t.scc ==> (x in t.scc[..k] <==> Idx(t, x) < Idx(t, t.scc[k]))
  {
    forall x | x in t.scc
      ensures x in t.scc[k..] <==> Idx(t, t.scc[k]) <= Idx(t, x)
      ensures x in t.scc[..k] <==> Idx(t, x) < Idx(t, t.scc[k])
    {
      var i :| 0 <= i < |t.scc| && t.scc[i] == x;
      if i < k {
        assert t.scc[..k][i] == x;
      } else {
        assert t.scc[k..][i - k] == x;
      }
      if x in t.scc[k..] { var j :| 0 <= j < |t.scc[k..]| && t.scc[k..][j] == x; assert t.scc[k + j] == x; }
      if x in t.scc[..k] { var j :| 0 <= j < k && t.scc[..k][j] == x; assert t.scc[j] == x; }
    }
  }

  /** Nothing in the component leads below its entry. */
  lemma SegmentMin(g: Graph, t: Dfs, n: nat, v: int, k: nat, x: int)
    requires StackOk(g, t, n) && LowOk(g, t) && Entry(g, t, v, k) && x in t.scc && Idx(t, v) < Idx(t, x)
    ensures Black(t, x) && Idx(t, v) <= Min(t, x)
  {
    PathLast(g, t, n);
    var last := |t.path| - 1;
    assert t.path == t.path[..last] + [v];
    assert Black(t, x);
    assert Under(t, last, x);
    var c :| Black(t, c) && Edge(g, v, c) && Min(t, c) <= Min(t, x);
    assert Idx(t, v) <= Min(t, c);
  }

  lemma SegmentEdge(g: Graph, t: Dfs, n: nat, v: int, k: nat, x: int, w: int)
    requires SearchOk(g, t, n) && Entry(g, t, v, k) && x in t.scc && Idx(t, v) <= Idx(t, x) && Edge(g, x, w)
    ensures w in t.done || (w in t.scc && Idx(t, v) <= Idx(t, w))
  {
    if x == v {
      assert w in t.idx;
      if w in t.scc { assert Idx(t, v) <= Min(t, w) <= Idx(t, w); }
    } else {
      DifferentIdx(g, t, n, v, x);
      SegmentMin(g, t, n, v, k, x);
      assert w in t.idx;
      assert w in t.scc ==> Min(t, x) <= Idx(t, w);
    }
  }

  lemma CompleteClosed(g: Graph, t: Dfs, n: nat, v: int, k: nat)
    requires SearchOk(g, t, n) && Entry(g, t, v, k)
    ensures Closed(g, Complete(t, k).done)
  {
    var u := Complete(t, k);
    Cut(g, t, n, k);
    forall x, w | x in u.done && Edge(g, x, w)
      ensures w in u.done
    {
      if x !in t.done {
        assert x in t.scc[k..] && x in t.scc;
        SegmentEdge(g, t, n, v, k, x, w);
      }
    }
  }

  /** The popped part of the stack is exactly the strongly connected component of the entry. */
  lemma ComponentExact(g: Graph, t: Dfs, n: nat, v: int, k: nat)
    requires SearchOk(g, t, n) && Entry(g, t, v, k)
    ensures forall z :: z in Members(t.scc[k..]) <==> Mutual(g, v, z)
  {
    hide Reach;
    forall z | z in t.scc[k..]
      ensures Mutual(g, v, z)
    {
      ComponentMember(g, t, n, v, k, z);
    }
    CompleteClosed(g, t, n, v, k);
    forall z | Mutual(g, v, z)
      ensures z in t.scc[k..]
    {
      assert v in t.scc[k..] by { assert t.scc[k..][0] == v; }
      ClosedReach(g, Complete(t, k).done, v, z);
      if z in t.done {
        ClosedReach(g, t.done, z, v);
        NotDone(g, t, n, v);
      }
    }
  }

  lemma NotDone(g: Graph, t: Dfs, n: nat, v: int)
    requires StackOk(g, t, n) && v in t.scc
    ensures v !in t.done
  {
  }

  lemma ComponentMember(g: Graph, t: Dfs, n: nat, v: int, k: nat, z: int)
    requires SearchOk(g, t, n) && Entry(g, t, v, k) && z in t.scc[k..]
    ensures Mutual(g, v, z)
  {
    hide Reach, BlackOk, MinOk, LowOk, NewMin, Closed;
    assert ReachOk(g, t);
    hide SearchOk;
    PathMembers(g, t, n, v);
    Cut(g, t, n, k);
    hide StackOk;
    assert z in t.scc && Idx(t, v) <= Idx(t, z) by { SuffixMember(t.scc, k, z); }
    assert Reach(g, v, z);
    assert Anchored(g, t, z);
    var a :| a in t.path && Idx(t, a) <= Idx(t, z) && Reach(g, z, a);
    assert Reach(g, a, v);
    ReachTrans(g, z, a, v);
  }

  lemma SuffixMember(s: seq<int>, k: nat, z: int)
    requires k <= |s| && z in s[k..]
    ensures z in s
  {
  }

  /** All literals of the path are on the stack, none after its last one. */
  lemma PathMembers(g: Graph, t: Dfs, n: nat, v: int)
    requires StackOk(g, t, n) && t.path != [] && t.path[|t.path| - 1] == v
    ensures v in t.scc && forall x :: x in t.path ==> x in t.scc && Idx(t, x) <= Idx(t, v)
  {
    PathLast(g, t, n);
    var last := |t.path| - 1;
    forall x | x in t.path
      ensures x in t.scc && Idx(t, x) <= Idx(t, v)
    {
      var i :| 0 <= i < |t.path| && t.path[i] == x;
      PathOrder(g, t, n, i, last);
    }
  }

  lemma CompleteFrame(g: Graph, t: Dfs, n: nat, v: int, k: nat)
    requires StackOk(g, t, n) && Entry(g, t, v, k)
    ensures var u := Complete(t, k);
            && (forall x {:trigger x in u.scc} :: x in u.scc <==> x in t.scc && Idx(t, x) < Idx(t, v))
            && (forall x :: x in u.path <==> x in t.path && x != v)
            && (forall x :: x in u.path ==> x in u.scc)
            && (forall x {:trigger Black(u, x)} :: Black(u, x) <==> Black(t, x) && Idx(t, x) < Idx(t, v))
            && (forall x {:trigger Idx(u, x)} :: Idx(u, x) == Idx(t, x))
            && (forall x {:trigger Min(u, x)} :: Min(u, x) == Min(t, x))
  {
    CompletePath(g, t, n, v, k);
    CompleteScc(g, t, n, v, k);
    hide StackOk, Entry;
    var u := Complete(t, k);
    forall x | x in u.path ensures x in u.scc {}
  }

  lemma CompletePath(g: Graph, t: Dfs, n: nat, v: int, k: nat)
    requires StackOk(g, t, n) && Entry(g, t, v, k)
    ensures forall x :: x in Complete(t, k).path <==> x in t.path && x != v
    ensures forall x :: x in Complete(t, k).path ==> x in t.scc && Idx(t, x) < Idx(t, v)
  {
    hide NewMin;
    PathLast(g, t, n);
    var last := |t.path| - 1;
    assert t.path == t.path[..last] + [v];
    assert forall x :: x in t.path ==> x in t.scc;
    hide StackOk;
    assert Complete(t, k).path == t.path[..last];
  }

  lemma CompleteScc(g: Graph, t: Dfs, n: nat, v: int, k: nat)
    requires StackOk(g, t, n) && Entry(g, t, v, k)
    ensures forall x {:trigger x in Complete(t, k).scc} ::
              x in Complete(t, k).scc <==> x in t.scc && Idx(t, x) < Idx(t, v)
  {
    hide Finishing;
    Cut(g, t, n, k);
    hide StackOk;
    forall x | x in t.scc[..k] ensures x in t.scc {
      var i :| 0 <= i < k && t.scc[..k][i] == x;
      assert t.scc[i] == x;
    }
  }

  lemma CompleteStack(g: Graph, t: Dfs, n: nat, v: int, k: nat)
    requires StackOk(g, t, n) && Entry(g, t, v, k)
    ensures StackOk(g, Complete(t, k), n)
  {
    CompleteFrame(g, t, n, v, k);
    Cut(g, t, n, k);
    var u := Complete(t, k);
    forall x ensures x in u.scc <==> x in u.idx && x !in u.done {
      assert x in t.scc[k..] ==> x in t.scc;
    }
    forall i, j | 0 <= i < j < |u.scc| ensures Idx(u, u.scc[i]) < Idx(u, u.scc[j]) {
      assert u.scc[i] == t.scc[i] && u.scc[j] == t.scc[j];
    }
    forall i, j | 0 <= i < j < |u.path| ensures Idx(u, u.path[i]) < Idx(u, u.path[j]) {
      assert u.path[i] == t.path[i] && u.path[j] == t.path[j];
    }
  }

  lemma CompleteReach(g: Graph, t: Dfs, n: nat, v: int, k: nat)
    requires StackOk(g, t, n) && ReachOk(g, t) && Entry(g, t, v, k)
    ensures ReachOk(g, Complete(t, k))
  {
    hide Reach, NewMin, StackOk;
    CompleteFrame(g, t, n, v, k);
    var u := Complete(t, k);
    forall x | x in u.scc
      ensures Anchored(g, u, x)
    {
      assert Anchored(g, t, x);
      var a :| a in t.path && Idx(t, a) <= Idx(t, x) && Reach(g, x, a);
      assert a in u.path && Idx(u, a) <= Idx(u, x);
    }
    forall x, y | x in u.scc && y in u.scc && Idx(u, x) <= Idx(u, y) ensures Reach(g, x, y) {
      assert Idx(t, x) <= Idx(t, y);
    }
  }

  lemma CompleteMin(g: Graph, t: Dfs, n: nat, v: int, k: nat)
    requires StackOk(g, t, n) && MinOk(g, t) && Entry(g, t, v, k)
    ensures MinOk(g, Complete(t, k))
  {
    hide Reach, NewMin, StackOk;
    CompleteFrame(g, t, n, v, k);
    var u := Complete(t, k);
    forall x | x in u.scc
      ensures Lowest(g, u, x) && Min(u, x) <= Idx(u, x)
    {
      assert Lowest(g, t, x) && Min(t, x) <= Idx(t, x);
      var w :| w in t.scc && Idx(t, w) == Min(t, x) && Reach(g, x, w);
      assert w in u.scc && Idx(u, w) == Min(u, x);
    }
    forall x | x in u.path ensures Min(u, x) == Idx(u, x) { assert Min(t, x) == Idx(t, x); }
  }

  lemma CompleteBlack(g: Graph, t: Dfs, n: nat, v: int, k: nat)
    requires StackOk(g, t, n) && BlackOk(g, t) && Entry(g, t, v, k)
    ensures BlackOk(g, Complete(t, k))
  {
    hide NewMin, StackOk;
    CompleteFrame(g, t, n, v, k);
    var u := Complete(t, k);
    forall x | Black(u, x) ensures Min(u, x) < Idx(u, x) { assert Black(t, x); }
    forall x, w | Black(u, x) && Edge(g, x, w)
      ensures w in u.idx && (w in u.scc ==> Min(u, x) <= Idx(u, w))
    {
      assert Black(t, x);
    }
  }

  lemma CompleteLow(g: Graph, t: Dfs, n: nat, v: int, k: nat)
    requires SearchOk(g, t, n) && Entry(g, t, v, k)
    ensures LowOk(g, Complete(t, k))
  {
    CompleteFrame(g, t, n, v, k);
    var u, last := Complete(t, k), |t.path| - 1;
    forall j, x | 0 <= j < |u.path| && Under(u, j, x)
      ensures Handed(g, u, u.path[j], x)
    {
      CompleteHanded(g, t, n, v, k, j, x);
    }
  }

  lemma CompleteHanded(g: Graph, t: Dfs, n: nat, v: int, k: nat, j: nat, x: int)
    requires SearchOk(g, t, n) && Entry(g, t, v, k) && j < |t.path| - 1 && Under(Complete(t, k), j, x)
    ensures Handed(g, Complete(t, k), t.path[j], x)
  {
    CompleteFrame(g, t, n, v, k);
    var u, last := Complete(t, k), |t.path| - 1;
    hide BlackOk, ReachOk, Closed;
    assert forall i :: 0 <= i < last ==> u.path[i] == t.path[i];
    assert Black(u, x) && Black(t, x) && Under(t, j, x);
    var c :| Black(t, c) && Edge(g, t.path[j], c) && Min(t, c) <= Min(t, x);
    assert Min(t, x) <= Idx(t, x) < Idx(t, v);
    if Idx(t, v) < Idx(t, c) {
      SegmentMin(g, t, n, v, k, c);
    } else if c != v {
      DifferentIdx(g, t, n, v, c);
    }
    assert Black(u, c);
  }

  /** Popping the component of an entry keeps the invariant. */
  lemma CompleteOk(g: Graph, t: Dfs, n: nat, v: int, k: nat)
    requires SearchOk(g, t, n) && Entry(g, t, v, k)
    ensures SearchOk(g, Complete(t, k), n)
  {
    CompleteStack(g, t, n, v, k);
    CompleteReach(g, t, n, v, k);
    CompleteBlack(g, t, n, v, k);
    CompleteMin(g, t, n, v, k);
    CompleteLow(g, t, n, v, k);
    CompleteClosed(g, t, n, v, k);
  }

  // ----- The working stack ---------------------------------------------------------------------------

  /** The path lies on the working stack at the given positions; above each of its literals lie children of it, the
      next literal of the path among them, and those already visited were visited later. */
  ghost predicate WorkOk(g: Graph, t: Dfs, work: seq<int>, pos: seq<nat>)
  {
    && |pos| == |t.path| && (forall j :: 0 <= j < |pos| ==> pos[j] < |work| && work[pos[j]] == t.path[j])
    && (forall i, j :: 0 <= i < j < |pos| ==> pos[i] < pos[j])
    && (forall q :: 0 <= q < |work| ==> work[q] in g.nodes)
    && (if t.path == [] then |work| <= 1 && forall v :: v in work ==> v !in t.idx else pos[0] == 0)
    && (forall j, q {:trigger Over(pos, j, q)} :: Over(pos, j, q) && q < |work| ==> Edge(g, t.path[j], work[q]))
    && LaterOk(t, work, pos)
  }

  /** Position q lies above that of depth j, and not above that of the next depth. */
  predicate Over(pos: seq<nat>, j: int, q: int)
  {
    0 <= j < |pos| && pos[j] < q && (j + 1 < |pos| ==> q <= pos[j + 1])
  }

  ghost predicate LaterOk(t: Dfs, work: seq<int>, pos: seq<nat>)
    requires |pos| == |t.path|
  {
    forall j, q {:trigger pos[j], work[q]} ::
      0 <= j < |pos| && pos[j] < q < |work| && work[q] in t.idx ==> Idx(t, t.path[j]) < Idx(t, work[q])
  }

  /** Children of the first m literals of the path are visited or lie above them on the working stack. */
  ghost predicate PendingOk(g: Graph, t: Dfs, work: seq<int>, pos: seq<nat>, m: int)
  {
    forall j, w :: 0 <= j < m <= |pos| && |pos| == |t.path| && Edge(g, t.path[j], w) ==> w in t.idx || Above(work, pos[j], w)
  }

  predicate Above(work: seq<int>, p: nat, w: int)
  {
    exists q :: p < q < |work| && work[q] == w
  }

  /** Popping a visited literal above the path. */
  lemma PopAbove(g: Graph, t: Dfs, work: seq<int>, pos: seq<nat>)
    requires WorkOk(g, t, work, pos) && PendingOk(g, t, work, pos, |pos|) && pos != [] && pos[|pos| - 1] < |work| - 1
    requires work[|work| - 1] in t.idx
    ensures WorkOk(g, t, work[..|work| - 1], pos) && PendingOk(g, t, work[..|work| - 1], pos, |pos|)
  {
    var n := |work| - 1;
    forall j | 0 <= j < |pos| ensures pos[j] < n { assert j < |pos| - 1 ==> pos[j] < pos[|pos| - 1]; }
    forall j, w | 0 <= j < |pos| && Edge(g, t.path[j], w)
      ensures w in t.idx || Above(work[..n], pos[j], w)
    {
      if w !in t.idx { AboveShorter(work, pos[j], w); }
    }
  }

  lemma AboveShorter(work: seq<int>, p: nat, w: int)
    requires Above(work, p, w) && w != work[|work| - 1]
    ensures Above(work[..|work| - 1], p, w)
  {
    var q :| p < q < |work| && work[q] == w;
    assert work[..|work| - 1][q] == w;
  }

  /** Popping the last literal of the path. */
  lemma PopLast(g: Graph, t: Dfs, u: Dfs, work: seq<int>, pos: seq<nat>)
    requires WorkOk(g, t, work, pos) && PendingOk(g, t, work, pos, |pos|) && pos != [] && pos[|pos| - 1] == |work| - 1
    requires u.idx == t.idx && u.path == t.path[..|t.path| - 1] && work[|work| - 1] in t.idx
    ensures var n, m := |work| - 1, |pos| - 1;
            WorkOk(g, u, work[..n], pos[..m]) && PendingOk(g, u, work[..n], pos[..m], m)
  {
    var n, m := |work| - 1, |pos| - 1;
    var less := pos[..m];
    forall j | 0 <= j < m ensures less[j] < n && less[j] == pos[j] && u.path[j] == t.path[j] { assert pos[j] < pos[m]; }
    assert m == 0 ==> pos[0] == 0;
    forall j, w | 0 <= j < m && Edge(g, u.path[j], w)
      ensures w in u.idx || Above(work[..n], less[j], w)
    {
      assert Edge(g, t.path[j], w);
      if w !in t.idx { AboveShorter(work, pos[j], w); }
    }
    forall j, q | Over(less, j, q) && q < n
      ensures Edge(g, u.path[j], work[..n][q])
    {
      assert j + 1 == m ==> q <= pos[m];
      assert Over(pos, j, q);
    }
  }

  /** Visiting the top literal for the first time. */
  lemma VisitTop(g: Graph, t: Dfs, work: seq<int>, pos: seq<nat>, n: nat)
    requires WorkOk(g, t, work, pos) && PendingOk(g, t, work, pos, |pos|) && StackOk(g, t, n)
    requires work != [] && work[|work| - 1] !in t.idx
    ensures var v := work[|work| - 1];
            var u := Visit(t, v, n + 1);
            && Next(g, t, v) && WorkOk(g, u, work, pos + [|work| - 1])
            && PendingOk(g, u, work, pos + [|work| - 1], |pos|)
  {
    var v, top := work[|work| - 1], |work| - 1;
    var u, more := Visit(t, v, n + 1), pos + [top];
    PathVisited(g, t, work, pos, n);
    VisitLater(g, t, work, pos, n);
    VisitPending(g, t, work, pos, n);
    VisitEdges(g, t, work, pos, n);
    VisitPositions(g, t, work, pos, n);
    NextTop(g, t, work, pos);
    hide StackOk, PendingOk, LaterOk, Over, Edge;
  }

  lemma NextTop(g: Graph, t: Dfs, work: seq<int>, pos: seq<nat>)
    requires WorkOk(g, t, work, pos) && work != [] && work[|work| - 1] !in t.idx
    requires forall j :: 0 <= j < |pos| ==> pos[j] < |work| - 1
    ensures Next(g, t, work[|work| - 1])
  {
    hide LaterOk;
    assert pos != [] ==> Over(pos, |pos| - 1, |work| - 1);
  }

  lemma VisitPositions(g: Graph, t: Dfs, work: seq<int>, pos: seq<nat>, n: nat)
    requires WorkOk(g, t, work, pos) && work != [] && forall j :: 0 <= j < |pos| ==> pos[j] < |work| - 1
    ensures var u, more := Visit(t, work[|work| - 1], n + 1), pos + [|work| - 1];
            && |more| == |u.path| && u.path != [] && more[0] == 0
            && (forall j :: 0 <= j < |more| ==> more[j] < |work| && work[more[j]] == u.path[j])
            && (forall i, j :: 0 <= i < j < |more| ==> more[i] < more[j])
  {
    hide LaterOk, Over, Edge;
    var u, more := Visit(t, work[|work| - 1], n + 1), pos + [|work| - 1];
    forall j | 0 <= j < |more| ensures more[j] < |work| && work[more[j]] == u.path[j] {
      if j < |pos| { assert more[j] == pos[j]; }
    }
    forall i, j | 0 <= i < j < |more| ensures more[i] < more[j] {
      assert more[i] == pos[i];
      if j < |pos| { assert more[j] == pos[j]; }
    }
  }

  lemma VisitEdges(g: Graph, t: Dfs, work: seq<int>, pos: seq<nat>, n: nat)
    requires WorkOk(g, t, work, pos) && work != []
    ensures var u, more := Visit(t, work[|work| - 1], n + 1), pos + [|work| - 1];
            forall j, q {:trigger Over(more, j, q)} :: Over(more, j, q) && q < |work| ==> Edge(g, u.path[j], work[q])
  {
    var u, more := Visit(t, work[|work| - 1], n + 1), pos + [|work| - 1];
    hide LaterOk;
    forall j, q | Over(more, j, q) && q < |work|
      ensures Edge(g, u.path[j], work[q])
    {
      assert j < |pos| && more[j] == pos[j] && u.path[j] == t.path[j];
      assert j + 1 < |pos| ==> more[j + 1] == pos[j + 1];
      assert Over(pos, j, q);
    }
  }

  lemma VisitPending(g: Graph, t: Dfs, work: seq<int>, pos: seq<nat>, n: nat)
    requires PendingOk(g, t, work, pos, |pos|) && work != [] && |pos| == |t.path|
    ensures PendingOk(g, Visit(t, work[|work| - 1], n + 1), work, pos + [|work| - 1], |pos|)
  {
    var u, more := Visit(t, work[|work| - 1], n + 1), pos + [|work| - 1];
    forall j, w | 0 <= j < |pos| && Edge(g, u.path[j], w)
      ensures w in u.idx || Above(work, more[j], w)
    {
      assert Edge(g, t.path[j], w);
    }
  }

  lemma PathVisited(g: Graph, t: Dfs, work: seq<int>, pos: seq<nat>, n: nat)
    requires WorkOk(g, t, work, pos) && StackOk(g, t, n) && work != [] && work[|work| - 1] !in t.idx
    ensures forall j :: 0 <= j < |pos| ==> t.path[j] in t.idx && Idx(t, t.path[j]) <= n && pos[j] < |work| - 1
  {
    forall j | 0 <= j < |pos|
      ensures t.path[j] in t.idx && Idx(t, t.path[j]) <= n && pos[j] < |work| - 1
    {
      assert t.path[j] in t.path;
      assert t.path[j] in t.scc;
    }
  }

  lemma VisitLater(g: Graph, t: Dfs, work: seq<int>, pos: seq<nat>, n: nat)
    requires WorkOk(g, t, work, pos) && StackOk(g, t, n) && work != [] && work[|work| - 1] !in t.idx
    ensures LaterOk(Visit(t, work[|work| - 1], n + 1), work, pos + [|work| - 1])
  {
    var v := work[|work| - 1];
    var u, more := Visit(t, v, n + 1), pos + [|work| - 1];
    PathVisited(g, t, work, pos, n);
    forall j, q | 0 <= j < |more| && more[j] < q < |work| && work[q] in u.idx
      ensures Idx(u, u.path[j]) < Idx(u, work[q])
    {
      assert j < |pos| && more[j] == pos[j] && u.path[j] == t.path[j] != v;
      if work[q] != v { assert work[q] in t.idx; }
    }
  }

  /** Pushing an unvisited child of the last literal of the path. */
  lemma PushChild(g: Graph, t: Dfs, work: seq<int>, pos: seq<nat>, c: int)
    requires WorkOk(g, t, work, pos) && pos != [] && Edge(g, t.path[|pos| - 1], c) && c in g.nodes && c !in t.idx
    requires PendingOk(g, t, work, pos, |pos| - 1)
    ensures WorkOk(g, t, work + [c], pos) && PendingOk(g, t, work + [c], pos, |pos| - 1)
    ensures forall p: nat, w :: Above(work, p, w) ==> Above(work + [c], p, w)
    ensures Above(work + [c], pos[|pos| - 1], c)
  {
    var more, m := work + [c], |pos|;
    forall p: nat, w | Above(work, p, w)
      ensures Above(more, p, w)
    {
      var q :| p < q < |work| && work[q] == w;
      assert more[q] == w;
    }
    assert more[|work|] == c;
    forall j, q | Over(pos, j, q) && q < |more|
      ensures Edge(g, t.path[j], more[q])
    {
      if q == |work| { assert j == m - 1; }
    }
  }

  // ----- Representatives -----------------------------------------------------------------------------

  /** r is in the component of v, and no literal of the component has a smaller variable. */
  ghost predicate Least(g: Graph, v: int, r: int)
  {
    Mutual(g, v, r) && forall z :: Mutual(g, v, z) ==> Abs(r) <= Abs(z)
  }

  /** Frozen variables stand for themselves. */
  ghost predicate ReprOk(g: Graph, frozen: set<int>, v: int, r: int)
  {
    if Abs(v) in frozen then r == v else Least(g, v, r)
  }

  /** The component of v was entered at a literal whose negation is not in it. */
  ghost predicate Consistent(g: Graph, v: int)
  {
    exists p :: Mutual(g, v, p) && !Mutual(g, p, -p)
  }

  /** Exactly the traversed literals have representatives. */
  ghost predicate ReprsOk(g: Graph, frozen: set<int>, reprs: map<int, int>, done: set<int>)
  {
    reprs.Keys == done && forall v :: v in done ==> ReprOk(g, frozen, v, reprs[v]) && Consistent(g, v)
  }

  /** Some literal is in the component of its negation. */
  ghost predicate Conflicting(g: Graph)
  {
    exists v :: Negated(g, v)
  }

  ghost predicate Negated(g: Graph, v: int)
  {
    v in g.nodes && Mutual(g, v, -v)
  }

  lemma ConflictAt(g: Graph, v: int)
    requires v in g.nodes && Mutual(g, v, -v)
    ensures Conflicting(g)
  {
    assert Negated(g, v);
  }

  lemma MutualTrans(g: Graph, u: int, v: int, w: int)
    requires Mutual(g, u, v) && Mutual(g, v, w)
    ensures Mutual(g, u, w) && Mutual(g, w, u)
  {
    ReachTrans(g, u, v, w);
    ReachTrans(g, w, v, u);
  }

  /** All members of a component have the least literal of its entry as least literal. */
  lemma LeastShared(g: Graph, p: int, r: int, v: int)
    requires Least(g, p, r) && Mutual(g, p, v) && !Mutual(g, p, -p)
    ensures Least(g, v, r) && Consistent(g, v)
  {
    hide Reach;
    MutualTrans(g, v, p, r);
    forall z | Mutual(g, v, z) ensures Abs(r) <= Abs(z) { MutualTrans(g, p, v, z); }
    assert Mutual(g, v, p);
  }

  // ----- The search in memory ------------------------------------------------------------------------

  class Decomposer {
    const g: Graph
    const frozen: set<int>
    var idx: map<int, nat>
    var min: map<int, nat>
    var traversed: set<int>
    var counter: nat
    var scc: seq<int>
    var work: seq<int>
    var reprs: map<int, int>
    var unsat: bool
    ghost var path: seq<int>
    ghost var pos: seq<nat>

    ghost function Now(): Dfs
      reads this
    {
      Dfs(idx, min, traversed, scc, path)
    }

    ghost predicate Valid()
      reads this
    {
      && GraphOk(g) && SearchOk(g, Now(), counter) && WorkOk(g, Now(), work, pos)
      && PendingOk(g, Now(), work, pos, |pos|) && ReprsOk(g, frozen, reprs, traversed)
    }

    constructor (graph: Graph, fixed: set<int>)
      requires GraphOk(graph)
      ensures Valid() && g == graph && frozen == fixed && work == [] && !unsat && traversed == {}
    {
      g, frozen := graph, fixed;
      idx, min, traversed, counter, scc, work := map[], map[], {}, 0, [], [];
      reprs, unsat, path, pos := map[], false, [], [];
    }

    /** The smallest minimum of a literal and its children, where traversed children do not count. */
    method ScanChildren(v: int) returns (m: nat)
      requires GraphOk(g) && StackOk(g, Now(), counter) && v in scc && forall w :: Edge(g, v, w) ==> w in idx
      ensures NewMin(g, Now(), v, m)
    {
      ghost var t := Now();
      var cs := g.succ[v];
      m := min[v];
      var k := 0;
      while k < |cs|
        invariant 0 <= k <= |cs| && m <= Min(t, v) && (forall i :: 0 <= i < k && cs[i] in t.scc ==> m <= Min(t, cs[i]))
        invariant m == Min(t, v) || exists c :: Edge(g, v, c) && c in t.scc && m == Min(t, c)
      {
        var child := cs[k];
        assert Edge(g, v, child);
        if child !in traversed && m > min[child] {
          m := min[child];
        }
        k := k + 1;
      }
    }

    /** Pushes the unvisited children of the literal just visited. */
    method PushChildren(v: int)
      requires GraphOk(g) && SearchOk(g, Now(), counter) && WorkOk(g, Now(), work, pos) && path != [] && path[|path| - 1] == v
      requires PendingOk(g, Now(), work, pos, |pos| - 1) && v in g.nodes
      modifies this`work
      ensures WorkOk(g, Now(), work, pos) && PendingOk(g, Now(), work, pos, |pos|)
    {
      hide SearchOk, PendingOk, WorkOk, Above;
      ghost var t := Now();
      WorkLength(g, t, work, pos);
      var cs := g.succ[v];
      var k := 0;
      while k < |cs|
        invariant 0 <= k <= |cs| && WorkOk(g, t, work, pos) && PendingOk(g, t, work, pos, |pos| - 1)
        invariant Pushed(idx, work, pos[|pos| - 1], cs, k)
      {
        hide Pushed;
        var child := cs[k];
        assert Edge(g, v, child) && child in g.nodes;
        if child !in idx {
          PushChild(g, t, work, pos, child);
          PushedKept(idx, work, pos[|pos| - 1], cs, k);
          work := work + [child];
        }
        PushedMore(idx, work, pos[|pos| - 1], cs, k);
        k := k + 1;
      }
      AllPushed(g, t, work, pos, v);
    }

    /** The first visit of the literal on top of the working stack. */
    method PreFix(v: int)
      requires Valid() && work != [] && work[|work| - 1] == v && v !in idx
      modifies this`idx, this`min, this`counter, this`scc, this`work, this`path, this`pos
      ensures Valid() && idx.Keys == old(idx).Keys + {v}
    {
      hide SearchOk, StackOk, WorkOk, PendingOk, ReprsOk, GraphOk;
      ghost var t := Now();
      SearchStack(g, t, counter);
      VisitTop(g, t, work, pos, counter);
      VisitOk(g, t, counter, v);
      counter := counter + 1;
      idx := idx[v := counter];
      min := min[v := counter];
      scc := scc + [v];
      path := path + [v];
      pos := pos + [|work| - 1];
      assert Now() == Visit(t, v, counter);
      NodeOf(g, t, v);
      PushChildren(v);
    }

    /** Goes down the component stack to the entry, for the literal with the smallest variable, unless the negation of
        the entry turns up. */
    method FindRepr(parent: int, ghost k: nat) returns (conflict: bool, repr: int)
      requires parent != 0 && k < |scc| && scc[k] == parent && forall i :: k < i < |scc| ==> scc[i] != parent
      ensures conflict <==> -parent in scc[k..]
      ensures !conflict ==> repr in scc[k..] && forall z :: z in scc[k..] ==> Abs(repr) <= Abs(z)
    {
      repr := parent;
      var j := |scc|;
      while true
        invariant k < j <= |scc| && (repr == parent || repr in scc[j..]) && -parent !in scc[j..]
        invariant forall z :: z in scc[j..] ==> Abs(repr) <= Abs(z)
        decreases j
      {
        j := j - 1;
        var other := scc[j];
        assert scc[j..] == [other] + scc[j + 1..];
        if other == -parent {
          assert other in scc[k..] by { assert scc[k..][j - k] == other; }
          return true, 0;
        }
        if Abs(other) < Abs(repr) {
          repr := other;
        }
        if other == parent {
          break;
        }
      }
      assert j == k && parent in scc[k..];
      conflict := false;
    }

    /** Pops the component down to its entry and records the representative. */
    method PopComponent(parent: int, repr: int, ghost k: nat)
      requires k < |scc| && scc[k] == parent && forall i :: k < i < |scc| ==> scc[i] != parent
      modifies this`scc, this`traversed, this`reprs
      ensures scc == old(scc[..k]) && traversed == old(traversed) + Members(old(scc[k..]))
      ensures reprs == Recorded(old(reprs), frozen, Members(old(scc[k..])), repr)
    {
      hide Recorded, Members, Abs;
      ghost var all, was := scc, reprs;
      assert scc[|scc|..] == [];
      RecordedNone(reprs, frozen, repr);
      while true
        invariant k < |scc| <= |all| && scc == all[..|scc|]
        invariant traversed == old(traversed) + Members(all[|scc|..]) && reprs == Recorded(was, frozen, Members(all[|scc|..]), repr)
        decreases |scc|
      {
        var other := scc[|scc| - 1];
        ghost var n := |scc| - 1;
        assert scc[..n] == all[..n] && other == all[n];
        MembersMore(all, n);
        RecordedMore(was, frozen, Members(all[n + 1..]), repr, other);
        scc := scc[..|scc| - 1];
        traversed := traversed + {other};
        reprs := reprs[other := if Abs(other) in frozen then other else repr];
        if other == parent {
          break;
        }
      }
    }

    /** A literal is finished: it becomes the entry of a component, or its minimum is recorded. */
    method PostFix(v: int)
      requires Valid() && !unsat && work != [] && work[|work| - 1] == v && v in idx && v !in traversed
      modifies this`min, this`scc, this`work, this`traversed, this`reprs, this`unsat, this`path, this`pos
      ensures |work| == |old(work)| - 1
      ensures if unsat then Conflicting(g) else Valid()
      ensures old(traversed) <= traversed
    {
      hide SearchOk, StackOk, WorkOk, PendingOk, ReprsOk, GraphOk, Finishing, NewMin;
      ghost var t := Now();
      SearchStack(g, t, counter);
      TopCases(g, t, work, pos, counter);
      var m := ScanChildren(v);
      if idx[v] == m {
        EntryTop(g, t, work, pos, counter, m);
        TakeEntry(v);
      } else {
        MinBelow(g, t, counter, v, m);
        if pos[|pos| - 1] == |work| - 1 {
          FinishingTop(g, t, work, pos, counter, m);
          FinishOk(g, t, counter, v, m);
          PopLast(g, t, Finish(t, v, m), work, pos);
          path, pos := path[..|path| - 1], pos[..|pos| - 1];
        } else {
          LowerAgain(g, t, counter, v, m);
          PopAbove(g, t, work, pos);
          LoweredWork(g, t, work[..|work| - 1], pos, v, m);
        }
        work := work[..|work| - 1];
        min := min[v := m];
      }
    }

    /** The entry of a component. */
    method TakeEntry(v: int)
      requires Valid() && !unsat && work != [] && work[|work| - 1] == v && pos != [] && pos[|pos| - 1] == |work| - 1
      requires Finishing(g, Now(), v, Idx(Now(), v)) && v in idx
      modifies this`scc, this`work, this`traversed, this`reprs, this`unsat, this`path, this`pos
      ensures work == old(work)[..|old(work)| - 1]
      ensures if unsat then Conflicting(g) else Valid()
      ensures old(traversed) <= traversed
    {
      hide SearchOk, StackOk, WorkOk, PendingOk, ReprsOk, GraphOk, Finishing, Entry, Mutual, Members, Recorded, Abs;
      ghost var t := Now();
      SearchStack(g, t, counter);
      ghost var k := EntryPosition(g, t, counter, v);
      NodeNotZero(g, t, counter, v);
      ComponentExact(g, t, counter, v, k);
      var conflict, repr := FindRepr(v, k);
      if conflict {
        unsat := true;
        work := work[..|work| - 1];
        InMembers(t.scc[k..], -v);
        ConflictAt(g, v);
        return;
      }
      InMembers(t.scc[k..], -v);
      InMembers(t.scc[k..], repr);
      assert forall z :: z in Members(t.scc[k..]) ==> z in t.scc[k..] by { AllMembers(t.scc[k..]); }
      ComponentRecorded(g, frozen, reprs, traversed, v, Members(t.scc[k..]), repr);
      FinishComponent(v, repr, k);
    }

    /** Leaves the component of an entry. */
    method FinishComponent(v: int, repr: int, ghost k: nat)
      requires Valid() && work != [] && work[|work| - 1] == v && pos != [] && pos[|pos| - 1] == |work| - 1
      requires v in idx && path != [] && k < |scc| && Entry(g, Now(), v, k) && scc[k] == v
      requires forall i :: k < i < |scc| ==> scc[i] != v
      requires ReprsOk(g, frozen, Recorded(reprs, frozen, Members(scc[k..]), repr), traversed + Members(scc[k..]))
      modifies this`scc, this`work, this`traversed, this`reprs, this`path, this`pos
      ensures work == old(work)[..|old(work)| - 1] && Valid() && old(traversed) <= traversed
    {
      hide SearchOk, WorkOk, PendingOk, ReprsOk, GraphOk, Entry, Members, Recorded;
      ghost var t := Now();
      CompleteOk(g, t, counter, v, k);
      PopLast(g, t, Complete(t, k), work, pos);
      PopComponent(v, repr, k);
      path, pos := path[..|path| - 1], pos[..|pos| - 1];
      work := work[..|work| - 1];
      assert Now() == Complete(t, k);
    }

    /** One depth first search. */
    method Search(root: int)
      requires Valid() && !unsat && work == [] && root in g.nodes && root !in traversed
      modifies this
      ensures if unsat then Conflicting(g)
              else Valid() && work == [] && root in traversed && old(traversed) <= traversed
    {
      hide SearchOk, StackOk, WorkOk, PendingOk, ReprsOk, GraphOk, Mutual;
      StartSearch(g, Now(), counter, pos, root);
      work := [root];
      while work != [] && !unsat
        invariant if unsat then Conflicting(g) else Valid()
        invariant (root in idx || work == [root]) && old(traversed) <= traversed
        decreases g.nodes - idx.Keys, |work|
      {
        var parent := work[|work| - 1];
        SearchStack(g, Now(), counter);
        if parent in traversed {
          TopTraversed(g, Now(), work, pos, counter);
          PopAbove(g, Now(), work, pos);
          work := work[..|work| - 1];
        } else if parent in idx {
          PostFix(parent);
        } else {
          TopNode(g, Now(), work, pos);
          PreFix(parent);
        }
      }
      if !unsat {
        AllTraversed(g, Now(), counter, pos);
      }
    }

    /** All searches. Unless some literal is equivalent to its negation, every literal ends up traversed, with its
        representative. */
    method Components(roots: seq<int>)
      requires Valid() && !unsat && work == [] && forall v :: v in g.nodes <==> v in roots
      modifies this
      ensures if unsat then Conflicting(g)
              else traversed == g.nodes && ReprsOk(g, frozen, reprs, g.nodes)
    {
      hide SearchOk, StackOk, WorkOk, PendingOk, ReprsOk, GraphOk, Mutual;
      var k := 0;
      while k < |roots| && !unsat
        invariant 0 <= k <= |roots|
        invariant if unsat then Conflicting(g) else Valid() && work == []
        invariant !unsat ==> forall i :: 0 <= i < k ==> roots[i] in traversed
      {
        if roots[k] !in traversed {
          Search(roots[k]);
        }
        k := k + 1;
      }
      if !unsat {
        SearchStack(g, Now(), counter);
        OnlyNodes(g, Now(), counter);
        forall v | v in g.nodes ensures v in traversed {
          var i :| 0 <= i < |roots| && roots[i] == v;
        }
      }
    }
  }

  lemma NodeOf(g: Graph, t: Dfs, v: int)
    requires Next(g, t, v)
    ensures v in g.nodes
  {
  }

  lemma SearchStack(g: Graph, t: Dfs, n: nat)
    requires SearchOk(g, t, n)
    ensures StackOk(g, t, n)
  {
  }

  lemma WorkLength(g: Graph, t: Dfs, work: seq<int>, pos: seq<nat>)
    requires WorkOk(g, t, work, pos)
    ensures |pos| == |t.path|
  {
  }

  /** The first k children are visited or above position p. */
  ghost predicate Pushed(idx: map<int, nat>, work: seq<int>, p: nat, cs: seq<int>, k: nat)
  {
    forall i :: 0 <= i < k <= |cs| ==> cs[i] in idx || Above(work, p, cs[i])
  }

  lemma PushedKept(idx: map<int, nat>, work: seq<int>, p: nat, cs: seq<int>, k: nat)
    requires Pushed(idx, work, p, cs, k) && k < |cs|
    ensures Pushed(idx, work + [cs[k]], p, cs, k)
  {
    forall i | 0 <= i < k && Above(work, p, cs[i])
      ensures Above(work + [cs[k]], p, cs[i])
    {
      var q :| p < q < |work| && work[q] == cs[i];
      assert (work + [cs[k]])[q] == cs[i];
    }
  }

  lemma PushedMore(idx: map<int, nat>, work: seq<int>, p: nat, cs: seq<int>, k: nat)
    requires Pushed(idx, work, p, cs, k) && k < |cs| && (cs[k] in idx || Above(work, p, cs[k]))
    ensures Pushed(idx, work, p, cs, k + 1)
  {
  }

  lemma AllPushed(g: Graph, t: Dfs, work: seq<int>, pos: seq<nat>, v: int)
    requires |pos| == |t.path| > 0 && t.path[|pos| - 1] == v && v in g.succ
    requires PendingOk(g, t, work, pos, |pos| - 1)
    requires Pushed(t.idx, work, pos[|pos| - 1], g.succ[v], |g.succ[v]|)
    ensures PendingOk(g, t, work, pos, |pos|)
  {
    forall j, w | 0 <= j < |pos| && Edge(g, t.path[j], w)
      ensures w in t.idx || Above(work, pos[j], w)
    {
      if j == |pos| - 1 {
        var i :| 0 <= i < |g.succ[v]| && g.succ[v][i] == w;
      }
    }
  }

  /** The representatives with those of one component added. */
  function Recorded(reprs: map<int, int>, frozen: set<int>, c: set<int>, repr: int): map<int, int>
  {
    map v | v in reprs.Keys + c :: if v in c then (if Abs(v) in frozen then v else repr) else reprs[v]
  }

  lemma RecordedNone(reprs: map<int, int>, frozen: set<int>, repr: int)
    ensures Recorded(reprs, frozen, {}, repr) == reprs && Members([]) == {}
  {
  }

  lemma InMembers(s: seq<int>, v: int)
    ensures v in Members(s) <==> v in s
  {
  }

  lemma AllMembers(s: seq<int>)
    ensures forall v :: v in Members(s) ==> v in s
  {
  }

  lemma MembersMore(s: seq<int>, n: nat)
    requires n < |s|
    ensures Members(s[n..]) == Members(s[n + 1..]) + {s[n]}
  {
    assert s[n..] == [s[n]] + s[n + 1..];
  }

  lemma RecordedMore(reprs: map<int, int>, frozen: set<int>, c: set<int>, repr: int, v: int)
    ensures Recorded(reprs, frozen, c + {v}, repr) ==
            Recorded(reprs, frozen, c, repr)[v := if Abs(v) in frozen then v else repr]
  {
  }

  lemma ComponentRecorded(g: Graph, frozen: set<int>, reprs: map<int, int>, done: set<int>, p: int, c: set<int>, repr: int)
    requires ReprsOk(g, frozen, reprs, done) && (forall z :: z in c <==> Mutual(g, p, z)) && -p !in c
    requires repr in c && forall z :: z in c ==> Abs(repr) <= Abs(z)
    ensures ReprsOk(g, frozen, Recorded(reprs, frozen, c, repr), done + c)
  {
    hide Mutual;
    assert Least(g, p, repr);
    forall v | v in c ensures Least(g, v, repr) && Consistent(g, v) { LeastShared(g, p, repr, v); }
  }

  lemma EntryPosition(g: Graph, t: Dfs, n: nat, v: int) returns (k: nat)
    requires StackOk(g, t, n) && Finishing(g, t, v, Idx(t, v))
    ensures Entry(g, t, v, k) && t.path != [] && k < |t.scc| && t.scc[k] == v
    ensures forall i :: k < i < |t.scc| ==> t.scc[i] != v
  {
    PathLast(g, t, n);
    k :| 0 <= k < |t.scc| && t.scc[k] == v;
    forall i | k < i < |t.scc| ensures t.scc[i] != v { assert Idx(t, t.scc[k]) < Idx(t, t.scc[i]); }
  }

  lemma NodeNotZero(g: Graph, t: Dfs, n: nat, v: int)
    requires GraphOk(g) && StackOk(g, t, n) && v in t.idx
    ensures v in g.nodes && v != 0
  {
  }

  /** The top of the working stack, if visited and not traversed, is the last literal of the path or a child of it that
      was finished already. */
  lemma TopCases(g: Graph, t: Dfs, work: seq<int>, pos: seq<nat>, n: nat)
    requires SearchOk(g, t, n) && WorkOk(g, t, work, pos) && PendingOk(g, t, work, pos, |pos|)
    requires work != [] && work[|work| - 1] in t.idx && work[|work| - 1] !in t.done
    ensures var v := work[|work| - 1];
            && pos != [] && |pos| == |t.path| && pos[|pos| - 1] <= |work| - 1 && v in t.scc && (forall w :: Edge(g, v, w) ==> w in t.idx)
            && (pos[|pos| - 1] < |work| - 1 ==>
                  Black(t, v) && Edge(g, t.path[|pos| - 1], v) && Idx(t, t.path[|pos| - 1]) < Idx(t, v))
  {
    hide BlackOk, LowOk, MinOk, ReachOk, StackOk, WorkOk, PendingOk, Closed;
    TopOnStack(g, t, work, pos, n);
    if pos[|pos| - 1] < |work| - 1 {
      TopBlack(g, t, work, pos, n);
      FinishedChildren(g, t, work[|work| - 1]);
    } else {
      LastChildren(g, t, work, pos);
    }
  }

  lemma TopOnStack(g: Graph, t: Dfs, work: seq<int>, pos: seq<nat>, n: nat)
    requires StackOk(g, t, n) && ReachOk(g, t) && WorkOk(g, t, work, pos)
    requires work != [] && work[|work| - 1] in t.idx && work[|work| - 1] !in t.done
    ensures pos != [] && |pos| == |t.path| && pos[|pos| - 1] <= |work| - 1 && work[|work| - 1] in t.scc
  {
    assert work[|work| - 1] in t.scc;
    hide StackOk;
    SomePath(g, t);
  }

  lemma TopBlack(g: Graph, t: Dfs, work: seq<int>, pos: seq<nat>, n: nat)
    requires StackOk(g, t, n) && WorkOk(g, t, work, pos) && pos != [] && pos[|pos| - 1] < |work| - 1
    requires work[|work| - 1] in t.idx && work[|work| - 1] in t.scc
    ensures var v := work[|work| - 1];
            Black(t, v) && Edge(g, t.path[|pos| - 1], v) && Idx(t, t.path[|pos| - 1]) < Idx(t, v)
  {
    var v, top, last := work[|work| - 1], |work| - 1, |pos| - 1;
    assert Over(pos, last, top) && pos[last] < top && work[top] in t.idx;
    PathMembers(g, t, n, t.path[last]);
  }

  lemma FinishedChildren(g: Graph, t: Dfs, v: int)
    requires BlackOk(g, t) && Black(t, v)
    ensures forall w :: Edge(g, v, w) ==> w in t.idx
  {
  }

  lemma LastChildren(g: Graph, t: Dfs, work: seq<int>, pos: seq<nat>)
    requires WorkOk(g, t, work, pos) && PendingOk(g, t, work, pos, |pos|) && pos != [] && pos[|pos| - 1] == |work| - 1
    ensures forall w :: Edge(g, work[|work| - 1], w) ==> w in t.idx
  {
    var last := |pos| - 1;
    forall w | Edge(g, work[|work| - 1], w) ensures w in t.idx {
      assert t.path[last] == work[|work| - 1];
      assert !Above(work, pos[last], w);
    }
  }

  /** A finished literal is never the entry of a component, and the minimum never exceeds the index. */
  lemma MinBelow(g: Graph, t: Dfs, n: nat, v: int, m: nat)
    requires SearchOk(g, t, n) && v in t.scc && NewMin(g, t, v, m) && m != Idx(t, v)
    ensures m < Idx(t, v)
  {
  }

  lemma FinishingTop(g: Graph, t: Dfs, work: seq<int>, pos: seq<nat>, n: nat, m: nat)
    requires SearchOk(g, t, n) && WorkOk(g, t, work, pos) && pos != [] && pos[|pos| - 1] == |work| - 1
    requires NewMin(g, t, work[|work| - 1], m) && forall w :: Edge(g, work[|work| - 1], w) ==> w in t.idx
    ensures Finishing(g, t, work[|work| - 1], m)
  {
    var last := |pos| - 1;
    if last > 0 {
      assert pos[last - 1] < pos[last];
      assert Over(pos, last - 1, pos[last]);
    }
  }

  lemma EntryTop(g: Graph, t: Dfs, work: seq<int>, pos: seq<nat>, n: nat, m: nat)
    requires SearchOk(g, t, n) && WorkOk(g, t, work, pos) && pos != []
    requires work != [] && m == Idx(t, work[|work| - 1]) && NewMin(g, t, work[|work| - 1], m)
    requires forall w :: Edge(g, work[|work| - 1], w) ==> w in t.idx
    requires pos[|pos| - 1] < |work| - 1 ==> Black(t, work[|work| - 1])
    ensures pos[|pos| - 1] == |work| - 1 && Finishing(g, t, work[|work| - 1], m)
  {
    assert pos[|pos| - 1] == |work| - 1;
    FinishingTop(g, t, work, pos, n, m);
  }

  lemma LoweredWork(g: Graph, t: Dfs, work: seq<int>, pos: seq<nat>, v: int, m: nat)
    requires WorkOk(g, t, work, pos) && PendingOk(g, t, work, pos, |pos|)
    ensures WorkOk(g, t.(min := t.min[v := m]), work, pos) && PendingOk(g, t.(min := t.min[v := m]), work, pos, |pos|)
  {
    var u := t.(min := t.min[v := m]);
    assert forall x :: Idx(u, x) == Idx(t, x);
  }

  lemma OnlyNodes(g: Graph, t: Dfs, n: nat)
    requires StackOk(g, t, n)
    ensures t.done <= g.nodes
  {
    forall v | v in t.done ensures v in g.nodes { assert v in t.idx.Keys; }
  }

  lemma SomePath(g: Graph, t: Dfs)
    requires ReachOk(g, t) && t.scc != []
    ensures t.path != []
  {
    assert t.scc[0] in t.scc;
    assert Anchored(g, t, t.scc[0]);
  }

  lemma EmptyPath(g: Graph, t: Dfs, n: nat)
    requires SearchOk(g, t, n) && t.path == []
    ensures t.scc == [] && t.idx.Keys == t.done
  {
    if t.scc != [] { SomePath(g, t); }
    assert forall v :: v in t.idx ==> v in t.scc || v in t.done;
  }

  lemma StartSearch(g: Graph, t: Dfs, n: nat, pos: seq<nat>, root: int)
    requires SearchOk(g, t, n) && WorkOk(g, t, [], pos) && PendingOk(g, t, [], pos, |pos|)
    requires root in g.nodes && root !in t.done
    ensures root !in t.idx && WorkOk(g, t, [root], pos) && PendingOk(g, t, [root], pos, |pos|)
  {
    assert pos == [];
    EmptyPath(g, t, n);
  }

  lemma AllTraversed(g: Graph, t: Dfs, n: nat, pos: seq<nat>)
    requires SearchOk(g, t, n) && WorkOk(g, t, [], pos)
    ensures t.idx.Keys == t.done
  {
    assert pos == [];
    EmptyPath(g, t, n);
  }

  lemma TopTraversed(g: Graph, t: Dfs, work: seq<int>, pos: seq<nat>, n: nat)
    requires StackOk(g, t, n) && WorkOk(g, t, work, pos) && work != [] && work[|work| - 1] in t.done
    ensures pos != [] && pos[|pos| - 1] < |work| - 1 && work[|work| - 1] in t.idx
  {
    var v := work[|work| - 1];
    assert v in work && v in t.idx;
    assert t.path[|pos| - 1] in t.path;
  }

  lemma TopNode(g: Graph, t: Dfs, work: seq<int>, pos: seq<nat>)
    requires WorkOk(g, t, work, pos) && work != []
    ensures work[|work| - 1] in g.nodes
  {
  }
}
