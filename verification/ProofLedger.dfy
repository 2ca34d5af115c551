/** What the Craig tracer knows about the clauses of a proof: a value-level view of its tables, and the
    facts that every step of a run keeps. */
module ProofLedger {
  import opened Logic
  import opened AndInverterGraph
  import opened Interpolation

  /** The node vectors of the four graphs. */
  datatype Graphs = Graphs(sym: seq<AigNode>, asym: seq<AigNode>, dualSym: seq<AigNode>, dualAsym: seq<AigNode>) {
    function Of(k: Construction): seq<AigNode>
    {
      match k
      case Symmetric => sym
      case Asymmetric => asym
      case DualSymmetric => dualSym
      case DualAsymmetric => dualAsym
    }
  }

  /** The four partial interpolants of a clause. */
  datatype CraigData = CraigData(sym: Edge, asym: Edge, dualSym: Edge, dualAsym: Edge, clauseType: ClauseType) {
    function EdgeOf(k: Construction): Edge
    {
      match k
      case Symmetric => sym
      case Asymmetric => asym
      case DualSymmetric => dualSym
      case DualAsymmetric => dualAsym
    }
  }

  ghost predicate GrownAll(g: Graphs, h: Graphs)
  {
    forall k :: Grown(g.Of(k), h.Of(k))
  }

  predicate EdgesIn(g: Graphs, data: CraigData)
  {
    forall k :: EdgeBelow(data.EdgeOf(k), |g.Of(k)|)
  }

  lemma GrownAllReflexive(g: Graphs)
    ensures GrownAll(g, g)
  {
  }

  lemma GrownAllTransitive(a: Graphs, b: Graphs, c: Graphs)
    requires GrownAll(a, b) && GrownAll(b, c)
    ensures GrownAll(a, c)
  {
    forall k ensures Grown(a.Of(k), c.Of(k)) {
      GrownTransitive(a.Of(k), b.Of(k), c.Of(k));
    }
  }

  lemma EdgesInGrown(g: Graphs, h: Graphs, data: CraigData)
    requires GrownAll(g, h) && EdgesIn(g, data)
    ensures EdgesIn(h, data)
  {
    forall k ensures EdgeBelow(data.EdgeOf(k), |h.Of(k)|) {
      assert Grown(g.Of(k), h.Of(k));
    }
  }

  // ----- The two sides -------------------------------------------------------------------------------

  /** The problem: labelled original clauses, the variable labels, and the literals currently assumed. */
  datatype Problem = Problem(labels: Labels, a: seq<Clause>, b: seq<Clause>, assumed: set<int>)

  ghost predicate LeftTrue(k: Construction, p: Problem, s: Assignment)
  {
    && CnfTrue(s, p.a)
    && forall l :: l in p.assumed && AssumedLeft(k, TypeOf(p.labels, l)) ==> LitTrue(s, l)
  }

  ghost predicate RightTrue(k: Construction, p: Problem, s: Assignment)
  {
    && CnfTrue(s, p.b)
    && forall l :: l in p.assumed && AssumedRight(k, TypeOf(p.labels, l)) ==> LitTrue(s, l)
  }

  /** The edge is a partial interpolant of the clause in system k, under every assignment. */
  ghost predicate Sound(k: Construction, p: Problem, nodes: seq<AigNode>, c: set<int>, e: Edge)
  {
    forall s :: Partial(k, p.labels, s, LeftTrue(k, p, s), RightTrue(k, p, s), c, Eval(nodes, e, s))
  }

  /** The interpolant condition: implied by the A side, inconsistent with the B side. */
  ghost predicate Separates(k: Construction, p: Problem, nodes: seq<AigNode>, e: Edge)
  {
    && (forall s :: LeftTrue(k, p, s) ==> Stored(k, Eval(nodes, e, s)))
    && (forall s :: !(RightTrue(k, p, s) && Stored(k, Eval(nodes, e, s))))
  }

  lemma SoundEmpty(k: Construction, p: Problem, nodes: seq<AigNode>, e: Edge)
    requires Sound(k, p, nodes, {}, e)
    ensures Separates(k, p, nodes, e)
  {
    forall s ensures (LeftTrue(k, p, s) ==> Stored(k, Eval(nodes, e, s))) &&
                     !(RightTrue(k, p, s) && Stored(k, Eval(nodes, e, s))) {
      assert Partial(k, p.labels, s, LeftTrue(k, p, s), RightTrue(k, p, s), {}, Eval(nodes, e, s));
      EmptyPartial(k, p.labels, s, LeftTrue(k, p, s), RightTrue(k, p, s), Eval(nodes, e, s));
    }
  }

  lemma SoundGrown(k: Construction, p: Problem, nodes: seq<AigNode>, more: seq<AigNode>, c: set<int>, e: Edge)
    requires Grown(nodes, more) && EdgeBelow(e, |nodes|) && Sound(k, p, nodes, c, e)
    ensures Sound(k, p, more, c, e)
  {
    forall s ensures Partial(k, p.labels, s, LeftTrue(k, p, s), RightTrue(k, p, s), c, Eval(more, e, s)) {
      assert Eval(more, e, s) == Eval(nodes, e, s);
    }
  }

  lemma SoundWeaken(k: Construction, p: Problem, nodes: seq<AigNode>, c: set<int>, d: set<int>, e: Edge)
    requires c <= d && Sound(k, p, nodes, c, e)
    ensures Sound(k, p, nodes, d, e)
  {
    forall s ensures Partial(k, p.labels, s, LeftTrue(k, p, s), RightTrue(k, p, s), d, Eval(nodes, e, s)) {
      WeakenPartial(k, p.labels, s, LeftTrue(k, p, s), RightTrue(k, p, s), c, d, Eval(nodes, e, s));
    }
  }

  /** The negations of all literals are assumed where the system needs them. */
  ghost predicate Discharges(k: Construction, p: Problem, c: set<int>)
  {
    forall l :: l in c ==> l != 0 && -l in p.assumed && Discharged(k, TypeOf(p.labels, l))
  }

  /** Such literals may be dropped from a clause without touching its partial interpolant. */
  lemma SoundDischarged(k: Construction, p: Problem, nodes: seq<AigNode>, c: set<int>, e: Edge)
    requires Sound(k, p, nodes, c, e) && Discharges(k, p, c)
    ensures Sound(k, p, nodes, {}, e)
  {
    forall s ensures Partial(k, p.labels, s, LeftTrue(k, p, s), RightTrue(k, p, s), {}, Eval(nodes, e, s)) {
      forall l | l in c ensures LitTrue(s, -l) <==> !LitTrue(s, l) { LitNegation(s, l); }
      forall l | l in c ensures TypeOf(p.labels, -l) == TypeOf(p.labels, l) {}
      assert LeftTrue(k, p, s) ==> FalseLeft(k, p.labels, s, c) by {
        forall l | l in c && OnLeft(k, TypeOf(p.labels, l)) && LeftTrue(k, p, s) ensures !LitTrue(s, l) {
          assert -l in p.assumed && AssumedLeft(k, TypeOf(p.labels, -l));
        }
      }
      assert RightTrue(k, p, s) ==> FalseRight(k, p.labels, s, c) by {
        forall l | l in c && OnRight(k, TypeOf(p.labels, l)) && RightTrue(k, p, s) ensures !LitTrue(s, l) {
          assert -l in p.assumed && AssumedRight(k, TypeOf(p.labels, -l));
        }
      }
      assert Partial(k, p.labels, s, LeftTrue(k, p, s), RightTrue(k, p, s), c, Eval(nodes, e, s));
    }
  }

  /** The edge separates whenever it is sound for a clause of one literal of type t whose negation is assumed. */
  ghost predicate DroppingSeparates(k: Construction, t: VarType)
  {
    forall p: Problem, nodes, l, e :: l != 0 && -l in p.assumed && TypeOf(p.labels, l) == t && Sound(k, p, nodes, {l}, e) ==>
      Separates(k, p, nodes, e)
  }

  /** A literal whose negation is assumed may be dropped, for every problem and every sound edge, exactly if its variable is
      not global or the system is one of the two asymmetric ones. */
  lemma DischargedExactly(k: Construction, t: VarType)
    ensures DroppingSeparates(k, t) <==> !(t == Global && (k == Symmetric || k == DualSymmetric))
  {
    hide Sound, Separates;
    if Discharged(k, t) {
      forall p: Problem, nodes, l, e | l != 0 && -l in p.assumed && TypeOf(p.labels, l) == t && Sound(k, p, nodes, {l}, e)
        ensures Separates(k, p, nodes, e)
      {
        SoundDischarged(k, p, nodes, {l}, e);
        SoundEmpty(k, p, nodes, e);
      }
    } else {
      var e := if k == Symmetric then FALSE_EDGE else TRUE_EDGE;
      GlobalLost(k);
      assert - -1 in OneAssumption().assumed;
      assert Sound(k, OneAssumption(), [], {-1}, e);
    }
  }

  /** One global variable, assumed to be true and false by the only clause of the A side. */
  function OneAssumption(): Problem
  {
    Problem(map[1 := Global], [[-1]], [], {1})
  }

  /** In the two symmetric systems the starting edge of the clause is sound and does not separate: the assumption counts on
      the B side only. */
  lemma GlobalLost(k: Construction)
    requires k == Symmetric || k == DualSymmetric
    ensures var e := if k == Symmetric then FALSE_EDGE else TRUE_EDGE;
            Sound(k, OneAssumption(), [], {-1}, e) && !Separates(k, OneAssumption(), [], e)
  {
    var p, e := OneAssumption(), if k == Symmetric then FALSE_EDGE else TRUE_EDGE;
    assert Lits([-1]) == {-1};
    SoundOriginal(k, p, [], [-1], AClause, e);
    var s: Assignment := iset{};
    assert ClauseTrue(s, [-1]) by { assert -1 in [-1] && LitTrue(s, -1); }
    assert LeftTrue(k, p, s) && !Stored(k, Eval([], e, s));
  }

  /** The problem only gained clauses, labels of new variables and assumptions. */
  ghost predicate Extends(p: Problem, q: Problem)
  {
    && (forall v :: v in p.labels ==> v in q.labels && q.labels[v] == p.labels[v])
    && (forall c :: c in p.a ==> c in q.a) && (forall c :: c in p.b ==> c in q.b)
    && p.assumed <= q.assumed
    && (forall l :: l in p.assumed ==> Abs(l) in p.labels)
  }

  lemma SoundExtends(k: Construction, p: Problem, q: Problem, nodes: seq<AigNode>, c: set<int>, e: Edge)
    requires Extends(p, q) && Sound(k, p, nodes, c, e) && forall l :: l in c ==> Abs(l) in p.labels
    ensures Sound(k, q, nodes, c, e)
  {
    forall s ensures Partial(k, q.labels, s, LeftTrue(k, q, s), RightTrue(k, q, s), c, Eval(nodes, e, s)) {
      assert LeftTrue(k, q, s) ==> LeftTrue(k, p, s);
      assert RightTrue(k, q, s) ==> RightTrue(k, p, s);
      assert Partial(k, p.labels, s, LeftTrue(k, p, s), RightTrue(k, p, s), c, Eval(nodes, e, s));
      assert FalseLeft(k, q.labels, s, c) ==> FalseLeft(k, p.labels, s, c);
      assert FalseRight(k, q.labels, s, c) ==> FalseRight(k, p.labels, s, c);
    }
  }

  /** The new edge combines two old ones by the rule for the pivot. */
  ghost predicate Combines(k: Construction, labels: Labels, nodes: seq<AigNode>, pivot: int, first: Edge, second: Edge,
                           e: Edge)
  {
    forall s :: Eval(nodes, e, s) ==
                Combine(k, TypeOf(labels, pivot), LitTrue(s, pivot), Eval(nodes, first, s), Eval(nodes, second, s))
  }

  lemma SoundResolve(k: Construction, p: Problem, nodes: seq<AigNode>, c: set<int>, pivot: int, d: set<int>,
                     first: Edge, second: Edge, e: Edge)
    requires pivot != 0 && Sound(k, p, nodes, c, first) && Sound(k, p, nodes, d, second)
    requires Combines(k, p.labels, nodes, pivot, first, second, e)
    ensures Sound(k, p, nodes, Resolvent(c, pivot, d), e)
  {
    forall s ensures Partial(k, p.labels, s, LeftTrue(k, p, s), RightTrue(k, p, s), Resolvent(c, pivot, d), Eval(nodes, e, s)) {
      ResolvePartial(k, p.labels, s, LeftTrue(k, p, s), RightTrue(k, p, s), c, pivot, d,
                     Eval(nodes, first, s), Eval(nodes, second, s));
    }
  }

  lemma SoundOriginal(k: Construction, p: Problem, nodes: seq<AigNode>, c: Clause, kind: ClauseType, e: Edge)
    requires RespectsLabel(p.labels, c, kind)
    requires (kind == AClause ==> c in p.a) && (kind == BClause ==> c in p.b)
    requires forall s :: Eval(nodes, e, s) == ClauseValue(k, p.labels, c, kind, s)
    ensures Sound(k, p, nodes, Lits(c), e)
  {
    forall s ensures Partial(k, p.labels, s, LeftTrue(k, p, s), RightTrue(k, p, s), Lits(c), Eval(nodes, e, s)) {
      OriginalPartial(k, p.labels, c, kind, s, LeftTrue(k, p, s), RightTrue(k, p, s));
    }
  }

  lemma SoundAssumption(k: Construction, p: Problem, nodes: seq<AigNode>, lit: int, e: Edge)
    requires lit in p.assumed
    requires forall s :: Eval(nodes, e, s) == AssumptionValue(k, TypeOf(p.labels, lit))
    ensures Sound(k, p, nodes, {lit}, e)
  {
    forall s ensures Partial(k, p.labels, s, LeftTrue(k, p, s), RightTrue(k, p, s), {lit}, Eval(nodes, e, s)) {
      AssumptionPartial(k, p.labels, lit, s, LeftTrue(k, p, s), RightTrue(k, p, s));
    }
  }

  // ----- All enabled systems at once -----------------------------------------------------------------

  /** Every enabled system is sound for the clause, and the dual symmetric edge negates the symmetric one. */
  ghost predicate AllSound(enabled: set<Construction>, p: Problem, g: Graphs, c: set<int>, data: CraigData)
  {
    && EdgesIn(g, data)
    && (forall k :: k in enabled ==> Sound(k, p, g.Of(k), c, data.EdgeOf(k)))
    && Mirrored(enabled, g, data)
  }

  ghost predicate Mirrored(enabled: set<Construction>, g: Graphs, data: CraigData)
  {
    Symmetric in enabled && DualSymmetric in enabled ==>
      forall s :: Eval(g.dualSym, data.dualSym, s) == !Eval(g.sym, data.sym, s)
  }

  lemma AllSoundEdges(enabled: set<Construction>, p: Problem, g: Graphs, c: set<int>, data: CraigData)
    requires AllSound(enabled, p, g, c, data)
    ensures EdgesIn(g, data)
  {
  }

  lemma MirroredGrown(enabled: set<Construction>, g: Graphs, h: Graphs, data: CraigData)
    requires GrownAll(g, h) && EdgesIn(g, data) && Mirrored(enabled, g, data)
    ensures Mirrored(enabled, h, data)
  {
    assert Grown(g.Of(Symmetric), h.Of(Symmetric)) && EdgeBelow(data.EdgeOf(Symmetric), |g.Of(Symmetric)|);
    assert Grown(g.Of(DualSymmetric), h.Of(DualSymmetric)) && EdgeBelow(data.EdgeOf(DualSymmetric), |g.Of(DualSymmetric)|);
  }

  lemma AllSoundGrown(enabled: set<Construction>, p: Problem, g: Graphs, h: Graphs, c: set<int>, data: CraigData)
    requires GrownAll(g, h) && AllSound(enabled, p, g, c, data)
    ensures AllSound(enabled, p, h, c, data)
  {
    EdgesInGrown(g, h, data);
    forall k | k in enabled ensures Sound(k, p, h.Of(k), c, data.EdgeOf(k)) {
      assert Grown(g.Of(k), h.Of(k)) && EdgeBelow(data.EdgeOf(k), |g.Of(k)|);
      SoundGrown(k, p, g.Of(k), h.Of(k), c, data.EdgeOf(k));
    }
    MirroredGrown(enabled, g, h, data);
  }

  lemma AllSoundWeaken(enabled: set<Construction>, p: Problem, g: Graphs, c: set<int>, d: set<int>, data: CraigData)
    requires c <= d && AllSound(enabled, p, g, c, data)
    ensures AllSound(enabled, p, g, d, data)
  {
    forall k | k in enabled ensures Sound(k, p, g.Of(k), d, data.EdgeOf(k)) {
      SoundWeaken(k, p, g.Of(k), c, d, data.EdgeOf(k));
    }
  }

  lemma AllSoundExtends(enabled: set<Construction>, p: Problem, q: Problem, g: Graphs, c: set<int>, data: CraigData)
    requires Extends(p, q) && AllSound(enabled, p, g, c, data) && forall l :: l in c ==> Abs(l) in p.labels
    ensures AllSound(enabled, q, g, c, data)
  {
    forall k | k in enabled ensures Sound(k, q, g.Of(k), c, data.EdgeOf(k)) {
      SoundExtends(k, p, q, g.Of(k), c, data.EdgeOf(k));
    }
  }

  /** What one resolution does to the four partial interpolants of the running clause. */
  ghost predicate Extended(enabled: set<Construction>, labels: Labels, g: Graphs, first: CraigData, pivot: int,
                           second: CraigData, data: CraigData)
  {
    && EdgesIn(g, data)
    && forall k :: k in enabled ==>
         Combines(k, labels, g.Of(k), pivot, first.EdgeOf(k), second.EdgeOf(k), data.EdgeOf(k))
  }

  /** One resolution keeps all enabled systems sound at once. */
  lemma AllSoundResolve(enabled: set<Construction>, p: Problem, g: Graphs, c: set<int>, pivot: int, d: set<int>,
                        first: CraigData, second: CraigData, data: CraigData)
    requires pivot != 0 && AllSound(enabled, p, g, c, first) && AllSound(enabled, p, g, d, second)
    requires Extended(enabled, p.labels, g, first, pivot, second, data)
    ensures AllSound(enabled, p, g, Resolvent(c, pivot, d), data)
  {
    forall k | k in enabled ensures Sound(k, p, g.Of(k), Resolvent(c, pivot, d), data.EdgeOf(k)) {
      SoundResolve(k, p, g.Of(k), c, pivot, d, first.EdgeOf(k), second.EdgeOf(k), data.EdgeOf(k));
    }
    if Symmetric in enabled && DualSymmetric in enabled {
      assert Combines(Symmetric, p.labels, g.Of(Symmetric), pivot, first.EdgeOf(Symmetric), second.EdgeOf(Symmetric),
                      data.EdgeOf(Symmetric));
      assert Combines(DualSymmetric, p.labels, g.Of(DualSymmetric), pivot, first.EdgeOf(DualSymmetric),
                      second.EdgeOf(DualSymmetric), data.EdgeOf(DualSymmetric));
    }
  }

  // ----- The table of clauses ------------------------------------------------------------------------

  /** How long an entry may be used: assumption clauses end with the assumptions they rest on. */
  datatype Status = Permanent | Tentative | Expired

  /** The problem an entry is sound for: only tentative entries rest on the current assumptions. */
  function Under(p: Problem, st: Status): Problem
  {
    if st == Tentative then p else p.(assumed := {})
  }

  ghost predicate EntryOk(enabled: set<Construction>, p: Problem, g: Graphs, st: Status, c: Clause, data: CraigData)
  {
    && EdgesIn(g, data)
    && (st != Expired ==> AllSound(enabled, Under(p, st), g, Lits(c), data))
  }

  predicate LabelledClause(labels: Labels, c: Clause)
  {
    forall l :: l in c ==> l != 0 && Abs(l) in labels
  }

  ghost predicate TableOk(enabled: set<Construction>, p: Problem, g: Graphs, status: seq<Status>,
                          contents: seq<Clause>, table: seq<CraigData>)
  {
    && |status| == |contents| == |table|
    && (forall i :: 0 <= i < |table| ==> EntryOk(enabled, p, g, status[i], contents[i], table[i]))
    && (forall i :: 0 <= i < |table| ==> LabelledClause(p.labels, contents[i]))
  }

  lemma TableGrown(enabled: set<Construction>, p: Problem, g: Graphs, h: Graphs, status: seq<Status>,
                   contents: seq<Clause>, table: seq<CraigData>)
    requires GrownAll(g, h) && TableOk(enabled, p, g, status, contents, table)
    ensures TableOk(enabled, p, h, status, contents, table)
  {
    forall i | 0 <= i < |table|
      ensures EntryOk(enabled, p, h, status[i], contents[i], table[i])
    {
      assert EntryOk(enabled, p, g, status[i], contents[i], table[i]);
      EdgesInGrown(g, h, table[i]);
      if status[i] != Expired {
        AllSoundGrown(enabled, Under(p, status[i]), g, h, Lits(contents[i]), table[i]);
      }
    }
  }

  lemma TableExtends(enabled: set<Construction>, p: Problem, q: Problem, g: Graphs, status: seq<Status>,
                     contents: seq<Clause>, table: seq<CraigData>)
    requires Extends(p, q) && TableOk(enabled, p, g, status, contents, table)
    ensures TableOk(enabled, q, g, status, contents, table)
  {
    forall i | 0 <= i < |table|
      ensures EntryOk(enabled, q, g, status[i], contents[i], table[i]) && LabelledClause(q.labels, contents[i])
    {
      assert EntryOk(enabled, p, g, status[i], contents[i], table[i]) && LabelledClause(p.labels, contents[i]);
      if status[i] != Expired {
        assert Extends(Under(p, status[i]), Under(q, status[i]));
        AllSoundExtends(enabled, Under(p, status[i]), Under(q, status[i]), g, Lits(contents[i]), table[i]);
      }
    }
  }

  /** The labels differ at the variable only. */
  ghost predicate Relabels(p: Problem, q: Problem, id: int)
  {
    q == p.(labels := q.labels) && forall v :: v != id ==> (v in p.labels <==> v in q.labels) && (v in p.labels ==> q.labels[v] == p.labels[v])
  }

  lemma SoundRelabels(k: Construction, p: Problem, q: Problem, nodes: seq<AigNode>, c: set<int>, e: Edge, id: int)
    requires Relabels(p, q, id) && Sound(k, p, nodes, c, e)
    requires (forall l :: l in c ==> Abs(l) != id) && forall l :: l in p.assumed ==> Abs(l) != id
    ensures Sound(k, q, nodes, c, e)
  {
    forall l | l in c || l in p.assumed ensures TypeOf(p.labels, l) == TypeOf(q.labels, l) {}
    forall s ensures Partial(k, q.labels, s, LeftTrue(k, q, s), RightTrue(k, q, s), c, Eval(nodes, e, s)) {
      assert Partial(k, p.labels, s, LeftTrue(k, p, s), RightTrue(k, p, s), c, Eval(nodes, e, s));
      assert LeftTrue(k, q, s) <==> LeftTrue(k, p, s);
      assert RightTrue(k, q, s) <==> RightTrue(k, p, s);
      assert FalseLeft(k, q.labels, s, c) <==> FalseLeft(k, p.labels, s, c);
      assert FalseRight(k, q.labels, s, c) <==> FalseRight(k, p.labels, s, c);
    }
  }

  /** The label of a variable that no entry and no assumption uses may change. */
  lemma TableRelabels(enabled: set<Construction>, p: Problem, q: Problem, g: Graphs, status: seq<Status>,
                      contents: seq<Clause>, table: seq<CraigData>, id: int)
    requires Relabels(p, q, id) && TableOk(enabled, p, g, status, contents, table)
    requires (forall i, l :: 0 <= i < |contents| && l in contents[i] ==> Abs(l) != id) && forall l :: l in p.assumed ==> Abs(l) != id
    ensures TableOk(enabled, q, g, status, contents, table)
  {
    hide Sound;
    forall i | 0 <= i < |table|
      ensures EntryOk(enabled, q, g, status[i], contents[i], table[i]) && LabelledClause(q.labels, contents[i])
    {
      assert EntryOk(enabled, p, g, status[i], contents[i], table[i]) && LabelledClause(p.labels, contents[i]);
      if status[i] != Expired {
        forall k | k in enabled ensures Sound(k, Under(q, status[i]), g.Of(k), Lits(contents[i]), table[i].EdgeOf(k)) {
          SoundRelabels(k, Under(p, status[i]), Under(q, status[i]), g.Of(k), Lits(contents[i]), table[i].EdgeOf(k), id);
        }
      }
    }
  }

  lemma TableAppend(enabled: set<Construction>, p: Problem, g: Graphs, status: seq<Status>, contents: seq<Clause>,
                    table: seq<CraigData>, st: Status, c: Clause, data: CraigData)
    requires TableOk(enabled, p, g, status, contents, table)
    requires EntryOk(enabled, p, g, st, c, data) && LabelledClause(p.labels, c)
    ensures TableOk(enabled, p, g, status + [st], contents + [c], table + [data])
  {
  }

  /** Dropping the assumptions ends the tentative entries and leaves the others alone. */
  lemma TableReset(enabled: set<Construction>, p: Problem, g: Graphs, status: seq<Status>, contents: seq<Clause>,
                   table: seq<CraigData>, status': seq<Status>)
    requires TableOk(enabled, p, g, status, contents, table) && |status'| == |status|
    requires forall i :: 0 <= i < |status| ==> status'[i] == if status[i] == Tentative then Expired else status[i]
    ensures TableOk(enabled, p.(assumed := {}), g, status', contents, table)
  {
    forall i | 0 <= i < |table|
      ensures EntryOk(enabled, p.(assumed := {}), g, status'[i], contents[i], table[i])
    {
      assert EntryOk(enabled, p, g, status[i], contents[i], table[i]);
    }
  }
}
