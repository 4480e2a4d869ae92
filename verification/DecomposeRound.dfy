/** One round of equivalent literal substitution: components, substitution in
    all clauses, and what is pushed on the extension stack.  The round is a
    valid reconstruction step. */
module DecomposeRound {
  import opened Logic
  import opened Extension
  import opened Reconstruction
  import opened Substitution
  import IG = ImplicationGraph
  import C = Components
  import D = Decompose
  import T = Tarjan

  /** The representatives of variables that are still active. */
  ghost function StillActive(reprs: map<int, int>, fixed: set<int>): map<int, int> {
    map l | l in reprs && l !in fixed && -l !in fixed :: reprs[l]
  }

  /** The variables for which something is pushed, in order. */
  ghost function Substituted(vars: seq<int>, reprs: map<int, int>): seq<int> {
    if vars == [] then []
    else
      var v := vars[|vars| - 1];
      Substituted(vars[..|vars| - 1], reprs) + if Representative(reprs, v) != v then [v] else []
  }

  lemma {:induction false} SubstitutedMembers(vars: seq<int>, reprs: map<int, int>)
    requires NoDup(vars)
    ensures NoDup(Substituted(vars, reprs))
    ensures forall v :: v in Substituted(vars, reprs) <==> v in vars && Representative(reprs, v) != v
  {
    if vars != [] {
      var rest, v := vars[..|vars| - 1], vars[|vars| - 1];
      SubstitutedMembers(rest, reprs);
      assert vars == rest + [v] && v !in rest;
    }
  }

  /** Fixed literals come with their representatives. */
  ghost predicate FixedOk(reprs: map<int, int>, fixed: set<int>) {
    forall u {:trigger u in fixed} :: u in fixed ==> u != 0 && -u !in fixed && Representative(reprs, u) in fixed
  }

  lemma StillActiveSubstitutes(reprs: map<int, int>, fixed: set<int>)
    requires Substitutes(reprs)
    ensures Substitutes(StillActive(reprs, fixed))
  {
    var rs := StillActive(reprs, fixed);
    forall l ensures Representative(rs, -l) == -Representative(rs, l)
             ensures Representative(rs, Representative(rs, l)) == Representative(rs, l) {
      assert Representative(reprs, -l) == -Representative(reprs, l);
      assert Representative(reprs, Representative(reprs, l)) == Representative(reprs, l);
      assert Representative(reprs, -(-l)) == -Representative(reprs, -l);
      if l in reprs && -l !in reprs {
        assert reprs[l] == l;
      }
      if -l in reprs && l !in reprs {
        assert reprs[-l] == -l;
      }
    }
  }

  lemma FixedImage(m: Model, reprs: map<int, int>, fixed: set<int>, c: Clause)
    requires Substitutes(reprs) && FixedOk(reprs, fixed) && UnitsHold(m, fixed) && NonZero(c) && ImageHolds(m, reprs, c)
    ensures ImageHolds(m, StillActive(reprs, fixed), c)
  {
    var rs := StillActive(reprs, fixed);
    var l :| l in c && Holds(m, Representative(reprs, l));
    assert Representative(reprs, -l) == -Representative(reprs, l);
    assert Representative(reprs, -(-l)) == -Representative(reprs, -l);
    assert -l in fixed ==> Holds(m, Representative(reprs, -l));
    assert Representative(reprs, l) != 0;
    assert Representative(reprs, l) in fixed ==> Holds(m, Representative(reprs, l));
    assert Holds(m, Representative(rs, l));
  }

  /** The round is a valid substitution step for every later set of fixed
      literals that propagation closes. */
  lemma SubstitutionIsValid(reprs: map<int, int>, vars: seq<int>, fixed: set<int>,
                            us: set<int>, cs: seq<Clause>, gs: set<nat>, f: Formula, g: Formula)
    requires Substitutes(reprs) && FixedOk(reprs, fixed) && us <= fixed
    requires NoDup(vars) && (forall v :: v in vars ==> v > 0) && forall l :: l in reprs ==> Abs(l) in vars
    requires forall c :: c in f ==> NonZero(c)
    requires forall c :: c in f ==> (|c| == 1 && c[0] in us) || exists i :: 0 <= i < |cs| && i !in gs && cs[i] == c
    requires forall m :: Models(m, g) ==> UnitsHold(m, fixed) && ImagesHold(m, reprs, us, cs, gs, |cs|)
    ensures var rs := StillActive(reprs, fixed);
            ValidSubstitution(f, rs, Substituted(vars, rs), g)
  {
    var rs := StillActive(reprs, fixed);
    StillActiveSubstitutes(reprs, fixed);
    SubstitutedMembers(vars, rs);
    forall m, c | Models(m, g) && c in f ensures exists l :: l in c && Holds(m, Representative(rs, l)) {
      if |c| == 1 && c[0] in us {
        assert c[0] in c && c[0] in fixed && Holds(m, c[0]) && Representative(rs, c[0]) == c[0];
      } else {
        var i :| 0 <= i < |cs| && i !in gs && cs[i] == c;
        assert ImagesHold(m, reprs, us, cs, gs, |cs|) && ImageHolds(m, reprs, c);
        FixedImage(m, reprs, fixed, c);
        assert ImageHolds(m, rs, c);
      }
    }
    SubstitutesFacts(rs);
    hide Substitutes;
    hide ImageHolds;
    hide ImagesHold;
    hide UnitsHold;
    hide NonZero;
    hide FixedOk;
    forall v | v > 0 ensures v in Substituted(vars, rs) <==> Representative(rs, v) != v {
      assert v in rs ==> v in reprs;
    }
  }

  lemma SubstitutesFacts(reprs: map<int, int>)
    requires Substitutes(reprs)
    ensures forall l :: l in reprs ==> l != 0 && reprs[l] != 0
    ensures forall l :: Representative(reprs, -l) == -Representative(reprs, l)
    ensures forall l :: Representative(reprs, Representative(reprs, l)) == Representative(reprs, l)
  {
  }

  /** What the first `i` variables push. */
  ghost function PushedFor(vars: seq<int>, rs: map<int, int>): seq<int> {
    Flat(SubstitutionEntries(rs, Substituted(vars, rs)))
  }

  ghost function BothEntries(idx: int, other: int): seq<int> {
    FlatEntry(Entry([-idx], [-idx, other])) + FlatEntry(Entry([idx], [idx, -other]))
  }

  /** Pushes the two implications of every substituted variable. */
  method PushEquivalences(external: External, vars: seq<int>, reprs: map<int, int>, fixed: set<int>)
    modifies external`extension, external`witnesses
    ensures external.extension == old(external.extension) + PushedFor(vars, StillActive(reprs, fixed))
  {
    ghost var rs := StillActive(reprs, fixed);
    hide PushedFor;
    hide BothEntries;
    PushedNone(rs);
    for i := 0 to |vars|
      invariant external.extension == old(external.extension) + PushedFor(vars[..i], rs)
    {
      var idx := vars[i];
      PushedNext(rs, vars[..i], idx);
      assert vars[..i + 1] == vars[..i] + [idx];
      if idx in reprs && idx !in fixed && -idx !in fixed {
        var other := reprs[idx];
        if other != idx {
          PushPair(external, idx, other);
        }
      }
    }
    assert vars[..|vars|] == vars;
  }

  method PushPair(external: External, idx: int, other: int)
    modifies external`extension, external`witnesses
    ensures external.extension == old(external.extension) + BothEntries(idx, other)
  {
    external.PushBinaryClauseOnExtensionStack(-idx, other);
    external.PushBinaryClauseOnExtensionStack(idx, -other);
  }

  lemma PushedNone(rs: map<int, int>)
    ensures PushedFor([], rs) == []
  {
  }

  lemma PushedNext(rs: map<int, int>, vars: seq<int>, idx: int)
    ensures var other := Representative(rs, idx);
            PushedFor(vars + [idx], rs) == PushedFor(vars, rs) + if other == idx then [] else BothEntries(idx, other)
  {
    assert (vars + [idx])[..|vars|] == vars;
    var idxs := Substituted(vars, rs);
    if Representative(rs, idx) != idx {
      PushedPair(rs, idxs, idx);
    } else {
      assert Substituted(vars + [idx], rs) == idxs;
    }
  }

  lemma FlatTwo(before: seq<Entry>, e0: Entry, e1: Entry)
    ensures Flat(before + [e0, e1]) == Flat(before) + FlatEntry(e0) + FlatEntry(e1)
  {
    hide FlatEntry;
    hide Flat;
    assert before + [e0, e1] == before + [e0] + [e1];
    FlatConcat(before + [e0], [e1]);
    FlatConcat(before, [e0]);
    FlatOne(e0);
    FlatOne(e1);
  }

  lemma PushedPair(rs: map<int, int>, idxs: seq<int>, idx: int)
    ensures var other := Representative(rs, idx);
            Flat(SubstitutionEntries(rs, idxs + [idx])) ==
            Flat(SubstitutionEntries(rs, idxs)) + FlatEntry(Entry([-idx], [-idx, other])) + FlatEntry(Entry([idx], [idx, -other]))
  {
    var other := Representative(rs, idx);
    var e0, e1 := Entry([-idx], [-idx, other]), Entry([idx], [idx, -other]);
    assert (idxs + [idx])[..|idxs|] == idxs;
    var before := SubstitutionEntries(rs, idxs);
    assert SubstitutionEntries(rs, idxs + [idx]) == before + [e0, e1];
    hide SubstitutionEntries;
    hide FlatEntry;
    hide Flat;
    FlatTwo(before, e0, e1);
  }

  /** Both implications of every variable in `idxs`, in order. */
  ghost predicate PairsPushed(idxs: seq<int>, reprs: map<int, int>, entries: seq<Entry>) {
    && |entries| == 2 * |idxs|
    && forall k {:trigger idxs[k]} :: 0 <= k < |idxs| ==> PairAt(idxs[k], reprs, entries, 2 * k)
  }

  ghost predicate PairAt(idx: int, reprs: map<int, int>, entries: seq<Entry>, at: int) {
    && 0 <= at < |entries| - 1 && idx in reprs
    && entries[at] == Entry([-idx], [-idx, reprs[idx]]) && entries[at + 1] == Entry([idx], [idx, -reprs[idx]])
  }

  /** Exactly the substituted variables that are still unassigned are pushed. */
  ghost predicate PushedExactly(vars: seq<int>, reprs: map<int, int>, fixed: set<int>, entries: seq<Entry>) {
    exists idxs :: NoDup(idxs) && PairsPushed(idxs, reprs, entries) && Unassigned(vars, reprs, fixed, idxs)
  }

  ghost predicate Unassigned(vars: seq<int>, reprs: map<int, int>, fixed: set<int>, idxs: seq<int>) {
    forall v :: v in idxs <==> v in vars && v in reprs && reprs[v] != v && v !in fixed && -v !in fixed
  }

  lemma {:induction false} EntriesArePairs(reprs: map<int, int>, fixed: set<int>, idxs: seq<int>)
    requires forall v :: v in idxs ==> v in StillActive(reprs, fixed)
    ensures PairsPushed(idxs, reprs, SubstitutionEntries(StillActive(reprs, fixed), idxs))
  {
    if idxs != [] {
      var rs, n := StillActive(reprs, fixed), |idxs| - 1;
      var rest := idxs[..n];
      EntriesArePairs(reprs, fixed, rest);
      var before, entries := SubstitutionEntries(rs, rest), SubstitutionEntries(rs, idxs);
      assert entries == before + BothImplications(rs, idxs[n]);
      assert idxs[n] in idxs && idxs[n] in rs && Representative(rs, idxs[n]) == reprs[idxs[n]];
      forall k | 0 <= k <= n ensures PairAt(idxs[k], reprs, entries, 2 * k) {
        if k < n {
          assert PairAt(rest[k], reprs, before, 2 * k);
        }
      }
    }
  }

  lemma SubstitutedPushed(vars: seq<int>, reprs: map<int, int>, fixed: set<int>)
    requires NoDup(vars)
    ensures var rs := StillActive(reprs, fixed);
            PushedExactly(vars, reprs, fixed, SubstitutionEntries(rs, Substituted(vars, rs)))
  {
    var rs := StillActive(reprs, fixed);
    var idxs := Substituted(vars, rs);
    SubstitutedMembers(vars, rs);
    EntriesArePairs(reprs, fixed, idxs);
    assert Unassigned(vars, reprs, fixed, idxs);
  }

  /** No literal that is left has another representative. */
  ghost predicate AllOwn(reprs: map<int, int>, clauses: seq<Clause>, garbage: set<nat>) {
    forall i, l :: 0 <= i < |clauses| && i !in garbage && l in clauses[i] && l in reprs ==> reprs[l] == l
  }

  lemma OwnLiterals(reprs: map<int, int>, clauses: seq<Clause>, garbage: set<nat>)
    requires forall i :: 0 <= i < |clauses| && i !in garbage ==> Own(reprs, clauses[i])
    ensures AllOwn(reprs, clauses, garbage)
  {
  }

  /** The round as a whole. */
  method Round(graph: IG.Graph, vars: seq<int>, frozen: set<int>, sub: Substituter, external: External)
    returns (unsat: bool, ghost entries: seq<Entry>)
    requires IG.SkewSymmetric(graph) && |graph.active| < T.TRAVERSED && NoDup(vars)
    requires forall l :: l in graph.active ==> T.Abs(l) in vars
    requires forall v :: v in vars ==> v > 0
    requires Implications(sub.FormulaOf(), graph)
    requires !sub.unsat && forall c :: c in sub.FormulaOf() ==> NonZero(c)
    requires forall u {:trigger u in sub.units} :: u in sub.units ==> -u !in sub.units && u !in graph.active
    modifies sub`units, sub`clauses, sub`garbage, sub`unsat, sub`reprs, external`extension, external`witnesses
    ensures unsat ==> Unsat(old(sub.FormulaOf()))
    ensures C.Inconsistent(graph) ==> unsat
    ensures !unsat ==> C.Resolved(graph, frozen, sub.reprs) && C.Agreeing(graph, frozen, sub.reprs)
    ensures !unsat ==> AllOwn(sub.reprs, sub.clauses, sub.garbage)
    ensures !unsat ==> PushedExactly(vars, sub.reprs, sub.units, entries)
    ensures !unsat ==> forall m :: Models(m, sub.FormulaOf()) <==>
      ImagesHold(m, sub.reprs, old(sub.units), old(sub.clauses), old(sub.garbage), |old(sub.clauses)|)
    ensures !unsat ==> Repairs(old(sub.FormulaOf()), entries, sub.FormulaOf())
    ensures !unsat ==> forall c :: c in sub.FormulaOf() ==> Entails(old(sub.FormulaOf()), c)
    ensures !unsat ==> external.extension == old(external.extension) + Flat(entries)
  {
    hide *;
    ghost var f := sub.FormulaOf();
    entries := [];
    var search := new D.Decomposer(graph, vars, frozen);
    search.FindComponents();
    if search.unsat {
      ClashUnsat(f, graph);
      return true, entries;
    }
    sub.reprs := search.reprs;
    ResolvedSubstitutes(graph, frozen, sub.reprs);
    ClausesOf(sub);
    ghost var us, cs, gs := sub.units, sub.clauses, sub.garbage;
    unsat := SubstituteRound(graph, frozen, sub);
    if unsat {
      return;
    }
    SubstitutedPushed(vars, sub.reprs, sub.units);
    PushEquivalences(external, vars, sub.reprs, sub.units);
    entries := RoundEntries(vars, sub.reprs, sub.units);
    EntriesAre(vars, sub.reprs, sub.units);
    ResolvedKeys(graph, frozen, vars, sub.reprs);
    RoundRepairs(f, graph, frozen, vars, sub.reprs, sub.units, us, cs, gs, sub.FormulaOf());
  }

  /** What the round pushes. */
  ghost function RoundEntries(vars: seq<int>, reprs: map<int, int>, fixed: set<int>): seq<Entry> {
    var rs := StillActive(reprs, fixed);
    SubstitutionEntries(rs, Substituted(vars, rs))
  }

  lemma EntriesAre(vars: seq<int>, reprs: map<int, int>, fixed: set<int>)
    ensures var rs := StillActive(reprs, fixed);
            RoundEntries(vars, reprs, fixed) == SubstitutionEntries(rs, Substituted(vars, rs))
    ensures PushedFor(vars, StillActive(reprs, fixed)) == Flat(RoundEntries(vars, reprs, fixed))
  {
  }

  /** The units hold and the images of the clauses do. */
  ghost predicate SameImages(reprs: map<int, int>, us: set<int>, cs: seq<Clause>, gs: set<nat>, fixed: set<int>, g: Formula) {
    && (forall m :: Models(m, g) <==> ImagesHold(m, reprs, us, cs, gs, |cs|))
    && (forall m :: Models(m, g) ==> UnitsHold(m, fixed))
  }

  /** Substitutes representatives in all clauses. */
  method SubstituteRound(graph: IG.Graph, frozen: set<int>, sub: Substituter) returns (unsat: bool)
    requires IG.SkewSymmetric(graph) && C.Resolved(graph, frozen, sub.reprs) && Substitutes(sub.reprs)
    requires Implications(sub.FormulaOf(), graph) && !sub.unsat
    requires forall i :: 0 <= i < |sub.clauses| && i !in sub.garbage ==> NonZero(sub.clauses[i])
    requires forall u {:trigger u in sub.units} :: u in sub.units ==> u != 0 && -u !in sub.units && u !in graph.active
    modifies sub`units, sub`clauses, sub`garbage, sub`unsat
    ensures unsat ==> Unsat(old(sub.FormulaOf()))
    ensures !unsat ==> FixedOk(sub.reprs, sub.units) && old(sub.units) <= sub.units && AllOwn(sub.reprs, sub.clauses, sub.garbage)
    ensures !unsat ==> SameImages(sub.reprs, old(sub.units), old(sub.clauses), old(sub.garbage), sub.units, sub.FormulaOf())
    ensures forall m :: Models(m, old(sub.FormulaOf())) ==>
      ImagesHold(m, sub.reprs, old(sub.units), old(sub.clauses), old(sub.garbage), |old(sub.clauses)|)
  {
    ghost var f := sub.FormulaOf();
    ghost var us, cs, gs := sub.units, sub.clauses, sub.garbage;
    UnitsOwn(graph, frozen, sub);
    hide ImagesHold, ClausesHold, Implications, AllOwn, Substitutes, UnitsHold;
    forall m | Models(m, f) ensures ImagesHold(m, sub.reprs, us, cs, gs, |cs|) {
      sub.FormulaHolds(m);
      FormulaImages(f, graph, frozen, sub.reprs, us, cs, gs, m);
    }
    hide C.Resolved;
    sub.SubstituteAll();
    unsat := sub.unsat;
    if !unsat {
      OwnLiterals(sub.reprs, sub.clauses, sub.garbage);
      forall m ensures Models(m, sub.FormulaOf()) <==> ImagesHold(m, sub.reprs, us, cs, gs, |cs|)
               ensures Models(m, sub.FormulaOf()) ==> UnitsHold(m, sub.units) {
        sub.FormulaHolds(m);
        ClausesUnits(m, sub.units, sub.clauses, sub.garbage);
      }
    }
  }

  lemma ClausesUnits(m: Model, us: set<int>, cs: seq<Clause>, gs: set<nat>)
    ensures ClausesHold(m, us, cs, gs, |cs|) ==> UnitsHold(m, us)
  {
  }

  lemma UnitsOwn(graph: IG.Graph, frozen: set<int>, sub: Substituter)
    requires C.Resolved(graph, frozen, sub.reprs)
    requires forall u {:trigger u in sub.units} :: u in sub.units ==> u != 0 && -u !in sub.units && u !in graph.active
    ensures sub.UnitsOk()
  {
  }

  lemma ResolvedKeys(graph: IG.Graph, frozen: set<int>, vars: seq<int>, reprs: map<int, int>)
    requires C.Resolved(graph, frozen, reprs) && forall l :: l in graph.active ==> T.Abs(l) in vars
    ensures forall l :: l in reprs ==> Abs(l) in vars
  {
  }

  /** The round as a reconstruction step. */
  lemma RoundRepairs(f: Formula, graph: IG.Graph, frozen: set<int>, vars: seq<int>, reprs: map<int, int>, fixed: set<int>,
                     us: set<int>, cs: seq<Clause>, gs: set<nat>, g: Formula)
    requires Substitutes(reprs) && FixedOk(reprs, fixed) && us <= fixed
    requires NoDup(vars) && (forall v :: v in vars ==> v > 0) && forall l :: l in reprs ==> Abs(l) in vars
    requires forall c :: c in f ==> NonZero(c)
    requires forall c :: c in f ==> (|c| == 1 && c[0] in us) || exists i :: 0 <= i < |cs| && i !in gs && cs[i] == c
    requires SameImages(reprs, us, cs, gs, fixed, g)
    requires forall m :: Models(m, f) ==> ImagesHold(m, reprs, us, cs, gs, |cs|)
    ensures Repairs(f, RoundEntries(vars, reprs, fixed), g)
    ensures forall c :: c in g ==> Entails(f, c)
    ensures forall m :: Models(m, g) <==> ImagesHold(m, reprs, us, cs, gs, |cs|)
  {
    var rs := StillActive(reprs, fixed);
    forall c | c in g ensures Entails(f, c) {
      forall m | Models(m, f) ensures Satisfies(m, c) {
        assert Models(m, g);
      }
    }
    hide Models, ImagesHold, UnitsHold, NonZero, Substitutes, FixedOk, Repairs, ValidSubstitution;
    SubstitutionIsValid(reprs, vars, fixed, us, cs, gs, f, g);
    SubstitutionRepairs(f, rs, Substituted(vars, rs), g);
  }

  lemma ClausesOf(sub: Substituter)
    requires forall c :: c in sub.FormulaOf() ==> NonZero(c)
    ensures forall i :: 0 <= i < |sub.clauses| && i !in sub.garbage ==> NonZero(sub.clauses[i])
    ensures forall u :: u in sub.units ==> u != 0
    ensures forall c :: c in sub.FormulaOf() ==>
      (|c| == 1 && c[0] in sub.units) || exists i :: 0 <= i < |sub.clauses| && i !in sub.garbage && sub.clauses[i] == c
  {
    forall i | 0 <= i < |sub.clauses| && i !in sub.garbage ensures NonZero(sub.clauses[i]) {
      assert sub.clauses[i] in sub.FormulaOf();
    }
    forall u | u in sub.units ensures u != 0 {
      assert [u] in sub.FormulaOf() && u in [u];
    }
  }

  /** Every model of the formula satisfies the images of its clauses. */
  lemma FormulaImages(f: Formula, graph: IG.Graph, frozen: set<int>, reprs: map<int, int>,
                      us: set<int>, cs: seq<Clause>, gs: set<nat>, m: Model)
    requires IG.SkewSymmetric(graph) && Implications(f, graph) && C.Resolved(graph, frozen, reprs)
    requires Models(m, f) && ClausesHold(m, us, cs, gs, |cs|)
    ensures ImagesHold(m, reprs, us, cs, gs, |cs|)
  {
    forall k | 0 <= k < |cs| && k !in gs ensures ImageHolds(m, reprs, cs[k]) {
      var l :| l in cs[k] && Holds(m, l);
      if l in graph.active {
        RepresentativeEquivalent(f, graph, frozen, reprs, l, m);
      }
      assert Holds(m, Representative(reprs, l));
    }
  }
}
