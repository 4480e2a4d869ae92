/** Searching all kinds of gates for the pivot, and eliminating the pivot with
    the gate found. */
module GateElimination {
  import opened Logic
  import opened Extension
  import opened Reconstruction
  import opened ElimState
  import opened Elimination
  import opened VariableElimination
  import opened ResolventBounds
  import opened Gates
  import opened MatchedGates
  import opened MoreGates
  import opened XorGates

  /** A definition of the negated pivot defines the pivot. */
  lemma DefinitionNegated(s: State, ids: set<nat>, pivot: int)
    requires Definition(s, ids, -pivot)
    ensures Definition(s, ids, pivot)
  {
    var negated := -pivot;
    forall m | ModelsFree(m, s, pivot)
      ensures exists id :: id in ids && id in s.clauses && Forces(m, s.clauses[id].lits, pivot)
    {
      assert ModelsFree(m, s, negated);
      var id := DefinitionAt(s, ids, negated, m);
      ForcesNegated(m, s.clauses[id].lits, pivot);
    }
    forall c, d | c in ids && d in ids && c in s.clauses && d in s.clauses
                  && pivot in s.clauses[c].lits && -pivot in s.clauses[d].lits
      ensures ResolventEntailed(s, s.clauses[c].lits, s.clauses[d].lits, pivot)
    {
      assert -negated == pivot;
      assert ResolventEntailed(s, s.clauses[d].lits, s.clauses[c].lits, negated);
      EntailedSymmetric(s, s.clauses[d].lits, s.clauses[c].lits, negated);
    }
    assert forall id :: id in ids ==> Live(s, id) && id in s.clauses;
    hide *;
    DefinitionOf(s, ids, pivot);
  }

  lemma ForcesNegated(m: Model, c: Clause, pivot: int)
    requires Forces(m, c, -pivot)
    ensures Forces(m, c, pivot)
  {
    var negated := -pivot;
    assert OtherHolds(m, c, pivot) ==> OtherHolds(m, c, negated);
  }

  lemma DefinitionLive(s: State, ids: set<nat>, pivot: int)
    requires ids != {} ==> Definition(s, ids, pivot)
    ensures forall id :: id in ids ==> Live(s, id)
  {
  }

  /** Looks for gates of all kinds one after the other.  The first two kinds are
      definitions; the last two are matched by unassigned literals. */
  method FindGateClauses(e: Eliminator, pivot: int, arityLimit: int) returns (gates: set<nat>, matched: bool)
    requires e.Valid() && !e.unsat && Val(e.units, pivot) == 0 && InRange(pivot, e.range) && NoGates(e.S())
    requires NoDup(OccList(e.occs, pivot)) && NoDup(OccList(e.occs, -pivot))
    modifies e`clauses, e`units, e`unsat
    ensures e.Valid() && Simplified(old(e.S()), e.S()) && NoGates(e.S())
    ensures gates != {} ==> !e.unsat && Val(e.units, pivot) == 0
    ensures forall id :: id in gates ==> Live(e.S(), id)
    ensures gates != {} && !matched ==> Definition(e.S(), gates, pivot)
    ensures gates != {} && matched ==> (Definition(e.S(), gates, pivot) <==> SatisfiedRedundant(e.S(), gates, pivot))
    ensures gates != {} && NoneTrue(e.S(), gates) ==> Definition(e.S(), gates, pivot)
    ensures gates != {} && matched ==> Matched(e.S(), gates, pivot)
    ensures gates == {} && Complete(e.S(), e.occs) ==>
      NoGateFound(old(e.S()), e.S(), OccList(e.occs, pivot), OccList(e.occs, -pivot), pivot, arityLimit)
    ensures Propagated(old(e.S()), e.S(), e.occs)
  {
    matched := false;
    ghost var s0 := e.S();
    ghost var ps, ns := OccList(e.occs, pivot), OccList(e.occs, -pivot);
    NegatedPivot(e.units, pivot, e.range);
    hide *;
    gates := FindEquivalence(e, pivot);
    ghost var s1 := e.S();
    StateIs(e);
    DefinitionLive(e.S(), gates, pivot);
    if gates != {} || e.unsat || Val(e.units, pivot) != 0 {
      DecidedNoGate(s0, s1, ps, ns, pivot, arityLimit);
      return;
    }
    gates := FindAndGate(e, pivot);
    ghost var s2 := e.S();
    StateIs(e);
    DefinitionLive(e.S(), gates, pivot);
    PropagatedOn(s0, s1, s2, e.occs);
    SimplifiedTransitive(s0, s1, s2);
    if gates != {} || e.unsat || Val(e.units, pivot) != 0 {
      DecidedNoGate(s0, s2, ps, ns, pivot, arityLimit);
      return;
    }
    SameValue(e.units, pivot);
    gates := FindAndGate(e, -pivot);
    ghost var s3 := e.S();
    StateIs(e);
    SameValue(e.units, pivot);
    PropagatedOn(s0, s2, s3, e.occs);
    SimplifiedTransitive(s0, s2, s3);
    if gates != {} {
      DefinitionNegated(e.S(), gates, pivot);
      DefinitionLive(e.S(), gates, pivot);
      return;
    }
    if e.unsat || Val(e.units, pivot) != 0 {
      DecidedNoGate(s0, s3, ps, ns, pivot, arityLimit);
      return;
    }
    gates, matched := FindMatchedGate(e, pivot, arityLimit);
    if gates == {} && Complete(e.S(), e.occs) {
      NoGateAtAll(s0, s1, s2, s3, ps, ns, pivot, arityLimit);
    }
  }

  lemma SameValue(units: seq<int>, pivot: int)
    requires pivot != 0
    ensures Val(units, -pivot) == 0 <==> Val(units, pivot) == 0
    ensures -(-pivot) == pivot
  {
  }

  /** No gate for the pivot is left that the finders look for. */
  ghost predicate NoGateLeft(s: State, ps: seq<nat>, ns: seq<nat>, pivot: int, arityLimit: int) {
    && !HasAndGate(s, ps, ns, pivot) && !HasAndGate(s, ns, ps, -pivot)
    && NoIteFrom(s, ps, |ps|, pivot) && NoneStarts(s, ps, arityLimit)
  }

  /** Unless the pivot or the formula was decided there is none; equivalences
      can show up when the search for them assigns a unit. */
  ghost predicate NoGateFound(before: State, s: State, ps: seq<nat>, ns: seq<nat>, pivot: int, arityLimit: int) {
    !s.unsat && Val(s.units, pivot) == 0 ==>
      && NoGateLeft(s, ps, ns, pivot, arityLimit)
      && (s.units == before.units ==> !HasEquivalence(s, ps, ns, pivot, -pivot))
  }

  lemma DecidedNoGate(before: State, s: State, ps: seq<nat>, ns: seq<nat>, pivot: int, arityLimit: int)
    ensures s.unsat || Val(s.units, pivot) != 0 ==> NoGateFound(before, s, ps, ns, pivot, arityLimit)
  {
  }

  lemma NoGateAtAll(s0: State, s1: State, s2: State, s3: State, ps: seq<nat>, ns: seq<nat>, pivot: int, arityLimit: int)
    requires Simplified(s1, s2) && Simplified(s2, s3) && s1.units == s2.units == s3.units
    requires s1.units == s0.units ==> !HasEquivalence(s1, ps, ns, pivot, -pivot)
    requires !HasAndGate(s2, ps, ns, pivot) && !HasAndGate(s3, ns, ps, -pivot)
    requires NoIteFrom(s3, ps, |ps|, pivot) && NoneStarts(s3, ps, arityLimit)
    ensures NoGateFound(s0, s3, ps, ns, pivot, arityLimit)
  {
    SimplifiedTransitive(s1, s2, s3);
    hide Simplified, HasEquivalence, HasAndGate, NoIteFrom, NoneStarts;
    if HasEquivalence(s3, ps, ns, pivot, -pivot) {
      EquivalenceEarlier(s1, s3, ps, ns, pivot, -pivot);
    }
    if HasAndGate(s3, ps, ns, pivot) {
      AndEarlier(s2, s3, ps, ns, pivot);
    }
  }

  /** The two kinds of gates that are matched by unassigned literals. */
  method FindMatchedGate(e: Eliminator, pivot: int, arityLimit: int) returns (gates: set<nat>, matched: bool)
    requires e.Valid() && Val(e.units, pivot) == 0
    ensures matched && forall id :: id in gates ==> Live(e.S(), id)
    ensures gates != {} ==> Matched(e.S(), gates, pivot)
    ensures gates != {} ==> (Definition(e.S(), gates, pivot) <==> SatisfiedRedundant(e.S(), gates, pivot))
    ensures gates != {} && NoneTrue(e.S(), gates) ==> Definition(e.S(), gates, pivot)
    ensures gates == {} && Complete(e.S(), e.occs) ==>
      NoIteFrom(e.S(), OccList(e.occs, pivot), |OccList(e.occs, pivot)|, pivot) && NoneStarts(e.S(), OccList(e.occs, pivot), arityLimit)
  {
    hide *;
    matched := true;
    var found, di, dj, d1, d2, x, y, z := FindIfThenElse(e, pivot);
    if found {
      gates := Four(di, dj, d1, d2);
      FourMembers(di, dj, d1, d2);
    } else {
      gates := FindXorGate(e, pivot, arityLimit);
    }
    ValidOk(e);
    if gates != {} {
      MatchedLive(e.S(), gates, pivot);
      MatchedDefines(e.S(), e.range, gates, pivot);
      if NoneTrue(e.S(), gates) {
        NoneTrueDefines(e.S(), e.range, gates, pivot);
      }
    }
  }

  lemma FourMembers(a: nat, b: nat, c: nat, d: nat)
    ensures Four(a, b, c, d) != {}
  {
    assert a in Four(a, b, c, d);
  }

  lemma ValidOk(e: Eliminator)
    requires e.Valid()
    ensures StateOk(e.S(), e.range)
  {
  }

  /** Marks the clauses of the gate. */
  method MarkGates(e: Eliminator, gates: set<nat>)
    requires e.Valid() && forall id :: id in gates ==> id in e.clauses
    modifies e`clauses
    ensures e.Valid() && e.S() == WithGates(old(e.S()), gates)
  {
    ghost var cs := e.clauses;
    var rest := gates;
    while rest != {}
      invariant rest <= gates && e.clauses.Keys == cs.Keys
      invariant forall id {:trigger e.clauses[id]} :: id in cs ==>
        e.clauses[id] == if id in gates && id !in rest then cs[id].(gate := true) else cs[id]
    {
      var id :| id in rest;
      e.clauses := e.clauses[id := e.clauses[id].(gate := true)];
      rest := rest - {id};
    }
    assert e.clauses == WithGates(State(cs, e.units, e.unsat), gates).clauses;
    assert forall id :: id in cs ==> e.clauses[id].lits == cs[id].lits;
  }

  /** Marking changes nothing but the marks. */
  lemma SameFormula(s: State, ids: set<nat>)
    ensures FormulaOf(WithGates(s, ids)) == FormulaOf(s)
    ensures forall os, l :: Occurs(s, os, l) ==> Occurs(WithGates(s, ids), os, l)
  {
    var t := WithGates(s, ids);
    assert forall id :: Live(t, id) <==> Live(s, id);
    assert forall id :: id in s.clauses ==> t.clauses[id].lits == s.clauses[id].lits;
    SameLive(s, t);
  }

  /** The clauses found may be used: they are a definition unless they were
      matched, and then exactly if satisfied ones are redundant. */
  ghost predicate Substitutable(s: State, gates: set<nat>, matched: bool, pivot: int) {
    gates != {} && matched ==> SatisfiedRedundant(s, gates, pivot)
  }

  /** Finds a gate in state `mid` and marks its clauses.  They are what
      substituting the pivot relies on exactly if they may be used. */
  method PrepareSubstitution(e: Eliminator, pivot: int, arityLimit: int) returns (gates: set<nat>, matched: bool, ghost mid: State)
    requires e.Valid() && !e.unsat && Val(e.units, pivot) == 0 && InRange(pivot, e.range) && NoGates(e.S())
    requires NoDup(OccList(e.occs, pivot)) && NoDup(OccList(e.occs, -pivot))
    modifies e`clauses, e`units, e`unsat
    ensures e.Valid() && Simplified(old(e.S()), mid) && NoGates(mid) && e.S() == WithGates(mid, gates)
    ensures gates != {} ==> !e.unsat && Val(e.units, pivot) == 0
    ensures gates != {} ==> (GateOk(e.S(), pivot) <==> Substitutable(mid, gates, matched, pivot))
    ensures gates != {} && NoneTrue(mid, gates) ==> GateOk(e.S(), pivot)
    ensures gates != {} && matched ==> (NoneTrue(mid, gates) <==> AlwaysGates(mid, e.range, gates, pivot))
    ensures gates == {} && old(e.Connected()) ==>
      NoGateFound(old(e.S()), mid, OccList(e.occs, pivot), OccList(e.occs, -pivot), pivot, arityLimit)
    ensures Propagated(old(e.S()), mid, e.occs) && (old(e.Connected()) ==> e.Connected())
    ensures StateOk(mid, e.range)
  {
    ghost var s0 := e.S();
    ConnectedIs(e);
    hide *;
    gates, matched := FindGateClauses(e, pivot, arityLimit);
    mid := e.S();
    StateIs(e);
    ValidOk(e);
    LiveNames(mid, gates);
    if gates != {} && matched {
      GuardExactGates(mid, e.range, gates, pivot);
    }
    SimplifiedIndexed(s0, mid, e.occs);
    IndexedComplete(mid, e.occs);
    MarkGates(e, gates);
    MarkedFacts(mid, gates);
    IndexedSame(mid, e.S(), e.occs);
    StateIs(e);
    ConnectedIs(e);
    DefinitionGate(mid, gates, pivot);
    SubstitutableIs(mid, gates, matched, pivot);
  }

  lemma ConnectedIs(e: Eliminator)
    ensures e.Connected() <==> Indexed(e.S(), e.occs)
  {
  }

  lemma LiveNames(s: State, ids: set<nat>)
    ensures (forall id :: id in ids ==> Live(s, id)) ==> forall id :: id in ids ==> id in s.clauses
  {
  }

  lemma SimplifiedIndexed(s: State, t: State, occs: Occs)
    requires Simplified(s, t)
    ensures Indexed(s, occs) ==> Indexed(t, occs)
  {
    IndexedKept(s, t, occs);
  }

  lemma MarkedFacts(s: State, ids: set<nat>)
    ensures var t := WithGates(s, ids);
            && t.units == s.units && t.unsat == s.unsat && t.clauses.Keys == s.clauses.Keys
            && forall id :: id in s.clauses ==> t.clauses[id].lits == s.clauses[id].lits && t.clauses[id].garbage == s.clauses[id].garbage
  {
  }

  lemma SubstitutableIs(s: State, gates: set<nat>, matched: bool, pivot: int)
    ensures Substitutable(s, gates, matched, pivot) <==> (gates != {} && matched ==> SatisfiedRedundant(s, gates, pivot))
  {
  }

  lemma IndexedComplete(s: State, occs: Occs)
    ensures Indexed(s, occs) ==> Complete(s, occs)
  {
    forall id, l | Indexed(s, occs) && Live(s, id) && l in s.clauses[id].lits && Val(s.units, l) == 0 ensures id in OccList(occs, l) {
      assert Occurs(s, OccList(occs, l), l);
    }
  }

  /** Marks do not matter to occurrence lists. */
  lemma IndexedSame(s: State, t: State, occs: Occs)
    requires t.units == s.units && t.clauses.Keys == s.clauses.Keys
    requires forall id :: id in s.clauses ==> t.clauses[id].lits == s.clauses[id].lits && t.clauses[id].garbage == s.clauses[id].garbage
    ensures Indexed(s, occs) ==> Indexed(t, occs)
  {
    forall l | Indexed(s, occs) && Val(t.units, l) == 0 ensures Occurs(t, OccList(occs, l), l) {
      assert Occurs(s, OccList(occs, l), l);
    }
  }

  /* ---- when gate clauses are not satisfied ---- */

  /** No live clause has a true literal. */
  ghost predicate Clean(s: State) {
    forall id, l :: Live(s, id) && l in s.clauses[id].lits ==> l !in s.units
  }

  /** With complete occurrence lists propagated units leave no live clause
      satisfied. */
  lemma CleanStays(s: State, t: State, n: nat, occs: Occs)
    requires Clean(s) && Indexed(s, occs) && Simplified(s, t) && Propagated(s, t, occs) && StateOk(t, n) && !t.unsat
    ensures Clean(t)
  {
    forall id, l | Live(t, id) && l in t.clauses[id].lits ensures l !in t.units {
      assert Live(s, id) && l in s.clauses[id].lits && l !in s.units;
      assert Val(s.units, l) == 0 ==> Occurs(s, OccList(occs, l), l);
      assert l in t.units ==> -l !in t.units && Dropped(t, occs, l);
    }
  }

  lemma CleanSubstitutable(s: State, n: nat, gates: set<nat>, matched: bool, pivot: int)
    requires Clean(s)
    ensures NoneTrue(s, gates) && Substitutable(s, gates, matched, pivot)
  {
  }

  /* ---- trying to eliminate one variable ---- */

  /** The clauses of a list that are not garbage. */
  ghost function Flushed(s: State, os: seq<nat>): seq<nat> {
    if os == [] then []
    else
      var rest, last := Flushed(s, os[..|os| - 1]), os[|os| - 1];
      if Live(s, last) then rest + [last] else rest
  }

  lemma FlushedNone(s: State, os: seq<nat>)
    ensures os == [] ==> Flushed(s, os) == []
  {
  }

  lemma FlushedNext(s: State, os: seq<nat>, i: nat)
    requires i < |os|
    ensures Flushed(s, os[..i + 1]) == if Live(s, os[i]) then Flushed(s, os[..i]) + [os[i]] else Flushed(s, os[..i])
  {
    assert os[..i + 1][..i] == os[..i];
  }

  /** One side of the pivot does not occur, or the other one within the limit,
      and there are few and short resolvents. */
  ghost predicate LiteralEliminable(s: State, ps: seq<nat>, ns: seq<nat>, pivot: int, occurrenceLimit: int, elimbound: int, limit: int) {
    (|ps| == 0 || |ns| <= occurrenceLimit) && WithinBounds(s, ps, ns, pivot, false, elimbound, limit)
  }

  /** The same for the literal of the variable that occurs less often. */
  ghost predicate Eliminable(s: State, ps: seq<nat>, ns: seq<nat>, pivot: int, occurrenceLimit: int, elimbound: int, limit: int) {
    if |ps| <= |ns| then LiteralEliminable(s, ps, ns, pivot, occurrenceLimit, elimbound, limit)
    else LiteralEliminable(s, ns, ps, -pivot, occurrenceLimit, elimbound, limit)
  }

  /** The variable is to be eliminated unless it or the formula is decided on
      the way. */
  ghost predicate MustGo(s: State, occs: Occs, pivot: int, occurrenceLimit: int, elimbound: int, limit: int) {
    Eliminable(s, Flushed(s, OccList(occs, pivot)), Flushed(s, OccList(occs, -pivot)), pivot, occurrenceLimit, elimbound, limit)
  }

  /** Gate search and marking leave no more resolvents than there were. */
  lemma MarkedWithin(s: State, mid: State, gates: set<nat>, ps: seq<nat>, ns: seq<nat>, pivot: int, gated: bool, elimbound: int, limit: int)
    requires Simplified(s, mid) && Occurs(s, ps, pivot) && Occurs(s, ns, -pivot)
    requires WithinBounds(s, ps, ns, pivot, false, elimbound, limit)
    ensures WithinBounds(WithGates(mid, gates), ps, ns, pivot, gated, elimbound, limit)
  {
    var t := WithGates(mid, gates);
    forall c, d | c in ps && d in ns && Counted(t, c, d, pivot, gated)
      ensures Counted(s, c, d, pivot, false) && t.clauses[c].lits == s.clauses[c].lits && t.clauses[d].lits == s.clauses[d].lits
    {
      assert c in s.clauses && d in s.clauses;
    }
    hide *;
    StillWithinIf(s, t, ps, ns, pivot, gated, elimbound, limit);
  }

  lemma StillWithinIf(s: State, t: State, ps: seq<nat>, ns: seq<nat>, pivot: int, gated: bool, elimbound: int, limit: int)
    requires forall c, d :: c in ps && d in ns && Counted(t, c, d, pivot, gated) ==>
      c in s.clauses && d in s.clauses && c in t.clauses && d in t.clauses && Counted(s, c, d, pivot, false)
      && t.clauses[c].lits == s.clauses[c].lits && t.clauses[d].lits == s.clauses[d].lits
    requires WithinBounds(s, ps, ns, pivot, false, elimbound, limit)
    ensures WithinBounds(t, ps, ns, pivot, gated, elimbound, limit)
  {
    StillWithin(s, false, t, gated, ps, ns, pivot, elimbound, limit);
  }

  /** Flushes garbage clauses from an occurrence list and counts the others. */
  method FlushOccs(e: Eliminator, lit: int) returns (count: nat)
    requires e.Valid()
    modifies e`occs
    ensures e.Valid() && count == |OccList(e.occs, lit)| && OccList(e.occs, lit) == Flushed(e.S(), OccList(old(e.occs), lit))
    ensures forall l :: l != lit ==> OccList(e.occs, l) == OccList(old(e.occs), l)
    ensures Occurs(e.S(), OccList(old(e.occs), lit), lit) ==> Occurs(e.S(), OccList(e.occs, lit), lit)
    ensures (old(e.Connected()) ==> e.Connected()) && NoNewLiterals(old(e.S()), e.S())
  {
    hide Indexed, Flushed;
    var os := OccList(e.occs, lit);
    FlushedNone(e.S(), os[..0]);
    var kept: seq<nat> := [];
    for i := 0 to |os|
      invariant e.occs == old(e.occs)
      invariant forall id :: id in kept <==> id in os[..i] && Live(e.S(), id)
      invariant NoDup(os) ==> NoDup(kept)
      invariant kept == Flushed(e.S(), os[..i])
    {
      FlushedNext(e.S(), os, i);
      assert OccList(e.occs, lit)[i] in e.clauses;
      assert os[..i + 1] == os[..i] + [os[i]];
      if !e.clauses[os[i]].garbage {
        FreshAtEnd(os, i);
        kept := kept + [os[i]];
      }
    }
    assert os[..|os|] == os;
    forall k | 0 <= k < |kept| ensures kept[k] in e.clauses && lit in e.clauses[kept[k]].lits {
      assert kept[k] in kept && kept[k] in os;
      var j :| 0 <= j < |os| && os[j] == kept[k];
      assert OccList(e.occs, lit)[j] in e.clauses;
    }
    ghost var before := e.occs;
    e.occs := e.occs[lit := kept];
    count := |kept|;
    FlushedIndexed(e.S(), before, e.occs, lit);
    assert OccsOk(e.clauses, e.occs) by {
      forall l, k | 0 <= k < |OccList(e.occs, l)|
        ensures OccList(e.occs, l)[k] in e.clauses && l in e.clauses[OccList(e.occs, l)[k]].lits
      {
        assert l != lit ==> OccList(e.occs, l) == OccList(before, l);
      }
    }
  }

  lemma FlushedIndexed(s: State, before: Occs, occs: Occs, lit: int)
    requires forall l :: l != lit ==> OccList(occs, l) == OccList(before, l)
    requires Occurs(s, OccList(before, lit), lit) ==> Occurs(s, OccList(occs, lit), lit)
    ensures Indexed(s, before) ==> Indexed(s, occs)
  {
    hide Occurs, Val;
    forall l | Indexed(s, before) && Val(s.units, l) == 0 ensures Occurs(s, OccList(occs, l), l) {
      assert Occurs(s, OccList(before, l), l);
      hide OccList;
    }
  }

  lemma FreshAtEnd(os: seq<nat>, i: nat)
    requires i < |os|
    ensures NoDup(os) ==> os[i] !in os[..i]
  {
  }

  lemma OccursSimplified(s: State, t: State, os: seq<nat>, l: int)
    requires Simplified(s, t) && Occurs(s, os, l)
    ensures Occurs(t, os, l)
  {
  }

  lemma OccursNoDup(s: State, os: seq<nat>, l: int)
    requires Occurs(s, os, l)
    ensures NoDup(os)
  {
  }

  lemma SimplifiedRepairs(s: State, t: State)
    requires Simplified(s, t)
    ensures Repairs(FormulaOf(s), [], FormulaOf(t))
  {
    forall m | Models(m, FormulaOf(t)) ensures Models(m, FormulaOf(s)) {
      FormulaModels(s, m);
      FormulaModels(t, m);
    }
    EntailedRepairs(FormulaOf(s), FormulaOf(t));
  }

  /** Takes the marks back. */
  method UnmarkGateClauses(e: Eliminator, gates: set<nat>)
    requires e.Valid() && forall id {:trigger e.clauses[id]} :: id in e.clauses && e.clauses[id].gate ==> id in gates
    modifies e`clauses
    ensures e.Valid() && NoGates(e.S()) && FormulaOf(e.S()) == FormulaOf(old(e.S()))
    ensures forall id :: Live(e.S(), id) ==>
      id in e.clauses && Live(old(e.S()), id) && id in old(e.clauses) && e.clauses[id].lits == old(e.clauses)[id].lits
    ensures (old(e.Connected()) ==> e.Connected()) && NoNewLiterals(old(e.S()), e.S())
    ensures e.units == old(e.units) && e.unsat == old(e.unsat)
  {
    hide Indexed;
    ghost var cs := e.clauses;
    var rest := gates;
    while rest != {}
      invariant rest <= gates && e.clauses.Keys == cs.Keys
      invariant forall id {:trigger e.clauses[id]} :: id in cs ==>
        e.clauses[id] == if id in gates && id !in rest then cs[id].(gate := false) else cs[id]
    {
      var id :| id in rest;
      if id in e.clauses {
        e.clauses := e.clauses[id := e.clauses[id].(gate := false)];
      }
      rest := rest - {id};
    }
    SameLive(State(cs, e.units, e.unsat), e.S());
    IndexedSame(State(cs, e.units, e.unsat), e.S(), e.occs);
  }

  lemma SameLive(s: State, t: State)
    requires s.clauses.Keys == t.clauses.Keys && s.units == t.units && s.unsat == t.unsat
    requires forall id :: id in s.clauses ==> s.clauses[id].lits == t.clauses[id].lits && s.clauses[id].garbage == t.clauses[id].garbage
    ensures FormulaOf(s) == FormulaOf(t)
  {
    forall c ensures c in LiveClauses(s) <==> c in LiveClauses(t) {
      if id :| id in s.clauses && !s.clauses[id].garbage && s.clauses[id].lits == c {
        assert id in t.clauses && !t.clauses[id].garbage && t.clauses[id].lits == c;
      }
      if id :| id in t.clauses && !t.clauses[id].garbage && t.clauses[id].lits == c {
        assert id in s.clauses && !s.clauses[id].garbage && s.clauses[id].lits == c;
      }
    }
    assert LiveClauses(s) == LiveClauses(t);
  }

  /** Searches a gate, resolves, removes the clauses of the variable, and takes
      the marks back.  Whenever the clauses found in state `mid` may be used,
      what is pushed repairs models. */
  method EliminateVariable(e: Eliminator, external: External, pivot: int, substitute: bool, occurrenceLimit: int,
                           arityLimit: int, elimbound: int, limit: int)
    returns (eliminated: bool, matched: bool, gates: set<nat>, ghost p: int, ghost mid: State, ghost entries: seq<Entry>)
    requires e.Valid() && !e.unsat && Val(e.units, pivot) == 0 && InRange(pivot, e.range) && NoGates(e.S())
    requires Occurs(e.S(), OccList(e.occs, pivot), pivot) && Occurs(e.S(), OccList(e.occs, -pivot), -pivot)
    modifies e, external`extension, external`witnesses
    ensures e.Valid() && NoGates(e.S()) && Simplified(old(e.S()), mid) && (p == pivot || p == -pivot)
    ensures external.extension == old(external.extension) + Flat(entries)
    ensures Substitutable(mid, gates, matched, p) ==> Repairs(FormulaOf(old(e.S())), entries, FormulaOf(e.S()))
    ensures !eliminated ==> entries == [] && Repairs(FormulaOf(old(e.S())), [], FormulaOf(e.S()))
    ensures eliminated ==> NotMentioned(e.S(), pivot)
    ensures !substitute ==> gates == {}
    ensures substitute && gates == {} && old(e.Connected()) ==>
      NothingToSubstitute(old(e.S()), mid, Flushed(old(e.S()), OccList(old(e.occs), p)), Flushed(old(e.S()), OccList(old(e.occs), -p)),
                          p, occurrenceLimit, arityLimit)
    ensures MustGo(old(e.S()), old(e.occs), pivot, occurrenceLimit, elimbound, limit) ==>
      eliminated || e.unsat || Val(e.units, pivot) != 0
    ensures (old(e.Connected()) ==> e.Connected()) && NoNewLiterals(old(e.S()), e.S())
    ensures old(e.Connected() && Clean(e.S())) ==> Substitutable(mid, gates, matched, p)
  {
    hide *;
    ghost var s, occs := e.S(), e.occs;
    var literal, pos, neg := RarerLiteral(e, pivot);
    p := literal;
    MustGoMeans(s, occs, e.occs, pivot, p, occurrenceLimit, elimbound, limit);
    FlushedEither(s, occs, e.occs, pivot, p);
    eliminated, matched, gates, mid, entries :=
      EliminateSide(e, external, literal, pos, neg, substitute, occurrenceLimit, arityLimit, elimbound, limit);
    StateIs(e);
    VainSearch(s, mid, Flushed(s, OccList(occs, p)), Flushed(s, OccList(occs, -p)), p, occurrenceLimit, arityLimit);
    SameVariableGone(e.S(), pivot, p);
  }

  /** Flushes both occurrence lists; the literal with the shorter one. */
  method RarerLiteral(e: Eliminator, pivot: int) returns (p: int, pos: nat, neg: nat)
    requires e.Valid() && Val(e.units, pivot) == 0 && InRange(pivot, e.range)
    requires Occurs(e.S(), OccList(e.occs, pivot), pivot) && Occurs(e.S(), OccList(e.occs, -pivot), -pivot)
    modifies e`occs
    ensures e.Valid() && e.S() == old(e.S()) && Val(e.units, p) == 0 && InRange(p, e.range)
    ensures pos == |OccList(e.occs, p)| && neg == |OccList(e.occs, -p)|
    ensures OccList(e.occs, pivot) == Flushed(e.S(), OccList(old(e.occs), pivot))
    ensures OccList(e.occs, -pivot) == Flushed(e.S(), OccList(old(e.occs), -pivot))
    ensures p == if |OccList(e.occs, pivot)| > |OccList(e.occs, -pivot)| then -pivot else pivot
    ensures Occurs(e.S(), OccList(e.occs, p), p) && Occurs(e.S(), OccList(e.occs, -p), -p)
    ensures (old(e.Connected()) ==> e.Connected()) && NoNewLiterals(old(e.S()), e.S())
  {
    NegatedPivot(e.units, pivot, e.range);
    hide *;
    pos, neg := FlushBoth(e, pivot);
    p := pivot;
    if pos > neg {
      NegatedLists(e.S(), e.occs, pivot, -pivot);
      p, pos, neg := -pivot, neg, pos;
    }
  }

  lemma NegatedLists(s: State, occs: Occs, pivot: int, p: int)
    requires p == -pivot && Occurs(s, OccList(occs, pivot), pivot)
    ensures Occurs(s, OccList(occs, -p), -p) && OccList(occs, -p) == OccList(occs, pivot)
  {
    assert -p == pivot;
  }

  /** Goes on with the side that occurs less often, unless the other one occurs
      too often. */
  method EliminateSide(e: Eliminator, external: External, pivot: int, pos: nat, neg: nat, substitute: bool, occurrenceLimit: int,
                       arityLimit: int, elimbound: int, limit: int)
    returns (eliminated: bool, matched: bool, gates: set<nat>, ghost mid: State, ghost entries: seq<Entry>)
    requires e.Valid() && !e.unsat && Val(e.units, pivot) == 0 && InRange(pivot, e.range) && NoGates(e.S())
    requires Occurs(e.S(), OccList(e.occs, pivot), pivot) && Occurs(e.S(), OccList(e.occs, -pivot), -pivot)
    requires pos == |OccList(e.occs, pivot)| && neg == |OccList(e.occs, -pivot)|
    modifies e, external`extension, external`witnesses
    ensures e.Valid() && NoGates(e.S()) && Simplified(old(e.S()), mid)
    ensures external.extension == old(external.extension) + Flat(entries)
    ensures Substitutable(mid, gates, matched, pivot) ==> Repairs(FormulaOf(old(e.S())), entries, FormulaOf(e.S()))
    ensures !eliminated ==> entries == [] && Repairs(FormulaOf(old(e.S())), [], FormulaOf(e.S()))
    ensures eliminated ==> NotMentioned(e.S(), pivot)
    ensures !substitute ==> gates == {}
    ensures substitute && 0 < pos && neg <= occurrenceLimit && gates == {} && old(e.Connected()) ==>
      NoGateFound(old(e.S()), mid, OccList(old(e.occs), pivot), OccList(old(e.occs), -pivot), pivot, arityLimit)
    ensures LiteralEliminable(old(e.S()), OccList(old(e.occs), pivot), OccList(old(e.occs), -pivot), pivot, occurrenceLimit, elimbound, limit) ==>
      eliminated || e.unsat || Val(e.units, pivot) != 0
    ensures (old(e.Connected()) ==> e.Connected()) && NoNewLiterals(old(e.S()), e.S())
    ensures old(e.Connected() && Clean(e.S())) ==> Substitutable(mid, gates, matched, pivot)
  {
    ghost var s := e.S();
    ghost var ps, ns := OccList(e.occs, pivot), OccList(e.occs, -pivot);
    LiteralMeans(s, ps, ns, pivot, occurrenceLimit, elimbound, limit);
    SimplifiedSelf(s);
    NoGateSubstitutable(s, pivot);
    NegatedPivot(e.units, pivot, e.range);
    LiteralsSame(s);
    SimplifiedRepairs(s, s);
    hide *;
    if pos != 0 && neg > occurrenceLimit {
      return false, false, {}, s, [];
    }
    eliminated, matched, gates, mid, entries :=
      EliminateLiteral(e, external, pivot, substitute && pos != 0, arityLimit, elimbound, limit);
  }

  /** If both literals occur and the other one not too often, a gate was
      searched in vain. */
  ghost predicate NothingToSubstitute(before: State, s: State, ps: seq<nat>, ns: seq<nat>, pivot: int, occurrenceLimit: int, arityLimit: int) {
    0 < |ps| && |ns| <= occurrenceLimit ==> NoGateFound(before, s, ps, ns, pivot, arityLimit)
  }

  lemma VainSearch(before: State, s: State, ps: seq<nat>, ns: seq<nat>, pivot: int, occurrenceLimit: int, arityLimit: int)
    ensures (0 < |ps| && |ns| <= occurrenceLimit ==> NoGateFound(before, s, ps, ns, pivot, arityLimit)) ==>
      NothingToSubstitute(before, s, ps, ns, pivot, occurrenceLimit, arityLimit)
  {
  }

  lemma FlushedEither(s: State, before: Occs, occs: Occs, pivot: int, p: int)
    requires OccList(occs, pivot) == Flushed(s, OccList(before, pivot)) && OccList(occs, -pivot) == Flushed(s, OccList(before, -pivot))
    requires p == pivot || p == -pivot
    ensures OccList(occs, p) == Flushed(s, OccList(before, p)) && OccList(occs, -p) == Flushed(s, OccList(before, -p))
  {
    hide OccList, Flushed;
    assert p == -pivot ==> -p == pivot;
  }

  lemma MustGoMeans(s: State, before: Occs, occs: Occs, pivot: int, p: int, occurrenceLimit: int, elimbound: int, limit: int)
    requires OccList(occs, pivot) == Flushed(s, OccList(before, pivot)) && OccList(occs, -pivot) == Flushed(s, OccList(before, -pivot))
    requires p == if |OccList(occs, pivot)| > |OccList(occs, -pivot)| then -pivot else pivot
    ensures MustGo(s, before, pivot, occurrenceLimit, elimbound, limit) ==>
      LiteralEliminable(s, OccList(occs, p), OccList(occs, -p), p, occurrenceLimit, elimbound, limit)
  {
    hide LiteralEliminable, OccList, Flushed;
    assert p == -pivot ==> -p == pivot;
  }

  lemma LiteralMeans(s: State, ps: seq<nat>, ns: seq<nat>, pivot: int, occurrenceLimit: int, elimbound: int, limit: int)
    ensures LiteralEliminable(s, ps, ns, pivot, occurrenceLimit, elimbound, limit) ==>
            (|ps| == 0 || |ns| <= occurrenceLimit) && WithinBounds(s, ps, ns, pivot, false, elimbound, limit)
  {
  }

  method FlushBoth(e: Eliminator, pivot: int) returns (pos: nat, neg: nat)
    requires e.Valid() && pivot != 0
    requires Occurs(e.S(), OccList(e.occs, pivot), pivot) && Occurs(e.S(), OccList(e.occs, -pivot), -pivot)
    modifies e`occs
    ensures e.Valid() && e.S() == old(e.S()) && pos == |OccList(e.occs, pivot)| && neg == |OccList(e.occs, -pivot)|
    ensures OccList(e.occs, pivot) == Flushed(e.S(), OccList(old(e.occs), pivot))
    ensures OccList(e.occs, -pivot) == Flushed(e.S(), OccList(old(e.occs), -pivot))
    ensures Occurs(e.S(), OccList(e.occs, pivot), pivot) && Occurs(e.S(), OccList(e.occs, -pivot), -pivot)
    ensures (old(e.Connected()) ==> e.Connected()) && NoNewLiterals(old(e.S()), e.S())
  {
    hide Indexed;
    pos := FlushOccs(e, pivot);
    neg := FlushOccs(e, -pivot);
  }

  lemma NegatedPivot(units: seq<int>, pivot: int, range: nat)
    requires Val(units, pivot) == 0 && InRange(pivot, range)
    ensures pivot != 0 && Val(units, -pivot) == 0 && InRange(-pivot, range) && -(-pivot) == pivot && Flat([]) == []
  {
  }

  lemma NoGateSubstitutable(s: State, pivot: int)
    ensures Substitutable(s, {}, false, pivot)
  {
  }

  lemma SimplifiedSelf(s: State)
    ensures Simplified(s, s)
  {
  }

  /** No live clause contains the variable. */
  ghost predicate NotMentioned(s: State, pivot: int) {
    forall id :: Live(s, id) ==> !Mentions(s.clauses[id].lits, pivot)
  }

  lemma SameVariableGone(s: State, pivot: int, p: int)
    requires p == pivot || p == -pivot
    ensures NotMentioned(s, p) ==> NotMentioned(s, pivot)
    ensures Val(s.units, p) != 0 ==> Val(s.units, pivot) != 0
  {
    assert forall c: Clause :: Mentions(c, -pivot) <==> Mentions(c, pivot);
  }

  /** Searches a gate and marks it, if wanted. */
  method SearchGate(e: Eliminator, pivot: int, search: bool, arityLimit: int)
    returns (gates: set<nat>, matched: bool, ghost mid: State)
    requires e.Valid() && !e.unsat && Val(e.units, pivot) == 0 && InRange(pivot, e.range) && NoGates(e.S())
    requires NoDup(OccList(e.occs, pivot)) && NoDup(OccList(e.occs, -pivot))
    modifies e`clauses, e`units, e`unsat
    ensures e.Valid() && Simplified(old(e.S()), mid) && NoGates(mid) && e.S() == WithGates(mid, gates)
    ensures gates != {} ==> (GateOk(e.S(), pivot) <==> Substitutable(mid, gates, matched, pivot))
    ensures !search ==> gates == {}
    ensures search && gates == {} && old(e.Connected()) ==>
      NoGateFound(old(e.S()), mid, OccList(e.occs, pivot), OccList(e.occs, -pivot), pivot, arityLimit)
    ensures (old(e.Connected()) ==> e.Connected()) && NoNewLiterals(old(e.S()), e.S())
    ensures old(e.Connected() && Clean(e.S())) ==> Substitutable(mid, gates, matched, pivot)
  {
    gates, matched, mid := {}, false, e.S();
    ghost var s0 := e.S();
    if search {
      hide *;
      gates, matched, mid := PrepareSubstitution(e, pivot, arityLimit);
      MarkedUnsat(mid, gates);
      CleanGates(s0, mid, e.range, e.occs, gates, matched, pivot, old(e.Connected() && Clean(e.S())), gates != {} ==> !mid.unsat);
    } else {
      NoMarks(s0);
      SimplifiedSelf(s0);
    }
  }

  lemma MarkedUnsat(s: State, ids: set<nat>)
    ensures WithGates(s, ids).unsat == s.unsat && WithGates(s, ids).units == s.units
  {
  }

  /** Unless the search for gates assigned the pivot or refuted the formula. */
  method TryIfActive(e: Eliminator, external: External, pivot: int, ps: seq<nat>, ns: seq<nat>, gated: bool, elimbound: int, limit: int)
    returns (eliminated: bool, ghost entries: seq<Entry>)
    requires e.Valid() && pivot != 0 && Occurs(e.S(), ps, pivot) && Occurs(e.S(), ns, -pivot)
    modifies e, external`extension, external`witnesses
    ensures e.Valid() && GatesFrom(old(e.S()), e.S())
    ensures external.extension == old(external.extension) + Flat(entries)
    ensures (gated ==> GateOk(old(e.S()), pivot)) ==> Repairs(FormulaOf(old(e.S())), entries, FormulaOf(e.S()))
    ensures !eliminated ==> entries == [] && Repairs(FormulaOf(old(e.S())), [], FormulaOf(e.S()))
    ensures eliminated ==> forall id :: Live(e.S(), id) ==> !Mentions(e.clauses[id].lits, pivot)
    ensures WithinBounds(old(e.S()), ps, ns, pivot, gated, elimbound, limit) ==> eliminated || e.unsat || Val(e.units, pivot) != 0
    ensures (old(e.Connected()) ==> e.Connected()) && NoNewLiterals(old(e.S()), e.S())
  {
    eliminated, entries := false, [];
    ghost var s := e.S();
    assert Flat([]) == [];
    hide *;
    if !e.unsat && Val(e.units, pivot) == 0 {
      eliminated, entries := TryToEliminateVariable(e, external, pivot, ps, ns, gated, elimbound, limit);
      if !eliminated {
        EquivalentRepairs(s, e.S(), pivot);
      }
    } else {
      ProgressReflexive(s, pivot);
      EquivalentRepairs(s, s, pivot);
    }
  }

  lemma FirstEquivalent(f: Formula, g: Formula, entries: seq<Entry>, h: Formula)
    requires Repairs(f, [], g)
    ensures Repairs(g, entries, h) ==> Repairs(f, entries, h)
    ensures Repairs(g, [], h) ==> Repairs(f, [], h)
  {
    hide Repairs;
    var none: seq<Entry> := [];
    assert none + none == none;
    if Repairs(g, entries, h) {
      RepairsCompose(f, [], g, entries, h);
      assert [] + entries == entries;
    }
    if Repairs(g, [], h) {
      RepairsCompose(f, none, g, none, h);
    }
  }

  /** The same for the literal of the variable that occurs less often. */
  method EliminateLiteral(e: Eliminator, external: External, pivot: int, search: bool, arityLimit: int, elimbound: int, limit: int)
    returns (eliminated: bool, matched: bool, gates: set<nat>, ghost mid: State, ghost entries: seq<Entry>)
    requires e.Valid() && !e.unsat && Val(e.units, pivot) == 0 && InRange(pivot, e.range) && NoGates(e.S())
    requires Occurs(e.S(), OccList(e.occs, pivot), pivot) && Occurs(e.S(), OccList(e.occs, -pivot), -pivot)
    modifies e, external`extension, external`witnesses
    ensures e.Valid() && NoGates(e.S()) && Simplified(old(e.S()), mid)
    ensures external.extension == old(external.extension) + Flat(entries)
    ensures Substitutable(mid, gates, matched, pivot) ==> Repairs(FormulaOf(old(e.S())), entries, FormulaOf(e.S()))
    ensures !eliminated ==> entries == [] && Repairs(FormulaOf(old(e.S())), [], FormulaOf(e.S()))
    ensures eliminated ==> NotMentioned(e.S(), pivot)
    ensures !search ==> gates == {}
    ensures search && gates == {} && old(e.Connected()) ==>
      NoGateFound(old(e.S()), mid, OccList(old(e.occs), pivot), OccList(old(e.occs), -pivot), pivot, arityLimit)
    ensures WithinBounds(old(e.S()), OccList(old(e.occs), pivot), OccList(old(e.occs), -pivot), pivot, false, elimbound, limit) ==>
      eliminated || e.unsat || Val(e.units, pivot) != 0
    ensures (old(e.Connected()) ==> e.Connected()) && NoNewLiterals(old(e.S()), e.S())
    ensures old(e.Connected() && Clean(e.S())) ==> Substitutable(mid, gates, matched, pivot)
  {
    ghost var s0 := e.S();
    var ps, ns := OccList(e.occs, pivot), OccList(e.occs, -pivot);
    OccursNoDup(s0, ps, pivot);
    OccursNoDup(s0, ns, -pivot);
    NonZeroPivot(pivot, e.range);
    hide *;
    gates, matched, mid := SearchGate(e, pivot, search, arityLimit);
    ghost var t := e.S();
    SimplifiedRepairs(s0, mid);
    SameFormula(mid, gates);
    OccursSimplified(s0, mid, ps, pivot);
    OccursSimplified(s0, mid, ns, -pivot);
    if WithinBounds(s0, ps, ns, pivot, false, elimbound, limit) {
      MarkedWithin(s0, mid, gates, ps, ns, pivot, gates != {}, elimbound, limit);
    }
    eliminated, entries := TryIfActive(e, external, pivot, ps, ns, gates != {}, elimbound, limit);
    FirstEquivalent(FormulaOf(s0), FormulaOf(t), entries, FormulaOf(e.S()));
    MarkedOnly(mid, gates, e.S());
    StateIs(e);
    ghost var u := e.S();
    UnmarkGateClauses(e, gates);
    if eliminated {
      StillNotMentioned(u, e.S(), pivot);
    }
  }

  lemma StillNotMentioned(s: State, t: State, pivot: int)
    requires forall id :: Live(s, id) ==> id in s.clauses && !Mentions(s.clauses[id].lits, pivot)
    requires forall id :: Live(t, id) ==> id in t.clauses && Live(s, id) && id in s.clauses && t.clauses[id].lits == s.clauses[id].lits
    ensures NotMentioned(t, pivot)
  {
  }

  lemma NonZeroPivot(pivot: int, n: nat)
    requires InRange(pivot, n)
    ensures pivot != 0
  {
  }

  lemma CleanGates(s: State, t: State, n: nat, occs: Occs, gates: set<nat>, matched: bool, pivot: int, clean: bool, satisfiable: bool)
    requires clean ==> Clean(s) && Indexed(s, occs)
    requires Simplified(s, t) && Propagated(s, t, occs) && StateOk(t, n)
    requires satisfiable && (satisfiable ==> gates != {} ==> !t.unsat)
    ensures clean ==> Substitutable(t, gates, matched, pivot)
  {
    if clean && gates != {} {
      CleanStays(s, t, n, occs);
      CleanSubstitutable(t, n, gates, matched, pivot);
    }
  }

  lemma NoMarks(s: State)
    requires NoGates(s)
    ensures WithGates(s, {}) == s
  {
    assert WithGates(s, {}).clauses == s.clauses;
  }

  lemma MarkedOnly(s: State, ids: set<nat>, t: State)
    requires NoGates(s) && GatesFrom(WithGates(s, ids), t)
    ensures forall id {:trigger t.clauses[id]} :: id in t.clauses && t.clauses[id].gate ==> id in ids
  {
  }
}
