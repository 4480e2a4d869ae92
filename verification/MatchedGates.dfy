/** Gates whose clauses are matched by their unassigned literals only.  A clause
    with a true literal may then be taken for a gate clause, and this module
    says exactly when the clauses found still define the pivot. */
module MatchedGates {
  import opened Logic
  import opened Reconstruction
  import opened ElimState
  import opened Elimination
  import opened VariableElimination
  import opened Gates

  /** The unassigned literals of a live clause are exactly the given ones;
      assigned literals, even true ones, are skipped. */
  ghost predicate Loose(s: State, id: nat, lits: set<int>) {
    && Live(s, id)
    && (forall l :: l in s.clauses[id].lits && Val(s.units, l) == 0 ==> l in lits)
    && (forall l :: l in lits ==> l in s.clauses[id].lits && Val(s.units, l) == 0)
  }

  /** A literal of the clause is true. */
  ghost predicate HasTrue(s: State, id: nat)
    requires id in s.clauses
  {
    exists l :: l in s.clauses[id].lits && l in s.units
  }

  /** An unassigned literal over another variable than the pivot holds. */
  ghost predicate OpenHolds(m: Model, s: State, id: nat, pivot: int)
    requires id in s.clauses
  {
    exists l :: l in s.clauses[id].lits && Val(s.units, l) == 0 && l != pivot && l != -pivot && Holds(m, l)
  }

  /** The unassigned literals of the clause other than the pivot already follow
      from the clauses without the pivot. */
  ghost predicate OpenEntailed(s: State, id: nat, pivot: int)
    requires id in s.clauses
  {
    forall m :: ModelsFree(m, s, pivot) ==> OpenHolds(m, s, id, pivot)
  }

  /** An unassigned literal of one clause is complementary to one of the other. */
  ghost predicate Opposed(s: State, c: nat, d: nat, pivot: int) {
    && c in s.clauses && d in s.clauses
    && exists l :: l in s.clauses[c].lits && Val(s.units, l) == 0 && l != pivot && l != -pivot && -l in s.clauses[d].lits
  }

  /** What the matchers establish: in every model the unassigned literals other
      than the pivot are false in some clause, and in only one. */
  ghost predicate Matched(s: State, ids: set<nat>, pivot: int) {
    && Val(s.units, pivot) == 0
    && (forall id {:trigger Live(s, id)} :: id in ids ==> Live(s, id) && Mentions(s.clauses[id].lits, pivot))
    && (forall m :: SomeOpen(m, s, ids, pivot))
    && (forall c, d {:trigger Opposed(s, c, d, pivot)} :: c in ids && d in ids && c != d ==>
          Opposed(s, c, d, pivot))
  }

  lemma MatchedOf(s: State, ids: set<nat>, pivot: int)
    requires Val(s.units, pivot) == 0
    requires forall id {:trigger Live(s, id)} :: id in ids ==> Live(s, id) && Mentions(s.clauses[id].lits, pivot)
    requires forall m :: SomeOpen(m, s, ids, pivot)
    requires forall c, d {:trigger Opposed(s, c, d, pivot)} :: c in ids && d in ids && c != d ==>
      Opposed(s, c, d, pivot)
    ensures Matched(s, ids, pivot)
  {
  }

  ghost predicate SomeOpen(m: Model, s: State, ids: set<nat>, pivot: int) {
    exists id {:trigger OpenHolds(m, s, id, pivot)} :: id in ids && id in s.clauses && !OpenHolds(m, s, id, pivot)
  }

  /** Every matched clause with a true literal has unassigned literals that
      follow anyhow. */
  ghost predicate SatisfiedRedundant(s: State, ids: set<nat>, pivot: int) {
    forall id {:trigger Live(s, id)} :: id in ids && Live(s, id) && HasTrue(s, id) ==> OpenEntailed(s, id, pivot)
  }

  /** No matched clause has a true literal. */
  ghost predicate NoneTrue(s: State, ids: set<nat>) {
    forall id {:trigger Live(s, id)} :: id in ids && Live(s, id) ==> !HasTrue(s, id)
  }

  /** Without a true literal, a clause whose other unassigned literals are false
      forces the pivot. */
  lemma OpenForces(s: State, n: nat, id: nat, pivot: int, m: Model)
    requires StateOk(s, n) && Live(s, id) && Mentions(s.clauses[id].lits, pivot) && ModelsFree(m, s, pivot)
    requires !HasTrue(s, id) && !OpenHolds(m, s, id, pivot)
    ensures Forces(m, s.clauses[id].lits, pivot)
  {
    var c := s.clauses[id].lits;
    assert LitsOk(c, n);
    forall l | l in c && l != pivot && l != -pivot ensures !Holds(m, l) {
      if Val(s.units, l) != 0 {
        assert -l in s.units && Holds(m, -l);
      }
    }
  }

  /** A clause that forces the pivot has neither a true nor an open literal that
      holds. */
  lemma ForcesOpen(s: State, n: nat, id: nat, pivot: int, m: Model)
    requires StateOk(s, n) && Live(s, id) && ModelsFree(m, s, pivot) && Val(s.units, pivot) == 0
    requires Forces(m, s.clauses[id].lits, pivot)
    ensures !HasTrue(s, id) && !OpenHolds(m, s, id, pivot)
  {
    var c := s.clauses[id].lits;
    forall l | l in c ensures l !in s.units {
      assert l in s.units ==> Holds(m, l) && l != pivot && l != -pivot && OtherHolds(m, c, pivot);
    }
    assert OpenHolds(m, s, id, pivot) ==> OtherHolds(m, c, pivot);
  }

  /** Only one clause can force the pivot. */
  lemma OpposedForces(s: State, n: nat, c: nat, d: nat, pivot: int, m: Model)
    requires StateOk(s, n) && Opposed(s, c, d, pivot)
    ensures Forces(m, s.clauses[d].lits, pivot) ==> OpenHolds(m, s, c, pivot)
  {
    var l :| l in s.clauses[c].lits && Val(s.units, l) == 0 && l != pivot && l != -pivot && -l in s.clauses[d].lits;
    assert LitsOk(s.clauses[c].lits, n);
    assert Holds(m, l) ==> OpenHolds(m, s, c, pivot);
    assert !Holds(m, l) ==> Holds(m, -l) && OtherHolds(m, s.clauses[d].lits, pivot);
  }

  lemma OpposedClash(s: State, n: nat, c: nat, d: nat, pivot: int)
    requires StateOk(s, n) && Opposed(s, c, d, pivot)
    requires pivot in s.clauses[c].lits && -pivot in s.clauses[d].lits
    ensures ResolventEntailed(s, s.clauses[c].lits, s.clauses[d].lits, pivot)
  {
    var l :| l in s.clauses[c].lits && Val(s.units, l) == 0 && l != pivot && l != -pivot && -l in s.clauses[d].lits;
    assert LitsOk(s.clauses[c].lits, n) && LitsOk(s.clauses[d].lits, n);
    assert -(-l) == l && -l != -pivot;
    ClashEntailed(s, s.clauses[c].lits, s.clauses[d].lits, pivot);
  }

  lemma DifferentClauses(s: State, n: nat, c: nat, d: nat, pivot: int)
    requires StateOk(s, n) && c in s.clauses && d in s.clauses
    requires pivot in s.clauses[c].lits && -pivot in s.clauses[d].lits
    ensures c != d
  {
    assert LitsOk(s.clauses[c].lits, n);
  }

  /** Resolving two of the matched clauses gives nothing. */
  lemma MatchedClash(s: State, n: nat, ids: set<nat>, pivot: int, c: nat, d: nat)
    requires StateOk(s, n) && Matched(s, ids, pivot) && c in ids && d in ids && c in s.clauses && d in s.clauses
    requires pivot in s.clauses[c].lits && -pivot in s.clauses[d].lits
    ensures ResolventEntailed(s, s.clauses[c].lits, s.clauses[d].lits, pivot)
  {
    DifferentClauses(s, n, c, d, pivot);
    assert Opposed(s, c, d, pivot);
    OpposedClash(s, n, c, d, pivot);
  }

  lemma RedundantOpen(s: State, ids: set<nat>, pivot: int, id: nat, m: Model)
    requires SatisfiedRedundant(s, ids, pivot) && id in ids && Live(s, id) && ModelsFree(m, s, pivot)
    ensures HasTrue(s, id) ==> OpenHolds(m, s, id, pivot)
  {
    hide ModelsFree;
  }

  lemma RedundantForces(s: State, n: nat, ids: set<nat>, pivot: int, m: Model)
    requires StateOk(s, n) && Matched(s, ids, pivot) && SatisfiedRedundant(s, ids, pivot) && ModelsFree(m, s, pivot)
    ensures exists id :: id in ids && id in s.clauses && Forces(m, s.clauses[id].lits, pivot)
  {
    assert SomeOpen(m, s, ids, pivot);
    var id :| id in ids && id in s.clauses && !OpenHolds(m, s, id, pivot);
    assert Live(s, id);
    hide ModelsFree;
    hide StateOk;
    RedundantOpen(s, ids, pivot, id, m);
    OpenForces(s, n, id, pivot, m);
  }

  /** The matched clauses define the pivot if and only if in every one of them
      that has a true literal the other literals follow anyhow. */
  lemma MatchedDefines(s: State, n: nat, ids: set<nat>, pivot: int)
    requires StateOk(s, n) && Matched(s, ids, pivot)
    ensures Definition(s, ids, pivot) <==> SatisfiedRedundant(s, ids, pivot)
  {
    hide StateOk, SomeOpen, ModelsFree, Forces, OpenHolds, Opposed;
    if SatisfiedRedundant(s, ids, pivot) {
      RedundantDefines(s, n, ids, pivot);
    }
    if Definition(s, ids, pivot) {
      forall id | id in ids && Live(s, id) && HasTrue(s, id) ensures OpenEntailed(s, id, pivot) {
        forall m | ModelsFree(m, s, pivot) ensures OpenHolds(m, s, id, pivot) {
          DefinedHolds(s, n, ids, pivot, id, m);
        }
      }
    }
  }

  lemma RedundantDefines(s: State, n: nat, ids: set<nat>, pivot: int)
    requires StateOk(s, n) && Matched(s, ids, pivot) && SatisfiedRedundant(s, ids, pivot)
    ensures Definition(s, ids, pivot)
  {
    forall m | ModelsFree(m, s, pivot)
      ensures exists id :: id in ids && id in s.clauses && Forces(m, s.clauses[id].lits, pivot)
    {
      RedundantForces(s, n, ids, pivot, m);
    }
    forall c, d | c in ids && d in ids && c in s.clauses && d in s.clauses
                  && pivot in s.clauses[c].lits && -pivot in s.clauses[d].lits
      ensures ResolventEntailed(s, s.clauses[c].lits, s.clauses[d].lits, pivot)
    {
      MatchedClash(s, n, ids, pivot, c, d);
    }
    assert forall id :: id in ids ==> Live(s, id) && id in s.clauses;
    hide *;
    DefinitionOf(s, ids, pivot);
  }

  lemma DefinedHolds(s: State, n: nat, ids: set<nat>, pivot: int, id: nat, m: Model)
    requires StateOk(s, n) && Matched(s, ids, pivot) && Definition(s, ids, pivot) && ModelsFree(m, s, pivot)
    requires id in ids && Live(s, id) && HasTrue(s, id)
    ensures OpenHolds(m, s, id, pivot)
  {
    var other := DefinitionAt(s, ids, pivot, m);
    ForcesOpen(s, n, other, pivot, m);
    assert other != id;
    assert Opposed(s, id, other, pivot);
    OpposedForces(s, n, id, other, pivot, m);
  }

  lemma DefinitionAt(s: State, ids: set<nat>, pivot: int, m: Model) returns (id: nat)
    requires Definition(s, ids, pivot) && ModelsFree(m, s, pivot)
    ensures id in ids && Live(s, id) && Forces(m, s.clauses[id].lits, pivot)
  {
    id :| id in ids && Forces(m, s.clauses[id].lits, pivot);
  }

  /** What can be checked on the matched clauses alone. */
  lemma NoneTrueDefines(s: State, n: nat, ids: set<nat>, pivot: int)
    requires StateOk(s, n) && Matched(s, ids, pivot) && NoneTrue(s, ids)
    ensures SatisfiedRedundant(s, ids, pivot) && Definition(s, ids, pivot)
  {
    RedundantDefines(s, n, ids, pivot);
  }

  /* ---- the exact guard ---- */

  /** Another state with the same units and the same matched clauses. */
  ghost predicate SameMatched(s: State, t: State, ids: set<nat>) {
    && t.units == s.units
    && forall id {:trigger Live(t, id)} :: id in ids && Live(s, id) ==> Live(t, id) && t.clauses[id].lits == s.clauses[id].lits
  }

  /** Whatever the other clauses are, the matched ones define the pivot. */
  ghost predicate AlwaysDefines(s: State, n: nat, ids: set<nat>, pivot: int) {
    forall t {:trigger SameMatched(s, t, ids)} :: StateOk(t, n) && SameMatched(s, t, ids) ==> Definition(t, ids, pivot)
  }

  /** Whatever the other clauses are, the matched ones may be used to substitute
      the pivot. */
  ghost predicate AlwaysGates(s: State, n: nat, ids: set<nat>, pivot: int) {
    forall t {:trigger SameMatched(s, t, ids)} :: StateOk(t, n) && NoGates(t) && SameMatched(s, t, ids) ==>
      GateOk(WithGates(t, ids), pivot)
  }

  lemma SameOpen(s: State, t: State, ids: set<nat>, pivot: int, id: nat, m: Model)
    requires Matched(s, ids, pivot) && SameMatched(s, t, ids) && id in ids
    ensures Live(s, id) && Live(t, id) && t.clauses[id].lits == s.clauses[id].lits
    ensures OpenHolds(m, t, id, pivot) <==> OpenHolds(m, s, id, pivot)
    ensures HasTrue(t, id) <==> HasTrue(s, id)
  {
    assert Live(t, id);
  }

  /** What is matched stays matched. */
  lemma MatchedCarries(s: State, t: State, ids: set<nat>, pivot: int)
    requires Matched(s, ids, pivot) && SameMatched(s, t, ids)
    ensures Matched(t, ids, pivot) && (NoneTrue(s, ids) ==> NoneTrue(t, ids))
  {
    hide OpenHolds, HasTrue;
    forall id | id in ids
      ensures Live(s, id) && Live(t, id) && Mentions(t.clauses[id].lits, pivot) && (HasTrue(t, id) <==> HasTrue(s, id))
    {
      SameOpen(s, t, ids, pivot, id, iset{});
    }
    forall m ensures SomeOpen(m, t, ids, pivot) {
      assert SomeOpen(m, s, ids, pivot);
      var id :| id in ids && id in s.clauses && !OpenHolds(m, s, id, pivot);
      SameOpen(s, t, ids, pivot, id, m);
    }
    forall c, d | c in ids && d in ids && c != d ensures Opposed(t, c, d, pivot) {
      SameOpen(s, t, ids, pivot, c, iset{});
      SameOpen(s, t, ids, pivot, d, iset{});
      assert Opposed(s, c, d, pivot);
    }
    hide *;
    MatchedOf(t, ids, pivot);
  }

  /** The state with only the matched clauses. */
  ghost function Alone(s: State, ids: set<nat>): State {
    State(map id | id in s.clauses && id in ids :: s.clauses[id].(gate := false), s.units, false)
  }

  /** The units, and no literal of the clause that is not true. */
  ghost function Against(s: State, c: Clause): Model {
    iset v: int | v > 0 && (v in s.units || (-v !in s.units && v !in c))
  }

  lemma AloneOk(s: State, n: nat, ids: set<nat>, pivot: int, c: Clause)
    requires StateOk(s, n) && Matched(s, ids, pivot)
    ensures StateOk(Alone(s, ids), n) && NoGates(Alone(s, ids)) && SameMatched(s, Alone(s, ids), ids)
    ensures ModelsFree(Against(s, c), Alone(s, ids), pivot)
  {
    var t := Alone(s, ids);
    forall id | id in t.clauses ensures LitsOk(t.clauses[id].lits, n) && Mentions(t.clauses[id].lits, pivot) {
      assert Live(s, id) && id in s.clauses;
    }
  }

  lemma AgainstOpen(s: State, n: nat, id: nat, pivot: int)
    requires StateOk(s, n) && id in s.clauses
    ensures !OpenHolds(Against(s, s.clauses[id].lits), s, id, pivot)
  {
    assert LitsOk(s.clauses[id].lits, n);
  }

  /** A satisfied clause loses the definition next to suitable other clauses. */
  lemma TrueLoses(s: State, n: nat, ids: set<nat>, pivot: int, id: nat)
    requires StateOk(s, n) && Matched(s, ids, pivot) && id in ids && Live(s, id) && HasTrue(s, id)
    ensures !Definition(Alone(s, ids), ids, pivot)
  {
    var t, m := Alone(s, ids), Against(s, s.clauses[id].lits);
    AloneOk(s, n, ids, pivot, s.clauses[id].lits);
    MatchedCarries(s, t, ids, pivot);
    SameOpen(s, t, ids, pivot, id, m);
    AgainstOpen(s, n, id, pivot);
    hide *;
    assert Live(t, id) && HasTrue(t, id) && !OpenHolds(m, t, id, pivot);
    if Definition(t, ids, pivot) {
      DefinedHolds(t, n, ids, pivot, id, m);
    }
  }

  /** The guard the matchers lack is exact: the matched clauses define the pivot
      next to whatever other clauses if and only if none has a true literal. */
  lemma GuardExact(s: State, n: nat, ids: set<nat>, pivot: int)
    requires StateOk(s, n) && Matched(s, ids, pivot)
    ensures NoneTrue(s, ids) <==> AlwaysDefines(s, n, ids, pivot)
  {
    hide StateOk, Matched, Definition, HasTrue, SameMatched;
    if NoneTrue(s, ids) {
      forall t | StateOk(t, n) && SameMatched(s, t, ids) ensures Definition(t, ids, pivot) {
        MatchedCarries(s, t, ids, pivot);
        NoneTrueDefines(t, n, ids, pivot);
      }
    } else {
      var id :| id in ids && Live(s, id) && HasTrue(s, id);
      AloneOk(s, n, ids, pivot, s.clauses[id].lits);
      TrueLoses(s, n, ids, pivot, id);
    }
  }

  /** The same for what substitution relies on. */
  lemma GuardExactGates(s: State, n: nat, ids: set<nat>, pivot: int)
    requires StateOk(s, n) && Matched(s, ids, pivot)
    ensures NoneTrue(s, ids) <==> AlwaysGates(s, n, ids, pivot)
  {
    hide StateOk, Matched, Definition, HasTrue, SameMatched, GateOk, NoGates;
    if NoneTrue(s, ids) {
      forall t | StateOk(t, n) && NoGates(t) && SameMatched(s, t, ids) ensures GateOk(WithGates(t, ids), pivot) {
        MatchedCarries(s, t, ids, pivot);
        NoneTrueDefines(t, n, ids, pivot);
        MatchedLive(t, ids, pivot);
        DefinitionGate(t, ids, pivot);
      }
    } else {
      var id :| id in ids && Live(s, id) && HasTrue(s, id);
      var t := Alone(s, ids);
      AloneOk(s, n, ids, pivot, s.clauses[id].lits);
      TrueLoses(s, n, ids, pivot, id);
      MatchedCarries(s, t, ids, pivot);
      MatchedLive(t, ids, pivot);
      DefinitionGate(t, ids, pivot);
    }
  }

  lemma MatchedLive(s: State, ids: set<nat>, pivot: int)
    requires Matched(s, ids, pivot)
    ensures forall id :: id in ids ==> Live(s, id)
  {
  }

  /** Every live clause is in the occurrence lists of its unassigned literals. */
  ghost predicate Complete(s: State, occs: Occs) {
    forall id, l :: Live(s, id) && l in s.clauses[id].lits && Val(s.units, l) == 0 ==> id in OccList(occs, l)
  }

  lemma ListedAll(s: State, occs: Occs, l: int, lits: set<int>)
    requires l in lits && forall k :: 0 <= k < |OccList(occs, l)| ==> !Loose(s, OccList(occs, l)[k], lits)
    ensures Complete(s, occs) ==> forall x :: !Loose(s, x, lits)
  {
    forall x | Complete(s, occs) ensures !Loose(s, x, lits) {
      assert Loose(s, x, lits) ==> x in OccList(occs, l);
    }
  }
}
