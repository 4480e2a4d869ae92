/** The formula during variable elimination: irredundant clauses, root-level
    units, and how elementary changes relate the formula before and after. */
module ElimState {
  import opened Logic
  import opened Reconstruction

  datatype IrredundantClause = IrredundantClause(lits: seq<int>, garbage: bool, gate: bool)

  type Clauses = map<nat, IrredundantClause>

  /** `unsat` is set once the empty clause was learned. */
  datatype State = State(clauses: Clauses, units: seq<int>, unsat: bool)

  predicate InRange(l: int, n: nat) {
    l != 0 && 0 - n < l < n
  }

  function Val(units: seq<int>, l: int): int {
    if l in units then 1 else if -l in units then -1 else 0
  }

  ghost predicate LitsOk(c: seq<int>, n: nat) {
    && NoDup(c)
    && forall l :: l in c ==> InRange(l, n) && -l !in c
  }

  ghost predicate StateOk(s: State, n: nat) {
    && (forall id :: id in s.clauses ==> LitsOk(s.clauses[id].lits, n))
    && NoDup(s.units)
    && (forall l :: l in s.units ==> InRange(l, n) && -l !in s.units)
  }

  ghost predicate Live(s: State, id: nat) {
    id in s.clauses && !s.clauses[id].garbage
  }

  ghost predicate Mentions(c: Clause, pivot: int) {
    pivot in c || -pivot in c
  }

  /** `m` satisfies the units and the live clauses without the variable of
      `pivot`; with pivot zero these are all live clauses. */
  ghost predicate ModelsFree(m: Model, s: State, pivot: int) {
    && !s.unsat
    && (forall u :: u in s.units ==> Holds(m, u))
    && (forall id :: Live(s, id) && !Mentions(s.clauses[id].lits, pivot) ==> Satisfies(m, s.clauses[id].lits))
  }

  /** `m` satisfies the whole formula. */
  ghost predicate ModelsAll(m: Model, s: State) {
    && !s.unsat
    && (forall u :: u in s.units ==> Holds(m, u))
    && (forall id :: Live(s, id) ==> Satisfies(m, s.clauses[id].lits))
  }

  /** A literal over another variable than that of `pivot` holds. */
  ghost predicate OtherHolds(m: Model, c: Clause, pivot: int) {
    exists l :: l in c && l != pivot && l != -pivot && Holds(m, l)
  }

  /** The clause without the pivot is entailed without using the pivot. */
  ghost predicate RestEntailed(s: State, c: Clause, pivot: int) {
    forall m :: ModelsFree(m, s, pivot) ==> OtherHolds(m, c, pivot)
  }

  ghost predicate Grows(s: State, t: State) {
    && s.units <= t.units
    && (s.unsat ==> t.unsat)
    && forall id :: id in s.clauses ==>
         && id in t.clauses
         && t.clauses[id].lits == s.clauses[id].lits
         && t.clauses[id].gate == s.clauses[id].gate
         && (s.clauses[id].garbage ==> t.clauses[id].garbage)
  }

  /** New clauses do not contain the pivot and are no gate clauses. */
  ghost predicate NewClausesOk(s: State, t: State, pivot: int) {
    forall id :: id in t.clauses && id !in s.clauses ==> !t.clauses[id].gate && !Mentions(t.clauses[id].lits, pivot)
  }

  /** From `s` to `t` the formula stays equivalent, its part without the pivot
      gets no weaker, and clauses with the pivot disappear only if their rest
      is entailed (unless the pivot itself got assigned). */
  ghost predicate Progress(s: State, t: State, pivot: int) {
    && Grows(s, t)
    && NewClausesOk(s, t, pivot)
    && (forall m :: ModelsAll(m, s) <==> ModelsAll(m, t))
    && (forall m :: ModelsFree(m, t, pivot) ==> ModelsFree(m, s, pivot))
    && (Val(t.units, pivot) == 0 ==>
          forall id :: Live(s, id) && !Live(t, id) && Mentions(s.clauses[id].lits, pivot) ==>
                         RestEntailed(t, s.clauses[id].lits, pivot))
  }

  /** Clauses disappear only if a unit satisfies them, and none is added. */
  ghost predicate DroppedSatisfied(s: State, t: State) {
    t.clauses.Keys == s.clauses.Keys &&
    forall id {:trigger Live(s, id)} :: Live(s, id) && !Live(t, id) ==> exists l :: l in s.clauses[id].lits && l in t.units
  }

  lemma DroppedTransitive(s: State, t: State, u: State)
    requires Grows(s, t) && Grows(t, u) && DroppedSatisfied(s, t) && DroppedSatisfied(t, u)
    ensures DroppedSatisfied(s, u)
  {
    forall id | Live(s, id) && !Live(u, id) ensures exists l :: l in s.clauses[id].lits && l in u.units {
      if Live(t, id) {
        var l :| l in t.clauses[id].lits && l in u.units;
      } else {
        var l :| l in s.clauses[id].lits && l in t.units;
        assert l in u.units;
      }
    }
  }

  lemma ProgressReflexive(s: State, pivot: int)
    ensures Progress(s, s, pivot)
  {
  }

  lemma GrowsTransitive(s: State, t: State, u: State)
    requires Grows(s, t) && Grows(t, u)
    ensures Grows(s, u)
  {
  }

  lemma ProgressTransitive(s: State, t: State, u: State, pivot: int)
    requires Progress(s, t, pivot) && Progress(t, u, pivot)
    ensures Progress(s, u, pivot)
  {
    GrowsTransitive(s, t, u);
    if Val(u.units, pivot) == 0 {
      assert Val(t.units, pivot) == 0;
      forall id | Live(s, id) && !Live(u, id) && Mentions(s.clauses[id].lits, pivot)
        ensures RestEntailed(u, s.clauses[id].lits, pivot)
      {
        if Live(t, id) {
          assert RestEntailed(u, t.clauses[id].lits, pivot);
        } else {
          assert RestEntailed(t, s.clauses[id].lits, pivot);
        }
      }
    }
  }

  /* ---- elementary changes ---- */

  function WithUnit(s: State, unit: int): State {
    s.(units := s.units + [unit])
  }

  lemma UnitProgress(s: State, n: nat, unit: int, pivot: int)
    requires StateOk(s, n) && InRange(unit, n) && Val(s.units, unit) == 0
    requires forall m :: ModelsAll(m, s) ==> Holds(m, unit)
    ensures Progress(s, WithUnit(s, unit), pivot) && StateOk(WithUnit(s, unit), n)
  {
    var t := WithUnit(s, unit);
    assert forall l :: l in t.units <==> l in s.units || l == unit;
    assert forall id :: Live(t, id) <==> Live(s, id);
    forall m | ModelsFree(m, t, pivot) ensures ModelsFree(m, s, pivot) {
    }
  }

  function WithEmptyClause(s: State): State {
    s.(unsat := true)
  }

  lemma EmptyClauseProgress(s: State, pivot: int)
    requires forall m :: !ModelsAll(m, s)
    ensures Progress(s, WithEmptyClause(s), pivot)
  {
  }

  function WithGarbage(s: State, id: nat): State
    requires id in s.clauses
  {
    s.(clauses := s.clauses[id := s.clauses[id].(garbage := true)])
  }

  /** A clause whose rest follows without the pivot may be dropped. */
  lemma GarbageProgress(s: State, id: nat, pivot: int)
    requires id in s.clauses
    requires forall m :: ModelsAll(m, WithGarbage(s, id)) ==> Satisfies(m, s.clauses[id].lits)
    requires !Mentions(s.clauses[id].lits, pivot) ==>
               forall m :: ModelsFree(m, WithGarbage(s, id), pivot) ==> Satisfies(m, s.clauses[id].lits)
    requires Mentions(s.clauses[id].lits, pivot) && Val(s.units, pivot) == 0 ==>
               RestEntailed(WithGarbage(s, id), s.clauses[id].lits, pivot)
    ensures Progress(s, WithGarbage(s, id), pivot)
  {
    var t := WithGarbage(s, id);
    assert forall d :: Live(t, d) <==> Live(s, d) && d != id;
    forall m ensures ModelsAll(m, s) <==> ModelsAll(m, t) {
      if ModelsAll(m, t) {
        forall d | Live(s, d) ensures Satisfies(m, s.clauses[d].lits) {
          assert d != id ==> Live(t, d);
        }
      }
      if ModelsAll(m, s) {
        forall d | Live(t, d) ensures Satisfies(m, t.clauses[d].lits) {
          assert Live(s, d);
        }
      }
    }
    forall m | ModelsFree(m, t, pivot) ensures ModelsFree(m, s, pivot) {
      forall d | Live(s, d) && !Mentions(s.clauses[d].lits, pivot) ensures Satisfies(m, s.clauses[d].lits) {
        assert d != id ==> Live(t, d);
      }
    }
  }

  /** Clauses satisfied by a unit may be dropped. */
  lemma SatisfiedProgress(s: State, n: nat, id: nat, lit: int, pivot: int)
    requires StateOk(s, n) && id in s.clauses && lit in s.clauses[id].lits && lit in s.units
    ensures Progress(s, WithGarbage(s, id), pivot) && StateOk(WithGarbage(s, id), n)
  {
    var c := s.clauses[id].lits;
    forall m | Holds(m, lit) ensures Satisfies(m, c) {
    }
    if Val(s.units, pivot) == 0 {
      assert lit != pivot && lit != -pivot;
      forall m | ModelsFree(m, WithGarbage(s, id), pivot) ensures OtherHolds(m, c, pivot) {
        assert Holds(m, lit);
      }
    }
    GarbageProgress(s, id, pivot);
  }

  function WithClause(s: State, id: nat, lits: seq<int>): State {
    s.(clauses := s.clauses[id := IrredundantClause(lits, false, false)])
  }

  /** Entailed clauses may be added. */
  lemma AddProgress(s: State, n: nat, id: nat, lits: seq<int>, pivot: int)
    requires StateOk(s, n) && id !in s.clauses && LitsOk(lits, n) && !Mentions(lits, pivot)
    requires forall m :: ModelsAll(m, s) ==> Satisfies(m, lits)
    ensures Progress(s, WithClause(s, id, lits), pivot) && StateOk(WithClause(s, id, lits), n)
  {
    var t := WithClause(s, id, lits);
    assert forall d :: d in s.clauses ==> t.clauses[d] == s.clauses[d] && d != id;
    forall m ensures ModelsAll(m, s) <==> ModelsAll(m, t) {
      if ModelsAll(m, t) {
        forall d | Live(s, d) ensures Satisfies(m, s.clauses[d].lits) {
          assert Live(t, d);
        }
      }
    }
    forall m | ModelsFree(m, t, pivot) ensures ModelsFree(m, s, pivot) {
      forall d | Live(s, d) && !Mentions(s.clauses[d].lits, pivot) ensures Satisfies(m, s.clauses[d].lits) {
        assert Live(t, d);
      }
    }
  }

  /* ---- resolution ---- */

  /** The unassigned literals of a clause other than `skip`. */
  function Unassigned(units: seq<int>, lits: seq<int>, skip: int): seq<int> {
    if lits == [] then []
    else
      var n := |lits| - 1;
      Unassigned(units, lits[..n], skip) + (if lits[n] != skip && Val(units, lits[n]) == 0 then [lits[n]] else [])
  }

  lemma {:induction false} UnassignedMembers(units: seq<int>, lits: seq<int>, skip: int, l: int)
    ensures l in Unassigned(units, lits, skip) <==> l in lits && l != skip && Val(units, l) == 0
  {
    if lits == [] {
    } else {
      var n := |lits| - 1;
      assert lits == lits[..n] + [lits[n]];
      UnassignedMembers(units, lits[..n], skip, l);
      hide Val;
      assert l in lits <==> l in lits[..n] || l == lits[n];
    }
  }

  lemma {:induction false} UnassignedNoDup(units: seq<int>, lits: seq<int>, skip: int)
    requires NoDup(lits)
    ensures NoDup(Unassigned(units, lits, skip))
  {
    if lits != [] {
      var n := |lits| - 1;
      UnassignedNoDup(units, lits[..n], skip);
      UnassignedMembers(units, lits[..n], skip, lits[n]);
      assert lits[n] !in lits[..n];
    }
  }

  lemma UnassignedNone(units: seq<int>, skip: int)
    ensures Unassigned(units, [], skip) == []
  {
  }

  lemma UnassignedStep(units: seq<int>, lits: seq<int>, i: nat, skip: int)
    requires i < |lits|
    ensures lits[..0] == []
    ensures Unassigned(units, lits[..i + 1], skip) ==
            Unassigned(units, lits[..i], skip) + (if lits[i] != skip && Val(units, lits[i]) == 0 then [lits[i]] else [])
    ensures NoDup(lits) ==> lits[i] !in Unassigned(units, lits[..i], skip)
  {
    assert lits[..i + 1][..i] == lits[..i];
    UnassignedMembers(units, lits[..i], skip, lits[i]);
  }

  lemma NoDupAppend(s: seq<int>, x: int)
    requires NoDup(s) && x !in s
    ensures NoDup(s + [x])
  {
  }

  /** Only the variable of the pivot matters. */
  lemma ProgressSymmetric(s: State, t: State, pivot: int)
    requires Progress(s, t, pivot)
    ensures Progress(s, t, -pivot)
  {
    var negated := -pivot;
    forall m: Model, u: State ensures ModelsFree(m, u, negated) <==> ModelsFree(m, u, pivot) {
    }
    forall id | Val(t.units, negated) == 0 && Live(s, id) && !Live(t, id) && Mentions(s.clauses[id].lits, negated)
      ensures RestEntailed(t, s.clauses[id].lits, negated)
    {
      assert RestEntailed(t, s.clauses[id].lits, pivot);
      forall m | ModelsFree(m, t, negated) ensures OtherHolds(m, s.clauses[id].lits, negated) {
        assert OtherHolds(m, s.clauses[id].lits, pivot);
      }
    }
  }
}
