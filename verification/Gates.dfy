/** Finding gates: clauses that define the pivot, so that only gate clauses have
    to be resolved with the others. */
module Gates {
  import opened Logic
  import opened Reconstruction
  import opened ElimState
  import opened Elimination
  import opened VariableElimination

  /** From `s` to `t` the formula stays equivalent, clauses keep their literals
      and none is added. */
  ghost predicate Simplified(s: State, t: State) {
    Grows(s, t) && t.clauses.Keys == s.clauses.Keys && forall m :: ModelsAll(m, s) <==> ModelsAll(m, t)
  }

  lemma SimplifiedTransitive(s: State, t: State, u: State)
    requires Simplified(s, t) && Simplified(t, u)
    ensures Simplified(s, u)
  {
  }

  lemma ProgressSimplifies(s: State, t: State, pivot: int)
    requires Progress(s, t, pivot) && t.clauses.Keys == s.clauses.Keys
    ensures Simplified(s, t)
  {
  }

  lemma PropagatedOn(s: State, t: State, u: State, occs: Occs)
    requires Propagated(s, t, occs) && Propagated(t, u, occs) && Simplified(t, u)
    ensures Propagated(s, u, occs)
  {
    PropagatedTransitive(s, t, u, occs);
  }

  /** No clause is marked as gate clause. */
  ghost predicate NoGates(s: State) {
    forall id :: id in s.clauses ==> !s.clauses[id].gate
  }

  /* ---- what makes clauses a gate ---- */

  /** The clauses define the pivot: in every model of the rest one of them has
      only its pivot literal left, and resolving two of them gives nothing. */
  ghost predicate Definition(s: State, ids: set<nat>, pivot: int) {
    && (forall id :: id in ids ==> Live(s, id))
    && (forall m :: ModelsFree(m, s, pivot) ==> exists id :: id in ids && Forces(m, s.clauses[id].lits, pivot))
    && (forall c, d :: c in ids && d in ids && pivot in s.clauses[c].lits && -pivot in s.clauses[d].lits ==>
          ResolventEntailed(s, s.clauses[c].lits, s.clauses[d].lits, pivot))
  }

  function WithGates(s: State, ids: set<nat>): State {
    s.(clauses := map id | id in s.clauses :: if id in ids then s.clauses[id].(gate := true) else s.clauses[id])
  }

  /** Marking clauses makes a gate if and only if they are a definition. */
  lemma DefinitionGate(s: State, ids: set<nat>, pivot: int)
    requires NoGates(s) && forall id :: id in ids ==> Live(s, id)
    ensures GateOk(WithGates(s, ids), pivot) <==> Definition(s, ids, pivot)
  {
    var t := WithGates(s, ids);
    assert forall id :: Live(t, id) <==> Live(s, id);
    assert forall id :: id in s.clauses ==> t.clauses[id].lits == s.clauses[id].lits && (t.clauses[id].gate <==> id in ids);
    forall m ensures ModelsFree(m, t, pivot) <==> ModelsFree(m, s, pivot) {
      if ModelsFree(m, t, pivot) {
        forall id | Live(s, id) && !Mentions(s.clauses[id].lits, pivot) ensures Satisfies(m, s.clauses[id].lits) {
          assert Live(t, id);
        }
      }
    }
    if Definition(s, ids, pivot) {
      DefinitionMakesGate(s, ids, pivot);
    }
    if GateOk(t, pivot) {
      forall m | ModelsFree(m, s, pivot) ensures exists id :: id in ids && Forces(m, s.clauses[id].lits, pivot) {
        var id :| Live(t, id) && t.clauses[id].gate && Forces(m, t.clauses[id].lits, pivot);
        assert id in ids;
      }
      forall c, d | c in ids && d in ids && pivot in s.clauses[c].lits && -pivot in s.clauses[d].lits
        ensures ResolventEntailed(s, s.clauses[c].lits, s.clauses[d].lits, pivot)
      {
        assert Live(t, c) && Live(t, d);
        assert ResolventEntailed(t, t.clauses[c].lits, t.clauses[d].lits, pivot);
      }
    }
  }

  lemma DefinitionMakesGate(s: State, ids: set<nat>, pivot: int)
    requires Definition(s, ids, pivot) && NoGates(s)
    ensures GateOk(WithGates(s, ids), pivot)
  {
    var t := WithGates(s, ids);
    assert forall id :: Live(t, id) <==> Live(s, id);
    assert forall id :: id in s.clauses ==> t.clauses[id].lits == s.clauses[id].lits && (t.clauses[id].gate <==> id in ids);
    forall m | ModelsFree(m, t, pivot)
      ensures exists id :: Live(t, id) && t.clauses[id].gate && Forces(m, t.clauses[id].lits, pivot)
    {
      assert ModelsFree(m, s, pivot);
      var id :| id in ids && Forces(m, s.clauses[id].lits, pivot);
      assert Live(t, id) && t.clauses[id].gate && Forces(m, t.clauses[id].lits, pivot);
    }
    forall c, d | Live(t, c) && Live(t, d) && t.clauses[c].gate && t.clauses[d].gate
                  && pivot in t.clauses[c].lits && -pivot in t.clauses[d].lits
      ensures ResolventEntailed(t, t.clauses[c].lits, t.clauses[d].lits, pivot)
    {
      forall m | ModelsFree(m, t, pivot) ensures ResolventHolds(m, t.clauses[c].lits, t.clauses[d].lits, pivot) {
        assert ModelsFree(m, s, pivot);
        assert ResolventEntailed(s, s.clauses[c].lits, s.clauses[d].lits, pivot);
      }
    }
  }

  /** The clause has, apart from false literals, exactly the given ones. */
  ghost predicate Actual(s: State, id: nat, lits: set<int>) {
    && Live(s, id)
    && (forall l :: l in s.clauses[id].lits ==> l in lits || -l in s.units)
    && (forall l :: l in lits ==> l in s.clauses[id].lits && Val(s.units, l) == 0)
  }

  /** If the other actual literals do not hold, the clause forces the pivot. */
  lemma ActualForces(s: State, n: nat, id: nat, lits: set<int>, pivot: int, m: Model)
    requires StateOk(s, n) && Actual(s, id, lits) && ModelsFree(m, s, pivot) && (pivot in lits || -pivot in lits)
    requires forall l :: l in lits && l != pivot && l != -pivot ==> !Holds(m, l)
    ensures Forces(m, s.clauses[id].lits, pivot)
  {
    var c := s.clauses[id].lits;
    assert LitsOk(c, n);
    forall l | l in c && l != pivot && l != -pivot ensures !Holds(m, l) {
      if l !in lits {
        assert Holds(m, -l);
      }
    }
  }

  /** Clauses with complementary literals besides the pivot. */
  lemma ActualClash(s: State, n: nat, c: nat, cl: set<int>, d: nat, dl: set<int>, pivot: int, l: int)
    requires StateOk(s, n) && Actual(s, c, cl) && Actual(s, d, dl)
    requires pivot in cl && -pivot in dl && l in cl && -l in dl && l != pivot && l != -pivot
    ensures ResolventEntailed(s, s.clauses[c].lits, s.clauses[d].lits, pivot)
  {
    assert LitsOk(s.clauses[c].lits, n) && LitsOk(s.clauses[d].lits, n);
    assert InRange(l, n) && InRange(pivot, n);
    assert -l in s.clauses[d].lits && -(-l) in s.clauses[c].lits;
    ClashEntailed(s, s.clauses[c].lits, s.clauses[d].lits, pivot);
  }

  /* ---- binary clauses ---- */

  /** The actual literals are `first` and `second`. */
  ghost predicate Binary(s: State, id: nat, first: int, second: int) {
    first != second && Actual(s, id, {first, second})
  }

  /** What is garbage afterwards was satisfied; the rest did not change. */
  ghost predicate OnlySatisfied(s: State, t: State) {
    && t.units == s.units && t.unsat == s.unsat && Simplified(s, t)
    && DroppedSatisfied(s, t)
  }

  lemma OnlySatisfiedTransitive(s: State, t: State, u: State)
    requires OnlySatisfied(s, t) && OnlySatisfied(t, u)
    ensures OnlySatisfied(s, u)
  {
    DroppedTransitive(s, t, u);
    SimplifiedTransitive(s, t, u);
  }

  /** A clause without true literal is still there. */
  lemma ActualStays(s: State, t: State, n: nat, id: nat, lits: set<int>)
    requires OnlySatisfied(s, t) && StateOk(s, n) && Actual(s, id, lits)
    ensures Actual(t, id, lits)
  {
    forall l | l in s.clauses[id].lits ensures l !in t.units {
      assert l in lits || -l in s.units;
    }
  }

  /** The second actual literal of a clause with `first`, or zero if there is
      none or more than one; satisfied clauses are dropped on the way. */
  method SecondLiteral(e: Eliminator, id: nat, first: int) returns (second: int)
    requires e.Valid() && Live(e.S(), id) && first in e.clauses[id].lits && Val(e.units, first) == 0
    modifies e`clauses
    ensures e.Valid() && OnlySatisfied(old(e.S()), e.S())
    ensures second != 0 ==> e.S() == old(e.S()) && Binary(e.S(), id, first, second)
    ensures forall x :: Binary(old(e.S()), id, first, x) ==> second == x
  {
    var satisfied, several;
    satisfied, second, several := ScanSecond(e, id, first);
    ghost var s := e.S();
    if satisfied != 0 {
      TrueNotBinary(s, e.range, id, first, satisfied);
      SatisfiedProgress(s, e.range, id, satisfied, first);
      hide Progress, StateOk, OccsOk, Binary, Simplified;
      ProgressSimplifies(s, WithGarbage(s, id), first);
      e.MarkGarbage(id);
      OneDropped(s, id, satisfied);
      second := 0;
    } else if several != 0 {
      NotBinary(s, id, first, second, several);
      second := 0;
      OnlySatisfiedSelf(s);
    } else {
      BinaryIf(s, e.range, id, first, second);
      OnlySatisfiedSelf(s);
    }
  }

  /** A true literal of the clause, or else its first unassigned literal other
      than `first` and another one, if any. */
  method ScanSecond(e: Eliminator, id: nat, first: int) returns (satisfied: int, second: int, several: int)
    requires e.Valid() && Live(e.S(), id)
    ensures satisfied != 0 ==> satisfied in e.clauses[id].lits && satisfied in e.units
    ensures second != 0 ==> second in e.clauses[id].lits && second != first && Val(e.units, second) == 0
    ensures several != 0 ==> several in e.clauses[id].lits && several != first && Val(e.units, several) == 0
    ensures several != 0 ==> second != several && second != 0
    ensures satisfied == 0 && several == 0 ==>
      forall l :: l in e.clauses[id].lits && l != first && (second == 0 || l != second) ==> -l in e.units
  {
    satisfied, second, several := 0, 0, 0;
    var lits := e.clauses[id].lits;
    assert LitsOk(lits, e.range);
    hide StateOk, OccsOk;
    for i := 0 to |lits|
      invariant satisfied == 0 && several == 0
      invariant forall k :: 0 <= k < i && lits[k] != first && (second == 0 || lits[k] != second) ==> -lits[k] in e.units
      invariant second != 0 ==> second in lits[..i] && second in lits && second != first && Val(e.units, second) == 0
    {
      var lit := lits[i];
      assert lit in lits;
      if lit != first {
        var tmp := Val(e.units, lit);
        if tmp > 0 {
          satisfied := lit;
          return;
        }
        if tmp == 0 {
          if second != 0 {
            several := lit;
            return;
          }
          second := lit;
        }
      }
    }
  }

  lemma TrueNotBinary(s: State, n: nat, id: nat, first: int, l: int)
    requires StateOk(s, n) && id in s.clauses && l in s.clauses[id].lits && l in s.units
    ensures forall x :: !Binary(s, id, first, x)
  {
    forall x ensures !Binary(s, id, first, x) {
      assert -l !in s.units && (l in {first, x} ==> Val(s.units, l) != 0);
    }
  }

  lemma OneDropped(s: State, id: nat, l: int)
    requires id in s.clauses && l in s.clauses[id].lits && l in s.units && Simplified(s, WithGarbage(s, id))
    ensures OnlySatisfied(s, WithGarbage(s, id))
  {
    hide Simplified;
  }

  lemma BinaryIf(s: State, n: nat, id: nat, first: int, second: int)
    requires StateOk(s, n) && Live(s, id) && first in s.clauses[id].lits && Val(s.units, first) == 0
    requires second != 0 ==> second in s.clauses[id].lits && second != first && Val(s.units, second) == 0
    requires forall l :: l in s.clauses[id].lits && l != first && (second == 0 || l != second) ==> -l in s.units
    ensures second != 0 ==> Binary(s, id, first, second)
    ensures forall x :: Binary(s, id, first, x) ==> second == x
  {
    forall x | Binary(s, id, first, x) ensures second == x {
      assert x in {first, x} && x in s.clauses[id].lits && Val(s.units, x) == 0;
      assert LitsOk(s.clauses[id].lits, n);
    }
  }

  /** Two further unassigned literals are too many. */
  lemma NotBinary(s: State, id: nat, first: int, a: int, b: int)
    requires id in s.clauses && a in s.clauses[id].lits && b in s.clauses[id].lits
    requires a != b && a != first && b != first && Val(s.units, a) == 0 && Val(s.units, b) == 0
    ensures forall x :: !Binary(s, id, first, x)
  {
    forall x ensures !Binary(s, id, first, x) {
      assert a !in {first, x} || b !in {first, x};
    }
  }

  /** The marked literals are exactly the second ones of binary clauses with
      `first`, and no two are complementary. */
  ghost predicate MarksOk(s: State, os: seq<nat>, i: nat, first: int, marks: set<int>) {
    && i <= |os|
    && (forall k, x {:trigger Binary(s, os[k], first, x)} :: 0 <= k < i && Binary(s, os[k], first, x) ==> x in marks)
    && (forall x {:trigger x in marks} :: x in marks ==> x != 0 && -x !in marks && HasBinary(s, os, i, first, x))
  }

  ghost predicate HasBinary(s: State, os: seq<nat>, i: nat, first: int, x: int)
    requires i <= |os|
  {
    exists k :: 0 <= k < i && Binary(s, os[k], first, x)
  }

  lemma MarksStay(s: State, t: State, n: nat, os: seq<nat>, i: nat, first: int, marks: set<int>)
    requires MarksOk(s, os, i, first, marks) && OnlySatisfied(s, t) && StateOk(s, n)
    ensures MarksOk(t, os, i, first, marks)
  {
    forall k, x | 0 <= k < i && Binary(t, os[k], first, x) ensures x in marks {
      BinaryBack(s, t, os[k], first, x);
    }
    forall x | x in marks ensures HasBinary(t, os, i, first, x) {
      var k :| 0 <= k < i && Binary(s, os[k], first, x);
      ActualStays(s, t, n, os[k], {first, x});
    }
  }

  /** Clauses with `x` and with `-x` give the unit. */
  lemma BinaryUnit(s: State, n: nat, a: nat, b: nat, first: int, x: int)
    requires StateOk(s, n) && Binary(s, a, first, x) && Binary(s, b, first, -x)
    ensures forall m :: ModelsAll(m, s) ==> Holds(m, first)
  {
    forall m | ModelsAll(m, s) ensures Holds(m, first) {
      BinaryHolds(s, n, a, first, x, m);
      BinaryHolds(s, n, b, first, -x, m);
      assert x in {first, x} && LitsOk(s.clauses[a].lits, n) && x != 0;
    }
  }

  lemma BinaryHolds(s: State, n: nat, id: nat, first: int, second: int, m: Model)
    requires StateOk(s, n) && Binary(s, id, first, second) && ModelsAll(m, s)
    ensures Holds(m, first) || Holds(m, second)
  {
    assert Satisfies(m, s.clauses[id].lits) && LitsOk(s.clauses[id].lits, n);
    var l :| l in s.clauses[id].lits && Holds(m, l);
    assert l in {first, second} || Holds(m, -l);
  }

  /** A clause with the same actual literals as another one may go. */
  lemma DropDuplicate(s: State, n: nat, a: nat, id: nat, first: int, x: int)
    requires StateOk(s, n) && Binary(s, a, first, x) && Binary(s, id, first, x) && a != id
    ensures Simplified(s, WithGarbage(s, id)) && StateOk(WithGarbage(s, id), n)
  {
    var t := WithGarbage(s, id);
    assert forall d :: Live(t, d) <==> Live(s, d) && d != id;
    assert Binary(t, a, first, x);
    forall m ensures ModelsAll(m, s) <==> ModelsAll(m, t) {
      if ModelsAll(m, t) {
        BinaryHolds(t, n, a, first, x, m);
        assert first in s.clauses[id].lits && x in s.clauses[id].lits by {
          assert first in {first, x} && x in {first, x};
        }
        forall d | Live(s, d) ensures Satisfies(m, s.clauses[d].lits) {
          assert d != id ==> Live(t, d);
        }
      }
    }
  }

  lemma MarksWithout(s: State, os: seq<nat>, i: nat, first: int, marks: set<int>)
    requires MarksOk(s, os, i, first, marks) && NoDup(os) && i < |os| && os[i] in s.clauses
    ensures MarksOk(WithGarbage(s, os[i]), os, i + 1, first, marks)
  {
    forall k, x | 0 <= k < i + 1 && Binary(WithGarbage(s, os[i]), os[k], first, x) ensures x in marks {
      assert k != i;
      assert Binary(s, os[k], first, x);
    }
    forall x | x in marks ensures HasBinary(WithGarbage(s, os[i]), os, i + 1, first, x) {
      var k :| 0 <= k < i && Binary(s, os[k], first, x);
      assert Binary(WithGarbage(s, os[i]), os[k], first, x);
    }
  }

  lemma MarksMore(s: State, os: seq<nat>, i: nat, first: int, marks: set<int>, x: int)
    requires MarksOk(s, os, i, first, marks) && i < |os| && x != 0 && -x !in marks
    requires Binary(s, os[i], first, x) && forall y :: Binary(s, os[i], first, y) ==> y == x
    ensures MarksOk(s, os, i + 1, first, marks + {x})
  {
    hide Binary;
    forall y | y in marks + {x} ensures y != 0 && -y !in marks + {x} && HasBinary(s, os, i + 1, first, y) {
      if y in marks {
        var k :| 0 <= k < i && Binary(s, os[k], first, y);
        assert k < i + 1;
      } else {
        assert Binary(s, os[i], first, y);
      }
      assert -y == x ==> -x == y;
    }
  }

  /** Treats one clause with `first`. */
  method MarkOne(e: Eliminator, first: int, os: seq<nat>, i: nat, marks: set<int>) returns (found: bool, marks': set<int>)
    requires e.Valid() && !e.unsat && Val(e.units, first) == 0 && InRange(first, e.range) && NoGates(e.S())
    requires os == OccList(e.occs, first) && NoDup(os) && i < |os| && MarksOk(e.S(), os, i, first, marks)
    modifies e`clauses, e`units, e`unsat
    ensures e.Valid() && Simplified(old(e.S()), e.S()) && NoGates(e.S())
    ensures found ==> first in e.units
    ensures !found ==> !e.unsat && e.units == old(e.units) && MarksOk(e.S(), os, i + 1, first, marks')
    ensures Propagated(old(e.S()), e.S(), e.occs)
  {
    hide Propagated;
    found, marks' := false, marks;
    var id := os[i];
    assert OccList(e.occs, first)[i] in e.clauses && first in e.clauses[id].lits;
    ghost var s := e.S();
    PropagatedNothing(s, s, e.occs);
    if e.clauses[id].garbage {
      MarksWiden(s, os, i, first, marks);
      return;
    }
    var second := SecondLiteral(e, id, first);
    PropagatedNothing(s, e.S(), e.occs);
    ghost var t := e.S();
    MarksStay(s, e.S(), e.range, os, i, first, marks);
    GatesStay(s, e.S());
    if second == 0 {
      NoSecond(s, e.S(), e.range, id, first);
    }
    hide OnlySatisfied;
    hide StateOk;
    hide Binary;
    if second == 0 {
      MarksWiden(e.S(), os, i, first, marks);
    } else if -second in marks {
      UnitFound(e.S(), e.range, os, i, first, marks, second);
      found := true;
      AssignAndPropagate(e, first, first);
      PropagatedOn(s, t, e.S(), e.occs);
    } else if second in marks {
      DuplicateFound(e.S(), e.range, os, i, first, marks, second);
      e.MarkGarbage(id);
      PropagatedNothing(s, e.S(), e.occs);
    } else {
      SecondNonZero(e.S(), e.range, id, first, second);
      MarksMore(e.S(), os, i, first, marks, second);
      marks' := marks + {second};
    }
  }

  /** A clause without second literal is not binary afterwards either. */
  lemma NoSecond(s: State, t: State, n: nat, id: nat, first: int)
    requires StateOk(s, n) && OnlySatisfied(s, t) && forall x :: Binary(s, id, first, x) ==> x == 0
    ensures forall x :: !Binary(t, id, first, x)
  {
    forall x ensures !Binary(t, id, first, x) {
      if Binary(t, id, first, x) {
        BinaryBack(s, t, id, first, x);
        SecondNonZero(s, n, id, first, x);
      }
    }
  }

  /** Assigns a consequence and propagates it. */
  method AssignAndPropagate(e: Eliminator, unit: int, ghost pivot: int)
    requires e.Valid() && !e.unsat && Val(e.units, unit) == 0 && InRange(unit, e.range) && NoGates(e.S())
    requires forall m :: ModelsAll(m, e.S()) ==> Holds(m, unit)
    modifies e`clauses, e`units, e`unsat
    ensures e.Valid() && Simplified(old(e.S()), e.S()) && NoGates(e.S()) && DroppedSatisfied(old(e.S()), e.S())
    ensures unit in e.units && old(e.units) <= e.units
    ensures Propagated(old(e.S()), e.S(), e.occs)
    ensures !e.unsat && old(e.Connected()) ==> UnitsSettled(e.S(), old(e.units), unit)
  {
    hide Dropped, Indexed, ListsComplete, UnitsSettled;
    ghost var s := e.S();
    UnitProgress(s, e.range, unit, pivot);
    if e.Connected() {
      ListsKnown(s, e.occs, unit);
    }
    e.AssignUnit(unit);
    ghost var t := e.S();
    e.ElimPropagate(unit, pivot);
    if !e.unsat && old(e.Connected()) {
      SettledSince(e.S(), s.units, unit);
    }
    ProgressTransitive(s, t, e.S(), pivot);
    ProgressSimplifies(s, e.S(), pivot);
    ProgressNoGates(s, e.S(), pivot);
    assert DroppedSatisfied(s, t);
    DroppedTransitive(s, t, e.S());
  }

  lemma ProgressNoGates(s: State, t: State, pivot: int)
    requires Progress(s, t, pivot) && NoGates(s)
    ensures NoGates(t)
  {
  }

  lemma GatesStay(s: State, t: State)
    requires OnlySatisfied(s, t)
    ensures NoGates(s) ==> NoGates(t)
    ensures Simplified(s, t) && t.units == s.units && t.unsat == s.unsat
  {
  }

  lemma MarksWiden(s: State, os: seq<nat>, i: nat, first: int, marks: set<int>)
    requires MarksOk(s, os, i, first, marks) && i < |os| && forall x :: !Binary(s, os[i], first, x)
    ensures MarksOk(s, os, i + 1, first, marks)
  {
    forall x | x in marks ensures HasBinary(s, os, i + 1, first, x) {
      var k :| 0 <= k < i && Binary(s, os[k], first, x);
      assert k < i + 1;
    }
  }

  lemma UnitFound(s: State, n: nat, os: seq<nat>, i: nat, first: int, marks: set<int>, second: int)
    requires StateOk(s, n) && MarksOk(s, os, i, first, marks) && i < |os|
    requires Binary(s, os[i], first, second) && -second in marks
    ensures forall m :: ModelsAll(m, s) ==> Holds(m, first)
  {
    var k :| 0 <= k < i && Binary(s, os[k], first, -second);
    BinaryUnit(s, n, os[i], os[k], first, second);
  }

  lemma DuplicateFound(s: State, n: nat, os: seq<nat>, i: nat, first: int, marks: set<int>, second: int)
    requires StateOk(s, n) && MarksOk(s, os, i, first, marks) && NoDup(os) && i < |os|
    requires Binary(s, os[i], first, second) && second in marks
    ensures Simplified(s, WithGarbage(s, os[i])) && StateOk(WithGarbage(s, os[i]), n)
    ensures MarksOk(WithGarbage(s, os[i]), os, i + 1, first, marks)
    ensures NoGates(s) ==> NoGates(WithGarbage(s, os[i]))
  {
    var k :| 0 <= k < i && Binary(s, os[k], first, second);
    DropDuplicate(s, n, os[k], os[i], first, second);
    MarksWithout(s, os, i, first, marks);
  }

  lemma SecondNonZero(s: State, n: nat, id: nat, first: int, second: int)
    requires StateOk(s, n) && Binary(s, id, first, second)
    ensures InRange(second, n)
  {
    assert second in {first, second} && LitsOk(s.clauses[id].lits, n);
  }

  /** Collects the second literals of all binary clauses with `first`, which is
      assigned if two of them are complementary. */
  method MarkBinaryLiterals(e: Eliminator, first: int) returns (marks: set<int>)
    requires e.Valid() && !e.unsat && Val(e.units, first) == 0 && InRange(first, e.range)
    requires NoDup(OccList(e.occs, first)) && NoGates(e.S())
    modifies e`clauses, e`units, e`unsat
    ensures e.Valid() && Simplified(old(e.S()), e.S()) && NoGates(e.S())
    ensures e.unsat || Val(e.units, first) != 0 ||
            (e.units == old(e.units) && MarksOk(e.S(), OccList(e.occs, first), |OccList(e.occs, first)|, first, marks))
    ensures Propagated(old(e.S()), e.S(), e.occs)
  {
    hide Propagated;
    marks := {};
    var os := OccList(e.occs, first);
    ghost var s0 := e.S();
    PropagatedNothing(s0, s0, e.occs);
    var i := 0;
    while i < |os|
      invariant 0 <= i <= |os| && os == OccList(e.occs, first)
      invariant e.Valid() && !e.unsat && e.units == s0.units && Propagated(s0, e.S(), e.occs)
      invariant Simplified(s0, e.S()) && NoGates(e.S()) && MarksOk(e.S(), os, i, first, marks)
    {
      ghost var s := e.S();
      var found: bool;
      found, marks := MarkOne(e, first, os, i, marks);
      PropagatedOn(s0, s, e.S(), e.occs);
      SimplifiedTransitive(s0, s, e.S());
      if found {
        return;
      }
      i := i + 1;
    }
  }

  /* ---- equivalences ---- */

  /** Marks that may be out of date: those of unassigned literals still have
      their binary clause. */
  ghost predicate StaleMarks(s: State, ps: seq<nat>, pivot: int, marks: set<int>) {
    forall x {:trigger x in marks} :: x in marks && Val(s.units, x) == 0 ==> HasBinary(s, ps, |ps|, pivot, x)
  }

  lemma StaleStay(s: State, t: State, n: nat, ps: seq<nat>, pivot: int, marks: set<int>)
    requires StaleMarks(s, ps, pivot, marks) && StateOk(t, n) && Val(t.units, pivot) == 0
    requires Grows(s, t) && DroppedSatisfied(s, t)
    ensures StaleMarks(t, ps, pivot, marks)
  {
    forall x | x in marks && Val(t.units, x) == 0 ensures HasBinary(t, ps, |ps|, pivot, x) {
      assert HasBinary(s, ps, |ps|, pivot, x);
      var k :| 0 <= k < |ps| && Binary(s, ps[k], pivot, x);
      BinaryStays(s, t, n, ps[k], pivot, x);
    }
  }

  lemma BinaryStays(s: State, t: State, n: nat, id: nat, pivot: int, x: int)
    requires Binary(s, id, pivot, x) && StateOk(t, n) && Val(t.units, pivot) == 0 && Val(t.units, x) == 0
    requires Grows(s, t) && DroppedSatisfied(s, t)
    ensures Binary(t, id, pivot, x)
  {
    assert forall l :: l in s.units ==> l in t.units;
    forall l | l in s.clauses[id].lits ensures l !in t.units {
      assert l in {pivot, x} || -l in s.units;
      assert l in t.units ==> -l !in t.units;
    }
    assert Live(t, id);
  }

  lemma MarksStale(s: State, ps: seq<nat>, pivot: int, marks: set<int>)
    requires MarksOk(s, ps, |ps|, pivot, marks)
    ensures StaleMarks(s, ps, pivot, marks)
  {
  }

  /** The two clauses of an equivalence define the pivot. */
  lemma EquivalenceDefines(s: State, n: nat, c: nat, d: nat, pivot: int, second: int)
    requires StateOk(s, n) && Binary(s, c, -pivot, second) && Binary(s, d, pivot, -second) && pivot != 0 && second != 0
    ensures Definition(s, {c, d}, pivot)
  {
    assert -pivot in {-pivot, second} && second in {-pivot, second} && pivot in {pivot, -second} && -second in {pivot, -second};
    assert LitsOk(s.clauses[c].lits, n) && LitsOk(s.clauses[d].lits, n);
    assert pivot !in s.clauses[c].lits && -pivot !in s.clauses[d].lits;
    assert second != pivot && -second != -pivot;
    forall m | ModelsFree(m, s, pivot) ensures exists id :: id in {c, d} && Forces(m, s.clauses[id].lits, pivot) {
      if Holds(m, second) {
        ActualForces(s, n, d, {pivot, -second}, pivot, m);
        assert d in {c, d};
      } else {
        ActualForces(s, n, c, {-pivot, second}, pivot, m);
        assert c in {c, d};
      }
    }
    assert -(-second) == second;
    ActualClash(s, n, d, {pivot, -second}, c, {-pivot, second}, pivot, -second);
  }

  lemma BinaryPosition(s: State, ps: seq<nat>, pivot: int, other: int) returns (k: nat)
    requires HasBinary(s, ps, |ps|, pivot, other)
    ensures k < |ps| && Binary(s, ps[k], pivot, other)
  {
    k :| 0 <= k < |ps| && Binary(s, ps[k], pivot, other);
  }

  /** The clause with `pivot` and `-second`, which is known to be there. */
  method FindOther(e: Eliminator, ps: seq<nat>, pivot: int, second: int) returns (d: nat)
    requires e.Valid() && Val(e.units, pivot) == 0 && ps == OccList(e.occs, pivot)
    requires HasBinary(e.S(), ps, |ps|, pivot, -second) && second != 0 && NoGates(e.S())
    modifies e`clauses
    ensures e.Valid() && OnlySatisfied(old(e.S()), e.S()) && Binary(e.S(), d, pivot, -second) && NoGates(e.S())
  {
    hide StateOk, OccsOk, OnlySatisfied, NoGates, Binary, HasBinary, OccList, Val;
    ghost var s, units := e.S(), e.units;
    ghost var k := BinaryPosition(s, ps, pivot, -second);
    OnlySatisfiedSelf(s);
    var i := 0;
    var found := false;
    d := 0;
    while !found && i < |ps|
      invariant 0 <= i <= |ps| && (!found ==> i <= k)
      invariant e.Valid() && OnlySatisfied(s, e.S()) && NoGates(e.S()) && e.units == units
      invariant ps == OccList(e.occs, pivot)
      invariant Binary(e.S(), ps[k], pivot, -second)
      invariant found ==> Binary(e.S(), d, pivot, -second)
    {
      ghost var t := e.S();
      var other := SecondOf(e, ps, i, pivot);
      BinaryKept(t, e.S(), e.range, ps[k], pivot, -second);
      OnlySatisfiedTransitive(s, t, e.S());
      if other == -second {
        d := ps[i];
        found := true;
      }
      i := i + 1;
    }
  }

  /** The second literal of a clause with `first`, or zero. */
  method SecondOf(e: Eliminator, os: seq<nat>, i: nat, first: int) returns (other: int)
    requires e.Valid() && Val(e.units, first) == 0 && os == OccList(e.occs, first) && i < |os|
    modifies e`clauses
    ensures e.Valid() && OnlySatisfied(old(e.S()), e.S()) && e.units == old(e.units) && e.unsat == old(e.unsat)
    ensures NoGates(old(e.S())) ==> NoGates(e.S())
    ensures other != 0 ==> e.S() == old(e.S()) && Binary(e.S(), os[i], first, other)
    ensures forall x :: Binary(old(e.S()), os[i], first, x) ==> other == x
  {
    assert OccList(e.occs, first)[i] in e.clauses && first in e.clauses[os[i]].lits;
    other := 0;
    ghost var s := e.S();
    if e.clauses[os[i]].garbage {
      OnlySatisfiedSelf(s);
    } else {
      other := SecondLiteral(e, os[i], first);
      OnlySatisfiedFacts(s, e.S());
    }
  }

  lemma BinaryKept(s: State, t: State, n: nat, id: nat, first: int, second: int)
    requires OnlySatisfied(s, t) && StateOk(s, n) && Binary(s, id, first, second)
    ensures Binary(t, id, first, second)
  {
    ActualStays(s, t, n, id, {first, second});
  }

  lemma OnlySatisfiedSelf(s: State)
    ensures OnlySatisfied(s, s)
  {
  }

  /** Some clause of `ns` with the negated pivot has a partner among `ps`. */
  ghost predicate HasEquivalence(s: State, ps: seq<nat>, ns: seq<nat>, pivot: int, negated: int) {
    exists i, x :: 0 <= i < |ns| && Binary(s, ns[i], negated, x) && HasBinary(s, ps, |ps|, pivot, -x)
  }

  /** The second literal of the clause is not marked with any sign. */
  ghost predicate Unmatched(s: State, id: nat, negated: int, marks: set<int>) {
    forall x :: Binary(s, id, negated, x) ==> x !in marks && -x !in marks
  }

  ghost predicate UnmatchedUpTo(s: State, ns: seq<nat>, i: nat, negated: int, marks: set<int>)
    requires i <= |ns|
  {
    forall k {:trigger ns[k]} :: 0 <= k < i ==> Unmatched(s, ns[k], negated, marks)
  }

  lemma UnmatchedKept(s: State, t: State, ns: seq<nat>, i: nat, negated: int, marks: set<int>)
    requires i < |ns| && UnmatchedUpTo(s, ns, i, negated, marks) && OnlySatisfied(s, t) && Unmatched(t, ns[i], negated, marks)
    ensures UnmatchedUpTo(t, ns, i + 1, negated, marks)
  {
    forall k, x | 0 <= k < i && Binary(t, ns[k], negated, x) ensures x !in marks && -x !in marks {
      BinaryBack(s, t, ns[k], negated, x);
      assert Unmatched(s, ns[k], negated, marks);
    }
  }

  lemma NoneFound(s: State, ps: seq<nat>, ns: seq<nat>, pivot: int, negated: int, marks: set<int>)
    requires UnmatchedUpTo(s, ns, |ns|, negated, marks) && MarksOk(s, ps, |ps|, pivot, marks)
    ensures !HasEquivalence(s, ps, ns, pivot, negated)
  {
    forall i, x | 0 <= i < |ns| && Binary(s, ns[i], negated, x) ensures !HasBinary(s, ps, |ps|, pivot, -x) {
      assert Unmatched(s, ns[i], negated, marks);
    }
  }

  /** Looks for an equivalence; the result is the set of its two clauses, or
      empty.  If no unit turns up none is missed. */
  method FindEquivalence(e: Eliminator, pivot: int) returns (gates: set<nat>)
    requires e.Valid() && !e.unsat && Val(e.units, pivot) == 0 && InRange(pivot, e.range) && NoGates(e.S())
    requires NoDup(OccList(e.occs, pivot))
    modifies e`clauses, e`units, e`unsat
    ensures e.Valid() && Simplified(old(e.S()), e.S()) && NoGates(e.S())
    ensures gates != {} ==> !e.unsat && Val(e.units, pivot) == 0 && Definition(e.S(), gates, pivot)
    ensures gates == {} && !e.unsat && e.units == old(e.units) ==>
      !HasEquivalence(e.S(), OccList(e.occs, pivot), OccList(e.occs, -pivot), pivot, -pivot)
    ensures Propagated(old(e.S()), e.S(), e.occs)
  {
    hide Propagated;
    gates := {};
    ghost var s0 := e.S();
    var marks := MarkBinaryLiterals(e, pivot);
    if e.unsat || Val(e.units, pivot) != 0 {
      return;
    }
    var ps, ns := OccList(e.occs, pivot), OccList(e.occs, -pivot);
    MarksStale(e.S(), ps, pivot, marks);
    NothingSearched(e.S(), ps, ns, pivot, marks);
    hide MarksOk;
    hide StaleMarks;
    hide Searched, HasEquivalence;
    hide Simplified;
    hide Definition;
    hide StateOk;
    hide OccsOk;
    var i := 0;
    var go := true;
    while go && i < |ns|
      invariant 0 <= i <= |ns| && ps == OccList(e.occs, pivot) && ns == OccList(e.occs, -pivot)
      invariant e.Valid() && Simplified(s0, e.S()) && NoGates(e.S()) && Propagated(s0, e.S(), e.occs)
      invariant go ==> !e.unsat && Val(e.units, pivot) == 0 && StaleMarks(e.S(), ps, pivot, marks)
      invariant go ==> gates == {}
      invariant gates != {} ==> !e.unsat && Val(e.units, pivot) == 0 && Definition(e.S(), gates, pivot)
      invariant s0.units <= e.units && (e.units == s0.units && !e.unsat && gates == {} ==> go && Searched(e.S(), ps, ns, i, pivot, marks))
    {
      ghost var s := e.S();
      go, gates := EquivalenceAt(e, pivot, ps, ns, i, marks);
      PropagatedOn(s0, s, e.S(), e.occs);
      SimplifiedTransitive(s0, s, e.S());
      i := i + 1;
    }
    if e.units == s0.units && !e.unsat && gates == {} {
      SearchedAll(e.S(), ps, ns, pivot, marks);
    }
  }

  /** The first `i` clauses have no partner, and the marks are up to date. */
  ghost predicate Searched(s: State, ps: seq<nat>, ns: seq<nat>, i: nat, pivot: int, marks: set<int>) {
    i <= |ns| && UnmatchedUpTo(s, ns, i, -pivot, marks) && MarksOk(s, ps, |ps|, pivot, marks)
  }

  lemma NothingSearched(s: State, ps: seq<nat>, ns: seq<nat>, pivot: int, marks: set<int>)
    requires MarksOk(s, ps, |ps|, pivot, marks)
    ensures Searched(s, ps, ns, 0, pivot, marks)
  {
  }

  lemma SearchedAll(s: State, ps: seq<nat>, ns: seq<nat>, pivot: int, marks: set<int>)
    requires Searched(s, ps, ns, |ns|, pivot, marks)
    ensures !HasEquivalence(s, ps, ns, pivot, -pivot)
  {
    NoneFound(s, ps, ns, pivot, -pivot, marks);
  }

  lemma SearchedNext(s: State, t: State, n: nat, ps: seq<nat>, ns: seq<nat>, i: nat, pivot: int, negated: int,
                     marks: set<int>, x: int)
    requires OnlySatisfied(s, t) && StateOk(s, n) && i < |ns| && negated == -pivot
    requires forall y :: Binary(s, ns[i], negated, y) ==> x == y
    requires (x !in marks && -x !in marks) || x == 0
    ensures Searched(s, ps, ns, i, pivot, marks) ==> Searched(t, ps, ns, i + 1, pivot, marks)
  {
    hide *;
    if Searched(s, ps, ns, i, pivot, marks) {
      SearchedMeans(s, ps, ns, i, pivot, negated, marks);
      MarksStay(s, t, n, ps, |ps|, pivot, marks);
      UnmatchedNow(s, t, n, ns[i], negated, marks, x);
      UnmatchedKept(s, t, ns, i, negated, marks);
      SearchedMeans(t, ps, ns, i + 1, pivot, negated, marks);
    }
  }

  lemma SearchedMeans(s: State, ps: seq<nat>, ns: seq<nat>, i: nat, pivot: int, negated: int, marks: set<int>)
    requires i <= |ns| && negated == -pivot
    ensures Searched(s, ps, ns, i, pivot, marks) <==>
            UnmatchedUpTo(s, ns, i, negated, marks) && MarksOk(s, ps, |ps|, pivot, marks)
  {
  }

  lemma UnmatchedNow(s: State, t: State, n: nat, id: nat, negated: int, marks: set<int>, x: int)
    requires OnlySatisfied(s, t) && StateOk(s, n) && forall y :: Binary(s, id, negated, y) ==> x == y
    requires (x !in marks && -x !in marks) || x == 0
    ensures Unmatched(t, id, negated, marks)
  {
    forall y | Binary(t, id, negated, y) ensures y !in marks && -y !in marks {
      BinaryBack(s, t, id, negated, y);
      SecondNonZero(s, n, id, negated, y);
    }
  }

  /** Treats one clause with the negation of the pivot. */
  method EquivalenceAt(e: Eliminator, pivot: int, ps: seq<nat>, ns: seq<nat>, i: nat, marks: set<int>)
    returns (go: bool, gates: set<nat>)
    requires e.Valid() && !e.unsat && Val(e.units, pivot) == 0 && InRange(pivot, e.range) && NoGates(e.S())
    requires ps == OccList(e.occs, pivot) && ns == OccList(e.occs, -pivot) && i < |ns|
    requires StaleMarks(e.S(), ps, pivot, marks)
    modifies e`clauses, e`units, e`unsat
    ensures e.Valid() && Simplified(old(e.S()), e.S()) && NoGates(e.S())
    ensures go ==> gates == {} && !e.unsat && Val(e.units, pivot) == 0 && StaleMarks(e.S(), ps, pivot, marks)
    ensures gates != {} ==> !e.unsat && Val(e.units, pivot) == 0 && Definition(e.S(), gates, pivot)
    ensures old(e.units) <= e.units
    ensures gates == {} && !e.unsat && e.units == old(e.units) ==>
      go && (old(Searched(e.S(), ps, ns, i, pivot, marks)) ==> Searched(e.S(), ps, ns, i + 1, pivot, marks))
    ensures Propagated(old(e.S()), e.S(), e.occs)
  {
    hide Propagated, Searched;
    go, gates := true, {};
    var id := ns[i];
    assert OccList(e.occs, -pivot)[i] in e.clauses && -pivot in e.clauses[id].lits;
    ghost var s := e.S();
    PropagatedNothing(s, s, e.occs);
    if e.clauses[id].garbage {
      OnlySatisfiedSelf(s);
      SearchedNext(s, s, e.range, ps, ns, i, pivot, -pivot, marks, 0);
      return;
    }
    var second := SecondLiteral(e, id, -pivot);
    OnlySatisfiedFacts(s, e.S());
    PropagatedNothing(s, e.S(), e.occs);
    StaleStay(s, e.S(), e.range, ps, pivot, marks);
    if second == 0 || (second !in marks && -second !in marks) {
      SearchedNext(s, e.S(), e.range, ps, ns, i, pivot, -pivot, marks, second);
      return;
    }
    SecondNonZero(e.S(), e.range, id, -pivot, second);
    if second in marks {
      ghost var t := e.S();
      go := PropagateSecond(e, pivot, ps, id, marks, second);
      PropagatedOn(s, t, e.S(), e.occs);
      return;
    }
    if -second in marks {
      assert Val(e.units, -second) == 0 by {
        assert second in {-pivot, second};
      }
      var d := FindOther(e, ps, pivot, second);
      ActualStays(s, e.S(), e.range, id, {-pivot, second});
      OnlySatisfiedFacts(s, e.S());
      PropagatedNothing(s, e.S(), e.occs);
      EquivalenceDefines(e.S(), e.range, id, d, pivot, second);
      gates := {id, d};
      go := false;
    }
  }

  lemma OnlySatisfiedFacts(s: State, t: State)
    requires OnlySatisfied(s, t)
    ensures Grows(s, t) && DroppedSatisfied(s, t) && Simplified(s, t) && t.units == s.units && t.unsat == s.unsat
    ensures NoGates(s) ==> NoGates(t)
  {
  }

  /** Clauses with and without the pivot and the same second literal: a unit. */
  method PropagateSecond(e: Eliminator, pivot: int, ps: seq<nat>, id: nat, marks: set<int>, second: int) returns (go: bool)
    requires e.Valid() && !e.unsat && Val(e.units, pivot) == 0 && InRange(pivot, e.range) && NoGates(e.S())
    requires StaleMarks(e.S(), ps, pivot, marks) && Binary(e.S(), id, -pivot, second) && second in marks && InRange(second, e.range)
    modifies e`clauses, e`units, e`unsat
    ensures e.Valid() && Simplified(old(e.S()), e.S()) && NoGates(e.S())
    ensures go ==> !e.unsat && Val(e.units, pivot) == 0 && StaleMarks(e.S(), ps, pivot, marks)
    ensures old(e.units) <= e.units && second in e.units && second !in old(e.units)
    ensures Propagated(old(e.S()), e.S(), e.occs)
  {
    hide Propagated;
    ghost var s := e.S();
    assert Val(e.units, second) == 0 by {
      assert second in {-pivot, second};
    }
    assert HasBinary(s, ps, |ps|, pivot, second);
    ghost var k :| 0 <= k < |ps| && Binary(s, ps[k], pivot, second);
    SecondUnit(s, e.range, ps[k], id, pivot, second);
    AssignAndPropagate(e, second, pivot);
    go := Val(e.units, pivot) == 0 && !e.unsat;
    if go {
      StaleStay(s, e.S(), e.range, ps, pivot, marks);
    }
  }

  lemma SecondUnit(s: State, n: nat, a: nat, b: nat, pivot: int, x: int)
    requires StateOk(s, n) && Binary(s, a, pivot, x) && Binary(s, b, -pivot, x) && pivot != 0
    ensures forall m :: ModelsAll(m, s) ==> Holds(m, x)
  {
    forall m | ModelsAll(m, s) ensures Holds(m, x) {
      BinaryHolds(s, n, a, pivot, x, m);
      BinaryHolds(s, n, b, -pivot, x, m);
    }
  }

  /* ---- AND gates ---- */

  /** The unassigned literals of the base clause other than the negated pivot. */
  function Inputs(s: State, id: nat, pivot: int): set<int>
    requires id in s.clauses
  {
    set l | l in s.clauses[id].lits && l != -pivot && Val(s.units, l) == 0
  }

  /** A base clause: its inputs are negated in binary clauses with the pivot. */
  ghost predicate Base(s: State, id: nat, pivot: int, marks: set<int>) {
    && Live(s, id) && -pivot in s.clauses[id].lits
    && (forall l :: l in s.clauses[id].lits && l != -pivot ==> -l in s.units || (Val(s.units, l) == 0 && -l in marks))
  }

  /** The sides found: binary clauses with the pivot and a negated input. */
  ghost predicate Sides(s: State, sides: set<nat>, inputs: set<int>, pivot: int) {
    forall id {:trigger id in sides} :: id in sides ==> exists l :: l in inputs && Binary(s, id, pivot, -l)
  }

  ghost predicate Covered(s: State, sides: set<nat>, inputs: set<int>, pivot: int) {
    forall l {:trigger l in inputs} :: l in inputs ==> exists id :: id in sides && Binary(s, id, pivot, -l)
  }

  /** The base clause and sides for all inputs define the pivot. */
  lemma AndDefines(s: State, n: nat, base: nat, sides: set<nat>, pivot: int, marks: set<int>)
    requires StateOk(s, n) && Base(s, base, pivot, marks) && pivot != 0 && Val(s.units, pivot) == 0
    requires Sides(s, sides, Inputs(s, base, pivot), pivot) && Covered(s, sides, Inputs(s, base, pivot), pivot)
    ensures Definition(s, {base} + sides, pivot)
  {
    AndLive(s, base, sides, pivot, marks);
    forall m | ModelsFree(m, s, pivot)
      ensures exists id :: id in {base} + sides && id in s.clauses && Forces(m, s.clauses[id].lits, pivot)
    {
      AndForces(s, n, base, sides, pivot, marks, m);
    }
    forall c, d | c in {base} + sides && d in {base} + sides && c in s.clauses && d in s.clauses
                  && pivot in s.clauses[c].lits && -pivot in s.clauses[d].lits
      ensures ResolventEntailed(s, s.clauses[c].lits, s.clauses[d].lits, pivot)
    {
      AndClash(s, n, base, sides, pivot, marks, c, d);
    }
    hide *;
    DefinitionOf(s, {base} + sides, pivot);
  }

  lemma DefinitionOf(s: State, ids: set<nat>, pivot: int)
    requires forall id :: id in ids ==> Live(s, id) && id in s.clauses
    requires forall m :: ModelsFree(m, s, pivot) ==> exists id :: id in ids && id in s.clauses && Forces(m, s.clauses[id].lits, pivot)
    requires forall c, d :: c in ids && d in ids && c in s.clauses && d in s.clauses
                            && pivot in s.clauses[c].lits && -pivot in s.clauses[d].lits ==>
                              ResolventEntailed(s, s.clauses[c].lits, s.clauses[d].lits, pivot)
    ensures Definition(s, ids, pivot)
  {
    hide Live;
    hide ModelsFree;
    hide Forces;
    hide ResolventEntailed;
  }

  lemma AndLive(s: State, base: nat, sides: set<nat>, pivot: int, marks: set<int>)
    requires Base(s, base, pivot, marks) && Sides(s, sides, Inputs(s, base, pivot), pivot)
    ensures forall id :: id in {base} + sides ==> Live(s, id) && id in s.clauses
  {
    forall id | id in {base} + sides ensures Live(s, id) && id in s.clauses {
      if id in sides {
        var l :| l in Inputs(s, base, pivot) && Binary(s, id, pivot, -l);
      }
    }
  }

  lemma InputNonZero(s: State, n: nat, base: nat, pivot: int, l: int)
    requires StateOk(s, n) && base in s.clauses && -pivot in s.clauses[base].lits && l in Inputs(s, base, pivot)
    ensures l != 0 && l != pivot && l != -pivot
  {
    assert LitsOk(s.clauses[base].lits, n);
  }

  lemma BaseActual(s: State, n: nat, base: nat, pivot: int, marks: set<int>)
    requires StateOk(s, n) && Base(s, base, pivot, marks) && Val(s.units, pivot) == 0
    ensures Actual(s, base, Inputs(s, base, pivot) + {-pivot})
  {
    assert LitsOk(s.clauses[base].lits, n);
    assert -(-pivot) == pivot;
  }

  lemma SidePivot(s: State, n: nat, sides: set<nat>, inputs: set<int>, pivot: int)
    requires StateOk(s, n) && Sides(s, sides, inputs, pivot)
    ensures forall d :: d in sides ==> d in s.clauses && -pivot !in s.clauses[d].lits
  {
    forall d | d in sides ensures d in s.clauses && -pivot !in s.clauses[d].lits {
      var k :| k in inputs && Binary(s, d, pivot, -k);
      assert pivot in {pivot, -k} && LitsOk(s.clauses[d].lits, n);
    }
  }

  /** In every model one of the clauses has only its pivot literal left. */
  lemma AndForces(s: State, n: nat, base: nat, sides: set<nat>, pivot: int, marks: set<int>, m: Model)
    requires StateOk(s, n) && Base(s, base, pivot, marks) && pivot != 0 && Val(s.units, pivot) == 0
    requires Covered(s, sides, Inputs(s, base, pivot), pivot) && ModelsFree(m, s, pivot)
    ensures exists id :: id in {base} + sides && id in s.clauses && Forces(m, s.clauses[id].lits, pivot)
  {
    var inputs := Inputs(s, base, pivot);
    BaseActual(s, n, base, pivot, marks);
    hide ModelsFree;
    hide StateOk;
    if l :| l in inputs && Holds(m, l) {
      var id :| id in sides && Binary(s, id, pivot, -l);
      InputNonZero(s, n, base, pivot, l);
      ActualForces(s, n, id, {pivot, -l}, pivot, m);
      assert id in {base} + sides;
    } else {
      ActualForces(s, n, base, inputs + {-pivot}, pivot, m);
      assert base in {base} + sides;
    }
  }

  lemma AndClash(s: State, n: nat, base: nat, sides: set<nat>, pivot: int, marks: set<int>, c: nat, d: nat)
    requires StateOk(s, n) && Base(s, base, pivot, marks) && pivot != 0 && Val(s.units, pivot) == 0
    requires Sides(s, sides, Inputs(s, base, pivot), pivot)
    requires c in {base} + sides && d in {base} + sides && c in s.clauses && d in s.clauses
    requires pivot in s.clauses[c].lits && -pivot in s.clauses[d].lits
    ensures ResolventEntailed(s, s.clauses[c].lits, s.clauses[d].lits, pivot)
  {
    BaseActual(s, n, base, pivot, marks);
    assert LitsOk(s.clauses[c].lits, n) && LitsOk(s.clauses[d].lits, n);
    SidePivot(s, n, sides, Inputs(s, base, pivot), pivot);
    assert c in sides && d == base;
    var l :| l in Inputs(s, base, pivot) && Binary(s, c, pivot, -l);
    InputNonZero(s, n, base, pivot, l);
    assert -(-l) == l;
    ActualClash(s, n, c, {pivot, -l}, base, Inputs(s, base, pivot) + {-pivot}, pivot, -l);
  }

  /** Whether all literals of the candidate are false or marked negatively. */
  method ExamineBase(e: Eliminator, id: nat, pivot: int, marks: set<int>) returns (all: bool, satisfied: int)
    requires e.Valid() && Live(e.S(), id) && -pivot in e.clauses[id].lits
    ensures satisfied != 0 ==> all && satisfied in e.clauses[id].lits && satisfied in e.units
    ensures all && satisfied == 0 <==> Base(e.S(), id, pivot, marks)
  {
    var lits := e.clauses[id].lits;
    assert LitsOk(lits, e.range);
    all, satisfied := true, 0;
    var i := 0;
    while i < |lits|
      invariant 0 <= i <= |lits| && all && satisfied == 0
      invariant forall k :: 0 <= k < i && lits[k] != -pivot ==>
        -lits[k] in e.units || (Val(e.units, lits[k]) == 0 && -lits[k] in marks)
    {
      var lit := lits[i];
      assert lit in lits;
      if lit != -pivot {
        var tmp := Val(e.units, lit);
        if tmp > 0 {
          satisfied := lit;
          return;
        }
        if tmp == 0 && -lit !in marks {
          all := false;
          return;
        }
      }
      i := i + 1;
    }
  }

  lemma BaseKept(s: State, t: State, n: nat, id: nat, pivot: int, marks: set<int>)
    requires StateOk(s, n) && OnlySatisfied(s, t) && Base(s, id, pivot, marks) && Val(s.units, pivot) == 0
    ensures Base(t, id, pivot, marks) && Inputs(t, id, pivot) == Inputs(s, id, pivot)
  {
    BaseActual(s, n, id, pivot, marks);
    ActualStays(s, t, n, id, Inputs(s, id, pivot) + {-pivot});
  }

  lemma SidesKept(s: State, t: State, n: nat, sides: set<nat>, inputs: set<int>, pivot: int)
    requires StateOk(s, n) && OnlySatisfied(s, t) && Sides(s, sides, inputs, pivot)
    ensures Sides(t, sides, inputs, pivot)
  {
    forall id | id in sides ensures exists l :: l in inputs && Binary(t, id, pivot, -l) {
      var l :| l in inputs && Binary(s, id, pivot, -l);
      BinaryKept(s, t, n, id, pivot, -l);
    }
  }

  /** Sides found among the first `i` clauses with the pivot. */
  ghost predicate CoveredUpTo(s: State, sides: set<nat>, inputs: set<int>, pivot: int, ps: seq<nat>, i: nat) {
    && i <= |ps|
    && forall k {:trigger ps[k]} :: 0 <= k < i && ps[k] !in sides ==> NoSide(s, ps[k], inputs, pivot)
  }

  ghost predicate NoSide(s: State, id: nat, inputs: set<int>, pivot: int) {
    forall l {:trigger l in inputs} :: l in inputs ==> !Binary(s, id, pivot, -l)
  }

  lemma CoveredKept(s: State, t: State, sides: set<nat>, inputs: set<int>, pivot: int, ps: seq<nat>, i: nat)
    requires CoveredUpTo(s, sides, inputs, pivot, ps, i) && OnlySatisfied(s, t)
    ensures CoveredUpTo(t, sides, inputs, pivot, ps, i)
  {
    forall k | 0 <= k < i && ps[k] !in sides ensures NoSide(t, ps[k], inputs, pivot) {
      NoSideKept(s, t, ps[k], inputs, pivot);
    }
  }

  lemma NoSideKept(s: State, t: State, id: nat, inputs: set<int>, pivot: int)
    requires NoSide(s, id, inputs, pivot) && OnlySatisfied(s, t)
    ensures NoSide(t, id, inputs, pivot)
  {
    forall l | l in inputs ensures !Binary(t, id, pivot, -l) {
      if Binary(t, id, pivot, -l) {
        BinaryBack(s, t, id, pivot, -l);
      }
    }
  }

  lemma BinaryBack(s: State, t: State, id: nat, first: int, second: int)
    requires OnlySatisfied(s, t) && Binary(t, id, first, second)
    ensures Binary(s, id, first, second)
  {
    assert id in s.clauses.Keys;
  }

  lemma AllCovered(s: State, sides: set<nat>, inputs: set<int>, pivot: int, ps: seq<nat>, marks: set<int>)
    requires CoveredUpTo(s, sides, inputs, pivot, ps, |ps|) && MarksOk(s, ps, |ps|, pivot, marks)
    requires forall l :: l in inputs ==> -l in marks
    ensures Covered(s, sides, inputs, pivot)
  {
    forall l | l in inputs ensures exists id :: id in sides && Binary(s, id, pivot, -l) {
      assert -l in marks && HasBinary(s, ps, |ps|, pivot, -l);
      var k :| 0 <= k < |ps| && Binary(s, ps[k], pivot, -l);
      assert ps[k] in sides;
    }
  }

  /** Treats one clause with the pivot. */
  lemma OneSide(s: State, sides: set<nat>, inputs: set<int>, pivot: int, ps: seq<nat>, i: nat, other: int)
    requires CoveredUpTo(s, sides, inputs, pivot, ps, i) && Sides(s, sides, inputs, pivot) && i < |ps|
    requires other != 0 ==> Binary(s, ps[i], pivot, other)
    requires forall x :: Binary(s, ps[i], pivot, x) ==> other == x
    requires 0 !in inputs
    ensures var sides' := if other != 0 && -other in inputs then sides + {ps[i]} else sides;
            CoveredUpTo(s, sides', inputs, pivot, ps, i + 1) && Sides(s, sides', inputs, pivot)
  {
    var sides' := if other != 0 && -other in inputs then sides + {ps[i]} else sides;
    forall k | 0 <= k < i + 1 && ps[k] !in sides' ensures NoSide(s, ps[k], inputs, pivot) {
      if k == i {
        assert other == 0 || -other !in inputs;
        forall l | l in inputs ensures !Binary(s, ps[k], pivot, -l) {
          assert other != -l;
        }
      }
    }
    if other != 0 && -other in inputs {
      assert -(-other) == other;
    }
  }

  /** Collects the sides of the gate. */
  method CollectSides(e: Eliminator, pivot: int, ps: seq<nat>, base: nat, marks: set<int>) returns (sides: set<nat>)
    requires e.Valid() && Val(e.units, pivot) == 0 && ps == OccList(e.occs, pivot) && NoGates(e.S())
    requires MarksOk(e.S(), ps, |ps|, pivot, marks) && Base(e.S(), base, pivot, marks)
    modifies e`clauses
    ensures e.Valid() && OnlySatisfied(old(e.S()), e.S()) && NoGates(e.S()) && Base(e.S(), base, pivot, marks)
    ensures Sides(e.S(), sides, Inputs(e.S(), base, pivot), pivot) && Covered(e.S(), sides, Inputs(e.S(), base, pivot), pivot)
  {
    var units := e.units;
    var inputs := set l | l in e.clauses[base].lits && l != -pivot && Val(units, l) == 0;
    ghost var s := e.S();
    assert inputs == Inputs(s, base, pivot);
    InputsMarked(s, e.range, base, pivot, marks);
    sides := {};
    OnlySatisfiedSelf(s);
    NothingCovered(s, inputs, pivot, ps);
    hide OnlySatisfied;
    hide StateOk;
    hide OccsOk;
    hide NoGates;
    hide MarksOk;
    hide Base;
    hide Inputs;
    hide Binary;
    hide Sides;
    hide CoveredUpTo;
    var i := 0;
    while i < |ps|
      invariant 0 <= i <= |ps| && e.Valid() && NoGates(e.S())
      invariant Collecting(s, e.S(), sides, inputs, pivot, ps, i, base, marks)
    {
      sides := CollectSide(e, s, pivot, ps, i, base, marks, inputs, sides);
      i := i + 1;
    }
    AllCovered(e.S(), sides, inputs, pivot, ps, marks);
  }

  /** The gate so far, and that only satisfied clauses were dropped. */
  ghost predicate Collecting(s: State, t: State, sides: set<nat>, inputs: set<int>, pivot: int,
                             ps: seq<nat>, i: nat, base: nat, marks: set<int>) {
    && OnlySatisfied(s, t) && t.units == s.units
    && MarksOk(t, ps, |ps|, pivot, marks) && Base(t, base, pivot, marks)
    && base in t.clauses && Inputs(t, base, pivot) == inputs
    && Sides(t, sides, inputs, pivot) && CoveredUpTo(t, sides, inputs, pivot, ps, i)
  }

  method CollectSide(e: Eliminator, ghost s: State, pivot: int, ps: seq<nat>, i: nat, ghost base: nat, ghost marks: set<int>,
                     inputs: set<int>, sides: set<nat>) returns (sides': set<nat>)
    requires e.Valid() && NoGates(e.S()) && Val(s.units, pivot) == 0 && ps == OccList(e.occs, pivot) && i < |ps| && 0 !in inputs
    requires Collecting(s, e.S(), sides, inputs, pivot, ps, i, base, marks)
    modifies e`clauses
    ensures e.Valid() && NoGates(e.S()) && Collecting(s, e.S(), sides', inputs, pivot, ps, i + 1, base, marks)
  {
    hide OnlySatisfied;
    hide StateOk;
    hide OccsOk;
    hide NoGates;
    hide MarksOk;
    hide Base;
    hide Inputs;
    hide Binary;
    hide Sides;
    hide CoveredUpTo;
    ghost var t := e.S();
    var other := SecondOf(e, ps, i, pivot);
    GateKept(s, t, e.S(), e.range, sides, inputs, pivot, ps, i, base, marks);
    OtherUnique(t, e.S(), ps[i], pivot, other);
    OneSide(e.S(), sides, inputs, pivot, ps, i, other);
    sides' := if other != 0 && -other in inputs then sides + {ps[i]} else sides;
  }

  lemma NothingCovered(s: State, inputs: set<int>, pivot: int, ps: seq<nat>)
    ensures CoveredUpTo(s, {}, inputs, pivot, ps, 0) && Sides(s, {}, inputs, pivot)
  {
  }

  lemma InputsMarked(s: State, n: nat, base: nat, pivot: int, marks: set<int>)
    requires StateOk(s, n) && Base(s, base, pivot, marks)
    ensures forall l :: l in Inputs(s, base, pivot) ==> -l in marks
    ensures 0 !in Inputs(s, base, pivot)
  {
    assert LitsOk(s.clauses[base].lits, n);
  }

  lemma OtherUnique(s: State, t: State, id: nat, pivot: int, other: int)
    requires OnlySatisfied(s, t) && forall x :: Binary(s, id, pivot, x) ==> other == x
    ensures forall x :: Binary(t, id, pivot, x) ==> other == x
  {
    forall x | Binary(t, id, pivot, x) ensures other == x {
      assert Binary(s, id, pivot, x);
    }
  }

  /** Dropping satisfied clauses keeps everything about the gate. */
  lemma GateKept(s: State, t: State, u: State, n: nat, sides: set<nat>, inputs: set<int>, pivot: int,
                 ps: seq<nat>, i: nat, base: nat, marks: set<int>)
    requires OnlySatisfied(s, t) && OnlySatisfied(t, u) && StateOk(t, n) && Val(t.units, pivot) == 0
    requires MarksOk(t, ps, |ps|, pivot, marks) && Base(t, base, pivot, marks) && Inputs(t, base, pivot) == inputs
    requires Sides(t, sides, inputs, pivot) && CoveredUpTo(t, sides, inputs, pivot, ps, i)
    ensures OnlySatisfied(s, u) && MarksOk(u, ps, |ps|, pivot, marks) && base in u.clauses
    ensures Base(u, base, pivot, marks) && Inputs(u, base, pivot) == inputs
    ensures Sides(u, sides, inputs, pivot) && CoveredUpTo(u, sides, inputs, pivot, ps, i)
  {
    OnlySatisfiedTransitive(s, t, u);
    MarksStay(t, u, n, ps, |ps|, pivot, marks);
    BaseKept(t, u, n, base, pivot, marks);
    SidesKept(t, u, n, sides, inputs, pivot);
    CoveredKept(t, u, sides, inputs, pivot, ps, i);
  }

  /** A long clause whose inputs are all marked. */
  ghost predicate Candidate(s: State, id: nat, pivot: int, marks: set<int>) {
    Base(s, id, pivot, marks) && |s.clauses[id].lits| >= 3
  }

  ghost predicate NoCandidate(s: State, ns: seq<nat>, i: nat, pivot: int, marks: set<int>) {
    i <= |ns| && forall k {:trigger ns[k]} :: 0 <= k < i ==> !Candidate(s, ns[k], pivot, marks)
  }

  lemma NoCandidateNext(s: State, t: State, ns: seq<nat>, i: nat, pivot: int, marks: set<int>)
    requires NoCandidate(s, ns, i, pivot, marks) && i < |ns| && !Candidate(t, ns[i], pivot, marks)
    requires Grows(s, t) && t.units == s.units && t.clauses.Keys == s.clauses.Keys
    ensures NoCandidate(t, ns, i + 1, pivot, marks)
  {
    hide Candidate;
    forall k | 0 <= k < i ensures !Candidate(t, ns[k], pivot, marks) {
      if Candidate(t, ns[k], pivot, marks) {
        CandidateBack(s, t, ns[k], pivot, marks);
      }
    }
  }

  lemma CandidateBack(s: State, t: State, id: nat, pivot: int, marks: set<int>)
    requires Candidate(t, id, pivot, marks) && Grows(s, t) && t.units == s.units && t.clauses.Keys == s.clauses.Keys
    ensures Candidate(s, id, pivot, marks)
  {
    assert id in s.clauses.Keys;
  }

  /** The base clause of an AND gate among `ns`, with a side among `ps` for
      every input. */
  ghost predicate AndAt(s: State, id: nat, ps: seq<nat>, pivot: int) {
    && Live(s, id) && -pivot in s.clauses[id].lits && |s.clauses[id].lits| >= 3
    && (forall l :: l in s.clauses[id].lits && l != -pivot ==>
          -l in s.units || (Val(s.units, l) == 0 && HasBinary(s, ps, |ps|, pivot, -l)))
  }

  ghost predicate HasAndGate(s: State, ps: seq<nat>, ns: seq<nat>, pivot: int) {
    exists i :: 0 <= i < |ns| && AndAt(s, ns[i], ps, pivot)
  }

  lemma NoAndGate(s: State, ps: seq<nat>, ns: seq<nat>, pivot: int, marks: set<int>)
    requires NoCandidate(s, ns, |ns|, pivot, marks) && MarksOk(s, ps, |ps|, pivot, marks)
    ensures !HasAndGate(s, ps, ns, pivot)
  {
    hide Candidate, AndAt;
    forall i | 0 <= i < |ns| ensures !AndAt(s, ns[i], ps, pivot) {
      if AndAt(s, ns[i], ps, pivot) {
        AndCandidate(s, ns[i], ps, pivot, marks);
      }
    }
  }

  lemma AndCandidate(s: State, id: nat, ps: seq<nat>, pivot: int, marks: set<int>)
    requires AndAt(s, id, ps, pivot) && MarksOk(s, ps, |ps|, pivot, marks)
    ensures Candidate(s, id, pivot, marks)
  {
    forall l | l in s.clauses[id].lits && l != -pivot && -l !in s.units ensures -l in marks {
      var k :| 0 <= k < |ps| && Binary(s, ps[k], pivot, -l);
    }
  }

  /** Looks for an AND gate with the negated pivot in its base clause.  None is
      missed. */
  method FindAndGate(e: Eliminator, pivot: int) returns (gates: set<nat>)
    requires e.Valid() && !e.unsat && Val(e.units, pivot) == 0 && InRange(pivot, e.range) && NoGates(e.S())
    requires NoDup(OccList(e.occs, pivot))
    modifies e`clauses, e`units, e`unsat
    ensures e.Valid() && Simplified(old(e.S()), e.S()) && NoGates(e.S())
    ensures gates != {} ==> !e.unsat && Val(e.units, pivot) == 0 && Definition(e.S(), gates, pivot)
    ensures gates == {} && !e.unsat && Val(e.units, pivot) == 0 ==>
      !HasAndGate(e.S(), OccList(e.occs, pivot), OccList(e.occs, -pivot), pivot)
    ensures !e.unsat && Val(e.units, pivot) == 0 ==> e.units == old(e.units)
    ensures Propagated(old(e.S()), e.S(), e.occs)
  {
    hide Propagated;
    gates := {};
    ghost var s0 := e.S();
    var marks := MarkBinaryLiterals(e, pivot);
    if e.unsat || Val(e.units, pivot) != 0 {
      return;
    }
    var ps, ns := OccList(e.occs, pivot), OccList(e.occs, -pivot);
    hide MarksOk, HasAndGate, Candidate;
    hide Simplified;
    hide Definition;
    hide StateOk;
    hide OccsOk;
    var i := 0;
    while gates == {} && i < |ns|
      invariant 0 <= i <= |ns| && ps == OccList(e.occs, pivot) && ns == OccList(e.occs, -pivot)
      invariant e.Valid() && Simplified(s0, e.S()) && NoGates(e.S()) && !e.unsat && Val(e.units, pivot) == 0
      invariant Propagated(s0, e.S(), e.occs) && e.units == s0.units
      invariant gates == {} ==> MarksOk(e.S(), ps, |ps|, pivot, marks) && NoCandidate(e.S(), ns, i, pivot, marks)
      invariant gates != {} ==> Definition(e.S(), gates, pivot)
    {
      ghost var s := e.S();
      gates := AndGateAt(e, pivot, ps, ns, i, marks);
      PropagatedNothing(s, e.S(), e.occs);
      PropagatedOn(s0, s, e.S(), e.occs);
      SimplifiedTransitive(s0, s, e.S());
      if gates == {} {
        SimplifiedGrows(s, e.S());
        NoCandidateNext(s, e.S(), ns, i, pivot, marks);
      }
      i := i + 1;
    }
    if gates == {} {
      NoAndGate(e.S(), ps, ns, pivot, marks);
    }
  }

  /* ---- simplification makes no gates ---- */

  lemma BinaryEarlier(s: State, t: State, id: nat, first: int, second: int)
    requires Simplified(s, t) && t.units == s.units && Binary(t, id, first, second)
    ensures Binary(s, id, first, second)
  {
    assert id in s.clauses.Keys;
  }

  lemma HasBinaryEarlier(s: State, t: State, os: seq<nat>, first: int, second: int)
    requires Simplified(s, t) && t.units == s.units && HasBinary(t, os, |os|, first, second)
    ensures HasBinary(s, os, |os|, first, second)
  {
    var k :| 0 <= k < |os| && Binary(t, os[k], first, second);
    BinaryEarlier(s, t, os[k], first, second);
  }

  lemma EquivalenceEarlier(s: State, t: State, ps: seq<nat>, ns: seq<nat>, pivot: int, negated: int)
    requires Simplified(s, t) && t.units == s.units && HasEquivalence(t, ps, ns, pivot, negated)
    ensures HasEquivalence(s, ps, ns, pivot, negated)
  {
    var i, x :| 0 <= i < |ns| && Binary(t, ns[i], negated, x) && HasBinary(t, ps, |ps|, pivot, -x);
    BinaryEarlier(s, t, ns[i], negated, x);
    HasBinaryEarlier(s, t, ps, pivot, -x);
  }

  lemma AndEarlier(s: State, t: State, ps: seq<nat>, ns: seq<nat>, pivot: int)
    requires Simplified(s, t) && t.units == s.units && HasAndGate(t, ps, ns, pivot)
    ensures HasAndGate(s, ps, ns, pivot)
  {
    var i :| 0 <= i < |ns| && AndAt(t, ns[i], ps, pivot);
    hide AndAt;
    AndAtEarlier(s, t, ns[i], ps, pivot);
  }

  lemma AndAtEarlier(s: State, t: State, id: nat, ps: seq<nat>, pivot: int)
    requires Simplified(s, t) && t.units == s.units && AndAt(t, id, ps, pivot)
    ensures AndAt(s, id, ps, pivot)
  {
    assert id in s.clauses.Keys;
    forall l | l in s.clauses[id].lits && HasBinary(t, ps, |ps|, pivot, -l) ensures HasBinary(s, ps, |ps|, pivot, -l) {
      HasBinaryEarlier(s, t, ps, pivot, -l);
    }
    hide HasBinary;
  }

  lemma SimplifiedGrows(s: State, t: State)
    requires Simplified(s, t)
    ensures Grows(s, t) && t.clauses.Keys == s.clauses.Keys
  {
  }

  /** Treats one candidate for the base clause. */
  method AndGateAt(e: Eliminator, pivot: int, ps: seq<nat>, ns: seq<nat>, i: nat, marks: set<int>) returns (gates: set<nat>)
    requires e.Valid() && !e.unsat && Val(e.units, pivot) == 0 && InRange(pivot, e.range) && NoGates(e.S())
    requires ps == OccList(e.occs, pivot) && ns == OccList(e.occs, -pivot) && i < |ns|
    requires MarksOk(e.S(), ps, |ps|, pivot, marks)
    modifies e`clauses
    ensures e.Valid() && OnlySatisfied(old(e.S()), e.S()) && Simplified(old(e.S()), e.S()) && NoGates(e.S())
    ensures e.units == old(e.units) && e.unsat == old(e.unsat)
    ensures gates == {} ==> MarksOk(e.S(), ps, |ps|, pivot, marks) && !Candidate(e.S(), ns[i], pivot, marks)
    ensures gates != {} ==> Definition(e.S(), gates, pivot)
  {
    gates := {};
    var id := ns[i];
    assert OccList(e.occs, -pivot)[i] in e.clauses && -pivot in e.clauses[id].lits;
    ghost var s := e.S();
    OnlySatisfiedSelf(s);
    if e.clauses[id].garbage || |e.clauses[id].lits| < 3 {
      return;
    }
    var all, satisfied := ExamineBase(e, id, pivot, marks);
    if !all {
      return;
    }
    if satisfied != 0 {
      SatisfiedProgress(s, e.range, id, satisfied, pivot);
      ProgressSimplifies(s, WithGarbage(s, id), pivot);
      e.MarkGarbage(id);
      MarksStay(s, e.S(), e.range, ps, |ps|, pivot, marks);
      return;
    }
    var sides := CollectSides(e, pivot, ps, id, marks);
    OnlySatisfiedFacts(s, e.S());
    AndDefines(e.S(), e.range, id, sides, pivot, marks);
    gates := {id} + sides;
  }
}
