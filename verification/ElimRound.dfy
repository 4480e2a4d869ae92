/** One round of variable elimination: connecting the clauses that are not
    satisfied and trying the scheduled variables. */
module ElimRound {
  import opened Logic
  import opened Extension
  import opened Reconstruction
  import opened ElimState
  import opened Elimination
  import opened VariableElimination
  import opened Gates
  import opened MatchedGates
  import opened GateElimination

  /* ---- the start of a round ---- */

  /** Exactly the satisfied clauses become garbage. */
  method MarkSatisfied(e: Eliminator)
    requires e.Valid() && NoGates(e.S())
    modifies e`clauses
    ensures e.Valid() && NoGates(e.S()) && OnlySatisfied(old(e.S()), e.S()) && Clean(e.S())
  {
    ghost var s0 := e.S();
    OnlySatisfiedSelf(s0);
    var rest := e.clauses.Keys;
    hide OnlySatisfied, StateOk, OccsOk, NoGates;
    while rest != {}
      invariant e.Valid() && NoGates(e.S()) && OnlySatisfied(s0, e.S()) && rest <= e.clauses.Keys
      invariant forall id, l :: Live(e.S(), id) && id !in rest && l in e.clauses[id].lits ==> l !in e.units
      decreases rest
    {
      var id :| id in rest;
      rest := rest - {id};
      if !e.clauses[id].garbage {
        MarkIfSatisfied(e, s0, id);
      }
    }
  }

  method MarkIfSatisfied(e: Eliminator, ghost s0: State, id: nat)
    requires e.Valid() && NoGates(e.S()) && OnlySatisfied(s0, e.S()) && Live(e.S(), id)
    modifies e`clauses
    ensures e.Valid() && NoGates(e.S()) && OnlySatisfied(s0, e.S()) && e.clauses.Keys == old(e.clauses).Keys
    ensures forall d :: Live(e.S(), d) ==> Live(old(e.S()), d) && e.clauses[d].lits == old(e.clauses)[d].lits
    ensures Live(e.S(), id) ==> forall l :: l in e.clauses[id].lits ==> l !in e.units
  {
    ghost var s := e.S();
    ClauseLiterals(s, e.range, id);
    var satisfied, unit, several := e.Examine(e.clauses[id].lits);
    if satisfied != 0 {
      SatisfiedProgress(s, e.range, id, satisfied, 0);
      hide Progress, OnlySatisfied;
      ProgressSimplifies(s, WithGarbage(s, id), 0);
      OneDropped(s, id, satisfied);
      e.MarkGarbage(id);
      OnlySatisfiedTransitive(s0, s, e.S());
    }
  }

  lemma ClauseLiterals(s: State, n: nat, id: nat)
    requires StateOk(s, n) && id in s.clauses
    ensures NoDup(s.clauses[id].lits) && forall l :: l in s.clauses[id].lits ==> l != 0
  {
    assert LitsOk(s.clauses[id].lits, n);
  }

  /** Occurrence lists of exactly the live clauses in `done`. */
  ghost predicate IndexedFor(s: State, occs: Occs, done: set<nat>) {
    && (forall l {:trigger OccList(occs, l)} :: NoDup(OccList(occs, l)))
    && (forall l, id :: id in OccList(occs, l) ==> id in done)
    && (forall l, id :: Live(s, id) && id in done && l in s.clauses[id].lits && Val(s.units, l) == 0 ==> id in OccList(occs, l))
  }

  lemma IndexedNext(s: State, before: Occs, occs: Occs, done: set<nat>, id: nat)
    requires IndexedFor(s, before, done) && id !in done && id in s.clauses
    requires Connecting(s.units, before, occs, id, s.clauses[id].lits)
    ensures IndexedFor(s, occs, done + {id})
  {
    hide Val;
    forall l
      ensures NoDup(OccList(occs, l))
      ensures forall d :: d in OccList(occs, l) <==>
                            (d in OccList(before, l) || (d == id && l in s.clauses[id].lits && Val(s.units, l) == 0))
    {
      assert NoDup(OccList(before, l)) && id !in OccList(before, l);
      hide OccList;
      Appended(OccList(before, l), OccList(occs, l), id);
    }
    hide OccList, NoDup, Connecting;
  }

  lemma Appended(os: seq<nat>, more: seq<nat>, id: nat)
    requires NoDup(os) && id !in os
    ensures more == os + [id] ==> NoDup(more) && forall d :: d in more <==> d in os || d == id
  {
  }

  lemma IndexedSkip(s: State, occs: Occs, done: set<nat>, id: nat)
    requires IndexedFor(s, occs, done) && !Live(s, id)
    ensures IndexedFor(s, occs, done + {id})
  {
  }

  lemma IndexedDone(s: State, occs: Occs, done: set<nat>)
    requires IndexedFor(s, occs, done) && OccsOk(s.clauses, occs) && s.clauses.Keys <= done
    ensures Indexed(s, occs)
  {
    forall l | Val(s.units, l) == 0 ensures Occurs(s, OccList(occs, l), l) {
    }
  }

  /** Connects the unassigned literals of all live clauses. */
  method ConnectOccs(e: Eliminator)
    requires e.Valid()
    modifies e`occs
    ensures e.Valid() && e.Connected()
  {
    e.occs := map[];
    var ids := e.clauses.Keys;
    var rest := ids;
    hide IndexedFor, Connecting, Indexed;
    NothingIndexed(e.S());
    while rest != {}
      invariant rest <= ids && e.Valid() && IndexedFor(e.S(), e.occs, ids - rest)
      decreases rest
    {
      var id :| id in rest;
      ghost var before := e.occs;
      if e.clauses[id].garbage {
        IndexedSkip(e.S(), e.occs, ids - rest, id);
      } else {
        ClauseLiterals(e.S(), e.range, id);
        e.ConnectClause(id, e.clauses[id].lits);
        IndexedNext(e.S(), before, e.occs, ids - rest, id);
      }
      assert ids - rest + {id} == ids - (rest - {id});
      rest := rest - {id};
    }
    assert ids - {} == ids;
    IndexedDone(e.S(), e.occs, ids);
  }

  lemma NothingIndexed(s: State)
    ensures IndexedFor(s, map[], {})
  {
  }

  /* ---- trying the scheduled variables ---- */

  /** One scheduled variable: the state before and after, the gate found in
      state `mid` for the literal `pivot`, and whether it was eliminated. */
  datatype Attempt = Attempt(variable: int, before: State, occs: Occs, mid: State, gates: set<nat>, matched: bool, pivot: int,
                             eliminated: bool, after: State)

  datatype Limits = Limits(substitute: bool, occurrences: int, arity: int, elimbound: int, size: int)

  /** An unassigned variable within the limits is eliminated, unless it gets a
      value or the formula is refuted, and without a gate there is none. */
  ghost predicate AttemptOk(a: Attempt, limits: Limits) {
    if a.before.unsat || Val(a.before.units, a.variable) != 0 then a.after == a.before && !a.eliminated
    else
      && (limits.substitute && a.gates == {} ==> Searched(a, limits))
      && (MustGo(a.before, a.occs, a.variable, limits.occurrences, limits.elimbound, limits.size) ==>
        a.eliminated || a.after.unsat || Val(a.after.units, a.variable) != 0)
  }

  /** No gate for the variable was left in state `mid`. */
  ghost predicate Searched(a: Attempt, limits: Limits) {
    NothingToSubstitute(a.before, a.mid, Flushed(a.before, OccList(a.occs, a.pivot)), Flushed(a.before, OccList(a.occs, -a.pivot)),
                        a.pivot, limits.occurrences, limits.arity)
  }

  ghost predicate AttemptAt(schedule: seq<int>, attempts: seq<Attempt>, limits: Limits, from: State, k: nat)
    requires k < |attempts| <= |schedule|
  {
    && attempts[k].variable == schedule[k] && AttemptOk(attempts[k], limits)
    && attempts[k].before == if k == 0 then from else attempts[k - 1].after
  }

  /** The scheduled variables were tried one after the other. */
  ghost predicate Attempted(schedule: seq<int>, attempts: seq<Attempt>, limits: Limits, from: State, to: State) {
    && |attempts| <= |schedule|
    && (forall k :: 0 <= k < |attempts| ==> AttemptAt(schedule, attempts, limits, from, k))
    && to == if attempts == [] then from else attempts[|attempts| - 1].after
  }

  lemma AttemptedNone(schedule: seq<int>, limits: Limits, from: State)
    ensures Attempted(schedule, [], limits, from, from)
  {
  }

  lemma AttemptedNext(schedule: seq<int>, attempts: seq<Attempt>, limits: Limits, from: State, a: Attempt)
    requires Attempted(schedule, attempts, limits, from, a.before) && |attempts| < |schedule|
    requires a.variable == schedule[|attempts|] && AttemptOk(a, limits)
    ensures Attempted(schedule, attempts + [a], limits, from, a.after)
  {
    hide AttemptOk;
    var more := attempts + [a];
    forall k | 0 <= k < |more| ensures AttemptAt(schedule, more, limits, from, k) {
      if k < |attempts| {
        assert AttemptAt(schedule, attempts, limits, from, k);
      }
    }
  }

  /** The variables eliminated. */
  ghost predicate Eliminated(attempts: seq<Attempt>, gone: set<int>) {
    forall p :: p in gone <==> exists k :: 0 <= k < |attempts| && attempts[k].eliminated && attempts[k].variable == p
  }

  lemma EliminatedNext(attempts: seq<Attempt>, gone: set<int>, a: Attempt)
    requires Eliminated(attempts, gone)
    ensures Eliminated(attempts + [a], if a.eliminated then gone + {a.variable} else gone)
  {
    var more := attempts + [a];
    var gone' := if a.eliminated then gone + {a.variable} else gone;
    assert more[|attempts|] == a;
    forall p ensures p in gone' <==>
                     exists k :: 0 <= k < |more| && more[k].eliminated && more[k].variable == p {
      if k :| 0 <= k < |attempts| && attempts[k].eliminated && attempts[k].variable == p {
        assert more[k] == attempts[k];
      }
    }
  }

  /** The gate, if any, may be used. */
  ghost predicate Usable(a: Attempt) {
    Substitutable(a.mid, a.gates, a.matched, a.pivot)
  }

  ghost predicate AllUsable(attempts: seq<Attempt>) {
    forall i {:trigger attempts[i]} :: 0 <= i < |attempts| ==> Usable(attempts[i])
  }

  /** Without live satisfied clauses before, the gate may be used. */
  ghost predicate CleanUsable(attempts: seq<Attempt>) {
    forall i {:trigger attempts[i]} :: 0 <= i < |attempts| && Clean(attempts[i].before) ==> Usable(attempts[i])
  }

  lemma AttemptAdded(attempts: seq<Attempt>, a: Attempt)
    requires CleanUsable(attempts) && (Clean(a.before) ==> Usable(a))
    ensures CleanUsable(attempts + [a]) && (AllUsable(attempts + [a]) <==> AllUsable(attempts) && Usable(a))
  {
    hide Clean, Usable;
    var all := attempts + [a];
    assert all[|attempts|] == a && forall i :: 0 <= i < |attempts| ==> all[i] == attempts[i];
  }

  /** One more attempt. */
  lemma AttemptComposes(f: Formula, entries: seq<Entry>, g: Formula, more: seq<Entry>, h: Formula,
                        attempts: seq<Attempt>, a: Attempt, substitute: bool, base: seq<int>)
    requires AllUsable(attempts) || !substitute ==> Repairs(f, entries, g)
    requires Usable(a) || !substitute ==> Repairs(g, more, h)
    requires CleanUsable(attempts) && (Clean(a.before) ==> Usable(a))
    ensures AllUsable(attempts + [a]) || !substitute ==> Repairs(f, entries + more, h)
    ensures CleanUsable(attempts + [a])
    ensures base + Flat(entries + more) == base + Flat(entries) + Flat(more)
  {
    AttemptAdded(attempts, a);
    FlatConcat(entries, more);
    hide *;
    if Repairs(f, entries, g) && Repairs(g, more, h) {
      RepairsCompose(f, entries, g, more, h);
    }
  }

  /** No live clause contains the variable. */
  ghost predicate Gone(s: State, p: int) {
    !Occurring(s, p) && !Occurring(s, -p)
  }

  ghost predicate AllGone(s: State, ps: set<int>) {
    forall p :: p in ps ==> Gone(s, p)
  }

  lemma GoneStays(s: State, t: State, ps: set<int>, p: int, eliminated: bool)
    requires AllGone(s, ps) && NoNewLiterals(s, t) && (eliminated ==> Gone(t, p))
    ensures AllGone(t, if eliminated then ps + {p} else ps)
  {
    hide Occurring;
    forall q | q in ps ensures Gone(t, q) {
      assert Gone(s, q);
    }
  }

  lemma GoneIf(s: State, p: int)
    ensures NotMentioned(s, p) ==> Gone(s, p)
  {
  }

  /** Drops satisfied clauses, connects the others, and tries the scheduled
      variables that are still unassigned.  What was pushed repairs models if
      every gate found may be used, and eliminated variables stay away. */
  method Round(e: Eliminator, external: External, schedule: seq<int>, limits: Limits)
    returns (gone: set<int>, ghost attempts: seq<Attempt>, ghost entries: seq<Entry>, ghost first: State)
    requires e.Valid() && NoGates(e.S()) && forall p :: p in schedule ==> InRange(p, e.range)
    modifies e, external`extension, external`witnesses
    ensures e.Valid() && NoGates(e.S()) && e.Connected()
    ensures external.extension == old(external.extension) + Flat(entries)
    ensures AllUsable(attempts) ==> Repairs(FormulaOf(old(e.S())), entries, FormulaOf(e.S()))
    ensures CleanUsable(attempts) && Clean(first)
    ensures Attempted(schedule, attempts, limits, first, e.S()) && |attempts| == |schedule| && Eliminated(attempts, gone)
    ensures AllGone(e.S(), gone) && forall p :: p in gone ==> p in schedule
    ensures !limits.substitute ==> Repairs(FormulaOf(old(e.S())), entries, FormulaOf(e.S()))
  {
    ghost var s0 := e.S();
    MarkSatisfied(e);
    ConnectOccs(e);
    gone, attempts, entries := {}, [], [];
    NoAttempt(s0, e.S());
    first := e.S();
    AttemptedNone(schedule, limits, first);
    hide *;
    for i := 0 to |schedule|
      invariant e.Valid() && NoGates(e.S()) && e.Connected() && CleanUsable(attempts)
      invariant external.extension == old(external.extension) + Flat(entries)
      invariant AllUsable(attempts) || !limits.substitute ==> Repairs(FormulaOf(s0), entries, FormulaOf(e.S()))
      invariant AllGone(e.S(), gone) && forall p :: p in gone ==> p in schedule
      invariant Clean(first) && Attempted(schedule, attempts, limits, first, e.S()) && |attempts| == i
      invariant Eliminated(attempts, gone)
    {
      assert schedule[i] in schedule;
      ghost var s, g := e.S(), FormulaOf(e.S());
      var eliminated;
      ghost var a, more;
      eliminated, a, more := Try(e, external, schedule[i], limits);
      AttemptComposes(FormulaOf(s0), entries, g, more, FormulaOf(e.S()), attempts, a, limits.substitute, old(external.extension));
      AttemptedNext(schedule, attempts, limits, first, a);
      EliminatedNext(attempts, gone, a);
      attempts, entries := attempts + [a], entries + more;
      GoneStays(s, e.S(), gone, schedule[i], eliminated);
      gone := if eliminated then gone + {schedule[i]} else gone;
    }
  }

  lemma NoAttempt(s: State, t: State)
    requires OnlySatisfied(s, t)
    ensures AllGone(t, {}) && CleanUsable([]) && Eliminated([], {}) && AllUsable([]) && Flat([]) == [] && Repairs(FormulaOf(s), [], FormulaOf(t))
  {
    SimplifiedRepairs(s, t);
  }

  /** Tries one variable of the round, unless it has a value. */
  method Try(e: Eliminator, external: External, pivot: int, limits: Limits)
    returns (eliminated: bool, ghost a: Attempt, ghost entries: seq<Entry>)
    requires e.Valid() && NoGates(e.S()) && e.Connected() && InRange(pivot, e.range)
    modifies e, external`extension, external`witnesses
    ensures e.Valid() && NoGates(e.S()) && e.Connected()
    ensures a.before == old(e.S()) && a.after == e.S() && a.variable == pivot && a.eliminated == eliminated
    ensures AttemptOk(a, limits) && (Clean(a.before) ==> Usable(a))
    ensures external.extension == old(external.extension) + Flat(entries)
    ensures Usable(a) || !limits.substitute ==> Repairs(FormulaOf(old(e.S())), entries, FormulaOf(e.S()))
    ensures NoNewLiterals(old(e.S()), e.S()) && (eliminated ==> Gone(e.S(), pivot))
  {
    hide *;
    ghost var s, occs := e.S(), e.occs;
    StateIs(e);
    if e.unsat || Val(e.units, pivot) != 0 {
      a := Attempt(pivot, s, occs, s, {}, false, pivot, false, s);
      NotTried(a, limits);
      return false, a, [];
    }
    ConnectedIs(e);
    BothListed(s, occs, pivot);
    var matched, gates;
    ghost var p, mid;
    eliminated, matched, gates, p, mid, entries :=
      EliminateVariable(e, external, pivot, limits.substitute, limits.occurrences, limits.arity, limits.elimbound, limits.size);
    a := Attempt(pivot, s, occs, mid, gates, matched, p, eliminated, e.S());
    UsableIs(a);
    StateIs(e);
    GoneIf(e.S(), pivot);
    SearchedIs(a, limits);
    TriedOk(a, limits);
  }

  /** Nothing happens to a variable that has a value. */
  lemma NotTried(a: Attempt, limits: Limits)
    requires (a.before.unsat || Val(a.before.units, a.variable) != 0) && a.after == a.before && !a.eliminated && a.gates == {}
    ensures AttemptOk(a, limits) && Usable(a) && Repairs(FormulaOf(a.before), [], FormulaOf(a.before))
    ensures NoNewLiterals(a.before, a.before) && Flat([]) == []
  {
    UsableIs(a);
    SimplifiedSelf(a.before);
    SimplifiedRepairs(a.before, a.before);
    LiteralsSame(a.before);
  }

  lemma SearchedIs(a: Attempt, limits: Limits)
    ensures Searched(a, limits) <==>
            NothingToSubstitute(a.before, a.mid, Flushed(a.before, OccList(a.occs, a.pivot)),
                                Flushed(a.before, OccList(a.occs, -a.pivot)), a.pivot, limits.occurrences, limits.arity)
  {
  }

  lemma TriedOk(a: Attempt, limits: Limits)
    requires limits.substitute && a.gates == {} ==> Searched(a, limits)
    requires !a.before.unsat && Val(a.before.units, a.variable) == 0
    requires MustGo(a.before, a.occs, a.variable, limits.occurrences, limits.elimbound, limits.size) ==>
      a.eliminated || a.after.unsat || Val(a.after.units, a.variable) != 0
    ensures AttemptOk(a, limits)
  {
  }

  lemma BothListed(s: State, occs: Occs, pivot: int)
    requires Indexed(s, occs) && Val(s.units, pivot) == 0
    ensures Occurs(s, OccList(occs, pivot), pivot) && Occurs(s, OccList(occs, -pivot), -pivot)
  {
  }

  lemma UsableIs(a: Attempt)
    ensures Usable(a) <==> Substitutable(a.mid, a.gates, a.matched, a.pivot)
    ensures a.gates == {} ==> Usable(a)
  {
  }
}
