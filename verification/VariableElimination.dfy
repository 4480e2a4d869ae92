/** Eliminating one variable: counting and adding resolvents, and pushing the
    eliminated clauses so that models can be reconstructed. */
module VariableElimination {
  import opened Finite
  import opened Logic
  import opened Extension
  import opened Reconstruction
  import opened ElimState
  import opened Elimination
  import opened ResolventBounds

  ghost function LiveClauses(s: State): Formula {
    set id | id in s.clauses && !s.clauses[id].garbage :: s.clauses[id].lits
  }

  /** The formula of a state. */
  ghost function FormulaOf(s: State): Formula {
    LiveClauses(s)
    + (set u | u in s.units :: [u])
    + (if s.unsat then {[]} else {})
  }

  lemma FormulaModels(s: State, m: Model)
    ensures Models(m, FormulaOf(s)) <==> ModelsAll(m, s)
  {
    var f := FormulaOf(s);
    if Models(m, f) {
      forall u | u in s.units ensures Holds(m, u) {
        assert [u] in f;
        assert Satisfies(m, [u]);
      }
      forall id | Live(s, id) ensures Satisfies(m, s.clauses[id].lits) {
        assert s.clauses[id].lits in f;
      }
      assert s.unsat ==> [] in f && !Satisfies(m, []);
    }
    if ModelsAll(m, s) {
      forall c | c in f ensures Satisfies(m, c) {
        if u :| u in s.units && c == [u] {
          assert u in c;
        } else {
          var id :| Live(s, id) && s.clauses[id].lits == c;
        }
      }
    }
  }

  /** The live gate clauses force the pivot, and their resolvents are tautologies. */
  ghost predicate GateOk(s: State, pivot: int) {
    && (forall m :: ModelsFree(m, s, pivot) ==> exists id :: Live(s, id) && s.clauses[id].gate && Forces(m, s.clauses[id].lits, pivot))
    && (forall c, d :: Live(s, c) && Live(s, d) && s.clauses[c].gate && s.clauses[d].gate
                       && pivot in s.clauses[c].lits && -pivot in s.clauses[d].lits ==>
                         ResolventEntailed(s, s.clauses[c].lits, s.clauses[d].lits, pivot))
  }

  /** The clause contains the pivot and nothing else of it holds. */
  ghost predicate Forces(m: Model, c: Clause, pivot: int) {
    Mentions(c, pivot) && !OtherHolds(m, c, pivot)
  }

  lemma EntailedProgress(s: State, t: State, c: Clause, d: Clause, pivot: int)
    requires Progress(s, t, pivot) && ResolventEntailed(s, c, d, pivot)
    ensures ResolventEntailed(t, c, d, pivot)
  {
    forall m | ModelsFree(m, t, pivot) ensures ResolventHolds(m, c, d, pivot) {
      assert ModelsFree(m, s, pivot);
    }
  }

  /** Gate clauses may disappear on the way: their rest is entailed then, so
      the remaining ones still force the pivot. */
  lemma GateProgress(s: State, t: State, pivot: int)
    requires Progress(s, t, pivot) && GateOk(s, pivot) && Val(t.units, pivot) == 0
    ensures GateOk(t, pivot)
  {
    forall m | ModelsFree(m, t, pivot)
      ensures exists id :: Live(t, id) && t.clauses[id].gate && Forces(m, t.clauses[id].lits, pivot)
    {
      assert ModelsFree(m, s, pivot);
      var id :| Live(s, id) && s.clauses[id].gate && Forces(m, s.clauses[id].lits, pivot);
      assert !Live(t, id) ==> RestEntailed(t, s.clauses[id].lits, pivot);
      assert Live(t, id) && t.clauses[id].gate && Forces(m, t.clauses[id].lits, pivot);
    }
    forall c, d | Live(t, c) && Live(t, d) && t.clauses[c].gate && t.clauses[d].gate
                  && pivot in t.clauses[c].lits && -pivot in t.clauses[d].lits
      ensures ResolventEntailed(t, t.clauses[c].lits, t.clauses[d].lits, pivot)
    {
      assert Live(s, c) && Live(s, d);
      EntailedProgress(s, t, t.clauses[c].lits, t.clauses[d].lits, pivot);
    }
  }

  /** The resolvents that are not skipped follow without the pivot, as far as
      the first `i` clauses with the pivot (and of the next one the first `j`
      with its negation) are concerned. */
  ghost predicate ResolvedUpTo(s: State, ps: seq<nat>, ns: seq<nat>, pivot: int, substitute: bool, i: nat, j: nat) {
    forall a, b :: 0 <= a < |ps| && 0 <= b < |ns| && (a < i || (a == i && b < j)) ==> PairResolved(s, ps[a], ns[b], pivot, substitute)
  }

  ghost predicate PairResolved(s: State, c: nat, d: nat, pivot: int, substitute: bool) {
    Live(s, c) && Live(s, d) && !(substitute && s.clauses[c].gate == s.clauses[d].gate) ==>
      ResolventEntailed(s, s.clauses[c].lits, s.clauses[d].lits, pivot)
  }

  lemma ResolvedProgress(s: State, t: State, ps: seq<nat>, ns: seq<nat>, pivot: int, substitute: bool, i: nat, j: nat)
    requires Progress(s, t, pivot) && ResolvedUpTo(s, ps, ns, pivot, substitute, i, j)
    requires forall a :: 0 <= a < |ps| ==> ps[a] in s.clauses
    requires forall b :: 0 <= b < |ns| ==> ns[b] in s.clauses
    ensures ResolvedUpTo(t, ps, ns, pivot, substitute, i, j)
  {
    forall a, b | 0 <= a < |ps| && 0 <= b < |ns| && (a < i || (a == i && b < j))
      ensures PairResolved(t, ps[a], ns[b], pivot, substitute)
    {
      assert PairResolved(s, ps[a], ns[b], pivot, substitute);
      if Live(t, ps[a]) && Live(t, ns[b]) && !(substitute && t.clauses[ps[a]].gate == t.clauses[ns[b]].gate) {
        EntailedProgress(s, t, s.clauses[ps[a]].lits, s.clauses[ns[b]].lits, pivot);
      }
    }
  }

  lemma OccursProgress(s: State, t: State, ids: seq<nat>, lit: int, pivot: int)
    requires Progress(s, t, pivot) && Occurs(s, ids, lit) && (lit == pivot || lit == -pivot)
    ensures Occurs(t, ids, lit)
  {
    forall id | Live(t, id) && lit in t.clauses[id].lits ensures id in ids {
      assert id in s.clauses;
    }
  }

  lemma ResolvedNextRow(s: State, ps: seq<nat>, ns: seq<nat>, pivot: int, substitute: bool, i: nat)
    requires ResolvedUpTo(s, ps, ns, pivot, substitute, i, |ns|)
    ensures ResolvedUpTo(s, ps, ns, pivot, substitute, i + 1, 0)
  {
  }

  lemma ResolvedNextPair(s: State, ps: seq<nat>, ns: seq<nat>, pivot: int, substitute: bool, i: nat, j: nat)
    requires i < |ps| && j < |ns|
    requires ResolvedUpTo(s, ps, ns, pivot, substitute, i, j) && PairResolved(s, ps[i], ns[j], pivot, substitute)
    ensures ResolvedUpTo(s, ps, ns, pivot, substitute, i, j + 1)
  {
  }

  /** Position `p` comes before `i`, `j` in the two loops. */
  predicate Visited(p: (nat, nat), ps: seq<nat>, ns: seq<nat>, i: nat, j: nat) {
    p.0 < |ps| && p.1 < |ns| && (p.0 < i || (p.0 == i && p.1 < j))
  }

  /** The unassigned literals of the resolvent are at most `limit` many. */
  ghost predicate Fits(units: seq<int>, c: Clause, d: Clause, pivot: int, limit: int) {
    exists r: Clause :: |r| <= limit && forall l :: ResolventLit(units, c, d, pivot, l) ==> l in r
  }

  ghost predicate PairFits(s: State, c: nat, d: nat, pivot: int, limit: int) {
    c in s.clauses && d in s.clauses && Fits(s.units, s.clauses[c].lits, s.clauses[d].lits, pivot, limit)
  }

  /** Only resolvents of the pairs `needed`, all short, are still to be added. */
  ghost predicate Needed(s: State, ps: seq<nat>, ns: seq<nat>, pivot: int, substitute: bool, limit: int,
                         needed: set<(nat, nat)>, i: nat, j: nat) {
    && (forall p :: p in needed ==> Visited(p, ps, ns, i, j) && PairFits(s, ps[p.0], ns[p.1], pivot, limit))
    && (forall p: (nat, nat) {:trigger Visited(p, ps, ns, i, j)} :: Visited(p, ps, ns, i, j) && p !in needed ==>
          PairResolved(s, ps[p.0], ns[p.1], pivot, substitute))
  }

  lemma FitsOn(units: seq<int>, more: seq<int>, c: Clause, d: Clause, pivot: int, limit: int)
    requires Fits(units, c, d, pivot, limit) && units <= more
    ensures Fits(more, c, d, pivot, limit)
  {
    var r: Clause :| |r| <= limit && forall l :: ResolventLit(units, c, d, pivot, l) ==> l in r;
    forall l | ResolventLit(more, c, d, pivot, l) ensures l in r {
      assert forall x :: x in units ==> x in more;
      assert ResolventLit(units, c, d, pivot, l);
    }
  }

  lemma NeededProgress(s: State, t: State, ps: seq<nat>, ns: seq<nat>, pivot: int, substitute: bool, limit: int,
                       needed: set<(nat, nat)>, i: nat, j: nat)
    requires Progress(s, t, pivot) && Occurs(s, ps, pivot) && Occurs(s, ns, -pivot)
    requires Needed(s, ps, ns, pivot, substitute, limit, needed, i, j)
    ensures Needed(t, ps, ns, pivot, substitute, limit, needed, i, j)
  {
    ProgressGrows(s, t, pivot);
    hide Progress, Fits;
    forall p | p in needed ensures PairFits(t, ps[p.0], ns[p.1], pivot, limit) {
      FitsOn(s.units, t.units, s.clauses[ps[p.0]].lits, s.clauses[ns[p.1]].lits, pivot, limit);
    }
    forall p: (nat, nat) | Visited(p, ps, ns, i, j) && p !in needed ensures PairResolved(t, ps[p.0], ns[p.1], pivot, substitute) {
      PairProgress(s, t, ps[p.0], ns[p.1], pivot, substitute);
    }
  }

  lemma PairProgress(s: State, t: State, c: nat, d: nat, pivot: int, substitute: bool)
    requires Progress(s, t, pivot) && c in s.clauses && d in s.clauses && PairResolved(s, c, d, pivot, substitute)
    ensures PairResolved(t, c, d, pivot, substitute)
  {
    if Live(t, c) && Live(t, d) && !(substitute && t.clauses[c].gate == t.clauses[d].gate) {
      EntailedProgress(s, t, s.clauses[c].lits, s.clauses[d].lits, pivot);
    }
  }

  lemma NeededNone(s: State, ps: seq<nat>, ns: seq<nat>, pivot: int, substitute: bool, limit: int)
    ensures Needed(s, ps, ns, pivot, substitute, limit, {}, 0, 0)
    ensures |ps| == 0 || |ns| == 0 ==> Needed(s, ps, ns, pivot, substitute, limit, {}, |ps|, 0)
  {
  }

  lemma NeededRow(s: State, ps: seq<nat>, ns: seq<nat>, pivot: int, substitute: bool, limit: int,
                  needed: set<(nat, nat)>, i: nat)
    requires Needed(s, ps, ns, pivot, substitute, limit, needed, i, |ns|)
    ensures Needed(s, ps, ns, pivot, substitute, limit, needed, i + 1, 0)
  {
    hide PairFits, PairResolved;
    forall p: (nat, nat) | Visited(p, ps, ns, i + 1, 0) && p !in needed ensures PairResolved(s, ps[p.0], ns[p.1], pivot, substitute) {
      assert Visited(p, ps, ns, i, |ns|);
    }
  }

  /** The next pair needs no resolvent, or is counted. */
  lemma NeededNext(s: State, ps: seq<nat>, ns: seq<nat>, pivot: int, substitute: bool, limit: int,
                   needed: set<(nat, nat)>, i: nat, j: nat)
    requires i < |ps| && j < |ns| && Needed(s, ps, ns, pivot, substitute, limit, needed, i, j)
    ensures PairResolved(s, ps[i], ns[j], pivot, substitute) ==> Needed(s, ps, ns, pivot, substitute, limit, needed, i, j + 1)
    ensures PairFits(s, ps[i], ns[j], pivot, limit) ==> Needed(s, ps, ns, pivot, substitute, limit, needed + {(i, j)}, i, j + 1)
    ensures |needed + {(i, j)}| == |needed| + 1
  {
    hide PairFits, PairResolved;
    var q := (i, j);
    assert !Visited(q, ps, ns, i, j);
    forall p: (nat, nat) | Visited(p, ps, ns, i, j + 1) && p != q && p !in needed
      ensures PairResolved(s, ps[p.0], ns[p.1], pivot, substitute)
    {
      assert Visited(p, ps, ns, i, j);
    }
    assert q !in needed;
  }

  lemma ResolventFits(s: State, c: nat, d: nat, pivot: int, r: Clause, limit: int)
    requires c in s.clauses && d in s.clauses && IsResolvent(s.units, s.clauses[c].lits, s.clauses[d].lits, pivot, r) && |r| <= limit
    ensures PairFits(s, c, d, pivot, limit)
  {
  }

  /** A pair that is skipped or resolved without result needs no resolvent. */
  lemma NothingNeeded(s: State, t: State, c: nat, d: nat, pivot: int, substitute: bool)
    requires Progress(s, t, pivot) && c in s.clauses && d in s.clauses
    requires !(Live(s, c) && Live(s, d)) || (substitute && s.clauses[c].gate == s.clauses[d].gate)
             || ResolventEntailed(t, s.clauses[c].lits, s.clauses[d].lits, pivot)
    ensures PairResolved(t, c, d, pivot, substitute)
  {
  }

  /** Count resolvents until a bound is hit, learning units on the way. */
  method ElimResolventsAreBounded(e: Eliminator, pivot: int, ps: seq<nat>, ns: seq<nat>, substitute: bool,
                                  elimbound: int, limit: int) returns (res: bool, ghost needed: set<(nat, nat)>)
    requires e.Valid() && !e.unsat && Val(e.units, pivot) == 0
    requires Occurs(e.S(), ps, pivot) && Occurs(e.S(), ns, -pivot)
    modifies e
    ensures e.Valid() && Progress(old(e.S()), e.S(), pivot)
    ensures res ==> !e.unsat && Val(e.units, pivot) == 0
    ensures |ps| == 0 || |ns| == 0 ==> (res <==> elimbound >= 0)
    ensures res ==> (needed == {} || |needed| <= |ps| + |ns| + elimbound) && Needed(e.S(), ps, ns, pivot, substitute, limit, needed, |ps|, 0)
    ensures WithinBounds(old(e.S()), ps, ns, pivot, substitute, elimbound, limit) ==> res || e.unsat || Val(e.units, pivot) != 0
    ensures (old(e.Connected()) ==> e.Connected()) && NoNewLiterals(old(e.S()), e.S())
  {
    hide *;
    ghost var s0 := e.S();
    ProgressReflexive(s0, pivot);
    LiteralsSame(s0);
    WithinMeans(s0, ps, ns, pivot, substitute, elimbound, limit);
    NothingCounted(s0, ps, ns, pivot, substitute);
    NeededNone(s0, ps, ns, pivot, substitute, limit);
    needed := {};
    if |ps| == 0 || |ns| == 0 {
      return elimbound >= 0, {};
    }
    var bound := |ps| + |ns| + elimbound;
    var resolvents := 0;
    var i := 0;
    while i < |ps|
      invariant 0 <= i <= |ps| && resolvents <= UpTo(s0, ps, ns, i, 0, pivot, substitute)
      invariant e.Valid() && !e.unsat && Val(e.units, pivot) == 0 && Progress(s0, e.S(), pivot)
      invariant (old(e.Connected()) ==> e.Connected()) && NoNewLiterals(s0, e.S())
      invariant Needed(e.S(), ps, ns, pivot, substitute, limit, needed, i, 0) && |needed| == resolvents && (resolvents == 0 || resolvents <= bound)
    {
      var j := 0;
      while j < |ns|
        invariant Needed(e.S(), ps, ns, pivot, substitute, limit, needed, i, j) && |needed| == resolvents && (resolvents == 0 || resolvents <= bound)
        invariant 0 <= i < |ps| && 0 <= j <= |ns| && resolvents <= UpTo(s0, ps, ns, i, j, pivot, substitute)
        invariant e.Valid() && !e.unsat && Val(e.units, pivot) == 0 && Progress(s0, e.S(), pivot)
        invariant (old(e.Connected()) ==> e.Connected()) && NoNewLiterals(s0, e.S())
      {
        ghost var s := e.S();
        OccursProgress(s0, s, ps, pivot, pivot);
        OccursProgress(s0, s, ns, -pivot, pivot);
        UpToNext(s0, ps, ns, i, j, pivot, substitute);
        PairListed(e, ps, ns, pivot, i, j);
        var added, stop := ResolvePair(e, ps[i], pivot, ns[j], substitute);
        StateIs(e);
        ProgressTransitive(s0, s, e.S(), pivot);
        LiteralsTransitive(s0, s, e.S());
        if stop {
          return false, {};
        }
        NeededProgress(s, e.S(), ps, ns, pivot, substitute, limit, needed, i, j);
        NeededNext(e.S(), ps, ns, pivot, substitute, limit, needed, i, j);
        if added {
          resolvents := resolvents + 1;
          AddedCounted(s0, s, e.range, ps, ns, i, j, pivot, substitute, e.clause, limit);
          if |e.clause| > limit || resolvents > bound {
            return false, {};
          }
          ResolventFits(e.S(), ps[i], ns[j], pivot, e.clause, limit);
          needed := needed + {(i, j)};
        }
        j := j + 1;
      }
      NeededRow(e.S(), ps, ns, pivot, substitute, limit, needed, i);
      UpToRow(s0, ps, ns, i, pivot, substitute);
      i := i + 1;
    }
    return true, needed;
  }

  lemma PairListed(e: Eliminator, ps: seq<nat>, ns: seq<nat>, pivot: int, i: nat, j: nat)
    requires Occurs(e.S(), ps, pivot) && Occurs(e.S(), ns, -pivot) && i < |ps| && j < |ns|
    ensures ps[i] in e.clauses && ns[j] in e.clauses && pivot in e.clauses[ps[i]].lits && -pivot in e.clauses[ns[j]].lits
  {
  }

  lemma StateIs(e: Eliminator)
    ensures e.S().clauses == e.clauses && e.S().units == e.units && e.S().unsat == e.unsat
  {
  }

  lemma WithinMeans(s: State, ps: seq<nat>, ns: seq<nat>, pivot: int, substitute: bool, elimbound: int, limit: int)
    ensures WithinBounds(s, ps, ns, pivot, substitute, elimbound, limit) ==>
            if |ps| == 0 || |ns| == 0 then elimbound >= 0
            else PairCount(s, ps, ns, |ps|, pivot, substitute) <= |ps| + |ns| + elimbound && AllShort(s, ps, ns, pivot, substitute, limit)
  {
  }

  /** Resolves two clauses unless they are garbage or skipped; stops when the
      pivot or the formula is decided. */
  method ResolvePair(e: Eliminator, c: nat, pivot: int, d: nat, substitute: bool) returns (added: bool, stop: bool)
    requires e.Valid() && !e.unsat && Val(e.units, pivot) == 0
    requires c in e.clauses && d in e.clauses && pivot in e.clauses[c].lits && -pivot in e.clauses[d].lits
    modifies e
    ensures e.Valid() && Progress(old(e.S()), e.S(), pivot) && c in e.clauses && d in e.clauses
    ensures added ==>
      && e.S() == old(e.S()) && Live(e.S(), c) && Live(e.S(), d) && !(substitute && e.clauses[c].gate == e.clauses[d].gate)
      && IsResolvent(e.units, e.clauses[c].lits, e.clauses[d].lits, pivot, e.clause) && LitsOk(e.clause, e.range)
    ensures stop <==> e.unsat || Val(e.units, pivot) != 0
    ensures !added && !stop ==> PairResolved(e.S(), c, d, pivot, substitute)
    ensures (old(e.Connected()) ==> e.Connected()) && NoNewLiterals(old(e.S()), e.S())
  {
    hide Progress, Indexed, NoNewLiterals, PairResolved, IsResolvent, ResolventEntailed;
    ghost var s := e.S();
    added := false;
    if e.clauses[c].garbage || e.clauses[d].garbage || (substitute && e.clauses[c].gate == e.clauses[d].gate) {
      ProgressReflexive(s, pivot);
      LiteralsSame(s);
    } else {
      added := e.ResolveClauses(c, pivot, d, true);
      ProgressGrows(s, e.S(), pivot);
    }
    stop := e.unsat || Val(e.units, pivot) != 0;
    if !added {
      NothingNeeded(s, e.S(), c, d, pivot, substitute);
    }
  }

  lemma NothingCounted(s: State, ps: seq<nat>, ns: seq<nat>, pivot: int, substitute: bool)
    ensures UpTo(s, ps, ns, 0, 0, pivot, substitute) == 0
  {
  }

  /** A resolvent found was counted beforehand, and is as short as promised. */
  lemma AddedCounted(s0: State, s: State, n: nat, ps: seq<nat>, ns: seq<nat>, i: nat, j: nat, pivot: int, substitute: bool,
                     r: Clause, limit: int)
    requires Progress(s0, s, pivot) && i < |ps| && j < |ns| && Occurs(s0, ps, pivot) && Occurs(s0, ns, -pivot)
    requires Live(s, ps[i]) && Live(s, ns[j]) && !(substitute && s.clauses[ps[i]].gate == s.clauses[ns[j]].gate)
    requires IsResolvent(s.units, s.clauses[ps[i]].lits, s.clauses[ns[j]].lits, pivot, r) && LitsOk(r, n)
    ensures Counted(s0, ps[i], ns[j], pivot, substitute)
    ensures AllShort(s0, ps, ns, pivot, substitute, limit) ==> |r| <= limit
  {
    ResolventCounted(s, n, ps[i], ns[j], pivot, substitute, r);
    ProgressGrows(s0, s, pivot);
    OccursIn(s0, ps, pivot, i);
    OccursIn(s0, ns, -pivot, j);
    hide Progress, Clashes, IsResolvent, Occurs;
    CountedBack(s0, s, ps[i], ns[j], pivot, substitute);
    hide Counted;
    assert ps[i] in ps && ns[j] in ns;
    if AllShort(s0, ps, ns, pivot, substitute, limit) {
      assert Short(s0, ps[i], ns[j], pivot, substitute, limit);
    }
  }

  lemma OccursIn(s: State, os: seq<nat>, l: int, k: nat)
    requires Occurs(s, os, l) && k < |os|
    ensures os[k] in s.clauses
  {
  }

  /** Add all resolvents that are not skipped. */
  method ElimAddResolvents(e: Eliminator, pivot: int, ps: seq<nat>, ns: seq<nat>, substitute: bool)
    requires e.Valid() && !e.unsat && Val(e.units, pivot) == 0
    requires Occurs(e.S(), ps, pivot) && Occurs(e.S(), ns, -pivot)
    modifies e
    ensures e.Valid() && Progress(old(e.S()), e.S(), pivot)
    ensures !e.unsat ==> Val(e.units, pivot) == 0 && ResolvedUpTo(e.S(), ps, ns, pivot, substitute, |ps|, 0)
    ensures (old(e.Connected()) ==> e.Connected()) && NoNewLiterals(old(e.S()), e.S())
  {
    hide Progress, PairResolved, Indexed, NoNewLiterals;
    ghost var s0 := e.S();
    ProgressReflexive(s0, pivot);
    LiteralsSame(s0);
    var i := 0;
    while i < |ps| && !e.unsat
      invariant 0 <= i <= |ps|
      invariant e.Valid() && Progress(s0, e.S(), pivot) && (old(e.Connected()) ==> e.Connected()) && NoNewLiterals(s0, e.S())
      invariant !e.unsat ==> Val(e.units, pivot) == 0 && ResolvedUpTo(e.S(), ps, ns, pivot, substitute, i, 0)
    {
      var j := 0;
      while j < |ns| && !e.unsat
        invariant 0 <= i < |ps| && 0 <= j <= |ns|
        invariant e.Valid() && Progress(s0, e.S(), pivot) && (old(e.Connected()) ==> e.Connected()) && NoNewLiterals(s0, e.S())
        invariant !e.unsat ==> Val(e.units, pivot) == 0 && ResolvedUpTo(e.S(), ps, ns, pivot, substitute, i, j)
      {
        ghost var s := e.S();
        OccursProgress(s0, s, ps, pivot, pivot);
        OccursProgress(s0, s, ns, -pivot, pivot);
        AddResolvent(e, ps[i], pivot, ns[j], substitute);
        ProgressTransitive(s0, s, e.S(), pivot);
        LiteralsTransitive(s0, s, e.S());
        if !e.unsat {
          ResolvedProgress(s, e.S(), ps, ns, pivot, substitute, i, j);
          ResolvedNextPair(e.S(), ps, ns, pivot, substitute, i, j);
        }
        j := j + 1;
      }
      if !e.unsat {
        ResolvedNextRow(e.S(), ps, ns, pivot, substitute, i);
      }
      i := i + 1;
    }
  }

  method AddResolvent(e: Eliminator, c: nat, pivot: int, d: nat, substitute: bool)
    requires e.Valid() && !e.unsat && Val(e.units, pivot) == 0
    requires c in e.clauses && d in e.clauses && pivot in e.clauses[c].lits && -pivot in e.clauses[d].lits
    modifies e
    ensures e.Valid() && Progress(old(e.S()), e.S(), pivot)
    ensures Val(e.units, pivot) == 0
    ensures PairResolved(e.S(), c, d, pivot, substitute)
    ensures (old(e.Connected()) ==> e.Connected()) && NoNewLiterals(old(e.S()), e.S())
  {
    hide Indexed, NoNewLiterals, Occurring, ModelsFree, ModelsAll;
    ghost var s := e.S();
    ProgressReflexive(s, pivot);
    LiteralsSame(s);
    if e.clauses[c].garbage || e.clauses[d].garbage || (substitute && e.clauses[c].gate == e.clauses[d].gate) {
      return;
    }
    var added := e.ResolveClauses(c, pivot, d, false);
    if added {
      ghost var r, lits := e.nextId, e.clause;
      ResolventOccurring(s, c, d, pivot, lits);
      LiteralsAdded(s, r, lits);
      ResolventConsequence(s, e.range, c, d, pivot, lits);
      ResolventFree(s, e.range, c, d, pivot, lits);
      AddProgress(s, e.range, r, lits, pivot);
      e.AddIrredundantClause(e.clause);
      AddedEntails(s, r, lits, e.clauses[c].lits, e.clauses[d].lits, pivot);
      e.clause := [];
    }
  }

  lemma ResolventFree(s: State, n: nat, c: nat, d: nat, pivot: int, r: Clause)
    requires StateOk(s, n) && c in s.clauses && d in s.clauses
    requires pivot in s.clauses[c].lits && -pivot in s.clauses[d].lits
    requires IsResolvent(s.units, s.clauses[c].lits, s.clauses[d].lits, pivot, r)
    ensures !Mentions(r, pivot)
  {
    assert LitsOk(s.clauses[c].lits, n) && LitsOk(s.clauses[d].lits, n);
    assert forall l :: l in r ==> ResolventLit(s.units, s.clauses[c].lits, s.clauses[d].lits, pivot, l);
  }

  lemma AddedEntails(s: State, r: nat, lits: Clause, c: Clause, d: Clause, pivot: int)
    requires !Mentions(lits, pivot) && IsResolvent(s.units, c, d, pivot, lits)
    ensures ResolventEntailed(WithClause(s, r, lits), c, d, pivot)
  {
    var t := WithClause(s, r, lits);
    assert Live(t, r) && t.clauses[r].lits == lits;
    WithinResolvent(s, t, c, d, pivot, lits);
  }

  /* ---- removing the clauses with the pivot ---- */

  /** The literals of the live clauses of a list, in order; with `gatesOnly`
      only of the gate clauses. */
  function LiveLits(clauses: Clauses, ids: seq<nat>, gatesOnly: bool): seq<Clause>
    requires forall k :: 0 <= k < |ids| ==> ids[k] in clauses
  {
    if ids == [] then []
    else
      var n := |ids| - 1;
      LiveLits(clauses, ids[..n], gatesOnly) +
      (if !clauses[ids[n]].garbage && (!gatesOnly || clauses[ids[n]].gate) then [clauses[ids[n]].lits] else [])
  }

  lemma {:induction false} LiveLitsMembers(clauses: Clauses, ids: seq<nat>, gatesOnly: bool, c: Clause)
    requires forall k :: 0 <= k < |ids| ==> ids[k] in clauses
    ensures c in LiveLits(clauses, ids, gatesOnly) <==>
            exists k :: 0 <= k < |ids| && !clauses[ids[k]].garbage && (!gatesOnly || clauses[ids[k]].gate) && clauses[ids[k]].lits == c
  {
    if ids != [] {
      LiveLitsMembers(clauses, ids[..|ids| - 1], gatesOnly, c);
      var n := |ids| - 1;
      assert forall k :: 0 <= k < n ==> ids[..n][k] == ids[k];
    }
  }

  /** The clauses of a list made garbage. */
  ghost function Swept(clauses: Clauses, ids: seq<nat>): Clauses {
    map id | id in clauses :: if id in ids then clauses[id].(garbage := true) else clauses[id]
  }

  lemma NothingSwept(clauses: Clauses, ids: seq<nat>, gatesOnly: bool, pivot: int)
    ensures ids[..0] == [] && Swept(clauses, ids[..0]) == clauses
    ensures Flat(EntriesFor(LiveLits(clauses, ids[..0], gatesOnly), pivot)) == []
  {
    assert ids[..0] == [];
  }

  lemma SweptStep(clauses: Clauses, ids: seq<nat>, i: nat)
    requires i < |ids| && NoDup(ids) && ids[i] in clauses
    ensures ids[i] in Swept(clauses, ids[..i]) && Swept(clauses, ids[..i])[ids[i]] == clauses[ids[i]]
    ensures Swept(clauses, ids[..i + 1]) == Swept(clauses, ids[..i])[ids[i] := clauses[ids[i]].(garbage := true)]
  {
    assert ids[..i + 1] == ids[..i] + [ids[i]];
  }

  /** Sweep one occurrence list, pushing the clauses (or the gate clauses). */
  method SweepOccurrences(e: Eliminator, external: External, ids: seq<nat>, pivot: int, substitute: bool)
    requires NoDup(ids) && forall k :: 0 <= k < |ids| ==> ids[k] in e.clauses
    modifies e`clauses, external`extension, external`witnesses
    ensures e.clauses == Swept(old(e.clauses), ids)
    ensures external.extension ==
            old(external.extension) + Flat(EntriesFor(LiveLits(old(e.clauses), ids, substitute), pivot))
  {
    hide *;
    ghost var before, pushed := e.clauses, external.extension;
    StackStart(pushed, before, ids, substitute, pivot);
    var i := 0;
    while i < |ids|
      invariant 0 <= i <= |ids|
      invariant e.clauses == Swept(before, ids[..i])
      invariant external.extension == Stack(pushed, before, ids[..i], substitute, pivot)
    {
      SweptStep(before, ids, i);
      StackNext(pushed, before, ids, i, substitute, pivot);
      SweepClause(e, external, ids[i], pivot, substitute);
      i := i + 1;
    }
    StackEnd(pushed, before, ids, i, substitute, pivot);
  }

  /** The extension stack after the clauses of a list were pushed. */
  ghost function Stack(pushed: seq<int>, before: Clauses, ids: seq<nat>, substitute: bool, pivot: int): seq<int>
    requires forall k :: 0 <= k < |ids| ==> ids[k] in before
  {
    pushed + Flat(EntriesFor(LiveLits(before, ids, substitute), pivot))
  }

  lemma StackStart(pushed: seq<int>, before: Clauses, ids: seq<nat>, substitute: bool, pivot: int)
    requires forall k :: 0 <= k < |ids| ==> ids[k] in before
    ensures Stack(pushed, before, ids[..0], substitute, pivot) == pushed && Swept(before, ids[..0]) == before
  {
    NothingSwept(before, ids, substitute, pivot);
  }

  lemma StackNext(pushed: seq<int>, before: Clauses, ids: seq<nat>, i: nat, substitute: bool, pivot: int)
    requires NoDup(ids) && i < |ids| && forall k :: 0 <= k < |ids| ==> ids[k] in before
    ensures Stack(pushed, before, ids[..i + 1], substitute, pivot) ==
            Stack(pushed, before, ids[..i], substitute, pivot) + PushedFor(before[ids[i]], pivot, substitute)
  {
    LiveLitsStep(before, ids, i, substitute, pivot);
    ConcatAssociative(pushed, Flat(EntriesFor(LiveLits(before, ids[..i], substitute), pivot)),
                      PushedFor(before[ids[i]], pivot, substitute));
  }

  lemma StackEnd(pushed: seq<int>, before: Clauses, ids: seq<nat>, i: nat, substitute: bool, pivot: int)
    requires i == |ids| && forall k :: 0 <= k < |ids| ==> ids[k] in before
    ensures ids[..i] == ids
    ensures Stack(pushed, before, ids, substitute, pivot) == pushed + Flat(EntriesFor(LiveLits(before, ids, substitute), pivot))
  {
  }

  lemma ConcatAssociative(a: seq<int>, b: seq<int>, c: seq<int>)
    ensures (a + b) + c == a + (b + c)
  {
  }

  /** What one removed clause puts on the extension stack. */
  function PushedFor(c: IrredundantClause, pivot: int, gatesOnly: bool): seq<int> {
    if !c.garbage && (!gatesOnly || c.gate) then FlatEntry(Entry([pivot], c.lits)) else []
  }

  method SweepClause(e: Eliminator, external: External, id: nat, pivot: int, substitute: bool)
    requires id in e.clauses
    modifies e`clauses, external`extension, external`witnesses
    ensures e.clauses == old(e.clauses)[id := old(e.clauses)[id].(garbage := true)]
    ensures external.extension == old(external.extension) + PushedFor(old(e.clauses)[id], pivot, substitute)
  {
    if !e.clauses[id].garbage {
      e.MarkGarbage(id);
      if !substitute || e.clauses[id].gate {
        external.PushClauseOnExtensionStack(e.clauses[id].lits, pivot);
      }
    }
  }

  lemma LiveLitsStep(clauses: Clauses, ids: seq<nat>, i: nat, gatesOnly: bool, pivot: int)
    requires i < |ids| && forall k :: 0 <= k < |ids| ==> ids[k] in clauses
    ensures ids[..0] == []
    ensures var c := clauses[ids[i]];
            Flat(EntriesFor(LiveLits(clauses, ids[..i + 1], gatesOnly), pivot)) ==
            Flat(EntriesFor(LiveLits(clauses, ids[..i], gatesOnly), pivot)) + PushedFor(c, pivot, gatesOnly)
  {
    assert ids[..i + 1][..i] == ids[..i];
    var c := clauses[ids[i]];
    var prior := LiveLits(clauses, ids[..i], gatesOnly);
    if !c.garbage && (!gatesOnly || c.gate) {
      assert (prior + [c.lits])[..|prior|] == prior;
      FlatConcat(EntriesFor(prior, pivot), [Entry([pivot], c.lits)]);
      FlatOne(Entry([pivot], c.lits));
    } else {
      assert LiveLits(clauses, ids[..i + 1], gatesOnly) == prior;
    }
  }

  /** Remove all clauses with the pivot or its negation and push them, or only
      the gate clauses, on the extension stack. */
  method MarkEliminatedClausesAsGarbage(e: Eliminator, external: External, pivot: int, ps: seq<nat>, ns: seq<nat>,
                                        substitute: bool)
    requires e.Valid() && pivot != 0
    requires Occurs(e.S(), ps, pivot) && Occurs(e.S(), ns, -pivot)
    modifies e`clauses, external`extension, external`witnesses
    ensures e.clauses == Swept(Swept(old(e.clauses), ps), ns)
    ensures external.extension ==
            old(external.extension) +
            Flat(EliminationEntries(pivot, LiveLits(old(e.clauses), ps, substitute), LiveLits(old(e.clauses), ns, substitute)))
  {
    ghost var before, pushed := e.clauses, external.extension;
    OccursIds(e.S(), ps, pivot);
    OccursIds(e.S(), ns, -pivot);
    hide Occurs;
    hide LiveLits;
    hide EntriesFor;
    hide Flat;
    hide Swept;
    hide StateOk;
    hide NoDup;
    SweepOccurrences(e, external, ps, pivot, substitute);
    SweptLiveLits(e.S().(clauses := before), e.range, pivot, ps, ns, substitute);
    SweepOccurrences(e, external, ns, -pivot, substitute);
    ghost var gp, gn := LiveLits(before, ps, substitute), LiveLits(before, ns, substitute);
    FlatConcat(EntriesFor(gp, pivot), EntriesFor(gn, -pivot));
    ConcatAssociative(pushed, Flat(EntriesFor(gp, pivot)), Flat(EntriesFor(gn, -pivot)));
  }

  lemma OccursIds(s: State, ids: seq<nat>, lit: int)
    requires Occurs(s, ids, lit)
    ensures NoDup(ids) && forall k :: 0 <= k < |ids| ==> ids[k] in s.clauses
  {
  }

  lemma SweptLiveLits(s: State, n: nat, pivot: int, ps: seq<nat>, ns: seq<nat>, gatesOnly: bool)
    requires StateOk(s, n) && Occurs(s, ps, pivot) && Occurs(s, ns, -pivot)
    ensures forall k :: 0 <= k < |ns| ==> ns[k] in Swept(s.clauses, ps)
    ensures LiveLits(Swept(s.clauses, ps), ns, gatesOnly) == LiveLits(s.clauses, ns, gatesOnly)
  {
    forall k | 0 <= k < |ns| ensures ns[k] in s.clauses && ns[k] !in ps {
      assert LitsOk(s.clauses[ns[k]].lits, n);
    }
    SameLiveLits(s.clauses, Swept(s.clauses, ps), ns, gatesOnly);
  }

  lemma {:induction false} SameLiveLits(a: Clauses, b: Clauses, ids: seq<nat>, gatesOnly: bool)
    requires forall k :: 0 <= k < |ids| ==> ids[k] in a && ids[k] in b && a[ids[k]] == b[ids[k]]
    ensures LiveLits(a, ids, gatesOnly) == LiveLits(b, ids, gatesOnly)
  {
    if ids != [] {
      SameLiveLits(a, b, ids[..|ids| - 1], gatesOnly);
    }
  }

  /** After sweeping, exactly the part without the pivot is left. */
  lemma SweptModels(t: State, n: nat, pivot: int, ps: seq<nat>, ns: seq<nat>, m: Model)
    requires StateOk(t, n) && Occurs(t, ps, pivot) && Occurs(t, ns, -pivot)
    ensures ModelsAll(m, t.(clauses := Swept(Swept(t.clauses, ps), ns))) <==> ModelsFree(m, t, pivot)
  {
    var u := t.(clauses := Swept(Swept(t.clauses, ps), ns));
    forall id ensures Live(u, id) <==> Live(t, id) && !Mentions(t.clauses[id].lits, pivot) {
    }
    if ModelsAll(m, u) {
      forall id | Live(t, id) && !Mentions(t.clauses[id].lits, pivot) ensures Satisfies(m, t.clauses[id].lits) {
        assert Live(u, id);
      }
    }
    if ModelsFree(m, t, pivot) {
      forall id | Live(u, id) ensures Satisfies(m, u.clauses[id].lits) {
        assert Live(t, id);
      }
    }
  }

  lemma LiveLitsOf(t: State, ids: seq<nat>, lit: int, gatesOnly: bool)
    requires Occurs(t, ids, lit)
    ensures Lists(t, LiveLits(t.clauses, ids, gatesOnly), lit, gatesOnly)
  {
    forall c ensures c in LiveLits(t.clauses, ids, gatesOnly) <==> HasLive(t, c, lit, gatesOnly) {
      LiveLitsMembers(t.clauses, ids, gatesOnly, c);
      if c in LiveLits(t.clauses, ids, gatesOnly) {
        var k :| 0 <= k < |ids| && !t.clauses[ids[k]].garbage && (!gatesOnly || t.clauses[ids[k]].gate) && t.clauses[ids[k]].lits == c;
        assert Live(t, ids[k]);
      }
    }
  }

  /** With all resolvents in place, the elimination is one the reconstruction
      proof covers. */
  lemma EliminationIsValid(t: State, n: nat, pivot: int, ps: seq<nat>, ns: seq<nat>, substitute: bool)
    requires StateOk(t, n) && pivot != 0 && Val(t.units, pivot) == 0
    requires Occurs(t, ps, pivot) && Occurs(t, ns, -pivot)
    requires ResolvedUpTo(t, ps, ns, pivot, substitute, |ps|, 0)
    requires substitute ==> GateOk(t, pivot)
    ensures ValidElimination(FormulaOf(t), pivot,
                             LiveLits(t.clauses, ps, false), LiveLits(t.clauses, ns, false),
                             LiveLits(t.clauses, ps, substitute), LiveLits(t.clauses, ns, substitute),
                             FormulaOf(t.(clauses := Swept(Swept(t.clauses, ps), ns))))
  {
    hide *;
    OccursIds(t, ps, pivot);
    OccursIds(t, ns, -pivot);
    var g := FormulaOf(t.(clauses := Swept(Swept(t.clauses, ps), ns)));
    var cs, ds := LiveLits(t.clauses, ps, false), LiveLits(t.clauses, ns, false);
    var gp, gn := LiveLits(t.clauses, ps, substitute), LiveLits(t.clauses, ns, substitute);
    BothLists(t, ps, pivot, substitute);
    BothLists(t, ns, -pivot, substitute);
    SweptFormula(t, n, pivot, ps, ns);
    SideLists(t, n, cs, gp, pivot, substitute);
    SideLists(t, n, ds, gn, -pivot, substitute);
    OthersEntailed(t, pivot, cs, ds, g);
    DefinedOrAll(t, n, pivot, cs, ds, gp, gn, substitute, g);
    ResolventsPushed(t, pivot, ps, ns, substitute, g);
    ValidEliminationOf(FormulaOf(t), pivot, cs, ds, gp, gn, g);
  }

  /** The live clauses with the literal, or only the gate clauses. */
  ghost predicate Lists(t: State, cs: seq<Clause>, lit: int, gatesOnly: bool) {
    forall c :: c in cs <==> HasLive(t, c, lit, gatesOnly)
  }

  ghost predicate HasLive(t: State, c: Clause, lit: int, gatesOnly: bool) {
    exists id :: Live(t, id) && (gatesOnly ==> t.clauses[id].gate) && t.clauses[id].lits == c && lit in c
  }

  ghost predicate FreeModels(t: State, pivot: int, g: Formula) {
    forall m :: Models(m, g) <==> ModelsFree(m, t, pivot)
  }

  ghost predicate Pushing(cs: seq<Clause>, gp: seq<Clause>, pivot: int) {
    && (forall c :: c in gp ==> c in cs)
    && (forall c :: c in cs ==> pivot in c && -pivot !in c)
  }

  ghost predicate OthersFollow(f: Formula, pivot: int, cs: seq<Clause>, ds: seq<Clause>, g: Formula) {
    forall c :: c in f && c !in cs && c !in ds ==> pivot !in c && -pivot !in c && Entails(g, c)
  }

  ghost predicate Decided(pivot: int, cs: seq<Clause>, ds: seq<Clause>, gp: seq<Clause>, gn: seq<Clause>, g: Formula) {
    ((forall c :: c in cs ==> c in gp) && (forall d :: d in ds ==> d in gn)) || Defines(gp, gn, pivot, g)
  }

  ghost predicate Resolvable(pivot: int, cs: seq<Clause>, ds: seq<Clause>, gp: seq<Clause>, gn: seq<Clause>, g: Formula) {
    forall m, c, d :: Models(m, g) && c in cs && d in ds && (c in gp || d in gn) ==> ResolventHolds(m, c, d, pivot)
  }

  lemma BothLists(t: State, ids: seq<nat>, lit: int, substitute: bool)
    requires Occurs(t, ids, lit)
    ensures Lists(t, LiveLits(t.clauses, ids, false), lit, false)
    ensures Lists(t, LiveLits(t.clauses, ids, substitute), lit, substitute)
  {
    LiveLitsOf(t, ids, lit, false);
    LiveLitsOf(t, ids, lit, substitute);
  }

  lemma ValidEliminationOf(f: Formula, pivot: int, cs: seq<Clause>, ds: seq<Clause>, gp: seq<Clause>, gn: seq<Clause>, g: Formula)
    requires pivot != 0 && Pushing(cs, gp, pivot) && Pushing(ds, gn, -pivot) && OthersFollow(f, pivot, cs, ds, g)
    requires Decided(pivot, cs, ds, gp, gn, g) && Resolvable(pivot, cs, ds, gp, gn, g)
    ensures ValidElimination(f, pivot, cs, ds, gp, gn, g)
  {
    hide Entails, Defines, ResolventHolds, Models;
    assert -(-pivot) == pivot;
  }

  lemma SweptFormula(t: State, n: nat, pivot: int, ps: seq<nat>, ns: seq<nat>)
    requires StateOk(t, n) && Occurs(t, ps, pivot) && Occurs(t, ns, -pivot)
    ensures FreeModels(t, pivot, FormulaOf(t.(clauses := Swept(Swept(t.clauses, ps), ns))))
  {
    var u := t.(clauses := Swept(Swept(t.clauses, ps), ns));
    hide FormulaOf, StateOk, Occurs, ModelsAll, ModelsFree, Swept, Models;
    forall m ensures Models(m, FormulaOf(u)) <==> ModelsFree(m, t, pivot) {
      FormulaModels(u, m);
      SweptModels(t, n, pivot, ps, ns, m);
    }
  }

  lemma SideLists(t: State, n: nat, cs: seq<Clause>, gp: seq<Clause>, lit: int, substitute: bool)
    requires StateOk(t, n) && Lists(t, cs, lit, false) && Lists(t, gp, lit, substitute)
    ensures Pushing(cs, gp, lit)
  {
    forall c | c in cs ensures lit in c && -lit !in c {
      assert HasLive(t, c, lit, false);
      assert LitsOk(c, n);
    }
    forall c | c in gp ensures c in cs {
      assert HasLive(t, c, lit, substitute) && HasLive(t, c, lit, false);
    }
  }

  lemma OthersEntailed(t: State, pivot: int, cs: seq<Clause>, ds: seq<Clause>, g: Formula)
    requires Val(t.units, pivot) == 0 && Lists(t, cs, pivot, false) && Lists(t, ds, -pivot, false) && FreeModels(t, pivot, g)
    ensures OthersFollow(FormulaOf(t), pivot, cs, ds, g)
  {
    ListsAll(t, cs, pivot);
    ListsAll(t, ds, -pivot);
    hide FormulaOf, ModelsFree, Satisfies, Lists, Models, Val;
    forall c | c in FormulaOf(t) && c !in cs && c !in ds ensures pivot !in c && -pivot !in c && Entails(g, c) {
      OthersStay(t, pivot, cs, ds, c);
    }
  }

  lemma ListsAll(t: State, cs: seq<Clause>, lit: int)
    requires Lists(t, cs, lit, false)
    ensures forall id :: Live(t, id) && lit in t.clauses[id].lits ==> t.clauses[id].lits in cs
  {
    forall id | Live(t, id) && lit in t.clauses[id].lits ensures t.clauses[id].lits in cs {
      assert HasLive(t, t.clauses[id].lits, lit, false);
    }
  }

  lemma ListsGates(t: State, gp: seq<Clause>, lit: int)
    requires Lists(t, gp, lit, true)
    ensures forall id :: Live(t, id) && t.clauses[id].gate && lit in t.clauses[id].lits ==> t.clauses[id].lits in gp
  {
    forall id | Live(t, id) && t.clauses[id].gate && lit in t.clauses[id].lits ensures t.clauses[id].lits in gp {
      assert HasLive(t, t.clauses[id].lits, lit, true);
    }
  }

  lemma DefinedOrAll(t: State, n: nat, pivot: int, cs: seq<Clause>, ds: seq<Clause>, gp: seq<Clause>, gn: seq<Clause>,
                     substitute: bool, g: Formula)
    requires StateOk(t, n) && FreeModels(t, pivot, g) && (substitute ==> GateOk(t, pivot))
    requires Lists(t, cs, pivot, false) && Lists(t, ds, -pivot, false)
    requires Lists(t, gp, pivot, substitute) && Lists(t, gn, -pivot, substitute)
    ensures Decided(pivot, cs, ds, gp, gn, g)
  {
    hide StateOk, ModelsFree, Models, GateOk, Defines, HasLive;
    if substitute {
      ListsGates(t, gp, pivot);
      ListsGates(t, gn, -pivot);
      GatesDefine(t, n, pivot, gp, gn, g);
    }
  }

  lemma ResolventsPushed(t: State, pivot: int, ps: seq<nat>, ns: seq<nat>, substitute: bool, g: Formula)
    requires Occurs(t, ps, pivot) && Occurs(t, ns, -pivot) && FreeModels(t, pivot, g)
    requires ResolvedUpTo(t, ps, ns, pivot, substitute, |ps|, 0) && (substitute ==> GateOk(t, pivot))
    requires Lists(t, LiveLits(t.clauses, ps, false), pivot, false) && Lists(t, LiveLits(t.clauses, ns, false), -pivot, false)
    requires Lists(t, LiveLits(t.clauses, ps, substitute), pivot, substitute)
    requires Lists(t, LiveLits(t.clauses, ns, substitute), -pivot, substitute)
    ensures Resolvable(pivot, LiveLits(t.clauses, ps, false), LiveLits(t.clauses, ns, false),
                       LiveLits(t.clauses, ps, substitute), LiveLits(t.clauses, ns, substitute), g)
  {
    var cs, ds := LiveLits(t.clauses, ps, false), LiveLits(t.clauses, ns, false);
    var gp, gn := LiveLits(t.clauses, ps, substitute), LiveLits(t.clauses, ns, substitute);
    hide LiveLits, Occurs, ResolvedUpTo, GateOk, ModelsFree, Models, ResolventHolds;
    forall c, d | c in cs && d in ds && (c in gp || d in gn) ensures ResolventEntailed(t, c, d, pivot) {
      assert HasLive(t, c, pivot, false) && HasLive(t, d, -pivot, false);
      assert c in gp ==> HasLive(t, c, pivot, substitute);
      assert d in gn ==> HasLive(t, d, -pivot, substitute);
      PushedResolvent(t, pivot, ps, ns, substitute, c, d, c in gp);
    }
  }

  lemma OthersStay(t: State, pivot: int, cs: seq<Clause>, ds: seq<Clause>, c: Clause)
    requires Val(t.units, pivot) == 0 && c in FormulaOf(t) && c !in cs && c !in ds
    requires forall id :: Live(t, id) && pivot in t.clauses[id].lits ==> t.clauses[id].lits in cs
    requires forall id :: Live(t, id) && -pivot in t.clauses[id].lits ==> t.clauses[id].lits in ds
    ensures pivot !in c && -pivot !in c
    ensures forall m :: ModelsFree(m, t, pivot) ==> Satisfies(m, c)
  {
    if u :| u in t.units && c == [u] {
      forall m | ModelsFree(m, t, pivot) ensures Satisfies(m, c) {
        assert u in c && Holds(m, u);
      }
    } else if id :| Live(t, id) && c == t.clauses[id].lits {
    } else {
      assert c == [] && t.unsat;
    }
  }

  lemma GatesDefine(t: State, n: nat, pivot: int, gp: seq<Clause>, gn: seq<Clause>, g: Formula)
    requires StateOk(t, n) && GateOk(t, pivot)
    requires forall m :: Models(m, g) <==> ModelsFree(m, t, pivot)
    requires forall id :: Live(t, id) && t.clauses[id].gate && pivot in t.clauses[id].lits ==> t.clauses[id].lits in gp
    requires forall id :: Live(t, id) && t.clauses[id].gate && -pivot in t.clauses[id].lits ==> t.clauses[id].lits in gn
    ensures Defines(gp, gn, pivot, g)
  {
    forall m | Models(m, g)
      ensures (exists c :: c in gp && !RestHolds(m, c, pivot)) || (exists d :: d in gn && !RestHolds(m, d, -pivot))
    {
      var id :| Live(t, id) && t.clauses[id].gate && Forces(m, t.clauses[id].lits, pivot);
      var c := t.clauses[id].lits;
      assert LitsOk(c, n);
      if pivot in c {
        assert c in gp && !RestHolds(m, c, pivot);
      } else {
        assert c in gn && !RestHolds(m, c, -pivot);
      }
    }
  }

  /** Resolvents with a pushed clause follow without the pivot. */
  lemma PushedResolvent(t: State, pivot: int, ps: seq<nat>, ns: seq<nat>, substitute: bool, c: Clause, d: Clause, first: bool)
    requires Occurs(t, ps, pivot) && Occurs(t, ns, -pivot)
    requires ResolvedUpTo(t, ps, ns, pivot, substitute, |ps|, 0)
    requires substitute ==> GateOk(t, pivot)
    requires exists id :: Live(t, id) && (first && substitute ==> t.clauses[id].gate) && t.clauses[id].lits == c && pivot in c
    requires exists id :: Live(t, id) && (!first && substitute ==> t.clauses[id].gate) && t.clauses[id].lits == d && -pivot in d
    ensures ResolventEntailed(t, c, d, pivot)
  {
    var x :| Live(t, x) && (first && substitute ==> t.clauses[x].gate) && t.clauses[x].lits == c && pivot in c;
    var y :| Live(t, y) && (!first && substitute ==> t.clauses[y].gate) && t.clauses[y].lits == d && -pivot in d;
    var a :| 0 <= a < |ps| && ps[a] == x;
    var b :| 0 <= b < |ns| && ns[b] == y;
    assert PairResolved(t, ps[a], ns[b], pivot, substitute);
  }

  /** Counts the resolvents and adds them if they are few enough. */
  method AddBoundedResolvents(e: Eliminator, pivot: int, ps: seq<nat>, ns: seq<nat>, substitute: bool, elimbound: int, limit: int)
    returns (added: bool)
    requires e.Valid() && !e.unsat && Val(e.units, pivot) == 0
    requires Occurs(e.S(), ps, pivot) && Occurs(e.S(), ns, -pivot)
    modifies e
    ensures e.Valid() && Progress(old(e.S()), e.S(), pivot)
    ensures added ==> !e.unsat && Val(e.units, pivot) == 0 && ResolvedUpTo(e.S(), ps, ns, pivot, substitute, |ps|, 0)
    ensures WithinBounds(old(e.S()), ps, ns, pivot, substitute, elimbound, limit) ==> added || e.unsat || Val(e.units, pivot) != 0
    ensures (old(e.Connected()) ==> e.Connected()) && NoNewLiterals(old(e.S()), e.S())
  {
    hide *;
    ghost var s0 := e.S();
    ghost var needed;
    added, needed := ElimResolventsAreBounded(e, pivot, ps, ns, substitute, elimbound, limit);
    if added {
      ghost var s1 := e.S();
      OccursProgress(s0, s1, ps, pivot, pivot);
      OccursProgress(s0, s1, ns, -pivot, pivot);
      ElimAddResolvents(e, pivot, ps, ns, substitute);
      ProgressTransitive(s0, s1, e.S(), pivot);
      LiteralsTransitive(s0, s1, e.S());
      added := !e.unsat;
    }
  }

  /** Try to eliminate a variable.  Either the formula stays equivalent and
      nothing is pushed, or what is pushed reconstructs models of the formula
      before from models of the formula after. */
  method TryToEliminateVariable(e: Eliminator, external: External, pivot: int, ps: seq<nat>, ns: seq<nat>,
                                substitute: bool, elimbound: int, limit: int)
    returns (eliminated: bool, ghost entries: seq<Entry>)
    requires e.Valid() && !e.unsat && pivot != 0 && Val(e.units, pivot) == 0
    requires Occurs(e.S(), ps, pivot) && Occurs(e.S(), ns, -pivot)
    modifies e, external`extension, external`witnesses
    ensures e.Valid() && GatesFrom(old(e.S()), e.S())
    ensures external.extension == old(external.extension) + Flat(entries)
    ensures (substitute ==> GateOk(old(e.S()), pivot)) ==> Repairs(FormulaOf(old(e.S())), entries, FormulaOf(e.S()))
    ensures !eliminated ==> entries == [] && Progress(old(e.S()), e.S(), pivot)
    ensures eliminated ==> forall id :: Live(e.S(), id) ==> !Mentions(e.clauses[id].lits, pivot)
    ensures WithinBounds(old(e.S()), ps, ns, pivot, substitute, elimbound, limit) ==> eliminated || e.unsat || Val(e.units, pivot) != 0
    ensures (old(e.Connected()) ==> e.Connected()) && NoNewLiterals(old(e.S()), e.S())
  {
    hide *;
    ghost var s0 := e.S();
    entries := [];
    NothingPushed(external.extension);
    eliminated := AddBoundedResolvents(e, pivot, ps, ns, substitute, elimbound, limit);
    ghost var t := e.S();
    StateIs(e);
    EquivalentRepairs(s0, t, pivot);
    if !eliminated {
      return;
    }
    OccursProgress(s0, t, ps, pivot, pivot);
    OccursProgress(s0, t, ns, -pivot, pivot);
    if substitute && GateOk(s0, pivot) {
      GateProgress(s0, t, pivot);
    }
    entries := RemoveClauses(e, external, pivot, ps, ns, substitute);
    GatesFromTransitive(s0, t, e.S());
    LiteralsTransitive(s0, t, e.S());
    if substitute ==> GateOk(s0, pivot) {
      RepairsAfter(FormulaOf(s0), FormulaOf(t), entries, FormulaOf(e.S()));
    }
  }

  lemma NothingPushed(stack: seq<int>)
    ensures stack == stack + Flat([])
  {
  }

  lemma RepairsAfter(f: Formula, g: Formula, entries: seq<Entry>, h: Formula)
    requires Repairs(f, [], g) && Repairs(g, entries, h)
    ensures Repairs(f, entries, h)
  {
    var none: seq<Entry> := [];
    assert none + entries == entries;
    RepairsCompose(f, none, g, entries, h);
  }

  /** No clause becomes a gate clause. */
  ghost predicate GatesFrom(s: State, t: State) {
    forall id {:trigger t.clauses[id]} :: id in t.clauses && t.clauses[id].gate ==> id in s.clauses && s.clauses[id].gate
  }

  lemma GatesFromTransitive(s: State, t: State, u: State)
    requires GatesFrom(s, t) && GatesFrom(t, u)
    ensures GatesFrom(s, u)
  {
  }

  lemma SweptGrows(t: State, ps: seq<nat>, ns: seq<nat>)
    ensures Grows(t, t.(clauses := Swept(Swept(t.clauses, ps), ns)))
    ensures Swept(Swept(t.clauses, ps), ns).Keys == t.clauses.Keys
  {
  }

  /** Remove the clauses with the pivot once all resolvents are in place. */
  method RemoveClauses(e: Eliminator, external: External, pivot: int, ps: seq<nat>, ns: seq<nat>, substitute: bool)
    returns (ghost entries: seq<Entry>)
    requires e.Valid() && !e.unsat && pivot != 0 && Val(e.units, pivot) == 0
    requires Occurs(e.S(), ps, pivot) && Occurs(e.S(), ns, -pivot)
    requires ResolvedUpTo(e.S(), ps, ns, pivot, substitute, |ps|, 0)
    modifies e`clauses, external`extension, external`witnesses
    ensures e.Valid() && GatesFrom(old(e.S()), e.S())
    ensures external.extension == old(external.extension) + Flat(entries)
    ensures (substitute ==> GateOk(old(e.S()), pivot)) ==> Repairs(FormulaOf(old(e.S())), entries, FormulaOf(e.S()))
    ensures forall id :: Live(e.S(), id) ==> !Mentions(e.clauses[id].lits, pivot)
    ensures (old(e.Connected()) ==> e.Connected()) && NoNewLiterals(old(e.S()), e.S())
  {
    ghost var t, occs := e.S(), e.occs;
    SweptFacts(t, e.range, e.occs, pivot, ps, ns);
    SweptGrows(t, ps, ns);
    LiteralsKept(t, t.(clauses := Swept(Swept(t.clauses, ps), ns)));
    hide Indexed, NoNewLiterals, GateOk, ResolvedUpTo, Repairs, ValidElimination, EliminationEntries, Occurs, Swept, FormulaOf, NoDup, StateOk, OccsOk, GatesFrom;
    MarkEliminatedClausesAsGarbage(e, external, pivot, ps, ns, substitute);
    entries := EliminationEntries(pivot, LiveLits(t.clauses, ps, substitute), LiveLits(t.clauses, ns, substitute));
    IndexedKept(t, e.S(), occs);
    if substitute ==> GateOk(t, pivot) {
      RemovalRepairs(t, e.range, pivot, ps, ns, substitute);
    }
  }

  /** What the removal pushes repairs models. */
  lemma RemovalRepairs(t: State, n: nat, pivot: int, ps: seq<nat>, ns: seq<nat>, substitute: bool)
    requires StateOk(t, n) && pivot != 0 && Val(t.units, pivot) == 0
    requires Occurs(t, ps, pivot) && Occurs(t, ns, -pivot)
    requires ResolvedUpTo(t, ps, ns, pivot, substitute, |ps|, 0)
    requires substitute ==> GateOk(t, pivot)
    ensures Repairs(FormulaOf(t),
                    EliminationEntries(pivot, LiveLits(t.clauses, ps, substitute), LiveLits(t.clauses, ns, substitute)),
                    FormulaOf(t.(clauses := Swept(Swept(t.clauses, ps), ns))))
  {
    hide *;
    OccursIds(t, ps, pivot);
    OccursIds(t, ns, -pivot);
    var gp, gn := LiveLits(t.clauses, ps, substitute), LiveLits(t.clauses, ns, substitute);
    EliminationIsValid(t, n, pivot, ps, ns, substitute);
    LiveNonZero(t, n, ps, pivot, substitute);
    LiveNonZero(t, n, ns, -pivot, substitute);
    ValidRepairs(FormulaOf(t), pivot, LiveLits(t.clauses, ps, false), LiveLits(t.clauses, ns, false),
                 gp, gn, FormulaOf(t.(clauses := Swept(Swept(t.clauses, ps), ns))));
  }

  lemma ValidRepairs(f: Formula, pivot: int, cs: seq<Clause>, ds: seq<Clause>, gp: seq<Clause>, gn: seq<Clause>, g: Formula)
    requires ValidElimination(f, pivot, cs, ds, gp, gn, g) && pivot != 0
    requires (forall c :: c in gp ==> NonZero(c)) && (forall d :: d in gn ==> NonZero(d))
    ensures Repairs(f, EliminationEntries(pivot, gp, gn), g)
  {
    hide NonZero, ValidElimination, EntriesFor, EntriesOk, Reconstructs;
    EntriesForOk(gp, pivot);
    EntriesForOk(gn, -pivot);
    EntriesConcat(EntriesFor(gp, pivot), EntriesFor(gn, -pivot));
    EliminationReconstructs(f, pivot, cs, ds, gp, gn, g);
  }

  lemma LiveNonZero(t: State, n: nat, ids: seq<nat>, lit: int, gatesOnly: bool)
    requires StateOk(t, n) && Occurs(t, ids, lit)
    ensures forall c :: c in LiveLits(t.clauses, ids, gatesOnly) ==> NonZero(c)
  {
    forall c | c in LiveLits(t.clauses, ids, gatesOnly) ensures NonZero(c) {
      LiveLitsMembers(t.clauses, ids, gatesOnly, c);
      var k :| 0 <= k < |ids| && t.clauses[ids[k]].lits == c;
      assert LitsOk(c, n);
    }
  }

  lemma SweptFacts(t: State, n: nat, occs: Occs, pivot: int, ps: seq<nat>, ns: seq<nat>)
    requires StateOk(t, n) && OccsOk(t.clauses, occs) && Occurs(t, ps, pivot) && Occurs(t, ns, -pivot)
    ensures var u := t.(clauses := Swept(Swept(t.clauses, ps), ns));
            && StateOk(u, n) && OccsOk(u.clauses, occs) && GatesFrom(t, u) && u.clauses.Keys == t.clauses.Keys
            && forall id :: Live(u, id) ==> !Mentions(u.clauses[id].lits, pivot)
  {
  }

  lemma EquivalentRepairs(s: State, t: State, pivot: int)
    requires Progress(s, t, pivot)
    ensures Repairs(FormulaOf(s), [], FormulaOf(t)) && GatesFrom(s, t)
  {
    forall m | Models(m, FormulaOf(t)) ensures Models(m, FormulaOf(s)) {
      FormulaModels(s, m);
      FormulaModels(t, m);
    }
    EntailedRepairs(FormulaOf(s), FormulaOf(t));
  }
}
