/** Counting the resolvents that eliminating a variable needs: an upper bound
    known beforehand, so that an elimination within it cannot be given up. */
module ResolventBounds {
  import opened Logic
  import opened Finite
  import opened Reconstruction
  import opened ElimState
  import opened Elimination

  /** The clauses have a resolvent that is not skipped and no tautology. */
  ghost predicate Counted(s: State, c: nat, d: nat, pivot: int, substitute: bool) {
    && Live(s, c) && Live(s, d) && !(substitute && s.clauses[c].gate == s.clauses[d].gate)
    && !Clashes(s.clauses[c].lits, s.clauses[d].lits, pivot)
  }

  /** Resolvents of one clause with the first `j` of the others. */
  ghost function RowCount(s: State, c: nat, ns: seq<nat>, j: nat, pivot: int, substitute: bool): nat
    requires j <= |ns|
  {
    if j == 0 then 0
    else RowCount(s, c, ns, j - 1, pivot, substitute) + if Counted(s, c, ns[j - 1], pivot, substitute) then 1 else 0
  }

  /** Resolvents of the first `i` clauses with all others. */
  ghost function PairCount(s: State, ps: seq<nat>, ns: seq<nat>, i: nat, pivot: int, substitute: bool): nat
    requires i <= |ps|
  {
    if i == 0 then 0
    else PairCount(s, ps, ns, i - 1, pivot, substitute) + RowCount(s, ps[i - 1], ns, |ns|, pivot, substitute)
  }

  function ResolventLits(c: Clause, d: Clause, pivot: int): set<int> {
    (set l | l in c && l != pivot) + (set l | l in d && l != -pivot)
  }

  ghost predicate Short(s: State, c: nat, d: nat, pivot: int, substitute: bool, limit: int) {
    Counted(s, c, d, pivot, substitute) ==> |ResolventLits(s.clauses[c].lits, s.clauses[d].lits, pivot)| <= limit
  }

  ghost predicate AllShort(s: State, ps: seq<nat>, ns: seq<nat>, pivot: int, substitute: bool, limit: int) {
    forall c, d :: c in ps && d in ns ==> Short(s, c, d, pivot, substitute, limit)
  }

  /** Few and short resolvents; for a pure variable there is none. */
  ghost predicate WithinBounds(s: State, ps: seq<nat>, ns: seq<nat>, pivot: int, substitute: bool, elimbound: int, limit: int) {
    if |ps| == 0 || |ns| == 0 then elimbound >= 0
    else
      && PairCount(s, ps, ns, |ps|, pivot, substitute) <= |ps| + |ns| + elimbound
      && AllShort(s, ps, ns, pivot, substitute, limit)
  }

  /* ---- counting along the loops ---- */

  lemma {:induction false} RowGrows(s: State, c: nat, ns: seq<nat>, j: nat, k: nat, pivot: int, substitute: bool)
    requires j <= k <= |ns|
    ensures RowCount(s, c, ns, j, pivot, substitute) <= RowCount(s, c, ns, k, pivot, substitute)
    decreases k
  {
    if j < k {
      RowGrows(s, c, ns, j, k - 1, pivot, substitute);
    }
  }

  lemma {:induction false} PairsGrow(s: State, ps: seq<nat>, ns: seq<nat>, i: nat, k: nat, pivot: int, substitute: bool)
    requires i <= k <= |ps|
    ensures PairCount(s, ps, ns, i, pivot, substitute) <= PairCount(s, ps, ns, k, pivot, substitute)
    decreases k
  {
    if i < k {
      PairsGrow(s, ps, ns, i, k - 1, pivot, substitute);
    }
  }

  /** Pairs up to position `i`, `j` of the two loops. */
  ghost function UpTo(s: State, ps: seq<nat>, ns: seq<nat>, i: nat, j: nat, pivot: int, substitute: bool): nat
    requires i <= |ps| && j <= |ns|
  {
    PairCount(s, ps, ns, i, pivot, substitute) + if i < |ps| then RowCount(s, ps[i], ns, j, pivot, substitute) else 0
  }

  lemma UpToNext(s: State, ps: seq<nat>, ns: seq<nat>, i: nat, j: nat, pivot: int, substitute: bool)
    requires i < |ps| && j < |ns|
    ensures UpTo(s, ps, ns, i, j + 1, pivot, substitute) ==
            UpTo(s, ps, ns, i, j, pivot, substitute) + if Counted(s, ps[i], ns[j], pivot, substitute) then 1 else 0
    ensures UpTo(s, ps, ns, i, j + 1, pivot, substitute) <= PairCount(s, ps, ns, |ps|, pivot, substitute)
  {
    RowGrows(s, ps[i], ns, j + 1, |ns|, pivot, substitute);
    PairsGrow(s, ps, ns, i + 1, |ps|, pivot, substitute);
  }

  lemma UpToRow(s: State, ps: seq<nat>, ns: seq<nat>, i: nat, pivot: int, substitute: bool)
    requires i < |ps|
    ensures UpTo(s, ps, ns, i, |ns|, pivot, substitute) == UpTo(s, ps, ns, i + 1, 0, pivot, substitute)
  {
  }

  /** What is resolved after simplification counts from the beginning. */
  lemma CountedBack(s: State, t: State, c: nat, d: nat, pivot: int, substitute: bool)
    requires Grows(s, t) && c in s.clauses && d in s.clauses && Counted(t, c, d, pivot, substitute)
    ensures Counted(s, c, d, pivot, substitute)
  {
  }

  /** The resolvent of two clauses is no tautology and within their literals. */
  lemma ResolventCounted(s: State, n: nat, c: nat, d: nat, pivot: int, substitute: bool, r: Clause)
    requires Live(s, c) && Live(s, d) && !(substitute && s.clauses[c].gate == s.clauses[d].gate)
    requires IsResolvent(s.units, s.clauses[c].lits, s.clauses[d].lits, pivot, r) && LitsOk(r, n)
    ensures Counted(s, c, d, pivot, substitute)
    ensures |r| <= |ResolventLits(s.clauses[c].lits, s.clauses[d].lits, pivot)|
  {
    var cl, dl := s.clauses[c].lits, s.clauses[d].lits;
    forall k | k in dl && k != -pivot ensures -k !in cl {
      if -k in cl {
        assert -(-k) == k;
        assert ResolventLit(s.units, cl, dl, pivot, -k) && ResolventLit(s.units, cl, dl, pivot, k);
      }
    }
    DistinctCount(r);
    forall l | l in Elements(r) ensures l in ResolventLits(cl, dl, pivot) {
      assert ResolventLit(s.units, cl, dl, pivot, l);
    }
    CardinalityMonotone(Elements(r), ResolventLits(cl, dl, pivot));
  }

  /* ---- other states ---- */

  ghost predicate FewerCounted(s: State, sub: bool, t: State, sub': bool, ps: seq<nat>, ns: seq<nat>, pivot: int) {
    forall c, d :: c in ps && d in ns && Counted(t, c, d, pivot, sub') ==>
      && Counted(s, c, d, pivot, sub)
      && t.clauses[c].lits == s.clauses[c].lits && t.clauses[d].lits == s.clauses[d].lits
  }

  lemma {:induction false} RowFewer(s: State, sub: bool, t: State, sub': bool, c: nat, ns: seq<nat>, j: nat, pivot: int, ps: seq<nat>)
    requires j <= |ns| && c in ps && FewerCounted(s, sub, t, sub', ps, ns, pivot)
    ensures RowCount(t, c, ns, j, pivot, sub') <= RowCount(s, c, ns, j, pivot, sub)
  {
    if j > 0 {
      RowFewer(s, sub, t, sub', c, ns, j - 1, pivot, ps);
      assert ns[j - 1] in ns;
    }
  }

  lemma {:induction false} PairsFewer(s: State, sub: bool, t: State, sub': bool, ps: seq<nat>, ns: seq<nat>, i: nat, pivot: int)
    requires i <= |ps| && FewerCounted(s, sub, t, sub', ps, ns, pivot)
    ensures PairCount(t, ps, ns, i, pivot, sub') <= PairCount(s, ps, ns, i, pivot, sub)
  {
    if i > 0 {
      PairsFewer(s, sub, t, sub', ps, ns, i - 1, pivot);
      assert ps[i - 1] in ps;
      RowFewer(s, sub, t, sub', ps[i - 1], ns, |ns|, pivot, ps);
    }
  }

  lemma StillWithin(s: State, sub: bool, t: State, sub': bool, ps: seq<nat>, ns: seq<nat>, pivot: int, elimbound: int, limit: int)
    requires FewerCounted(s, sub, t, sub', ps, ns, pivot) && WithinBounds(s, ps, ns, pivot, sub, elimbound, limit)
    ensures WithinBounds(t, ps, ns, pivot, sub', elimbound, limit)
  {
    PairsFewer(s, sub, t, sub', ps, ns, |ps|, pivot);
    hide Counted, ResolventLits;
    forall c, d | c in ps && d in ns && |ps| > 0 && |ns| > 0 ensures Short(t, c, d, pivot, sub', limit) {
      assert Short(s, c, d, pivot, sub, limit);
    }
  }
}
