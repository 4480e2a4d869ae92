/** If-then-else gates, whose clauses are matched by their unassigned literals. */
module MoreGates {
  import opened Logic
  import opened Reconstruction
  import opened ElimState
  import opened Elimination
  import opened VariableElimination
  import opened Gates
  import opened MatchedGates
  import Finite

  ghost predicate BothOpposed(s: State, c: nat, d: nat, pivot: int) {
    Opposed(s, c, d, pivot) && Opposed(s, d, c, pivot)
  }

  /** Clauses with complementary unassigned literals. */
  lemma LooseOpposed(s: State, n: nat, c: nat, cl: set<int>, d: nat, dl: set<int>, pivot: int, l: int)
    requires StateOk(s, n) && Loose(s, c, cl) && Loose(s, d, dl) && l in cl && -l in dl && l != pivot && l != -pivot
    ensures BothOpposed(s, c, d, pivot)
  {
    assert LitsOk(s.clauses[c].lits, n);
    assert -(-l) == l && -l != pivot && -l != -pivot && Val(s.units, -l) == 0;
  }

  /** If the given literals other than the pivot do not hold, no open one does. */
  lemma LooseOpen(s: State, id: nat, lits: set<int>, pivot: int, m: Model)
    requires Loose(s, id, lits) && forall l :: l in lits && l != pivot && l != -pivot ==> !Holds(m, l)
    ensures id in s.clauses && !OpenHolds(m, s, id, pivot)
  {
  }

  /** The unassigned literals of a clause in order. */
  function AllUnassigned(s: State, id: nat): seq<int>
    requires id in s.clauses
  {
    Unassigned(s.units, s.clauses[id].lits, 0)
  }

  ghost predicate Ternary(s: State, id: nat) {
    Live(s, id) && |AllUnassigned(s, id)| == 3
  }

  lemma {:induction false} UnassignedPrefix(units: seq<int>, lits: seq<int>, i: nat)
    requires i <= |lits|
    ensures |Unassigned(units, lits[..i], 0)| <= |Unassigned(units, lits, 0)|
    decreases |lits|
  {
    if i < |lits| {
      UnassignedPrefix(units, lits[..|lits| - 1], i);
      assert lits[..|lits| - 1][..i] == lits[..i];
    } else {
      assert lits[..i] == lits;
    }
  }

  lemma {:induction false} UnassignedLess(units: seq<int>, lits: seq<int>)
    ensures |Unassigned(units, lits, 0)| <= |lits|
  {
    if lits != [] {
      UnassignedLess(units, lits[..|lits| - 1]);
    }
  }

  lemma UnassignedNext(units: seq<int>, lits: seq<int>, i: nat)
    requires i < |lits| && lits[i] != 0
    ensures Unassigned(units, lits[..i + 1], 0) ==
            if Val(units, lits[i]) == 0 then Unassigned(units, lits[..i], 0) + [lits[i]] else Unassigned(units, lits[..i], 0)
  {
    assert lits[..i + 1][..i] == lits[..i];
  }

  /** The three unassigned literals of a clause, if it has exactly three. */
  method GetTernary(e: Eliminator, id: nat) returns (ok: bool, a: int, b: int, c: int)
    requires e.Valid() && id in e.clauses
    ensures ok <==> Ternary(e.S(), id)
    ensures ok ==> AllUnassigned(e.S(), id) == [a, b, c]
  {
    ok, a, b, c := false, 0, 0, 0;
    var lits := e.clauses[id].lits;
    UnassignedLess(e.units, lits);
    if e.clauses[id].garbage || |lits| < 3 {
      return;
    }
    assert LitsOk(lits, e.range);
    var found := 0;
    hide Unassigned, Val;
    UnassignedNone(e.units, lits[..0]);
    for i := 0 to |lits|
      invariant 0 <= found <= 3
      invariant Unassigned(e.units, lits[..i], 0) ==
                if found == 0 then [] else if found == 1 then [a] else if found == 2 then [a, b] else [a, b, c]
    {
      var lit := lits[i];
      assert lit in lits;
      UnassignedNext(e.units, lits, i);
      if Val(e.units, lit) == 0 {
        if found == 3 {
          UnassignedPrefix(e.units, lits, i + 1);
          return;
        }
        found := found + 1;
        if found == 1 {
          a := lit;
        } else if found == 2 {
          b := lit;
        } else {
          c := lit;
        }
      }
    }
    assert lits[..|lits|] == lits;
    ok := found == 3;
  }

  lemma UnassignedNone(units: seq<int>, lits: seq<int>)
    ensures lits == [] ==> Unassigned(units, lits, 0) == []
  {
  }

  /** Three literals of a clause without repetition. */
  lemma TernaryLoose(s: State, n: nat, id: nat, a: int, b: int, c: int)
    requires StateOk(s, n) && Live(s, id) && AllUnassigned(s, id) == [a, b, c]
    ensures Loose(s, id, {a, b, c}) && a != b && a != c && b != c && a != -b && a != -c && b != -c && a != 0 && b != 0 && c != 0
  {
    var lits := s.clauses[id].lits;
    assert LitsOk(lits, n);
    UnassignedNoDup(s.units, lits, 0);
    forall l ensures l in {a, b, c} <==> l in lits && l != 0 && Val(s.units, l) == 0 {
      UnassignedMembers(s.units, lits, 0, l);
      assert l in [a, b, c] <==> l in {a, b, c};
    }
    assert [a, b, c][0] == a && [a, b, c][1] == b && [a, b, c][2] == c;
    assert a in {a, b, c} && b in {a, b, c} && c in {a, b, c};
  }

  /** Whether the unassigned literals are the three given ones. */
  method MatchTernary(e: Eliminator, id: nat, a: int, b: int, c: int) returns (ok: bool)
    requires e.Valid() && id in e.clauses && a != b && a != c && b != c
    ensures ok <==> Loose(e.S(), id, {a, b, c})
  {
    if e.clauses[id].garbage {
      return false;
    }
    var lits := e.clauses[id].lits;
    assert LitsOk(lits, e.range);
    ghost var seen: set<int> := {};
    var found := 0;
    for i := 0 to |lits|
      invariant found == |seen| && seen <= {a, b, c}
      invariant forall l :: l in seen <==> l in lits[..i] && Val(e.units, l) == 0
    {
      var lit := lits[i];
      assert lits[..i + 1] == lits[..i] + [lit] && lit !in lits[..i] && lit in lits;
      if Val(e.units, lit) == 0 {
        if a != lit && b != lit && c != lit {
          assert lit !in {a, b, c};
          return false;
        }
        found := found + 1;
        seen := seen + {lit};
      }
    }
    assert lits[..|lits|] == lits;
    ok := found == 3;
    if ok {
      ThreeOf(seen, a, b, c);
    } else {
      AllThree(seen, a, b, c);
    }
  }

  lemma AllThree(seen: set<int>, a: int, b: int, c: int)
    requires |seen| != 3 && a != b && a != c && b != c
    ensures seen != {a, b, c}
  {
    assert |{a, b, c}| == 3;
  }

  lemma ThreeOf(seen: set<int>, a: int, b: int, c: int)
    requires seen <= {a, b, c} && |seen| == 3
    ensures seen == {a, b, c}
  {
    if a !in seen {
      assert seen <= {b, c};
      Finite.CardinalityMonotone(seen, {b, c});
    }
    if b !in seen {
      Finite.CardinalityMonotone(seen, {a, c});
    }
    if c !in seen {
      Finite.CardinalityMonotone(seen, {a, b});
    }
  }

  ghost predicate NoneLoose(s: State, lits: set<int>) {
    forall id :: !Loose(s, id, lits)
  }

  /** A clause with the three unassigned literals, from the shortest list. */
  method FindTernary(e: Eliminator, a0: int, b0: int, c0: int) returns (found: bool, id: nat)
    requires e.Valid() && a0 != b0 && a0 != c0 && b0 != c0
    ensures found ==> Loose(e.S(), id, {a0, b0, c0})
    ensures !found && Complete(e.S(), e.occs) ==> NoneLoose(e.S(), {a0, b0, c0})
  {
    var a, b, c := a0, b0, c0;
    if |OccList(e.occs, b)| > |OccList(e.occs, c)| {
      b, c := c, b;
    }
    if |OccList(e.occs, a)| > |OccList(e.occs, b)| {
      a, b := b, a;
    }
    assert {a, b, c} == {a0, b0, c0};
    var os := OccList(e.occs, a);
    found, id := false, 0;
    hide Loose;
    for i := 0 to |os|
      invariant !found && forall k :: 0 <= k < i ==> !Loose(e.S(), os[k], {a, b, c})
    {
      assert OccList(e.occs, a)[i] in e.clauses;
      found := MatchTernary(e, os[i], a, b, c);
      if found {
        return true, os[i];
      }
    }
    ListedAll(e.S(), e.occs, a, {a, b, c});
  }

  /** The unassigned parts of the four clauses. */
  ghost predicate LooseIte(s: State, di: nat, dj: nat, d1: nat, d2: nat, p: int, x: int, y: int, z: int) {
    && p != x && p != y && p != -x && p != z
    && Loose(s, di, {p, x, y}) && Loose(s, dj, {p, -x, z})
    && Loose(s, d1, {-p, x, -y}) && Loose(s, d2, {-p, -x, -z})
  }

  lemma IteDistinct(s: State, n: nat, di: nat, dj: nat, d1: nat, d2: nat, p: int, x: int, y: int, z: int)
    requires StateOk(s, n) && LooseIte(s, di, dj, d1, d2, p, x, y, z)
    ensures p != 0 && x != 0 && y != 0 && z != 0 && x != -p && y != -p && z != -p && Val(s.units, p) == 0
  {
    assert p in {p, x, y} && x in {p, x, y} && y in {p, x, y};
    assert p in {p, -x, z} && -x in {p, -x, z} && z in {p, -x, z};
    assert LitsOk(s.clauses[di].lits, n) && LitsOk(s.clauses[dj].lits, n);
  }

  function Four(a: nat, b: nat, c: nat, d: nat): set<nat> {
    {a, b, c, d}
  }

  lemma NegatedHolds(m: Model, l: int)
    requires l != 0
    ensures Holds(m, -l) <==> !Holds(m, l)
  {
  }

  /** The clause whose other literals are all false in the model. */
  lemma IteOpen(s: State, n: nat, di: nat, dj: nat, d1: nat, d2: nat, p: int, x: int, y: int, z: int, m: Model)
    requires StateOk(s, n) && LooseIte(s, di, dj, d1, d2, p, x, y, z)
    ensures SomeOpen(m, s, Four(di, dj, d1, d2), p)
  {
    IteDistinct(s, n, di, dj, d1, d2, p, x, y, z);
    NegatedHolds(m, y);
    NegatedHolds(m, z);
    NegatedHolds(m, x);
    assert di in Four(di, dj, d1, d2) && dj in Four(di, dj, d1, d2) && d1 in Four(di, dj, d1, d2) && d2 in Four(di, dj, d1, d2);
    hide *;
    if !Holds(m, x) {
      if !Holds(m, y) {
        TernaryOpen(s, Four(di, dj, d1, d2), di, p, x, y, p, m);
      } else {
        TernaryOpen(s, Four(di, dj, d1, d2), d1, -p, x, -y, p, m);
      }
    } else if !Holds(m, z) {
      TernaryOpen(s, Four(di, dj, d1, d2), dj, p, -x, z, p, m);
    } else {
      TernaryOpen(s, Four(di, dj, d1, d2), d2, -p, -x, -z, p, m);
    }
  }

  lemma TernaryOpen(s: State, ids: set<nat>, id: nat, q: int, a: int, b: int, p: int, m: Model)
    requires id in ids && Loose(s, id, {q, a, b}) && (q == p || q == -p) && !Holds(m, a) && !Holds(m, b)
    ensures SomeOpen(m, s, ids, p)
  {
    hide Loose, SomeOpen, Holds;
    OneOpen(s, ids, id, {q, a, b}, p, m);
  }

  lemma OneOpen(s: State, ids: set<nat>, id: nat, lits: set<int>, p: int, m: Model)
    requires id in ids && Loose(s, id, lits) && forall l :: l in lits && l != p && l != -p ==> !Holds(m, l)
    ensures SomeOpen(m, s, ids, p)
  {
    hide OpenHolds;
    LooseOpen(s, id, lits, p, m);
  }

  ghost predicate PairwiseOpposed(s: State, di: nat, dj: nat, d1: nat, d2: nat, p: int) {
    && BothOpposed(s, di, dj, p) && BothOpposed(s, di, d1, p) && BothOpposed(s, di, d2, p)
    && BothOpposed(s, dj, d1, p) && BothOpposed(s, dj, d2, p) && BothOpposed(s, d1, d2, p)
  }

  lemma IteOpposed(s: State, n: nat, di: nat, dj: nat, d1: nat, d2: nat, p: int, x: int, y: int, z: int)
    requires StateOk(s, n) && LooseIte(s, di, dj, d1, d2, p, x, y, z)
    ensures PairwiseOpposed(s, di, dj, d1, d2, p)
  {
    IteDistinct(s, n, di, dj, d1, d2, p, x, y, z);
    hide StateOk, Opposed, BothOpposed, Loose;
    LooseOpposed(s, n, di, {p, x, y}, dj, {p, -x, z}, p, x);
    LooseOpposed(s, n, di, {p, x, y}, d1, {-p, x, -y}, p, y);
    LooseOpposed(s, n, di, {p, x, y}, d2, {-p, -x, -z}, p, x);
    RestOpposed(s, n, dj, d1, d2, p, x, y, z);
  }

  lemma RestOpposed(s: State, n: nat, dj: nat, d1: nat, d2: nat, p: int, x: int, y: int, z: int)
    requires StateOk(s, n) && x != p && x != -p && z != p && z != -p
    requires Loose(s, dj, {p, -x, z}) && Loose(s, d1, {-p, x, -y}) && Loose(s, d2, {-p, -x, -z})
    ensures BothOpposed(s, dj, d1, p) && BothOpposed(s, dj, d2, p) && BothOpposed(s, d1, d2, p)
  {
    hide StateOk, Opposed, BothOpposed, Loose;
    assert -(-x) == x;
    LooseOpposed(s, n, dj, {p, -x, z}, d1, {-p, x, -y}, p, -x);
    LooseOpposed(s, n, dj, {p, -x, z}, d2, {-p, -x, -z}, p, z);
    LooseOpposed(s, n, d1, {-p, x, -y}, d2, {-p, -x, -z}, p, x);
  }

  lemma AllOpposed(s: State, di: nat, dj: nat, d1: nat, d2: nat, p: int)
    requires PairwiseOpposed(s, di, dj, d1, d2, p)
    ensures forall c, d {:trigger Opposed(s, c, d, p)} :: c in Four(di, dj, d1, d2) && d in Four(di, dj, d1, d2) && c != d ==>
      Opposed(s, c, d, p)
  {
    hide Opposed;
  }

  /** The four clauses found are a matched gate. */
  lemma IteMatched(s: State, n: nat, di: nat, dj: nat, d1: nat, d2: nat, p: int, x: int, y: int, z: int)
    requires StateOk(s, n) && LooseIte(s, di, dj, d1, d2, p, x, y, z)
    ensures Matched(s, Four(di, dj, d1, d2), p)
  {
    IteLive(s, n, di, dj, d1, d2, p, x, y, z);
    IteOpposed(s, n, di, dj, d1, d2, p, x, y, z);
    AllOpposed(s, di, dj, d1, d2, p);
    hide *;
    forall m ensures SomeOpen(m, s, Four(di, dj, d1, d2), p) {
      IteOpen(s, n, di, dj, d1, d2, p, x, y, z, m);
    }
    MatchedOf(s, Four(di, dj, d1, d2), p);
  }

  lemma IteLive(s: State, n: nat, di: nat, dj: nat, d1: nat, d2: nat, p: int, x: int, y: int, z: int)
    requires StateOk(s, n) && LooseIte(s, di, dj, d1, d2, p, x, y, z)
    ensures Val(s.units, p) == 0
    ensures forall id {:trigger Live(s, id)} :: id in Four(di, dj, d1, d2) ==> Live(s, id) && Mentions(s.clauses[id].lits, p)
  {
    assert p in {p, x, y} && p in {p, -x, z} && -p in {-p, x, -y} && -p in {-p, -x, -z};
    hide StateOk;
  }

  /** The four clauses define the pivot if and only if in those that have a true
      literal the others follow anyhow. */
  lemma LooseIteDefines(s: State, n: nat, di: nat, dj: nat, d1: nat, d2: nat, p: int, x: int, y: int, z: int)
    requires StateOk(s, n) && LooseIte(s, di, dj, d1, d2, p, x, y, z)
    ensures Definition(s, Four(di, dj, d1, d2), p) <==> SatisfiedRedundant(s, Four(di, dj, d1, d2), p)
  {
    hide *;
    IteMatched(s, n, di, dj, d1, d2, p, x, y, z);
    MatchedDefines(s, n, Four(di, dj, d1, d2), p);
  }

  /** Looks for an if-then-else gate. */
  method FindIfThenElse(e: Eliminator, pivot: int)
    returns (found: bool, di: nat, dj: nat, d1: nat, d2: nat, ghost x: int, ghost y: int, ghost z: int)
    requires e.Valid() && Val(e.units, pivot) == 0
    ensures found ==> LooseIte(e.S(), di, dj, d1, d2, pivot, x, y, z) && Matched(e.S(), Four(di, dj, d1, d2), pivot)
    ensures !found && Complete(e.S(), e.occs) ==> NoIteFrom(e.S(), OccList(e.occs, pivot), |OccList(e.occs, pivot)|, pivot)
  {
    found, di, dj, d1, d2 := false, 0, 0, 0, 0;
    x, y, z := 0, 0, 0;
    var os := OccList(e.occs, pivot);
    hide LooseIte, Complete, IteWith, NoIteFrom, NoIteAt, NoIteWith, Loose, Chosen, Ternary, Matched, Four;
    NoneYet(e.S(), os, 0, pivot);
    for i := 0 to |os|
      invariant !found
      invariant Complete(e.S(), e.occs) ==> NoIteFrom(e.S(), os, i, pivot)
    {
      assert OccList(e.occs, pivot)[i] in e.clauses && pivot in e.clauses[os[i]].lits;
      var ok, bi, ci := TernaryOf(e, os[i], pivot);
      if !ok {
        NotFirst(e.S(), e.range, os, i, pivot);
      } else {
        NoneYet(e.S(), os, i, pivot);
        for j := i + 1 to |os|
          invariant !found
          invariant Complete(e.S(), e.occs) ==> NoIteAt(e.S(), os, i, j, pivot)
        {
          assert OccList(e.occs, pivot)[j] in e.clauses && pivot in e.clauses[os[j]].lits;
          var ok2, bj, cj := TernaryOf(e, os[j], pivot);
          if ok2 {
            found, d1, d2 := MatchIte(e, pivot, os[i], os[j], bi, ci, bj, cj);
            if found {
              di, dj := os[i], os[j];
              x, y, z := bi, ci, if Abs(bi) == Abs(cj) then bj else cj;
              IteMatched(e.S(), e.range, di, dj, d1, d2, pivot, x, y, z);
              return;
            }
          }
          if Complete(e.S(), e.occs) {
            NextPartner(e.S(), e.range, os, i, j, pivot, bi, ok2);
          }
        }
      }
      if Complete(e.S(), e.occs) {
        NextFirst(e.S(), os, i, pivot);
      }
    }
  }

  /** The literal of the clause that the search takes for the condition: the
      first or, if the pivot is not second, the second unassigned one. */
  function Chosen(s: State, id: nat, pivot: int): int
    requires id in s.clauses
  {
    var all := AllUnassigned(s, id);
    if |all| != 3 then 0 else if all[1] == pivot then all[0] else all[1]
  }

  /** The two clauses with the pivot belong to an if-then-else over different
      variables, whose condition is the literal chosen in the first one. */
  ghost predicate IteWith(s: State, di: nat, dj: nat, pivot: int) {
    di in s.clauses && exists d1, d2, y, z ::
      LooseIte(s, di, dj, d1, d2, pivot, Chosen(s, di, pivot), y, z) && Abs(y) != Abs(z)
  }

  ghost predicate NoIteAt(s: State, os: seq<nat>, i: nat, j: nat, pivot: int)
    requires i < |os|
  {
    forall k :: i < k < j && k < |os| ==> !IteWith(s, os[i], os[k], pivot)
  }

  /** None of the first `i` clauses is the first one of such a pair. */
  ghost predicate NoIteFrom(s: State, os: seq<nat>, i: nat, pivot: int) {
    forall k :: 0 <= k < i && k < |os| ==> NoIteAt(s, os, k, |os|, pivot)
  }

  /** Three different unassigned literals and no more. */
  lemma ThreeUnassigned(s: State, n: nat, id: nat, a: int, b: int, c: int)
    requires StateOk(s, n) && Loose(s, id, {a, b, c}) && a != b && a != c && b != c
    ensures Ternary(s, id)
  {
    var lits, all := s.clauses[id].lits, AllUnassigned(s, id);
    assert LitsOk(lits, n);
    UnassignedNoDup(s.units, lits, 0);
    forall l ensures l in all <==> l in {a, b, c} {
      UnassignedMembers(s.units, lits, 0, l);
    }
    Finite.DistinctCount(all);
    assert Finite.Elements(all) == {a, b, c};
    assert |{a, b, c}| == 3;
  }

  lemma LooseSame(s: State, id: nat, a: set<int>, b: set<int>)
    requires Loose(s, id, a) && Loose(s, id, b)
    ensures a == b
  {
    assert forall l :: l in a ==> l in b;
    assert forall l :: l in b ==> l in a;
  }

  lemma NotTernary(s: State, n: nat, di: nat, dj: nat, pivot: int)
    requires StateOk(s, n) && di in s.clauses && dj in s.clauses && (!Ternary(s, di) || !Ternary(s, dj))
    ensures !IteWith(s, di, dj, pivot)
  {
    if IteWith(s, di, dj, pivot) {
      var x := Chosen(s, di, pivot);
      var d1, d2, y, z :| LooseIte(s, di, dj, d1, d2, pivot, x, y, z) && Abs(y) != Abs(z);
      IteTernary(s, n, di, dj, d1, d2, pivot, x, y, z);
    }
  }

  lemma IteTernary(s: State, n: nat, di: nat, dj: nat, d1: nat, d2: nat, p: int, x: int, y: int, z: int)
    requires StateOk(s, n) && LooseIte(s, di, dj, d1, d2, p, x, y, z)
    ensures Ternary(s, di) && Ternary(s, dj)
  {
    assert x in {-p, x, -y} && -y in {-p, x, -y} && -x in {-p, -x, -z} && -z in {-p, -x, -z};
    assert LitsOk(s.clauses[d1].lits, n) && LitsOk(s.clauses[d2].lits, n);
    assert -(-y) == y && -(-z) == z;
    ThreeUnassigned(s, n, di, p, x, y);
    ThreeUnassigned(s, n, dj, p, -x, z);
  }

  lemma NotFirst(s: State, n: nat, os: seq<nat>, i: nat, pivot: int)
    requires StateOk(s, n) && i < |os| && (forall k :: 0 <= k < |os| ==> os[k] in s.clauses) && !Ternary(s, os[i])
    ensures NoIteAt(s, os, i, |os|, pivot)
  {
    hide Ternary, IteWith, StateOk;
    forall k | i < k < |os| ensures !IteWith(s, os[i], os[k], pivot) {
      NotTernary(s, n, os[i], os[k], pivot);
    }
  }

  /** The search of the first clause's partners is one step further. */
  lemma NextPartner(s: State, n: nat, os: seq<nat>, i: nat, j: nat, pivot: int, bi: int, ternary: bool)
    requires StateOk(s, n) && i < j < |os| && os[i] in s.clauses && os[j] in s.clauses && bi == Chosen(s, os[i], pivot)
    requires ternary <==> Ternary(s, os[j])
    requires ternary ==> NoIteWith(s, os[i], os[j], pivot, bi)
    ensures NoIteAt(s, os, i, j, pivot) ==> NoIteAt(s, os, i, j + 1, pivot)
  {
    hide Ternary, StateOk, LooseIte, Chosen;
    if !ternary {
      NotTernary(s, n, os[i], os[j], pivot);
    }
    assert !IteWith(s, os[i], os[j], pivot);
  }

  lemma NextFirst(s: State, os: seq<nat>, i: nat, pivot: int)
    requires i < |os| && NoIteAt(s, os, i, |os|, pivot)
    ensures NoIteFrom(s, os, i, pivot) ==> NoIteFrom(s, os, i + 1, pivot)
  {
    hide NoIteAt;
  }

  lemma NoneYet(s: State, os: seq<nat>, i: nat, pivot: int)
    ensures NoIteFrom(s, os, 0, pivot)
    ensures i < |os| ==> NoIteAt(s, os, i, i + 1, pivot)
  {
  }

  /** No if-then-else with these two clauses and this condition. */
  ghost predicate NoIteWith(s: State, di: nat, dj: nat, p: int, x: int) {
    forall y, z, d1, d2 :: LooseIte(s, di, dj, d1, d2, p, x, y, z) ==> Abs(y) == Abs(z)
  }

  function Abs(l: int): nat {
    if l < 0 then -l else l
  }

  /** The other two literals of a ternary clause with the pivot. */
  method TernaryOf(e: Eliminator, id: nat, pivot: int) returns (ok: bool, b: int, c: int)
    requires e.Valid() && id in e.clauses && pivot in e.clauses[id].lits && Val(e.units, pivot) == 0
    ensures ok <==> Ternary(e.S(), id)
    ensures ok ==> Loose(e.S(), id, {pivot, b, c}) && pivot != b && pivot != c && b != c && b == Chosen(e.S(), id, pivot)
    ensures ok ==> pivot != -b && pivot != -c && b != -c && b != 0 && c != 0
  {
    var a;
    ok, a, b, c := GetTernary(e, id);
    if ok {
      TernaryLoose(e.S(), e.range, id, a, b, c);
      assert pivot in {a, b, c};
      hide *;
      ChosenIs(e.S(), id, pivot, a, b, c);
      ghost var lits := {a, b, c};
      if b == pivot {
        a, b := b, a;
      }
      if c == pivot {
        a, c := c, a;
      }
      assert {pivot, b, c} == lits;
    }
  }

  lemma ChosenIs(s: State, id: nat, pivot: int, a: int, b: int, c: int)
    requires id in s.clauses && AllUnassigned(s, id) == [a, b, c]
    ensures Chosen(s, id, pivot) == if b == pivot then a else b
  {
  }

  /** Aligns the two clauses and looks for the other two. */
  method MatchIte(e: Eliminator, pivot: int, di: nat, dj: nat, bi: int, ci: int, bj0: int, cj0: int) returns (found: bool, d1: nat, d2: nat)
    requires e.Valid() && Loose(e.S(), di, {pivot, bi, ci}) && Loose(e.S(), dj, {pivot, bj0, cj0})
    requires pivot != bi && pivot != ci && bi != ci && pivot != -bi && pivot != -ci && bi != -ci
    requires pivot != bj0 && pivot != cj0 && bj0 != cj0 && pivot != -bj0 && pivot != -cj0 && bj0 != -cj0
    ensures found ==> LooseIte(e.S(), di, dj, d1, d2, pivot, bi, ci, if Abs(bi) == Abs(cj0) then bj0 else cj0)
    ensures !found && Complete(e.S(), e.occs) ==> NoIteWith(e.S(), di, dj, pivot, bi)
  {
    hide Loose, NoIteWith;
    found, d1, d2 := false, 0, 0;
    var bj, cj := bj0, cj0;
    if Abs(bi) == Abs(cj) {
      bj, cj := cj, bj;
    }
    assert {pivot, bj, cj} == {pivot, bj0, cj0};
    if Abs(ci) == Abs(cj) || bi != -bj {
      NoMatch(e.S(), di, dj, pivot, bi, ci, bj, cj);
      return;
    }
    AlignedLoose(e.S(), dj, pivot, bi, bj0, cj0, cj);
    found, d1, d2 := FindTwo(e, pivot, bi, ci, cj);
    if !found && Complete(e.S(), e.occs) {
      NoTwo(e.S(), di, dj, pivot, bi, ci, bj, cj);
    }
  }

  /** Which literals an if-then-else with two given clauses has. */
  lemma IteLiterals(s: State, di: nat, dj: nat, d1: nat, d2: nat, p: int, x: int, ci: int, bj: int, cj: int, y: int, z: int)
    requires Loose(s, di, {p, x, ci}) && Loose(s, dj, {p, bj, cj}) && LooseIte(s, di, dj, d1, d2, p, x, y, z)
    requires p != ci && x != ci && p != bj && p != cj && bj != cj && Abs(x) != Abs(cj)
    ensures y == ci && -x == bj && z == cj
  {
    LooseSame(s, di, {p, x, ci}, {p, x, y});
    LooseSame(s, dj, {p, bj, cj}, {p, -x, z});
    hide Loose;
    assert ci in {p, x, y} && cj in {p, -x, z} && -x in {p, bj, cj};
  }

  /** The clauses do not fit. */
  lemma NoMatch(s: State, di: nat, dj: nat, p: int, x: int, ci: int, bj: int, cj: int)
    requires Loose(s, di, {p, x, ci}) && Loose(s, dj, {p, bj, cj})
    requires p != ci && x != ci && p != bj && p != cj && bj != cj && Abs(x) != Abs(cj)
    requires Abs(ci) == Abs(cj) || x != -bj
    ensures NoIteWith(s, di, dj, p, x)
  {
    hide Loose, LooseIte;
    forall y, z, d1, d2 | LooseIte(s, di, dj, d1, d2, p, x, y, z) ensures Abs(y) == Abs(z) {
      IteLiterals(s, di, dj, d1, d2, p, x, ci, bj, cj, y, z);
    }
  }

  /** One of the other two clauses is missing. */
  lemma NoTwo(s: State, di: nat, dj: nat, p: int, x: int, ci: int, bj: int, cj: int)
    requires Loose(s, di, {p, x, ci}) && Loose(s, dj, {p, bj, cj})
    requires p != ci && x != ci && p != bj && p != cj && bj != cj && Abs(x) != Abs(cj)
    requires NoneLoose(s, {-p, x, -ci}) || NoneLoose(s, {-p, -x, -cj})
    ensures NoIteWith(s, di, dj, p, x)
  {
    hide LooseIte, Loose;
    forall y, z, d1, d2 ensures !LooseIte(s, di, dj, d1, d2, p, x, y, z) {
      if LooseIte(s, di, dj, d1, d2, p, x, y, z) {
        OtherTwo(s, di, dj, d1, d2, p, x, y, z);
        IteLiterals(s, di, dj, d1, d2, p, x, ci, bj, cj, y, z);
      }
    }
  }

  lemma OtherTwo(s: State, di: nat, dj: nat, d1: nat, d2: nat, p: int, x: int, y: int, z: int)
    requires LooseIte(s, di, dj, d1, d2, p, x, y, z)
    ensures !NoneLoose(s, {-p, x, -y}) && !NoneLoose(s, {-p, -x, -z})
  {
    hide Loose;
  }

  lemma AlignedLoose(s: State, dj: nat, pivot: int, bi: int, bj0: int, cj0: int, cj: int)
    requires Loose(s, dj, {pivot, bj0, cj0}) && ((bj0 == -bi && cj == cj0) || (cj0 == -bi && cj == bj0))
    ensures Loose(s, dj, {pivot, -bi, cj})
  {
    hide Loose;
    assert {pivot, -bi, cj} == {pivot, bj0, cj0};
  }

  /** The two clauses with the negated pivot. */
  method FindTwo(e: Eliminator, pivot: int, x: int, y: int, z: int) returns (found: bool, d1: nat, d2: nat)
    requires e.Valid() && pivot != -x && pivot != y && x != -y && pivot != x && pivot != z && -x != -z
    ensures found ==> Loose(e.S(), d1, {-pivot, x, -y}) && Loose(e.S(), d2, {-pivot, -x, -z})
    ensures !found && Complete(e.S(), e.occs) ==> NoneLoose(e.S(), {-pivot, x, -y}) || NoneLoose(e.S(), {-pivot, -x, -z})
  {
    hide Loose;
    d2 := 0;
    found, d1 := FindTernary(e, -pivot, x, -y);
    if found {
      found, d2 := FindTernary(e, -pivot, -x, -z);
    }
  }
}
