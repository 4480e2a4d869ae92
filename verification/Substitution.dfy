/** Replacing equivalent literals by their representatives in all clauses, and
    what `decompose_round` pushes on the extension stack for them. */
module Substitution {
  import opened Logic
  import opened Extension
  import opened Reconstruction
  import IG = ImplicationGraph
  import C = Components

  /* ---- meaning of the implication graph ---- */

  /** Every edge is a clause that follows from the formula. */
  ghost predicate Implications(f: Formula, g: IG.Graph) {
    forall a, b :: IG.Edge(g, a, b) ==> a != 0 && Entails(f, [-a, b])
  }

  lemma {:induction false} PathImplies(f: Formula, g: IG.Graph, p: seq<int>, m: Model)
    requires Implications(f, g) && IG.Path(g, p) && Models(m, f) && Holds(m, p[0])
    ensures Holds(m, p[|p| - 1])
    decreases |p|
  {
    if |p| > 1 {
      assert IG.Edge(g, p[0], p[1]) && Satisfies(m, [-p[0], p[1]]);
      PathImplies(f, g, p[1..], m);
    }
  }

  lemma ReachImplies(f: Formula, g: IG.Graph, a: int, b: int, m: Model)
    requires Implications(f, g) && IG.Reach(g, a, b) && Models(m, f)
    ensures Holds(m, a) ==> Holds(m, b)
  {
    var p :| IG.PathFrom(g, p, a, b);
    if Holds(m, a) {
      PathImplies(f, g, p, m);
    }
  }

  /** A component with a literal and its negation refutes the formula. */
  lemma ClashUnsat(f: Formula, g: IG.Graph)
    requires IG.SkewSymmetric(g) && Implications(f, g) && C.Inconsistent(g)
    ensures Unsat(f)
  {
    var a :| C.Clash(g, a);
    IG.ReachActive(g, a, -a);
    forall m ensures !Models(m, f) {
      if Models(m, f) {
        ReachImplies(f, g, a, -a, m);
        ReachImplies(f, g, -a, a, m);
      }
    }
  }

  /** In every model of the formula a literal and its representative agree. */
  lemma RepresentativeEquivalent(f: Formula, g: IG.Graph, frozen: set<int>, reprs: map<int, int>, a: int, m: Model)
    requires IG.SkewSymmetric(g) && Implications(f, g) && C.Resolved(g, frozen, reprs) && a in g.active && Models(m, f)
    ensures a in reprs && (Holds(m, a) <==> Holds(m, reprs[a]))
  {
    if C.Tarjan.Abs(a) !in frozen {
      assert C.Smallest(g, a, reprs[a]);
      ReachImplies(f, g, a, reprs[a], m);
      ReachImplies(f, g, reprs[a], a, m);
    }
  }

  /* ---- representatives as a substitution ---- */

  /** Representatives commute with negation and represent themselves. */
  ghost predicate Substitutes(reprs: map<int, int>) {
    && (forall l :: l in reprs ==> l != 0 && reprs[l] != 0)
    && (forall l :: Representative(reprs, -l) == -Representative(reprs, l))
    && (forall l :: Representative(reprs, Representative(reprs, l)) == Representative(reprs, l))
  }

  lemma ResolvedSubstitutes(g: IG.Graph, frozen: set<int>, reprs: map<int, int>)
    requires IG.SkewSymmetric(g) && C.Resolved(g, frozen, reprs)
    ensures Substitutes(reprs)
  {
    forall l | l in reprs ensures l != 0 && reprs[l] != 0 && reprs[l] in reprs && reprs[reprs[l]] == reprs[l] {
      var r := reprs[l];
      IG.ReachSelf(g, l);
      if r != l {
        assert C.Smallest(g, l, r);
        IG.ReachActive(g, l, r);
        assert r in reprs;
        C.SmallestMutual(g, l, r, r);
        if C.Tarjan.Abs(r) !in frozen {
          C.SmallestUnique(g, r, reprs[r], r);
        }
      }
    }
    forall l ensures Representative(reprs, -l) == -Representative(reprs, l) {
      assert -l in g.active ==> -(-l) in g.active;
      if l in reprs {
        C.RepresentativeOfNegation(g, frozen, reprs, l);
      }
    }
  }

  /* ---- one clause ---- */

  ghost predicate UnitsHold(m: Model, units: set<int>) {
    forall u :: u in units ==> Holds(m, u)
  }

  /** The clause holds after substituting representatives. */
  ghost predicate ImageHolds(m: Model, reprs: map<int, int>, c: Clause) {
    exists l :: l in c && Holds(m, Representative(reprs, l))
  }

  /** A clause without duplicates, complementary and assigned literals. */
  ghost predicate Clean(units: set<int>, d: Clause) {
    && NoDup(d)
    && (forall l :: l in d ==> l != 0 && l !in units && -l !in units && -l !in d)
  }

  class Substituter {
    var reprs: map<int, int>
    var units: set<int>
    var clauses: seq<Clause>
    var garbage: set<nat>
    var unsat: bool

    constructor (rs: map<int, int>, us: set<int>, cs: seq<Clause>)
      ensures reprs == rs && units == us && clauses == cs && garbage == {} && !unsat
    {
      reprs, units, clauses, garbage, unsat := rs, us, cs, {}, false;
    }

    function Val(l: int): int
      reads this
    {
      if l in units then 1 else if -l in units then -1 else 0
    }

    /** Assigned literals represent themselves. */
    ghost predicate UnitsOk()
      reads this
    {
      forall u {:trigger u in units} :: u in units ==> u != 0 && -u !in units && Representative(reprs, u) == u
    }

    /** The root units and the clauses that are not garbage. */
    ghost function FormulaOf(): Formula
      reads this`units, this`clauses, this`garbage
    {
      (set u | u in units :: [u]) + (set i | 0 <= i < |clauses| && i !in garbage :: clauses[i])
    }

    /** Under the units the copy so far means the image of the literals done. */
    ghost predicate Copied(done: Clause, satisfied: bool, d: Clause)
      reads this
    {
      forall m :: UnitsHold(m, units) ==> (ImageHolds(m, reprs, done) <==> satisfied || Satisfies(m, d))
    }

    /** Copies a clause with every literal replaced by its representative. */
    method SubstituteClause(c: Clause) returns (satisfied: bool, d: Clause)
      requires Substitutes(reprs) && UnitsOk() && NonZero(c)
      ensures !satisfied ==> Clean(units, d)
      ensures !satisfied ==> forall l :: l in d ==> Representative(reprs, l) == l
      ensures forall m :: UnitsHold(m, units) ==> (ImageHolds(m, reprs, c) <==> satisfied || Satisfies(m, d))
    {
      satisfied, d := false, [];
      var k := 0;
      while !satisfied && k < |c|
        invariant 0 <= k <= |c|
        invariant Clean(units, d) && Copied(c[..k], satisfied, d)
        invariant forall l :: l in d ==> Representative(reprs, l) == l
      {
        hide Copied, Clean, UnitsOk;
        var lit := c[k];
        assert lit in c;
        assert c[..k + 1] == c[..k] + [lit];
        satisfied, d := SubstituteLiteral(lit, d, c[..k]);
        k := k + 1;
      }
      assert c[..|c|] == c;
      ImagePrefix(c, k);
    }

    lemma ImagePrefix(c: Clause, k: nat)
      requires k <= |c|
      ensures forall m :: ImageHolds(m, reprs, c[..k]) ==> ImageHolds(m, reprs, c)
    {
    }

    /** One literal: satisfied, false, a duplicate, or copied. */
    method SubstituteLiteral(lit: int, d: Clause, ghost done: Clause) returns (satisfied: bool, e: Clause)
      requires Substitutes(reprs) && UnitsOk() && lit != 0 && Clean(units, d) && Copied(done, false, d)
      requires forall l :: l in d ==> Representative(reprs, l) == l
      ensures Clean(units, e) && forall l :: l in e ==> Representative(reprs, l) == l
      ensures Copied(done + [lit], satisfied, e)
    {
      satisfied, e := false, d;
      var other := Representative(reprs, lit);
      RepresentativeFacts(lit);
      if Val(lit) > 0 {
        satisfied := true;
      } else if Val(lit) < 0 {
      } else if Val(other) < 0 {
      } else if Val(other) > 0 {
        satisfied := true;
      } else if -other in d {
        satisfied := true;
      } else if other !in d {
        e := d + [other];
      }
      CopyStep(done, lit, d, satisfied, e);
    }

    lemma RepresentativeFacts(lit: int)
      requires Substitutes(reprs) && UnitsOk() && lit != 0
      ensures var other := Representative(reprs, lit);
              && other != 0 && Representative(reprs, other) == other && Representative(reprs, -lit) == -other
              && (Val(lit) != 0 ==> other == lit)
    {
      assert Representative(reprs, -lit) == -Representative(reprs, lit);
    }

    /** What the copy means after one more literal. */
    lemma CopyStep(done: Clause, lit: int, d: Clause, satisfied: bool, e: Clause)
      requires Copied(done, false, d)
      requires var other := Representative(reprs, lit);
               && other != 0
               && if satisfied then e == d && (other in units || -other in d)
                  else if e == d then other in d || -other in units else e == d + [other]
      ensures Copied(done + [lit], satisfied, e)
    {
      var other := Representative(reprs, lit);
      ImageStep(done, lit);
      forall m | UnitsHold(m, units)
        ensures ImageHolds(m, reprs, done + [lit]) <==> satisfied || Satisfies(m, e)
      {
        assert ImageHolds(m, reprs, done) <==> Satisfies(m, d);
        hide ImageHolds;
        assert other in d && Holds(m, other) ==> Satisfies(m, d);
        assert -other in d && Holds(m, -other) ==> Satisfies(m, d);
        AppendSatisfies(m, d, other);
      }
    }

    lemma AppendSatisfies(m: Model, d: Clause, l: int)
      ensures Satisfies(m, d + [l]) <==> Satisfies(m, d) || Holds(m, l)
    {
      assert l in d + [l] && forall k :: k in d ==> k in d + [l];
    }

    lemma ImageStep(done: Clause, lit: int)
      ensures forall m :: ImageHolds(m, reprs, done + [lit]) <==>
                          ImageHolds(m, reprs, done) || Holds(m, Representative(reprs, lit))
    {
      assert lit in done + [lit];
      forall m ensures ImageHolds(m, reprs, done + [lit]) <==>
                       ImageHolds(m, reprs, done) || Holds(m, Representative(reprs, lit)) {
        if ImageHolds(m, reprs, done) {
          var l :| l in done && Holds(m, Representative(reprs, l));
          assert l in done + [lit];
        }
      }
    }

    lemma UnitAdded(l: int)
      ensures forall m :: UnitsHold(m, units + {l}) <==> UnitsHold(m, units) && Satisfies(m, [l])
    {
      forall m ensures UnitsHold(m, units + {l}) <==> UnitsHold(m, units) && Satisfies(m, [l]) {
        assert l in [l] && l in units + {l};
        assert forall u :: u in units ==> u in units + {l};
      }
    }

    lemma FormulaHolds(m: Model)
      ensures Models(m, FormulaOf()) <==> ClausesHold(m, units, clauses, garbage, |clauses|)
    {
      if Models(m, FormulaOf()) {
        forall u | u in units ensures Holds(m, u) {
          assert [u] in FormulaOf() && Satisfies(m, [u]);
        }
        forall k | 0 <= k < |clauses| && k !in garbage ensures Satisfies(m, clauses[k]) {
          assert clauses[k] in FormulaOf();
        }
      }
      if ClausesHold(m, units, clauses, garbage, |clauses|) {
        forall c | c in FormulaOf() ensures Satisfies(m, c) {
          if u :| u in units && c == [u] {
            assert u in c && Holds(m, u);
          }
        }
      }
    }

    /** Substitutes in the clause at index `i`. */
    method SubstituteAt(i: nat)
      requires Substitutes(reprs) && UnitsOk() && i < |clauses| && i !in garbage && NonZero(clauses[i]) && !unsat
      modifies `units, `clauses, `garbage, `unsat
      ensures UnitsOk() && old(units) <= units && |clauses| == |old(clauses)|
      ensures old(garbage) <= garbage <= old(garbage) + {i}
      ensures forall k :: 0 <= k < |clauses| && k != i ==> clauses[k] == old(clauses[k])
      ensures i !in garbage && !unsat ==> NonZero(clauses[i]) && forall l :: l in clauses[i] ==> Representative(reprs, l) == l
      ensures forall m :: UnitsHold(m, old(units)) ==>
        (ImageHolds(m, reprs, old(clauses[i])) <==>
         !unsat && UnitsHold(m, units) && (i !in garbage ==> Satisfies(m, clauses[i])))
    {
      var c := clauses[i];
      var j := 0;
      while j < |c| && (if c[j] in reprs then reprs[c[j]] else 0) == c[j]
        invariant 0 <= j <= |c|
        invariant forall k :: 0 <= k < j ==> Representative(reprs, c[k]) == c[k]
      {
        j := j + 1;
      }
      if j == |c| {
        assert forall m :: ImageHolds(m, reprs, c) <==> Satisfies(m, c);
        return;
      }
      var satisfied, d := SubstituteClause(c);
      if satisfied {
        garbage := garbage + {i};
      } else if d == [] {
        unsat := true;
      } else if |d| == 1 {
        assert d[0] in d && d == [d[0]];
        UnitAdded(d[0]);
        units := units + {d[0]};
        garbage := garbage + {i};
      } else {
        clauses := clauses[i := d];
      }
    }

    /** Substitutes in all clauses.  The result holds exactly when the units
        and the images of all clauses held before. */
    method SubstituteAll()
      requires Substitutes(reprs) && UnitsOk() && !unsat
      requires forall i :: 0 <= i < |clauses| && i !in garbage ==> NonZero(clauses[i])
      modifies `units, `clauses, `garbage, `unsat
      ensures UnitsOk() && old(units) <= units
      ensures forall m :: ImagesHold(m, reprs, old(units), old(clauses), old(garbage), |old(clauses)|)
                          <==> !unsat && ClausesHold(m, units, clauses, garbage, |clauses|)
      ensures !unsat ==> forall i :: 0 <= i < |clauses| && i !in garbage ==> NonZero(clauses[i]) && Own(reprs, clauses[i])
    {
      ghost var cs, gs, us := clauses, garbage, units;
      var i := 0;
      while !unsat && i < |clauses|
        invariant UnitsOk() && us <= units && 0 <= i <= |clauses| == |cs| && gs <= garbage
        invariant forall k :: i <= k < |cs| ==> clauses[k] == cs[k] && (k in garbage <==> k in gs)
        invariant forall k :: i <= k < |clauses| && k !in garbage ==> NonZero(clauses[k])
        invariant unsat ==> forall m :: ImagesHold(m, reprs, us, cs, gs, |cs|) ==> false
        invariant !unsat ==> forall m :: ImagesHold(m, reprs, us, cs, gs, i) <==> ClausesHold(m, units, clauses, garbage, i)
        invariant !unsat ==> forall k :: 0 <= k < i && k !in garbage ==> NonZero(clauses[k]) && Own(reprs, clauses[k])
      {
        if i !in garbage {
          ghost var cs0, gs0, us0 := clauses, garbage, units;
          SubstituteAt(i);
          Advance(reprs, us, cs, gs, us0, cs0, gs0, units, clauses, garbage, i, i + 1, !unsat);
        } else {
          Skip(reprs, us, cs, gs, units, clauses, garbage, i, i + 1);
        }
        i := i + 1;
      }
    }
  }

  /** Every literal of the clause represents itself. */
  predicate Own(reprs: map<int, int>, c: Clause) {
    forall l :: l in c ==> Representative(reprs, l) == l
  }

  ghost predicate ImagesHold(m: Model, reprs: map<int, int>, units: set<int>, clauses: seq<Clause>, garbage: set<nat>, i: int)
    requires i <= |clauses|
  {
    && UnitsHold(m, units)
    && forall k :: 0 <= k < i && k !in garbage ==> ImageHolds(m, reprs, clauses[k])
  }

  ghost predicate ClausesHold(m: Model, units: set<int>, clauses: seq<Clause>, garbage: set<nat>, i: int)
    requires i <= |clauses|
  {
    && UnitsHold(m, units)
    && forall k :: 0 <= k < i && k !in garbage ==> Satisfies(m, clauses[k])
  }

  /** One more clause is substituted. */
  lemma Advance(reprs: map<int, int>, us: set<int>, cs: seq<Clause>, gs: set<nat>,
                us0: set<int>, cs0: seq<Clause>, gs0: set<nat>,
                us1: set<int>, cs1: seq<Clause>, gs1: set<nat>, i: nat, j: nat, sat: bool)
    requires j == i + 1 && i < |cs| == |cs0| == |cs1| && us <= us0 <= us1 && i !in gs && i !in gs0 && cs0[i] == cs[i]
    requires gs0 <= gs1 <= gs0 + {i} && forall k :: 0 <= k < i ==> cs1[k] == cs0[k]
    requires forall m :: ImagesHold(m, reprs, us, cs, gs, i) <==> ClausesHold(m, us0, cs0, gs0, i)
    requires forall m :: UnitsHold(m, us0) ==>
      (ImageHolds(m, reprs, cs0[i]) <==> sat && UnitsHold(m, us1) && (i !in gs1 ==> Satisfies(m, cs1[i])))
    ensures sat ==> forall m :: ImagesHold(m, reprs, us, cs, gs, j) <==> ClausesHold(m, us1, cs1, gs1, j)
    ensures !sat ==> forall m :: ImagesHold(m, reprs, us, cs, gs, |cs|) ==> false
  {
    hide ImageHolds;
    hide Satisfies;
    forall m
      ensures ImagesHold(m, reprs, us, cs, gs, j) <==> sat && ClausesHold(m, us1, cs1, gs1, j)
    {
      assert ImagesHold(m, reprs, us, cs, gs, i) <==> ClausesHold(m, us0, cs0, gs0, i);
      assert UnitsHold(m, us1) ==> UnitsHold(m, us0);
      hide UnitsHold;
      assert forall k :: 0 <= k < i ==> (k in gs1 <==> k in gs0);
      assert ImagesHold(m, reprs, us, cs, gs, j) <==> ClausesHold(m, us0, cs0, gs0, i) && ImageHolds(m, reprs, cs0[i]);
    }
    forall m | ImagesHold(m, reprs, us, cs, gs, |cs|) ensures ImagesHold(m, reprs, us, cs, gs, j) {
    }
  }

  /** A garbage clause is skipped. */
  lemma Skip(reprs: map<int, int>, us: set<int>, cs: seq<Clause>, gs: set<nat>,
             us1: set<int>, cs1: seq<Clause>, gs1: set<nat>, i: nat, j: nat)
    requires j == i + 1 && i < |cs| == |cs1| && i in gs && i in gs1
    requires forall m :: ImagesHold(m, reprs, us, cs, gs, i) <==> ClausesHold(m, us1, cs1, gs1, i)
    ensures forall m :: ImagesHold(m, reprs, us, cs, gs, j) <==> ClausesHold(m, us1, cs1, gs1, j)
  {
    hide ImageHolds;
    hide Satisfies;
    hide UnitsHold;
    forall m ensures ImagesHold(m, reprs, us, cs, gs, j) <==> ClausesHold(m, us1, cs1, gs1, j) {
      assert ImagesHold(m, reprs, us, cs, gs, j) <==> ImagesHold(m, reprs, us, cs, gs, i);
      assert ClausesHold(m, us1, cs1, gs1, j) <==> ClausesHold(m, us1, cs1, gs1, i);
    }
  }
}
