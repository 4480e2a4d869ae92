/** Formula transformations that remove clauses, what each pushes on the
    extension stack, and the proof that one backward pass over everything
    pushed during a whole run turns models of the last formula into models of
    the first one. */
module Reconstruction {
  import opened Logic
  import opened Extension

  /** Extending repairs every model of `g` to a model of `f`. */
  ghost predicate Reconstructs(f: Formula, entries: seq<Entry>, g: Formula) {
    forall m :: Models(m, g) ==> Models(Extended(m, entries), f)
  }

  /** Some literal of the clause other than `pivot` holds. */
  ghost predicate RestHolds(m: Model, c: Clause, pivot: int) {
    exists l :: l in c && l != pivot && Holds(m, l)
  }

  /** The resolvent of `c` on `pivot` and `d` on `-pivot` holds. */
  ghost predicate ResolventHolds(m: Model, c: Clause, d: Clause, pivot: int) {
    RestHolds(m, c, pivot) || RestHolds(m, d, -pivot)
  }

  /** The resolvent is a tautology. */
  ghost predicate Clashes(c: Clause, d: Clause, pivot: int) {
    exists k :: k in d && k != -pivot && -k in c
  }

  ghost predicate Blocked(f: Formula, c: Clause, lit: int) {
    forall d :: d in f && -lit in d ==> Clashes(c, d, lit)
  }

  function Representative(reprs: map<int, int>, l: int): int {
    if l in reprs then reprs[l] else l
  }

  /** The gate clauses with the pivot, `gp`, and those with its negation, `gn`,
      force the value of the pivot in every model of `g`. */
  ghost predicate Defines(gp: seq<Clause>, gn: seq<Clause>, pivot: int, g: Formula) {
    forall m :: Models(m, g) ==>
                  || (exists c :: c in gp && !RestHolds(m, c, pivot))
                  || (exists d :: d in gn && !RestHolds(m, d, -pivot))
  }

  /** Clauses `ps` with the pivot and `ns` with its negation are eliminated;
      `gp` and `gn` are those pushed: all of them, or else gate clauses. */
  ghost predicate ValidElimination(f: Formula, pivot: int, ps: seq<Clause>, ns: seq<Clause>,
                                   gp: seq<Clause>, gn: seq<Clause>, g: Formula) {
    && pivot != 0
    && (forall c :: c in gp ==> c in ps) && (forall d :: d in gn ==> d in ns)
    && (forall c :: c in ps ==> pivot in c && -pivot !in c)
    && (forall d :: d in ns ==> -pivot in d && pivot !in d)
    && (forall c :: c in f && c !in ps && c !in ns ==> pivot !in c && -pivot !in c && Entails(g, c))
    && (((forall c :: c in ps ==> c in gp) && (forall d :: d in ns ==> d in gn)) || Defines(gp, gn, pivot, g))
    && (forall m, c, d :: Models(m, g) && c in ps && d in ns && (c in gp || d in gn) ==> ResolventHolds(m, c, d, pivot))
  }

  ghost predicate ValidSubstitution(f: Formula, reprs: map<int, int>, idxs: seq<int>, g: Formula) {
    && NoDup(idxs)
    && (forall c :: c in f ==> NonZero(c))
    && (forall l :: l in reprs ==> l != 0 && reprs[l] != 0)
    && (forall l :: Representative(reprs, -l) == -Representative(reprs, l))
    && (forall l :: Representative(reprs, Representative(reprs, l)) == Representative(reprs, l))
    && (forall v :: v > 0 ==> (v in idxs <==> Representative(reprs, v) != v))
    && (forall v :: v in idxs ==> v > 0)
    && (forall m, c :: Models(m, g) && c in f ==> exists l :: l in c && Holds(m, Representative(reprs, l)))
  }

  /** At most the clause, which is blocked on the literal, is missing in `g`. */
  ghost predicate ValidBlocking(f: Formula, c: Clause, lit: int, g: Formula) {
    lit != 0 && lit in c && NonZero(c) && f <= g + {c} && Blocked(f, c, lit)
  }

  /** The clause is globally blocked: under the condition, whose literals it
      all negates, the witness is an autarky of the formula, that is, satisfies
      every clause it falsifies a literal of. */
  ghost predicate GloballyBlocked(f: Formula, c: Clause, condition: set<int>, autarky: seq<int>) {
    && Consistent(autarky) && NonZero(autarky) && NonZero(c) && (forall d :: d in f ==> NonZero(d))
    && (forall k :: k in condition ==> k != 0 && -k in c && k !in autarky && -k !in autarky)
    && (exists l :: l in autarky && l in c)
    && (forall d :: d in f && TouchedOnly(d, condition, autarky) ==> exists l :: l in autarky && l in d)
  }

  /** The clause has a negated witness literal and no literal of the condition. */
  ghost predicate TouchedOnly(d: Clause, condition: set<int>, autarky: seq<int>) {
    (exists l :: l in autarky && -l in d) && forall k :: k in condition ==> k !in d
  }

  /* ---- what is pushed ---- */

  function EntriesFor(cs: seq<Clause>, lit: int): seq<Entry> {
    if cs == [] then [] else EntriesFor(cs[..|cs| - 1], lit) + [Entry([lit], cs[|cs| - 1])]
  }

  function EliminationEntries(pivot: int, gp: seq<Clause>, gn: seq<Clause>): seq<Entry> {
    EntriesFor(gp, pivot) + EntriesFor(gn, -pivot)
  }

  function SubstitutionEntries(reprs: map<int, int>, idxs: seq<int>): seq<Entry> {
    if idxs == [] then []
    else
      var idx := idxs[|idxs| - 1];
      SubstitutionEntries(reprs, idxs[..|idxs| - 1]) + BothImplications(reprs, idx)
  }

  function BothImplications(reprs: map<int, int>, idx: int): seq<Entry> {
    var other := Representative(reprs, idx);
    [Entry([-idx], [-idx, other]), Entry([idx], [idx, -other])]
  }

  /* ---- single steps ---- */

  lemma ProcessOne(m: Model, lit: int, c: Clause)
    requires lit != 0 && lit in c
    ensures Processed(m, Entry([lit], c)) == if Satisfies(m, c) then m else Flipped(m, lit)
    ensures !Satisfies(m, c) ==> !Holds(m, lit) && Holds(Flipped(m, lit), lit)
  {
    assert [lit][..0] == [];
    assert Repaired(Flipped(m, lit), []) == Flipped(m, lit);
  }

  lemma ExtendOne(m: Model, e: Entry)
    ensures Extended(m, [e]) == Processed(m, e)
  {
    assert [e][..0] == [];
  }

  /** Processing clauses over one common witness flips it at most once. */
  lemma {:induction false} OneSided(m: Model, lit: int, cs: seq<Clause>)
    requires lit != 0 && forall c :: c in cs ==> lit in c
    ensures var m' := Extended(m, EntriesFor(cs, lit));
            if forall c :: c in cs ==> Satisfies(m, c) then m' == m else m' == Flipped(m, lit) && !Holds(m, lit)
  {
    if cs != [] {
      var n := |cs| - 1;
      var c := cs[n];
      var entries := EntriesFor(cs[..n], lit);
      assert EntriesFor(cs, lit) == entries + [Entry([lit], c)];
      ExtendedConcat(m, entries, [Entry([lit], c)]);
      ExtendOne(m, Entry([lit], c));
      assert c in cs;
      ProcessOne(m, lit, c);
      assert forall d :: d in cs <==> d in cs[..n] || d == c;
      if Satisfies(m, c) {
        OneSided(m, lit, cs[..n]);
      } else {
        var m1 := Flipped(m, lit);
        forall d | d in cs[..n] ensures Satisfies(m1, d) {
          assert lit in d && Holds(m1, lit);
        }
        OneSided(m1, lit, cs[..n]);
      }
    }
  }

  /** Literals over other variables keep their value. */
  lemma FlipFrame(m: Model, lit: int, c: Clause)
    requires lit != 0 && Satisfies(m, c) && -lit !in c
    ensures Satisfies(Flipped(m, lit), c) || (lit in c && Holds(m, lit))
  {
    var l :| l in c && Holds(m, l);
    if l != lit {
      FlipMakesTrue(m, lit);
      assert Holds(Flipped(m, lit), l);
    }
  }

  lemma BlockingReconstructs(f: Formula, c: Clause, lit: int, g: Formula)
    requires ValidBlocking(f, c, lit, g)
    ensures Reconstructs(f, [Entry([lit], c)], g)
  {
    forall m | Models(m, g) ensures Models(Extended(m, [Entry([lit], c)]), f) {
      ExtendOne(m, Entry([lit], c));
      ProcessOne(m, lit, c);
      if !Satisfies(m, c) {
        var m' := Flipped(m, lit);
        forall d | d in f ensures Satisfies(m', d) {
          if d == c {
            assert Holds(m', lit);
          } else if -lit in d {
            var k :| k in d && k != -lit && -k in c;
            assert !Holds(m, -k) && -k != 0;
            FlipMakesTrue(m, lit);
            assert Holds(m', k);
          } else {
            FlipFrame(m, lit, d);
          }
        }
      } else {
        forall d | d in f ensures Satisfies(m, d) {
          assert d in g || d == c;
        }
      }
    }
  }

  /** A globally blocked clause is repaired by making its whole witness true. */
  lemma ConditioningReconstructs(f: Formula, c: Clause, condition: set<int>, autarky: seq<int>, g: Formula)
    requires GloballyBlocked(f, c, condition, autarky) && f <= g + {c}
    ensures Reconstructs(f, [Entry(autarky, c)], g)
  {
    forall m | Models(m, g) ensures Models(Extended(m, [Entry(autarky, c)]), f) {
      var e := Entry(autarky, c);
      var m' := Processed(m, e);
      ExtendOne(m, e);
      ProcessedEntry(m, e);
      hide Processed, Holds, Satisfies, TouchedOnly, EntryEffect;
      forall d | d in f ensures Satisfies(m', d) {
        if d != c && !Satisfies(m, c) {
          assert d in g && NonZero(d);
          AutarkyKeeps(m, m', d, c, condition, autarky);
        }
      }
    }
  }

  lemma AutarkyKeeps(m: Model, m': Model, d: Clause, c: Clause, condition: set<int>, autarky: seq<int>)
    requires Satisfies(m, d) && !Satisfies(m, c) && NonZero(c)
    requires forall k :: k in condition ==> k != 0 && -k in c && k !in autarky && -k !in autarky
    requires TouchedOnly(d, condition, autarky) ==> exists l :: l in autarky && l in d
    requires forall l :: l in autarky ==> Holds(m', l)
    requires forall k :: k != 0 && k !in autarky && -k !in autarky ==> (Holds(m', k) <==> Holds(m, k))
    requires 0 !in d
    ensures Satisfies(m', d)
  {
    if k :| k in condition && k in d {
      assert -k in c && !Holds(m, -k);
      assert Holds(m', k);
    } else if l :| l in autarky && l in d {
    } else {
      var l :| l in d && Holds(m, l);
      if -l in autarky {
        assert -(-l) in d;
        assert TouchedOnly(d, condition, autarky);
      }
    }
  }

  /** A clause is satisfied once its rest or its pivot holds. */
  lemma RestAndPivot(m: Model, c: Clause, pivot: int)
    requires pivot in c
    ensures Satisfies(m, c) <==> RestHolds(m, c, pivot) || Holds(m, pivot)
  {
  }

  lemma RestUnaffected(m: Model, c: Clause, pivot: int, lit: int)
    requires lit != 0 && (pivot == lit || pivot == -lit) && -pivot !in c
    ensures RestHolds(Flipped(m, lit), c, pivot) <==> RestHolds(m, c, pivot)
  {
    FlipMakesTrue(m, lit);
  }

  /** After the pass over the clauses with `-pivot` and then over those with
      `pivot`, all pushed clauses hold and only the pivot may have changed. */
  lemma EliminationPass(m: Model, pivot: int, ps: seq<Clause>, ns: seq<Clause>)
    requires pivot != 0
    requires forall c :: c in ps ==> pivot in c && -pivot !in c
    requires forall d :: d in ns ==> -pivot in d && pivot !in d
    requires forall c, d :: c in ps && d in ns ==> ResolventHolds(m, c, d, pivot)
    ensures var m' := Extended(m, EntriesFor(ps, pivot) + EntriesFor(ns, -pivot));
            && (m' == m || m' == Flipped(m, pivot))
            && (forall c :: c in ps ==> Satisfies(m', c))
            && (forall d :: d in ns ==> Satisfies(m', d))
  {
    ExtendedConcat(m, EntriesFor(ps, pivot), EntriesFor(ns, -pivot));
    OneSided(m, -pivot, ns);
    var m1 := Extended(m, EntriesFor(ns, -pivot));
    FlipTwice(m, pivot);
    forall d | d in ns ensures Satisfies(m1, d) {
      RestAndPivot(m1, d, -pivot);
    }
    OneSided(m1, pivot, ps);
    var m2 := Extended(m1, EntriesFor(ps, pivot));
    if m2 != m1 {
      var c :| c in ps && !Satisfies(m1, c);
      FlipTwice(m1, pivot);
      RestAndPivot(m1, c, pivot);
      RestUnaffected(m, c, pivot, pivot);
      PivotTrue(m, m2, pivot, c, ps, ns);
    }
  }

  lemma FlipTwice(m: Model, lit: int)
    requires lit != 0
    ensures Flipped(Flipped(m, lit), lit) == m && Flipped(m, -lit) == Flipped(m, lit)
    ensures Holds(Flipped(m, lit), lit) <==> !Holds(m, lit)
    ensures Holds(Flipped(m, lit), -lit) <==> !Holds(m, -lit)
  {
  }

  /** If the rest of one clause with the pivot is false, making the pivot true
      satisfies all clauses with the pivot or its negation. */
  lemma PivotTrue(m: Model, m': Model, pivot: int, c: Clause, ps: seq<Clause>, ns: seq<Clause>)
    requires pivot != 0 && (m' == m || m' == Flipped(m, pivot)) && Holds(m', pivot)
    requires c in ps && !RestHolds(m, c, pivot)
    requires forall c :: c in ps ==> pivot in c
    requires forall d :: d in ns ==> -pivot in d && pivot !in d
    requires forall d :: d in ns ==> ResolventHolds(m, c, d, pivot)
    ensures (forall c :: c in ps ==> Satisfies(m', c)) && (forall d :: d in ns ==> Satisfies(m', d))
  {
    forall d | d in ns ensures Satisfies(m', d) {
      assert ResolventHolds(m, c, d, pivot);
      RestUnaffected(m, d, -pivot, pivot);
      RestAndPivot(m', d, -pivot);
    }
  }

  lemma EliminationReconstructs(f: Formula, pivot: int, ps: seq<Clause>, ns: seq<Clause>,
                                gp: seq<Clause>, gn: seq<Clause>, g: Formula)
    requires ValidElimination(f, pivot, ps, ns, gp, gn, g)
    ensures Reconstructs(f, EliminationEntries(pivot, gp, gn), g)
  {
    forall m | Models(m, g) ensures Models(Extended(m, EliminationEntries(pivot, gp, gn)), f) {
      EliminationPass(m, pivot, gp, gn);
      var m' := Extended(m, EliminationEntries(pivot, gp, gn));
      if Defines(gp, gn, pivot, g) {
        DefinedPivot(f, pivot, ps, ns, gp, gn, g, m, m');
      }
      forall c | c in f ensures Satisfies(m', c) {
        if c !in ps && c !in ns {
          assert Satisfies(m, c);
          FlipFrame(m, pivot, c);
        }
      }
    }
  }

  /** With gate clauses satisfied and the pivot defined by them, the other
      clauses with the pivot are satisfied as well. */
  lemma DefinedPivot(f: Formula, pivot: int, ps: seq<Clause>, ns: seq<Clause>, gp: seq<Clause>, gn: seq<Clause>,
                     g: Formula, m: Model, m': Model)
    requires ValidElimination(f, pivot, ps, ns, gp, gn, g) && Defines(gp, gn, pivot, g) && Models(m, g)
    requires m' == m || m' == Flipped(m, pivot)
    requires (forall c :: c in gp ==> Satisfies(m', c)) && (forall d :: d in gn ==> Satisfies(m', d))
    ensures (forall c :: c in ps ==> Satisfies(m', c)) && (forall d :: d in ns ==> Satisfies(m', d))
  {
    if c :| c in gp && !RestHolds(m, c, pivot) {
      RestUnaffected(m, c, pivot, pivot);
      RestAndPivot(m', c, pivot);
      PivotTrue(m, m', pivot, c, ps, ns);
    } else {
      var d :| d in gn && !RestHolds(m, d, -pivot);
      RestUnaffected(m, d, -pivot, pivot);
      RestAndPivot(m', d, -pivot);
      FlipTwice(m, pivot);
      PivotTrue(m, m', -pivot, d, ns, ps);
    }
  }

  /* ---- substitution of equivalent literals ---- */

  /** No substituted variable is a representative of one. */
  ghost predicate ProperSubstitution(reprs: map<int, int>, idxs: seq<int>) {
    && NoDup(idxs) && (forall v :: v in idxs ==> v > 0 && Representative(reprs, v) != 0)
    && forall v, w :: v in idxs && w in idxs ==> Representative(reprs, v) != w && Representative(reprs, v) != -w
  }

  /** Every substituted variable has the value of its representative. */
  ghost predicate Passed(m: Model, m': Model, reprs: map<int, int>, idxs: seq<int>) {
    && (forall v :: v in idxs ==> (Holds(m', v) <==> Holds(m, Representative(reprs, v))))
    && (forall v :: v > 0 && v !in idxs ==> (Holds(m', v) <==> Holds(m, v)))
  }

  lemma {:induction false} SubstitutionPass(m: Model, reprs: map<int, int>, idxs: seq<int>)
    requires ProperSubstitution(reprs, idxs)
    ensures Passed(m, Extended(m, SubstitutionEntries(reprs, idxs)), reprs, idxs)
  {
    if idxs == [] {
    } else {
      var n := |idxs| - 1;
      var idx, rest := idxs[n], idxs[..n];
      assert idxs == rest + [idx];
      hide *;
      LastEntries(m, reprs, rest, idx);
      LastSubstituted(reprs, rest, idx);
      var m1 := Extended(m, BothImplications(reprs, idx));
      SubstitutionPass(m1, reprs, rest);
      PassedStep(m, reprs, rest, idx);
    }
  }

  lemma LastEntries(m: Model, reprs: map<int, int>, rest: seq<int>, idx: int)
    ensures Extended(m, SubstitutionEntries(reprs, rest + [idx]))
         == Extended(Extended(m, BothImplications(reprs, idx)), SubstitutionEntries(reprs, rest))
  {
    assert (rest + [idx])[..|rest|] == rest;
    ExtendedConcat(m, SubstitutionEntries(reprs, rest), BothImplications(reprs, idx));
  }

  lemma LastSubstituted(reprs: map<int, int>, rest: seq<int>, idx: int)
    requires ProperSubstitution(reprs, rest + [idx])
    ensures ProperSubstitution(reprs, rest) && idx !in rest
    ensures forall v :: v in rest ==> Representative(reprs, v) != idx && Representative(reprs, v) != -idx
    ensures var other := Representative(reprs, idx); idx > 0 && other != 0 && other != idx && other != -idx
  {
    var all := rest + [idx];
    assert all[|rest|] == idx && forall k :: 0 <= k < |rest| ==> all[k] == rest[k];
    assert forall v :: v in rest ==> v in all;
    assert idx in all;
  }

  lemma PassedStep(m: Model, reprs: map<int, int>, rest: seq<int>, idx: int)
    requires ProperSubstitution(reprs, rest + [idx])
    requires var m1 := Extended(m, BothImplications(reprs, idx));
             Passed(m1, Extended(m1, SubstitutionEntries(reprs, rest)), reprs, rest)
    ensures var m1 := Extended(m, BothImplications(reprs, idx));
            Passed(m, Extended(m1, SubstitutionEntries(reprs, rest)), reprs, rest + [idx])
  {
    LastSubstituted(reprs, rest, idx);
    TwoEntries(m, idx, Representative(reprs, idx));
    var m1 := Extended(m, BothImplications(reprs, idx));
    PassedOn(m, m1, Extended(m1, SubstitutionEntries(reprs, rest)), reprs, rest, idx);
  }

  lemma PassedOn(m: Model, m1: Model, m2: Model, reprs: map<int, int>, rest: seq<int>, idx: int)
    requires Passed(m1, m2, reprs, rest) && idx > 0 && idx !in rest
    requires forall v :: v in rest ==> Representative(reprs, v) != idx && Representative(reprs, v) != -idx
    requires Holds(m1, idx) <==> Holds(m, Representative(reprs, idx))
    requires forall l :: l != idx && l != -idx ==> (Holds(m1, l) <==> Holds(m, l))
    ensures Passed(m, m2, reprs, rest + [idx])
  {
    hide Holds, Representative;
    var all := rest + [idx];
    assert forall v :: v in all <==> v in rest || v == idx;
  }

  lemma TwoEntries(m: Model, idx: int, other: int)
    requires idx > 0 && other != 0 && other != idx && other != -idx
    ensures var m' := Extended(m, [Entry([-idx], [-idx, other]), Entry([idx], [idx, -other])]);
            && (Holds(m', idx) <==> Holds(m, other))
            && (forall l :: l != idx && l != -idx ==> (Holds(m', l) <==> Holds(m, l)))
  {
    var e0, e1 := Entry([-idx], [-idx, other]), Entry([idx], [idx, -other]);
    assert [e0, e1] == [e0] + [e1];
    ExtendedConcat(m, [e0], [e1]);
    ExtendOne(m, e1);
    ProcessOne(m, idx, [idx, -other]);
    BinarySatisfied(m, idx, -other);
    var m1 := Processed(m, e1);
    FlipMakesTrue(m, idx);
    ExtendOne(m1, e0);
    ProcessOne(m1, -idx, [-idx, other]);
    BinarySatisfied(m1, -idx, other);
    FlipMakesTrue(m1, -idx);
  }

  lemma BinarySatisfied(m: Model, a: int, b: int)
    ensures Satisfies(m, [a, b]) <==> Holds(m, a) || Holds(m, b)
  {
    assert [a, b][0] == a && [a, b][1] == b;
  }

  lemma SubstitutionReconstructs(f: Formula, reprs: map<int, int>, idxs: seq<int>, g: Formula)
    requires ValidSubstitution(f, reprs, idxs, g)
    ensures Reconstructs(f, SubstitutionEntries(reprs, idxs), g)
  {
    forall m | Models(m, g) ensures Models(Extended(m, SubstitutionEntries(reprs, idxs)), f) {
      ValidIsProper(f, reprs, idxs, g);
      SubstitutionPass(m, reprs, idxs);
      var m' := Extended(m, SubstitutionEntries(reprs, idxs));
      forall c | c in f ensures Satisfies(m', c) {
        var l :| l in c && Holds(m, Representative(reprs, l));
        SubstitutedLiteral(m, m', reprs, idxs, l);
      }
    }
  }

  lemma ValidIsProper(f: Formula, reprs: map<int, int>, idxs: seq<int>, g: Formula)
    requires ValidSubstitution(f, reprs, idxs, g)
    ensures ProperSubstitution(reprs, idxs)
  {
    forall v, w | v in idxs && w in idxs
      ensures Representative(reprs, v) != w && Representative(reprs, v) != -w
    {
      var r := Representative(reprs, v);
      assert Representative(reprs, r) == r && Representative(reprs, -r) == -r;
    }
  }

  lemma SubstitutedLiteral(m: Model, m': Model, reprs: map<int, int>, idxs: seq<int>, l: int)
    requires l != 0 && Representative(reprs, -l) == -Representative(reprs, l) != 0
    requires forall v :: v > 0 ==> (v in idxs <==> Representative(reprs, v) != v)
    requires forall v :: v in idxs ==> v > 0 && (Holds(m', v) <==> Holds(m, Representative(reprs, v)))
    requires forall v :: v > 0 && v !in idxs ==> (Holds(m', v) <==> Holds(m, v))
    ensures Holds(m', l) <==> Holds(m, Representative(reprs, l))
  {
    var v := Abs(l);
    assert v in idxs || Representative(reprs, v) == v;
    assert Holds(m', v) <==> Holds(m, Representative(reprs, v));
  }

  /* ---- runs ---- */

  /** The entries can be pushed, and they repair every model of `g` to one of `f`. */
  ghost predicate Repairs(f: Formula, entries: seq<Entry>, g: Formula) {
    EntriesOk(entries) && Reconstructs(f, entries, g)
  }

  ghost predicate EntriesOk(entries: seq<Entry>) {
    forall i {:trigger EntryOk(entries[i])} :: 0 <= i < |entries| ==> EntryOk(entries[i])
  }

  lemma EntriesConcat(a: seq<Entry>, b: seq<Entry>)
    requires EntriesOk(a) && EntriesOk(b)
    ensures EntriesOk(a + b)
  {
    forall i | 0 <= i < |a + b| ensures EntryOk((a + b)[i]) {
      if i < |a| {
        assert EntryOk(a[i]);
      } else {
        assert EntryOk(b[i - |a|]);
      }
    }
  }

  /** Transformations compose: what the first one pushed lies below. */
  lemma RepairsCompose(f: Formula, a: seq<Entry>, g: Formula, b: seq<Entry>, h: Formula)
    requires Repairs(f, a, g) && Repairs(g, b, h)
    ensures Repairs(f, a + b, h)
  {
    forall m | Models(m, h) ensures Models(Extended(m, a + b), f) {
      ExtendedConcat(m, a, b);
      assert Models(Extended(m, b), g);
    }
    EntriesConcat(a, b);
  }

  /** Nothing has to be pushed if every model of `g` is one of `f`. */
  lemma EntailedRepairs(f: Formula, g: Formula)
    requires forall m :: Models(m, g) ==> Models(m, f)
    ensures Repairs(f, [], g)
  {
  }

  lemma {:induction false} EntriesForOk(cs: seq<Clause>, lit: int)
    requires lit != 0 && forall c :: c in cs ==> NonZero(c)
    ensures EntriesOk(EntriesFor(cs, lit))
  {
    if cs != [] {
      var n := |cs| - 1;
      EntriesForOk(cs[..n], lit);
      assert cs == cs[..n] + [cs[n]] && cs[n] in cs;
    }
  }

  lemma {:induction false} SubstitutionEntriesOk(reprs: map<int, int>, idxs: seq<int>)
    requires forall v :: v in idxs ==> v > 0 && Representative(reprs, v) != 0
    ensures EntriesOk(SubstitutionEntries(reprs, idxs))
  {
    if idxs == [] {
    } else {
      var n := |idxs| - 1;
      assert idxs == idxs[..n] + [idxs[n]] && idxs[n] in idxs && forall v :: v in idxs[..n] ==> v in idxs;
      BothOk(reprs, idxs[n]);
      hide BothImplications, EntryOk;
      SubstitutionEntriesOk(reprs, idxs[..n]);
    }
  }

  lemma BothOk(reprs: map<int, int>, idx: int)
    requires idx > 0 && Representative(reprs, idx) != 0
    ensures EntriesOk(BothImplications(reprs, idx))
  {
  }

  /** A substitution step repairs models. */
  lemma SubstitutionRepairs(f: Formula, reprs: map<int, int>, idxs: seq<int>, g: Formula)
    requires ValidSubstitution(f, reprs, idxs, g)
    ensures Repairs(f, SubstitutionEntries(reprs, idxs), g)
  {
    forall v | v in idxs ensures v > 0 && Representative(reprs, v) != 0 {
      assert v > 0 && Representative(reprs, v) != v;
    }
    SubstitutionEntriesOk(reprs, idxs);
    SubstitutionReconstructs(f, reprs, idxs, g);
  }

  /** A run: transformation `i` leads from `formulas[i]` to `formulas[i + 1]` and
      pushes `pushed[i]`. */
  ghost predicate RepairingRun(formulas: seq<Formula>, pushed: seq<seq<Entry>>) {
    && |formulas| == |pushed| + 1
    && forall i {:trigger RepairsAt(formulas, pushed, i)} :: 0 <= i < |pushed| ==> RepairsAt(formulas, pushed, i)
  }

  ghost predicate RepairsAt(formulas: seq<Formula>, pushed: seq<seq<Entry>>, i: nat)
    requires i < |pushed| < |formulas|
  {
    Repairs(formulas[i], pushed[i], formulas[i + 1])
  }

  /** Everything pushed during the run. */
  function AllPushed(pushed: seq<seq<Entry>>): seq<Entry> {
    if pushed == [] then [] else AllPushed(pushed[..|pushed| - 1]) + pushed[|pushed| - 1]
  }

  /** Reconstruction over whole runs. */
  lemma {:induction false} RunReconstructs(formulas: seq<Formula>, pushed: seq<seq<Entry>>)
    requires RepairingRun(formulas, pushed)
    ensures Repairs(formulas[0], AllPushed(pushed), formulas[|pushed|])
  {
    if pushed == [] {
      EntailedRepairs(formulas[0], formulas[0]);
    } else {
      var n := |pushed| - 1;
      var fs, ps := formulas[..|pushed|], pushed[..n];
      forall i | 0 <= i < n ensures RepairsAt(fs, ps, i) {
        assert RepairsAt(formulas, pushed, i);
      }
      RunReconstructs(fs, ps);
      assert RepairsAt(formulas, pushed, n);
      RepairsCompose(formulas[0], AllPushed(pushed[..n]), formulas[n], pushed[n], formulas[n + 1]);
    }
  }

  /** The pass over the flat stack of a run, as the solver makes it. */
  method ExtendRun(external: External, ghost formulas: seq<Formula>, ghost pushed: seq<seq<Entry>>)
    requires RepairingRun(formulas, pushed)
    requires external.extension == Flat(AllPushed(pushed))
    requires Models(ModelOf(external.vals), formulas[|pushed|])
    modifies external`vals
    ensures Models(ModelOf(external.vals), formulas[0])
  {
    RunReconstructs(formulas, pushed);
    external.Extend(AllPushed(pushed));
  }
}
