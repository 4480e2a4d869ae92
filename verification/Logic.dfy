/** Propositional logic shared by every component of the solver model.
    A literal is a non-zero integer, a clause a sequence of literals, and a
    (total) model the set of variables it makes true. */
module Logic {

  type Clause = seq<int>
  type Formula = set<Clause>
  type Model = iset<int>

  ghost predicate Holds(m: Model, l: int) {
    if l > 0 then l in m else -l !in m
  }

  ghost predicate Satisfies(m: Model, c: Clause) {
    exists l :: l in c && Holds(m, l)
  }

  ghost predicate Models(m: Model, f: Formula) {
    forall c :: c in f ==> Satisfies(m, c)
  }

  ghost predicate Entails(f: Formula, c: Clause) {
    forall m :: Models(m, f) ==> Satisfies(m, c)
  }

  ghost predicate Unsat(f: Formula) {
    forall m :: !Models(m, f)
  }

  ghost predicate NoDup<T>(s: seq<T>) {
    forall i, j :: 0 <= i < j < |s| ==> s[i] != s[j]
  }

  /** Two clauses over the same literals mean the same. */
  ghost predicate SameLits(c: Clause, d: Clause) {
    && (forall l :: l in c ==> l in d)
    && (forall l :: l in d ==> l in c)
  }

  /** A literal of the clause is on the trail, so the clause is satisfied. */
  ghost predicate SatisfiedBy(trail: seq<int>, c: Clause) {
    exists l :: l in c && l in trail
  }

  lemma SameLitsEntailed(f: Formula, c: Clause, d: Clause)
    requires SameLits(c, d)
    requires Entails(f, c)
    ensures Entails(f, d)
  {
    forall m | Models(m, f) ensures Satisfies(m, d) {
      assert Satisfies(m, c);
      var l :| l in c && Holds(m, l);
      assert l in d;
    }
  }

  lemma EntailsMonotone(f: Formula, g: Formula, c: Clause)
    requires f <= g
    requires Entails(f, c)
    ensures Entails(g, c)
  {
    forall m | Models(m, g) ensures Satisfies(m, c) {
      assert Models(m, f);
    }
  }

  lemma UnitHolds(f: Formula, l: int, m: Model)
    requires Entails(f, [l]) && Models(m, f)
    ensures Holds(m, l)
  {
    assert Satisfies(m, [l]);
  }

  /** Unit resolution: an entailed clause whose literals other than `unit` are
      refuted by entailed literals leaves `unit` entailed. */
  lemma UnitEntailed(f: Formula, c: Clause, unit: int, trail: seq<int>)
    requires forall l :: l in trail ==> Entails(f, [l])
    requires Entails(f, c)
    requires forall l :: l in c && l != unit ==> l != 0 && -l in trail
    ensures Entails(f, [unit])
  {
    forall m | Models(m, f) ensures Satisfies(m, [unit]) {
      assert Satisfies(m, c);
      var l :| l in c && Holds(m, l);
      if l != unit {
        UnitHolds(f, -l, m);
        assert false;
      }
      assert unit in [unit];
    }
  }

  lemma FalsifiedUnsat(f: Formula, c: Clause, trail: seq<int>)
    requires forall l :: l in trail ==> Entails(f, [l])
    requires Entails(f, c)
    requires forall l :: l in c ==> l != 0 && -l in trail
    ensures Unsat(f)
  {
    forall m ensures !Models(m, f) {
      if Satisfies(m, c) {
        var l :| l in c && Holds(m, l);
        assert Entails(f, [-l]) && !Satisfies(m, [-l]);
      }
    }
  }

  /** Refuting the negation of a clause proves the clause. */
  lemma RefutationEntails(f: Formula, c: Clause)
    requires forall l :: l in c ==> l != 0
    requires Unsat(f + (set l | l in c :: [-l]))
    ensures Entails(f, c)
  {
    var g := f + (set l | l in c :: [-l]);
    forall m | Models(m, f) ensures Satisfies(m, c) {
      if !Satisfies(m, c) {
        forall d | d in g ensures Satisfies(m, d) {
          if d !in f {
            var l :| l in c && d == [-l];
            assert !Holds(m, l);
            assert -l in d && Holds(m, -l);
          }
        }
        assert Models(m, g);
      }
    }
  }
}
