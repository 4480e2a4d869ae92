/** When the clean-up of the `UIPAUX` build is sound: exactly if it drops no
    literal.  If it drops one, the trail and the conflict alone, taken as a
    formula, have a model that falsifies the learned clause. */
module AuxDropping {
  import opened Logic
  import opened TrailState
  import opened ConflictResolution
  import opened ImplicationPoints
  import opened Analysis
  import opened AuxFreeLearning

  /* ---- the weakest formula ---- */

  /** The conflict, the reasons on the trail and the root-level literals. */
  ghost function TrailFormula(s: State, conflict: Clause): Formula {
    {conflict}
    + (set t | t in s.trail && ReasonOf(s, t).Because? :: ReasonOf(s, t).clause)
    + (set t | t in s.trail && LevelOf(s, t) == 0 :: [t])
  }

  /** Every formula with this trail and conflict implies it. */
  lemma TrailFormulaWeakest(s: State, f: Formula, conflict: Clause, m: Model)
    requires ValidTrail(s, f) && Entails(f, conflict) && Models(m, f)
    ensures Models(m, TrailFormula(s, conflict))
  {
    forall c | c in TrailFormula(s, conflict) ensures Satisfies(m, c) {
      if t :| t in s.trail && ReasonOf(s, t).Because? && c == ReasonOf(s, t).clause {
        assert ReasonOk(s, f, t);
      } else if t :| t in s.trail && LevelOf(s, t) == 0 && c == [t] {
        RootEntailed(s, f, t);
      }
    }
  }

  lemma TrailFormulaValid(s: State, f: Formula, conflict: Clause)
    requires ValidTrail(s, f)
    ensures ValidTrail(s, TrailFormula(s, conflict)) && Entails(TrailFormula(s, conflict), conflict)
  {
    var g := TrailFormula(s, conflict);
    forall c | c in g ensures Entails(g, c) {
    }
    assert conflict in g;
    forall t | t in s.trail ensures ReasonOk(s, g, t) {
      assert ReasonOk(s, f, t);
      if ReasonOf(s, t).Because? {
        assert ReasonOf(s, t).clause in g;
      } else if LevelOf(s, t) == 0 {
        assert [t] in g;
      }
    }
  }

  /* ---- during the clean-up ---- */

  /** The literal is false in the reason of a seen literal that is resolved away. */
  ghost predicate FromResolved(s: State, marks: Marks, t: int, r: int) {
    && r in s.trail && Abs(r) in marks.seen && -r !in marks.clause
    && r != t && ReasonOf(s, r).Because? && -t in ReasonOf(s, r).clause
  }

  ghost predicate Origin(s: State, conflict: Clause, marks: Marks) {
    forall t {:trigger t in s.trail} :: t in s.trail && Abs(t) in marks.seen ==>
      -t in conflict || exists r :: FromResolved(s, marks, t, r)
  }

  /** The literals of the clause are false, seen, and above the root. */
  ghost predicate ClauseOk(s: State, marks: Marks) {
    NoDup(marks.clause) && forall l {:trigger l in marks.clause} :: l in marks.clause ==> CleanLiteral(s, marks.seen, l)
  }

  lemma CollectOrigin(s: State, f: Formula, conflict: Clause, aux: set<nat>)
    requires Conflicting(s, f, conflict)
    ensures Origin(s, conflict, Collect(s, conflict, aux)) && ClauseOk(s, Collect(s, conflict, aux))
  {
    hide *;
    FoundOrigin(s, f, conflict, aux);
    ResolvedOrigin(s, conflict, aux);
    CollectedOk(s, f, conflict, aux);
  }

  lemma ResolvedOrigin(s: State, conflict: Clause, aux: set<nat>)
    requires FoundOk(s, conflict, FoundUip(s, conflict, aux))
    ensures Origin(s, conflict, Collect(s, conflict, aux))
  {
    var found := FoundUip(s, conflict, aux);
    hide FoundUip, OpenOrigin, Origin;
    OpenResolved(s, conflict, found.0, Collect(s, conflict, aux), found.1);
  }

  lemma CollectedOk(s: State, f: Formula, conflict: Clause, aux: set<nat>)
    requires Conflicting(s, f, conflict) && FoundOk(s, conflict, FoundUip(s, conflict, aux))
    ensures ClauseOk(s, Collect(s, conflict, aux))
  {
    hide Collect, FoundUip, Conflicting, ClauseOk, Learned, Cleaning, Drops, Cleaned, OpenOrigin;
    CollectLearned(s, f, conflict, aux);
    CleaningOk(s, Collect(s, conflict, aux), FoundUip(s, conflict, aux).1);
  }

  ghost predicate FoundOk(s: State, conflict: Clause, found: (Marks, int)) {
    && Collected(s, found.0.seen, found.0.clause) && LevelOf(s, found.1) == Level(s) > 0
    && found.1 in s.trail && OpenOrigin(s, conflict, found.0.seen, Pos(s, found.1) + 1)
  }

  lemma FoundOrigin(s: State, f: Formula, conflict: Clause, aux: set<nat>)
    requires Conflicting(s, f, conflict)
    ensures FoundOk(s, conflict, FoundUip(s, conflict, aux))
  {
    ConflictHead(s, f, conflict);
    UipLoopFound(s, f, aux, UNMARKED, |s.trail|, 0, conflict);
    hide Head, UipLoop, ValidTrail;
    UipLoopOrigin(s, f, conflict, aux, UNMARKED, |s.trail|, 0, conflict);
  }

  lemma CleaningOk(s: State, marks: Marks, uip: int)
    requires Cleaning(s, marks, uip) && LevelOf(s, uip) == Level(s) > 0
    ensures ClauseOk(s, marks)
  {
    NegatedVar(s, uip);
    forall l | l in marks.clause ensures CleanLiteral(s, marks.seen, l) {
      assert Proper(s, marks.seen, uip, l);
    }
  }

  lemma OpenResolved(s: State, conflict: Clause, found: Marks, marks: Marks, uip: int)
    requires Collected(s, found.seen, found.clause) && marks == found.(clause := found.clause + [-uip])
    requires uip in s.trail && OpenOrigin(s, conflict, found.seen, Pos(s, uip) + 1)
    ensures Origin(s, conflict, marks)
  {
    forall t | t in s.trail && Abs(t) in marks.seen ensures -t in conflict || exists r :: FromResolved(s, marks, t, r) {
      if -t !in conflict {
        var r :| FromOpen(s, found.seen, Pos(s, uip) + 1, t, r);
        NegatedVar(s, r);
        assert -r !in found.clause && -r != -uip;
        assert -r !in marks.clause;
        assert FromResolved(s, marks, t, r);
      }
    }
  }

  /** Literals that are seen are not added again. */
  lemma {:induction false} NotAdded(s: State, marks: Marks, lit: int, reason: Clause, l: int)
    requires Abs(l) in marks.seen && l !in marks.clause
    ensures l !in MarkReason(s, marks, lit, reason).clause
  {
    if reason != [] {
      NotAdded(s, marks, lit, reason[..|reason| - 1], l);
      MarkReasonGrows(s, marks, lit, reason[..|reason| - 1]);
    }
  }

  lemma {:induction false} MarkReasonNoDup(s: State, marks: Marks, lit: int, reason: Clause)
    requires NoDup(marks.clause) && forall l :: l in marks.clause ==> Abs(l) in marks.seen
    ensures var m := MarkReason(s, marks, lit, reason);
            NoDup(m.clause) && forall l :: l in m.clause ==> Abs(l) in m.seen
  {
    if reason != [] {
      MarkReasonNoDup(s, marks, lit, reason[..|reason| - 1]);
    }
  }

  /** Resolving away the literal at position `i`, if it has a reason. */
  lemma EraseOrigin(s: State, f: Formula, conflict: Clause, marks: Marks, i: nat)
    requires ValidTrail(s, f) && Origin(s, conflict, marks) && ClauseOk(s, marks) && i < |marks.clause|
    ensures var lit := marks.clause[i];
            var marked := MarkReason(s, marks, lit, ReasonClause(s, lit));
            i < |marked.clause| && Origin(s, conflict, Erased(marked, i)) && ClauseOk(s, Erased(marked, i))
  {
    var lit := marks.clause[i];
    var c := ReasonClause(s, lit);
    var marked := MarkReason(s, marks, lit, c);
    assert lit in marks.clause && CleanLiteral(s, marks.seen, lit);
    MarkReasonGrows(s, marks, lit, c);
    ReasonClean(s, f, lit);
    MarkReasonClean(s, marks, lit, c);
    MarkReasonNoDup(s, marks, lit, c);
    assert marked.clause[i] == lit;
    WithoutAt(marked.clause, i);
    var erased := Erased(marked, i);
    assert erased.clause == marked.clause[..i] + marked.clause[i + 1..] && erased.seen == marked.seen;
    hide Erased, MarkReason, NoDup, CleanLiteral;
    forall t | t in s.trail && Abs(t) in erased.seen ensures -t in conflict || exists r :: FromResolved(s, erased, t, r) {
      if Abs(t) in marks.seen {
        if -t !in conflict {
          var r :| FromResolved(s, marks, t, r);
          NotAdded(s, marks, lit, c, -r);
          assert FromResolved(s, erased, t, r);
        }
      } else {
        NewOrigin(s, f, marks, i, t, erased);
      }
    }
  }

  lemma NewOrigin(s: State, f: Formula, marks: Marks, i: nat, t: int, erased: Marks)
    requires ValidTrail(s, f) && i < |marks.clause| && CleanLiteral(s, marks.seen, marks.clause[i])
    requires t in s.trail && Abs(t) !in marks.seen && marks.seen <= erased.seen && marks.clause[i] !in erased.clause
    requires Abs(t) in MarkReason(s, marks, marks.clause[i], ReasonClause(s, marks.clause[i])).seen
    ensures FromResolved(s, erased, t, -marks.clause[i])
  {
    var lit := marks.clause[i];
    var c := ReasonClause(s, lit);
    MarkedFrom(s, marks, lit, c, Abs(t));
    var other :| other in c && other != lit && Abs(other) == Abs(t);
    ReasonClean(s, f, lit);
    NegatedVar(s, lit);
    assert other != -lit;
    FalseLiteral(s, other, t);
    assert -(-lit) == lit;
  }

  /** The clean-up as a whole, and a literal that was dropped. */
  lemma {:induction false} CleanUpOrigin(s: State, f: Formula, conflict: Clause, aux: set<nat>, marks: Marks, i: nat)
    requires ValidTrail(s, f) && Origin(s, conflict, marks) && ClauseOk(s, marks)
    ensures var r := CleanUp(s, aux, marks, i);
            Origin(s, conflict, r) && ClauseOk(s, r) && marks.seen <= r.seen
    ensures Dropped(s, aux, marks, i) ==> DroppedDecision(s, aux, CleanUp(s, aux, marks, i).seen)
    decreases |s.vtab.Keys - marks.seen|, |marks.clause| - i
  {
    if i < |marks.clause| {
      CleanUpStep(s, aux, marks, i);
      var lit := marks.clause[i];
      assert lit in marks.clause && CleanLiteral(s, marks.seen, lit);
      hide ValidTrail, MarkReason, Origin, CleanUp, Dropped;
      if Abs(lit) in aux {
        EraseOrigin(s, f, conflict, marks, i);
        MarkReasonGrows(s, marks, lit, ReasonClause(s, lit));
        CleanUpOrigin(s, f, conflict, aux, Erased(MarkReason(s, marks, lit, ReasonClause(s, lit)), i), i);
        if ReasonOf(s, lit).NoReason? {
          DroppedHere(s, aux, marks.seen, CleanUp(s, aux, marks, i).seen, lit);
        }
      } else {
        CleanUpOrigin(s, f, conflict, aux, marks, i + 1);
      }
    }
  }

  /** A seen auxiliary literal above the root without reason. */
  ghost predicate DroppedDecision(s: State, aux: set<nat>, seen: set<nat>) {
    exists d :: IsDropped(s, aux, seen, d)
  }

  ghost predicate IsDropped(s: State, aux: set<nat>, seen: set<nat>, d: int) {
    d in s.trail && Abs(d) in seen && Abs(d) in aux && LevelOf(s, d) > 0 && ReasonOf(s, d).NoReason?
  }

  lemma DroppedHere(s: State, aux: set<nat>, seen: set<nat>, more: set<nat>, lit: int)
    requires CleanLiteral(s, seen, lit) && seen <= more && Abs(lit) in aux && ReasonOf(s, lit).NoReason?
    ensures DroppedDecision(s, aux, more)
  {
    NegatedVar(s, lit);
    assert ReasonOf(s, -lit) == ReasonOf(s, lit);
    assert IsDropped(s, aux, more, -lit);
  }

  /* ---- the model that falsifies the clause ---- */

  /** The literals that follow along the trail from the negated clause. */
  ghost predicate Follows(s: State, f: Formula, c: Clause, t: int)
    requires ValidTrail(s, f) && t in s.trail
    decreases Pos(s, t)
  {
    || -t in c || LevelOf(s, t) == 0
    || (ReasonOf(s, t).Because?
        && forall other {:trigger other in ReasonOf(s, t).clause} :: other in ReasonOf(s, t).clause && other != t ==>
             AntecedentFollows(s, f, c, t, other))
  }

  ghost predicate AntecedentFollows(s: State, f: Formula, c: Clause, t: int, other: int)
    requires ValidTrail(s, f) && t in s.trail && ReasonOf(s, t).Because? && other in ReasonOf(s, t).clause && other != t
    decreases Pos(s, t), 0
  {
    assert ReasonOk(s, f, t) && Before(s, t, other);
    NegatedVar(s, other);
    Follows(s, f, c, -other)
  }

  /** Trail literals hold exactly if they follow. */
  ghost function Least(s: State, f: Formula, c: Clause): Model
    requires ValidTrail(s, f)
  {
    iset v: int | LeastTrue(s, f, c, v)
  }

  ghost predicate LeastTrue(s: State, f: Formula, c: Clause, v: int)
    requires ValidTrail(s, f)
  {
    v > 0 && ((v in s.trail && Follows(s, f, c, v)) || (-v in s.trail && !Follows(s, f, c, -v)))
  }

  lemma LeastHolds(s: State, f: Formula, c: Clause, t: int)
    requires ValidTrail(s, f) && t in s.trail
    ensures Holds(Least(s, f, c), t) <==> Follows(s, f, c, t)
    ensures Holds(Least(s, f, c), -t) <==> !Follows(s, f, c, t)
  {
    Opposite(s, t);
    assert t != 0 && -(-t) == t;
    hide Follows, ValidTrail;
  }

  /** The model satisfies all reasons and root literals. */
  lemma LeastReason(s: State, f: Formula, c: Clause, t: int)
    requires ValidTrail(s, f) && t in s.trail && ReasonOf(s, t).Because?
    ensures Satisfies(Least(s, f, c), ReasonOf(s, t).clause)
  {
    var r := ReasonOf(s, t).clause;
    assert ReasonOk(s, f, t);
    if Follows(s, f, c, t) {
      LeastHolds(s, f, c, t);
      assert t in r;
    } else {
      var other :| other in r && other != t && !AntecedentFollows(s, f, c, t, other);
      assert Before(s, t, other);
      LeastHolds(s, f, c, -other);
      assert -(-other) == other;
    }
  }

  lemma LeastModel(s: State, f: Formula, conflict: Clause, c: Clause, b: int)
    requires ValidTrail(s, f) && Falsified(s, conflict) && b in conflict && !Follows(s, f, c, -b)
    ensures Models(Least(s, f, c), TrailFormula(s, conflict))
  {
    var m := Least(s, f, c);
    LeastHolds(s, f, c, -b);
    assert -(-b) == b && Holds(m, b);
    hide Follows, Least;
    forall d | d in TrailFormula(s, conflict) ensures Satisfies(m, d) {
      if t :| t in s.trail && ReasonOf(s, t).Because? && d == ReasonOf(s, t).clause {
        LeastReason(s, f, c, t);
      } else if t :| t in s.trail && LevelOf(s, t) == 0 && d == [t] {
        RootFollows(s, f, c, t);
        assert t in d;
      } else {
        assert d == conflict;
      }
    }
  }

  lemma RootFollows(s: State, f: Formula, c: Clause, t: int)
    requires ValidTrail(s, f) && t in s.trail && LevelOf(s, t) == 0
    ensures Holds(Least(s, f, c), t)
  {
    LeastHolds(s, f, c, t);
  }

  lemma LeastFalsifies(s: State, f: Formula, c: Clause)
    requires ValidTrail(s, f) && Falsified(s, c)
    ensures !Satisfies(Least(s, f, c), c)
  {
    forall l | l in c ensures !Holds(Least(s, f, c), l) {
      assert -(-l) == l;
      assert Follows(s, f, c, -l);
      LeastHolds(s, f, c, -l);
    }
  }

  /** A seen literal that does not follow leads up to one of the conflict that
      does not follow either. */
  lemma {:induction false} Upward(s: State, f: Formula, conflict: Clause, marks: Marks, t: int) returns (b: int)
    requires ValidTrail(s, f) && Falsified(s, conflict) && Origin(s, conflict, marks)
    requires t in s.trail && Abs(t) in marks.seen && !Follows(s, f, marks.clause, t)
    ensures b in conflict && -b in s.trail && !Follows(s, f, marks.clause, -b)
    decreases |s.trail| - Pos(s, t)
  {
    assert -(-t) == t;
    if -t in conflict {
      b := -t;
    } else {
      var r :| FromResolved(s, marks, t, r);
      ResolvedNotFollows(s, f, marks, t, r);
      assert Pos(s, r) < |s.trail|;
      b := Upward(s, f, conflict, marks, r);
    }
  }

  lemma ResolvedNotFollows(s: State, f: Formula, marks: Marks, t: int, r: int)
    requires ValidTrail(s, f) && t in s.trail && FromResolved(s, marks, t, r) && !Follows(s, f, marks.clause, t)
    ensures !Follows(s, f, marks.clause, r) && Pos(s, t) < Pos(s, r)
  {
    assert ReasonOk(s, f, r);
    NegatedVar(s, t);
    assert -t != r by {
      Opposite(s, t);
    }
    assert Before(s, r, -t);
    assert -(-t) == t;
    assert !AntecedentFollows(s, f, marks.clause, r, -t);
  }

  /** If a literal is dropped, the learned clause does not follow from the trail
      and the conflict. */
  lemma DroppedUnsound(s: State, f: Formula, conflict: Clause, aux: set<nat>)
    requires Conflicting(s, f, conflict) && Drops(s, conflict, aux)
    ensures !Entails(TrailFormula(s, conflict), Cleaned(s, conflict, aux))
  {
    CollectOrigin(s, f, conflict, aux);
    var marks := Collect(s, conflict, aux);
    CleanUpOrigin(s, f, conflict, aux, marks, 0);
    CleanUpAuxFree(s, aux, marks, 0);
    var r := CleanUp(s, aux, marks, 0);
    var d :| IsDropped(s, aux, r.seen, d);
    assert Falsified(s, r.clause) by {
      forall l | l in r.clause ensures l != 0 && -l in s.trail {
        assert CleanLiteral(s, r.seen, l);
      }
    }
    assert !Follows(s, f, r.clause, d) by {
      assert Abs(-d) == Abs(d);
    }
    hide Conflicting, CleanUp, Dropped, Follows, Origin;
    ConflictingFacts(s, f, conflict);
    var b := Upward(s, f, conflict, r, d);
    LeastModel(s, f, conflict, r.clause, b);
    LeastFalsifies(s, f, r.clause);
  }

  lemma ConflictingFacts(s: State, f: Formula, conflict: Clause)
    requires Conflicting(s, f, conflict)
    ensures ValidTrail(s, f) && Falsified(s, conflict) && Entails(f, conflict)
  {
  }

  /** The learned clause follows from every formula with this trail and this
      conflict if and only if the clean-up drops no literal. */
  lemma SoundExactly(s: State, f: Formula, conflict: Clause, aux: set<nat>)
    requires Conflicting(s, f, conflict)
    ensures (forall g :: ValidTrail(s, g) && Entails(g, conflict) ==> Entails(g, Cleaned(s, conflict, aux)))
       <==> !Drops(s, conflict, aux)
  {
    if Drops(s, conflict, aux) {
      DroppedUnsound(s, f, conflict, aux);
      TrailFormulaValid(s, f, conflict);
    } else {
      forall g | ValidTrail(s, g) && Entails(g, conflict) ensures Entails(g, Cleaned(s, conflict, aux)) {
        CollectLearned(s, g, conflict, aux);
      }
    }
  }
}
