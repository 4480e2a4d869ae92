/** Conflict analysis of the `UIPAUX` build, which keeps auxiliary variables out
    of learned clauses: the search for the unique implication point goes past
    auxiliary literals, and afterwards the auxiliary literals of lower levels
    are resolved away one by one. */
module AuxFreeLearning {
  import opened Logic
  import opened TrailState
  import opened ConflictResolution
  import opened ImplicationPoints
  import opened Analysis

  /** Removes auxiliary literals from the clause, from position `i` on.  A
      literal with a reason is replaced by the other literals of the reason
      that are not seen yet; a literal without reason is just dropped. */
  function CleanUp(s: State, aux: set<nat>, marks: Marks, i: nat): Marks
    decreases |s.vtab.Keys - marks.seen|, |marks.clause| - i
  {
    if i >= |marks.clause| then marks
    else
      var lit := marks.clause[i];
      if Abs(lit) in aux then
        MarkReasonMeasure(s, marks, lit, ReasonClause(s, lit));
        MarkReasonGrows(s, marks, lit, ReasonClause(s, lit));
        CleanUp(s, aux, Erased(MarkReason(s, marks, lit, ReasonClause(s, lit)), i), i)
      else
        CleanUp(s, aux, marks, i + 1)
  }

  /** The clean-up reaches an auxiliary literal without reason and drops it. */
  predicate Dropped(s: State, aux: set<nat>, marks: Marks, i: nat)
    decreases |s.vtab.Keys - marks.seen|, |marks.clause| - i
  {
    if i >= |marks.clause| then false
    else
      var lit := marks.clause[i];
      if Abs(lit) in aux then
        MarkReasonMeasure(s, marks, lit, ReasonClause(s, lit));
        MarkReasonGrows(s, marks, lit, ReasonClause(s, lit));
        ReasonOf(s, lit).NoReason? || Dropped(s, aux, Erased(MarkReason(s, marks, lit, ReasonClause(s, lit)), i), i)
      else
        Dropped(s, aux, marks, i + 1)
  }

  /** The marks after the loop of the analysis, with the literal to assert. */
  function Collect(s: State, conflict: Clause, aux: set<nat>): Marks {
    var found := FoundUip(s, conflict, aux);
    found.0.(clause := found.0.clause + [-found.1])
  }

  /** The clause learned from a conflict. */
  function Cleaned(s: State, conflict: Clause, aux: set<nat>): Clause {
    CleanUp(s, aux, Collect(s, conflict, aux), 0).clause
  }

  /** Whether the clean-up drops a literal of the clause derived from a conflict. */
  predicate Drops(s: State, conflict: Clause, aux: set<nat>) {
    Dropped(s, aux, Collect(s, conflict, aux), 0)
  }

  /** The reason, or nothing to resolve with. */
  function ReasonClause(s: State, lit: int): Clause {
    match ReasonOf(s, lit)
    case NoReason => []
    case Because(c) => c
  }

  function Erased(marks: Marks, i: nat): Marks
    requires i < |marks.clause|
  {
    marks.(clause := marks.clause[..i] + marks.clause[i + 1..])
  }

  /** Marking either changes nothing or leaves fewer unseen variables. */
  lemma {:induction false} MarkReasonMeasure(s: State, marks: Marks, lit: int, reason: Clause)
    ensures var m := MarkReason(s, marks, lit, reason);
            || m == marks
            || |s.vtab.Keys - m.seen| < |s.vtab.Keys - marks.seen|
  {
    if reason != [] {
      var rest, other := reason[..|reason| - 1], reason[|reason| - 1];
      MarkReasonMeasure(s, marks, lit, rest);
      var before := MarkReason(s, marks, lit, rest);
      var after := MarkReason(s, marks, lit, reason);
      if after != before {
        assert Abs(other) in s.vtab && Abs(other) !in before.seen;
        var v: int := Abs(other);
        assert s.vtab.Keys - after.seen == (s.vtab.Keys - before.seen) - {v};
      }
    }
  }

  /* ---- what the loop keeps ---- */

  /** The literal was resolved away: the rest of its reason is seen. */
  ghost predicate Resolved(s: State, seen: set<nat>, t: int) {
    ReasonOf(s, t).Because? && Marked(s, t, ReasonOf(s, t).clause, seen)
  }

  /** A literal of the clause. */
  ghost predicate Proper(s: State, seen: set<nat>, uip: int, l: int) {
    l != 0 && -l in s.trail && Abs(l) in seen && (l == -uip || 0 < LevelOf(s, l) < Level(s))
  }

  /** Seen literals of lower levels are in the clause or were resolved away. */
  ghost predicate Cleaning(s: State, marks: Marks, uip: int) {
    && NoDup(marks.clause) && -uip in marks.clause
    && (forall l {:trigger l in marks.clause} :: l in marks.clause ==> Proper(s, marks.seen, uip, l))
    && (forall t {:trigger t in s.trail} :: t in s.trail && Abs(t) in marks.seen && 0 < LevelOf(s, t) < Level(s) ==>
          -t in marks.clause || Resolved(s, marks.seen, t))
  }

  lemma ResolvedMonotone(s: State, seen: set<nat>, seen': set<nat>, t: int)
    requires Resolved(s, seen, t) && seen <= seen'
    ensures Resolved(s, seen', t)
  {
  }

  lemma MarkOneCleaning(s: State, marks: Marks, uip: int, other: int)
    requires Placed(s) && Cleaning(s, marks, uip)
    requires Abs(other) in marks.seen || (other != 0 && -other in s.trail && LevelOf(s, other) < Level(s))
    ensures Cleaning(s, MarkOne(s, marks, other), uip)
  {
    var after := MarkOne(s, marks, other);
    if after != marks {
      NegatedVar(s, other);
      assert other !in marks.clause;
      assert forall l :: l in after.clause <==> l in marks.clause || l == other;
      forall t | t in s.trail && Abs(t) in after.seen && 0 < LevelOf(s, t) < Level(s)
        ensures -t in after.clause || Resolved(s, after.seen, t)
      {
        if Abs(t) == Abs(other) {
          SameVariable(s, t, -other);
          SamePosition(s, t, -other);
        } else if -t !in marks.clause {
          ResolvedMonotone(s, marks.seen, after.seen, t);
        }
      }
    }
  }

  lemma {:induction false} MarkReasonCleaning(s: State, marks: Marks, uip: int, lit: int, reason: Clause)
    requires Placed(s) && Cleaning(s, marks, uip)
    requires forall other {:trigger other in reason} :: other in reason && other != lit ==>
      Abs(other) in marks.seen || (other != 0 && -other in s.trail && LevelOf(s, other) < Level(s))
    ensures Cleaning(s, MarkReason(s, marks, lit, reason), uip)
  {
    if reason != [] {
      var rest, other := reason[..|reason| - 1], reason[|reason| - 1];
      assert reason == rest + [other] && other in reason && forall o :: o in rest ==> o in reason;
      MarkReasonCleaning(s, marks, uip, lit, rest);
      MarkReasonGrows(s, marks, lit, rest);
      if other != lit {
        MarkOneCleaning(s, MarkReason(s, marks, lit, rest), uip, other);
      }
    }
  }

  /** In the reason of the negation of a lower clause literal, everything but
      the implied literal is false and on lower levels. */
  lemma ReasonBelow(s: State, f: Formula, seen: set<nat>, lit: int)
    requires ValidTrail(s, f) && -lit in s.trail && Abs(lit) in seen
    ensures forall other {:trigger other in ReasonClause(s, lit)} :: other in ReasonClause(s, lit) && other != lit ==>
      Abs(other) in seen || (other != 0 && -other in s.trail && LevelOf(s, other) <= LevelOf(s, lit))
  {
    NegatedVar(s, lit);
    assert ReasonOk(s, f, -lit) && ReasonOf(s, lit) == ReasonOf(s, -lit);
    forall other | other in ReasonClause(s, lit) && other != lit
      ensures Abs(other) in seen || (other != 0 && -other in s.trail && LevelOf(s, other) <= LevelOf(s, lit))
    {
      if other != -lit {
        assert Before(s, -lit, other);
      }
    }
  }

  /** No auxiliary variable was decided. */
  ghost predicate NoAuxDecision(s: State, aux: set<nat>) {
    forall t {:trigger t in s.trail} :: t in s.trail && Abs(t) in aux && LevelOf(s, t) > 0 ==> ReasonOf(s, t).Because?
  }

  /** A literal of the clause other than that of `uip` is on a lower level. */
  lemma AuxLiteral(s: State, aux: set<nat>, marks: Marks, uip: int, i: nat)
    requires Cleaning(s, marks, uip)
    requires i < |marks.clause| && Abs(marks.clause[i]) in aux && Abs(uip) !in aux
    ensures var lit := marks.clause[i];
            && -lit in s.trail && Abs(lit) in marks.seen && lit != -uip && LevelOf(s, lit) < Level(s)
            && ReasonOf(s, lit) == ReasonOf(s, -lit)
  {
    var lit := marks.clause[i];
    assert lit in marks.clause;
    NegatedVar(s, lit);
  }

  lemma EraseMarked(s: State, marks: Marks, lit: int)
    requires ReasonOf(s, -lit).Because? && ReasonOf(s, lit) == ReasonOf(s, -lit) && Abs(lit) in marks.seen
    ensures Resolved(s, MarkReason(s, marks, lit, ReasonClause(s, lit)).seen, -lit)
  {
    MarkReasonGrows(s, marks, lit, ReasonClause(s, lit));
    NegatedVar(s, lit);
  }

  lemma ValidPlaced(s: State, f: Formula)
    requires ValidTrail(s, f)
    ensures Placed(s)
  {
  }

  lemma EraseCleaning(s: State, f: Formula, aux: set<nat>, marks: Marks, uip: int, i: nat)
    requires ValidTrail(s, f) && Cleaning(s, marks, uip)
    requires i < |marks.clause| && Abs(marks.clause[i]) in aux && Abs(uip) !in aux
    requires ReasonOf(s, marks.clause[i]).Because?
    ensures var lit := marks.clause[i];
            var marked := MarkReason(s, marks, lit, ReasonClause(s, lit));
            && marks.clause <= marked.clause && marks.seen <= marked.seen && Cleaning(s, Erased(marked, i), uip)
  {
    ValidPlaced(s, f);
    hide *;
    var lit := marks.clause[i];
    AuxLiteral(s, aux, marks, uip, i);
    ReasonBelow(s, f, marks.seen, lit);
    EraseMarked(s, marks, lit);
    MarkReasonCleaning(s, marks, uip, lit, ReasonClause(s, lit));
    MarkReasonGrows(s, marks, lit, ReasonClause(s, lit));
    var marked := MarkReason(s, marks, lit, ReasonClause(s, lit));
    assert marked.clause[i] == lit;
    DropLiteral(s, marked, uip, i);
  }

  /** Erasing a resolved literal. */
  lemma DropLiteral(s: State, marks: Marks, uip: int, i: nat)
    requires Cleaning(s, marks, uip) && i < |marks.clause| && marks.clause[i] != -uip
    requires Resolved(s, marks.seen, -marks.clause[i])
    ensures Cleaning(s, Erased(marks, i), uip)
  {
    var lit, c := marks.clause[i], marks.clause;
    WithoutAt(c, i);
    hide VarOf;
    var d := Erased(marks, i).clause;
    assert d == c[..i] + c[i + 1..];
    hide Erased;
    hide NoDup;
    hide Proper;
    assert -uip in d && forall l :: l in d ==> l in c;
    forall t | t in s.trail && Abs(t) in marks.seen && 0 < LevelOf(s, t) < Level(s)
      ensures -t in d || Resolved(s, marks.seen, t)
    {
      assert -t in c || Resolved(s, marks.seen, t);
      assert -t == lit ==> t == -lit;
    }
  }

  lemma WithoutAt(c: Clause, i: nat)
    requires NoDup(c) && i < |c|
    ensures NoDup(c[..i] + c[i + 1..])
    ensures forall l :: l in c[..i] + c[i + 1..] <==> l in c && l != c[i]
  {
    var d := c[..i] + c[i + 1..];
    forall l ensures l in d <==> l in c && l != c[i] {
      if l in c && l != c[i] {
        var k :| 0 <= k < |c| && c[k] == l;
        assert d[if k < i then k else k - 1] == l;
      }
      if l in d {
        var k :| 0 <= k < |d| && d[k] == l;
        assert l == c[if k < i then k else k + 1];
      }
    }
  }

  /** If nothing is dropped, the clean-up keeps track of all seen literals and
      removes all auxiliary ones. */
  lemma {:induction false} CleanUpCleaning(s: State, f: Formula, aux: set<nat>, marks: Marks, uip: int, i: nat)
    requires ValidTrail(s, f) && !Dropped(s, aux, marks, i) && Cleaning(s, marks, uip) && Abs(uip) !in aux
    requires i <= |marks.clause| && forall k :: 0 <= k < i ==> Abs(marks.clause[k]) !in aux
    ensures var r := CleanUp(s, aux, marks, i);
            Cleaning(s, r, uip) && marks.seen <= r.seen && forall l :: l in r.clause ==> Abs(l) !in aux
    decreases |s.vtab.Keys - marks.seen|, |marks.clause| - i
  {
    hide ValidTrail;
    hide Cleaning;
    hide MarkReason;
    if i < |marks.clause| {
      CleanUpStep(s, aux, marks, i);
      hide CleanUp;
      hide Dropped;
      var lit := marks.clause[i];
      if Abs(lit) in aux {
        EraseCleaning(s, f, aux, marks, uip, i);
        CleanUpCleaning(s, f, aux, Erased(MarkReason(s, marks, lit, ReasonClause(s, lit)), i), uip, i);
      } else {
        CleanUpCleaning(s, f, aux, marks, uip, i + 1);
      }
    }
  }

  /** One step of the clean-up, and why it makes progress. */
  lemma CleanUpStep(s: State, aux: set<nat>, marks: Marks, i: nat)
    requires i < |marks.clause|
    ensures var lit := marks.clause[i];
            var marked := MarkReason(s, marks, lit, ReasonClause(s, lit));
            && i < |marked.clause|
            && CleanUp(s, aux, marks, i) == (if Abs(lit) in aux then CleanUp(s, aux, Erased(marked, i), i)
                                             else CleanUp(s, aux, marks, i + 1))
            && Dropped(s, aux, marks, i) == (if Abs(lit) in aux
                                             then ReasonOf(s, lit).NoReason? || Dropped(s, aux, Erased(marked, i), i)
                                             else Dropped(s, aux, marks, i + 1))
            && (|s.vtab.Keys - marked.seen| < |s.vtab.Keys - marks.seen| || marked == marks)
  {
    var lit := marks.clause[i];
    MarkReasonMeasure(s, marks, lit, ReasonClause(s, lit));
    MarkReasonGrows(s, marks, lit, ReasonClause(s, lit));
  }

  /** Whatever was decided, no auxiliary literal is left. */
  lemma {:induction false} CleanUpAuxFree(s: State, aux: set<nat>, marks: Marks, i: nat)
    requires i <= |marks.clause| && forall k :: 0 <= k < i ==> Abs(marks.clause[k]) !in aux
    ensures forall l :: l in CleanUp(s, aux, marks, i).clause ==> Abs(l) !in aux
    decreases |s.vtab.Keys - marks.seen|, |marks.clause| - i
  {
    if i < |marks.clause| {
      CleanUpStep(s, aux, marks, i);
      MarkReasonGrows(s, marks, marks.clause[i], ReasonClause(s, marks.clause[i]));
      hide CleanUp;
      hide Dropped;
      hide MarkReason;
      if Abs(marks.clause[i]) in aux {
        CleanUpAuxFree(s, aux, Erased(MarkReason(s, marks, marks.clause[i], ReasonClause(s, marks.clause[i])), i), i);
      } else {
        CleanUpAuxFree(s, aux, marks, i + 1);
      }
    }
  }

  /** In a model that falsifies the cleaned clause all seen literals of lower
      levels hold, by induction along the trail. */
  lemma {:induction false} SeenImplied(s: State, f: Formula, marks: Marks, uip: int, m: Model, t: int)
    requires ValidTrail(s, f) && Cleaning(s, marks, uip) && Models(m, f) && !Satisfies(m, marks.clause)
    requires t in s.trail && Abs(t) in marks.seen && 0 < LevelOf(s, t) < Level(s)
    ensures Holds(m, t)
    decreases Pos(s, t)
  {
    if -t !in marks.clause {
      assert Resolved(s, marks.seen, t) && ReasonOk(s, f, t);
      var c := ReasonOf(s, t).clause;
      forall other | other in c && other != t ensures !Holds(m, other) {
        assert Before(s, t, other);
        NegatedVar(s, other);
        if LevelOf(s, other) == 0 {
          RootEntailed(s, f, -other);
          UnitHolds(f, -other, m);
        } else {
          SeenImplied(s, f, marks, uip, m, -other);
        }
      }
      assert Satisfies(m, c);
    }
  }

  /** The cleaned clause is entailed, free of auxiliary literals, and still has
      one literal on the conflict level. */
  lemma CleanUpLearned(s: State, f: Formula, aux: set<nat>, marks: Marks, uip: int)
    requires ValidTrail(s, f) && !Dropped(s, aux, marks, 0) && Cleaning(s, marks, uip) && Abs(uip) !in aux
    requires Learned(s, f, marks.clause, uip)
    ensures var c := CleanUp(s, aux, marks, 0).clause;
            Learned(s, f, c, uip) && forall l :: l in c ==> Abs(l) !in aux
  {
    var r := CleanUp(s, aux, marks, 0);
    CleanUpCleaning(s, f, aux, marks, uip, 0);
    hide CleanUp, Dropped, ValidTrail;
    forall m | Models(m, f) ensures Satisfies(m, r.clause) {
      assert Satisfies(m, marks.clause);
      var l :| l in marks.clause && Holds(m, l);
      if !Satisfies(m, r.clause) {
        assert l != -uip && Proper(s, marks.seen, uip, l);
        NegatedVar(s, l);
        SeenImplied(s, f, r, uip, m, -l);
      }
    }
    assert forall l :: l in r.clause ==> Proper(s, r.seen, uip, l);
  }

  /** The clean-up loop. */
  method CleanUpLoop(a: Analyzer, aux: set<nat>)
    requires a.LevelsOk()
    modifies a`seen, a`analyzed, a`levels, a`seenCount, a`seenTrail, a`clause, a`open
    ensures a.Current() == CleanUp(a.s, aux, old(a.Current()), 0) && a.LevelsOk()
  {
    hide Dropped;
    var i := 0;
    while i < |a.clause|
      invariant 0 <= i && a.LevelsOk()
      invariant CleanUp(a.s, aux, a.Current(), i) == CleanUp(a.s, aux, old(a.Current()), 0)
      decreases |a.s.vtab.Keys - a.seen|, |a.clause| - i
    {
      var lit := a.clause[i];
      if Abs(lit) in aux {
        ghost var before := a.Current();
        ghost var c := ReasonClause(a.s, lit);
        MarkReasonMeasure(a.s, before, lit, c);
        MarkReasonGrows(a.s, before, lit, c);
        match ReasonOf(a.s, lit) {
          case NoReason =>
          case Because(reason) => a.AnalyzeReason(lit, reason);
        }
        a.clause := a.clause[..i] + a.clause[i + 1..];
      } else {
        i := i + 1;
      }
    }
  }

  /** The analysis of the build that avoids auxiliary literals.  The result is a
      learned clause unless the clean-up drops a literal. */
  method Learn(a: Analyzer, conflict: Clause, aux: set<nat>) returns (uip: int)
    requires a.Current() == UNMARKED && Conflicting(a.s, a.f, conflict) && a.LevelsOk()
    modifies a`seen, a`analyzed, a`levels, a`seenCount, a`seenTrail, a`clause, a`open
    ensures a.clause == Cleaned(a.s, conflict, aux) && a.LevelsOk()
    ensures forall l :: l in a.clause ==> Abs(l) !in aux
    ensures !Drops(a.s, conflict, aux) ==> Learned(a.s, a.f, a.clause, uip)
    ensures FirstPoint(a.s, conflict, aux, uip)
  {
    hide FirstPoint, UipLiterals, Head, Learned, CleanUp, Dropped, UipFound;
    uip := a.FindUip(conflict, aux);
    a.clause := a.clause + [-uip];
    assert a.Current() == Collect(a.s, conflict, aux);
    CleanUpAuxFree(a.s, aux, a.Current(), 0);
    if !Drops(a.s, conflict, aux) {
      CollectLearned(a.s, a.f, conflict, aux);
    }
    CleanUpLoop(a, aux);
  }

  /** What the loop collects is a learned clause, and tracks the seen literals. */
  lemma CollectLearned(s: State, f: Formula, conflict: Clause, aux: set<nat>)
    requires Conflicting(s, f, conflict)
    ensures var marks, uip := Collect(s, conflict, aux), FoundUip(s, conflict, aux).1;
            && Learned(s, f, marks.clause, uip) && Cleaning(s, marks, uip)
            && (!Drops(s, conflict, aux) ==> Learned(s, f, Cleaned(s, conflict, aux), uip))
  {
    var found := FoundUip(s, conflict, aux);
    var marks, uip := Collect(s, conflict, aux), found.1;
    ConflictHead(s, f, conflict);
    UipLoopFound(s, f, aux, UNMARKED, |s.trail|, 0, conflict);
    ValidPlaced(s, f);
    UipLearned(s, f, found.0.seen, found.0.clause, uip);
    CleaningStart(s, marks, uip, found.0.clause);
    if !Drops(s, conflict, aux) {
      if Abs(uip) in aux {
        UipDropped(s, aux, marks, 0, |found.0.clause|);
      }
      CleanUpLearned(s, f, aux, marks, uip);
    }
  }

  /** An auxiliary literal without reason that is still to come gets dropped. */
  lemma {:induction false} UipDropped(s: State, aux: set<nat>, marks: Marks, i: nat, k: nat)
    requires i <= k < |marks.clause| && Abs(marks.clause[k]) in aux && ReasonOf(s, marks.clause[k]).NoReason?
    ensures Dropped(s, aux, marks, i)
    decreases |s.vtab.Keys - marks.seen|, |marks.clause| - i
  {
    CleanUpStep(s, aux, marks, i);
    var lit := marks.clause[i];
    var marked := MarkReason(s, marks, lit, ReasonClause(s, lit));
    MarkReasonGrows(s, marks, lit, ReasonClause(s, lit));
    hide CleanUp, Dropped, MarkReason;
    if k > i {
      assert marked.clause[k] == marks.clause[k];
      if Abs(lit) in aux {
        assert Erased(marked, i).clause[k - 1] == marked.clause[k];
        UipDropped(s, aux, Erased(marked, i), i, k - 1);
      } else {
        UipDropped(s, aux, marks, i + 1, k);
      }
    }
  }

  lemma CleaningStart(s: State, marks: Marks, uip: int, clause: Clause)
    requires Placed(s) && Collected(s, marks.seen, clause) && marks.clause == clause + [-uip]
    requires uip in s.trail && LevelOf(s, uip) == Level(s) && Abs(uip) in marks.seen
    ensures Cleaning(s, marks, uip)
  {
    NegatedVar(s, uip);
    assert marks.clause[|clause|] == -uip && -uip !in clause;
    assert forall l :: l in marks.clause <==> l in clause || l == -uip;
    hide VarOf;
    hide Placed;
  }

  /** Without auxiliary decisions nothing is dropped. */
  lemma NoAuxNoDrop(s: State, f: Formula, conflict: Clause, aux: set<nat>)
    requires Conflicting(s, f, conflict) && NoAuxDecision(s, aux)
    ensures !Drops(s, conflict, aux)
  {
    CollectLearned(s, f, conflict, aux);
    ValidPlaced(s, f);
    var marks := Collect(s, conflict, aux);
    forall l | l in marks.clause ensures CleanLiteral(s, marks.seen, l) {
      assert -l in s.trail && LevelOf(s, l) > 0;
      assert Proper(s, marks.seen, FoundUip(s, conflict, aux).1, l);
    }
    NeverDropped(s, f, aux, marks, 0);
  }

  /** Seen, false and above the root. */
  ghost predicate CleanLiteral(s: State, seen: set<nat>, l: int) {
    l != 0 && Abs(l) in seen && -l in s.trail && LevelOf(s, l) > 0
  }

  lemma {:induction false} NeverDropped(s: State, f: Formula, aux: set<nat>, marks: Marks, i: nat)
    requires ValidTrail(s, f) && NoAuxDecision(s, aux) && forall l :: l in marks.clause ==> CleanLiteral(s, marks.seen, l)
    ensures !Dropped(s, aux, marks, i)
    decreases |s.vtab.Keys - marks.seen|, |marks.clause| - i
  {
    if i < |marks.clause| {
      CleanUpStep(s, aux, marks, i);
      var lit := marks.clause[i];
      var c := ReasonClause(s, lit);
      assert lit in marks.clause && CleanLiteral(s, marks.seen, lit);
      NegatedVar(s, lit);
      if Abs(lit) in aux {
        ReasonClean(s, f, lit);
        MarkReasonClean(s, marks, lit, c);
        hide Dropped, CleanUp, ValidTrail, NoAuxDecision, MarkReason, CleanLiteral;
        var erased := Erased(MarkReason(s, marks, lit, c), i);
        assert forall l :: l in erased.clause ==> l in MarkReason(s, marks, lit, c).clause;
        NeverDropped(s, f, aux, erased, i);
      } else {
        NeverDropped(s, f, aux, marks, i + 1);
      }
    }
  }

  lemma ReasonClean(s: State, f: Formula, lit: int)
    requires ValidTrail(s, f) && -lit in s.trail
    ensures forall other :: other in ReasonClause(s, lit) && other != -lit ==> other != 0 && -other in s.trail
  {
    NegatedVar(s, lit);
    assert ReasonOk(s, f, -lit) && ReasonOf(s, lit) == ReasonOf(s, -lit);
    forall other | other in ReasonClause(s, lit) && other != -lit ensures other != 0 && -other in s.trail {
      assert Before(s, -lit, other);
    }
  }

  lemma {:induction false} MarkReasonClean(s: State, marks: Marks, lit: int, reason: Clause)
    requires forall l :: l in marks.clause ==> CleanLiteral(s, marks.seen, l)
    requires Abs(lit) in marks.seen && forall other :: other in reason && other != -lit ==> other != 0 && -other in s.trail
    ensures var m := MarkReason(s, marks, lit, reason);
            marks.seen <= m.seen && forall l :: l in m.clause ==> CleanLiteral(s, m.seen, l)
  {
    if reason != [] {
      var rest, other := reason[..|reason| - 1], reason[|reason| - 1];
      assert reason == rest + [other] && other in reason && forall o :: o in rest ==> o in reason;
      MarkReasonClean(s, marks, lit, rest);
    }
  }

  /* ---- an auxiliary decision ---- */

  /** Variable 1 is auxiliary and was decided first, then 2; the binary-like
      chain forces 3 and the conflict. */
  function DecidedAux(): State {
    State([1, 2, 3],
          map[1 := Var(1, 0, NoReason), 2 := Var(2, 1, NoReason), 3 := Var(2, 2, Because([-1, -2, 3]))],
          [Control(0, 0), Control(1, 0), Control(2, 1)])
  }

  function DecidedAuxFormula(): Formula {
    {[-1, -2, 3], [-1, -2, -3]}
  }

  lemma DecidedAuxValid()
    ensures ValidTrail(DecidedAux(), DecidedAuxFormula())
  {
    var s, f := DecidedAux(), DecidedAuxFormula();
    forall l | l in s.trail ensures ReasonOk(s, f, l) {
      if l == 3 {
        var c := [-1, -2, 3];
        assert c[0] == -1 && c[1] == -2 && c[2] == 3;
        assert c in f;
        assert Before(s, 3, -1) && Before(s, 3, -2);
        assert -2 in c && LevelOf(s, -2) == 2;
      } else {
        assert l == 1 || l == 2;
        assert IsDecision(s, l);
      }
    }
  }

  const DECIDED_CONFLICT: Clause := [-1, -2, -3]

  lemma DecidedAuxConflict()
    ensures Conflicting(DecidedAux(), DecidedAuxFormula(), DECIDED_CONFLICT)
  {
    var s, f, c := DecidedAux(), DecidedAuxFormula(), DECIDED_CONFLICT;
    DecidedAuxValid();
    assert c[0] == -1 && c[1] == -2 && c[2] == -3;
    assert s.trail[0] == 1 && s.trail[1] == 2 && s.trail[2] == 3;
    assert c in f && -2 in c && LevelOf(s, -2) == 2;
  }

  /** Marking the literals of a clause of three, the last one first unfolded. */
  lemma MarkThree(s: State, marks: Marks, lit: int, a: int, b: int, c: int)
    ensures var m1 := if a == lit then marks else MarkOne(s, marks, a);
            var m2 := if b == lit then m1 else MarkOne(s, m1, b);
            MarkReason(s, marks, lit, [a, b, c]) == if c == lit then m2 else MarkOne(s, m2, c)
  {
    assert [a, b, c][..2] == [a, b] && [a, b][..1] == [a] && [a][..0] == [];
    assert MarkReason(s, marks, lit, []) == marks;
    assert MarkReason(s, marks, lit, [a]) == if a == lit then marks else MarkOne(s, marks, a);
    assert MarkReason(s, marks, lit, [a, b])
        == var m1 := if a == lit then marks else MarkOne(s, marks, a); if b == lit then m1 else MarkOne(s, m1, b);
  }

  /** The loop goes over literal 3 and stops at decision 2. */
  lemma DecidedAuxFound()
    ensures FoundUip(DecidedAux(), DECIDED_CONFLICT, {1}) == (Marks({1, 2, 3}, [-1], 0), 2)
  {
    var s := DecidedAux();
    var first, second := Marks({1, 2, 3}, [-1], 1), Marks({1, 2, 3}, [-1], 0);
    MarkThree(s, UNMARKED, 0, -1, -2, -3);
    assert MarkOne(s, UNMARKED, -1) == Marks({1}, [-1], 0);
    assert MarkOne(s, Marks({1}, [-1], 0), -2) == Marks({1, 2}, [-1], 1);
    assert MarkOne(s, Marks({1, 2}, [-1], 1), -3) == Marks({1, 2, 3}, [-1], 2);
    assert NextMarks(s, UNMARKED, 0, DECIDED_CONFLICT) == first;
    MarkThree(s, first, 3, -1, -2, 3);
    assert NextMarks(s, first, 3, [-1, -2, 3]) == second;
    assert s.trail[1] == 2 && s.trail[2] == 3;
    assert LastOpen(s, {1, 2, 3}, 3) == 2 && LastOpen(s, {1, 2, 3}, 2) == 1;
    assert ReasonOf(s, 3) == Because([-1, -2, 3]) && ReasonOf(s, 2) == NoReason;
    hide NextMarks, LastOpen;
    assert UipLoop(s, {1}, first, 2, 3, [-1, -2, 3]) == (second, 2);
    assert UipLoop(s, {1}, UNMARKED, 3, 0, DECIDED_CONFLICT) == (second, 2);
  }

  /** When an auxiliary variable was decided, the clean-up can drop its literal:
      the clause learned from this conflict does not follow from the formula. */
  lemma AuxDecisionUnsound()
    ensures var s, f := DecidedAux(), DecidedAuxFormula();
            && Conflicting(s, f, DECIDED_CONFLICT) && Drops(s, DECIDED_CONFLICT, {1})
            && Cleaned(s, DECIDED_CONFLICT, {1}) == [-2] && !Entails(f, [-2])
  {
    hide *;
    DecidedAuxConflict();
    DecidedAuxDropped();
    DecidedAuxModel();
  }

  lemma DecidedAuxDropped()
    ensures Drops(DecidedAux(), DECIDED_CONFLICT, {1}) && Cleaned(DecidedAux(), DECIDED_CONFLICT, {1}) == [-2]
  {
    var s, marks := DecidedAux(), Marks({1, 2, 3}, [-1, -2], 0);
    DecidedAuxFound();
    assert Collect(s, DECIDED_CONFLICT, {1}) == marks;
    hide UipLoop, FoundUip;
    var erased := Marks({1, 2, 3}, [-2], 0);
    assert Erased(marks, 0) == erased by {
      assert marks.clause[..0] + marks.clause[1..] == [-2];
    }
    assert ReasonOf(s, -1) == NoReason;
    assert MarkReason(s, marks, -1, ReasonClause(s, -1)) == marks;
    assert CleanUp(s, {1}, erased, 1) == erased;
    assert CleanUp(s, {1}, erased, 0) == erased;
  }

  lemma DecidedAuxModel()
    ensures !Entails(DecidedAuxFormula(), [-2])
  {
    var m: Model := iset{2};
    assert -1 in [-1, -2, 3] && -1 in [-1, -2, -3] && Holds(m, -1);
    assert Models(m, DecidedAuxFormula()) && !Satisfies(m, [-2]);
  }
}
