/** Assigning, deciding and backtracking on the trail. */
module SearchTrail {
  import opened Logic
  import opened TrailState

  /** Why a literal is base: a unit, a decision, or a clause. */
  datatype Cause = Unit | Decision | Clausal(clause: Clause)

  function Sign(trail: seq<int>, l: int): int {
    if l in trail then 1 else if -l in trail then -1 else 0
  }

  function Value(vals: map<int, int>, l: int): int {
    if l in vals then vals[l] else 0
  }

  /** The values are those of the literals on the trail. */
  ghost predicate ValuesOk(vals: map<int, int>, trail: seq<int>) {
    forall l {:trigger Value(vals, l)} :: l != 0 ==> Value(vals, l) == Sign(trail, l)
  }

  lemma ValuesAppended(vals: map<int, int>, trail: seq<int>, lit: int)
    requires ValuesOk(vals, trail) && lit != 0 && lit !in trail && -lit !in trail
    ensures ValuesOk(vals[lit := 1][-lit := -1], trail + [lit])
  {
    var vals' := vals[lit := 1][-lit := -1];
    forall l | l != 0 ensures Value(vals', l) == Sign(trail + [lit], l) {
      assert Value(vals, l) == Sign(trail, l);
    }
  }

  /** Taking a literal out of the trail. */
  lemma ValuesRemoved(vals: map<int, int>, kept: seq<int>, lit: int, rest: seq<int>)
    requires ValuesOk(vals, kept + [lit] + rest) && lit != 0
    requires forall l :: l in kept || l in rest ==> l != lit && l != -lit
    ensures ValuesOk(vals[lit := 0][-lit := 0], kept + rest)
  {
    var vals' := vals[lit := 0][-lit := 0];
    forall l | l != 0 ensures Value(vals', l) == Sign(kept + rest, l) {
      assert Value(vals, l) == Sign(kept + [lit] + rest, l);
    }
  }

  /** Backtracking to level `n` has treated the trail up to `i` and kept `j`
      literals of it. */
  ghost predicate Compacting(s: State, n: nat, trail: seq<int>, vtab: map<int, Var>, vals: map<int, int>, i: nat, j: nat) {
    && j <= i <= |trail| == |s.trail|
    && trail[..j] == Keep(s, s.trail[..i], n) && trail[i..] == s.trail[i..]
    && (forall k {:trigger trail[k]} :: 0 <= k < j ==>
          VarOf(TrailState.State(trail, vtab, s.control), trail[k]) == VarOf(s, trail[k]).(trail := k))
    && (forall k {:trigger s.trail[k]} :: i <= k < |trail| ==>
          VarOf(TrailState.State(trail, vtab, s.control), s.trail[k]) == VarOf(s, s.trail[k]))
    && ValuesOk(vals, trail[..j] + trail[i..])
  }

  lemma Joined(t: seq<int>, p: nat)
    requires p <= |t|
    ensures t[..p] + t[p..] == t
  {
  }

  lemma CompactingStart(s: State, f: Formula, n: nat, vals: map<int, int>, p: nat)
    requires ValidTrail(s, f) && n + 1 < |s.control| && p == s.control[n + 1].trail
    requires ValuesOk(vals, s.trail)
    ensures Placed(s) && Compacting(s, n, s.trail, s.vtab, vals, p, p)
  {
    BelowKept(s, n, p);
    Joined(s.trail, p);
    assert TrailState.State(s.trail, s.vtab, s.control) == s;
    assert forall k :: 0 <= k < p ==> Pos(s, s.trail[k]) == k;
    hide Placed;
    hide Controlled;
    hide Keep;
    hide VarOf;
    hide ValuesOk;
  }

  lemma NothingLeft(s: State, f: Formula, n: nat)
    requires ValidTrail(s, f) && Level(s) <= n
    ensures Keep(s, s.trail, n) == s.trail && SameData(s, s)
  {
    KeepAll(s, s.trail, n);
  }

  /** A literal above the level is dropped. */
  lemma CompactingDrop(s: State, n: nat, trail: seq<int>, vtab: map<int, Var>, vals: map<int, int>, i: nat, j: nat)
    requires Placed(s) && Compacting(s, n, trail, vtab, vals, i, j) && i < |trail|
    requires LevelOf(s, s.trail[i]) > n
    ensures Compacting(s, n, trail, vtab, vals[trail[i] := 0][-trail[i] := 0], i + 1, j)
  {
    hide Placed;
    hide Keep;
    hide VarOf;
    hide ValuesOk;
    var lit := trail[i];
    StepFacts(s, n, trail, vtab, vals, i, j);
    assert ValuesOk(vals, trail[..j] + [lit] + trail[i + 1..]);
    ValuesRemoved(vals, trail[..j], lit, trail[i + 1..]);
  }

  lemma VarUpdated(s: State, trail: seq<int>, trail': seq<int>, vtab: map<int, Var>, lit: int, v: Var)
    ensures forall l :: VarOf(TrailState.State(trail', vtab[Abs(lit) := v], s.control), l)
                     == if Abs(l) == Abs(lit) then v else VarOf(TrailState.State(trail, vtab, s.control), l)
  {
  }

  /** A literal up to the level is moved. */
  lemma CompactingMove(s: State, n: nat, trail: seq<int>, vtab: map<int, Var>, vals: map<int, int>, i: nat, j: nat)
    requires Placed(s) && Compacting(s, n, trail, vtab, vals, i, j) && i < |trail|
    requires LevelOf(s, s.trail[i]) <= n
    ensures var v := VarOf(s, s.trail[i]).(trail := j);
            Compacting(s, n, trail[j := trail[i]], vtab[Abs(trail[i]) := v], vals, i + 1, j + 1)
  {
    hide Placed;
    hide Keep;
    hide VarOf;
    hide ValuesOk;
    var lit := trail[i];
    StepFacts(s, n, trail, vtab, vals, i, j);
    var trail' := trail[j := lit];
    VarUpdated(s, trail, trail', vtab, lit, VarOf(s, s.trail[i]).(trail := j));
    assert trail'[..j + 1] == trail[..j] + [lit] && trail'[i + 1..] == trail[i + 1..];
    assert trail'[..j + 1] + trail'[i + 1..] == trail[..j] + [lit] + trail[i + 1..];
    forall k | 0 <= k < j ensures trail'[k] == trail[k] && Abs(trail[k]) != Abs(lit) {
      assert trail[..j][k] == trail[k];
    }
  }

  lemma CompactingBounds(s: State, n: nat, trail: seq<int>, vtab: map<int, Var>, vals: map<int, int>, i: nat, j: nat)
    requires Compacting(s, n, trail, vtab, vals, i, j)
    ensures j <= i <= |trail| == |s.trail|
  {
  }

  lemma CompactingEnd(s: State, f: Formula, n: nat, trail: seq<int>, vtab: map<int, Var>, vals: map<int, int>, j: nat)
    requires ValidTrail(s, f) && n + 1 < |s.control| && Compacting(s, n, trail, vtab, vals, |trail|, j)
    ensures var s' := TrailState.State(trail[..j], vtab, s.control[..n + 1]);
            && ValidTrail(s', f) && ValuesOk(vals, trail[..j]) && trail[..j] == Keep(s, s.trail, n)
            && s.control[n + 1].trail <= j
            && SameData(s, s')
  {
    var s' := TrailState.State(trail[..j], vtab, s.control[..n + 1]);
    assert s.trail[..|trail|] == s.trail && trail[..j] + trail[|trail|..] == trail[..j];
    assert BacktrackedTo(s, s', n);
    BacktrackKeeps(s, s', f, n);
    BacktrackKept(s, s', n);
    BacktrackPrefix(s, s', n);
  }

  lemma StepFacts(s: State, n: nat, trail: seq<int>, vtab: map<int, Var>, vals: map<int, int>, i: nat, j: nat)
    requires Placed(s) && Compacting(s, n, trail, vtab, vals, i, j) && i < |trail|
    ensures trail[i] == s.trail[i] && trail[i] != 0 && trail[i + 1..] == s.trail[i + 1..]
    ensures trail[..j] + trail[i..] == trail[..j] + [trail[i]] + trail[i + 1..]
    ensures var kept := Keep(s, s.trail[..i], n);
            Keep(s, s.trail[..i + 1], n) == if LevelOf(s, trail[i]) <= n then kept + [trail[i]] else kept
    ensures VarOf(TrailState.State(trail, vtab, s.control), trail[i]) == VarOf(s, trail[i])
    ensures forall l :: l in trail[..j] || l in trail[i + 1..] ==> Abs(l) != Abs(trail[i])
  {
    SplitAt(trail, s.trail, i, j);
    assert s.trail[i] in s.trail;
    KeepNext(s, n, i);
    OtherVariables(s, n, i);
    hide Placed;
    hide Keep;
    hide ValuesOk;
    assert s.trail[i] == trail[i];
    hide VarOf;
    forall l | l in s.trail[i + 1..] ensures Abs(l) != Abs(trail[i]) {
      var k :| i < k < |s.trail| && s.trail[k] == l;
    }
  }

  lemma SplitAt(a: seq<int>, b: seq<int>, i: nat, j: nat)
    requires j <= i < |a| == |b| && a[i..] == b[i..]
    ensures a[i] == b[i] && a[i + 1..] == b[i + 1..]
    ensures a[..j] + a[i..] == a[..j] + [a[i]] + a[i + 1..]
  {
    assert a[i..][0] == a[i] && b[i..][0] == b[i];
    assert a[i..] == [a[i]] + a[i + 1..];
    assert a[i + 1..] == a[i..][1..] && b[i + 1..] == b[i..][1..];
  }

  class Internal {
    const chrono: bool
    var vals: map<int, int>
    var vtab: map<int, Var>
    var trail: seq<int>
    var control: seq<Control>
    var level: nat
    var propagated: nat
    ghost var db: Formula

    function State(): State
      reads this
    {
      TrailState.State(trail, vtab, control)
    }

    ghost predicate Valid()
      reads this
    {
      && ValidTrail(State(), db) && ValuesOk(vals, trail)
      && level == |control| - 1 && propagated <= |trail|
    }

    constructor (withChrono: bool, f: Formula)
      ensures Valid() && chrono == withChrono && db == f && trail == [] && level == 0
    {
      chrono := withChrono;
      vals, vtab, trail, control := map[], map[], [], [Control(0, 0)];
      level, propagated := 0, 0;
      db := f;
    }

    /** The highest level of the false literals in a reason. */
    method AssignmentLevel(lit: int, reason: Clause) returns (res: nat)
      ensures res == MaxLevel(State(), reason, lit)
    {
      res := 0;
      for i := 0 to |reason|
        invariant res == MaxLevel(State(), reason[..i], lit)
      {
        var other := reason[i];
        assert reason[..i + 1][..i] == reason[..i];
        if other != lit {
          var tmp := if Abs(other) in vtab then vtab[Abs(other)].level else 0;
          if tmp > res {
            res := tmp;
          }
        }
      }
      assert reason[..|reason|] == reason;
    }

    /** All literals of the clause other than `lit` are false. */
    ghost predicate Forces(lit: int, c: Clause)
      reads this
    {
      && lit in c && Entails(db, c)
      && forall other :: other in c && other != lit ==> other != 0 && -other in trail
    }

    /** Without chronological backtracking a forcing clause has another literal
        on the current level. */
    ghost predicate Assignable(lit: int, cause: Cause)
      reads this
    {
      && Unassigned(State(), lit)
      && match cause
         case Unit => Entails(db, [lit])
         case Decision => 0 < level < |control| && control[level] == Control(lit, |trail|)
         case Clausal(c) =>
           && Forces(lit, c)
           && (!chrono && level > 0 ==> exists other :: other in c && other != lit && LevelOf(State(), other) == level)
    }

    /** The level the literal gets. */
    ghost function NewLevel(lit: int, cause: Cause): nat
      reads this
    {
      match cause
      case Unit => 0
      case Decision => level
      case Clausal(c) => if chrono then MaxLevel(State(), c, lit) else level
    }

    ghost function NewReason(lit: int, cause: Cause): Reason
      reads this
    {
      if cause.Clausal? && NewLevel(lit, cause) > 0 then Because(cause.clause) else NoReason
    }

    method SearchAssign(lit: int, cause: Cause)
      requires ValuesOk(vals, trail) && level == |control| - 1 && propagated <= |trail| && Assignable(lit, cause)
      requires if cause.Decision? then ValidTrail(State(), db) else Valid()
      modifies `vals, `vtab, `trail
      ensures ValuesOk(vals, trail) && propagated <= |trail|
      ensures State() == Assigned(old(State()), lit, old(NewLevel(lit, cause)), old(NewReason(lit, cause)))
      ensures !cause.Decision? ==> Valid()
    {
      var litLevel: nat;
      var reason := NoReason;
      match cause {
        case Unit => litLevel := 0;
        case Decision => litLevel := level;
        case Clausal(c) =>
          if chrono {
            litLevel := AssignmentLevel(lit, c);
          } else {
            litLevel := level;
          }
          if litLevel > 0 {
            reason := Because(c);
          }
      }
      if !cause.Decision? {
        ForcedAssignable(lit, cause);
        AssignKeeps(State(), db, lit, litLevel, reason);
      }
      hide ValidTrail;
      Record(lit, litLevel, reason);
    }

    /** Writes the assignment. */
    method Record(lit: int, litLevel: nat, reason: Reason)
      requires ValuesOk(vals, trail) && Unassigned(State(), lit)
      modifies `vals, `vtab, `trail
      ensures ValuesOk(vals, trail) && State() == Assigned(old(State()), lit, litLevel, reason)
    {
      ValuesAppended(vals, trail, lit);
      vtab := vtab[Abs(lit) := Var(litLevel, |trail|, reason)];
      vals := vals[lit := 1][-lit := -1];
      trail := trail + [lit];
    }

    /** The assignment meets the demands of the trail invariant. */
    lemma ForcedAssignable(lit: int, cause: Cause)
      requires Valid() && Assignable(lit, cause) && !cause.Decision?
      ensures TrailState.Assignable(State(), db, lit, NewLevel(lit, cause), NewReason(lit, cause))
    {
      match cause
      case Unit =>
      case Decision =>
      case Clausal(c) =>
        var s := State();
        MaxLevelBounds(s, c, lit);
        forall other | other in c && other != lit
          ensures other != 0 && -other in s.trail && LevelOf(s, other) <= level
        {
          Opposite(s, -other);
        }
        if NewLevel(lit, cause) == 0 {
          RootForced(s, lit, c);
        }
    }

    /** A literal forced by root literals is entailed. */
    lemma RootForced(s: TrailState.State, lit: int, c: Clause)
      requires s == State() && Valid() && Forces(lit, c)
      requires forall other :: other in c && other != lit ==> LevelOf(s, other) == 0
      ensures Entails(db, [lit])
    {
      forall m | Models(m, db) ensures Satisfies(m, [lit]) {
        assert Satisfies(m, c);
        var l :| l in c && Holds(m, l);
        if l != lit {
          Opposite(s, -l);
          RootEntailed(s, db, -l);
          UnitHolds(db, -l, m);
        }
        assert lit in [lit];
      }
    }

    method AssignUnit(lit: int)
      requires Valid() && level == 0 && Unassigned(State(), lit) && Entails(db, [lit])
      modifies `vals, `vtab, `trail
      ensures Valid() && trail == old(trail) + [lit] && LevelOf(State(), lit) == 0
    {
      SearchAssign(lit, Unit);
    }

    method SearchAssumeDecision(lit: int)
      requires Valid() && propagated == |trail| && Unassigned(State(), lit)
      modifies `vals, `vtab, `trail, `control, `level
      ensures Valid() && trail == old(trail) + [lit] && level == old(level) + 1
      ensures control == old(control) + [Control(lit, |old(trail)|)]
      ensures LevelOf(State(), lit) == level && IsDecision(State(), lit)
    {
      ghost var s := State();
      DecideKeeps(s, db, lit);
      OpenLevel(lit);
      OpenedUnassigned(s, lit);
      hide ValidTrail, TrailState.Unassigned;
      SearchAssign(lit, Decision);
      hide *;
      DecisionPlaced(s, lit);
    }

    /** Opens a level for a decision or, with zero, without one. */
    method OpenLevel(decision: int)
      requires Valid()
      modifies `control, `level
      ensures State() == Opened(old(State()), decision) && level == |control| - 1 == old(level) + 1
      ensures control == old(control) + [Control(decision, |trail|)]
      ensures ValidTrail(State(), db) && ValuesOk(vals, trail) && propagated <= |trail|
    {
      OpenKeeps(State(), db, decision);
      hide ValidTrail;
      level := level + 1;
      control := control + [Control(decision, |trail|)];
    }

    /** A satisfied assumption opens a level without decision. */
    method PseudoDecision()
      requires Valid()
      modifies `control, `level
      ensures Valid() && level == old(level) + 1 && control == old(control) + [Control(0, |trail|)]
    {
      OpenLevel(0);
    }

    /** The next assumption, the constraint, or the chosen literal is decided.
        The result is true if an assumption or the constraint is falsified. */
    method Decide(assumptions: seq<int>, constraint: seq<int>, choice: int) returns (failed: bool)
      requires Valid() && propagated == |trail|
      requires (forall l :: l in assumptions ==> l != 0) && (forall l :: l in constraint ==> l != 0)
      requires level > |assumptions| || (level == |assumptions| && constraint == []) ==> Unassigned(State(), choice)
      modifies `vals, `vtab, `trail, `control, `level
      ensures Valid() && (failed ==> State() == old(State()))
      ensures failed <==> || (old(level) < |assumptions| && -assumptions[old(level)] in old(trail))
                          || (old(level) == |assumptions| && constraint != [] && forall l :: l in constraint ==> -l in old(trail))
      ensures !failed ==> level == old(level) + 1 && (trail == old(trail) || trail == old(trail) + [control[level].decision])
      ensures !failed && old(level) < |assumptions| ==> assumptions[old(level)] in trail
      ensures !failed && old(level) == |assumptions| && constraint != [] ==> exists l :: l in constraint && l in trail
    {
      failed := false;
      if level < |assumptions| {
        var lit := assumptions[level];
        assert lit in assumptions;
        SignValue(lit);
        if Value(vals, lit) < 0 {
          failed := true;
        } else if Value(vals, lit) > 0 {
          PseudoDecision();
        } else {
          SearchAssumeDecision(lit);
        }
      } else if level == |assumptions| && constraint != [] {
        failed := DecideConstraint(constraint);
      } else {
        SearchAssumeDecision(choice);
      }
    }

    /** Opens a level for a true or else unassigned literal of the constraint. */
    method DecideConstraint(constraint: seq<int>) returns (failed: bool)
      requires Valid() && propagated == |trail| && forall l :: l in constraint ==> l != 0
      modifies `vals, `vtab, `trail, `control, `level
      ensures Valid() && (failed ==> State() == old(State()))
      ensures failed <==> forall l :: l in constraint ==> -l in old(trail)
      ensures !failed ==> level == old(level) + 1 && (trail == old(trail) || trail == old(trail) + [control[level].decision])
      ensures !failed ==> exists l :: l in constraint && l in trail
    {
      var satisfied, unassigned := ScanConstraint(constraint);
      failed := false;
      if satisfied != 0 {
        TrueNotFalse(satisfied);
        PseudoDecision();
      } else if unassigned != 0 {
        SearchAssumeDecision(unassigned);
      } else {
        failed := true;
      }
    }

    /** The first true literal, or else the first unassigned one. */
    method ScanConstraint(constraint: seq<int>) returns (satisfied: int, unassigned: int)
      requires Valid() && forall l :: l in constraint ==> l != 0
      ensures satisfied != 0 ==> satisfied in constraint && satisfied in trail
      ensures satisfied == 0 && unassigned != 0 ==> unassigned in constraint && Unassigned(State(), unassigned)
      ensures satisfied == 0 && unassigned == 0 ==> forall l :: l in constraint ==> -l in trail
    {
      satisfied, unassigned := 0, 0;
      for i := 0 to |constraint|
        invariant satisfied == 0
        invariant unassigned != 0 ==> unassigned in constraint && Unassigned(State(), unassigned)
        invariant unassigned == 0 ==> forall k :: 0 <= k < i ==> -constraint[k] in trail
      {
        var lit := constraint[i];
        assert lit in constraint;
        SignValue(lit);
        if Value(vals, lit) > 0 {
          satisfied := lit;
          return;
        }
        if Value(vals, lit) == 0 && unassigned == 0 {
          unassigned := lit;
        }
      }
    }

    lemma SignValue(lit: int)
      requires Valid() && lit != 0
      ensures Value(vals, lit) < 0 <==> -lit in trail
      ensures Value(vals, lit) > 0 <==> lit in trail
      ensures Value(vals, lit) == 0 <==> Unassigned(State(), lit)
    {
      assert Value(vals, lit) == Sign(trail, lit);
      if lit in trail {
        Opposite(State(), lit);
      }
    }

    lemma TrueNotFalse(lit: int)
      requires Valid() && lit in trail
      ensures -lit !in trail
    {
      Opposite(State(), lit);
    }

    method SearchAssignDriving(lit: int, cause: Cause)
      requires Valid() && Assignable(lit, cause) && !cause.Decision?
      modifies `vals, `vtab, `trail
      ensures Valid() && trail == old(trail) + [lit]
      ensures LevelOf(State(), lit) == old(NewLevel(lit, cause))
    {
      SearchAssign(lit, cause);
    }

    method Unassign(lit: int)
      modifies `vals
      ensures vals == old(vals)[lit := 0][-lit := 0]
    {
      vals := vals[lit := 0][-lit := 0];
    }

    /** Goes over the trail from `start`, unassigning the literals above
        `newLevel` and moving the others down in place. */
    method Compact(newLevel: nat, start: nat) returns (j: nat)
      requires Placed(State()) && Compacting(State(), newLevel, trail, vtab, vals, start, start)
      modifies `vals, `vtab, `trail
      ensures |trail| == |old(trail)| && start <= j <= |trail|
      ensures Compacting(old(State()), newLevel, trail, vtab, vals, |trail|, j)
    {
      hide Compacting;
      hide Placed;
      ghost var s := State();
      CompactingBounds(s, newLevel, trail, vtab, vals, start, start);
      var endOfTrail := |trail|;
      var i := start;
      j := start;
      while i < endOfTrail
        invariant start <= j <= i <= endOfTrail == |trail| == |s.trail|
        invariant Compacting(s, newLevel, trail, vtab, vals, i, j)
      {
        var lit := trail[i];
        StepFacts(s, newLevel, trail, vtab, vals, i, j);
        if VarOf(State(), lit).level > newLevel {
          CompactingDrop(s, newLevel, trail, vtab, vals, i, j);
          Unassign(lit);
        } else {
          CompactingMove(s, newLevel, trail, vtab, vals, i, j);
          vtab := vtab[Abs(lit) := VarOf(State(), lit).(trail := j)];
          trail := trail[j := lit];
          j := j + 1;
        }
        i := i + 1;
      }
    }

    /** Unassigns the literals above `newLevel`; the others stay in order. */
    method Backtrack(newLevel: nat)
      requires Valid() && newLevel <= level
      modifies `vals, `vtab, `trail, `control, `level, `propagated
      ensures Valid() && level == newLevel
      ensures trail == Keep(old(State()), old(trail), newLevel)
      ensures SameData(old(State()), State())
      ensures control == old(control)[..newLevel + 1]
    {
      hide Compacting, ValidTrail, ValuesOk, SameData, Keep, Placed, Controlled, Reasoned, VarOf;
      if newLevel == level {
        NothingLeft(State(), db, newLevel);
        assert control == control[..newLevel + 1];
      } else {
        LeaveLevels(newLevel);
      }
    }

    method LeaveLevels(newLevel: nat)
      requires Valid() && newLevel < level
      modifies `vals, `vtab, `trail, `control, `level, `propagated
      ensures Valid() && level == newLevel
      ensures trail == Keep(old(State()), old(trail), newLevel)
      ensures SameData(old(State()), State())
      ensures control == old(control)[..newLevel + 1]
    {
      hide Compacting, ValidTrail, ValuesOk, SameData, Keep, Placed, Controlled, Reasoned, VarOf;
      ghost var s := State();
      var start := control[newLevel + 1].trail;
      CompactingStart(s, db, newLevel, vals, start);
      var j := Compact(newLevel, start);
      CompactingEnd(s, db, newLevel, trail, vtab, vals, j);
      trail := trail[..j];
      if propagated > start {
        propagated := start;
      }
      control := control[..newLevel + 1];
      level := newLevel;
    }
  }
}
