/** Resolving a conflict with reasons down the trail, as a function on what was
    marked so far. */
module ConflictResolution {
  import opened Logic
  import opened TrailState

  /** The literal at position `k` is seen and on the conflict level. */
  predicate OpenAt(s: State, seen: set<nat>, k: nat)
    requires k < |s.trail|
  {
    Abs(s.trail[k]) in seen && LevelOf(s, s.trail[k]) == Level(s)
  }

  /** How many literals before `i` are seen and on the conflict level. */
  ghost function CountOpen(s: State, seen: set<nat>, i: nat): nat
    requires i <= |s.trail|
  {
    if i == 0 then 0 else CountOpen(s, seen, i - 1) + if OpenAt(s, seen, i - 1) then 1 else 0
  }

  lemma {:induction false} CountNone(s: State, i: nat)
    requires i <= |s.trail|
    ensures CountOpen(s, {}, i) == 0
  {
    if i > 0 {
      CountNone(s, i - 1);
    }
  }

  lemma {:induction false} CountPositive(s: State, seen: set<nat>, i: nat, k: nat)
    requires k < i <= |s.trail| && OpenAt(s, seen, k)
    ensures CountOpen(s, seen, i) > 0
  {
    if k < i - 1 {
      CountPositive(s, seen, i - 1, k);
    }
  }

  lemma {:induction false} CountZero(s: State, seen: set<nat>, i: nat, k: nat)
    requires k < i <= |s.trail| && CountOpen(s, seen, i) == 0
    ensures !OpenAt(s, seen, k)
  {
    if k < i - 1 {
      CountZero(s, seen, i - 1, k);
    }
  }

  lemma {:induction false} SomeOpen(s: State, seen: set<nat>, i: nat) returns (k: nat)
    requires i <= |s.trail| && CountOpen(s, seen, i) > 0
    ensures k < i && OpenAt(s, seen, k)
  {
    if OpenAt(s, seen, i - 1) {
      k := i - 1;
    } else {
      k := SomeOpen(s, seen, i - 1);
    }
  }

  /** Marking a variable of the conflict level before `i` adds one. */
  lemma {:induction false} CountMark(s: State, seen: set<nat>, lit: int, i: nat)
    requires Placed(s) && lit in s.trail && i <= |s.trail|
    ensures CountOpen(s, seen + {Abs(lit)}, i) == CountOpen(s, seen, i) +
            if Abs(lit) !in seen && LevelOf(s, lit) == Level(s) && Pos(s, lit) < i then 1 else 0
  {
    if i > 0 {
      CountMark(s, seen, lit, i - 1);
      var t := s.trail[i - 1];
      assert Pos(s, t) == i - 1 && s.trail[Pos(s, lit)] == lit;
      assert Abs(t) == Abs(lit) ==> Pos(s, t) == Pos(s, lit);
    }
  }

  /** The seen literals below the conflict level are those of the clause. */
  ghost predicate Collected(s: State, seen: set<nat>, clause: Clause) {
    && NoDup(clause)
    && (forall l {:trigger l in clause} :: l in clause ==>
          l != 0 && -l in s.trail && Abs(l) in seen && 0 < LevelOf(s, l) < Level(s))
    && (forall t {:trigger t in s.trail} :: t in s.trail && Abs(t) in seen ==>
          LevelOf(s, t) > 0 && (LevelOf(s, t) < Level(s) ==> -t in clause))
  }

  /** A seen literal on the conflict level before `i` is false in the model. */
  ghost predicate OpenHolds(m: Model, s: State, seen: set<nat>, i: nat)
    requires i <= |s.trail|
  {
    exists k :: 0 <= k < i && OpenAt(s, seen, k) && Holds(m, -s.trail[k])
  }

  /** The current resolvent: the collected clause, the negations of the open
      literals before `i`, and the negation of `uip`. */
  ghost predicate Resolvent(m: Model, s: State, seen: set<nat>, clause: Clause, i: nat, uip: int)
    requires i <= |s.trail|
  {
    Satisfies(m, clause) || OpenHolds(m, s, seen, i) || Holds(m, -uip)
  }

  /** The literals of the clause other than `lit` are false on the trail,
      those on the conflict level before `i`. */
  ghost predicate Analyzable(s: State, lit: int, c: Clause, i: nat) {
    forall other {:trigger other in c} :: other in c && other != lit ==>
      other != 0 && -other in s.trail && (LevelOf(s, other) == Level(s) ==> Pos(s, other) < i)
  }

  /** All literals of the clause other than `lit` above the root are seen. */
  ghost predicate Marked(s: State, lit: int, c: Clause, seen: set<nat>) {
    forall other {:trigger other in c} :: other in c && other != lit && LevelOf(s, other) > 0 ==> Abs(other) in seen
  }

  lemma NegatedVar(s: State, l: int)
    ensures Abs(-l) == Abs(l) && LevelOf(s, -l) == LevelOf(s, l) && Pos(s, -l) == Pos(s, l)
  {
  }

  lemma OpenMonotone(m: Model, s: State, seen: set<nat>, seen': set<nat>, i: nat)
    requires i <= |s.trail| && seen <= seen' && OpenHolds(m, s, seen, i)
    ensures OpenHolds(m, s, seen', i)
  {
    var k :| 0 <= k < i && OpenAt(s, seen, k) && Holds(m, -s.trail[k]);
    assert OpenAt(s, seen', k);
  }

  /** Resolving with a clause whose other literals are marked. */
  lemma ResolveStep(m: Model, s: State, f: Formula, c: Clause, uip: int, i: nat,
                    seen: set<nat>, clause: Clause, seen': set<nat>, clause': Clause)
    requires ValidTrail(s, f) && Models(m, f) && Satisfies(m, c) && i <= |s.trail|
    requires Analyzable(s, uip, c, i) && Marked(s, uip, c, seen') && Collected(s, seen', clause')
    requires seen <= seen' && forall l :: l in clause ==> l in clause'
    requires uip in c ==> uip != 0 && Resolvent(m, s, seen, clause, i, uip)
    ensures Satisfies(m, clause') || OpenHolds(m, s, seen', i)
  {
    var l :| l in c && Holds(m, l);
    if l == uip {
      if OpenHolds(m, s, seen, i) {
        OpenMonotone(m, s, seen, seen', i);
      }
    } else {
      ResolvedLiteral(m, s, f, c, uip, i, seen', clause', l);
    }
  }

  lemma ResolvedLiteral(m: Model, s: State, f: Formula, c: Clause, uip: int, i: nat,
                        seen: set<nat>, clause: Clause, l: int)
    requires ValidTrail(s, f) && Models(m, f) && i <= |s.trail|
    requires Analyzable(s, uip, c, i) && Marked(s, uip, c, seen) && Collected(s, seen, clause)
    requires l in c && l != uip && Holds(m, l)
    ensures Satisfies(m, clause) || OpenHolds(m, s, seen, i)
  {
    NegatedVar(s, l);
    assert -l in s.trail;
    if LevelOf(s, l) == 0 {
      RootEntailed(s, f, -l);
      UnitHolds(f, -l, m);
    } else if LevelOf(s, l) < Level(s) {
      assert -(-l) in clause;
    } else {
      var k := Pos(s, -l);
      assert s.trail[k] == -l && OpenAt(s, seen, k);
    }
  }

  /** What the analysis collects: seen variables, clause, and open literals. */
  datatype Marks = Marks(seen: set<nat>, clause: Clause, open: int)

  /** Marks one literal unless it is seen or fixed. */
  function MarkOne(s: State, marks: Marks, lit: int): Marks {
    if Abs(lit) in marks.seen || LevelOf(s, lit) == 0 then marks
    else
      Marks(marks.seen + {Abs(lit)},
            if LevelOf(s, lit) < Level(s) then marks.clause + [lit] else marks.clause,
            if LevelOf(s, lit) == Level(s) then marks.open + 1 else marks.open)
  }

  /** Marks all literals of a clause other than `lit`. */
  function MarkReason(s: State, marks: Marks, lit: int, reason: Clause): Marks {
    if reason == [] then marks
    else
      var before := MarkReason(s, marks, lit, reason[..|reason| - 1]);
      var other := reason[|reason| - 1];
      if other == lit then before else MarkOne(s, before, other)
  }

  lemma {:induction false} MarkReasonGrows(s: State, marks: Marks, lit: int, reason: Clause)
    ensures var m := MarkReason(s, marks, lit, reason);
            && marks.seen <= m.seen && marks.clause <= m.clause && Marked(s, lit, reason, m.seen)
  {
    if reason != [] {
      MarkReasonGrows(s, marks, lit, reason[..|reason| - 1]);
      assert reason == reason[..|reason| - 1] + [reason[|reason| - 1]];
    }
  }

  /** The marks follow the clause, and `open` counts the open literals. */
  ghost predicate TrackedUp(s: State, marks: Marks, i: nat) {
    i <= |s.trail| && Collected(s, marks.seen, marks.clause) && marks.open == CountOpen(s, marks.seen, i)
  }

  lemma MarkOneTracked(s: State, marks: Marks, lit: int, i: nat)
    requires Placed(s) && TrackedUp(s, marks, i)
    requires lit != 0 && -lit in s.trail && (LevelOf(s, lit) == Level(s) ==> Pos(s, lit) < i)
    ensures TrackedUp(s, MarkOne(s, marks, lit), i)
  {
    NegatedVar(s, lit);
    if Abs(lit) !in marks.seen && LevelOf(s, lit) > 0 {
      CountMark(s, marks.seen, -lit, i);
      MarkCollected(s, marks.seen, marks.clause, lit);
    }
  }

  lemma {:induction false} MarkReasonTracked(s: State, marks: Marks, lit: int, reason: Clause, i: nat)
    requires Placed(s) && TrackedUp(s, marks, i) && Analyzable(s, lit, reason, i)
    ensures TrackedUp(s, MarkReason(s, marks, lit, reason), i)
  {
    if reason != [] {
      var rest, other := reason[..|reason| - 1], reason[|reason| - 1];
      assert reason == rest + [other] && other in reason && forall o :: o in rest ==> o in reason;
      MarkReasonTracked(s, marks, lit, rest, i);
      if other != lit {
        MarkOneTracked(s, MarkReason(s, marks, lit, rest), other, i);
      }
    }
  }

  /* ---- the loop as a function ---- */

  /** The last open position before `i`, or -1. */
  function LastOpen(s: State, seen: set<nat>, i: nat): (k: int)
    requires i <= |s.trail|
    ensures -1 <= k < i && (k >= 0 ==> OpenAt(s, seen, k))
    ensures forall j :: k < j < i ==> !OpenAt(s, seen, j)
  {
    if i == 0 then -1 else if OpenAt(s, seen, i - 1) then i - 1 else LastOpen(s, seen, i - 1)
  }

  /** After the reason of `uip` was analyzed and one open literal was taken. */
  function NextMarks(s: State, marks: Marks, uip: int, reason: Clause): Marks {
    var m := MarkReason(s, marks, uip, reason);
    m.(open := m.open - 1)
  }

  /** Analyzes reasons down the trail until one literal is open and it is not
      auxiliary or has no reason. */
  function UipLoop(s: State, aux: set<nat>, marks: Marks, i: nat, uip: int, reason: Clause): (Marks, int)
    requires i <= |s.trail|
    decreases i
  {
    var m := NextMarks(s, marks, uip, reason);
    var k := LastOpen(s, m.seen, i);
    if k < 0 then (m, 0)
    else
      var next := s.trail[k];
      match ReasonOf(s, next)
      case NoReason => (m, next)
      case Because(c) => if m.open == 0 && Abs(next) !in aux then (m, next) else UipLoop(s, aux, m, k, next, c)
  }

  const UNMARKED := Marks({}, [], 0)

  /** What the loop finds for a conflict. */
  function FoundUip(s: State, conflict: Clause, aux: set<nat>): (Marks, int) {
    UipLoop(s, aux, UNMARKED, |s.trail|, 0, conflict)
  }

  /** The clause and the open literals, with the negation of `uip`, follow from
      the formula. */
  ghost predicate Derived(s: State, f: Formula, marks: Marks, i: nat, uip: int)
    requires i <= |s.trail|
  {
    forall m :: Models(m, f) ==> Resolvent(m, s, marks.seen, marks.clause, i, uip)
  }

  /** What holds before the reason of `uip`, or the conflict if `uip` is zero,
      is analyzed. */
  ghost predicate Head(s: State, f: Formula, marks: Marks, i: nat, uip: int, reason: Clause) {
    && ValidTrail(s, f) && Level(s) > 0 && TrackedUp(s, marks, i) && Entails(f, reason) && Analyzable(s, uip, reason, i)
    && (exists other :: other in reason && other != uip && LevelOf(s, other) == Level(s))
    && (uip in reason ==> uip != 0 && Derived(s, f, marks, i, uip))
  }

  /** A conflict falsified by the trail with a literal on the current level. */
  ghost predicate Conflicting(s: State, f: Formula, conflict: Clause) {
    && ValidTrail(s, f) && Level(s) > 0 && Entails(f, conflict) && Falsified(s, conflict)
    && exists l :: l in conflict && LevelOf(s, l) == Level(s)
  }

  lemma ConflictHead(s: State, f: Formula, conflict: Clause)
    requires Conflicting(s, f, conflict)
    ensures Head(s, f, UNMARKED, |s.trail|, 0, conflict)
  {
    CountNone(s, |s.trail|);
    forall l | l in conflict ensures l != 0 && -l in s.trail && Pos(s, l) < |s.trail| {
      NegatedVar(s, l);
    }
  }

  /** After marking there is an open literal. */
  lemma OpenLeft(s: State, f: Formula, marks: Marks, i: nat, uip: int, reason: Clause)
    requires Head(s, f, marks, i, uip, reason)
    ensures TrackedUp(s, MarkReason(s, marks, uip, reason), i) && MarkReason(s, marks, uip, reason).open > 0
  {
    var m := MarkReason(s, marks, uip, reason);
    MarkReasonTracked(s, marks, uip, reason, i);
    MarkReasonGrows(s, marks, uip, reason);
    var other :| other in reason && other != uip && LevelOf(s, other) == Level(s);
    NegatedVar(s, other);
    assert OpenAt(s, m.seen, Pos(s, -other));
    CountPositive(s, m.seen, i, Pos(s, -other));
  }

  /** One round: the next open literal, and what is derived then. */
  lemma Round(s: State, f: Formula, marks: Marks, i: nat, uip: int, reason: Clause)
    requires Head(s, f, marks, i, uip, reason)
    ensures var m := NextMarks(s, marks, uip, reason);
            var k := LastOpen(s, m.seen, i);
            && 0 <= k < i && TrackedUp(s, m, k) && Derived(s, f, m, k, s.trail[k])
            && LevelOf(s, s.trail[k]) == Level(s) && Abs(s.trail[k]) in m.seen && s.trail[k] in s.trail
            && marks.seen <= m.seen
  {
    OpenLeft(s, f, marks, i, uip, reason);
    MarkReasonGrows(s, marks, uip, reason);
    var m := NextMarks(s, marks, uip, reason);
    var some := SomeOpen(s, m.seen, i);
    var k := LastOpen(s, m.seen, i);
    CountLast(s, m.seen, i);
    NextDerived(s, f, marks.seen, marks.clause, uip, reason, i, m.seen, m.clause, s.trail[k], k);
  }

  lemma {:induction false} CountLast(s: State, seen: set<nat>, i: nat)
    requires i <= |s.trail|
    ensures var k := LastOpen(s, seen, i);
            CountOpen(s, seen, i) == if k < 0 then 0 else CountOpen(s, seen, k) + 1
  {
    if i > 0 && !OpenAt(s, seen, i - 1) {
      CountLast(s, seen, i - 1);
    }
  }

  /** An open literal that is not the last one has a reason, and then the next
      round can start. */
  lemma NextHead(s: State, f: Formula, marks: Marks, k: nat)
    requires ValidTrail(s, f) && Level(s) > 0 && k < |s.trail| && TrackedUp(s, marks, k) && Derived(s, f, marks, k, s.trail[k])
    requires LevelOf(s, s.trail[k]) == Level(s)
    ensures marks.open > 0 ==> ReasonOf(s, s.trail[k]).Because?
    ensures ReasonOf(s, s.trail[k]).Because? ==> Head(s, f, marks, k, s.trail[k], ReasonOf(s, s.trail[k]).clause)
  {
    var uip := s.trail[k];
    assert uip in s.trail && Pos(s, uip) == k;
    if marks.open > 0 {
      var j := SomeOpen(s, marks.seen, k);
      assert s.trail[j] in s.trail && Pos(s, s.trail[j]) == j;
      HasReason(s, f, uip, s.trail[j]);
    }
    if ReasonOf(s, uip).Because? {
      assert ReasonOk(s, f, uip);
      var c := ReasonOf(s, uip).clause;
      forall other | other in c && other != uip
        ensures other != 0 && -other in s.trail && (LevelOf(s, other) == Level(s) ==> Pos(s, other) < k)
      {
        assert Before(s, uip, other);
      }
    }
  }

  /** The clause is on lower levels, and with the negation of `uip` it follows
      from the formula. */
  ghost predicate UipFound(s: State, f: Formula, marks: Marks, uip: int) {
    && uip in s.trail && LevelOf(s, uip) == Level(s) && Abs(uip) in marks.seen && Collected(s, marks.seen, marks.clause)
    && Entails(f, marks.clause + [-uip])
  }

  /** The loop ends with a unique implication point, and if that is auxiliary it
      has no reason. */
  lemma {:induction false} UipLoopFound(s: State, f: Formula, aux: set<nat>, marks: Marks, i: nat, uip: int, reason: Clause)
    requires Head(s, f, marks, i, uip, reason)
    ensures var r := UipLoop(s, aux, marks, i, uip, reason);
            UipFound(s, f, r.0, r.1) && (Abs(r.1) in aux ==> ReasonOf(s, r.1).NoReason?)
    decreases i
  {
    Round(s, f, marks, i, uip, reason);
    var m := NextMarks(s, marks, uip, reason);
    var k := LastOpen(s, m.seen, i);
    NextHead(s, f, m, k);
    hide Head, Derived, TrackedUp, NextMarks, ValidTrail, UipFound;
    match ReasonOf(s, s.trail[k])
    case NoReason =>
      UipEntails(s, f, m, k, s.trail[k]);
    case Because(c) =>
      if m.open == 0 && Abs(s.trail[k]) !in aux {
        UipEntails(s, f, m, k, s.trail[k]);
      } else {
        UipLoopFound(s, f, aux, m, k, s.trail[k], c);
      }
  }

  lemma UipEntails(s: State, f: Formula, marks: Marks, i: nat, uip: int)
    requires TrackedUp(s, marks, i) && Derived(s, f, marks, i, uip) && marks.open <= 0
    requires uip in s.trail && LevelOf(s, uip) == Level(s) && Abs(uip) in marks.seen
    ensures UipFound(s, f, marks, uip)
  {
    CountNat(s, marks.seen, i);
    forall m | Models(m, f) ensures Satisfies(m, marks.clause + [-uip]) {
      assert Resolvent(m, s, marks.seen, marks.clause, i, uip);
      if OpenHolds(m, s, marks.seen, i) {
        var k :| 0 <= k < i && OpenAt(s, marks.seen, k) && Holds(m, -s.trail[k]);
        CountZero(s, marks.seen, i, k);
      } else if Satisfies(m, marks.clause) {
        var l :| l in marks.clause && Holds(m, l);
        assert l in marks.clause + [-uip];
      } else {
        assert -uip in marks.clause + [-uip];
      }
    }
  }

  lemma CountNat(s: State, seen: set<nat>, i: nat)
    requires i <= |s.trail|
    ensures CountOpen(s, seen, i) >= 0
  {
  }

  /** After a reason is resolved and the last open literal is taken. */
  lemma NextDerived(s: State, f: Formula, seen: set<nat>, clause: Clause, uip: int, reason: Clause, i: nat,
                    seen': set<nat>, clause': Clause, next: int, j: nat)
    requires ValidTrail(s, f) && j < i <= |s.trail| && Entails(f, reason)
    requires Analyzable(s, uip, reason, i) && Marked(s, uip, reason, seen') && Collected(s, seen', clause')
    requires seen <= seen' && forall l :: l in clause ==> l in clause'
    requires uip in reason ==> uip != 0 && forall m :: Models(m, f) ==> Resolvent(m, s, seen, clause, i, uip)
    requires next == s.trail[j] && forall k :: j < k < i ==> !OpenAt(s, seen', k)
    ensures forall m :: Models(m, f) ==> Resolvent(m, s, seen', clause', j, next)
  {
    hide ValidTrail;
    hide Analyzable;
    hide Marked;
    hide Collected;
    forall m | Models(m, f) ensures Resolvent(m, s, seen', clause', j, next) {
      assert Satisfies(m, reason);
      ResolveStep(m, s, f, reason, uip, i, seen, clause, seen', clause');
      if OpenHolds(m, s, seen', i) {
        var k :| 0 <= k < i && OpenAt(s, seen', k) && Holds(m, -s.trail[k]);
        assert k <= j;
      }
    }
  }

  lemma MarkCollected(s: State, seen: set<nat>, clause: Clause, lit: int)
    requires Placed(s) && Collected(s, seen, clause) && Abs(lit) !in seen && LevelOf(s, lit) > 0
    requires lit != 0 && -lit in s.trail
    ensures Collected(s, seen + {Abs(lit)}, if LevelOf(s, lit) < Level(s) then clause + [lit] else clause)
  {
    NegatedVar(s, lit);
    var clause' := if LevelOf(s, lit) < Level(s) then clause + [lit] else clause;
    forall t | t in s.trail && Abs(t) == Abs(lit) ensures t == -lit {
      SameVariable(s, t, -lit);
      SamePosition(s, t, -lit);
    }
    hide VarOf;
    hide Placed;
    assert lit !in clause;
    assert forall l :: l in clause' <==> l in clause || (l == lit && LevelOf(s, lit) < Level(s));
    hide Abs;
    assert NoDup(clause');
  }

  lemma SameVariable(s: State, a: int, b: int)
    requires Abs(a) == Abs(b)
    ensures VarOf(s, a) == VarOf(s, b)
  {
  }
}
