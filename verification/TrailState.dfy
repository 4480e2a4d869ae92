/** The assignment trail with decision levels and reasons.  With chronological
    backtracking the order on the trail and the order of levels differ. */
module TrailState {
  import opened Logic

  function Abs(l: int): nat {
    if l < 0 then -l else l
  }

  datatype Reason = NoReason | Because(clause: Clause)

  /** Assignment data of a variable. */
  datatype Var = Var(level: nat, trail: nat, reason: Reason)

  /** A frame of the control stack: the decision (zero for a pseudo decision of
      a satisfied assumption) and the height of the trail before it. */
  datatype Control = Control(decision: int, trail: nat)

  datatype State = State(trail: seq<int>, vtab: map<int, Var>, control: seq<Control>)

  function VarOf(s: State, l: int): Var {
    if Abs(l) in s.vtab then s.vtab[Abs(l)] else Var(0, 0, NoReason)
  }

  function LevelOf(s: State, l: int): nat { VarOf(s, l).level }

  function Pos(s: State, l: int): nat { VarOf(s, l).trail }

  function ReasonOf(s: State, l: int): Reason { VarOf(s, l).reason }

  /** The current decision level. */
  function Level(s: State): int { |s.control| - 1 }

  /** Literals know their position; so no variable is assigned twice. */
  ghost predicate Placed(s: State) {
    && (forall i {:trigger s.trail[i]} :: 0 <= i < |s.trail| ==> Pos(s, s.trail[i]) == i)
    && (forall l {:trigger l in s.trail} :: l in s.trail ==>
          l != 0 && Pos(s, l) < |s.trail| && s.trail[Pos(s, l)] == l && LevelOf(s, l) <= Level(s))
  }

  /** The trail positions recorded for the levels are in order, and literals
      before the position of a level are on lower levels. */
  ghost predicate Controlled(s: State) {
    && |s.control| > 0
    && s.control[0].trail == 0
    && (forall j, k :: 0 <= j < k < |s.control| ==> s.control[j].trail <= s.control[k].trail)
    && (forall k :: 0 <= k < |s.control| ==> s.control[k].trail <= |s.trail|)
    && (forall l, k {:trigger LevelOf(s, l), s.control[k]} ::
          l in s.trail && 1 <= k < |s.control| && Pos(s, l) < s.control[k].trail ==> LevelOf(s, l) < k)
  }

  /** `l` is the decision of its level. */
  ghost predicate IsDecision(s: State, l: int) {
    var k := LevelOf(s, l);
    && 1 <= k < |s.control|
    && s.control[k].decision == l && Pos(s, l) == s.control[k].trail
    && (forall j :: k < j < |s.control| ==> Pos(s, l) < s.control[j].trail)
  }

  /** A literal of a reason other than the implied one is false, assigned
      earlier, and not on a higher level. */
  ghost predicate Before(s: State, l: int, other: int) {
    other != 0 && -other in s.trail && Pos(s, other) < Pos(s, l) && LevelOf(s, other) <= LevelOf(s, l)
  }

  ghost predicate ReasonOk(s: State, f: Formula, l: int) {
    match ReasonOf(s, l)
    case NoReason => if LevelOf(s, l) == 0 then Entails(f, [l]) else IsDecision(s, l)
    case Because(c) =>
      && LevelOf(s, l) > 0 && l in c && Entails(f, c)
      && (forall other {:trigger Before(s, l, other)} {:trigger other in c} :: other in c && other != l ==> Before(s, l, other))
      && (exists other :: other in c && other != l && LevelOf(s, other) == LevelOf(s, l))
  }

  ghost predicate Reasoned(s: State, f: Formula) {
    forall l {:trigger ReasonOk(s, f, l)} :: l in s.trail ==> ReasonOk(s, f, l)
  }

  ghost predicate ValidTrail(s: State, f: Formula) {
    Placed(s) && Controlled(s) && Reasoned(s, f)
  }

  ghost predicate Falsified(s: State, c: Clause) {
    forall l :: l in c ==> l != 0 && -l in s.trail
  }

  /* ---- basic facts ---- */

  lemma Opposite(s: State, l: int)
    requires Placed(s) && l in s.trail
    ensures -l !in s.trail && LevelOf(s, -l) == LevelOf(s, l) && Pos(s, -l) == Pos(s, l)
  {
    assert Abs(-l) == Abs(l);
    assert forall i :: 0 <= i < |s.trail| && Pos(s, s.trail[i]) == Pos(s, l) ==> i == Pos(s, l);
    assert s.trail[Pos(s, l)] != -l;
  }

  /** Two assigned literals at one position are the same. */
  lemma SamePosition(s: State, a: int, b: int)
    requires Placed(s) && a in s.trail && b in s.trail && Pos(s, a) == Pos(s, b)
    ensures a == b
  {
  }

  /** Level-zero literals are entailed. */
  lemma RootEntailed(s: State, f: Formula, l: int)
    requires Reasoned(s, f) && l in s.trail && LevelOf(s, l) == 0
    ensures Entails(f, [l])
  {
    assert ReasonOk(s, f, l);
  }

  /** Everything before a decision is on lower levels. */
  lemma DecisionFirst(s: State, l: int, below: int)
    requires Controlled(s) && IsDecision(s, l) && below in s.trail && Pos(s, below) < Pos(s, l)
    ensures LevelOf(s, below) < LevelOf(s, l)
  {
    assert Pos(s, below) < s.control[LevelOf(s, l)].trail;
  }

  /** A literal that is assigned above the root and not first on its level was
      implied by a clause. */
  lemma HasReason(s: State, f: Formula, l: int, below: int)
    requires ValidTrail(s, f) && l in s.trail && below in s.trail
    requires LevelOf(s, below) == LevelOf(s, l) > 0 && Pos(s, below) < Pos(s, l)
    ensures ReasonOf(s, l).Because?
  {
    assert ReasonOk(s, f, l);
    if IsDecision(s, l) {
      DecisionFirst(s, l, below);
    }
  }

  /* ---- assigning ---- */

  /** The level at which a literal is assigned. */
  function MaxLevel(s: State, c: Clause, lit: int): nat {
    if c == [] then 0
    else
      var rest := MaxLevel(s, c[..|c| - 1], lit);
      var other := c[|c| - 1];
      if other != lit && LevelOf(s, other) > rest then LevelOf(s, other) else rest
  }

  lemma {:induction false} MaxLevelBounds(s: State, c: Clause, lit: int)
    ensures forall other :: other in c && other != lit ==> LevelOf(s, other) <= MaxLevel(s, c, lit)
    ensures MaxLevel(s, c, lit) > 0 ==> exists other :: other in c && other != lit && LevelOf(s, other) == MaxLevel(s, c, lit)
  {
    if c != [] {
      MaxLevelBounds(s, c[..|c| - 1], lit);
      assert c == c[..|c| - 1] + [c[|c| - 1]];
    }
  }

  function Assigned(s: State, lit: int, level: nat, reason: Reason): State {
    State(s.trail + [lit], s.vtab[Abs(lit) := Var(level, |s.trail|, reason)], s.control)
  }

  ghost predicate Unassigned(s: State, l: int) {
    l != 0 && l !in s.trail && -l !in s.trail
  }

  /** Other variables keep their data. */
  lemma AssignedFrame(s: State, lit: int, level: nat, reason: Reason)
    requires Placed(s) && Unassigned(s, lit)
    ensures var s' := Assigned(s, lit, level, reason);
            && (forall l :: l in s'.trail <==> l in s.trail || l == lit)
            && VarOf(s', lit) == Var(level, |s.trail|, reason)
            && (forall l :: l in s.trail || -l in s.trail ==> VarOf(s', l) == VarOf(s, l))
  {
    AppendedMembers(s.trail, lit);
    OtherVars(s, lit, level, reason);
    hide VarOf;
  }

  lemma OtherVars(s: State, lit: int, level: nat, reason: Reason)
    ensures VarOf(Assigned(s, lit, level, reason), lit) == Var(level, |s.trail|, reason)
    ensures forall l {:trigger VarOf(Assigned(s, lit, level, reason), l)} ::
      l != lit && l != -lit ==> VarOf(Assigned(s, lit, level, reason), l) == VarOf(s, l)
  {
  }

  lemma AppendedMembers(trail: seq<int>, lit: int)
    ensures forall l :: l in trail + [lit] <==> l in trail || l == lit
  {
  }

  /** What the assignment of `lit` on `level` for `reason` demands. */
  ghost predicate Assignable(s: State, f: Formula, lit: int, level: nat, reason: Reason) {
    && Unassigned(s, lit) && level <= Level(s)
    && match reason
       case NoReason => level == 0 && Entails(f, [lit])
       case Because(c) =>
         && level > 0 && lit in c && Entails(f, c)
         && (forall other :: other in c && other != lit ==> other != 0 && -other in s.trail && LevelOf(s, other) <= level)
         && (exists other :: other in c && other != lit && LevelOf(s, other) == level)
  }

  lemma AssignPlaced(s: State, lit: int, level: nat, reason: Reason)
    requires Placed(s) && Controlled(s) && Unassigned(s, lit) && level <= Level(s)
    ensures Placed(Assigned(s, lit, level, reason)) && Controlled(Assigned(s, lit, level, reason))
  {
    AssignedFrame(s, lit, level, reason);
    var s' := Assigned(s, lit, level, reason);
    hide VarOf;
    forall l | l in s'.trail
      ensures l != 0 && Pos(s', l) < |s'.trail| && s'.trail[Pos(s', l)] == l && LevelOf(s', l) <= Level(s')
    {
      if l != lit {
        assert l in s.trail && s.trail[Pos(s, l)] == l;
      }
    }
  }

  lemma AssignKeepsReason(s: State, f: Formula, lit: int, level: nat, reason: Reason, l: int)
    requires Placed(s) && Unassigned(s, lit) && l in s.trail && ReasonOk(s, f, l)
    ensures ReasonOk(Assigned(s, lit, level, reason), f, l)
  {
    AssignedFrame(s, lit, level, reason);
    var s' := Assigned(s, lit, level, reason);
    hide VarOf;
    hide Entails;
    assert VarOf(s', l) == VarOf(s, l);
    if ReasonOf(s, l).Because? {
      var c := ReasonOf(s, l).clause;
      forall other | other in c && other != l ensures Before(s', l, other) && LevelOf(s', other) == LevelOf(s, other) {
        assert Before(s, l, other);
        assert VarOf(s', other) == VarOf(s, other);
      }
    }
  }

  lemma AssignKeeps(s: State, f: Formula, lit: int, level: nat, reason: Reason)
    requires ValidTrail(s, f) && Assignable(s, f, lit, level, reason)
    ensures ValidTrail(Assigned(s, lit, level, reason), f)
  {
    AssignPlaced(s, lit, level, reason);
    AssignedFrame(s, lit, level, reason);
    var s' := Assigned(s, lit, level, reason);
    forall l | l in s'.trail ensures ReasonOk(s', f, l) {
      if l == lit {
        AssignNewReason(s, f, lit, level, reason);
      } else {
        assert ReasonOk(s, f, l);
        AssignKeepsReason(s, f, lit, level, reason, l);
      }
    }
  }

  lemma AssignNewReason(s: State, f: Formula, lit: int, level: nat, reason: Reason)
    requires Placed(s) && Assignable(s, f, lit, level, reason)
    ensures ReasonOk(Assigned(s, lit, level, reason), f, lit)
  {
    AssignedFrame(s, lit, level, reason);
    var s' := Assigned(s, lit, level, reason);
    hide VarOf;
    hide Entails;
    if reason.Because? {
      forall other | other in reason.clause && other != lit
        ensures Before(s', lit, other) && LevelOf(s', other) == LevelOf(s, other)
      {
        Opposite(s, -other);
        assert VarOf(s', other) == VarOf(s, other);
      }
    }
  }

  /* ---- deciding ---- */

  /** A new level, with or without a decision. */
  function Opened(s: State, decision: int): State {
    s.(control := s.control + [Control(decision, |s.trail|)])
  }

  lemma OpenKeeps(s: State, f: Formula, decision: int)
    requires ValidTrail(s, f)
    ensures ValidTrail(Opened(s, decision), f)
    ensures forall l :: l in s.trail ==> LevelOf(s, l) < Level(Opened(s, decision))
    ensures Level(Opened(s, decision)) == Level(s) + 1
    ensures forall l :: Unassigned(s, l) ==> Unassigned(Opened(s, decision), l)
  {
    var s' := Opened(s, decision);
    assert forall l :: VarOf(s', l) == VarOf(s, l);
    hide VarOf;
    hide Entails;
    forall l | l in s'.trail ensures ReasonOk(s', f, l) {
      assert ReasonOk(s, f, l);
      if ReasonOf(s, l).Because? {
        var c := ReasonOf(s, l).clause;
        forall other | other in c && other != l ensures Before(s', l, other) {
          assert Before(s, l, other);
        }
      }
    }
  }

  lemma LevelNat(s: State)
    requires Controlled(s)
    ensures Level(s) >= 0
  {
  }

  lemma DecisionReason(s: State, f: Formula, lit: int)
    requires Level(s) >= 0 && Placed(Opened(s, lit)) && Unassigned(Opened(s, lit), lit)
    ensures ReasonOk(Assigned(Opened(s, lit), lit, Level(s) + 1, NoReason), f, lit)
  {
    AssignedFrame(Opened(s, lit), lit, Level(s) + 1, NoReason);
    hide Placed;
    hide Entails;
    assert IsDecision(Assigned(Opened(s, lit), lit, Level(s) + 1, NoReason), lit);
  }

  lemma OpenedUnassigned(s: State, lit: int)
    requires Unassigned(s, lit)
    ensures Unassigned(Opened(s, lit), lit)
  {
  }

  /** A decision is on its own level and first on it. */
  lemma DecisionPlaced(s: State, lit: int)
    ensures var t := Assigned(Opened(s, lit), lit, Level(s) + 1, NoReason);
            LevelOf(t, lit) == Level(s) + 1 && (|s.control| > 0 ==> IsDecision(t, lit))
  {
  }

  lemma DecideKeeps(s: State, f: Formula, lit: int)
    requires ValidTrail(s, f) && Unassigned(s, lit)
    ensures ValidTrail(Assigned(Opened(s, lit), lit, Level(s) + 1, NoReason), f)
  {
    hide Placed, Controlled, ReasonOk, VarOf, Entails, Assigned, Unassigned, Opened;
    LevelNat(s);
    OpenKeeps(s, f, lit);
    var o := Opened(s, lit);
    var s' := Assigned(o, lit, Level(s) + 1, NoReason);
    AssignPlaced(o, lit, Level(s) + 1, NoReason);
    AssignedFrame(o, lit, Level(s) + 1, NoReason);
    DecisionReason(s, f, lit);
    forall l | l in s'.trail ensures ReasonOk(s', f, l) {
      if l != lit {
        assert ReasonOk(o, f, l);
        AssignKeepsReason(o, f, lit, Level(s) + 1, NoReason, l);
      }
    }
  }

  /* ---- backtracking ---- */

  /** The literals on levels up to `n`, in order. */
  ghost function Keep(s: State, t: seq<int>, n: nat): seq<int> {
    if t == [] then []
    else
      var last := t[|t| - 1];
      Keep(s, t[..|t| - 1], n) + if LevelOf(s, last) <= n then [last] else []
  }

  lemma {:induction false} KeepMembers(s: State, t: seq<int>, n: nat)
    ensures |Keep(s, t, n)| <= |t|
    ensures forall l :: l in Keep(s, t, n) <==> l in t && LevelOf(s, l) <= n
  {
    if t != [] {
      KeepMembers(s, t[..|t| - 1], n);
      assert t == t[..|t| - 1] + [t[|t| - 1]];
    }
  }

  lemma {:induction false} KeepAll(s: State, t: seq<int>, n: nat)
    requires forall l :: l in t ==> LevelOf(s, l) <= n
    ensures Keep(s, t, n) == t
  {
    if t != [] {
      KeepAll(s, t[..|t| - 1], n);
      assert t == t[..|t| - 1] + [t[|t| - 1]];
    }
  }

  /** A longer sequence keeps what a prefix keeps. */
  lemma {:induction false} KeepPrefix(s: State, t: seq<int>, k: nat, n: nat)
    requires k <= |t|
    ensures Keep(s, t[..k], n) <= Keep(s, t, n)
  {
    if k == |t| {
      assert t[..k] == t;
    } else {
      assert t[..|t| - 1][..k] == t[..k];
      KeepPrefix(s, t[..|t| - 1], k, n);
    }
  }

  /** `s'` is `s` after backtracking to level `n`. */
  ghost predicate BacktrackedTo(s: State, s': State, n: nat) {
    && n < |s.control| && s'.control == s.control[..n + 1]
    && s'.trail == Keep(s, s.trail, n)
    && (forall k {:trigger s'.trail[k]} :: 0 <= k < |s'.trail| ==>
          VarOf(s', s'.trail[k]) == VarOf(s, s'.trail[k]).(trail := k))
  }

  /** Literals on the trail of `s'` have level and reason from `s`. */
  ghost predicate SameData(s: State, s': State) {
    forall l :: l in s'.trail ==> LevelOf(s', l) == LevelOf(s, l) && ReasonOf(s', l) == ReasonOf(s, l)
  }

  /** Kept literals keep level and reason. */
  lemma BacktrackKept(s: State, s': State, n: nat)
    requires BacktrackedTo(s, s', n)
    ensures forall l :: l in s'.trail <==> l in s.trail && LevelOf(s, l) <= n
    ensures forall l :: l in s'.trail ==> LevelOf(s', l) == LevelOf(s, l) && ReasonOf(s', l) == ReasonOf(s, l)
    ensures forall l :: l in s'.trail ==> Pos(s', l) < |s'.trail| && s'.trail[Pos(s', l)] == l
    ensures forall k :: 0 <= k < |s'.trail| ==> Pos(s', s'.trail[k]) == k
  {
    KeepMembers(s, s.trail, n);
    hide Keep;
    hide VarOf;
    forall l | l in s'.trail
      ensures LevelOf(s', l) == LevelOf(s, l) && ReasonOf(s', l) == ReasonOf(s, l)
      ensures Pos(s', l) < |s'.trail| && s'.trail[Pos(s', l)] == l
    {
      var k :| 0 <= k < |s'.trail| && s'.trail[k] == l;
    }
  }

  /** Literals before the position of level `n + 1` do not move. */
  lemma BacktrackPrefix(s: State, s': State, n: nat)
    requires Placed(s) && Controlled(s) && BacktrackedTo(s, s', n) && n + 1 < |s.control|
    ensures var p := s.control[n + 1].trail; p <= |s'.trail| && s'.trail[..p] == s.trail[..p]
  {
    hide VarOf;
    var p := s.control[n + 1].trail;
    BelowKept(s, n, p);
    KeepPrefix(s, s.trail, p, n);
    assert s.trail[..p] <= s'.trail;
  }

  /** Kept literals keep their relative order. */
  lemma {:induction false} KeepOrder(s: State, t: seq<int>, n: nat, i: nat, j: nat)
    requires i < j < |t| && LevelOf(s, t[i]) <= n && LevelOf(s, t[j]) <= n
    ensures exists i', j' :: 0 <= i' < j' < |Keep(s, t, n)| && Keep(s, t, n)[i'] == t[i] && Keep(s, t, n)[j'] == t[j]
  {
    var m := |t| - 1;
    var rest := Keep(s, t[..m], n);
    if j < m {
      KeepOrder(s, t[..m], n, i, j);
      var i', j' :| 0 <= i' < j' < |rest| && rest[i'] == t[i] && rest[j'] == t[j];
      assert Keep(s, t, n)[i'] == t[i] && Keep(s, t, n)[j'] == t[j];
    } else {
      KeepMembers(s, t[..m], n);
      assert t[i] == t[..m][i] && t[i] in rest;
      var i' :| 0 <= i' < |rest| && rest[i'] == t[i];
      assert Keep(s, t, n)[i'] == t[i] && Keep(s, t, n)[|rest|] == t[j];
    }
  }

  lemma BacktrackOrder(s: State, s': State, n: nat, a: int, b: int)
    requires Placed(s) && BacktrackedTo(s, s', n) && a in s'.trail && b in s'.trail && Pos(s, a) < Pos(s, b)
    ensures Pos(s', a) < Pos(s', b)
  {
    BacktrackKept(s, s', n);
    KeepOrder(s, s.trail, n, Pos(s, a), Pos(s, b));
  }

  lemma BacktrackReason(s: State, s': State, f: Formula, n: nat, l: int)
    requires Placed(s) && Controlled(s) && BacktrackedTo(s, s', n) && n + 1 < |s.control|
    requires l in s'.trail && ReasonOk(s, f, l)
    ensures ReasonOk(s', f, l)
  {
    BacktrackKept(s, s', n);
    BacktrackPrefix(s, s', n);
    match ReasonOf(s, l)
    case NoReason =>
      if LevelOf(s, l) > 0 {
        var p := s.control[n + 1].trail;
        assert Pos(s, l) < p && s'.trail[..p][Pos(s, l)] == l;
      }
    case Because(c) =>
      hide VarOf;
      hide Entails;
      forall other | other in c && other != l ensures Before(s', l, other) && LevelOf(s', other) == LevelOf(s, other) {
        assert Before(s, l, other);
        BacktrackOther(s, s', n, l, other);
      }
  }

  lemma BacktrackOther(s: State, s': State, n: nat, l: int, other: int)
    requires Placed(s) && BacktrackedTo(s, s', n) && l in s'.trail && Before(s, l, other)
    ensures Before(s', l, other) && LevelOf(s', other) == LevelOf(s, other)
  {
    BacktrackKept(s, s', n);
    assert Abs(-other) == Abs(other);
    assert VarOf(s, -other) == VarOf(s, other) && VarOf(s', -other) == VarOf(s', other);
    BacktrackOrder(s, s', n, -other, l);
  }

  lemma BacktrackControlled(s: State, s': State, n: nat)
    requires Placed(s) && Controlled(s) && BacktrackedTo(s, s', n) && n + 1 < |s.control|
    ensures Placed(s') && Controlled(s')
  {
    BacktrackKept(s, s', n);
    BacktrackPrefix(s, s', n);
    hide VarOf;
    hide Keep;
    var p := s.control[n + 1].trail;
    forall l, k | l in s'.trail && 1 <= k < |s'.control| && Pos(s', l) < s'.control[k].trail
      ensures LevelOf(s', l) < k
    {
      var i := Pos(s', l);
      assert i < p && s'.trail[..p][i] == s.trail[..p][i] == l;
      assert Pos(s, l) == i;
    }
  }

  lemma BacktrackKeeps(s: State, s': State, f: Formula, n: nat)
    requires ValidTrail(s, f) && BacktrackedTo(s, s', n) && n + 1 < |s.control|
    ensures ValidTrail(s', f)
  {
    BacktrackControlled(s, s', n);
    BacktrackKept(s, s', n);
    forall l | l in s'.trail ensures ReasonOk(s', f, l) {
      assert ReasonOk(s, f, l);
      BacktrackReason(s, s', f, n, l);
    }
  }

  /** Everything before the position of level `n + 1` is kept. */
  lemma BelowKept(s: State, n: nat, p: nat)
    requires Placed(s) && Controlled(s) && n + 1 < |s.control| && p == s.control[n + 1].trail
    ensures Keep(s, s.trail[..p], n) == s.trail[..p]
  {
    hide VarOf;
    forall l | l in s.trail[..p] ensures LevelOf(s, l) <= n {
      var i :| 0 <= i < p && s.trail[i] == l;
      assert l in s.trail && Pos(s, l) == i;
    }
    KeepAll(s, s.trail[..p], n);
  }

  lemma KeepNext(s: State, n: nat, i: nat)
    requires i < |s.trail|
    ensures var kept := Keep(s, s.trail[..i], n);
            Keep(s, s.trail[..i + 1], n) == if LevelOf(s, s.trail[i]) <= n then kept + [s.trail[i]] else kept
  {
    assert s.trail[..i + 1][..i] == s.trail[..i];
  }

  /** What is kept before position `i` concerns other variables. */
  lemma OtherVariables(s: State, n: nat, i: nat)
    requires Placed(s) && i < |s.trail|
    ensures forall l :: l in Keep(s, s.trail[..i], n) ==> Abs(l) != Abs(s.trail[i])
    ensures forall k :: i < k < |s.trail| ==> Abs(s.trail[k]) != Abs(s.trail[i])
  {
    KeepMembers(s, s.trail[..i], n);
    forall l | l in Keep(s, s.trail[..i], n) ensures Abs(l) != Abs(s.trail[i]) {
      var k :| 0 <= k < i && s.trail[..i][k] == l;
      assert Pos(s, s.trail[k]) == k && Pos(s, s.trail[i]) == i;
    }
  }
}
