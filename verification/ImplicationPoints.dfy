/** Unique implication points: literals of the conflict level on every path of
    implications from the conflict back to the decision.  Resolution stops at
    the first one. */
module ImplicationPoints {
  import opened Logic
  import opened TrailState
  import opened ConflictResolution

  /* ---- paths ---- */

  /** Assigned on the conflict level. */
  ghost predicate OnLevel(s: State, t: int) {
    t in s.trail && LevelOf(s, t) == Level(s)
  }

  /** `b` is false in the reason of `a`. */
  ghost predicate Step(s: State, a: int, b: int) {
    OnLevel(s, b) && b != a && ReasonOf(s, a).Because? && -b in ReasonOf(s, a).clause
  }

  ghost predicate Path(s: State, p: seq<int>)
    decreases |p|
  {
    |p| > 0 && OnLevel(s, p[0]) && (|p| > 1 ==> Step(s, p[0], p[1]) && Path(s, p[1..]))
  }

  /** A path from a literal false in the conflict to `t`. */
  ghost predicate PathTo(s: State, conflict: Clause, p: seq<int>, t: int) {
    Path(s, p) && -p[0] in conflict && p[|p| - 1] == t
  }

  /** A path from the conflict to a literal without reason. */
  ghost predicate ConflictPath(s: State, conflict: Clause, p: seq<int>) {
    Path(s, p) && -p[0] in conflict && ReasonOf(s, p[|p| - 1]).NoReason?
  }

  /** All paths from the conflict back to the decision go through the literal. */
  ghost predicate ImplicationPoint(s: State, conflict: Clause, u: int) {
    OnLevel(s, u) && forall p :: ConflictPath(s, conflict, p) ==> u in p
  }

  /** Of the implication points, `u` comes last on the trail, that is, first
      from the conflict; auxiliary ones are passed over, except for one
      without reason. */
  ghost predicate FirstPoint(s: State, conflict: Clause, aux: set<nat>, u: int) {
    && ImplicationPoint(s, conflict, u) && (Abs(u) in aux ==> ReasonOf(s, u).NoReason?)
    && PassedOver(s, conflict, aux, Pos(s, u) + 1)
  }

  /** No other literal from position `i` on is an implication point. */
  ghost predicate PassedOver(s: State, conflict: Clause, aux: set<nat>, i: nat) {
    forall x {:trigger ImplicationPoint(s, conflict, x)} :: x in s.trail && Pos(s, x) >= i && Abs(x) !in aux ==>
      !ImplicationPoint(s, conflict, x)
  }

  /** A literal implied on the conflict level after `uip`, on a path from the
      conflict: its reason is resolved with. */
  ghost predicate ResolvedAway(s: State, conflict: Clause, uip: int, r: int) {
    && OnLevel(s, r) && Pos(s, r) > Pos(s, uip) && ReasonOf(s, r).Because?
    && exists p :: PathTo(s, conflict, p, r)
  }

  /** A literal false on a lower level other than the root, in the conflict or
      in a reason that is resolved with. */
  ghost predicate UipLiteral(s: State, conflict: Clause, uip: int, l: int) {
    && -l in s.trail && 0 < LevelOf(s, l) < Level(s)
    && (l in conflict || exists r :: ResolvedAway(s, conflict, uip, r) && l in ReasonOf(s, r).clause)
  }

  /** The literals of lower levels in the clause of an implication point. */
  ghost predicate UipLiterals(s: State, conflict: Clause, uip: int, c: Clause) {
    forall l {:trigger l in c} {:trigger UipLiteral(s, conflict, uip, l)} :: l in c <==> UipLiteral(s, conflict, uip, l)
  }

  lemma {:induction false} PathAppend(s: State, p: seq<int>, t: int)
    requires Path(s, p) && Step(s, p[|p| - 1], t)
    ensures Path(s, p + [t])
    decreases |p|
  {
    assert Path(s, [t]);
    if |p| > 1 {
      PathAppend(s, p[1..], t);
      assert (p + [t])[1..] == p[1..] + [t];
    } else {
      assert (p + [t])[1..] == [t];
    }
  }

  lemma {:induction false} PathJoin(s: State, p: seq<int>, q: seq<int>)
    requires Path(s, p) && Path(s, q) && p[|p| - 1] == q[0]
    ensures Path(s, p + q[1..]) && (p + q[1..])[|p + q[1..]| - 1] == q[|q| - 1]
    decreases |p|
  {
    if |p| > 1 {
      PathJoin(s, p[1..], q);
      assert (p + q[1..])[1..] == p[1..] + q[1..];
    } else {
      assert p + q[1..] == q;
    }
  }

  /** A step goes to an earlier literal. */
  lemma StepEarlier(s: State, f: Formula, a: int, b: int)
    requires ValidTrail(s, f) && a in s.trail && Step(s, a, b)
    ensures Pos(s, b) < Pos(s, a)
  {
    assert ReasonOk(s, f, a);
    Opposite(s, b);
    assert Before(s, a, -b);
  }

  ghost predicate NotAfter(s: State, p: seq<int>, n: nat) {
    forall x :: x in p ==> Pos(s, x) <= n
  }

  /** From every literal of the level a path leads back to its decision. */
  lemma {:induction false} DownPath(s: State, f: Formula, t: int) returns (p: seq<int>)
    requires ValidTrail(s, f) && Level(s) > 0 && OnLevel(s, t)
    ensures Path(s, p) && p[0] == t && ReasonOf(s, p[|p| - 1]).NoReason? && NotAfter(s, p, Pos(s, t))
    decreases Pos(s, t)
  {
    assert ReasonOk(s, f, t);
    if ReasonOf(s, t).NoReason? {
      p := [t];
    } else {
      var c := ReasonOf(s, t).clause;
      var other :| other in c && other != t && LevelOf(s, other) == LevelOf(s, t);
      assert Before(s, t, other);
      NegatedVar(s, other);
      assert -(-other) in c;
      var rest := DownPath(s, f, -other);
      p := [t] + rest;
      assert p[1..] == rest;
    }
  }

  /* ---- where seen literals come from ---- */

  /** The literal is false in the reason of a seen literal `r` above position
      `b`, which is on the conflict level. */
  ghost predicate FromOpen(s: State, seen: set<nat>, b: nat, t: int, r: int) {
    && r in s.trail && Abs(r) in seen && LevelOf(s, r) == Level(s) && Pos(s, r) >= b
    && r != t && ReasonOf(s, r).Because? && -t in ReasonOf(s, r).clause
  }

  /** Every seen literal is false in the conflict or in a resolved reason. */
  ghost predicate OpenOrigin(s: State, conflict: Clause, seen: set<nat>, b: nat) {
    forall t {:trigger t in s.trail} :: t in s.trail && Abs(t) in seen ==>
      -t in conflict || exists r :: FromOpen(s, seen, b, t, r)
  }

  lemma OpenOriginMonotone(s: State, conflict: Clause, seen: set<nat>, b: nat, b': nat)
    requires OpenOrigin(s, conflict, seen, b) && b' <= b
    ensures OpenOrigin(s, conflict, seen, b')
  {
    forall t | t in s.trail && Abs(t) in seen ensures -t in conflict || exists r :: FromOpen(s, seen, b', t, r) {
      if -t !in conflict {
        var r :| FromOpen(s, seen, b, t, r);
        assert FromOpen(s, seen, b', t, r);
      }
    }
  }

  /** What is marked anew is a literal of the reason. */
  lemma {:induction false} MarkedFrom(s: State, marks: Marks, lit: int, reason: Clause, v: nat)
    ensures v in MarkReason(s, marks, lit, reason).seen && v !in marks.seen ==>
              exists other :: other in reason && other != lit && Abs(other) == v
  {
    if reason != [] {
      var rest, other := reason[..|reason| - 1], reason[|reason| - 1];
      assert reason == rest + [other] && other in reason && forall o :: o in rest ==> o in reason;
      MarkedFrom(s, marks, lit, rest, v);
    }
  }

  /** The literal on the trail over the variable of a false one. */
  lemma FalseLiteral(s: State, other: int, t: int)
    requires Placed(s) && -other in s.trail && t in s.trail && Abs(other) == Abs(t)
    ensures t == -other
  {
    NegatedVar(s, other);
    SameVariable(s, t, -other);
    SamePosition(s, t, -other);
  }

  /** What the next round analyzes. */
  ghost predicate Analyzed(s: State, conflict: Clause, marks: Marks, i: nat, uip: int, reason: Clause) {
    || (uip == 0 && reason == conflict)
    || (uip in s.trail && Pos(s, uip) == i && LevelOf(s, uip) == Level(s) && Abs(uip) in marks.seen
        && ReasonOf(s, uip) == Because(reason))
  }

  lemma MarkedOrigin(s: State, f: Formula, conflict: Clause, marks: Marks, i: nat, uip: int, reason: Clause)
    requires Head(s, f, marks, i, uip, reason) && Analyzed(s, conflict, marks, i, uip, reason)
    requires OpenOrigin(s, conflict, marks.seen, i)
    ensures OpenOrigin(s, conflict, MarkReason(s, marks, uip, reason).seen, i)
  {
    var m := MarkReason(s, marks, uip, reason);
    MarkReasonGrows(s, marks, uip, reason);
    hide MarkReason;
    forall t | t in s.trail && Abs(t) in m.seen ensures -t in conflict || exists r :: FromOpen(s, m.seen, i, t, r) {
      if Abs(t) in marks.seen {
        if -t !in conflict {
          var r :| FromOpen(s, marks.seen, i, t, r);
          assert FromOpen(s, m.seen, i, t, r);
        }
      } else {
        MarkedFrom(s, marks, uip, reason, Abs(t));
        var other :| other in reason && other != uip && Abs(other) == Abs(t);
        FalseLiteral(s, other, t);
        assert uip != 0 ==> FromOpen(s, m.seen, i, t, uip);
      }
    }
  }

  /** One round keeps track of where seen literals come from. */
  lemma RoundOrigin(s: State, f: Formula, conflict: Clause, marks: Marks, i: nat, uip: int, reason: Clause)
    requires Head(s, f, marks, i, uip, reason) && Analyzed(s, conflict, marks, i, uip, reason)
    requires OpenOrigin(s, conflict, marks.seen, i)
    ensures var m := NextMarks(s, marks, uip, reason);
            var k := LastOpen(s, m.seen, i);
            && 0 <= k < i && s.trail[k] in s.trail && Pos(s, s.trail[k]) == k
            && OpenOrigin(s, conflict, m.seen, k + 1) && OpenOrigin(s, conflict, m.seen, k)
            && (ReasonOf(s, s.trail[k]).Because? ==>
                  Head(s, f, m, k, s.trail[k], ReasonOf(s, s.trail[k]).clause)
                  && Analyzed(s, conflict, m, k, s.trail[k], ReasonOf(s, s.trail[k]).clause))
  {
    Round(s, f, marks, i, uip, reason);
    MarkedOrigin(s, f, conflict, marks, i, uip, reason);
    var m := NextMarks(s, marks, uip, reason);
    var k := LastOpen(s, m.seen, i);
    HeadPlaced(s, f, marks, i, uip, reason, k);
    hide Placed, TrackedUp, ValidTrail, OpenOrigin, Derived, MarkReason, Analyzable;
    NextHead(s, f, m, k);
    hide Head;
    OpenOriginMonotone(s, conflict, m.seen, i, k + 1);
    OpenOriginMonotone(s, conflict, m.seen, k + 1, k);
  }

  lemma HeadPlaced(s: State, f: Formula, marks: Marks, i: nat, uip: int, reason: Clause, k: nat)
    requires Head(s, f, marks, i, uip, reason) && k < |s.trail|
    ensures ValidTrail(s, f) && Level(s) > 0 && Pos(s, s.trail[k]) == k
  {
  }

  lemma HeadBound(s: State, f: Formula, marks: Marks, i: nat, uip: int, reason: Clause)
    requires Head(s, f, marks, i, uip, reason)
    ensures i <= |s.trail|
  {
  }

  lemma UipLoopStep(s: State, aux: set<nat>, marks: Marks, i: nat, uip: int, reason: Clause)
    requires i <= |s.trail|
    ensures var m := NextMarks(s, marks, uip, reason);
            var k := LastOpen(s, m.seen, i);
            0 <= k < i ==>
              UipLoop(s, aux, marks, i, uip, reason) ==
              if ReasonOf(s, s.trail[k]).Because? && !(m.open == 0 && Abs(s.trail[k]) !in aux)
              then UipLoop(s, aux, m, k, s.trail[k], ReasonOf(s, s.trail[k]).clause)
              else (m, s.trail[k])
  {
    hide NextMarks, LastOpen, ReasonOf, Abs;
  }

  /** The loop keeps track of where seen literals come from. */
  lemma {:induction false} UipLoopOrigin(s: State, f: Formula, conflict: Clause, aux: set<nat>, marks: Marks, i: nat,
                                         uip: int, reason: Clause)
    requires Head(s, f, marks, i, uip, reason) && Analyzed(s, conflict, marks, i, uip, reason)
    requires OpenOrigin(s, conflict, marks.seen, i)
    ensures var r := UipLoop(s, aux, marks, i, uip, reason);
            r.1 in s.trail && OpenOrigin(s, conflict, r.0.seen, Pos(s, r.1) + 1)
    decreases i
  {
    hide *;
    HeadBound(s, f, marks, i, uip, reason);
    RoundOrigin(s, f, conflict, marks, i, uip, reason);
    UipLoopStep(s, aux, marks, i, uip, reason);
    var m := NextMarks(s, marks, uip, reason);
    var k := LastOpen(s, m.seen, i);
    var next := s.trail[k];
    if ReasonOf(s, next).Because? && !(m.open == 0 && Abs(next) !in aux) {
      UipLoopOrigin(s, f, conflict, aux, m, k, next, ReasonOf(s, next).clause);
    }
  }

  /* ---- paths over seen literals ---- */

  /** A seen literal of the level is on a path from the conflict whose other
      literals come at `b` or later. */
  lemma {:induction false} UpPath(s: State, f: Formula, conflict: Clause, seen: set<nat>, b: nat, t: int) returns (p: seq<int>)
    requires ValidTrail(s, f) && OpenOrigin(s, conflict, seen, b) && OnLevel(s, t) && Abs(t) in seen
    ensures PathTo(s, conflict, p, t) && forall x :: x in p && x != t ==> Pos(s, x) >= b
    decreases |s.trail| - Pos(s, t)
  {
    if -t in conflict {
      p := [t];
    } else {
      var r :| FromOpen(s, seen, b, t, r);
      StepEarlier(s, f, r, t);
      hide ValidTrail, OpenOrigin;
      var rest := UpPath(s, f, conflict, seen, b, r);
      PathAppend(s, rest, t);
      p := rest + [t];
    }
  }

  /** A literal after `t` and before the literals resolved with is avoided by a
      path through `t`. */
  lemma Avoided(s: State, f: Formula, conflict: Clause, seen: set<nat>, b: nat, t: int, x: int)
    requires ValidTrail(s, f) && Level(s) > 0 && OpenOrigin(s, conflict, seen, b) && OnLevel(s, t) && Abs(t) in seen
    requires Pos(s, t) < Pos(s, x) < b
    ensures !ImplicationPoint(s, conflict, x)
  {
    var up := UpPath(s, f, conflict, seen, b, t);
    var down := DownPath(s, f, t);
    PathJoin(s, up, down);
    var p := up + down[1..];
    hide Pos, Path;
    assert x !in up && x !in down;
    assert p[0] == up[0] && ConflictPath(s, conflict, p);
  }

  /** The conflict and the reasons of seen literals of the level at `b` or
      later have been marked. */
  ghost predicate SeenClosed(s: State, conflict: Clause, seen: set<nat>, b: nat) {
    && Marked(s, 0, conflict, seen)
    && forall r {:trigger OnLevel(s, r)} :: OnLevel(s, r) && Abs(r) in seen && Pos(s, r) >= b && ReasonOf(s, r).Because? ==>
         Marked(s, r, ReasonOf(s, r).clause, seen)
  }

  /** A path that starts above the only open literal goes through it. */
  lemma {:induction false} PathHits(s: State, f: Formula, conflict: Clause, seen: set<nat>, k: nat, p: seq<int>)
    requires ValidTrail(s, f) && Level(s) > 0 && k < |s.trail| && OnLevel(s, s.trail[k])
    requires SeenClosed(s, conflict, seen, k + 1) && CountOpen(s, seen, k) == 0
    requires Path(s, p) && Abs(p[0]) in seen && ReasonOf(s, p[|p| - 1]).NoReason?
    ensures s.trail[k] in p
    decreases |p|
  {
    var a := p[0];
    assert s.trail[Pos(s, a)] == a;
    if Pos(s, a) < k {
      CountZero(s, seen, k, Pos(s, a));
    } else if Pos(s, a) > k {
      HasReason(s, f, a, s.trail[k]);
      assert Marked(s, a, ReasonOf(s, a).clause, seen);
      NegatedVar(s, p[1]);
      Opposite(s, p[1]);
      PathHits(s, f, conflict, seen, k, p[1..]);
    }
  }

  lemma OnlyOpenPoint(s: State, f: Formula, conflict: Clause, seen: set<nat>, k: nat)
    requires ValidTrail(s, f) && Level(s) > 0 && k < |s.trail| && OnLevel(s, s.trail[k]) && 0 !in conflict
    requires SeenClosed(s, conflict, seen, k + 1) && CountOpen(s, seen, k) == 0
    ensures ImplicationPoint(s, conflict, s.trail[k])
  {
    forall p | ConflictPath(s, conflict, p) ensures s.trail[k] in p {
      NegatedVar(s, p[0]);
      PathHits(s, f, conflict, seen, k, p);
    }
  }

  /* ---- the loop stops at the first one ---- */

  /** Before the reason of `uip` at position `i` is marked, or the conflict. */
  ghost predicate ClosedAbove(s: State, conflict: Clause, seen: set<nat>, i: nat, uip: int) {
    if uip == 0 then seen == {} else SeenClosed(s, conflict, seen, i + 1)
  }

  lemma MarkedMonotone(s: State, lit: int, c: Clause, a: set<nat>, b: set<nat>)
    requires Marked(s, lit, c, a) && a <= b
    ensures Marked(s, lit, c, b)
  {
  }

  lemma MarkedClosed(s: State, f: Formula, conflict: Clause, marks: Marks, i: nat, uip: int, reason: Clause)
    requires Head(s, f, marks, i, uip, reason) && Analyzed(s, conflict, marks, i, uip, reason)
    requires ClosedAbove(s, conflict, marks.seen, i, uip)
    ensures SeenClosed(s, conflict, MarkReason(s, marks, uip, reason).seen, i)
  {
    var m := MarkReason(s, marks, uip, reason);
    MarkReasonGrows(s, marks, uip, reason);
    hide MarkReason, Derived, TrackedUp;
    if uip != 0 {
      MarkedMonotone(s, 0, conflict, marks.seen, m.seen);
    }
    forall r | OnLevel(s, r) && Abs(r) in m.seen && Pos(s, r) >= i && ReasonOf(s, r).Because?
      ensures Marked(s, r, ReasonOf(s, r).clause, m.seen)
    {
      SeenBefore(s, f, marks, i, uip, reason, r);
      if Pos(s, r) == i {
        SamePosition(s, r, uip);
      } else {
        MarkedMonotone(s, r, ReasonOf(s, r).clause, marks.seen, m.seen);
      }
    }
  }

  /** What is marked anew comes before `i`. */
  lemma SeenBefore(s: State, f: Formula, marks: Marks, i: nat, uip: int, reason: Clause, r: int)
    requires Head(s, f, marks, i, uip, reason) && OnLevel(s, r) && Pos(s, r) >= i
    requires Abs(r) in MarkReason(s, marks, uip, reason).seen
    ensures Abs(r) in marks.seen
  {
    if Abs(r) !in marks.seen {
      MarkedFrom(s, marks, uip, reason, Abs(r));
      var other :| other in reason && other != uip && Abs(other) == Abs(r);
      FalseLiteral(s, other, r);
      NegatedVar(s, other);
    }
  }

  lemma ClosedDown(s: State, conflict: Clause, seen: set<nat>, i: nat, k: nat)
    requires Placed(s) && k < i <= |s.trail| && SeenClosed(s, conflict, seen, i)
    requires forall j :: k < j < i ==> !OpenAt(s, seen, j)
    ensures SeenClosed(s, conflict, seen, k + 1)
  {
    forall r | OnLevel(s, r) && Abs(r) in seen && Pos(s, r) >= k + 1 && ReasonOf(s, r).Because?
      ensures Marked(s, r, ReasonOf(s, r).clause, seen)
    {
      assert s.trail[Pos(s, r)] == r && OpenAt(s, seen, Pos(s, r));
    }
  }

  /** No literal after the next open one is an implication point. */
  lemma PassedDown(s: State, f: Formula, conflict: Clause, aux: set<nat>, seen: set<nat>, i: nat, k: nat)
    requires ValidTrail(s, f) && Level(s) > 0 && k < i <= |s.trail| && OpenOrigin(s, conflict, seen, i)
    requires PassedOver(s, conflict, aux, i) && OnLevel(s, s.trail[k]) && Abs(s.trail[k]) in seen
    ensures PassedOver(s, conflict, aux, k + 1)
  {
    forall x | x in s.trail && Pos(s, x) >= k + 1 && Abs(x) !in aux ensures !ImplicationPoint(s, conflict, x) {
      if Pos(s, x) < i {
        Avoided(s, f, conflict, seen, i, s.trail[k], x);
      }
    }
  }

  /** With another open literal left, this one is not an implication point. */
  lemma PassedOpen(s: State, f: Formula, conflict: Clause, aux: set<nat>, seen: set<nat>, k: nat)
    requires ValidTrail(s, f) && Level(s) > 0 && k < |s.trail| && OpenOrigin(s, conflict, seen, k + 1)
    requires PassedOver(s, conflict, aux, k + 1) && (CountOpen(s, seen, k) > 0 || Abs(s.trail[k]) in aux)
    ensures PassedOver(s, conflict, aux, k)
  {
    forall x | x in s.trail && Pos(s, x) >= k && Abs(x) !in aux ensures !ImplicationPoint(s, conflict, x) {
      if Pos(s, x) == k {
        assert s.trail[Pos(s, x)] == x;
        var j := SomeOpen(s, seen, k);
        assert s.trail[j] in s.trail;
        Avoided(s, f, conflict, seen, k + 1, s.trail[j], x);
      }
    }
  }

  /** One round: the next open literal, and what has been passed over. */
  lemma RoundPassed(s: State, f: Formula, conflict: Clause, aux: set<nat>, marks: Marks, i: nat, uip: int, reason: Clause)
    requires Head(s, f, marks, i, uip, reason) && Analyzed(s, conflict, marks, i, uip, reason)
    requires OpenOrigin(s, conflict, marks.seen, i) && ClosedAbove(s, conflict, marks.seen, i, uip)
    requires PassedOver(s, conflict, aux, i) && 0 !in conflict
    ensures var m := NextMarks(s, marks, uip, reason);
            var k := LastOpen(s, m.seen, i);
            && 0 <= k < i && Pos(s, s.trail[k]) == k && SeenClosed(s, conflict, m.seen, k + 1) && PassedOver(s, conflict, aux, k + 1)
            && (m.open == 0 ==> ImplicationPoint(s, conflict, s.trail[k]))
            && (m.open > 0 || Abs(s.trail[k]) in aux ==> PassedOver(s, conflict, aux, k))
            && (m.open > 0 ==> ReasonOf(s, s.trail[k]).Because?)
            && m.open >= 0
  {
    hide *;
    RoundFacts(s, f, marks, i, uip, reason);
    MarkedOrigin(s, f, conflict, marks, i, uip, reason);
    MarkedClosed(s, f, conflict, marks, i, uip, reason);
    var m := NextMarks(s, marks, uip, reason);
    var k := LastOpen(s, m.seen, i);
    SameSeen(s, marks, uip, reason);
    ClosedDown(s, conflict, m.seen, i, k);
    PassedDown(s, f, conflict, aux, m.seen, i, k);
    OpenOriginMonotone(s, conflict, m.seen, i, k + 1);
    if m.open > 0 || Abs(s.trail[k]) in aux {
      PassedOpen(s, f, conflict, aux, m.seen, k);
    }
    if m.open == 0 {
      OnlyOpenPoint(s, f, conflict, m.seen, k);
    }
  }

  lemma SameSeen(s: State, marks: Marks, uip: int, reason: Clause)
    ensures NextMarks(s, marks, uip, reason).seen == MarkReason(s, marks, uip, reason).seen
  {
  }

  lemma RoundFacts(s: State, f: Formula, marks: Marks, i: nat, uip: int, reason: Clause)
    requires Head(s, f, marks, i, uip, reason)
    ensures ValidTrail(s, f) && Placed(s) && Level(s) > 0 && i <= |s.trail|
    ensures var m := NextMarks(s, marks, uip, reason);
            var k := LastOpen(s, m.seen, i);
            && 0 <= k < i && Pos(s, s.trail[k]) == k && OnLevel(s, s.trail[k]) && Abs(s.trail[k]) in m.seen
            && m.open == CountOpen(s, m.seen, k) && (m.open > 0 ==> ReasonOf(s, s.trail[k]).Because?)
            && forall j :: k < j < i ==> !OpenAt(s, m.seen, j)
  {
    Round(s, f, marks, i, uip, reason);
    var m := NextMarks(s, marks, uip, reason);
    var k := LastOpen(s, m.seen, i);
    HeadPlaced(s, f, marks, i, uip, reason, k);
    hide Head, Derived, NextMarks;
    NextHead(s, f, m, k);
  }

  /** What the analysis finds is the first implication point. */
  ghost predicate Stopped(s: State, conflict: Clause, aux: set<nat>, marks: Marks, uip: int) {
    && FirstPoint(s, conflict, aux, uip)
    && SeenClosed(s, conflict, marks.seen, Pos(s, uip) + 1)
  }

  lemma StoppedAt(s: State, conflict: Clause, aux: set<nat>, m: Marks, k: nat)
    requires k < |s.trail| && Pos(s, s.trail[k]) == k
    requires SeenClosed(s, conflict, m.seen, k + 1) && PassedOver(s, conflict, aux, k + 1)
    requires ImplicationPoint(s, conflict, s.trail[k]) && (Abs(s.trail[k]) in aux ==> ReasonOf(s, s.trail[k]).NoReason?)
    ensures Stopped(s, conflict, aux, m, s.trail[k])
  {
  }

  lemma ClosedNext(s: State, conflict: Clause, seen: set<nat>, k: nat, uip: int)
    requires SeenClosed(s, conflict, seen, k + 1) && uip != 0
    ensures ClosedAbove(s, conflict, seen, k, uip)
  {
  }

  lemma {:induction false} UipLoopFirst(s: State, f: Formula, conflict: Clause, aux: set<nat>, marks: Marks, i: nat,
                                        uip: int, reason: Clause)
    requires Head(s, f, marks, i, uip, reason) && Analyzed(s, conflict, marks, i, uip, reason)
    requires OpenOrigin(s, conflict, marks.seen, i) && ClosedAbove(s, conflict, marks.seen, i, uip)
    requires PassedOver(s, conflict, aux, i) && 0 !in conflict
    ensures var r := UipLoop(s, aux, marks, i, uip, reason);
            Stopped(s, conflict, aux, r.0, r.1)
    decreases i
  {
    hide *;
    HeadBound(s, f, marks, i, uip, reason);
    RoundOrigin(s, f, conflict, marks, i, uip, reason);
    RoundPassed(s, f, conflict, aux, marks, i, uip, reason);
    UipLoopStep(s, aux, marks, i, uip, reason);
    var m := NextMarks(s, marks, uip, reason);
    var k := LastOpen(s, m.seen, i);
    var next := s.trail[k];
    if ReasonOf(s, next).Because? && !(m.open == 0 && Abs(next) !in aux) {
      NonZeroAt(s, f, m, k, next, ReasonOf(s, next).clause);
      ClosedNext(s, conflict, m.seen, k, next);
      UipLoopFirst(s, f, conflict, aux, m, k, next, ReasonOf(s, next).clause);
    } else {
      StoppedAt(s, conflict, aux, m, k);
    }
  }

  lemma NonZeroAt(s: State, f: Formula, m: Marks, k: nat, next: int, reason: Clause)
    requires Head(s, f, m, k, next, reason) && k < |s.trail| && next == s.trail[k]
    ensures next != 0
  {
    assert next in s.trail;
  }

  /* ---- the clause ---- */

  /** The clause consists of what is false below in the conflict or a reason
      that was resolved with. */
  lemma ClauseExact(s: State, f: Formula, conflict: Clause, seen: set<nat>, clause: Clause, uip: int)
    requires ValidTrail(s, f) && Level(s) > 0 && Falsified(s, conflict) && Collected(s, seen, clause)
    requires OpenOrigin(s, conflict, seen, Pos(s, uip) + 1) && SeenClosed(s, conflict, seen, Pos(s, uip) + 1)
    ensures UipLiterals(s, conflict, uip, clause)
  {
    forall l ensures l in clause <==> UipLiteral(s, conflict, uip, l) {
      if l in clause {
        CollectedFrom(s, f, conflict, seen, clause, uip, l);
      }
      if UipLiteral(s, conflict, uip, l) {
        CollectedAll(s, f, conflict, seen, clause, uip, l);
      }
    }
  }

  lemma CollectedFrom(s: State, f: Formula, conflict: Clause, seen: set<nat>, clause: Clause, uip: int, l: int)
    requires ValidTrail(s, f) && Collected(s, seen, clause) && l in clause
    requires OpenOrigin(s, conflict, seen, Pos(s, uip) + 1)
    ensures UipLiteral(s, conflict, uip, l)
  {
    NegatedVar(s, l);
    assert -(-l) == l;
    hide ValidTrail, ResolvedAway;
    if l !in conflict {
      var r :| FromOpen(s, seen, Pos(s, uip) + 1, -l, r);
      OpenResolvedAway(s, f, conflict, seen, uip, -l, r);
    }
  }

  lemma OpenResolvedAway(s: State, f: Formula, conflict: Clause, seen: set<nat>, uip: int, t: int, r: int)
    requires ValidTrail(s, f) && OpenOrigin(s, conflict, seen, Pos(s, uip) + 1)
    requires FromOpen(s, seen, Pos(s, uip) + 1, t, r)
    ensures ResolvedAway(s, conflict, uip, r) && -t in ReasonOf(s, r).clause
  {
    var p := UpPath(s, f, conflict, seen, Pos(s, uip) + 1, r);
  }

  lemma CollectedAll(s: State, f: Formula, conflict: Clause, seen: set<nat>, clause: Clause, uip: int, l: int)
    requires ValidTrail(s, f) && Level(s) > 0 && Falsified(s, conflict) && Collected(s, seen, clause)
    requires SeenClosed(s, conflict, seen, Pos(s, uip) + 1) && UipLiteral(s, conflict, uip, l)
    ensures l in clause
  {
    NegatedVar(s, l);
    if l !in conflict {
      var r :| ResolvedAway(s, conflict, uip, r) && l in ReasonOf(s, r).clause;
      ResolvedSeen(s, f, conflict, seen, uip, r);
      Opposite(s, r);
    }
    assert -(-l) == l && Abs(-l) in seen;
  }

  /** The literals on paths from the conflict are seen. */
  lemma ResolvedSeen(s: State, f: Formula, conflict: Clause, seen: set<nat>, uip: int, r: int)
    requires ValidTrail(s, f) && Level(s) > 0 && Falsified(s, conflict)
    requires SeenClosed(s, conflict, seen, Pos(s, uip) + 1) && ResolvedAway(s, conflict, uip, r)
    ensures Abs(r) in seen && Marked(s, r, ReasonOf(s, r).clause, seen)
  {
    var p :| PathTo(s, conflict, p, r);
    NegatedVar(s, p[0]);
    PathSeen(s, f, conflict, seen, Pos(s, uip) + 1, p);
  }

  lemma {:induction false} PathSeen(s: State, f: Formula, conflict: Clause, seen: set<nat>, b: nat, p: seq<int>)
    requires ValidTrail(s, f) && Level(s) > 0 && SeenClosed(s, conflict, seen, b)
    requires Path(s, p) && Abs(p[0]) in seen && Pos(s, p[|p| - 1]) >= b
    ensures Abs(p[|p| - 1]) in seen && Pos(s, p[0]) >= b
    decreases |p|
  {
    if |p| > 1 {
      var a := p[0];
      StepEarlier(s, f, a, p[1]);
      PathLater(s, f, p[1..]);
      assert Marked(s, a, ReasonOf(s, a).clause, seen);
      NegatedVar(s, p[1]);
      Opposite(s, p[1]);
      PathSeen(s, f, conflict, seen, b, p[1..]);
    }
  }

  lemma {:induction false} PathLater(s: State, f: Formula, p: seq<int>)
    requires ValidTrail(s, f) && Path(s, p)
    ensures Pos(s, p[0]) >= Pos(s, p[|p| - 1])
    decreases |p|
  {
    if |p| > 1 {
      StepEarlier(s, f, p[0], p[1]);
      PathLater(s, f, p[1..]);
    }
  }

  lemma AnalysisStart(s: State, f: Formula, conflict: Clause, aux: set<nat>)
    requires Conflicting(s, f, conflict)
    ensures ValidTrail(s, f) && Level(s) > 0 && Falsified(s, conflict) && 0 !in conflict
    ensures OpenOrigin(s, conflict, {}, |s.trail|) && ClosedAbove(s, conflict, {}, |s.trail|, 0)
    ensures PassedOver(s, conflict, aux, |s.trail|)
    ensures Analyzed(s, conflict, UNMARKED, |s.trail|, 0, conflict) && UNMARKED.seen == {}
  {
  }

  lemma FoundByLoop(s: State, conflict: Clause, aux: set<nat>)
    ensures FoundUip(s, conflict, aux) == UipLoop(s, aux, UNMARKED, |s.trail|, 0, conflict)
  {
  }

  lemma FoundClause(s: State, f: Formula, marks: Marks, uip: int)
    requires UipFound(s, f, marks, uip)
    ensures Collected(s, marks.seen, marks.clause)
  {
  }

  lemma WhereStopped(s: State, conflict: Clause, aux: set<nat>, marks: Marks, uip: int)
    requires Stopped(s, conflict, aux, marks, uip)
    ensures FirstPoint(s, conflict, aux, uip) && SeenClosed(s, conflict, marks.seen, Pos(s, uip) + 1)
  {
  }

  /** The analysis finds the first implication point, and collects exactly the
      literals of its clause. */
  lemma FoundFirst(s: State, f: Formula, conflict: Clause, aux: set<nat>)
    requires Conflicting(s, f, conflict)
    ensures var r := FoundUip(s, conflict, aux);
            FirstPoint(s, conflict, aux, r.1) && UipLiterals(s, conflict, r.1, r.0.clause)
  {
    hide *;
    var r := FoundUip(s, conflict, aux);
    FoundByLoop(s, conflict, aux);
    AnalysisStart(s, f, conflict, aux);
    ConflictHead(s, f, conflict);
    UipLoopFound(s, f, aux, UNMARKED, |s.trail|, 0, conflict);
    UipLoopOrigin(s, f, conflict, aux, UNMARKED, |s.trail|, 0, conflict);
    UipLoopFirst(s, f, conflict, aux, UNMARKED, |s.trail|, 0, conflict);
    FoundClause(s, f, r.0, r.1);
    WhereStopped(s, conflict, aux, r.0, r.1);
    ClauseExact(s, f, conflict, r.0.seen, r.0.clause, r.1);
  }
}
