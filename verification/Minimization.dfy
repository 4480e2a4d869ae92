/** Recursive minimization of a learned clause. */
module Minimization {
  import opened Logic
  import opened TrailState
  import opened ConflictResolution
  import opened Analysis
  import opened Sorting

  /** The kept literals are false in the model. */
  ghost predicate KeepHolds(m: Model, s: State, keep: set<nat>) {
    forall t {:trigger t in s.trail} :: t in s.trail && Abs(t) in keep ==> Holds(m, t)
  }

  /** The trail literal follows once the kept literals are false. */
  ghost predicate Implied(s: State, f: Formula, keep: set<nat>, t: int) {
    forall m :: Models(m, f) && KeepHolds(m, s, keep) ==> Holds(m, t)
  }

  /** Removable literals are implied, and not on the conflict level. */
  ghost predicate RemovableOk(s: State, f: Formula, keep: set<nat>, removable: set<nat>) {
    forall t {:trigger Implied(s, f, keep, t)} :: t in s.trail && Abs(t) in removable ==>
      LevelOf(s, t) < Level(s) && Implied(s, f, keep, t)
  }

  lemma ImpliedMonotone(s: State, f: Formula, keep: set<nat>, keep': set<nat>, t: int)
    requires keep <= keep' && Implied(s, f, keep, t)
    ensures Implied(s, f, keep', t)
  {
    forall m | Models(m, f) && KeepHolds(m, s, keep') ensures Holds(m, t) {
      assert KeepHolds(m, s, keep);
    }
  }

  lemma RemovableMonotone(s: State, f: Formula, keep: set<nat>, keep': set<nat>, removable: set<nat>)
    requires keep <= keep' && RemovableOk(s, f, keep, removable)
    ensures RemovableOk(s, f, keep', removable)
  {
    forall t | t in s.trail && Abs(t) in removable ensures LevelOf(s, t) < Level(s) && Implied(s, f, keep', t) {
      assert Implied(s, f, keep, t);
      ImpliedMonotone(s, f, keep, keep', t);
    }
  }

  lemma RootImplied(s: State, f: Formula, keep: set<nat>, t: int)
    requires Reasoned(s, f) && t in s.trail && LevelOf(s, t) == 0
    ensures Implied(s, f, keep, t)
  {
    RootEntailed(s, f, t);
    forall m | Models(m, f) && KeepHolds(m, s, keep) ensures Holds(m, t) {
      UnitHolds(f, t, m);
    }
  }

  /** A literal whose reason has only implied literals besides it is implied. */
  lemma ReasonImplied(s: State, f: Formula, keep: set<nat>, t: int)
    requires ValidTrail(s, f) && t in s.trail && ReasonOf(s, t).Because?
    requires forall other :: other in ReasonOf(s, t).clause && other != t ==> Implied(s, f, keep, -other)
    ensures Implied(s, f, keep, t)
  {
    var c := ReasonOf(s, t).clause;
    assert ReasonOk(s, f, t);
    forall m | Models(m, f) && KeepHolds(m, s, keep) ensures Holds(m, t) {
      assert Satisfies(m, c);
      forall l | l in c && l != t ensures !Holds(m, l) {
        assert Before(s, t, l) && Implied(s, f, keep, -l);
      }
    }
  }

  lemma Settled(s: State, f: Formula, keep: set<nat>, removable: set<nat>, t: int)
    requires ValidTrail(s, f) && RemovableOk(s, f, keep, removable) && t in s.trail
    requires LevelOf(s, t) == 0 || Abs(t) in removable || Abs(t) in keep
    ensures Implied(s, f, keep, t) && (Abs(t) in removable ==> LevelOf(s, t) < Level(s))
  {
    assert Abs(t) in removable ==> Implied(s, f, keep, t);
    if LevelOf(s, t) == 0 {
      RootImplied(s, f, keep, t);
    }
  }

  lemma OneMoreRemovable(s: State, f: Formula, keep: set<nat>, removable: set<nat>, t: int)
    requires Placed(s) && RemovableOk(s, f, keep, removable) && t in s.trail
    requires LevelOf(s, t) < Level(s) && Implied(s, f, keep, t)
    ensures RemovableOk(s, f, keep, removable + {Abs(t)})
  {
    forall u | u in s.trail && Abs(u) in removable + {Abs(t)} ensures LevelOf(s, u) < Level(s) && Implied(s, f, keep, u) {
      if Abs(u) == Abs(t) {
        SameVariable(s, u, t);
        SamePosition(s, u, t);
      } else {
        assert RemovableOk(s, f, keep, removable) && Abs(u) in removable;
        assert Implied(s, f, keep, u);
      }
    }
  }

  /* ---- which literals the recursion removes ---- */

  /** Fixed, kept, or shown by its reason. */
  ghost predicate Redundant(s: State, keep: set<nat>, trails: map<nat, nat>, t: int)
    decreases Pos(s, t), 1
  {
    LevelOf(s, t) == 0 || Abs(t) in keep || Shown(s, keep, trails, t)
  }

  /** Below the conflict level, after the first literal analyzed on its level,
      and all other literals of the reason are redundant. */
  ghost predicate Shown(s: State, keep: set<nat>, trails: map<nat, nat>, t: int)
    decreases Pos(s, t), 0
  {
    match ReasonOf(s, t)
    case NoReason => false
    case Because(c) =>
      && LevelOf(s, t) != Level(s) && LevelOf(s, t) in trails && Pos(s, t) > trails[LevelOf(s, t)]
      && forall other {:trigger other in c} :: other in c && other != t ==>
           Pos(s, -other) < Pos(s, t) && Redundant(s, keep, trails, -other)
  }

  /** At least two literals of the level were analyzed. */
  predicate Several(s: State, counts: map<nat, nat>, t: int) {
    LevelOf(s, t) in counts && counts[LevelOf(s, t)] >= 2
  }

  lemma OthersRedundant(s: State, f: Formula, keep: set<nat>, trails: map<nat, nat>, t: int)
    requires ValidTrail(s, f) && t in s.trail && ReasonOf(s, t).Because?
    requires LevelOf(s, t) != Level(s) && LevelOf(s, t) in trails && Pos(s, t) > trails[LevelOf(s, t)]
    ensures Shown(s, keep, trails, t) <==>
            forall other :: other in ReasonOf(s, t).clause && other != t ==> Redundant(s, keep, trails, -other)
  {
    assert ReasonOk(s, f, t);
    hide Redundant;
    var c := ReasonOf(s, t).clause;
    forall other | other in c && other != t ensures Pos(s, -other) < Pos(s, t) {
      assert Before(s, t, other);
      NegatedVar(s, other);
    }
  }

  /** Keeping a literal changes nothing for earlier ones. */
  lemma {:induction false} KeepIrrelevant(s: State, keep: set<nat>, trails: map<nat, nat>, u: int, t: int)
    requires Pos(s, t) < Pos(s, u)
    ensures Redundant(s, keep + {Abs(u)}, trails, t) <==> Redundant(s, keep, trails, t)
    ensures Shown(s, keep + {Abs(u)}, trails, t) <==> Shown(s, keep, trails, t)
    decreases Pos(s, t)
  {
    if Abs(t) == Abs(u) {
      SameVariable(s, t, u);
      assert false;
    }
    if ReasonOf(s, t).Because? {
      KeepShown(s, keep, trails, u, t);
    }
  }

  lemma {:induction false} KeepShown(s: State, keep: set<nat>, trails: map<nat, nat>, u: int, t: int)
    requires Pos(s, t) <= Pos(s, u)
    ensures Shown(s, keep + {Abs(u)}, trails, t) <==> Shown(s, keep, trails, t)
    decreases Pos(s, t), 0
  {
    if ReasonOf(s, t).Because? {
      var c := ReasonOf(s, t).clause;
      forall other | other in c && other != t && Pos(s, -other) < Pos(s, t)
        ensures Redundant(s, keep + {Abs(u)}, trails, -other) <==> Redundant(s, keep, trails, -other)
      {
        KeepIrrelevant(s, keep, trails, u, -other);
      }
      hide Redundant;
    }
  }

  /** Removable literals are redundant and poisoned ones are not. */
  ghost predicate Cached(s: State, keep: set<nat>, trails: map<nat, nat>, removable: set<nat>, poison: set<nat>) {
    && (forall t {:trigger t in s.trail} :: t in s.trail && Abs(t) in removable ==> Redundant(s, keep, trails, t))
    && (forall t {:trigger t in s.trail} :: t in s.trail && Abs(t) in poison && Abs(t) !in keep ==> !Redundant(s, keep, trails, t))
  }

  /** What is flagged is not after position `n`. */
  ghost predicate FlaggedBelow(s: State, flagged: set<nat>, n: nat) {
    forall t {:trigger t in s.trail} :: t in s.trail && Abs(t) in flagged ==> Pos(s, t) < n
  }

  lemma CachedKeep(s: State, keep: set<nat>, trails: map<nat, nat>, removable: set<nat>, poison: set<nat>, u: int)
    requires Placed(s) && u in s.trail && Cached(s, keep, trails, removable, poison)
    requires FlaggedBelow(s, removable + poison, Pos(s, u) + 1)
    ensures Cached(s, keep + {Abs(u)}, trails, removable, poison)
  {
    hide Redundant, Shown;
    forall t | t in s.trail && Abs(t) in removable + poison
      ensures Abs(t) == Abs(u) || (Redundant(s, keep + {Abs(u)}, trails, t) <==> Redundant(s, keep, trails, t))
    {
      if Pos(s, t) == Pos(s, u) {
        SamePosition(s, t, u);
      } else {
        KeepIrrelevant(s, keep, trails, u, t);
      }
    }
    KeptRedundant(s, keep + {Abs(u)}, trails);
  }

  lemma KeptRedundant(s: State, keep: set<nat>, trails: map<nat, nat>)
    ensures forall t :: Abs(t) in keep ==> Redundant(s, keep, trails, t)
  {
  }

  lemma CachedMore(s: State, keep: set<nat>, trails: map<nat, nat>, removable: set<nat>, poison: set<nat>, t: int, res: bool)
    requires Placed(s) && t in s.trail && Cached(s, keep, trails, removable, poison)
    requires res <==> Redundant(s, keep, trails, t)
    ensures res ==> Cached(s, keep, trails, removable + {Abs(t)}, poison)
    ensures !res ==> Cached(s, keep, trails, removable, poison + {Abs(t)})
  {
    hide Redundant;
    forall u | u in s.trail && Abs(u) == Abs(t) ensures u == t {
      SameVariable(s, u, t);
      SamePosition(s, u, t);
    }
  }

  function Vars(c: seq<int>): set<nat> {
    set l | l in c :: Abs(l)
  }

  lemma VarsAppended(c: seq<int>, l: int)
    ensures Vars(c + [l]) == Vars(c) + {Abs(l)}
  {
  }

  class Minimizer {
    const s: State
    ghost const f: Formula
    const depthLimit: int
    const seenCount: map<nat, nat>
    const seenTrail: map<nat, nat>
    var keep: set<nat>
    var removable: set<nat>
    var poison: set<nat>
    var minimized: seq<int>

    constructor (t: State, ghost db: Formula, limit: int, counts: map<nat, nat>, trails: map<nat, nat>)
      ensures s == t && f == db && depthLimit == limit && seenCount == counts && seenTrail == trails
      ensures keep == {} && removable == {} && poison == {} && minimized == []
    {
      s, f, depthLimit, seenCount, seenTrail := t, db, limit, counts, trails;
      keep, removable, poison, minimized := {}, {}, {}, [];
    }

    ghost predicate Flagged()
      reads this
    {
      removable <= Vars(minimized) && poison <= Vars(minimized)
    }

    ghost predicate Valid()
      reads this
    {
      ValidTrail(s, f) && RemovableOk(s, f, keep, removable) && Flagged()
    }

    /** The depth limit cannot be reached, so every attempt runs to its end. */
    ghost predicate Deep()
      reads this
    {
      depthLimit >= |s.trail|
    }

    /** The flags tell what is redundant. */
    ghost predicate Exact()
      reads this
    {
      Cached(s, keep, seenTrail, removable, poison)
    }

    /** Only variables of literals up to `t` were flagged in between. */
    ghost predicate FlaggedUpTo(before: set<nat>, t: int)
      reads this
    {
      forall u {:trigger u in s.trail} :: u in s.trail && Abs(u) in removable + poison && Abs(u) !in before ==> Pos(s, u) <= Pos(s, t)
    }

    /** Tries to show that a true literal follows from the kept ones.  Unless
        the depth limit interferes it is shown exactly if it is redundant; a
        literal of the clause itself must also have company on its level. */
    method MinimizeLiteral(lit: int, depth: nat) returns (res: bool)
      requires Valid() && lit in s.trail
      requires Deep() ==> Exact() && depth + Pos(s, lit) <= |s.trail|
      modifies `removable, `poison, `minimized
      ensures Valid()
      ensures res ==> Implied(s, f, keep, lit)
      ensures LevelOf(s, lit) == Level(s) > 0 && Abs(lit) !in keep ==> !res
      ensures Deep() ==> Exact()
      ensures Deep() && depth > 0 ==> (res <==> Redundant(s, keep, seenTrail, lit))
      ensures Deep() && LevelOf(s, lit) > 0 && Abs(lit) !in keep + old(removable) ==>
        (res <==> Shown(s, keep, seenTrail, lit) && (depth > 0 || Several(s, seenCount, lit)))
      ensures FlaggedUpTo(old(removable + poison), lit)
      decreases Pos(s, lit), 1
    {
      hide Cached, Implied, RemovableOk, Redundant, Shown;
      WhatCached(lit);
      var v := VarOf(s, lit);
      if v.level == 0 || Abs(lit) in removable || Abs(lit) in keep {
        Settled(s, f, keep, removable, lit);
        return true;
      }
      if v.reason.NoReason? || Abs(lit) in poison || v.level == Level(s) {
        return false;
      }
      if depth == 0 && (v.level !in seenCount || seenCount[v.level] < 2) {
        return false;
      }
      if v.level !in seenTrail || v.trail <= seenTrail[v.level] {
        return false;
      }
      if depth > depthLimit {
        return false;
      }
      OthersRedundant(s, f, keep, seenTrail, lit);
      res := AllImplied(lit, v.reason.clause, depth);
      Flag(lit, res);
    }

    /** Records the outcome for a literal. */
    method Flag(lit: int, res: bool)
      requires Valid() && lit in s.trail && LevelOf(s, lit) != Level(s) && LevelOf(s, lit) <= Level(s)
      requires ReasonOf(s, lit).Because?
      requires res ==> forall other :: other in ReasonOf(s, lit).clause && other != lit ==> Implied(s, f, keep, -other)
      requires Deep() ==> Exact() && (res <==> Redundant(s, keep, seenTrail, lit))
      modifies `removable, `poison, `minimized
      ensures Valid() && (Deep() ==> Exact())
      ensures res ==> Implied(s, f, keep, lit)
      ensures removable + poison == old(removable + poison) + {Abs(lit)}
    {
      hide Cached, Implied, RemovableOk, Redundant;
      if Deep() {
        CachedMore(s, keep, seenTrail, removable, poison, lit, res);
      }
      if res {
        ReasonImplied(s, f, keep, lit);
        OneMoreRemovable(s, f, keep, removable, lit);
        removable := removable + {Abs(lit)};
      } else {
        poison := poison + {Abs(lit)};
      }
      VarsAppended(minimized, lit);
      minimized := minimized + [lit];
    }

    /** What the flags say about a literal. */
    lemma WhatCached(lit: int)
      requires Exact() || !Deep()
      ensures Deep() && lit in s.trail && Abs(lit) in removable ==> Redundant(s, keep, seenTrail, lit)
      ensures Deep() && lit in s.trail && Abs(lit) in poison && Abs(lit) !in keep ==> !Redundant(s, keep, seenTrail, lit)
      ensures Redundant(s, keep, seenTrail, lit) <==> LevelOf(s, lit) == 0 || Abs(lit) in keep || Shown(s, keep, seenTrail, lit)
      ensures Shown(s, keep, seenTrail, lit) ==> ReasonOf(s, lit).Because? && LevelOf(s, lit) != Level(s)
      ensures Shown(s, keep, seenTrail, lit) ==> LevelOf(s, lit) in seenTrail && Pos(s, lit) > seenTrail[LevelOf(s, lit)]
    {
    }

    /** All literals of the reason but `lit` can be shown. */
    method AllImplied(lit: int, reason: Clause, depth: nat) returns (res: bool)
      requires Valid() && lit in s.trail && ReasonOf(s, lit) == Because(reason)
      requires Deep() ==> Exact() && depth + Pos(s, lit) <= |s.trail|
      modifies `removable, `poison, `minimized
      ensures Valid()
      ensures res ==> forall other :: other in reason && other != lit ==> Implied(s, f, keep, -other)
      ensures Deep() ==> Exact()
      ensures Deep() ==> (res <==> forall other :: other in reason && other != lit ==> Redundant(s, keep, seenTrail, -other))
      ensures FlaggedUpTo(old(removable + poison), lit)
      decreases Pos(s, lit), 0
    {
      hide Cached, Implied, RemovableOk, Redundant;
      res := true;
      var i := 0;
      while res && i < |reason|
        invariant 0 <= i <= |reason| && Valid() && (Deep() ==> Exact())
        invariant res ==> forall k :: 0 <= k < i && reason[k] != lit ==> Implied(s, f, keep, -reason[k])
        invariant Deep() && res ==> forall k :: 0 <= k < i && reason[k] != lit ==> Redundant(s, keep, seenTrail, -reason[k])
        invariant Deep() && !res ==> exists other :: other in reason && other != lit && !Redundant(s, keep, seenTrail, -other)
        invariant FlaggedUpTo(old(removable + poison), lit)
      {
        var other := reason[i];
        if other != lit {
          assert other in reason && ReasonOk(s, f, lit) && Before(s, lit, other);
          NegatedVar(s, other);
          res := MinimizeLiteral(-other, depth + 1);
        }
        i := i + 1;
      }
    }

    /** The literals in the order of the trail. */
    method MinimizeSortClause(clause: Clause, ghost uip: int) returns (res: Clause)
      requires Placed(s) && Learned(s, f, clause, uip)
      ensures Learned(s, f, res, uip) && SameLits(clause, res) && Ascending(s, res)
    {
      res := SortBy(clause, (a, b) => Pos(s, a) <= Pos(s, b));
      SameMembers(clause, res);
      SameLitsEntailed(f, clause, res);
      PermutedNoDup(clause, res);
      StrictlyAscending(s, res);
    }

    /** Removes the literals that follow from the others.  Unless the depth
        limit interferes, these are all whose reasons show them redundant. */
    method MinimizeClause(unsorted: Clause, ghost uip: int) returns (res: Clause)
      requires ValidTrail(s, f) && Learned(s, f, unsorted, uip) && Level(s) > 0
      requires keep == {} && removable == {} && poison == {} && minimized == []
      modifies `keep, `removable, `poison, `minimized
      ensures Learned(s, f, res, uip)
      ensures forall l :: l in res ==> l in unsorted
      ensures Deep() ==> Minimal(s, unsorted, res, seenCount, seenTrail)
      ensures keep == {} && removable == {} && poison == {} && minimized == []
    {
      var clause := MinimizeSortClause(unsorted, uip);
      res := [];
      NothingFlagged();
      for i := 0 to |clause|
        invariant Valid() && keep == Vars(res) && Kept(clause[..i], res)
        invariant forall l :: l in clause[..i] && l !in res ==> Implied(s, f, keep, -l)
        invariant -uip in clause[..i] ==> -uip in res
        invariant Deep() ==> Exact() && Minimal(s, clause[..i], res, seenCount, seenTrail)
        invariant AllFlaggedBefore(clause, i)
      {
        hide Minimal, Implied, RemovableOk, Cached, Shown;
        res := MinimizeAt(clause, uip, res, i);
      }
      assert clause[..|clause|] == clause;
      MinimizedLearned(s, f, clause, res, keep, uip);
      MinimalSame(s, clause, unsorted, res, seenCount, seenTrail);
      ClearMinimizedLiterals(res);
    }

    /** Removes or keeps the next literal of the clause. */
    method MinimizeAt(clause: Clause, ghost uip: int, kept: Clause, i: nat) returns (res: Clause)
      requires Valid() && Level(s) > 0 && i < |clause|
      requires Learned(s, f, clause, uip) && Ascending(s, clause)
      requires keep == Vars(kept) && Kept(clause[..i], kept)
      requires forall l :: l in clause[..i] && l !in kept ==> Implied(s, f, keep, -l)
      requires -uip in clause[..i] ==> -uip in kept
      requires Deep() ==> Exact() && Minimal(s, clause[..i], kept, seenCount, seenTrail)
      requires AllFlaggedBefore(clause, i)
      modifies `keep, `removable, `poison, `minimized
      ensures Valid() && keep == Vars(res) && Kept(clause[..i + 1], res)
      ensures forall l :: l in clause[..i + 1] && l !in res ==> Implied(s, f, keep, -l)
      ensures -uip in clause[..i + 1] ==> -uip in res
      ensures Deep() ==> Exact() && Minimal(s, clause[..i + 1], res, seenCount, seenTrail)
      ensures AllFlaggedBefore(clause, i + 1)
    {
      hide Minimal, Implied, RemovableOk, Cached, Shown, Redundant, Several;
      res := kept;
      var lit := clause[i];
      assert lit in clause && clause[..i + 1] == clause[..i] + [lit];
      OtherKept(s, clause, res, i);
      NegatedVar(s, lit);
      ClauseLevels(s, f, clause, uip, lit);
      NotYetFlagged(clause, i);
      ghost var flagged := removable + poison;
      var removed := MinimizeLiteral(-lit, 0);
      FlaggedNext(clause, i, flagged);
      if Deep() {
        MinimalStep(s, f, clause, i, kept, seenCount, seenTrail, removed);
      }
      if !removed {
        VarsAppended(res, lit);
        KeepMore(s, f, keep, Abs(lit), removable, clause[..i], res);
        if Deep() {
          CachedKeep(s, keep, seenTrail, removable, poison, -lit);
        }
        res := res + [lit];
        keep := keep + {Abs(lit)};
      }
    }

    lemma NotYetFlagged(clause: Clause, i: nat)
      requires i < |clause| && AllFlaggedBefore(clause, i) && -clause[i] in s.trail
      ensures Abs(-clause[i]) !in removable
    {
      NegatedVar(s, clause[i]);
    }

    lemma FlaggedNext(clause: Clause, i: nat, flagged: set<nat>)
      requires i < |clause| && Ascending(s, clause) && FlaggedUpTo(flagged, -clause[i])
      requires forall j :: i <= j < |clause| ==> FlaggedBelow(s, flagged, Pos(s, clause[j]))
      ensures AllFlaggedBefore(clause, i + 1) && FlaggedBelow(s, removable + poison, Pos(s, -clause[i]) + 1)
    {
      NegatedVar(s, clause[i]);
      hide Pos;
      forall j, t | i < j < |clause| && t in s.trail && Abs(t) in removable + poison ensures Pos(s, t) < Pos(s, clause[j]) {
        assert Pos(s, clause[i]) < Pos(s, clause[j]);
      }
    }

    lemma NothingFlagged()
      requires removable == {} && poison == {}
      ensures Exact() && FlaggedBelow(s, removable + poison, 0)
    {
    }

    /** Nothing was flagged from literal `i` of the clause on. */
    ghost predicate AllFlaggedBefore(clause: Clause, i: nat)
      reads this
    {
      forall j :: i <= j < |clause| ==> FlaggedBelow(s, removable + poison, Pos(s, clause[j]))
    }

    method ClearMinimizedLiterals(clause: Clause)
      requires Flagged() && keep == Vars(clause)
      modifies `keep, `removable, `poison, `minimized
      ensures keep == {} && removable == {} && poison == {} && minimized == []
    {
      for i := 0 to |minimized|
        invariant minimized == old(minimized) && keep == old(keep)
        invariant removable <= Vars(minimized[i..]) && poison <= Vars(minimized[i..])
      {
        var v := Abs(minimized[i]);
        assert minimized[i..] == [minimized[i]] + minimized[i + 1..];
        poison, removable := poison - {v}, removable - {v};
      }
      for i := 0 to |clause|
        invariant keep <= Vars(clause[i..]) && removable == {} && poison == {}
      {
        assert clause[i..] == [clause[i]] + clause[i + 1..];
        keep := keep - {Abs(clause[i])};
      }
      minimized := [];
    }
  }

  /** The literals come in the order of the trail. */
  ghost predicate Ascending(s: State, c: Clause) {
    forall i, j :: 0 <= i < j < |c| ==> Pos(s, c[i]) < Pos(s, c[j])
  }

  lemma StrictlyAscending(s: State, c: Clause)
    requires Placed(s) && Falsified(s, c) && NoDup(c) && SortedBy(c, (a, b) => Pos(s, a) <= Pos(s, b))
    ensures Ascending(s, c)
  {
    forall i, j | 0 <= i < j < |c| ensures Pos(s, c[i]) < Pos(s, c[j]) {
      assert c[i] in c && c[j] in c;
      NegatedVar(s, c[i]);
      NegatedVar(s, c[j]);
      DistinctPositions(s, c[i], c[j]);
    }
  }

  lemma DistinctPositions(s: State, a: int, b: int)
    requires Placed(s) && -a in s.trail && -b in s.trail && a != b
    ensures Pos(s, -a) != Pos(s, -b)
  {
    if Pos(s, -a) == Pos(s, -b) {
      SamePosition(s, -a, -b);
    }
  }

  /** The removed literals are those that their reasons show redundant under
      the literals left, with company on their level. */
  ghost predicate Minimal(s: State, clause: Clause, res: Clause, counts: map<nat, nat>, trails: map<nat, nat>) {
    forall l {:trigger l in clause} :: l in clause ==>
      (l !in res <==> Shown(s, Vars(res), trails, -l) && Several(s, counts, -l))
  }

  lemma MinimalSame(s: State, c: Clause, d: Clause, res: Clause, counts: map<nat, nat>, trails: map<nat, nat>)
    requires SameLits(d, c)
    ensures Minimal(s, c, res, counts, trails) ==> Minimal(s, d, res, counts, trails)
  {
  }

  lemma ClauseLevels(s: State, f: Formula, clause: Clause, uip: int, lit: int)
    requires Learned(s, f, clause, uip) && lit in clause && Level(s) > 0
    ensures LevelOf(s, -lit) > 0 && (lit == -uip ==> LevelOf(s, -lit) == Level(s))
  {
    NegatedVar(s, lit);
    NegatedVar(s, uip);
  }

  lemma MinimalStep(s: State, f: Formula, clause: Clause, i: nat, res: Clause, counts: map<nat, nat>, trails: map<nat, nat>, removed: bool)
    requires i < |clause| && Ascending(s, clause) && Kept(clause[..i], res) && clause[i] !in res
    requires Minimal(s, clause[..i], res, counts, trails)
    requires removed <==> Shown(s, Vars(res), trails, -clause[i]) && Several(s, counts, -clause[i])
    ensures removed ==> Minimal(s, clause[..i + 1], res, counts, trails)
    ensures !removed ==> Minimal(s, clause[..i + 1], res + [clause[i]], counts, trails)
  {
    var lit := clause[i];
    assert clause[..i + 1] == clause[..i] + [lit];
    VarsAppended(res, lit);
    NegatedVar(s, lit);
    forall l | l in clause[..i + 1]
      ensures Shown(s, Vars(res) + {Abs(lit)}, trails, -l) <==> Shown(s, Vars(res), trails, -l)
      ensures l == lit || l in clause[..i]
      ensures l in clause[..i] ==> l != lit
    {
      var k :| 0 <= k <= i && clause[k] == l;
      assert k < i ==> Pos(s, clause[k]) < Pos(s, lit);
      NegatedVar(s, l);
      hide Shown;
      KeepShown(s, Vars(res), trails, -lit, -l);
      EarlierDiffers(s, clause, i, l);
    }
    hide Shown, Several, Vars;
    assert forall l :: l in res + [lit] <==> l in res || l == lit;
  }

  lemma EarlierDiffers(s: State, clause: Clause, i: nat, l: int)
    requires i < |clause| && Ascending(s, clause)
    ensures l in clause[..i] ==> l != clause[i]
  {
    if l in clause[..i] {
      var k :| 0 <= k < i && clause[..i][k] == l;
      assert Pos(s, clause[k]) < Pos(s, clause[i]);
    }
  }

  /** The kept literals are among those treated, without duplicates. */
  ghost predicate Kept(done: Clause, res: Clause) {
    NoDup(res) && forall l :: l in res ==> l in done
  }

  lemma DistinctVars(s: State, a: int, b: int)
    requires Placed(s) && -a in s.trail && -b in s.trail && a != b
    ensures Abs(a) != Abs(b)
  {
    if Abs(a) == Abs(b) {
      SameVariable(s, -a, -b);
      SamePosition(s, -a, -b);
    }
  }

  /** The next literal is about another variable than the kept ones. */
  lemma OtherKept(s: State, clause: Clause, res: Clause, i: nat)
    requires Placed(s) && Falsified(s, clause) && NoDup(clause) && i < |clause| && Kept(clause[..i], res)
    ensures Abs(clause[i]) !in Vars(res) && clause[i] !in res
    ensures -clause[i] in s.trail
  {
    assert clause[i] in clause;
    forall l | l in res ensures Abs(l) != Abs(clause[i]) {
      var k :| 0 <= k < i && clause[..i][k] == l;
      assert l in clause && -l in s.trail && -clause[i] in s.trail;
      DistinctVars(s, l, clause[i]);
    }
  }

  lemma KeepMore(s: State, f: Formula, keep: set<nat>, v: nat, removable: set<nat>, done: Clause, res: Clause)
    requires RemovableOk(s, f, keep, removable)
    requires forall l :: l in done && l !in res ==> Implied(s, f, keep, -l)
    ensures RemovableOk(s, f, keep + {v}, removable)
    ensures forall l :: l in done && l !in res ==> Implied(s, f, keep + {v}, -l)
  {
    RemovableMonotone(s, f, keep, keep + {v}, removable);
    forall l | l in done && l !in res ensures Implied(s, f, keep + {v}, -l) {
      ImpliedMonotone(s, f, keep, keep + {v}, -l);
    }
  }

  /** The kept literals form an entailed clause. */
  lemma MinimizedLearned(s: State, f: Formula, clause: Clause, res: Clause, keep: set<nat>, uip: int)
    requires Placed(s) && Learned(s, f, clause, uip) && Kept(clause, res) && keep == Vars(res) && -uip in res
    requires forall l :: l in clause && l !in res ==> Implied(s, f, keep, -l)
    ensures Learned(s, f, res, uip)
  {
    forall m | Models(m, f) ensures Satisfies(m, res) {
      assert Satisfies(m, clause);
      if !Satisfies(m, res) {
        RefutedKeeps(s, res, keep, m);
        forall l | l in clause ensures !Holds(m, l) {
          assert l in res || Implied(s, f, keep, -l);
        }
      }
    }
  }

  lemma RefutedKeeps(s: State, res: Clause, keep: set<nat>, m: Model)
    requires Placed(s) && Falsified(s, res) && keep == Vars(res) && !Satisfies(m, res)
    ensures KeepHolds(m, s, keep)
  {
    forall t | t in s.trail && Abs(t) in keep ensures Holds(m, t) {
      var l :| l in res && Abs(l) == Abs(t);
      NegatedVar(s, l);
      SameVariable(s, t, -l);
      SamePosition(s, t, -l);
      assert !Holds(m, l);
    }
  }
}
