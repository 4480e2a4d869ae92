/** Deriving the first unique implication point clause from a conflict.  The
    trail is only read, so the analysis works on its state. */
module Analysis {
  import opened Logic
  import opened TrailState
  import opened ConflictResolution
  import opened ImplicationPoints

  /** For each level of the given literals, their number and the position of the
      first one on the trail, or an earlier one. */
  ghost predicate Accounted(s: State, lits: seq<int>, levels: seq<nat>, counts: map<nat, nat>, trails: map<nat, nat>) {
    && LevelsListed(levels, counts) && counts.Keys == trails.Keys
    && CountsExact(s, lits, counts) && TrailsFirst(s, lits, trails)
  }

  /** Every level once. */
  ghost predicate LevelsListed(levels: seq<nat>, counts: map<nat, nat>) {
    NoDup(levels) && forall l: nat {:trigger l in levels} :: l in levels <==> l in counts
  }

  ghost predicate CountsExact(s: State, lits: seq<int>, counts: map<nat, nat>) {
    && (forall l {:trigger counts[l]} :: l in counts ==> counts[l] == CountOn(s, lits, l) > 0)
    && (forall t {:trigger t in lits} :: t in lits ==> LevelOf(s, t) in counts)
  }

  ghost predicate TrailsFirst(s: State, lits: seq<int>, trails: map<nat, nat>) {
    forall l {:trigger trails[l]} :: l in trails ==> FirstOn(s, lits, l, trails[l])
  }

  /** The first position of a literal of the level. */
  ghost predicate FirstOn(s: State, lits: seq<int>, l: nat, p: nat) {
    && (exists t :: t in lits && LevelOf(s, t) == l && Pos(s, t) == p)
    && (forall t :: t in lits && LevelOf(s, t) == l ==> p <= Pos(s, t))
  }

  lemma AccountedNext(s: State, lits: seq<int>, levels: seq<nat>, counts: map<nat, nat>, trails: map<nat, nat>, lit: int)
    requires Accounted(s, lits, levels, counts, trails)
    ensures var l := LevelOf(s, lit);
            var count := if l in counts then counts[l] else 0;
            Accounted(s, lits + [lit], if count == 0 then levels + [l] else levels, counts[l := count + 1],
                      if l !in trails || Pos(s, lit) < trails[l] then trails[l := Pos(s, lit)] else trails)
  {
    hide LevelsListed, CountsExact, TrailsFirst, LevelOf, Pos;
    LevelsNext(s, lits, levels, counts, LevelOf(s, lit));
    CountsNext(s, lits, counts, lit);
    TrailsNext(s, lits, counts, trails, lit);
  }

  lemma LevelsNext(s: State, lits: seq<int>, levels: seq<nat>, counts: map<nat, nat>, l: nat)
    requires LevelsListed(levels, counts) && CountsExact(s, lits, counts)
    ensures var count := if l in counts then counts[l] else 0;
            LevelsListed(if count == 0 then levels + [l] else levels, counts[l := count + 1])
  {
    hide CountOn, LevelOf;
    if l !in counts {
      assert l !in levels && forall k :: k in levels + [l] <==> k in levels || k == l;
    } else {
      assert counts[l] > 0;
    }
  }

  lemma CountsNext(s: State, lits: seq<int>, counts: map<nat, nat>, lit: int)
    requires CountsExact(s, lits, counts)
    ensures var l := LevelOf(s, lit);
            CountsExact(s, lits + [lit], counts[l := (if l in counts then counts[l] else 0) + 1])
  {
    CountAppend(s, lits, lit);
    hide CountOn, LevelOf;
    var l := LevelOf(s, lit);
    assert (if l in counts then counts[l] else 0) == CountOn(s, lits, l);
    assert forall t :: t in lits + [lit] <==> t in lits || t == lit;
  }

  lemma TrailsNext(s: State, lits: seq<int>, counts: map<nat, nat>, trails: map<nat, nat>, lit: int)
    requires CountsExact(s, lits, counts) && TrailsFirst(s, lits, trails) && counts.Keys == trails.Keys
    ensures var l := LevelOf(s, lit);
            TrailsFirst(s, lits + [lit], if l !in trails || Pos(s, lit) < trails[l] then trails[l := Pos(s, lit)] else trails)
  {
    var l := LevelOf(s, lit);
    var trails' := if l !in trails || Pos(s, lit) < trails[l] then trails[l := Pos(s, lit)] else trails;
    hide LevelOf, Pos, CountOn, FirstOn;
    forall k | k in trails' ensures FirstOn(s, lits + [lit], k, trails'[k]) {
      FirstNext(s, lits, lit, k, if k in trails then trails[k] else 0, k in trails);
    }
  }

  /** The first position on a level with one more literal. */
  lemma FirstNext(s: State, lits: seq<int>, lit: int, k: nat, p: nat, known: bool)
    requires known ==> FirstOn(s, lits, k, p)
    requires !known ==> LevelOf(s, lit) == k && forall t :: t in lits ==> LevelOf(s, t) != k
    ensures FirstOn(s, lits + [lit], k, if LevelOf(s, lit) == k && (!known || Pos(s, lit) < p) then Pos(s, lit) else p)
  {
    hide LevelOf, Pos;
    assert lit in lits + [lit] && forall t :: t in lits + [lit] <==> t in lits || t == lit;
  }

  class Analyzer {
    const s: State
    ghost const f: Formula
    var seen: set<nat>
    var analyzed: seq<int>
    var levels: seq<nat>
    var seenCount: map<nat, nat>
    var seenTrail: map<nat, nat>
    var clause: Clause
    var open: int

    function Current(): Marks
      reads this
    {
      Marks(seen, clause, open)
    }

    /** The levels of the analyzed literals are accounted. */
    ghost predicate LevelsOk()
      reads this
    {
      Accounted(s, analyzed, levels, seenCount, seenTrail)
    }

    /** The clause consists of the analyzed literals below the conflict level. */
    ghost predicate InOrder()
      reads this
    {
      clause == Lower(s, analyzed)
    }

    constructor (t: State, ghost db: Formula)
      ensures s == t && f == db && Current() == UNMARKED && LevelsOk() && InOrder()
      ensures analyzed == [] && levels == []
    {
      s, f := t, db;
      seen, analyzed, levels, seenCount, seenTrail, clause, open := {}, [], [], map[], map[], [], 0;
    }

    /** An unseen literal above the root is marked, and its level accounted. */
    method AnalyzeLiteral(lit: int)
      requires LevelsOk()
      modifies `seen, `analyzed, `levels, `seenCount, `seenTrail, `clause, `open
      ensures Current() == MarkOne(s, old(Current()), lit) && LevelsOk()
      ensures analyzed == if seen == old(seen) then old(analyzed) else old(analyzed) + [lit]
      ensures old(InOrder()) ==> InOrder()
    {
      hide Accounted, Lower;
      LowerNext(s, analyzed, lit);
      if Abs(lit) in seen {
        return;
      }
      var v := VarOf(s, lit);
      if v.level == 0 {
        return;
      }
      if v.level < Level(s) {
        clause := clause + [lit];
      }
      var l := v.level;
      var count := if l in seenCount then seenCount[l] else 0;
      AccountedNext(s, analyzed, levels, seenCount, seenTrail, lit);
      if count == 0 {
        levels := levels + [l];
      }
      seenCount := seenCount[l := count + 1];
      if l !in seenTrail || v.trail < seenTrail[l] {
        seenTrail := seenTrail[l := v.trail];
      }
      seen := seen + {Abs(lit)};
      analyzed := analyzed + [lit];
      if v.level == Level(s) {
        open := open + 1;
      }
    }

    /** Marks the literals of the reason other than `lit`. */
    method AnalyzeReason(lit: int, reason: Clause)
      requires LevelsOk()
      modifies `seen, `analyzed, `levels, `seenCount, `seenTrail, `clause, `open
      ensures Current() == MarkReason(s, old(Current()), lit, reason) && LevelsOk()
      ensures old(InOrder()) ==> InOrder()
    {
      hide LevelsOk, InOrder;
      for k := 0 to |reason|
        invariant Current() == MarkReason(s, old(Current()), lit, reason[..k]) && LevelsOk()
        invariant old(InOrder()) ==> InOrder()
      {
        var other := reason[k];
        assert reason[..k + 1][..k] == reason[..k];
        if other != lit {
          AnalyzeLiteral(other);
        }
      }
      assert reason[..|reason|] == reason;
    }

    /** Goes down the trail to the last open literal. */
    method NextSeen(start: nat) returns (uip: int, i: nat)
      requires start <= |s.trail| && LastOpen(s, seen, start) >= 0
      ensures i == LastOpen(s, seen, start) && uip == s.trail[i]
    {
      i := start;
      uip := 0;
      var found := false;
      while !found
        invariant i <= start && LastOpen(s, seen, start) == if found then i as int else LastOpen(s, seen, i)
        invariant found ==> i < start && uip == s.trail[i]
        decreases if found then 0 else 1, i
      {
        i := i - 1;
        var lit := s.trail[i];
        if Abs(lit) in seen && LevelOf(s, lit) == Level(s) {
          uip, found := lit, true;
        }
      }
    }

    /** One round: analyze a reason, then find the next open literal. */
    method Advance(uip: int, reason: Clause, i: nat) returns (next: int, j: nat)
      requires Head(s, f, Current(), i, uip, reason) && LevelsOk()
      modifies `seen, `analyzed, `levels, `seenCount, `seenTrail, `clause, `open
      ensures Current() == NextMarks(s, old(Current()), uip, reason) && LevelsOk()
      ensures j < i <= |s.trail| && j == LastOpen(s, seen, i) && next == s.trail[j]
      ensures old(InOrder()) ==> InOrder()
    {
      Round(s, f, Current(), i, uip, reason);
      assert i <= |s.trail|;
      hide Head, LevelsOk;
      AnalyzeReason(uip, reason);
      next, j := NextSeen(i);
      open := open - 1;
    }

    /** The loop of the analysis.  Without auxiliary variables it stops at the
        first unique implication point; with them it goes on as long as that
        point is an auxiliary literal with a reason. */
    method FindUip(conflict: Clause, aux: set<nat>) returns (uip: int)
      requires Current() == UNMARKED && Conflicting(s, f, conflict) && LevelsOk()
      modifies `seen, `analyzed, `levels, `seenCount, `seenTrail, `clause, `open
      ensures (Current(), uip) == FoundUip(s, conflict, aux) && LevelsOk()
      ensures UipFound(s, f, Current(), uip)
      ensures Abs(uip) in aux ==> ReasonOf(s, uip).NoReason?
      ensures FirstPoint(s, conflict, aux, uip) && UipLiterals(s, conflict, uip, clause)
      ensures old(InOrder()) ==> InOrder()
    {
      FoundFirst(s, f, conflict, aux);
      var i: nat := |s.trail|;
      uip := 0;
      var reason := conflict;
      ConflictHead(s, f, conflict);
      UipLoopFound(s, f, aux, UNMARKED, |s.trail|, 0, conflict);
      hide InOrder, FirstPoint, UipLiterals, Head, UipFound, Conflicting, TrackedUp, Derived, ValidTrail, LevelsOk, NextMarks;
      while true
        invariant Head(s, f, Current(), i, uip, reason) && i <= |s.trail| && LevelsOk() && (old(InOrder()) ==> InOrder())
        invariant UipLoop(s, aux, Current(), i, uip, reason) == FoundUip(s, conflict, aux)
        decreases i
      {
        Round(s, f, Current(), i, uip, reason);
        uip, i := Advance(uip, reason, i);
        NextHead(s, f, Current(), i);
        if open == 0 && (Abs(uip) !in aux || ReasonOf(s, uip).NoReason?) {
          break;
        }
        reason := ReasonOf(s, uip).clause;
      }
    }

    /** The analysis of the default build. */
    method FirstUip(conflict: Clause) returns (uip: int)
      requires Current() == UNMARKED && Conflicting(s, f, conflict) && LevelsOk()
      modifies `seen, `analyzed, `levels, `seenCount, `seenTrail, `clause, `open
      ensures Learned(s, f, clause, uip) && LevelsOk()
      ensures FirstPoint(s, conflict, {}, uip) && UipClause(s, conflict, uip, clause)
      ensures old(InOrder()) ==> clause == Lower(s, analyzed) + [-uip]
    {
      hide FirstPoint;
      uip := FindUip(conflict, {});
      UipLearned(s, f, seen, clause, uip);
      clause := clause + [-uip];
    }
  }

  /** The literals below the conflict level. */
  function Lower(s: State, lits: seq<int>): seq<int> {
    if lits == [] then []
    else
      var rest, last := Lower(s, lits[..|lits| - 1]), lits[|lits| - 1];
      if LevelOf(s, last) < Level(s) then rest + [last] else rest
  }

  lemma LowerNext(s: State, lits: seq<int>, lit: int)
    ensures Lower(s, lits + [lit]) == if LevelOf(s, lit) < Level(s) then Lower(s, lits) + [lit] else Lower(s, lits)
  {
    assert (lits + [lit])[..|lits|] == lits;
  }

  /** How many of the analyzed literals are on a level. */
  function CountOn(s: State, lits: seq<int>, l: nat): nat {
    if lits == [] then 0 else CountOn(s, lits[..|lits| - 1], l) + if LevelOf(s, lits[|lits| - 1]) == l then 1 else 0
  }

  lemma CountAppend(s: State, lits: seq<int>, lit: int)
    ensures forall l {:trigger CountOn(s, lits + [lit], l)} ::
      CountOn(s, lits + [lit], l) == CountOn(s, lits, l) + if LevelOf(s, lit) == l then 1 else 0
    ensures (forall t :: t in lits ==> LevelOf(s, t) != LevelOf(s, lit)) ==> CountOn(s, lits, LevelOf(s, lit)) == 0
  {
    assert (lits + [lit])[..|lits + [lit]| - 1] == lits;
    if forall t :: t in lits ==> LevelOf(s, t) != LevelOf(s, lit) {
      CountOnNone(s, lits, LevelOf(s, lit));
    }
  }

  lemma {:induction false} CountOnNone(s: State, lits: seq<int>, l: nat)
    requires forall t :: t in lits ==> LevelOf(s, t) != l
    ensures CountOn(s, lits, l) == 0
  {
    if lits != [] {
      var n := |lits| - 1;
      assert lits == lits[..n] + [lits[n]] && lits[n] in lits;
      CountOnNone(s, lits[..n], l);
    }
  }

  /** The negation of the implication point, and the literals of its clause. */
  ghost predicate UipClause(s: State, conflict: Clause, uip: int, c: Clause) {
    forall l {:trigger l in c} {:trigger UipLiteral(s, conflict, uip, l)} ::
      l in c <==> l == -uip || UipLiteral(s, conflict, uip, l)
  }

  /** A learned clause: entailed, false, without duplicates, and with `uip` the
      only literal of the conflict level. */
  ghost predicate Learned(s: State, f: Formula, c: Clause, uip: int) {
    Entails(f, c) && Asserting(s, c, uip)
  }

  ghost predicate Asserting(s: State, c: Clause, uip: int) {
    && Falsified(s, c) && NoDup(c)
    && -uip in c && uip in s.trail && LevelOf(s, uip) == Level(s)
    && (forall l :: l in c && l != -uip ==> 0 < LevelOf(s, l) < Level(s))
  }

  lemma UipLearned(s: State, f: Formula, seen: set<nat>, clause: Clause, uip: int)
    requires Placed(s) && Collected(s, seen, clause) && Entails(f, clause + [-uip])
    requires uip in s.trail && LevelOf(s, uip) == Level(s)
    ensures Learned(s, f, clause + [-uip], uip)
  {
    NegatedVar(s, uip);
    var c := clause + [-uip];
    assert c[|clause|] == -uip && -uip !in clause;
    assert forall l :: l in c <==> l in clause || l == -uip;
  }
}
