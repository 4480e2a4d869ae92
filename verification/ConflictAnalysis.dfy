/** Conflict analysis as a whole: the conflict level, the learned clause, the
    level to go back to, and the literal driven by the learned clause. */
module ConflictAnalysis {
  import opened Logic
  import opened TrailState
  import opened SearchTrail
  import opened ConflictResolution
  import opened ImplicationPoints
  import opened Analysis
  import opened Sorting
  import AuxDropping
  import AuxFreeLearning
  import Minimization

  /** Only the literal is on level `k`, the others are below. */
  ghost predicate Alone(s: State, c: Clause, lit: int, k: nat) {
    lit in c && LevelOf(s, lit) == k && forall l :: l in c && l != lit ==> LevelOf(s, l) < k
  }

  /** Two positions of the clause are on level `k`. */
  ghost predicate Twice(s: State, c: Clause, k: nat) {
    exists i, j :: 0 <= i < j < |c| && LevelOf(s, c[i]) == LevelOf(s, c[j]) == k
  }

  /** The highest level in a clause, and the literal that is alone on it. */
  method ScanLevels(t: Internal, conflict: Clause) returns (res: nat, forced: int)
    requires t.Valid() && Falsified(t.State(), conflict)
    ensures forall l :: l in conflict ==> LevelOf(t.State(), l) <= res
    ensures res > 0 ==> exists l :: l in conflict && LevelOf(t.State(), l) == res
    ensures forced != 0 ==> res > 0 && Alone(t.State(), conflict, forced, res)
    ensures forced == 0 && res > 0 ==> Twice(t.State(), conflict, res)
  {
    res, forced := 0, 0;
    var count := 0;
    ghost var first, second := 0, 0;
    var i := 0;
    while i < |conflict|
      invariant 0 <= i <= |conflict|
      invariant forall j :: 0 <= j < i ==> LevelOf(t.State(), conflict[j]) <= res
      invariant res > 0 ==> first < i && LevelOf(t.State(), conflict[first]) == res && count > 0 && forced == conflict[first]
      invariant res == 0 ==> forced == 0
      invariant count == 1 && res > 0 ==> forall j :: 0 <= j < i && j != first ==> LevelOf(t.State(), conflict[j]) < res
      invariant count > 1 && res > 0 ==> first < second < i && LevelOf(t.State(), conflict[second]) == res
    {
      var lit := conflict[i];
      var tmp := LevelOf(t.State(), lit);
      if tmp > res {
        res, forced, count, first := tmp, lit, 1, i;
      } else if tmp == res {
        count := count + 1;
        second := i;
        if res == t.level && count > 1 {
          AtMostLevel(t, conflict);
          break;
        }
      }
      i := i + 1;
    }
    assert forall l :: l in conflict ==> exists j :: 0 <= j < |conflict| && conflict[j] == l;
    if count != 1 {
      forced := 0;
    }
  }

  /** The highest level in the conflict and the literal that is alone on it; the
      two literals with the highest levels are moved to the front. */
  method FindConflictLevel(t: Internal, conflict: array<int>) returns (res: nat, forced: int)
    requires t.Valid() && Falsified(t.State(), conflict[..]) && conflict.Length >= 2
    modifies conflict
    ensures multiset(conflict[..]) == multiset(old(conflict[..])) && Falsified(t.State(), conflict[..])
    ensures forall l :: l in conflict[..] ==> LevelOf(t.State(), l) <= res
    ensures res > 0 ==> exists l :: l in conflict[..] && LevelOf(t.State(), l) == res
    ensures forced != 0 ==> res > 0 && Alone(t.State(), conflict[..], forced, res) && conflict[0] == forced
    ensures forced == 0 && res > 0 ==> Twice(t.State(), old(conflict[..]), res)
    ensures LevelOf(t.State(), conflict[0]) == res
    ensures forall k :: 2 <= k < conflict.Length ==> LevelOf(t.State(), conflict[k]) <= LevelOf(t.State(), conflict[1])
  {
    ghost var before := conflict[..];
    res, forced := ScanLevels(t, conflict[..]);
    forall k | 0 <= k < conflict.Length ensures LevelOf(t.State(), conflict[k]) <= res {
      assert conflict[k] in conflict[..];
    }
    HighestToFront(t.State(), conflict, res);
    SameMembers(before, conflict[..]);
    HighestFirst(t.State(), before, conflict[..], res);
    assert conflict[0] in conflict[..];
  }

  /** The first literal has the highest level. */
  lemma HighestFirst(s: State, c: Clause, d: Clause, res: nat)
    requires SameLits(c, d) && |d| > 0 && (forall l :: l in c ==> LevelOf(s, l) <= res)
    requires res > 0 ==> exists l :: l in c && LevelOf(s, l) == res
    requires forall k :: 1 <= k < |d| ==> LevelOf(s, d[k]) <= LevelOf(s, d[0])
    ensures LevelOf(s, d[0]) == res
    ensures forall lit: int, k: nat :: Alone(s, c, lit, k) ==> Alone(s, d, lit, k)
    ensures forall lit: int :: Alone(s, c, lit, res) ==> d[0] == lit
  {
    assert d[0] in d;
    if res > 0 {
      var l :| l in c && LevelOf(s, l) == res;
      var k :| 0 <= k < |d| && d[k] == l;
    }
  }

  lemma AtMostLevel(t: Internal, conflict: Clause)
    requires t.Valid() && Falsified(t.State(), conflict)
    ensures forall j :: 0 <= j < |conflict| ==> LevelOf(t.State(), conflict[j]) <= t.level
  {
    forall j | 0 <= j < |conflict| ensures LevelOf(t.State(), conflict[j]) <= t.level {
      assert conflict[j] in conflict;
      NegatedVar(t.State(), conflict[j]);
    }
  }

  /** The position of a literal with the highest level from `i` on. */
  method FindHighest(s: State, lits: array<int>, i: nat, res: nat) returns (highest: nat)
    requires i < lits.Length
    requires forall k :: 0 <= k < lits.Length ==> LevelOf(s, lits[k]) <= res
    ensures i <= highest < lits.Length
    ensures forall k :: i <= k < lits.Length ==> LevelOf(s, lits[k]) <= LevelOf(s, lits[highest])
  {
    highest := i;
    var j := i + 1;
    while j < lits.Length
      invariant i + 1 <= j <= lits.Length && i <= highest < lits.Length
      invariant forall k :: i <= k < j ==> LevelOf(s, lits[k]) <= LevelOf(s, lits[highest])
    {
      if LevelOf(s, lits[highest]) < LevelOf(s, lits[j]) {
        highest := j;
        if LevelOf(s, lits[highest]) == res {
          break;
        }
      }
      j := j + 1;
    }
  }

  /** Moves the two literals with the highest levels to the front. */
  method HighestToFront(s: State, lits: array<int>, res: nat)
    requires lits.Length >= 2
    requires forall k :: 0 <= k < lits.Length ==> LevelOf(s, lits[k]) <= res
    modifies lits
    ensures multiset(lits[..]) == multiset(old(lits[..]))
    ensures forall k :: 1 <= k < lits.Length ==> LevelOf(s, lits[k]) <= LevelOf(s, lits[0])
    ensures forall k :: 2 <= k < lits.Length ==> LevelOf(s, lits[k]) <= LevelOf(s, lits[1])
  {
    hide LevelOf;
    var highest := FindHighest(s, lits, 0, res);
    Swap(lits, 0, highest);
    highest := FindHighest(s, lits, 1, res);
    Swap(lits, 1, highest);
  }

  method Swap(lits: array<int>, i: nat, j: nat)
    requires i <= j < lits.Length
    modifies lits
    ensures multiset(lits[..]) == multiset(old(lits[..]))
    ensures lits[i] == old(lits[j]) && lits[j] == old(lits[i])
    ensures forall k :: 0 <= k < lits.Length && k != i && k != j ==> lits[k] == old(lits[k])
  {
    lits[i], lits[j] := lits[j], lits[i];
  }

  /** Options of the choice of the backtrack level. */
  datatype Options = Options(chronoAlways: bool, assumptions: nat, chronoLevelLimit: int, reuseTrail: bool)

  /** The order of variables in the queue or the heap. */
  ghost predicate StrictWeak(better: (nat, nat) -> bool) {
    && (forall a, b :: better(a, b) ==> !better(b, a))
    && (forall a, b, c {:trigger better(a, c), better(a, b)} :: better(a, c) ==> better(a, b) || better(b, c))
  }

  /** The first of the best variables from `start` on. */
  ghost predicate BestAt(trail: seq<int>, start: nat, end: nat, best: nat, better: (nat, nat) -> bool) {
    && start <= best < end <= |trail|
    && (forall i :: start <= i < best ==> better(Abs(trail[i]), Abs(trail[best])))
    && (forall i :: best <= i < end ==> !better(Abs(trail[best]), Abs(trail[i])))
  }

  /** The levels kept are those that start at or before the best variable. */
  ghost predicate Reuses(s: State, jump: nat, better: (nat, nat) -> bool, res: nat)
    requires jump < Level(s)
  {
    StrictWeak(better) ==>
      exists best :: BestAt(s.trail, s.control[jump + 1].trail, |s.trail|, best, better) && UpTo(s, jump, best, res)
  }

  ghost predicate UpTo(s: State, jump: nat, best: nat, res: nat) {
    forall k :: jump < k < Level(s) ==> (k <= res <==> s.control[k].trail <= best)
  }

  /** The level to go back to.  Without chronological backtracking it is the
      jump level; with it the one below the current level if that is always
      wanted or the jump is over too many levels above the assumptions. */
  ghost predicate ActualLevel(s: State, chrono: bool, opts: Options, better: (nat, nat) -> bool, jump: nat, res: nat) {
    && jump <= res < Level(s)
    && (!chrono ==> res == jump)
    && (chrono && opts.chronoAlways ==> res == Level(s) - 1)
    && (chrono && !opts.chronoAlways && jump < opts.assumptions ==> res == jump)
    && (chrono && !opts.chronoAlways && jump >= opts.assumptions && Level(s) - jump > opts.chronoLevelLimit ==> res == Level(s) - 1)
    && (chrono && !opts.chronoAlways && Level(s) - jump <= opts.chronoLevelLimit && !opts.reuseTrail ==> res == jump)
    && (chrono && !opts.chronoAlways && opts.assumptions <= jump < Level(s) - 1 && Level(s) - jump <= opts.chronoLevelLimit && opts.reuseTrail ==>
          Reuses(s, jump, better, res))
  }

  lemma ControlOrdered(s: State)
    requires Controlled(s)
    ensures forall j, k :: 0 <= j < k < |s.control| ==> s.control[j].trail <= s.control[k].trail
  {
  }

  /** The level to go back to: the jump level, or a higher one with
      chronological backtracking, always below the current level. */
  method DetermineActualBacktrackLevel(t: Internal, jump: nat, opts: Options, better: (nat, nat) -> bool) returns (res: nat)
    requires t.Valid() && jump < t.level && t.control[jump + 1].trail < |t.trail|
    ensures ActualLevel(t.State(), t.chrono, opts, better, jump, res)
  {
    if !t.chrono {
      res := jump;
    } else if opts.chronoAlways {
      res := t.level - 1;
    } else if jump >= t.level - 1 {
      res := jump;
    } else if jump < opts.assumptions {
      res := jump;
    } else if t.level - jump > opts.chronoLevelLimit {
      res := t.level - 1;
    } else if opts.reuseTrail {
      var bestIdx, bestPos := BestVariable(t, t.control[jump + 1].trail, better);
      res := jump;
      ControlOrdered(t.State());
      while res < t.level - 1 && t.control[res + 1].trail <= bestPos
        invariant jump <= res <= t.level - 1
        invariant forall k :: jump < k <= res ==> t.control[k].trail <= bestPos
      {
        res := res + 1;
      }
      assert UpTo(t.State(), jump, bestPos, res);
    } else {
      res := jump;
    }
  }

  /** The best variable on the trail from `start` on. */
  method BestVariable(t: Internal, start: nat, better: (nat, nat) -> bool) returns (bestIdx: nat, bestPos: nat)
    requires t.Valid() && start < |t.trail|
    ensures start <= bestPos < |t.trail| && bestIdx == Abs(t.trail[bestPos]) != 0
    ensures StrictWeak(better) ==> BestAt(t.trail, start, |t.trail|, bestPos, better)
  {
    hide StrictWeak, BestAt;
    bestIdx, bestPos := 0, 0;
    for i := start to |t.trail|
      invariant i > start ==> start <= bestPos < |t.trail| && bestIdx == Abs(t.trail[bestPos]) != 0
      invariant i == start ==> bestIdx == 0
      invariant i > start && StrictWeak(better) ==> BestAt(t.trail, start, i, bestPos, better)
    {
      if StrictWeak(better) {
        BestNext(t.trail, start, i, bestPos, better);
      }
      var idx := Abs(t.trail[i]);
      assert t.trail[i] in t.trail;
      if bestIdx == 0 || better(bestIdx, idx) {
        bestIdx, bestPos := idx, i;
      }
    }
  }

  lemma BestNext(trail: seq<int>, start: nat, i: nat, best: nat, better: (nat, nat) -> bool)
    requires StrictWeak(better) && start <= i < |trail| && (i > start ==> BestAt(trail, start, i, best, better))
    ensures i == start ==> BestAt(trail, start, i + 1, i, better)
    ensures i > start ==>
      BestAt(trail, start, i + 1, if better(Abs(trail[best]), Abs(trail[i])) then i else best, better)
  {
    var idx := Abs(trail[i]);
    assert better(idx, idx) ==> !better(idx, idx);
    if i > start && better(Abs(trail[best]), idx) {
      var b := Abs(trail[best]);
      forall j | start <= j < i ensures better(Abs(trail[j]), idx) {
        var a := Abs(trail[j]);
        if j < best {
          assert better(a, b) ==> better(a, idx) || better(idx, b);
          assert !better(idx, b);
        } else {
          assert better(b, idx) ==> better(b, a) || better(a, idx);
        }
      }
    }
  }

  /** Later in the order of levels and then of the trail. */
  predicate Later(s: State, a: int, b: int) {
    LevelOf(s, a) > LevelOf(s, b) || (LevelOf(s, a) == LevelOf(s, b) && Pos(s, a) >= Pos(s, b))
  }

  ghost predicate Sorted(s: State, c: Clause) {
    forall i, j :: 0 <= i < j < |c| ==> Later(s, c[i], c[j])
  }

  lemma LaterTransitive(s: State, a: int, b: int, c: int)
    requires Later(s, a, b) && Later(s, b, c)
    ensures Later(s, a, c)
  {
  }

  /** Sorts the literals latest first. */
  method SortLatestFirst(s: State, c: Clause) returns (r: Clause)
    ensures multiset(r) == multiset(c) && Sorted(s, r)
  {
    forall x, y, z | Later(s, x, y) && Later(s, y, z) ensures Later(s, x, z) {
      LaterTransitive(s, x, y, z);
    }
    r := SortBy(c, (x, y) => Later(s, x, y));
  }

  /* ---- the driving clause ---- */

  /** After sorting, the literal to assert comes first and the next one is on
      the jump level; all others are on lower levels. */
  lemma SortedDriving(s: State, f: Formula, c: Clause, r: Clause, uip: int)
    requires Learned(s, f, c, uip) && multiset(r) == multiset(c) && Sorted(s, r)
    ensures Learned(s, f, r, uip) && |r| > 0 && r[0] == -uip
    ensures |r| > 1 ==> forall l :: l in r && l != -uip ==> 0 < LevelOf(s, l) <= LevelOf(s, r[1]) < Level(s)
  {
    SameMembers(c, r);
    SameLitsEntailed(f, c, r);
    PermutedNoDup(c, r);
    var i :| 0 <= i < |r| && r[i] == -uip;
    NegatedVar(s, uip);
    assert forall j :: 0 < j < |r| ==> Later(s, r[0], r[j]);
    forall l | l in r && l != -uip && |r| > 1 ensures 0 < LevelOf(s, l) <= LevelOf(s, r[1]) < Level(s) {
      var j :| 0 <= j < |r| && r[j] == l;
      assert r[0] in r && r[1] in r;
      assert j > 1 ==> Later(s, r[1], r[j]);
    }
  }

  /** New clause with the asserted literal first, and the jump level. */
  method NewDrivingClause(s: State, ghost f: Formula, clause: Clause, ghost uip: int) returns (r: Clause, jump: nat)
    requires Learned(s, f, clause, uip) && Placed(s) && Level(s) > 0
    ensures Learned(s, f, r, uip) && |r| > 0 && r[0] == -uip && SameLits(clause, r)
    ensures jump < Level(s) && forall l :: l in r && l != -uip ==> LevelOf(s, l) <= jump
    ensures |r| > 1 ==> jump > 0 && LevelOf(s, r[1]) == jump && r[1] in r && r[1] != -uip
    ensures |r| == 1 ==> jump == 0
  {
    r := SortLatestFirst(s, clause);
    SortedDriving(s, f, clause, r, uip);
    SameMembers(clause, r);
    jump := 0;
    if |r| > 1 {
      assert r[1] in r && r[1] != r[0];
      jump := LevelOf(s, r[1]);
    }
  }

  /* ---- the analysis as a whole ---- */

  /** What analysis did: found the formula unsatisfiable, flipped the only
      literal of the conflict level, or learned a clause and drove its literal.
      If the clean-up drops an auxiliary literal the model stops there. */
  datatype Outcome =
    | Refuted
    | Flipped(lit: int)
    | Driven(learned: Clause, uip: int, jump: nat, newLevel: nat)
    | Unsound

  /** Falsified literals up to the level of backtracking stay false. */
  lemma StaysFalse(s: State, s': State, n: nat, l: int)
    requires Placed(s) && s'.trail == Keep(s, s.trail, n) && l != 0 && -l in s.trail && LevelOf(s, l) <= n
    ensures -l in s'.trail
  {
    NegatedVar(s, l);
    KeepMembers(s, s.trail, n);
  }

  /** Literals above the level of backtracking become unassigned. */
  lemma BecomesUnassigned(s: State, s': State, n: nat, l: int)
    requires Placed(s) && s'.trail == Keep(s, s.trail, n) && l in s.trail && LevelOf(s, l) > n
    ensures Unassigned(s', l) && Unassigned(s', -l)
  {
    Opposite(s, l);
    KeepMembers(s, s.trail, n);
  }

  /** Below the conflict level only the forced literal is not false. */
  lemma AloneAfter(s: State, s': State, f: Formula, conflict: Clause, conflictLevel: nat, forced: int)
    requires ValidTrail(s, f) && Falsified(s, conflict) && conflictLevel > 0
    requires Alone(s, conflict, forced, conflictLevel)
    requires s'.trail == Keep(s, s.trail, conflictLevel - 1)
    ensures forced in conflict && Unassigned(s', forced) && Unassigned(s', -forced)
    ensures forall other :: other in conflict && other != forced ==> other != 0 && -other in s'.trail
  {
    assert forced in conflict && Placed(s);
    NegatedVar(s, forced);
    BecomesUnassigned(s, s', conflictLevel - 1, -forced);
    hide Placed;
    hide LevelOf;
    forall other | other in conflict && other != forced ensures other != 0 && -other in s'.trail {
      StaysFalse(s, s', conflictLevel - 1, other);
    }
  }

  /** Backtracks below the level of the only highest literal and flips it. */
  method FlipForced(t: Internal, conflict: Clause, conflictLevel: nat, forced: int)
    requires t.Valid() && t.chrono && Falsified(t.State(), conflict) && Entails(t.db, conflict)
    requires 0 < conflictLevel <= t.level
    requires Alone(t.State(), conflict, forced, conflictLevel)
    modifies t`vals, t`vtab, t`trail, t`control, t`level, t`propagated
    ensures t.Valid() && t.level == conflictLevel - 1
    ensures t.trail == Keep(old(t.State()), old(t.trail), conflictLevel - 1) + [forced]
  {
    hide ValidTrail;
    hide Entails;
    hide Keep;
    hide Placed;
    hide LevelOf;
    hide ValuesOk;
    hide Falsified;
    hide Alone;
    ghost var s := t.State();
    t.Backtrack(conflictLevel - 1);
    AloneAfter(s, t.State(), t.db, conflict, conflictLevel, forced);
    t.SearchAssignDriving(forced, Clausal(conflict));
  }

  /** A conflict on the root level refutes the formula. */
  lemma RootConflict(t: Internal, conflict: Clause)
    requires t.Valid() && t.level == 0 && Falsified(t.State(), conflict) && Entails(t.db, conflict)
    ensures Unsat(t.db)
  {
    forall l | l in t.trail ensures Entails(t.db, [l]) {
      assert LevelOf(t.State(), l) <= Level(t.State());
      RootEntailed(t.State(), t.db, l);
    }
    FalsifiedUnsat(t.db, conflict, t.trail);
  }

  /** The literal to assert is assigned after the position of the jump level. */
  lemma UipAboveJump(s: State, f: Formula, learned: Clause, uip: int, jump: nat)
    requires ValidTrail(s, f) && Learned(s, f, learned, uip) && jump < Level(s)
    ensures s.control[jump + 1].trail < |s.trail|
  {
    assert uip in s.trail && Pos(s, uip) < |s.trail|;
    assert s.control[jump + 1].trail <= s.control[Level(s)].trail;
    AboveControl(s, uip, jump + 1);
  }

  /** After backtracking the clause can drive its first literal. */
  lemma LearnedAfter(s: State, s': State, f: Formula, learned: Clause, uip: int, jump: nat, newLevel: nat)
    requires ValidTrail(s, f) && Learned(s, f, learned, uip) && jump <= newLevel < Level(s)
    requires s'.trail == Keep(s, s.trail, newLevel) && SameData(s, s')
    requires forall l :: l in learned && l != -uip ==> LevelOf(s, l) <= jump
    ensures Unassigned(s', uip) && Unassigned(s', -uip) && Entails(f, learned) && -uip in learned
    ensures forall l :: l in learned && l != -uip ==> l != 0 && -l in s'.trail && LevelOf(s', l) == LevelOf(s, l)
  {
    BecomesUnassigned(s, s', newLevel, uip);
    forall l | l in learned && l != -uip ensures l != 0 && -l in s'.trail && LevelOf(s', l) == LevelOf(s, l) {
      StaysFalse(s, s', newLevel, l);
      NegatedVar(s, l);
      NegatedVar(s', l);
    }
  }

  /** Goes back to a level from the jump level on and asserts the literal. */
  method Drive(t: Internal, learned: Clause, uip: int, jump: nat, opts: Options, better: (nat, nat) -> bool) returns (newLevel: nat)
    requires t.Valid() && t.level > 0 && Learned(t.State(), t.db, learned, uip) && |learned| > 0
    requires jump < t.level && forall l :: l in learned && l != -uip ==> LevelOf(t.State(), l) <= jump
    requires |learned| > 1 ==> jump > 0 && LevelOf(t.State(), learned[1]) == jump && learned[1] in learned && learned[1] != -uip
    requires |learned| == 1 ==> learned == [-uip] && jump == 0
    modifies t`vals, t`vtab, t`trail, t`control, t`level, t`propagated
    ensures t.Valid() && jump <= newLevel < old(t.level) && t.level == newLevel
    ensures ActualLevel(old(t.State()), t.chrono, opts, better, jump, newLevel)
    ensures t.trail == Keep(old(t.State()), old(t.trail), newLevel) + [-uip]
    ensures LevelOf(t.State(), -uip) == jump
    ensures forall l :: l in learned && l != -uip ==> -l in Keep(old(t.State()), old(t.trail), newLevel)
  {
    hide ValidTrail;
    hide Entails;
    hide Keep;
    hide LevelOf;
    hide ValuesOk;
    hide Learned;
    hide SameData;
    hide Reuses;
    ghost var s := t.State();
    UipAboveJump(s, t.db, learned, uip, jump);
    newLevel := DetermineActualBacktrackLevel(t, jump, opts, better);
    t.Backtrack(newLevel);
    LearnedAfter(s, t.State(), t.db, learned, uip, jump, newLevel);
    if |learned| == 1 {
      t.SearchAssignDriving(-uip, Unit);
    } else {
      DrivenLevel(t.State(), learned, uip, jump);
      t.SearchAssignDriving(-uip, Clausal(learned));
    }
  }

  /** A literal of level `k` or higher is at or after the position of `k`. */
  lemma AboveControl(s: State, l: int, k: nat)
    requires Controlled(s) && l in s.trail && 1 <= k < |s.control| && LevelOf(s, l) >= k
    ensures s.control[k].trail <= Pos(s, l)
  {
    assert LevelOf(s, l) >= k && s.control[k] == s.control[k];
  }

  lemma DrivenLevel(s: State, learned: Clause, uip: int, jump: nat)
    requires |learned| > 1 && learned[1] in learned && learned[1] != -uip && LevelOf(s, learned[1]) == jump
    requires forall l :: l in learned && l != -uip ==> LevelOf(s, l) <= jump
    ensures MaxLevel(s, learned, -uip) == jump
  {
    MaxLevelBounds(s, learned, -uip);
  }

  /** Nothing but literals of the clause of the implication point. */
  ghost predicate FromUipClause(s: State, conflict: Clause, uip: int, c: Clause) {
    forall l {:trigger l in c} :: l in c ==> l == -uip || UipLiteral(s, conflict, uip, l)
  }

  /** Nothing more can be shown redundant, with the numbers and first positions
      of the literals analyzed on each level; those below the conflict level
      are the literals of the clause. */
  ghost predicate MinimizedBy(s: State, full: Clause, c: Clause, analyzed: seq<int>, levels: seq<nat>,
                              counts: map<nat, nat>, trails: map<nat, nat>) {
    && full != [] && full[..|full| - 1] == Lower(s, analyzed) && Accounted(s, analyzed, levels, counts, trails)
    && Minimization.Minimal(s, full, c, counts, trails)
  }

  ghost predicate MinimizedFrom(s: State, full: Clause, c: Clause) {
    (|full| <= 1 && c == full)
    || exists analyzed, levels, counts, trails :: MinimizedBy(s, full, c, analyzed, levels, counts, trails)
  }

  ghost predicate MinimizedUip(s: State, conflict: Clause, uip: int, c: Clause) {
    exists full :: UipClause(s, conflict, uip, full) && MinimizedFrom(s, full, c)
  }

  /** Derives the clause in the default build or in the one that avoids
      auxiliary literals; only the default build minimizes it. */
  method DeriveClause(s: State, ghost f: Formula, conflict: Clause, avoidAux: bool, aux: set<nat>, minimize: bool, limit: int)
    returns (learned: Clause, uip: int)
    requires Conflicting(s, f, conflict)
    ensures avoidAux ==> learned == AuxFreeLearning.Cleaned(s, conflict, aux) && forall l :: l in learned ==> Abs(l) !in aux
    ensures (avoidAux ==> !AuxFreeLearning.Drops(s, conflict, aux)) ==> Learned(s, f, learned, uip)
    ensures FirstPoint(s, conflict, if avoidAux then aux else {}, uip)
    ensures !avoidAux ==> FromUipClause(s, conflict, uip, learned)
    ensures !avoidAux && !minimize ==> UipClause(s, conflict, uip, learned)
    ensures !avoidAux && minimize && limit >= |s.trail| ==> MinimizedUip(s, conflict, uip, learned)
  {
    hide Conflicting, Learned, FirstPoint, UipLiteral, Minimization.Minimal, Accounted, Lower;
    var a := new Analyzer(s, f);
    if avoidAux {
      uip := AuxFreeLearning.Learn(a, conflict, aux);
      learned := a.clause;
    } else {
      uip := a.FirstUip(conflict);
      learned := a.clause;
      ghost var full := learned;
      assert full != [] && full[..|full| - 1] == Lower(s, a.analyzed);
      assert |learned| <= 1 ==> MinimizedFrom(s, full, learned);
      if |learned| > 1 && minimize {
        ConflictingTrail(s, f, conflict);
        var m := new Minimization.Minimizer(s, f, limit, a.seenCount, a.seenTrail);
        learned := m.MinimizeClause(learned, uip);
        assert limit >= |s.trail| ==> MinimizedBy(s, full, learned, a.analyzed, a.levels, a.seenCount, a.seenTrail);
      }
    }
  }

  lemma ConflictingTrail(s: State, f: Formula, conflict: Clause)
    requires Conflicting(s, f, conflict)
    ensures ValidTrail(s, f) && Level(s) > 0
  {
  }

  /** The clause of the outcome is that of the first implication point of the
      conflict in the state `at`, minimized or cleaned from auxiliary literals. */
  ghost predicate FromFirstPoint(at: State, db: Formula, conflict: Clause, avoidAux: bool, aux: set<nat>, minimize: bool, limit: int,
                                 learned: Clause, uip: int, newLevel: nat) {
    && Conflicting(at, db, conflict) && Learned(at, db, learned, uip) && newLevel < Level(at)
    && FirstPoint(at, conflict, if avoidAux then aux else {}, uip)
    && (!avoidAux ==> FromUipClause(at, conflict, uip, learned))
    && (!avoidAux && !minimize ==> UipClause(at, conflict, uip, learned))
    && (!avoidAux && minimize && limit >= |at.trail| ==> exists c :: SameLits(c, learned) && MinimizedUip(at, conflict, uip, c))
  }

  /** The state on the conflict level, to which the solver went back from `s`. */
  ghost predicate OnConflictLevel(s: State, at: State, chrono: bool) {
    if chrono then 0 <= Level(at) <= Level(s) && at.trail == Keep(s, s.trail, Level(at)) && SameData(s, at)
    else at == s
  }

  /** Learns a clause from a conflict with at least one literal on the current
      level, which is not the root level, and asserts its literal. */
  method LearnAndDrive(t: Internal, conflict: Clause, avoidAux: bool, aux: set<nat>, minimize: bool, limit: int,
                       opts: Options, better: (nat, nat) -> bool)
    returns (learned: Clause, uip: int, jump: nat, newLevel: nat)
    requires t.Valid() && Conflicting(t.State(), t.db, conflict)
    requires avoidAux ==> !AuxFreeLearning.Drops(t.State(), conflict, aux)
    modifies t`vals, t`vtab, t`trail, t`control, t`level, t`propagated
    ensures t.Valid() && jump <= newLevel < old(t.level) && t.level == newLevel
    ensures ActualLevel(old(t.State()), t.chrono, opts, better, jump, newLevel)
    ensures Learned(old(t.State()), t.db, learned, uip) && LevelOf(t.State(), -uip) == jump
    ensures t.trail == Keep(old(t.State()), old(t.trail), newLevel) + [-uip]
    ensures forall l :: l in learned && l != -uip ==> -l in Keep(old(t.State()), old(t.trail), newLevel)
    ensures avoidAux ==> forall l :: l in learned ==> Abs(l) !in aux
    ensures FirstPoint(old(t.State()), conflict, if avoidAux then aux else {}, uip)
    ensures !avoidAux ==> FromUipClause(old(t.State()), conflict, uip, learned)
    ensures !avoidAux && !minimize ==> UipClause(old(t.State()), conflict, uip, learned)
    ensures !avoidAux && minimize && limit >= |old(t.trail)| ==>
      exists c :: SameLits(c, learned) && MinimizedUip(old(t.State()), conflict, uip, c)
  {
    hide AuxFreeLearning.Drops, FirstPoint, UipLiteral, ActualLevel, MinimizedUip;
    learned, uip := DeriveClause(t.State(), t.db, conflict, avoidAux, aux, minimize, limit);
    ghost var derived := learned;
    learned, jump := NewDrivingClause(t.State(), t.db, learned, uip);
    assert avoidAux ==> forall l :: l in learned ==> l in derived && Abs(l) !in aux;
    newLevel := Drive(t, learned, uip, jump, opts, better);
  }

  /** The only literal of the highest level is flipped one level below. */
  ghost predicate FlippedBelow(s: State, trail: seq<int>, level: nat, conflict: Clause, lit: int) {
    Alone(s, conflict, lit, level + 1) && trail == Keep(s, s.trail, level) + [lit]
  }

  lemma WentBack(s: State, at: State, n: nat)
    requires n == Level(at) <= Level(s) && at.trail == Keep(s, s.trail, n) && SameData(s, at)
    ensures OnConflictLevel(s, at, true)
  {
  }

  /** Goes back to the level of the conflict, or flips the only literal there. */
  method GoToConflictLevel(t: Internal, conflict: array<int>, ghost aux: set<nat>) returns (forced: int)
    requires t.Valid() && t.chrono && Entails(t.db, conflict[..]) && Falsified(t.State(), conflict[..]) && conflict.Length >= 2
    modifies conflict, t`vals, t`vtab, t`trail, t`control, t`level, t`propagated
    ensures t.Valid() && multiset(conflict[..]) == multiset(old(conflict[..])) && Entails(t.db, conflict[..])
    ensures forced != 0 ==> forced == conflict[0] && |t.trail| > 0 && t.trail[|t.trail| - 1] == forced
    ensures forced != 0 ==> FlippedBelow(old(t.State()), t.trail, t.level, conflict[..], forced)
    ensures forced == 0 && t.level > 0 ==> Twice(old(t.State()), old(conflict[..]), t.level)
    ensures forced == 0 ==> Falsified(t.State(), conflict[..])
    ensures forced == 0 && t.level > 0 ==> exists l :: l in conflict[..] && LevelOf(t.State(), l) == t.level
    ensures forced == 0 ==> OnConflictLevel(old(t.State()), t.State(), true)
    ensures forced == 0 && AuxFreeLearning.NoAuxDecision(old(t.State()), aux) ==> AuxFreeLearning.NoAuxDecision(t.State(), aux)
  {
    AuxFreeLearning.ValidPlaced(t.State(), t.db);
    hide ValidTrail, Keep, SameData, Entails, OnConflictLevel, ValuesOk, Placed, Alone, Twice;
    ghost var before := conflict[..];
    var conflictLevel;
    conflictLevel, forced := FindConflictLevel(t, conflict);
    SameMembers(before, conflict[..]);
    SameLitsEntailed(t.db, before, conflict[..]);
    ConflictLevelBound(t, conflict[..], conflictLevel);
    if forced != 0 {
      FlipForced(t, conflict[..], conflictLevel, forced);
      return;
    }
    ghost var s := t.State();
    t.Backtrack(conflictLevel);
    StillFalsified(s, t.State(), conflict[..], conflictLevel);
    WentBack(s, t.State(), conflictLevel);
    if AuxFreeLearning.NoAuxDecision(s, aux) {
      StillNoAuxDecision(s, t.State(), aux, conflictLevel);
    }
  }

  /** The analysis of a conflict.  Without chronological backtracking a
      conflict has a literal on the current level. */
  method Analyze(t: Internal, conflict: array<int>, avoidAux: bool, aux: set<nat>, minimize: bool, limit: int,
                 opts: Options, better: (nat, nat) -> bool) returns (out: Outcome, ghost at: State)
    requires t.Valid() && Entails(t.db, conflict[..]) && Falsified(t.State(), conflict[..]) && conflict.Length >= 2
    requires !t.chrono && t.level > 0 ==> exists l :: l in conflict[..] && LevelOf(t.State(), l) == t.level
    modifies conflict, t`vals, t`vtab, t`trail, t`control, t`level, t`propagated
    ensures t.Valid() && multiset(conflict[..]) == multiset(old(conflict[..]))
    ensures out.Refuted? ==> Unsat(t.db)
    ensures out.Refuted? <==> !out.Flipped? && Level(at) == 0
    ensures out.Flipped? ==> out.lit in conflict[..] && |t.trail| > 0 && t.trail[|t.trail| - 1] == out.lit
    ensures out.Flipped? ==> t.chrono && FlippedBelow(old(t.State()), t.trail, t.level, conflict[..], out.lit)
    ensures !out.Flipped? && t.chrono && Level(at) > 0 ==> Twice(old(t.State()), old(conflict[..]), Level(at))
    ensures out.Driven? ==>
      && Entails(t.db, out.learned) && out.jump <= out.newLevel == t.level
      && |t.trail| > 0 && t.trail[|t.trail| - 1] == -out.uip && -out.uip in out.learned
      && (forall l :: l in out.learned && l != -out.uip ==> -l in t.trail)
      && (avoidAux ==> forall l :: l in out.learned ==> Abs(l) !in aux)
    ensures out.Unsound? ==>
      && avoidAux && Conflicting(t.State(), t.db, conflict[..])
      && !Entails(AuxDropping.TrailFormula(t.State(), conflict[..]), AuxFreeLearning.Cleaned(t.State(), conflict[..], aux))
    ensures avoidAux && AuxFreeLearning.NoAuxDecision(old(t.State()), aux) ==> !out.Unsound?
    ensures !out.Flipped? ==> OnConflictLevel(old(t.State()), at, t.chrono)
    ensures out.Driven? ==> FromFirstPoint(at, t.db, conflict[..], avoidAux, aux, minimize, limit, out.learned, out.uip, out.newLevel)
    ensures out.Driven? ==> ActualLevel(at, t.chrono, opts, better, out.jump, out.newLevel)
  {
    hide ValidTrail, ValuesOk, Entails, Keep, Learned, FromFirstPoint, SameData, ActualLevel, FlippedBelow, Twice;
    hide AuxFreeLearning.NoAuxDecision, AuxFreeLearning.Drops, AuxFreeLearning.Cleaned;
    if t.chrono {
      var forced := GoToConflictLevel(t, conflict, aux);
      if forced != 0 {
        return Flipped(forced), t.State();
      }
    }
    at := t.State();
    if t.level == 0 {
      RootConflict(t, conflict[..]);
      return Refuted, at;
    }
    out := LearnUnlessDropped(t, conflict[..], avoidAux, aux, minimize, limit, opts, better);
  }

  /** Learns a clause, or stops where the clean-up drops a literal. */
  method LearnUnlessDropped(t: Internal, conflict: Clause, avoidAux: bool, aux: set<nat>, minimize: bool, limit: int,
                            opts: Options, better: (nat, nat) -> bool) returns (out: Outcome)
    requires t.Valid() && Conflicting(t.State(), t.db, conflict)
    modifies t`vals, t`vtab, t`trail, t`control, t`level, t`propagated
    ensures t.Valid() && (out.Driven? || out.Unsound?)
    ensures out.Driven? ==>
      && Entails(t.db, out.learned) && out.jump <= out.newLevel == t.level
      && |t.trail| > 0 && t.trail[|t.trail| - 1] == -out.uip && -out.uip in out.learned
      && (forall l :: l in out.learned && l != -out.uip ==> -l in t.trail)
      && (avoidAux ==> forall l :: l in out.learned ==> Abs(l) !in aux)
    ensures out.Unsound? ==>
      && avoidAux && Conflicting(t.State(), t.db, conflict)
      && !Entails(AuxDropping.TrailFormula(t.State(), conflict), AuxFreeLearning.Cleaned(t.State(), conflict, aux))
    ensures avoidAux && AuxFreeLearning.NoAuxDecision(old(t.State()), aux) ==> !out.Unsound?
    ensures out.Driven? ==> FromFirstPoint(old(t.State()), t.db, conflict, avoidAux, aux, minimize, limit, out.learned, out.uip, out.newLevel)
    ensures out.Driven? ==> ActualLevel(old(t.State()), t.chrono, opts, better, out.jump, out.newLevel)
  {
    hide ValidTrail, ValuesOk, Entails, Keep, Conflicting, FirstPoint, UipClause, FromUipClause, ActualLevel;
    hide AuxFreeLearning.NoAuxDecision, AuxFreeLearning.Drops, AuxFreeLearning.Cleaned, AuxDropping.TrailFormula;
    if avoidAux && AuxFreeLearning.Drops(t.State(), conflict, aux) {
      AuxDropping.DroppedUnsound(t.State(), t.db, conflict, aux);
      if AuxFreeLearning.NoAuxDecision(t.State(), aux) {
        AuxFreeLearning.NoAuxNoDrop(t.State(), t.db, conflict, aux);
      }
      return Unsound;
    }
    var learned, uip, jump, newLevel := LearnAndDrive(t, conflict, avoidAux, aux, minimize, limit, opts, better);
    out := Driven(learned, uip, jump, newLevel);
  }

  lemma ConflictLevelBound(t: Internal, conflict: Clause, res: nat)
    requires t.Valid() && Falsified(t.State(), conflict)
    requires res > 0 ==> exists l :: l in conflict && LevelOf(t.State(), l) == res
    ensures res <= t.level
  {
    AtMostLevel(t, conflict);
    if res > 0 {
      var l :| l in conflict && LevelOf(t.State(), l) == res;
      var j :| 0 <= j < |conflict| && conflict[j] == l;
    }
  }

  /** Backtracking to the conflict level keeps the conflict. */
  lemma StillFalsified(s: State, s': State, conflict: Clause, n: nat)
    requires Placed(s) && Falsified(s, conflict) && s'.trail == Keep(s, s.trail, n) && SameData(s, s')
    requires forall l :: l in conflict ==> LevelOf(s, l) <= n
    ensures Falsified(s', conflict) && forall l :: l in conflict ==> LevelOf(s', l) == LevelOf(s, l)
  {
    forall l | l in conflict ensures l != 0 && -l in s'.trail && LevelOf(s', l) == LevelOf(s, l) {
      StaysFalse(s, s', n, l);
      NegatedVar(s, l);
      NegatedVar(s', l);
    }
  }

  lemma StillNoAuxDecision(s: State, s': State, aux: set<nat>, n: nat)
    requires AuxFreeLearning.NoAuxDecision(s, aux) && s'.trail == Keep(s, s.trail, n) && SameData(s, s')
    ensures AuxFreeLearning.NoAuxDecision(s', aux)
  {
    KeepMembers(s, s.trail, n);
    forall t | t in s'.trail && Abs(t) in aux && LevelOf(s', t) > 0 ensures ReasonOf(s', t).Because? {
      assert t in s.trail && LevelOf(s, t) > 0;
    }
  }
}
