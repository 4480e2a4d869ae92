/** Probing: assigns a literal on decision level one, propagates it with hyper
    binary resolution and learns units when it fails. */
module FailedLiterals {
  import opened Logic
  import opened Probing
  import opened ProbeClauses

  function AssignedVars(trail: seq<int>): set<nat> {
    set l | l in trail :: Abs(l)
  }

  ghost predicate InVars(vars: set<nat>, trail: seq<int>) {
    forall l :: l in trail ==> Abs(l) in vars
  }

  ghost function Free(vars: set<nat>, trail: seq<int>): nat {
    |vars - AssignedVars(trail)|
  }

  /** The trail grows on the same level. */
  ghost predicate Extends(vars: set<nat>, level: nat, a: Tree, b: Tree) {
    && a.trail <= b.trail && (level == 1 ==> a.start == b.start)
    && (a == b || Free(vars, b.trail) < Free(vars, a.trail))
  }

  lemma ExtendsLess(vars: set<nat>, level: nat, a: Tree, b: Tree)
    requires Extends(vars, level, a, b)
    ensures a == b || Free(vars, b.trail) < Free(vars, a.trail)
  {
  }

  lemma ExtendsOn(vars: set<nat>, level: nat, a: Tree, b: Tree, c: Tree)
    requires Extends(vars, level, a, b) && Extends(vars, level, b, c)
    ensures Extends(vars, level, a, c)
  {
  }

  lemma FewerFree(vars: set<nat>, trail: seq<int>, l: int)
    requires Abs(l) in vars && l !in trail && -l !in trail
    ensures Free(vars, trail + [l]) < Free(vars, trail)
  {
    assert AssignedVars(trail + [l]) == AssignedVars(trail) + {Abs(l)};
    assert Abs(l) !in AssignedVars(trail);
    assert vars - AssignedVars(trail + [l]) == vars - AssignedVars(trail) - {Abs(l)};
  }

  /** No conflict, or an entailed false clause, above the root level at level one. */
  ghost predicate ConflictOk(t: Tree, f: Formula, level: nat, conflict: Clause) {
    conflict != [] ==>
      && Entails(f, conflict) && Falsified(t, conflict)
      && (level == 1 ==> exists l :: l in conflict && LevelOf(t, -l) != 0)
  }

  lemma ConflictGrow(t: Tree, f: Formula, level: nat, conflict: Clause, lit: int, parent: int)
    requires ConflictOk(t, f, level, conflict)
    ensures ConflictOk(Assigned(t, lit, parent, level), f, level, conflict)
    requires Unassigned(t, lit)
  {
    AssignedFrame(t, lit, parent, level);
    hide Entails;
  }

  lemma RootHolds(t: Tree, f: Formula, l: int)
    requires TreeOk(t, f) && t.start == |t.trail| && l in t.trail
    ensures Entails(f, [l])
  {
    var i :| 0 <= i < |t.trail| && t.trail[i] == l;
  }

  /** The probe comes first on level one and the root level stays. */
  lemma ProbedTrail(vars: set<nat>, root: Tree, probe: int, before: Tree, after: Tree)
    requires root.start == |root.trail| && before == Assigned(root, probe, 0, 1) && Extends(vars, 1, before, after)
    ensures after.start < |after.trail| && after.trail[after.start] == probe
    ensures after.trail[..after.start] == root.trail && RootOnly(after).trail == root.trail
  {
    assert after.trail[|root.trail|] == before.trail[|root.trail|];
    assert after.trail[..|root.trail|] == before.trail[..|root.trail|];
  }

  lemma NowUnassigned(t: Tree, l: int)
    requires l != 0 && l !in t.trail && -l !in t.trail
    ensures Unassigned(t, l)
  {
  }

  lemma StartLength(t: Tree, f: Formula)
    requires TreeOk(t, f)
    ensures t.start <= |t.trail|
  {
  }

  lemma TrailNode(t: Tree, f: Formula, n: nat)
    requires TreeOk(t, f) && t.start <= n < |t.trail|
    ensures Node(t, t.trail[n]) && LevelOf(t, t.trail[n]) == 1
  {
  }

  /** The other literal of a binary clause follows from the false one. */
  lemma BinaryImplies(f: Formula, c: Clause, lit: int, blit: int)
    requires Entails(f, c) && |c| == 2 && (c == [lit, blit] || c == [blit, lit])
    ensures Entails(f, [lit, blit])
  {
    SameLitsEntailed(f, c, [lit, blit]);
  }

  function Swap(c: Clause, i: nat, j: nat): Clause
    requires i < |c| && j < |c|
  {
    c[i := c[j]][j := c[i]]
  }

  lemma SwapSame(c: Clause, i: nat, j: nat)
    requires i < |c| && j < |c|
    ensures NoDup(c) ==> NoDup(Swap(c, i, j))
    ensures SameLits(c, Swap(c, i, j)) && |Swap(c, i, j)| == |c|
  {
    var d := Swap(c, i, j);
    forall l | l in c ensures l in d {
      var k :| 0 <= k < |c| && c[k] == l;
      assert d[if k == i then j else if k == j then i else k] == l;
    }
  }

  /** Moves the two literals that were watched to the front. */
  method WatchedFirst(c: Clause, other: int, lit: int) returns (d: Clause)
    requires other in c && lit in c && other != lit && |c| >= 2 && NoDup(c)
    ensures NoDup(d) && SameLits(c, d) && |d| == |c| && d[0] == other && d[1] == lit
  {
    var i :| 0 <= i < |c| && c[i] == other;
    SwapSame(c, 0, i);
    d := Swap(c, 0, i);
    var j :| 0 <= j < |d| && d[j] == lit;
    SwapSame(d, 1, j);
    d := Swap(d, 1, j);
  }

  /** The closest dominator of the false literals of a clause that became unit
      on level one, and how many after the second one are above the root. */
  method ReasonDominator(t: Tree, ghost f: Formula, lits: Clause) returns (dom: int, nonRoot: nat)
    requires TreeOk(t, f) && |lits| > 2 && Falsified(t, lits[1..]) && LevelOf(t, -lits[1]) == 1
    ensures Node(t, dom) && DominatesAll(t, dom, lits[1..])
    ensures nonRoot > 0 <==> exists k :: 2 <= k < |lits| && LevelOf(t, -lits[k]) != 0
  {
    dom := -lits[1];
    assert lits[1..][0] == lits[1] && lits[1] in lits[1..];
    LevelNode(t, f, dom);
    nonRoot := 0;
    assert lits[1..2] == [] + [lits[1]];
    DominatesFirst(t, [], lits[1]);
    var k := 2;
    hide TreeOk, Node, Dominates, DominatesAll, CommonAncestor, LevelOf;
    while k < |lits|
      invariant 2 <= k <= |lits| && Node(t, dom) && DominatesAll(t, dom, lits[1..k])
      invariant nonRoot > 0 <==> exists j :: 2 <= j < k && LevelOf(t, -lits[j]) != 0
    {
      var other := -lits[k];
      assert lits[1..][k - 1] == lits[k] && lits[k] in lits[1..];
      assert lits[1..k + 1] == lits[1..k] + [lits[k]];
      if LevelOf(t, other) == 0 {
        DominatesRoot(t, dom, lits[1..k], lits[k]);
      } else {
        LevelNode(t, f, other);
        var up := ProbeDominator(t, f, dom, other);
        DominatesStep(t, dom, lits[1..k], lits[k], up);
        dom := up;
        nonRoot := nonRoot + 1;
      }
      k := k + 1;
    }
    assert lits[1..|lits|] == lits[1..];
  }

  /** Nodes become unassigned when leaving level one. */
  lemma NodesFree(t: Tree, f: Formula, vars: set<nat>)
    requires TreeOk(t, f) && InVars(vars, t.trail)
    ensures forall p :: Node(t, p) ==> p != 0 && Abs(p) in vars && Unassigned(RootOnly(t), -p)
  {
    RootOnlyOk(t, f);
    forall p | Node(t, p) ensures p != 0 && Abs(p) in vars && Unassigned(RootOnly(t), -p) {
      assert p in t.trail && Unassigned(RootOnly(t), p);
    }
  }

  /** The closest dominator of the literals of a conflict above the root. */
  method ConflictDominator(t: Tree, ghost f: Formula, conflict: Clause) returns (uip: int)
    requires TreeOk(t, f) && Entails(f, conflict) && Falsified(t, conflict)
    requires exists l :: l in conflict && LevelOf(t, -l) != 0
    ensures Node(t, uip) && DominatesAll(t, uip, conflict) && Entails(f, [-uip])
  {
    uip := 0;
    hide TreeOk, Node, Dominates, DominatesAll, CommonAncestor, LevelOf, Entails;
    for i := 0 to |conflict|
      invariant uip == 0 ==> forall l :: l in conflict[..i] ==> LevelOf(t, -l) == 0
      invariant uip != 0 ==> Node(t, uip) && DominatesAll(t, uip, conflict[..i])
    {
      var other := -conflict[i];
      assert conflict[i] in conflict;
      assert conflict[..i + 1] == conflict[..i] + [conflict[i]];
      if LevelOf(t, other) == 0 {
        if uip != 0 {
          DominatesRoot(t, uip, conflict[..i], conflict[i]);
        }
      } else {
        LevelNode(t, f, other);
        if uip != 0 {
          var up := ProbeDominator(t, f, uip, other);
          DominatesStep(t, uip, conflict[..i], conflict[i], up);
          uip := up;
          NodeNonzero(t, uip);
        } else {
          uip := other;
          DominatesFirst(t, conflict[..i], conflict[i]);
        }
      }
    }
    assert conflict[..|conflict|] == conflict;
    DominatesCovers(t, f, uip, conflict);
    DominatorRefuted(t, f, conflict, uip);
  }

  lemma NodeNonzero(t: Tree, l: int)
    requires Node(t, l)
    ensures l != 0
  {
  }

  lemma DominatesCovers(t: Tree, f: Formula, dom: int, c: Clause)
    requires TreeOk(t, f) && Falsified(t, c) && DominatesAll(t, dom, c)
    ensures forall l :: l in c ==> l != 0 && Covered(t, f, dom, l)
  {
    CommonCovers(t, f, dom, c);
  }

  lemma ParentRefuted(t: Tree, f: Formula, l: int)
    requires TreeOk(t, f) && Node(t, l) && Pos(t, l) != t.start && Entails(f, [-l])
    ensures Entails(f, [-ParentOf(t, l)])
  {
    assert NodeOk(t, f, l);
    var p := ParentOf(t, l);
    forall m | Models(m, f) ensures Satisfies(m, [-p]) {
      UnitHolds(f, -l, m);
      assert Satisfies(m, [-p, l]) && -p in [-p];
    }
  }

  lemma ParentNode(t: Tree, f: Formula, l: int)
    requires TreeOk(t, f) && Node(t, l) && l != t.trail[t.start]
    ensures Node(t, ParentOf(t, l)) && Pos(t, ParentOf(t, l)) < Pos(t, l) && Pos(t, l) != t.start
    ensures forall a :: Ancestor(t, a, l) <==> a == l || Ancestor(t, a, ParentOf(t, l))
  {
    assert NodeOk(t, f, l);
  }

  /** The ancestors of a refuted literal up to the probe, all refuted with it. */
  method Parents(t: Tree, ghost f: Formula, uip: int, failed: int) returns (work: seq<int>)
    requires TreeOk(t, f) && Node(t, uip) && Entails(f, [-uip])
    requires t.start < |t.trail| && t.trail[t.start] == failed
    ensures forall p :: p in work ==> Node(t, p) && Entails(f, [-p])
    ensures forall a :: Ancestor(t, a, uip) <==> a == uip || a in work
  {
    work := [];
    var parent := uip;
    while parent != failed
      invariant Node(t, parent) && Entails(f, [-parent])
      invariant forall p :: p in work ==> Node(t, p) && Entails(f, [-p])
      invariant parent == uip || parent in work
      invariant forall a :: Ancestor(t, a, uip) <==> a == uip || a in work || Ancestor(t, a, parent)
      decreases Pos(t, parent)
    {
      ParentNode(t, f, parent);
      ParentRefuted(t, f, parent);
      hide TreeOk, Entails, Node, Pos;
      parent := ParentOf(t, parent);
      work := work + [parent];
    }
    ProbeAlone(t, f, failed);
  }

  ghost predicate AllFalse(trail: seq<int>, work: seq<int>) {
    forall p :: p in work ==> -p in trail
  }

  ghost predicate Ancestors(t: Tree, uip: int, work: seq<int>) {
    forall a :: Ancestor(t, a, uip) <==> a == uip || a in work
  }

  lemma AncestorsFalse(t: Tree, uip: int, work: seq<int>, before: seq<int>, trail: seq<int>)
    requires Ancestors(t, uip, work) && AllFalse(trail, work) && -uip in before && before <= trail
    ensures forall a :: Ancestor(t, a, uip) ==> -a in trail
  {
    PrefixMembers(before, trail);
  }

  lemma ProbeAlone(t: Tree, f: Formula, failed: int)
    requires TreeOk(t, f) && t.start < |t.trail| && t.trail[t.start] == failed
    ensures forall a :: Ancestor(t, a, failed) <==> a == failed
  {
    TrailNode(t, f, t.start);
    assert NodeOk(t, f, failed);
  }

  lemma ClashRefutes(f: Formula, l: int)
    requires Entails(f, [l]) && Entails(f, [-l]) && l != 0
    ensures Unsat(f)
  {
    forall m ensures !Models(m, f) {
      if Models(m, f) {
        UnitHolds(f, l, m);
        UnitHolds(f, -l, m);
      }
    }
  }

  /** The dominator implies the first literal. */
  lemma ReasonImplied(t: Tree, f: Formula, lits: Clause, dom: int)
    requires TreeOk(t, f) && Entails(f, lits) && |lits| > 2 && Falsified(t, lits[1..])
    requires Node(t, dom) && DominatesAll(t, dom, lits[1..])
    ensures Entails(f, [-dom, lits[0]])
  {
    CommonCovers(t, f, dom, lits[1..]);
    forall l | l in lits && l != lits[0] ensures l in lits[1..] {
      var k :| 0 <= k < |lits| && lits[k] == l;
      assert lits[1..][k - 1] == l;
    }
    hide Covered, TreeOk, Entails;
    DominatorImplies(t, f, lits, lits[0], dom);
  }

  lemma DominatorNode(t: Tree, f: Formula, vars: set<nat>, dom: int)
    requires TreeOk(t, f) && Node(t, dom) && InVars(vars, t.trail)
    ensures dom != 0 && Abs(dom) in vars && dom in t.trail && dom !in t.trail[..t.start]
  {
    forall i | 0 <= i < t.start ensures t.trail[i] != dom {
      assert Pos(t, t.trail[i]) == i;
    }
  }

  lemma RestFalse(t: Tree, c: Clause, d: Clause, other: int)
    requires SameLits(c, d) && NoDup(d) && d != [] && d[0] == other
    requires forall l :: l in c && l != other ==> l != 0 && -l in t.trail
    ensures Falsified(t, d[1..])
  {
    forall l | l in d[1..] ensures l != 0 && -l in t.trail {
      var k :| 0 <= k < |d[1..]| && d[1..][k] == l;
      assert d[k + 1] == l && l in d;
    }
  }

  /** Clauses without the false literal need no look. */
  lemma Skipped(trail: seq<int>, n: nat, i: nat, clauses: seq<Stored>, lit: int, binary: bool)
    requires i < |clauses| && n < |trail| && -lit == trail[n] && Scanned(trail, n, i, clauses, binary)
    requires Relevant(clauses[i], binary) ==> lit !in clauses[i].lits
    ensures Scanned(trail, n, i + 1, clauses, binary)
  {
    if Relevant(clauses[i], binary) {
      CheckedNext(trail, n, clauses[i].lits);
    }
  }

  lemma SatisfiedStep(before: seq<int>, trail: seq<int>, n: nat, i: nat, clauses: seq<Stored>, binary: bool, l: int, needed: bool)
    requires i < |clauses| && before <= trail && n < |before| && l in clauses[i].lits && l in trail
    requires needed ==> Scanned(before, n, i, clauses, binary)
    ensures needed ==> Scanned(trail, n, i + 1, clauses, binary)
  {
    if needed {
      ScanGrow(before, trail, n, i, clauses, binary);
      ScanStep(trail, n, i, clauses, binary);
    }
  }

  /** A satisfied clause, or one with two literals that are not false. */
  lemma OpenStep(trail: seq<int>, n: nat, i: nat, clauses: seq<Stored>, needed: bool)
    requires i < |clauses| && n < |trail|
    requires SatisfiedBy(trail, clauses[i].lits) || TwoOpen(trail, clauses[i].lits)
    requires needed ==> Scanned(trail, n, i, clauses, false)
    ensures needed ==> Scanned(trail, n, i + 1, clauses, false)
  {
    var c := clauses[i].lits;
    if !SatisfiedBy(trail, c) {
      var a, b :| a in c && b in c && a != b && -a !in trail && -b !in trail;
      CheckedOpen(trail, n + 1, c, a, b);
    }
  }

  /** A long clause satisfied by assigning its last literal on the root level. */
  lemma ScanGrow2(before: seq<int>, trail: seq<int>, p: nat, n: nat, i: nat, clauses: seq<Stored>, l: int, needed: bool)
    requires i < |clauses| && before <= trail && n < |before| && l in clauses[i].lits && l in trail
    requires needed ==> Scanned(before, p, 0, clauses, true) && Scanned(before, n, i, clauses, false)
    ensures needed ==> Scanned(trail, p, 0, clauses, true) && Scanned(trail, n, i + 1, clauses, false)
  {
    if needed {
      ScanGrow(before, trail, p, 0, clauses, true);
      SatisfiedStep(before, trail, n, i, clauses, false, l, needed);
    }
  }

  /* ---- attempts ---- */

  /** One scheduled probe: what was on the root level before and after it, and
      what propagating it gave. */
  datatype Attempt = Attempt(probe: int, root: seq<int>, failed: bool, tried: Tree, seen: seq<Stored>,
                             uip: int, unsat: bool, after: seq<int>)

  /** A probe that is not assigned is propagated until a clause is falsified
      or nothing is left to propagate; in the first case all ancestors of what
      falsifies it are refuted. */
  ghost predicate AttemptOk(a: Attempt) {
    if a.probe in a.root || -a.probe in a.root then a.after == a.root
    else
      && PropagatedFrom(a.root, a.probe, a.tried.trail, a.seen)
      && if a.failed then FailedOk(a) else AtFixpoint(a.tried.trail, a.seen) && a.after == a.root && !a.unsat
  }

  ghost predicate FailedOk(a: Attempt) {
    && Blames(a.tried, a.uip, a.seen) && Ancestor(a.tried, a.probe, a.uip) && a.root <= a.after
    && (a.unsat || (-a.probe in a.after && forall b :: Ancestor(a.tried, b, a.uip) ==> -b in a.after))
  }

  ghost predicate AttemptAt(schedule: seq<int>, attempts: seq<Attempt>, from: seq<int>, k: nat)
    requires k < |attempts| <= |schedule|
  {
    && attempts[k].probe == schedule[|schedule| - 1 - k] && AttemptOk(attempts[k])
    && attempts[k].root == if k == 0 then from else attempts[k - 1].after
  }

  /** The scheduled probes were tried one after the other, the last one first. */
  ghost predicate Attempted(schedule: seq<int>, attempts: seq<Attempt>, from: seq<int>, to: seq<int>) {
    && |attempts| <= |schedule|
    && (forall k :: 0 <= k < |attempts| ==> AttemptAt(schedule, attempts, from, k))
    && to == if attempts == [] then from else attempts[|attempts| - 1].after
  }

  lemma AttemptedNone(schedule: seq<int>, from: seq<int>)
    ensures Attempted(schedule, [], from, from)
  {
  }

  lemma AttemptedNext(schedule: seq<int>, attempts: seq<Attempt>, from: seq<int>, a: Attempt)
    requires Attempted(schedule, attempts, from, a.root) && |attempts| < |schedule|
    requires a.probe == schedule[|schedule| - 1 - |attempts|] && AttemptOk(a)
    ensures Attempted(schedule, attempts + [a], from, a.after)
  {
    hide AttemptOk;
    var more := attempts + [a];
    forall k | 0 <= k < |more| ensures AttemptAt(schedule, more, from, k) {
      if k < |attempts| {
        assert AttemptAt(schedule, attempts, from, k);
      }
    }
  }

  lemma TriedOk(a: Attempt)
    requires PropagatedFrom(a.root, a.probe, a.tried.trail, a.seen)
    requires !a.failed ==> AtFixpoint(a.tried.trail, a.seen) && a.after == a.root && !a.unsat
    requires a.failed ==> Blames(a.tried, a.uip, a.seen) && Ancestor(a.tried, a.probe, a.uip) && a.root <= a.after
    requires a.failed ==> a.unsat || (-a.probe in a.after && forall b :: Ancestor(a.tried, b, a.uip) ==> -b in a.after)
    requires a.probe !in a.root && -a.probe !in a.root
    ensures AttemptOk(a)
  {
  }

  lemma SkippedOk(a: Attempt)
    requires (a.probe in a.root || -a.probe in a.root) && a.after == a.root
    ensures AttemptOk(a)
  {
  }

  class Prober {
    ghost const f: Formula
    ghost const vars: set<nat>
    const probehbr: bool
    var clauses: seq<Stored>
    var tree: Tree
    var level: nat
    var propagated: nat
    var propagated2: nat
    var conflict: Clause
    var unsat: bool

    ghost predicate Valid()
      reads this
    {
      && TreeOk(tree, f) && InVars(vars, tree.trail)
      && ClausesOk(f, vars, clauses) && Kept(f, clauses, tree.trail[..tree.start])
      && level <= 1 && (level == 0 ==> tree.start == |tree.trail|)
      && propagated <= |tree.trail| && propagated2 <= |tree.trail|
      && (level == 1 ==> tree.start <= propagated && tree.start <= propagated2)
      && (level == 1 ==> Closed(tree.trail[..tree.start], clauses))
      && ConflictOk(tree, f, level, conflict) && (conflict != [] ==> Among(clauses, conflict))
      && (level == 1 ==> Justified(tree.trail, tree.start + 1, clauses))
      && (unsat ==> Unsat(f))
    }

    /** Everything assigned has been propagated without conflict. */
    ghost predicate Settled()
      reads this
    {
      conflict == [] && propagated == |tree.trail| && Closed(tree.trail, clauses)
    }

    /** Binary clauses are scanned as far as propagated, the first `i` long ones
        against one assignment more than `n`. */
    ghost predicate Scans(n: nat, i: nat)
      reads this
    {
      Scanned(tree.trail, propagated2, 0, clauses, true) && Scanned(tree.trail, n, i, clauses, false)
    }

    lemma LongClause(i: nat)
      requires Valid() && i < |clauses|
      ensures ClauseOk(f, vars, clauses[i])
    {
    }

    /** Takes over clauses and trail of the solver on the root level. */
    constructor (ghost db: Formula, cs: seq<Stored>, ghost vs: set<nat>, t: Tree, hbr: bool)
      requires TreeOk(t, db) && t.start == |t.trail| && InVars(vs, t.trail)
      requires ClausesOk(db, vs, cs) && Kept(db, cs, t.trail)
      ensures Valid() && level == 0 && conflict == [] && !unsat && f == db && vars == vs
      ensures clauses == cs && tree == t && probehbr == hbr && propagated == 0
      ensures Scanned(tree.trail, propagated, 0, clauses, true) && Scanned(tree.trail, propagated, 0, clauses, false)
    {
      f, vars, probehbr := db, vs, hbr;
      clauses, tree, level, propagated, propagated2, conflict, unsat := cs, t, 0, 0, 0, [], false;
      new;
      assert t.trail[..t.start] == t.trail;
      ScanStart(db, vs, t.trail, cs, true);
      ScanStart(db, vs, t.trail, cs, false);
    }

    /** Assigns a literal with its parent on the current level. */
    method ProbeAssign(lit: int, parent: int)
      requires Valid() && Unassigned(tree, lit) && Abs(lit) in vars
      requires level == 0 ==> Entails(f, [lit])
      requires level == 1 && parent != 0 ==> Node(tree, parent) && Entails(f, [-parent, lit])
      requires level == 1 && parent != 0 ==> Forces(tree.trail, clauses, lit)
      requires level == 1 && parent == 0 ==> tree.start == |tree.trail|
      modifies `tree
      ensures Valid() && tree == Assigned(old(tree), lit, parent, level)
      ensures Free(vars, tree.trail) < Free(vars, old(tree.trail))
    {
      hide TreeOk, Kept, ClausesOk, ConflictOk, Closed, Free, Entails, NodeOk, Node, VarOf, ParentOf, Among, Justified;
      if level == 0 {
        AssignRoot(tree, f, lit, parent);
        KeptWithUnits(f, clauses, tree.trail[..tree.start], tree.trail + [lit]);
        assert (tree.trail + [lit])[..tree.start + 1] == tree.trail + [lit];
      } else {
        if parent == 0 {
          AssignProbe(tree, f, lit);
          JustifiedProbe(tree.trail + [lit], clauses);
        } else {
          JustifiedNext(tree.trail, tree.start + 1, clauses, lit);
          AssignNode(tree, f, lit, parent);
        }
        StartLength(tree, f);
        assert (tree.trail + [lit])[..tree.start] == tree.trail[..tree.start];
      }
      ConflictGrow(tree, f, level, conflict, lit, parent);
      FewerFree(vars, tree.trail, lit);
      tree := Assigned(tree, lit, parent, level);
    }

    method ProbeAssignDecision(lit: int)
      requires Valid() && level == 0 && Settled() && Unassigned(tree, lit) && Abs(lit) in vars
      modifies `tree, `level, `propagated2
      ensures Valid() && level == 1
      ensures tree == Assigned(old(tree), lit, 0, 1) && old(tree.start) == |old(tree.trail)| && conflict == []
      ensures Scanned(tree.trail, propagated, 0, clauses, true) && Scanned(tree.trail, propagated, 0, clauses, false)
    {
      hide TreeOk, Kept, ClausesOk, Scanned;
      propagated2 := propagated;
      level := 1;
      assert tree.trail[..tree.start] == tree.trail;
      ghost var before := tree.trail;
      ProbeAssign(lit, 0);
      ScanGrow(before, tree.trail, propagated, 0, clauses, true);
      ScanGrow(before, tree.trail, propagated, 0, clauses, false);
    }

    method ProbeAssignUnit(lit: int)
      requires Valid() && level == 0 && Unassigned(tree, lit) && Abs(lit) in vars && Entails(f, [lit])
      modifies `tree
      ensures Valid() && tree == Assigned(old(tree), lit, 0, 0)
      ensures Free(vars, tree.trail) < Free(vars, old(tree.trail))
    {
      ProbeAssign(lit, 0);
    }

    /** Leaves level one. */
    method Backtrack()
      requires Valid() && level == 1 && conflict == []
      modifies `tree, `level, `propagated, `propagated2
      ensures Valid() && level == 0 && Settled()
      ensures tree == RootOnly(old(tree))
    {
      RootOnlyOk(tree, f);
      hide TreeOk, Kept, ClausesOk, Closed;
      ghost var root := tree.trail[..tree.start];
      PrefixMembers(root, tree.trail);
      assert root[..tree.start] == root;
      tree := RootOnly(tree);
      level, propagated, propagated2 := 0, tree.start, tree.start;
    }

    /* ---- hyper binary resolution ---- */

    /** Resolves a clause that became unit on level one to a binary clause with
        the closest dominator of its false literals.  The resolvent is
        irredundant exactly if it replaces an irredundant clause, so that the
        models of the irredundant clauses stay the same. */
    method HyperBinaryResolve(i: nat) returns (dom: int)
      requires Valid() && level == 1 && i < |clauses| && |clauses[i].lits| > 2 && !clauses[i].garbage
      requires Unassigned(tree, clauses[i].lits[0]) && Falsified(tree, clauses[i].lits[1..])
      requires LevelOf(tree, -clauses[i].lits[1]) == 1
      modifies `clauses
      ensures Valid() && Node(tree, dom) && DominatesAll(tree, dom, old(clauses[i].lits[1..]))
      ensures Entails(f, [-dom, old(clauses[i].lits[0])])
      ensures clauses == if probehbr && (exists k :: 2 <= k < |old(clauses)[i].lits| && LevelOf(tree, -old(clauses)[i].lits[k]) != 0)
                         then HyperResolved(old(clauses), i, dom) else old(clauses)
    {
      var lits := clauses[i].lits;
      var nonRoot;
      dom, nonRoot := ReasonDominator(tree, f, lits);
      DominatorNode(tree, f, vars, dom);
      ReasonImplied(tree, f, lits, dom) by {
        assert ClauseOk(f, vars, clauses[i]);
      }
      if nonRoot > 0 && probehbr {
        HyperKept(f, clauses, i, dom, tree.trail[..tree.start]);
        HyperClausesOk(f, vars, clauses, i, dom);
        PrefixMembers(tree.trail[..tree.start], tree.trail);
        HyperClosed(tree.trail[..tree.start], clauses, i, dom);
        HyperKeeps(clauses, i, dom);
        StillJustified(HyperResolved(clauses, i, dom));
        clauses := HyperResolved(clauses, i, dom);
      }
    }

    /** What was derived from the clauses is derived from more clauses, too. */
    lemma StillJustified(after: seq<Stored>)
      requires Valid() && KeepsClauses(clauses, after)
      ensures conflict != [] ==> Among(after, conflict)
      ensures level == 1 ==> Justified(tree.trail, tree.start + 1, after)
    {
      if conflict != [] {
        AmongKept(clauses, after, conflict);
      }
      if level == 1 {
        JustifiedKept(tree.trail, tree.start + 1, clauses, after);
      }
    }

    /** Forces the last literal of a long clause that became unit on level one
        when `lit` became false, with the dominator as parent. */
    method ForceUnit(i: nat, other: int, lit: int, ghost n: nat)
      requires Valid() && level == 1 && i < |clauses| && Relevant(clauses[i], false)
      requires other in clauses[i].lits && lit in clauses[i].lits && Unassigned(tree, other)
      requires forall l :: l in clauses[i].lits && l != other ==> -l in tree.trail
      requires tree.start <= n < |tree.trail| && -lit == tree.trail[n]
      requires conflict == [] ==> Scans(n, i)
      modifies `clauses, `tree
      ensures Valid() && Extends(vars, level, old(tree), tree) && tree != old(tree)
      ensures |old(clauses)| <= |clauses|
      ensures conflict == [] ==> Scans(n, i + 1)
    {
      hide TreeOk, Kept, ClausesOk, ConflictOk, Closed, Scanned, DominatesAll, Node;
      LongClause(i);
      var d := WatchedFirst(clauses[i].lits, other, lit);
      ghost var before := clauses;
      ReorderedKept(f, vars, clauses, i, d, tree.trail[..tree.start]);
      ReorderedClosed(tree.trail[..tree.start], clauses, i, d);
      ReorderedKeeps(clauses, i, d);
      StillJustified(clauses[i := clauses[i].(lits := d)]);
      clauses := clauses[i := clauses[i].(lits := d)];
      RestFalse(tree, before[i].lits, d, other);
      TrailNode(tree, f, n);
      var dom := HyperBinaryResolve(i);
      assert Forced(before, clauses, i, d, dom);
      if conflict == [] {
        ForcedScan(tree.trail, n, propagated2, before, clauses, i, d, dom);
      }
      DominatorNode(tree, f, vars, dom);
      ProbeAssign(other, dom);
    }

    /* ---- propagation ---- */

    /** A clause with only false literals, one of them propagated just now. */
    lemma ConflictFound(i: nat, c: Clause, lit: int, n: nat)
      requires Valid() && i < |clauses| && clauses[i].lits == c && Entails(f, c) && lit in c && forall l :: l in c ==> l != 0 && -l in tree.trail
      requires n < |tree.trail| && -lit == tree.trail[n] && (level == 1 ==> tree.start <= n)
      ensures ConflictOk(tree, f, level, c) && Among(clauses, c)
    {
      assert SameLits(clauses[i].lits, c);
    }

    /** Why the other literal of a binary clause may be assigned. */
    lemma BinaryForces(i: nat, lit: int, blit: int, n: nat)
      requires Valid() && i < |clauses| && |clauses[i].lits| == 2 && (clauses[i].lits == [lit, blit] || clauses[i].lits == [blit, lit])
      requires n < |tree.trail| && -lit == tree.trail[n] && (level == 1 ==> tree.start <= n)
      ensures level == 0 ==> Entails(f, [blit])
      ensures level == 1 ==> Node(tree, -lit) && Entails(f, [lit, blit])
      ensures Forces(tree.trail, clauses, blit)
    {
      assert blit in clauses[i].lits && -lit in tree.trail;
      assert ClauseOk(f, vars, clauses[i]) && lit in clauses[i].lits;
      BinaryImplies(f, clauses[i].lits, lit, blit);
      if level == 0 {
        RootUnit(clauses[i].lits, blit);
      } else {
        TrailNode(tree, f, n);
      }
    }

    /** A clause that is unit on the root level. */
    lemma RootUnit(c: Clause, unit: int)
      requires Valid() && level == 0 && Entails(f, c) && forall l :: l in c && l != unit ==> l != 0 && -l in tree.trail
      ensures Entails(f, [unit])
    {
      hide Entails;
      forall l | l in tree.trail ensures Entails(f, [l]) {
        RootHolds(tree, f, l);
      }
      UnitEntailed(f, c, unit, tree.trail);
    }

    /** Looks at one clause when `lit` became false, binary clauses only. */
    method VisitBinary(i: nat, lit: int, ghost n: nat)
      requires Valid() && i < |clauses|
      requires n < |tree.trail| && -lit == tree.trail[n] && (level == 1 ==> tree.start <= n)
      requires conflict == [] ==> Scanned(tree.trail, n, i, clauses, true)
      modifies `tree, `conflict
      ensures Valid() && Extends(vars, level, old(tree), tree)
      ensures conflict == [] ==> old(conflict) == [] && Scanned(tree.trail, n, i + 1, clauses, true)
    {
      hide TreeOk, Kept, ClausesOk, ConflictOk, Closed, Scanned, Entails, Checked, Node, SatisfiedBy;
      var c := clauses[i].lits;
      LongClause(i);
      if |c| != 2 || lit !in c {
        if conflict == [] {
          Skipped(tree.trail, n, i, clauses, lit, true);
        }
        return;
      }
      var blit := if c[0] == lit then c[1] else c[0];
      assert c == [lit, blit] || c == [blit, lit];
      assert blit in c;
      if blit in tree.trail {
        SatisfiedStep(tree.trail, tree.trail, n, i, clauses, true, blit, conflict == []);
      } else if -blit in tree.trail {
        assert -lit in tree.trail;
        ConflictFound(i, c, lit, n);
        conflict := c;
      } else {
        BinaryForces(i, lit, blit, n);
        ghost var before := tree.trail;
        ProbeAssign(blit, -lit);
        assert tree.trail[|before|] == blit;
        SatisfiedStep(before, tree.trail, n, i, clauses, true, blit, conflict == []);
      }
    }

    /** Propagates everything assigned over binary clauses. */
    method ProbePropagate2()
      requires Valid() && (conflict == [] ==> Scanned(tree.trail, propagated2, 0, clauses, true))
      modifies `tree, `conflict, `propagated2
      ensures Valid() && Extends(vars, level, old(tree), tree) && propagated2 == |tree.trail|
      ensures conflict == [] ==> old(conflict) == [] && Scanned(tree.trail, propagated2, 0, clauses, true)
    {
      hide TreeOk, Kept, ClausesOk, ConflictOk, Closed, Scanned, Free;
      while propagated2 < |tree.trail|
        invariant Valid() && Extends(vars, level, old(tree), tree)
        invariant conflict == [] ==> old(conflict) == [] && Scanned(tree.trail, propagated2, 0, clauses, true)
        decreases Free(vars, tree.trail), |tree.trail| - propagated2
      {
        ghost var n := propagated2;
        var lit := -tree.trail[propagated2];
        propagated2 := propagated2 + 1;
        ghost var before := tree;
        var i := 0;
        while i < |clauses|
          invariant 0 <= i <= |clauses| && Valid() && Extends(vars, level, before, tree) && propagated2 == n + 1
          invariant conflict == [] ==> old(conflict) == [] && Scanned(tree.trail, n, i, clauses, true)
        {
          VisitBinary(i, lit, n);
          i := i + 1;
        }
        ExtendsOn(vars, level, old(tree), before, tree);
        if conflict == [] {
          ScanEnd(tree.trail, n, clauses, true);
        }
      }
    }

    /** Whether a clause is satisfied, and otherwise its first unassigned
        literal and whether there is another one. */
    method Examine(c: Clause) returns (satisfied: bool, unit: int, several: bool)
      requires forall l :: l in c ==> l != 0
      ensures satisfied ==> SatisfiedBy(tree.trail, c)
      ensures !satisfied && unit == 0 ==> Falsified(tree, c)
      ensures !satisfied && unit != 0 ==> unit in c && Unassigned(tree, unit)
      ensures !satisfied && unit != 0 && !several ==> forall l :: l in c && l != unit ==> -l in tree.trail
      ensures !satisfied && unit != 0 && several ==> TwoOpen(tree.trail, c)
    {
      satisfied, unit, several := false, 0, false;
      for i := 0 to |c|
        invariant !satisfied
        invariant unit == 0 ==> !several && forall k :: 0 <= k < i ==> -c[k] in tree.trail
        invariant unit != 0 ==> unit in c && Unassigned(tree, unit)
        invariant unit != 0 && !several ==> forall k :: 0 <= k < i && c[k] != unit ==> -c[k] in tree.trail
        invariant several ==> TwoOpen(tree.trail, c)
      {
        assert c[i] in c;
        if c[i] in tree.trail {
          satisfied := true;
          return;
        }
        if -c[i] !in tree.trail {
          if unit == 0 {
            unit := c[i];
          } else if unit != c[i] {
            several := true;
          }
        }
      }
    }

    /** Looks at one clause when `lit` became false, long clauses only. */
    method VisitLong(i: nat, lit: int, ghost n: nat)
      requires Valid() && i < |clauses|
      requires n < |tree.trail| && -lit == tree.trail[n] && (level == 1 ==> tree.start <= n)
      requires conflict == [] ==> Scans(n, i)
      requires propagated2 == |tree.trail|
      modifies `tree, `conflict, `propagated2, `clauses
      ensures Valid() && Extends(vars, level, old(tree), tree) && propagated2 == |tree.trail|
      ensures conflict == [] ==> old(conflict) == [] && Scans(n, i + 1)
      ensures |old(clauses)| <= |clauses| && (tree == old(tree) ==> |clauses| == |old(clauses)|)
    {
      hide TreeOk, Kept, ClausesOk, ConflictOk, Closed, Scanned, Checked, Node, SatisfiedBy, Free;
      var c := clauses[i].lits;
      LongClause(i);
      if |c| == 2 || clauses[i].garbage || lit !in c {
        if conflict == [] {
          Skipped(tree.trail, n, i, clauses, lit, false);
        }
        return;
      }
      var satisfied, unit, several := Examine(c);
      if satisfied || (unit != 0 && several) {
        OpenStep(tree.trail, n, i, clauses, conflict == []);
      } else if unit == 0 {
        ConflictFound(i, c, lit, n);
        conflict := c;
      } else {
        ghost var before := tree;
        if level == 1 {
          ForceUnit(i, unit, lit, n);
        } else {
          RootUnit(c, unit);
          ProbeAssignUnit(unit);
          assert tree.trail[|before.trail|] == unit;
          ScanGrow2(before.trail, tree.trail, propagated2, n, i, clauses, unit, conflict == []);
        }
        ghost var between := tree;
        ProbePropagate2();
        if conflict == [] {
          ScanGrow(between.trail, tree.trail, n, i + 1, clauses, false);
        }
      }
    }

    /** Unit propagation with binary clauses first; the result is false on a
        conflict.  On the root level a conflict refutes the formula. */
    method ProbePropagate() returns (ok: bool)
      requires Valid() && conflict == []
      requires Scanned(tree.trail, propagated, 0, clauses, true) && Scanned(tree.trail, propagated, 0, clauses, false)
      modifies `tree, `conflict, `propagated, `propagated2, `clauses
      ensures Valid() && Extends(vars, level, old(tree), tree)
      ensures ok ==> Settled()
      ensures !ok ==> conflict != [] && (level == 0 ==> Unsat(f))
    {
      propagated2 := propagated;
      hide TreeOk, Kept, ClausesOk, ConflictOk, Closed, Scanned, Free;
      while conflict == [] && (propagated2 != |tree.trail| || propagated != |tree.trail|)
        invariant Valid() && Extends(vars, level, old(tree), tree)
        invariant conflict == [] ==> Scans(propagated, 0)
        decreases Free(vars, tree.trail), |tree.trail| - propagated, |tree.trail| - propagated2
      {
        ghost var before := tree;
        PropagateNext();
        ExtendsOn(vars, level, old(tree), before, tree);
      }
      ok := conflict == [];
      if !ok && level == 0 {
        ConflictRefutes();
      }
      AllScanned();
    }

    /** Binary clauses if there is something left, otherwise long ones. */
    method PropagateNext()
      requires Valid() && conflict == [] && Scans(propagated, 0)
      requires propagated2 != |tree.trail| || propagated != |tree.trail|
      modifies `tree, `conflict, `propagated, `propagated2, `clauses
      ensures Valid() && Extends(vars, level, old(tree), tree)
      ensures conflict == [] ==> Scans(propagated, 0)
      ensures propagated == old(propagated) + 1 || (propagated == old(propagated) && propagated2 > old(propagated2))
      ensures propagated <= |tree.trail| && propagated2 <= |tree.trail|
    {
      hide TreeOk, Kept, ClausesOk, ConflictOk, Closed, Scanned, Free;
      if propagated2 != |tree.trail| {
        ghost var before := tree;
        ProbePropagate2();
        if conflict == [] {
          ScanGrow(before.trail, tree.trail, propagated, 0, clauses, false);
        }
      } else {
        PropagateLong(-tree.trail[propagated]);
      }
    }

    /** Goes over the long clauses with the next literal that became false. */
    method PropagateLong(lit: int)
      requires Valid() && conflict == [] && propagated < |tree.trail| == propagated2 && lit == -tree.trail[propagated]
      requires Scans(propagated, 0)
      modifies `tree, `conflict, `propagated, `propagated2, `clauses
      ensures Valid() && Extends(vars, level, old(tree), tree)
      ensures propagated == old(propagated) + 1 && propagated2 == |tree.trail|
      ensures conflict == [] ==> Scans(propagated, 0)
    {
      hide *;
      ghost var n := propagated;
      NextLiteral();
      var i := 0;
      StartVisiting(n, lit);
      while i < |clauses|
        invariant 0 <= i <= |clauses| && Visiting(n, lit, i) && Extends(vars, level, old(tree), tree)
        invariant propagated == n + 1
        decreases Free(vars, tree.trail), |clauses| - i
      {
        ghost var before := tree;
        VisitNext(i, lit, n);
        ExtendsOn(vars, level, old(tree), before, tree);
        i := i + 1;
      }
      StopVisiting(n, lit, propagated);
    }

    /** The first `i` long clauses have been looked at. */
    ghost predicate Visiting(n: nat, lit: int, i: nat)
      reads this
    {
      Valid() && Next(n, lit) && propagated2 == |tree.trail| && (conflict == [] ==> Scans(n, i))
    }

    lemma StartVisiting(n: nat, lit: int)
      requires Valid() && Next(n, lit) && propagated2 == |tree.trail| && Scans(n, 0)
      ensures Visiting(n, lit, 0)
    {
    }

    lemma StopVisiting(n: nat, lit: int, next: nat)
      requires Visiting(n, lit, |clauses|) && next == n + 1
      ensures Valid() && propagated2 == |tree.trail| && (conflict == [] ==> Scans(next, 0))
    {
    }

    /** Looks at the next clause. */
    method VisitNext(i: nat, lit: int, ghost n: nat)
      requires Visiting(n, lit, i) && i < |clauses|
      modifies `tree, `conflict, `propagated2, `clauses
      ensures Visiting(n, lit, i + 1) && Extends(vars, level, old(tree), tree)
      ensures |old(clauses)| <= |clauses|
      ensures Free(vars, tree.trail) < Free(vars, old(tree.trail)) || (tree == old(tree) && |clauses| == |old(clauses)|)
    {
      hide *;
      ghost var before := tree;
      WhatVisiting(n, lit, i);
      VisitLong(i, lit, n);
      StillVisiting(before, n, lit, i + 1);
      ExtendsLess(vars, level, before, tree);
    }

    /** The literal made false by the assignment at position `n`. */
    ghost predicate Next(n: nat, lit: int)
      reads this
    {
      n < |tree.trail| && -lit == tree.trail[n] && (level == 1 ==> tree.start <= n)
    }

    /** Takes the next assignment. */
    method NextLiteral()
      requires Valid() && propagated < |tree.trail|
      modifies `propagated
      ensures Valid() && propagated == old(propagated) + 1
      ensures Next(old(propagated), -tree.trail[old(propagated)])
      ensures forall n, i :: old(Scans(n, i)) ==> Scans(n, i)
      ensures Extends(vars, level, tree, tree)
    {
      hide TreeOk, Kept, ClausesOk, ConflictOk, Closed, Scanned;
      propagated := propagated + 1;
    }

    lemma WhatVisiting(n: nat, lit: int, i: nat)
      requires Visiting(n, lit, i)
      ensures Valid() && propagated2 == |tree.trail| && (conflict == [] ==> Scans(n, i))
      ensures n < |tree.trail| && -lit == tree.trail[n] && (level == 1 ==> tree.start <= n)
    {
    }

    lemma StillVisiting(before: Tree, n: nat, lit: int, i: nat)
      requires Extends(vars, level, before, tree)
      requires n < |before.trail| && -lit == before.trail[n] && (level == 1 ==> before.start <= n)
      requires Valid() && propagated2 == |tree.trail| && (conflict == [] ==> Scans(n, i))
      ensures Visiting(n, lit, i)
    {
    }

    lemma AllScanned()
      ensures conflict == [] && propagated == propagated2 == |tree.trail| && Scans(propagated, 0) ==> Settled()
    {
    }

    lemma ConflictRefutes()
      requires Valid() && level == 0 && conflict != []
      ensures Unsat(f)
    {
      hide Entails;
      forall l | l in tree.trail ensures Entails(f, [l]) {
        RootHolds(tree, f, l);
      }
      FalsifiedUnsat(f, conflict, tree.trail);
    }

    /* ---- failed literals ---- */

    /** Leaves level one with a conflict. */
    method Retreat()
      requires Valid() && level == 1
      modifies `tree, `level, `propagated, `propagated2, `conflict
      ensures Valid() && level == 0 && Settled() && tree == RootOnly(old(tree))
      ensures tree.trail == old(tree.trail)[..old(tree.start)]
    {
      hide TreeOk, Kept, ClausesOk, Closed, InVars;
      conflict := [];
      Backtrack();
    }

    /** Assigns a unit on the root level and propagates it. */
    method LearnUnit(unit: int)
      requires Valid() && level == 0 && !unsat && Settled()
      requires Unassigned(tree, unit) && Abs(unit) in vars && Entails(f, [unit])
      modifies this
      ensures Valid() && level == 0 && (unsat || Settled())
      ensures old(tree.trail) <= tree.trail && unit in tree.trail
    {
      hide TreeOk, Kept, ClausesOk, ConflictOk, Scanned, Free, Entails;
      ghost var before := tree.trail;
      ProbeAssignUnit(unit);
      assert tree.trail[|before|] == unit;
      ScanGrow(before, tree.trail, propagated, 0, clauses, true);
      ScanGrow(before, tree.trail, propagated, 0, clauses, false);
      ghost var between := tree.trail;
      var ok := ProbePropagate();
      PrefixMembers(between, tree.trail);
      unsat := !ok;
    }

    /** Makes a refuted parent false. */
    method RefuteParent(parent: int)
      requires Valid() && level == 0 && !unsat && Settled()
      requires parent != 0 && Abs(parent) in vars && Entails(f, [-parent])
      modifies this
      ensures Valid() && level == 0 && (unsat || Settled())
      ensures old(tree.trail) <= tree.trail && (unsat || -parent in tree.trail)
    {
      if -parent in tree.trail {
        return;
      }
      if parent in tree.trail {
        RootHolds(tree, f, parent);
        ClashRefutes(f, parent);
        unsat := true;
      } else {
        LearnUnit(-parent);
      }
    }

    /** Makes the parents false, the last one first. */
    method RefuteParents(parents: seq<int>)
      requires Valid() && level == 0 && (unsat || Settled())
      requires forall p :: p in parents ==> p != 0 && Abs(p) in vars && Entails(f, [-p])
      modifies this
      ensures Valid() && level == 0 && (unsat || Settled()) && old(tree.trail) <= tree.trail
      ensures unsat || AllFalse(tree.trail, parents)
    {
      hide TreeOk, Entails, Kept, ClausesOk, ConflictOk, Closed;
      var work := parents;
      while !unsat && work != []
        invariant Valid() && level == 0 && (unsat || Settled()) && old(tree.trail) <= tree.trail
        invariant work <= parents
        invariant unsat || forall k :: |work| <= k < |parents| ==> -parents[k] in tree.trail
        decreases |work|
      {
        var parent := work[|work| - 1];
        assert parent == parents[|work| - 1] && parent in parents;
        work := work[..|work| - 1];
        ghost var before := tree.trail;
        RefuteParent(parent);
        PrefixMembers(before, tree.trail);
      }
    }

    /** The dominator of the conflict and its ancestors. */
    method Blame(failed: int) returns (uip: int, work: seq<int>)
      requires Valid() && level == 1 && conflict != []
      requires tree.start < |tree.trail| && tree.trail[tree.start] == failed
      ensures DominatesAll(tree, uip, conflict) && Ancestor(tree, failed, uip)
      ensures Ancestors(tree, uip, work)
      ensures tree.start <= |tree.trail| && Unassigned(RootOnly(tree), -uip) && Abs(-uip) in vars && Entails(f, [-uip])
      ensures forall p :: p in work ==> p != 0 && Abs(p) in vars && Entails(f, [-p])
    {
      uip := ConflictDominator(tree, f, conflict);
      work := Parents(tree, f, uip, failed);
      ProbeAncestor(tree, f, uip);
      NodesFree(tree, f, vars);
    }

    /** Learns the negated dominator of the conflict and of all its parents up
        to the probe as units. */
    method FailedLiteral(failed: int) returns (ghost uip: int)
      requires Valid() && level == 1 && !unsat && conflict != []
      requires tree.start < |tree.trail| && tree.trail[tree.start] == failed
      modifies this
      ensures Valid() && level == 0 && (unsat || Settled())
      ensures old(tree.trail)[..old(tree.start)] <= tree.trail
      ensures DominatesAll(old(tree), uip, old(conflict)) && Blames(old(tree), uip, old(clauses))
      ensures Ancestor(old(tree), failed, uip)
      ensures unsat || forall a :: Ancestor(old(tree), a, uip) ==> -a in tree.trail
    {
      hide *;
      var dominator, work := Blame(failed);
      uip := dominator;
      WhyFailed(uip);
      Retreat();
      LearnUnit(-dominator);
      ghost var before := tree.trail;
      RefuteParents(work);
      if !unsat {
        AncestorsFalse(old(tree), uip, work, before, tree.trail);
      }
    }

    lemma StoredOk()
      requires Valid()
      ensures ClausesOk(f, vars, clauses)
    {
    }

    lemma NoConflict()
      requires Settled()
      ensures conflict == []
    {
    }

    /** What propagating the probe on level one has reached. */
    lemma Reached(root: Tree, probe: int, before: Tree)
      requires Valid() && level == 1 && root.start == |root.trail|
      requires before == Assigned(root, probe, 0, 1) && Extends(vars, 1, before, tree)
      ensures PropagatedFrom(root.trail, probe, tree.trail, clauses)
      ensures Settled() ==> AtFixpoint(tree.trail, clauses)
    {
      TreeConsistent(tree, f);
      if Settled() {
        ClosedFixpoint(f, vars, tree.trail, clauses);
      }
    }

    lemma WhyFailed(uip: int)
      requires Valid() && conflict != [] && DominatesAll(tree, uip, conflict)
      ensures Blames(tree, uip, clauses)
    {
      ConflictBlames(tree, uip, clauses, conflict);
    }

    /** Tries one probe: the implication tree `tried` is what unit propagation
        over the clauses `seen` makes of it. */
    method Probe(probe: int) returns (failed: bool, ghost tried: Tree, ghost seen: seq<Stored>, ghost uip: int)
      requires Valid() && level == 0 && !unsat && Settled() && Unassigned(tree, probe) && Abs(probe) in vars
      modifies this
      ensures Valid() && level == 0 && (unsat || Settled()) && old(tree.trail) <= tree.trail
      ensures PropagatedFrom(old(tree.trail), probe, tried.trail, seen) && ClausesOk(f, vars, seen)
      ensures !failed ==> AtFixpoint(tried.trail, seen) && seen == clauses && !unsat && tree.trail == old(tree.trail)
      ensures failed ==> Blames(tried, uip, seen) && Ancestor(tried, probe, uip)
      ensures failed ==> unsat || (-probe in tree.trail && forall a :: Ancestor(tried, a, uip) ==> -a in tree.trail)
    {
      hide *;
      ProbeAssignDecision(probe);
      ghost var before := tree;
      var ok := ProbePropagate();
      ProbedTrail(vars, old(tree), probe, before, tree);
      Reached(old(tree), probe, before);
      StoredOk();
      tried, seen, uip := tree, clauses, 0;
      failed := !ok;
      if ok {
        NoConflict();
        Backtrack();
      } else {
        uip := FailedLiteral(probe);
      }
    }

    lemma SameModels()
      requires Valid() && level == 0
      ensures forall m :: Models(m, f) <==> Models(m, Irredundant(clauses)) && AllHold(m, tree.trail)
    {
      hide Entails, Irredundant;
      assert tree.trail[..tree.start] == tree.trail;
      forall l | l in tree.trail ensures Entails(f, [l]) {
        RootHolds(tree, f, l);
      }
      forall m ensures Models(m, f) <==> Models(m, Irredundant(clauses)) && AllHold(m, tree.trail) {
        KeptExactly(f, vars, clauses, tree.trail, m);
      }
    }

    /** Tries the scheduled probes, the last one first, unless they are
        assigned: the irredundant clauses and the root units keep their models. */
    method ProbeRound(schedule: seq<int>) returns (ghost attempts: seq<Attempt>)
      requires Valid() && level == 0 && !unsat && Settled()
      requires forall p :: p in schedule ==> p != 0 && Abs(p) in vars
      modifies this
      ensures Valid() && level == 0 && (unsat || Settled()) && old(tree.trail) <= tree.trail
      ensures forall m :: Models(m, Irredundant(clauses)) && AllHold(m, tree.trail)
                <==> Models(m, old(Irredundant(clauses))) && AllHold(m, old(tree.trail))
      ensures Attempted(schedule, attempts, old(tree.trail), tree.trail)
      ensures !unsat ==> |attempts| == |schedule|
    {
      SameModels();
      ghost var trail0 := tree.trail;
      var probes := schedule;
      attempts := [];
      hide *;
      AttemptedNone(schedule, trail0);
      while !unsat && probes != []
        invariant Valid() && level == 0 && (unsat || Settled()) && trail0 <= tree.trail
        invariant probes <= schedule && |attempts| == |schedule| - |probes|
        invariant Attempted(schedule, attempts, trail0, tree.trail)
        decreases |probes|
      {
        var probe := probes[|probes| - 1];
        assert probe == schedule[|probes| - 1] && probe in schedule;
        probes := probes[..|probes| - 1];
        ghost var a := Attempt(probe, tree.trail, false, tree, clauses, 0, unsat, tree.trail);
        if probe !in tree.trail && -probe !in tree.trail {
          NowUnassigned(tree, probe);
          var failed, tried, seen, uip := Probe(probe);
          a := Attempt(probe, a.root, failed, tried, seen, uip, unsat, tree.trail);
          TriedOk(a);
        } else {
          SkippedOk(a);
        }
        AttemptedNext(schedule, attempts, trail0, a);
        attempts := attempts + [a];
      }
      SameModels();
    }
  }
}
