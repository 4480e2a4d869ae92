/** The clauses seen by probing: which of them count, how hyper binary
    resolution changes them, and how far propagation has looked at them. */
module ProbeClauses {
  import opened Logic
  import opened Probing

  datatype Stored = Stored(lits: Clause, redundant: bool, hyper: bool, garbage: bool)

  ghost predicate ClauseOk(f: Formula, vars: set<nat>, s: Stored) {
    |s.lits| >= 2 && NoDup(s.lits) && Entails(f, s.lits) && forall l :: l in s.lits ==> l != 0 && Abs(l) in vars
  }

  ghost predicate ClausesOk(f: Formula, vars: set<nat>, clauses: seq<Stored>) {
    forall i :: 0 <= i < |clauses| ==> ClauseOk(f, vars, clauses[i])
  }

  /* ---- what the clauses mean ---- */

  predicate Counts(s: Stored) {
    !s.redundant && !s.garbage
  }

  function Irredundant(clauses: seq<Stored>): Formula {
    set i | 0 <= i < |clauses| && Counts(clauses[i]) :: clauses[i].lits
  }

  ghost predicate AllHold(m: Model, root: seq<int>) {
    forall l :: l in root ==> Holds(m, l)
  }

  /** Redundant clauses and garbage can be dropped: the irredundant clauses
      and the root units still have only models of the formula. */
  ghost predicate Kept(f: Formula, clauses: seq<Stored>, root: seq<int>) {
    forall m :: Models(m, Irredundant(clauses)) && AllHold(m, root) ==> Models(m, f)
  }

  ghost predicate HasSubsumer(clauses: seq<Stored>, c: Clause) {
    exists k :: 0 <= k < |clauses| && Counts(clauses[k]) && forall l :: l in clauses[k].lits ==> l in c
  }

  lemma KeptBySubsumers(f: Formula, a: seq<Stored>, b: seq<Stored>, root: seq<int>)
    requires Kept(f, a, root)
    requires forall i :: 0 <= i < |a| && Counts(a[i]) ==> HasSubsumer(b, a[i].lits)
    ensures Kept(f, b, root)
  {
    forall m | Models(m, Irredundant(b)) && AllHold(m, root) ensures Models(m, f) {
      forall c | c in Irredundant(a) ensures Satisfies(m, c) {
        var i :| 0 <= i < |a| && Counts(a[i]) && a[i].lits == c;
        var k :| 0 <= k < |b| && Counts(b[k]) && forall l :: l in b[k].lits ==> l in c;
        assert b[k].lits in Irredundant(b) && Satisfies(m, b[k].lits);
      }
    }
  }

  lemma KeptWithUnits(f: Formula, clauses: seq<Stored>, root: seq<int>, more: seq<int>)
    requires Kept(f, clauses, root) && root <= more
    ensures Kept(f, clauses, more)
  {
    forall m | AllHold(m, more) ensures AllHold(m, root) {
      forall l | l in root ensures l in more {
        var i :| 0 <= i < |root| && root[i] == l;
        assert more[i] == l;
      }
    }
  }

  /** Conversely everything stored and every root unit follows. */
  lemma KeptExactly(f: Formula, vars: set<nat>, clauses: seq<Stored>, root: seq<int>, m: Model)
    requires ClausesOk(f, vars, clauses) && Kept(f, clauses, root)
    requires forall l :: l in root ==> Entails(f, [l])
    ensures Models(m, f) <==> Models(m, Irredundant(clauses)) && AllHold(m, root)
  {
    if Models(m, f) {
      forall c | c in Irredundant(clauses) ensures Satisfies(m, c) {
        var i :| 0 <= i < |clauses| && Counts(clauses[i]) && clauses[i].lits == c;
        assert ClauseOk(f, vars, clauses[i]);
      }
      forall l | l in root ensures Holds(m, l) {
        UnitHolds(f, l, m);
      }
    }
  }

  /** The clauses after resolving clause `i` with its dominator: a resolvent
      contained in its antecedent makes it garbage and replaces it as an
      irredundant clause if it was one. */
  function HyperResolved(clauses: seq<Stored>, i: nat, dom: int): seq<Stored>
    requires i < |clauses| && |clauses[i].lits| > 2
  {
    var reason := clauses[i];
    var contained := -dom in reason.lits[1..];
    var red := !contained || reason.redundant;
    clauses[i := reason.(garbage := reason.garbage || contained)] + [Stored([-dom, reason.lits[0]], red, red, false)]
  }

  lemma HyperKept(f: Formula, clauses: seq<Stored>, i: nat, dom: int, root: seq<int>)
    requires i < |clauses| && |clauses[i].lits| > 2 && Kept(f, clauses, root)
    ensures Kept(f, HyperResolved(clauses, i, dom), root)
  {
    var b := HyperResolved(clauses, i, dom);
    var reason := clauses[i];
    forall j | 0 <= j < |clauses| && Counts(clauses[j]) ensures HasSubsumer(b, clauses[j].lits) {
      if j == i && -dom in reason.lits[1..] {
        assert b[|clauses|].lits == [-dom, reason.lits[0]];
      } else {
        assert Counts(b[j]) && b[j].lits == clauses[j].lits;
      }
    }
    KeptBySubsumers(f, clauses, b, root);
  }

  lemma HyperClausesOk(f: Formula, vars: set<nat>, clauses: seq<Stored>, i: nat, dom: int)
    requires i < |clauses| && |clauses[i].lits| > 2 && ClausesOk(f, vars, clauses)
    requires dom != 0 && Abs(dom) in vars && -dom != clauses[i].lits[0] && Entails(f, [-dom, clauses[i].lits[0]])
    ensures ClausesOk(f, vars, HyperResolved(clauses, i, dom))
  {
    hide Entails;
    var b := HyperResolved(clauses, i, dom);
    assert ClauseOk(f, vars, clauses[i]) && clauses[i].lits[0] in clauses[i].lits;
    forall k | 0 <= k < |b| ensures ClauseOk(f, vars, b[k]) {
      if k < |clauses| {
        assert ClauseOk(f, vars, clauses[k]);
      }
    }
  }

  /** Exchanging the order of the literals of one clause. */
  lemma ReorderedKept(f: Formula, vars: set<nat>, clauses: seq<Stored>, i: nat, d: Clause, root: seq<int>)
    requires i < |clauses| && ClausesOk(f, vars, clauses) && Kept(f, clauses, root)
    requires SameLits(clauses[i].lits, d) && |d| == |clauses[i].lits| && NoDup(d)
    ensures ClausesOk(f, vars, clauses[i := clauses[i].(lits := d)])
    ensures Kept(f, clauses[i := clauses[i].(lits := d)], root)
  {
    var b := clauses[i := clauses[i].(lits := d)];
    assert ClauseOk(f, vars, clauses[i]);
    SameLitsEntailed(f, clauses[i].lits, d);
    hide Entails;
    forall k | 0 <= k < |b| ensures ClauseOk(f, vars, b[k]) {
      assert ClauseOk(f, vars, clauses[k]);
    }
    forall j | 0 <= j < |clauses| && Counts(clauses[j]) ensures HasSubsumer(b, clauses[j].lits) {
      assert Counts(b[j]);
    }
    KeptBySubsumers(f, clauses, b, root);
  }

  /* ---- how far clauses have been looked at ---- */

  ghost predicate TwoOpen(prefix: seq<int>, c: Clause) {
    exists a, b :: a in c && b in c && a != b && -a !in prefix && -b !in prefix
  }

  /** Satisfied, or with two literals that the first `n` assignments leave. */
  ghost predicate Checked(trail: seq<int>, n: nat, c: Clause) {
    n <= |trail| && (SatisfiedBy(trail, c) || TwoOpen(trail[..n], c))
  }

  predicate Relevant(s: Stored, binary: bool) {
    if binary then |s.lits| == 2 else |s.lits| > 2 && !s.garbage
  }

  /** The first `i` binary or long clauses have been checked against `n + 1`
      assignments, the others against `n`. */
  ghost predicate Scanned(trail: seq<int>, n: nat, i: nat, clauses: seq<Stored>, binary: bool) {
    forall k {:trigger clauses[k]} :: 0 <= k < |clauses| && Relevant(clauses[k], binary) ==>
      Checked(trail, if k < i then n + 1 else n, clauses[k].lits)
  }

  /** Against all assignments. */
  ghost predicate Closed(trail: seq<int>, clauses: seq<Stored>) {
    Scanned(trail, |trail|, 0, clauses, true) && Scanned(trail, |trail|, 0, clauses, false)
  }

  lemma CheckedGrow(trail: seq<int>, longer: seq<int>, n: nat, c: Clause)
    requires trail <= longer && Checked(trail, n, c)
    ensures Checked(longer, n, c)
  {
    assert longer[..n] == trail[..n];
    assert forall l :: l in trail ==> l in longer;
  }

  lemma CheckedNext(trail: seq<int>, n: nat, c: Clause)
    requires n < |trail| && Checked(trail, n, c) && -trail[n] !in c
    ensures Checked(trail, n + 1, c)
  {
    if !SatisfiedBy(trail, c) {
      var a, b :| a in c && b in c && a != b && -a !in trail[..n] && -b !in trail[..n];
      assert trail[..n + 1] == trail[..n] + [trail[n]];
      assert -a !in trail[..n + 1] && -b !in trail[..n + 1];
    }
  }

  lemma CheckedOpen(trail: seq<int>, n: nat, c: Clause, a: int, b: int)
    requires n <= |trail| && a in c && b in c && a != b && -a !in trail && -b !in trail
    ensures Checked(trail, n, c)
  {
    assert forall l :: l in trail[..n] ==> l in trail;
  }

  lemma ScanGrow(trail: seq<int>, longer: seq<int>, n: nat, i: nat, clauses: seq<Stored>, binary: bool)
    requires trail <= longer && Scanned(trail, n, i, clauses, binary)
    ensures Scanned(longer, n, i, clauses, binary)
  {
    hide Checked;
    forall k | 0 <= k < |clauses| && Relevant(clauses[k], binary)
      ensures Checked(longer, if k < i then n + 1 else n, clauses[k].lits)
    {
      CheckedGrow(trail, longer, if k < i then n + 1 else n, clauses[k].lits);
    }
  }

  lemma ScanStep(trail: seq<int>, n: nat, i: nat, clauses: seq<Stored>, binary: bool)
    requires i < |clauses| && Scanned(trail, n, i, clauses, binary)
    requires Relevant(clauses[i], binary) ==> Checked(trail, n + 1, clauses[i].lits)
    ensures Scanned(trail, n, i + 1, clauses, binary)
  {
  }

  lemma ScanEnd(trail: seq<int>, n: nat, clauses: seq<Stored>, binary: bool)
    requires Scanned(trail, n, |clauses|, clauses, binary)
    ensures Scanned(trail, n + 1, 0, clauses, binary)
  {
  }

  /** Nothing assigned looked at yet. */
  lemma ScanStart(f: Formula, vars: set<nat>, trail: seq<int>, clauses: seq<Stored>, binary: bool)
    requires ClausesOk(f, vars, clauses)
    ensures Scanned(trail, 0, 0, clauses, binary)
  {
    forall k | 0 <= k < |clauses| ensures Checked(trail, 0, clauses[k].lits) {
      var c := clauses[k].lits;
      assert ClauseOk(f, vars, clauses[k]);
      assert c[0] in c && c[1] in c && c[0] != c[1];
    }
  }

  /** Every live clause is satisfied or has two literals that are not false. */
  lemma ClosedMeans(trail: seq<int>, clauses: seq<Stored>, i: nat)
    requires Closed(trail, clauses) && i < |clauses| && |clauses[i].lits| >= 2 && !clauses[i].garbage
    ensures SatisfiedBy(trail, clauses[i].lits) || TwoOpen(trail, clauses[i].lits)
  {
    assert Relevant(clauses[i], |clauses[i].lits| == 2);
    assert trail[..|trail|] == trail;
  }

  /** Clause `i` after forcing its last literal: reordered, maybe resolved. */
  ghost predicate Forced(before: seq<Stored>, after: seq<Stored>, i: nat, d: Clause, dom: int)
    requires i < |before| && |d| > 2
  {
    var b := before[i := before[i].(lits := d)];
    after == b || after == HyperResolved(b, i, dom)
  }

  lemma ForcedClause(before: seq<Stored>, after: seq<Stored>, i: nat, d: Clause, dom: int, k: nat)
    requires i < |before| && |d| > 2 && Forced(before, after, i, d, dom) && k < |after|
    ensures k < |before| && k != i ==> after[k] == before[k]
    ensures k == i ==> after[k].lits == d && (before[i].garbage ==> after[k].garbage)
    ensures k >= |before| ==> after[k].lits == [-dom, d[0]]
  {
  }

  lemma ForcedScan(trail: seq<int>, n: nat, p: nat, before: seq<Stored>, after: seq<Stored>, i: nat, d: Clause, dom: int)
    requires i < |before| && |d| > 2 && Forced(before, after, i, d, dom)
    requires n < |trail| && p <= |trail| && |before[i].lits| > 2
    requires Scanned(trail, p, 0, before, true) && Scanned(trail, n, i, before, false)
    ensures Scanned(trail + [d[0]], p, 0, after, true)
    ensures Scanned(trail + [d[0]], n, i + 1, after, false)
  {
    var longer := trail + [d[0]];
    assert longer[|trail|] == d[0] && d[0] in longer;
    hide Forced, TwoOpen, HyperResolved;
    forall k | 0 <= k < |after| && Relevant(after[k], true) ensures Checked(longer, p, after[k].lits) {
      ForcedClause(before, after, i, d, dom, k);
      if k < |before| && k != i {
        CheckedGrow(trail, longer, p, before[k].lits);
      } else {
        assert after[k].lits[1] in after[k].lits;
      }
    }
    forall k | 0 <= k < |after| && Relevant(after[k], false)
      ensures Checked(longer, if k < i + 1 then n + 1 else n, after[k].lits)
    {
      ForcedClause(before, after, i, d, dom, k);
      if k < |before| && k != i {
        CheckedGrow(trail, longer, if k < i then n + 1 else n, before[k].lits);
      } else {
        assert after[k].lits[0] in after[k].lits;
      }
    }
  }

  /** Level one does not disturb what holds on the root level. */
  lemma ReorderedClosed(root: seq<int>, clauses: seq<Stored>, i: nat, d: Clause)
    requires i < |clauses| && SameLits(clauses[i].lits, d) && |d| == |clauses[i].lits| && Closed(root, clauses)
    ensures Closed(root, clauses[i := clauses[i].(lits := d)])
  {
    var b := clauses[i := clauses[i].(lits := d)];
    forall k, binary | 0 <= k < |b| && Relevant(b[k], binary) ensures Checked(root, |root|, b[k].lits) {
      assert Relevant(clauses[k], binary);
      if k == i {
        SameChecked(root, |root|, clauses[i].lits, d);
      }
    }
  }

  lemma HyperClosed(root: seq<int>, clauses: seq<Stored>, i: nat, dom: int)
    requires i < |clauses| && |clauses[i].lits| > 2 && Closed(root, clauses)
    requires dom !in root && -clauses[i].lits[0] !in root && -dom != clauses[i].lits[0]
    ensures Closed(root, HyperResolved(clauses, i, dom))
  {
    var b := HyperResolved(clauses, i, dom);
    forall k, binary | 0 <= k < |b| && Relevant(b[k], binary) ensures Checked(root, |root|, b[k].lits) {
      if k < |clauses| {
        assert Relevant(clauses[k], binary);
      } else {
        assert b[k].lits[0] == -dom && b[k].lits[1] == clauses[i].lits[0];
        CheckedOpen(root, |root|, b[k].lits, -dom, clauses[i].lits[0]);
      }
    }
  }

  lemma SameChecked(trail: seq<int>, n: nat, c: Clause, d: Clause)
    requires SameLits(c, d) && Checked(trail, n, c)
    ensures Checked(trail, n, d)
  {
    if SatisfiedBy(trail, c) {
      var l :| l in c && l in trail;
      assert l in d;
    } else {
      var a, b :| a in c && b in c && a != b && -a !in trail[..n] && -b !in trail[..n];
      assert a in d && b in d;
    }
  }

  /* ---- unit propagation ---- */

  /** The literal at `k` is the only one of the clause that earlier
      assignments do not falsify. */
  ghost predicate UnitUnder(trail: seq<int>, k: nat, c: Clause)
    requires k < |trail|
  {
    trail[k] in c && forall l :: l in c && l != trail[k] ==> -l in trail[..k]
  }

  ghost predicate ImpliedAt(trail: seq<int>, k: nat, clauses: seq<Stored>)
    requires k < |trail|
  {
    exists i :: 0 <= i < |clauses| && UnitUnder(trail, k, clauses[i].lits)
  }

  /** From position `from` on every literal is implied by a clause. */
  ghost predicate Justified(trail: seq<int>, from: nat, clauses: seq<Stored>) {
    forall k :: from <= k < |trail| ==> ImpliedAt(trail, k, clauses)
  }

  /** Some clause has become unit with this literal left. */
  ghost predicate Forces(trail: seq<int>, clauses: seq<Stored>, lit: int) {
    exists i :: 0 <= i < |clauses| && lit in clauses[i].lits && forall l :: l in clauses[i].lits && l != lit ==> -l in trail
  }

  /** The conflict is one of the clauses. */
  ghost predicate Among(clauses: seq<Stored>, conflict: Clause) {
    exists i :: 0 <= i < |clauses| && SameLits(clauses[i].lits, conflict)
  }

  /** No clause is lost; literals may be reordered. */
  ghost predicate KeepsClauses(a: seq<Stored>, b: seq<Stored>) {
    |a| <= |b| && forall i :: 0 <= i < |a| ==> SameLits(a[i].lits, b[i].lits)
  }

  lemma JustifiedNext(trail: seq<int>, from: nat, clauses: seq<Stored>, lit: int)
    requires Justified(trail, from, clauses) && Forces(trail, clauses, lit)
    ensures Justified(trail + [lit], from, clauses)
  {
    var longer := trail + [lit];
    forall k | from <= k < |longer| ensures ImpliedAt(longer, k, clauses) {
      if k < |trail| {
        assert ImpliedAt(trail, k, clauses) && longer[..k] == trail[..k] && longer[k] == trail[k];
        var i :| 0 <= i < |clauses| && UnitUnder(trail, k, clauses[i].lits);
        assert UnitUnder(longer, k, clauses[i].lits);
      } else {
        assert longer[..k] == trail;
        var i :| 0 <= i < |clauses| && lit in clauses[i].lits && forall l :: l in clauses[i].lits && l != lit ==> -l in trail;
        assert UnitUnder(longer, k, clauses[i].lits);
      }
    }
  }

  lemma JustifiedProbe(trail: seq<int>, clauses: seq<Stored>)
    ensures Justified(trail, |trail|, clauses)
  {
  }

  lemma JustifiedKept(trail: seq<int>, from: nat, a: seq<Stored>, b: seq<Stored>)
    requires Justified(trail, from, a) && KeepsClauses(a, b)
    ensures Justified(trail, from, b)
  {
    forall k | from <= k < |trail| ensures ImpliedAt(trail, k, b) {
      assert ImpliedAt(trail, k, a);
      var i :| 0 <= i < |a| && UnitUnder(trail, k, a[i].lits);
      assert SameLits(a[i].lits, b[i].lits);
      UnitSame(trail, k, a[i].lits, b[i].lits);
    }
  }

  lemma UnitSame(trail: seq<int>, k: nat, c: Clause, d: Clause)
    requires k < |trail| && UnitUnder(trail, k, c) && SameLits(c, d)
    ensures UnitUnder(trail, k, d)
  {
    var unit := trail[k];
    assert unit in c && unit in d;
    forall l | l in d && l != trail[k] ensures -l in trail[..k] {
      assert l in c;
    }
  }

  lemma AmongKept(a: seq<Stored>, b: seq<Stored>, conflict: Clause)
    requires Among(a, conflict) && KeepsClauses(a, b)
    ensures Among(b, conflict)
  {
    var i :| 0 <= i < |a| && SameLits(a[i].lits, conflict);
    assert SameLits(b[i].lits, conflict);
  }

  lemma ReorderedKeeps(clauses: seq<Stored>, i: nat, d: Clause)
    requires i < |clauses| && SameLits(clauses[i].lits, d)
    ensures KeepsClauses(clauses, clauses[i := clauses[i].(lits := d)])
  {
  }

  lemma HyperKeeps(clauses: seq<Stored>, i: nat, dom: int)
    requires i < |clauses| && |clauses[i].lits| > 2
    ensures KeepsClauses(clauses, HyperResolved(clauses, i, dom))
  {
  }

  ghost predicate Consistent(trail: seq<int>) {
    NoDup(trail) && forall l :: l in trail ==> l != 0 && -l !in trail
  }

  /** What unit propagation of the probe after the root units gives. */
  ghost predicate PropagatedFrom(root: seq<int>, probe: int, trail: seq<int>, clauses: seq<Stored>) {
    && root + [probe] <= trail && Consistent(trail)
    && Justified(trail, |root| + 1, clauses)
  }

  /** Nothing is left to propagate: every live clause is satisfied or has two
      literals that are not false. */
  ghost predicate AtFixpoint(trail: seq<int>, clauses: seq<Stored>) {
    forall i :: 0 <= i < |clauses| && !clauses[i].garbage ==>
      SatisfiedBy(trail, clauses[i].lits) || TwoOpen(trail, clauses[i].lits)
  }

  lemma ClosedFixpoint(f: Formula, vars: set<nat>, trail: seq<int>, clauses: seq<Stored>)
    requires Closed(trail, clauses) && ClausesOk(f, vars, clauses)
    ensures AtFixpoint(trail, clauses)
  {
    hide Closed;
    forall i | 0 <= i < |clauses| && !clauses[i].garbage
      ensures SatisfiedBy(trail, clauses[i].lits) || TwoOpen(trail, clauses[i].lits)
    {
      assert ClauseOk(f, vars, clauses[i]);
      ClosedMeans(trail, clauses, i);
    }
  }

  /** The levels of a tree allow one occurrence of a variable only. */
  lemma TreeConsistent(t: Tree, f: Formula)
    requires TreeOk(t, f)
    ensures Consistent(t.trail)
  {
    forall i, j | 0 <= i < |t.trail| && 0 <= j < |t.trail| && i != j ensures t.trail[i] != t.trail[j] && t.trail[i] != -t.trail[j] {
      assert Pos(t, t.trail[i]) == i && Pos(t, t.trail[j]) == j;
      assert Pos(t, -t.trail[j]) == Pos(t, t.trail[j]);
    }
    forall l, k | l in t.trail && k in t.trail ensures l != 0 && k != -l {
      var i :| 0 <= i < |t.trail| && t.trail[i] == l;
      var j :| 0 <= j < |t.trail| && t.trail[j] == k;
      assert i != j ==> t.trail[j] != -t.trail[i];
    }
  }

  /** A clause is falsified, and `uip` is the closest common ancestor of what
      falsifies it above the root level. */
  ghost predicate Blames(t: Tree, uip: int, clauses: seq<Stored>) {
    exists i :: 0 <= i < |clauses| && Falsified(t, clauses[i].lits) && DominatesAll(t, uip, clauses[i].lits)
  }

  lemma ConflictBlames(t: Tree, uip: int, clauses: seq<Stored>, conflict: Clause)
    requires Among(clauses, conflict) && Falsified(t, conflict) && DominatesAll(t, uip, conflict)
    ensures Blames(t, uip, clauses)
  {
    var i :| 0 <= i < |clauses| && SameLits(clauses[i].lits, conflict);
    var c := clauses[i].lits;
    assert forall a :: CommonAncestor(t, a, c) <==> CommonAncestor(t, a, conflict);
    assert Falsified(t, c) && DominatesAll(t, uip, c);
  }
}
