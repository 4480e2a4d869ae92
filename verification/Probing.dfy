/** Failed literal probing: on decision level one implications form a tree, in
    which closest dominators give hyper binary resolvents and units. */
module Probing {
  import opened Logic

  function Abs(l: int): nat {
    if l < 0 then -l else l
  }

  datatype Var = Var(level: nat, trail: nat)

  /** The trail with its first `start` literals on the root level; `parents`
      maps a variable to the parent of its positive literal. */
  datatype Tree = Tree(trail: seq<int>, start: nat, vtab: map<nat, Var>, parents: map<nat, int>)

  function VarOf(t: Tree, l: int): Var {
    if Abs(l) in t.vtab then t.vtab[Abs(l)] else Var(0, 0)
  }

  function Pos(t: Tree, l: int): nat { VarOf(t, l).trail }

  function LevelOf(t: Tree, l: int): nat { VarOf(t, l).level }

  function ParentOf(t: Tree, l: int): int {
    var res := if Abs(l) in t.parents then t.parents[Abs(l)] else 0;
    if l < 0 then -res else res
  }

  /** Assigned on decision level one. */
  ghost predicate Node(t: Tree, l: int) {
    t.start <= Pos(t, l) < |t.trail| && t.trail[Pos(t, l)] == l && l != 0
  }

  ghost predicate NodeOk(t: Tree, f: Formula, l: int) {
    if Pos(t, l) == t.start then ParentOf(t, l) == 0
    else
      var p := ParentOf(t, l);
      Node(t, p) && Pos(t, p) < Pos(t, l) && Entails(f, [-p, l])
  }

  ghost predicate TreeOk(t: Tree, f: Formula) {
    && t.start <= |t.trail|
    && (forall i {:trigger t.trail[i]} :: 0 <= i < |t.trail| ==>
          t.trail[i] != 0 && Pos(t, t.trail[i]) == i && LevelOf(t, t.trail[i]) == if i < t.start then 0 else 1)
    && (forall i {:trigger t.trail[i]} :: 0 <= i < t.start ==> Entails(f, [t.trail[i]]))
    && (forall l {:trigger NodeOk(t, f, l)} :: Node(t, l) ==> NodeOk(t, f, l))
  }

  /** `a` is `l` or an ancestor of `l`. */
  ghost predicate Ancestor(t: Tree, a: int, l: int)
    decreases Pos(t, l)
  {
    a == l || (ParentOf(t, l) != 0 && Pos(t, ParentOf(t, l)) < Pos(t, l) && Ancestor(t, a, ParentOf(t, l)))
  }

  lemma {:induction false} AncestorEarlier(t: Tree, a: int, l: int)
    requires Ancestor(t, a, l)
    ensures Pos(t, a) <= Pos(t, l)
    decreases Pos(t, l)
  {
    if a != l {
      AncestorEarlier(t, a, ParentOf(t, l));
    }
  }

  lemma {:induction false} AncestorNode(t: Tree, f: Formula, a: int, l: int)
    requires TreeOk(t, f) && Node(t, l) && Ancestor(t, a, l)
    ensures Node(t, a)
    decreases Pos(t, l)
  {
    if a != l {
      assert NodeOk(t, f, l);
      AncestorNode(t, f, a, ParentOf(t, l));
    }
  }

  /** An ancestor implies its descendants. */
  lemma {:induction false} AncestorImplies(t: Tree, f: Formula, a: int, l: int, m: Model)
    requires TreeOk(t, f) && Node(t, l) && Ancestor(t, a, l) && Models(m, f) && Holds(m, a)
    ensures Holds(m, l)
    decreases Pos(t, l)
  {
    if a != l {
      assert NodeOk(t, f, l);
      var p := ParentOf(t, l);
      AncestorImplies(t, f, a, p, m);
      assert Satisfies(m, [-p, l]);
    }
  }

  /** The probe is an ancestor of all nodes. */
  lemma {:induction false} ProbeAncestor(t: Tree, f: Formula, l: int)
    requires TreeOk(t, f) && Node(t, l)
    ensures Ancestor(t, t.trail[t.start], l)
    decreases Pos(t, l)
  {
    assert NodeOk(t, f, l);
    if Pos(t, l) != t.start {
      ProbeAncestor(t, f, ParentOf(t, l));
    }
  }

  lemma {:induction false} AncestorTransitive(t: Tree, a: int, b: int, c: int)
    requires Ancestor(t, a, b) && Ancestor(t, b, c)
    ensures Ancestor(t, a, c)
    decreases Pos(t, c)
  {
    if b != c {
      AncestorTransitive(t, a, b, ParentOf(t, c));
    }
  }

  /** Common ancestors of two different nodes are those of the earlier one and
      the parent of the later one. */
  lemma CommonStep(t: Tree, l: int, k: int, c: int)
    requires Pos(t, l) < Pos(t, k)
    requires ParentOf(t, k) != 0 && Pos(t, ParentOf(t, k)) < Pos(t, k)
    ensures Ancestor(t, c, l) && Ancestor(t, c, k) <==> Ancestor(t, c, l) && Ancestor(t, c, ParentOf(t, k))
  {
    if Ancestor(t, c, l) {
      AncestorEarlier(t, c, l);
    }
  }

  /** `d` is the closest common ancestor. */
  ghost predicate Dominates(t: Tree, d: int, a: int, b: int) {
    && Ancestor(t, d, a) && Ancestor(t, d, b)
    && forall c :: Ancestor(t, c, a) && Ancestor(t, c, b) ==> Ancestor(t, c, d)
  }

  /** The closest common ancestor of two nodes. */
  method ProbeDominator(t: Tree, ghost f: Formula, a: int, b: int) returns (res: int)
    requires TreeOk(t, f) && Node(t, a) && Node(t, b)
    ensures Node(t, res) && Dominates(t, res, a, b)
  {
    var l, k := a, b;
    while l != k
      invariant Node(t, l) && Node(t, k)
      invariant forall c :: Ancestor(t, c, a) && Ancestor(t, c, b) <==> Ancestor(t, c, l) && Ancestor(t, c, k)
      decreases Pos(t, l) + Pos(t, k)
    {
      if Pos(t, l) > Pos(t, k) {
        l, k := k, l;
      }
      assert Pos(t, l) < Pos(t, k);
      assert NodeOk(t, f, l) && NodeOk(t, f, k);
      if ParentOf(t, l) == 0 {
        ProbeIsFirst(t, f, l);
        ProbeAncestor(t, f, k);
        assert Ancestor(t, l, l);
        return l;
      }
      forall c
        ensures Ancestor(t, c, l) && Ancestor(t, c, k) <==> Ancestor(t, c, l) && Ancestor(t, c, ParentOf(t, k))
      {
        CommonStep(t, l, k, c);
      }
      k := ParentOf(t, k);
    }
    assert Ancestor(t, l, l);
    return l;
  }

  lemma ProbeIsFirst(t: Tree, f: Formula, l: int)
    requires TreeOk(t, f) && Node(t, l) && ParentOf(t, l) == 0
    ensures l == t.trail[t.start]
  {
    assert NodeOk(t, f, l);
  }

  /* ---- assigning ---- */

  function Assigned(t: Tree, lit: int, parent: int, level: nat): Tree {
    Tree(t.trail + [lit], if level == 0 then |t.trail| + 1 else t.start,
         t.vtab[Abs(lit) := Var(level, |t.trail|)],
         t.parents[Abs(lit) := if lit < 0 then -parent else parent])
  }

  ghost predicate Unassigned(t: Tree, l: int) {
    l != 0 && l !in t.trail && -l !in t.trail
  }

  /** Other variables keep their data. */
  lemma AssignedFrame(t: Tree, lit: int, parent: int, level: nat)
    requires Unassigned(t, lit)
    ensures var t' := Assigned(t, lit, parent, level);
            && VarOf(t', lit) == Var(level, |t.trail|) && ParentOf(t', lit) == parent
            && forall l :: l in t.trail ==> VarOf(t', l) == VarOf(t, l) && ParentOf(t', l) == ParentOf(t, l)
  {
    var t' := Assigned(t, lit, parent, level);
    forall l | l in t.trail ensures VarOf(t', l) == VarOf(t, l) && ParentOf(t', l) == ParentOf(t, l) {
      assert Abs(l) != Abs(lit);
    }
  }

  /** A node implied by its parent. */
  lemma AssignNode(t: Tree, f: Formula, lit: int, parent: int)
    requires TreeOk(t, f) && Unassigned(t, lit) && Node(t, parent) && Entails(f, [-parent, lit])
    ensures TreeOk(Assigned(t, lit, parent, 1), f) && Node(Assigned(t, lit, parent, 1), lit)
  {
    AssignedFrame(t, lit, parent, 1);
    var t' := Assigned(t, lit, parent, 1);
    NodesKept(t, t', f);
    assert t'.trail[|t.trail|] == lit;
    hide VarOf;
    hide ParentOf;
    hide Entails;
    forall l | Node(t', l) ensures NodeOk(t', f, l) {
      if l != lit {
        assert t'.trail[Pos(t', l)] == l && Pos(t', l) < |t.trail|;
        assert l in t.trail && Node(t, l) && NodeOk(t, f, l);
        NodeKept(t, t', f, l);
      } else {
        assert parent in t.trail;
      }
    }
  }

  /** Positions and levels of assigned literals are as before. */
  lemma NodesKept(t: Tree, t': Tree, f: Formula)
    requires TreeOk(t, f) && t.trail <= t'.trail
    requires forall l :: l in t.trail ==> VarOf(t', l) == VarOf(t, l)
    ensures forall i :: 0 <= i < |t.trail| ==> Pos(t', t'.trail[i]) == i && LevelOf(t', t'.trail[i]) == LevelOf(t, t.trail[i])
  {
    forall i | 0 <= i < |t.trail| ensures Pos(t', t'.trail[i]) == i && LevelOf(t', t'.trail[i]) == LevelOf(t, t.trail[i]) {
      assert t'.trail[i] == t.trail[i] && t.trail[i] in t.trail;
    }
  }

  lemma NodeKept(t: Tree, t': Tree, f: Formula, k: int)
    requires Node(t, k) && NodeOk(t, f, k) && t.trail <= t'.trail && t'.start == t.start
    requires forall l :: l in t.trail ==> VarOf(t', l) == VarOf(t, l) && ParentOf(t', l) == ParentOf(t, l)
    ensures NodeOk(t', f, k)
  {
    assert k in t.trail;
    var p := ParentOf(t, k);
    if Pos(t, k) != t.start {
      assert p in t.trail;
    }
  }

  /** The probe itself starts level one. */
  lemma AssignProbe(t: Tree, f: Formula, lit: int)
    requires TreeOk(t, f) && Unassigned(t, lit) && t.start == |t.trail|
    ensures TreeOk(Assigned(t, lit, 0, 1), f) && Node(Assigned(t, lit, 0, 1), lit)
    ensures Assigned(t, lit, 0, 1).trail[t.start] == lit
  {
    AssignedFrame(t, lit, 0, 1);
    var t' := Assigned(t, lit, 0, 1);
    NodesKept(t, t', f);
    assert t'.trail[|t.trail|] == lit;
    hide VarOf;
    hide ParentOf;
    hide Entails;
    forall l | Node(t', l) ensures NodeOk(t', f, l) {
      assert Pos(t', l) == |t.trail| && l == lit;
    }
  }

  /** A unit on the root level. */
  lemma AssignRoot(t: Tree, f: Formula, lit: int, parent: int)
    requires TreeOk(t, f) && Unassigned(t, lit) && t.start == |t.trail| && Entails(f, [lit])
    ensures TreeOk(Assigned(t, lit, parent, 0), f)
  {
    AssignedFrame(t, lit, parent, 0);
    var t' := Assigned(t, lit, parent, 0);
    NodesKept(t, t', f);
    assert t'.trail[|t.trail|] == lit;
    hide VarOf;
    hide ParentOf;
    hide Entails;
    assert forall i :: 0 <= i < |t.trail| ==> t'.trail[i] == t.trail[i];
  }

  /* ---- hyper binary resolution ---- */

  /** A false literal of the clause: fixed, or below the dominator. */
  ghost predicate Covered(t: Tree, f: Formula, dom: int, l: int) {
    Entails(f, [-l]) || (Node(t, -l) && Ancestor(t, dom, -l))
  }

  lemma RootCovered(t: Tree, f: Formula, dom: int, l: int)
    requires TreeOk(t, f) && -l in t.trail && LevelOf(t, -l) == 0
    ensures Covered(t, f, dom, l)
  {
    var i :| 0 <= i < |t.trail| && t.trail[i] == -l;
    assert i < t.start;
  }

  lemma LevelNode(t: Tree, f: Formula, l: int)
    requires TreeOk(t, f) && l in t.trail && LevelOf(t, l) != 0
    ensures Node(t, l)
  {
    var i :| 0 <= i < |t.trail| && t.trail[i] == l;
  }

  /** If the dominator covers all literals but one, it implies that one. */
  lemma DominatorImplies(t: Tree, f: Formula, c: Clause, unit: int, dom: int)
    requires TreeOk(t, f) && Entails(f, c) && Node(t, dom)
    requires forall l :: l in c && l != unit ==> l != 0 && Covered(t, f, dom, l)
    ensures Entails(f, [-dom, unit])
  {
    forall m | Models(m, f) ensures Satisfies(m, [-dom, unit]) {
      assert [-dom, unit][0] == -dom && [-dom, unit][1] == unit;
      if Holds(m, dom) {
        assert Satisfies(m, c);
        forall l | l in c && l != unit ensures !Holds(m, l) {
          CoveredFalse(t, f, dom, l, m);
        }
        assert unit in [-dom, unit] && Holds(m, unit);
      } else {
        assert -dom in [-dom, unit] && Holds(m, -dom);
      }
    }
  }

  lemma CoveredFalse(t: Tree, f: Formula, dom: int, l: int, m: Model)
    requires TreeOk(t, f) && Covered(t, f, dom, l) && l != 0 && Models(m, f) && Holds(m, dom)
    ensures !Holds(m, l)
  {
    if Entails(f, [-l]) {
      UnitHolds(f, -l, m);
    } else {
      AncestorImplies(t, f, dom, -l, m);
    }
  }

  /** If the dominator covers all literals it is refuted. */
  lemma DominatorRefuted(t: Tree, f: Formula, c: Clause, dom: int)
    requires TreeOk(t, f) && Entails(f, c) && Node(t, dom)
    requires forall l :: l in c ==> l != 0 && Covered(t, f, dom, l)
    ensures Entails(f, [-dom])
  {
    forall m | Models(m, f) ensures Satisfies(m, [-dom]) {
      assert [-dom][0] == -dom;
      if Holds(m, dom) {
        assert Satisfies(m, c);
        forall l | l in c ensures !Holds(m, l) {
          CoveredFalse(t, f, dom, l, m);
        }
      } else {
        assert -dom in [-dom] && Holds(m, -dom);
      }
    }
  }

  /** All literals of the clause are false. */
  ghost predicate Falsified(t: Tree, c: Clause) {
    forall l :: l in c ==> l != 0 && -l in t.trail
  }

  /** An ancestor of all literals falsified above the root level. */
  ghost predicate CommonAncestor(t: Tree, a: int, c: Clause) {
    forall l :: l in c && LevelOf(t, -l) != 0 ==> Ancestor(t, a, -l)
  }

  /** The closest one. */
  ghost predicate DominatesAll(t: Tree, d: int, c: Clause) {
    CommonAncestor(t, d, c) && forall a :: CommonAncestor(t, a, c) ==> Ancestor(t, a, d)
  }

  lemma DominatesFirst(t: Tree, c: Clause, l: int)
    requires forall k :: k in c ==> LevelOf(t, -k) == 0
    requires LevelOf(t, -l) != 0
    ensures DominatesAll(t, -l, c + [l])
  {
    assert l in c + [l];
  }

  lemma DominatesRoot(t: Tree, d: int, c: Clause, l: int)
    requires DominatesAll(t, d, c) && LevelOf(t, -l) == 0
    ensures DominatesAll(t, d, c + [l])
  {
    forall a ensures CommonAncestor(t, a, c) <==> CommonAncestor(t, a, c + [l]) {
      assert forall k :: k in c ==> k in c + [l];
    }
  }

  lemma DominatesStep(t: Tree, d: int, c: Clause, l: int, e: int)
    requires DominatesAll(t, d, c) && LevelOf(t, -l) != 0 && Dominates(t, e, d, -l)
    ensures DominatesAll(t, e, c + [l])
  {
    forall k | k in c && LevelOf(t, -k) != 0 ensures Ancestor(t, e, -k) {
      AncestorTransitive(t, e, d, -k);
    }
    forall a | CommonAncestor(t, a, c + [l]) ensures Ancestor(t, a, e) {
      assert l in c + [l] && forall k :: k in c ==> k in c + [l];
      assert CommonAncestor(t, a, c);
    }
  }

  lemma CommonCovers(t: Tree, f: Formula, dom: int, c: Clause)
    requires TreeOk(t, f) && Falsified(t, c) && CommonAncestor(t, dom, c)
    ensures forall l :: l in c ==> l != 0 && Covered(t, f, dom, l)
  {
    forall l | l in c ensures Covered(t, f, dom, l) {
      if LevelOf(t, -l) == 0 {
        RootCovered(t, f, dom, l);
      } else {
        LevelNode(t, f, -l);
      }
    }
  }

  /* ---- failed literals ---- */

  /** The tree after leaving level one. */
  function RootOnly(t: Tree): Tree
    requires t.start <= |t.trail|
  {
    t.(trail := t.trail[..t.start])
  }

  lemma RootOnlyOk(t: Tree, f: Formula)
    requires TreeOk(t, f)
    ensures TreeOk(RootOnly(t), f)
    ensures forall l :: Node(t, l) ==> Unassigned(RootOnly(t), l)
  {
    var r := RootOnly(t);
    assert forall l :: VarOf(r, l) == VarOf(t, l);
    forall l | Node(t, l) ensures Unassigned(r, l) {
      assert Pos(t, -l) == Pos(t, l);
      assert forall i :: 0 <= i < t.start ==> r.trail[i] == t.trail[i] && Pos(t, t.trail[i]) == i;
    }
  }

  lemma PrefixMembers(a: seq<int>, b: seq<int>)
    requires a <= b
    ensures forall l :: l in a ==> l in b
  {
    forall l | l in a ensures l in b {
      var i :| 0 <= i < |a| && a[i] == l;
      assert b[i] == l;
    }
  }
}
