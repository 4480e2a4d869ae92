/** Closing a component: the nodes above its entry on the component stack are
    exactly one strongly connected component, and removing them keeps the
    invariant of the search. */
module Components {
  import opened ImplicationGraph
  import opened Tarjan

  /** `v` is the top frame, finished, and the entry of its component. */
  ghost predicate Entry(g: Graph, s: Search, t: Trace, v: int) {
    && |t.frames| > 0
    && t.frames[|t.frames| - 1] == Frame(v, [])
    && IsNewMin(g, s, v, Idx(s, v))
  }

  /** `w` is on the component stack at or above `v`. */
  predicate Above(s: Search, v: int, w: int) {
    w in s.scc && Idx(s, v) <= Idx(s, w)
  }

  /** `v` is open, on the stack, its children are visited, and no younger node
      is open. */
  ghost predicate Youngest(g: Graph, s: Search, t: Trace, v: int) {
    && v in s.scc && Open(t, v) && ChildrenVisited(g, s, v)
    && (forall w :: Open(t, w) && w != v ==> Idx(s, w) < Idx(s, v))
  }

  lemma EntryYoungest(g: Graph, s: Search, t: Trace, v: int)
    requires FramesOk(g, s, t) && Entry(g, s, t, v)
    ensures Youngest(g, s, t, v)
  {
    ClosedOpen(g, s, t, 0);
  }

  lemma StackOrder(s: Search, w: int)
    requires Stacked(s) && w in s.scc
    ensures Idx(s, s.scc[0]) <= Idx(s, w)
  {
    var i :| 0 <= i < |s.scc| && s.scc[i] == w;
    assert i > 0 ==> Idx(s, s.scc[0]) < Idx(s, s.scc[i]);
  }

  /** A stacked node above `v` hangs below `v` in the depth-first tree. */
  lemma AboveParent(g: Graph, s: Search, t: Trace, v: int, w: int)
    requires Stacked(s) && ParentsOk(g, s, t) && Youngest(g, s, t, v) && Above(s, v, w) && w != v
    requires Idx(s, v) != Idx(s, w)
    ensures !Open(t, w)
    ensures var p := Parent(t, w);
            && Above(s, v, p) && Edge(g, p, w) && Idx(s, p) < Idx(s, w)
            && (p == v || (!Open(t, p) && Low(t, p) <= Low(t, w)))
  {
    StackOrder(s, v);
    assert ParentOk(g, s, t, w);
    var p := Parent(t, w);
    assert p != v ==> Open(t, p) ==> Idx(s, p) < Idx(s, v);
  }

  lemma IndexUnique(s: Search, v: int, w: int)
    requires Stacked(s) && v in s.scc && w in s.scc && v != w
    ensures Idx(s, v) != Idx(s, w)
  {
    var i :| 0 <= i < |s.scc| && s.scc[i] == v;
    var j :| 0 <= j < |s.scc| && s.scc[j] == w;
    assert if i < j then Idx(s, s.scc[i]) < Idx(s, s.scc[j]) else Idx(s, s.scc[j]) < Idx(s, s.scc[i]);
  }

  /** No finished node above `v` knows a node below `v`. */
  lemma {:induction false} LowBound(g: Graph, s: Search, t: Trace, v: int, w: int)
    requires Stacked(s) && ClosedOk(g, s, t) && ParentsOk(g, s, t) && Youngest(g, s, t, v)
    requires IsNewMin(g, s, v, Idx(s, v)) && Above(s, v, w) && w != v
    ensures Idx(s, v) <= Low(t, w) && !Open(t, w)
    decreases Idx(s, w)
  {
    IndexUnique(s, v, w);
    AboveParent(g, s, t, v, w);
    var p := Parent(t, w);
    if p != v {
      hide *;
      LowBound(g, s, t, v, p);
    } else {
      assert Idx(s, v) <= Min(s, w);
    }
  }

  /** Implications from above `v` stay above `v` or hit traversed nodes. */
  lemma AboveClosed(g: Graph, s: Search, t: Trace, v: int, w: int, x: int)
    requires Numbered(g, s) && ClosedOk(g, s, t) && ParentsOk(g, s, t) && Youngest(g, s, t, v)
    requires IsNewMin(g, s, v, Idx(s, v)) && Above(s, v, w) && Edge(g, w, x)
    ensures Above(s, v, x) || Done(s, x)
  {
    if w == v {
      assert Visited(s, x) && Idx(s, v) <= Min(s, x);
    } else {
      LowBound(g, s, t, v, w);
      assert Visited(s, x) && (x in s.scc ==> Low(t, w) <= Idx(s, x));
    }
  }

  ghost function AboveOrDone(g: Graph, s: Search, v: int): set<int> {
    set w | w in g.active && (Above(s, v, w) || Done(s, w))
  }

  lemma AboveOrDoneClosed(g: Graph, s: Search, t: Trace, v: int)
    requires Inv(g, s, t) && Entry(g, s, t, v)
    ensures forall w, x :: w in AboveOrDone(g, s, v) && Edge(g, w, x) ==> x in AboveOrDone(g, s, v)
  {
    EntryYoungest(g, s, t, v);
    forall w, x | w in AboveOrDone(g, s, v) && Edge(g, w, x) ensures x in AboveOrDone(g, s, v) {
      if Above(s, v, w) {
        AboveClosed(g, s, t, v, w, x);
      }
    }
  }

  lemma {:induction false} EntryReaches(g: Graph, s: Search, t: Trace, v: int, w: int)
    requires Inv(g, s, t) && Youngest(g, s, t, v) && Above(s, v, w)
    ensures Reach(g, v, w)
    decreases Idx(s, w)
  {
    if w == v {
      ReachSelf(g, v);
    } else {
      IndexUnique(s, v, w);
      AboveParent(g, s, t, v, w);
      hide *;
      EntryReaches(g, s, t, v, Parent(t, w));
      ReachEdge(g, Parent(t, w), w);
      ReachTransitive(g, v, Parent(t, w), w);
    }
  }

  lemma {:induction false} ReachesEntry(g: Graph, s: Search, t: Trace, v: int, w: int)
    requires Inv(g, s, t) && Entry(g, s, t, v) && Above(s, v, w)
    ensures Reach(g, w, v)
    decreases Idx(s, w)
  {
    if w == v {
      ReachSelf(g, v);
    } else {
      EntryYoungest(g, s, t, v);
      LowBound(g, s, t, v, w);
      assert ReachesMin(g, s, w);
      var y :| y in s.scc && Idx(s, y) == Min(s, w) && Reach(g, w, y);
      AboveOrDoneClosed(g, s, t, v);
      ClosedReach(g, AboveOrDone(g, s, v), w, y);
      assert Above(s, v, y) && Idx(s, y) < Idx(s, w);
      hide *;
      ReachesEntry(g, s, t, v, y);
      ReachTransitive(g, w, y, v);
    }
  }

  lemma DoneReach(g: Graph, s: Search, a: int, b: int)
    requires DoneClosed(g, s) && Counted(g, s) && Done(s, a) && Reach(g, a, b)
    ensures Done(s, b)
  {
    ClosedReach(g, (set w | w in g.active && Done(s, w)), a, b);
  }

  /** The nodes above the entry are its strongly connected component. */
  lemma ComponentExact(g: Graph, s: Search, t: Trace, v: int, w: int)
    requires Inv(g, s, t) && Entry(g, s, t, v)
    ensures Above(s, v, w) <==> Mutual(g, v, w)
  {
    EntryYoungest(g, s, t, v);
    if Above(s, v, w) {
      EntryReaches(g, s, t, v, w);
      ReachesEntry(g, s, t, v, w);
    }
    if Mutual(g, v, w) {
      AboveOrDoneClosed(g, s, t, v);
      assert Numbered(g, s);
      ClosedReach(g, AboveOrDone(g, s, v), v, w);
      if Done(s, w) {
        DoneReach(g, s, w, v);
      }
    }
  }

  /* ---- removing the component ---- */

  /** `s'` is `s` after the nodes from `v` on were traversed. */
  ghost predicate Removing(s: Search, s': Search, v: int) {
    && s'.count == s.count
    && (forall w :: Idx(s', w) == Idx(s, w))
    && (forall w :: Above(s, v, w) ==> Min(s', w) == TRAVERSED)
    && (forall w :: !Above(s, v, w) ==> Min(s', w) == Min(s, w))
    && |s'.scc| <= |s.scc| && s'.scc == s.scc[..|s'.scc|]
    && (forall w :: w in s'.scc <==> w in s.scc && Idx(s, w) < Idx(s, v))
  }

  lemma RemovingMarks(g: Graph, s: Search, s': Search, v: int)
    requires Numbered(g, s) && v in s.scc && Removing(s, s', v)
    ensures forall w :: Visited(s', w) <==> Visited(s, w)
    ensures forall w :: Done(s', w) <==> Done(s, w) || Above(s, v, w)
  {
    hide Idx;
    hide Counted;
  }

  lemma RemovingFacts(g: Graph, s: Search, s': Search, v: int)
    requires Numbered(g, s) && v in s.scc && Removing(s, s', v)
    ensures Numbered(g, s')
    ensures forall w :: Visited(s', w) <==> Visited(s, w)
    ensures forall w :: Done(s', w) <==> Done(s, w) || Above(s, v, w)
  {
    RemovingMarks(g, s, s', v);
    assert VisitedSet(g, s') == VisitedSet(g, s);
    assert Counted(g, s');
    RemovingStacked(s, s', v);
  }

  lemma RemovingStacked(s: Search, s': Search, v: int)
    requires Stacked(s) && v in s.scc && Removing(s, s', v)
    requires forall w :: Visited(s', w) <==> Visited(s, w)
    requires forall w :: Done(s', w) <==> Done(s, w) || Above(s, v, w)
    ensures Stacked(s')
  {
    hide Idx;
    hide Min;
    hide Visited;
    hide Done;
    forall i, j | 0 <= i < j < |s'.scc| ensures Idx(s', s'.scc[i]) < Idx(s', s'.scc[j]) {
      assert s'.scc[i] == s.scc[i] && s'.scc[j] == s.scc[j];
    }
  }

  lemma RemoveMinReached(g: Graph, s: Search, s': Search, v: int)
    requires Numbered(g, s) && MinReached(g, s) && v in s.scc && Removing(s, s', v)
    ensures MinReached(g, s')
  {
    hide Idx;
    hide Reach;
    forall w | w in s'.scc ensures ReachesMin(g, s', w) {
      assert w in s.scc && ReachesMin(g, s, w);
      var y :| y in s.scc && Idx(s, y) == Min(s, w) && Reach(g, w, y);
      assert y in s'.scc && Idx(s', y) == Min(s', w);
    }
  }

  lemma RemoveClosedOk(g: Graph, s: Search, s': Search, t: Trace, t': Trace, v: int)
    requires Numbered(g, s) && ClosedOk(g, s, t) && v in s.scc && Removing(s, s', v)
    requires t'.low == t.low && forall w :: Open(t', w) <==> Open(t, w) && w != v
    ensures ClosedOk(g, s', t')
  {
    RemovingFacts(g, s, s', v);
    hide Numbered;
    hide Idx;
    hide Min;
    hide Visited;
    hide Open;
    assert forall w :: Low(t', w) == Low(t, w);
    hide Low;
    assert forall w :: w in s'.scc ==> w in s.scc && w != v && !Above(s, v, w);
  }

  lemma RemoveParentsOk(g: Graph, s: Search, s': Search, t: Trace, t': Trace, v: int)
    requires Numbered(g, s) && ParentsOk(g, s, t) && v in s.scc && Removing(s, s', v)
    requires t'.low == t.low && t'.parent == t.parent && forall w :: Open(t', w) <==> Open(t, w) && w != v
    ensures ParentsOk(g, s', t')
  {
    hide Numbered;
    hide Idx;
    hide Open;
    assert forall w :: Low(t', w) == Low(t, w) && Parent(t', w) == Parent(t, w);
    hide Low;
    hide Parent;
    forall w | w in s'.scc && w != s'.scc[0] ensures ParentOk(g, s', t', w) {
      assert w in s.scc && s'.scc[0] == s.scc[0] && ParentOk(g, s, t, w);
    }
  }

  /** The stack runs empty with the frames. */
  lemma RemoveBottom(g: Graph, s: Search, s': Search, t: Trace, v: int)
    requires Stacked(s) && FramesOk(g, s, t) && Entry(g, s, t, v) && Removing(s, s', v)
    ensures |t.frames| == 1 <==> |s'.scc| == 0
    ensures |t.frames| > 1 ==> s'.scc[0] == s.scc[0]
  {
    hide IsNewMin;
    var n := |t.frames| - 1;
    StackOrder(s, v);
    assert t.frames[n].node == v && t.frames[0].node == s.scc[0];
    assert |s'.scc| > 0 ==> s'.scc[0] == s.scc[0] && s'.scc[0] in s'.scc;
    assert n > 0 ==> s.scc[0] in s'.scc;
  }

  lemma RemoveFramesOk(g: Graph, s: Search, s': Search, t: Trace, v: int, m: nat)
    requires Stacked(s) && FramesOk(g, s, t) && Entry(g, s, t, v) && Removing(s, s', v)
    requires forall w :: Visited(s', w) <==> Visited(s, w)
    ensures FramesOk(g, s', ClosedTrace(t, m))
  {
    RemoveBottom(g, s, s', t, v);
    ClosedFrames(t, m);
    RemoveKept(g, s, s', t, v);
    hide Stacked, Entry, Removing, ClosedTrace, Idx, Visited, Edge;
    FewerFrames(g, s, s', t, ClosedTrace(t, m));
  }

  /** The frames below stay on the component stack. */
  lemma RemoveKept(g: Graph, s: Search, s': Search, t: Trace, v: int)
    requires FramesOk(g, s, t) && Entry(g, s, t, v) && Removing(s, s', v)
    ensures forall k :: 0 <= k < |t.frames| - 1 ==> t.frames[k].node in s'.scc
    ensures forall w :: Idx(s', w) == Idx(s, w)
    ensures |s.scc| > 0
  {
    hide IsNewMin, Idx, Visited, Edge;
  }

  lemma FewerFrames(g: Graph, s: Search, s': Search, t: Trace, t': Trace)
    requires FramesOk(g, s, t) && |t.frames| > 0 && t'.frames == t.frames[..|t.frames| - 1] && |s.scc| > 0
    requires |t.frames| == 1 <==> |s'.scc| == 0
    requires |t.frames| > 1 ==> s'.scc[0] == s.scc[0]
    requires forall k :: 0 <= k < |t.frames| - 1 ==> t.frames[k].node in s'.scc
    requires forall w :: Idx(s', w) == Idx(s, w)
    requires forall w :: Visited(s', w) <==> Visited(s, w)
    ensures FramesOk(g, s', t')
  {
    hide Idx, Visited, Edge;
  }

  lemma RemoveDoneClosed(g: Graph, s: Search, s': Search, t: Trace, v: int)
    requires Inv(g, s, t) && Entry(g, s, t, v) && Removing(s, s', v)
    ensures DoneClosed(g, s')
  {
    EntryYoungest(g, s, t, v);
    RemovingFacts(g, s, s', v);
    AboveOrDoneClosed(g, s, t, v);
    forall w, x | Done(s', w) && Edge(g, w, x) ensures Done(s', x) {
      assert w in AboveOrDone(g, s, v);
      assert x in AboveOrDone(g, s, v);
    }
  }

  lemma RemoveKeeps(g: Graph, s: Search, s': Search, t: Trace, v: int)
    requires Inv(g, s, t) && Entry(g, s, t, v) && Removing(s, s', v)
    ensures Inv(g, s', t.(frames := t.frames[..|t.frames| - 1]))
  {
    hide Numbered;
    hide MinReached;
    hide ClosedOk;
    hide ParentsOk;
    hide DoneClosed;
    hide FramesOk;
    hide Removing;
    hide Idx;
    hide Min;
    hide Visited;
    hide Done;
    hide Open;
    hide IsNewMin;
    var t' := t.(frames := t.frames[..|t.frames| - 1]);
    EntryYoungest(g, s, t, v);
    assert v in s.scc;
    RemoveOpen(g, s, t);
    assert t.frames[|t.frames| - 1].node == v;
    hide Youngest;
    StackedOf(g, s);
    RemovingFacts(g, s, s', v);
    RemoveMinReached(g, s, s', v);
    RemoveClosedOk(g, s, s', t, t', v);
    RemoveParentsOk(g, s, s', t, t', v);
    RemoveFramesOk(g, s, s', t, v, 0);
    RemoveDoneClosed(g, s, s', t, v);
    FramesOnly(g, s', ClosedTrace(t, 0), t');
  }

  lemma StackedOf(g: Graph, s: Search)
    requires Numbered(g, s)
    ensures Stacked(s)
  {
  }

  lemma FramesOnly(g: Graph, s: Search, t: Trace, t': Trace)
    requires FramesOk(g, s, t) && t'.frames == t.frames
    ensures FramesOk(g, s, t')
  {
  }

  lemma RemoveOpen(g: Graph, s: Search, t: Trace)
    requires FramesOk(g, s, t) && |t.frames| > 0
    ensures forall w :: Open(t.(frames := t.frames[..|t.frames| - 1]), w)
                        <==> Open(t, w) && w != t.frames[|t.frames| - 1].node
  {
    ClosedOpen(g, s, t, 0);
    assert forall w :: Open(t.(frames := t.frames[..|t.frames| - 1]), w) <==> Open(ClosedTrace(t, 0), w);
  }

  /* ---- representatives ---- */

  /** `r` is the literal with the smallest variable in the component of `a`. */
  ghost predicate Smallest(g: Graph, a: int, r: int) {
    Mutual(g, a, r) && forall b :: Mutual(g, a, b) ==> Abs(r) <= Abs(b)
  }

  /** A literal is equivalent to its negation. */
  ghost predicate Clash(g: Graph, a: int) {
    Mutual(g, a, -a)
  }

  ghost predicate Inconsistent(g: Graph) {
    exists a :: Clash(g, a)
  }

  /** Representatives of the traversed nodes. */
  ghost predicate Represented(g: Graph, s: Search, frozen: set<int>, reprs: map<int, int>) {
    && (forall a :: a in reprs ==> Done(s, a))
    && forall a {:trigger Done(s, a)} :: Done(s, a) ==>
      && a in reprs && !Clash(g, a)
      && (if Abs(a) in frozen then reprs[a] == a else Smallest(g, a, reprs[a]))
  }

  /** If the negation of the entry is in another component, so is that of every
      node of the component. */
  lemma ClashAtEntry(g: Graph, v: int, a: int)
    requires SkewSymmetric(g) && Mutual(g, v, a) && !Mutual(g, v, -v)
    ensures !Clash(g, a)
  {
    if Clash(g, a) {
      MutualSkew(g, v, a);
      MutualTransitive(g, v, a, -a);
      MutualTransitive(g, v, -a, -v);
    }
  }

  /** A component without clash has one smallest literal. */
  lemma SmallestUnique(g: Graph, a: int, r: int, r': int)
    requires SkewSymmetric(g) && !Clash(g, a) && Smallest(g, a, r) && Smallest(g, a, r')
    ensures r == r'
  {
    assert Abs(r) == Abs(r');
    if r != r' {
      assert r' == -r;
      assert Mutual(g, a, -r) && Mutual(g, r, a);
      MutualSkew(g, r, a);
      MutualTransitive(g, a, -r, -a);
    }
  }

  lemma SmallestMutual(g: Graph, a: int, b: int, r: int)
    requires Mutual(g, a, b) && Smallest(g, a, r)
    ensures Smallest(g, b, r)
  {
    MutualTransitive(g, b, a, r);
    forall c | Mutual(g, b, c) ensures Abs(r) <= Abs(c) {
      MutualTransitive(g, a, b, c);
    }
  }

  lemma SmallestNegated(g: Graph, a: int, r: int)
    requires SkewSymmetric(g) && Smallest(g, a, r)
    ensures Smallest(g, -a, -r)
  {
    MutualSkew(g, a, r);
    forall c | Mutual(g, -a, c) ensures Abs(-r) <= Abs(c) {
      MutualSkew(g, -a, c);
    }
  }

  /** The representatives after the component of `v` was given `r`. */
  ghost predicate Assigned(s: Search, v: int, r: int, frozen: set<int>, reprs: map<int, int>, reprs': map<int, int>) {
    && (forall w :: Above(s, v, w) ==> w in reprs' && reprs'[w] == (if Abs(w) in frozen then w else r))
    && (forall w :: w in reprs && !Above(s, v, w) ==> w in reprs' && reprs'[w] == reprs[w])
    && (forall w :: w in reprs' ==> w in reprs || Above(s, v, w))
  }

  lemma RepresentedEntry(g: Graph, s: Search, s': Search, t: Trace, v: int,
                         frozen: set<int>, reprs: map<int, int>, reprs': map<int, int>, r: int)
    requires SkewSymmetric(g) && Inv(g, s, t) && Entry(g, s, t, v) && Removing(s, s', v)
    requires Represented(g, s, frozen, reprs) && Assigned(s, v, r, frozen, reprs, reprs')
    requires Above(s, v, r) && !Above(s, v, -v)
    requires forall w :: Above(s, v, w) ==> Abs(r) <= Abs(w)
    ensures Represented(g, s', frozen, reprs')
  {
    hide Numbered;
    hide MinReached;
    hide ClosedOk;
    hide ParentsOk;
    hide DoneClosed;
    hide FramesOk;
    hide Removing;
    hide IsNewMin;
    hide Above;
    hide Done;
    hide Visited;
    hide Smallest;
    hide Mutual;
    hide Represented;
    hide Assigned;
    hide SkewSymmetric;
    EntryYoungest(g, s, t, v);
    assert v in s.scc;
    hide Youngest;
    hide Entry;
    RemovingFacts(g, s, s', v);
    ComponentExact(g, s, t, v, -v);
    EntrySmallest(g, s, t, v, r);
    AboveMutual(g, s, t, v);
    RepresentedStep(g, s, s', v, frozen, reprs, reprs', r);
  }

  lemma RepresentedStep(g: Graph, s: Search, s': Search, v: int,
                        frozen: set<int>, reprs: map<int, int>, reprs': map<int, int>, r: int)
    requires SkewSymmetric(g) && Represented(g, s, frozen, reprs) && Assigned(s, v, r, frozen, reprs, reprs')
    requires Smallest(g, v, r) && !Mutual(g, v, -v) && forall a :: Above(s, v, a) ==> Mutual(g, v, a)
    requires forall w :: Done(s', w) <==> Done(s, w) || Above(s, v, w)
    ensures Represented(g, s', frozen, reprs')
  {
    hide Mutual;
    hide Smallest;
    hide Above;
    hide Done;
    hide SkewSymmetric;
    forall a | Done(s', a)
      ensures a in reprs' && !Clash(g, a)
      ensures if Abs(a) in frozen then reprs'[a] == a else Smallest(g, a, reprs'[a])
    {
      if Above(s, v, a) {
        ClashAtEntry(g, v, a);
        SmallestMutual(g, v, a, r);
      }
    }
  }

  lemma AboveMutual(g: Graph, s: Search, t: Trace, v: int)
    requires Inv(g, s, t) && Entry(g, s, t, v)
    ensures forall a :: Above(s, v, a) ==> Mutual(g, v, a)
  {
    forall a | Above(s, v, a) ensures Mutual(g, v, a) {
      ComponentExact(g, s, t, v, a);
    }
  }

  lemma EntrySmallest(g: Graph, s: Search, t: Trace, v: int, r: int)
    requires Inv(g, s, t) && Entry(g, s, t, v) && Above(s, v, r)
    requires forall w :: Above(s, v, w) ==> Abs(r) <= Abs(w)
    ensures Smallest(g, v, r)
  {
    ComponentExact(g, s, t, v, r);
    hide *;
    forall b | Mutual(g, v, b) ensures Abs(r) <= Abs(b) {
      ComponentExact(g, s, t, v, b);
    }
  }

  /** What the search computes for the whole graph: a frozen literal represents
      itself, every other literal is represented by the literal of its strongly
      connected component with the smallest variable. */
  ghost predicate Resolved(g: Graph, frozen: set<int>, reprs: map<int, int>) {
    reprs.Keys == g.active &&
    forall a {:trigger a in reprs} :: a in g.active ==>
      && !Clash(g, a)
      && (if Abs(a) in frozen then reprs[a] == a else Smallest(g, a, reprs[a]))
  }

  lemma RepresentativesAgree(g: Graph, frozen: set<int>, reprs: map<int, int>, a: int, b: int)
    requires SkewSymmetric(g) && Resolved(g, frozen, reprs) && a in g.active && b in g.active
    requires Abs(a) !in frozen && Abs(b) !in frozen
    ensures reprs[a] == reprs[b] <==> Mutual(g, a, b)
  {
    if reprs[a] == reprs[b] {
      MutualTransitive(g, a, reprs[a], b);
    }
    if Mutual(g, a, b) {
      SmallestMutual(g, a, b, reprs[a]);
      SmallestUnique(g, b, reprs[a], reprs[b]);
    }
  }

  /** Two literals that are not frozen have the same representative exactly if
      they reach each other, and negations have negated representatives. */
  ghost predicate Agreeing(g: Graph, frozen: set<int>, reprs: map<int, int>) {
    && reprs.Keys == g.active
    && (forall a, b {:trigger Mutual(g, a, b)} :: a in g.active && b in g.active && Abs(a) !in frozen && Abs(b) !in frozen ==>
          (reprs[a] == reprs[b] <==> Mutual(g, a, b)))
    && (forall a {:trigger a in reprs} :: a in reprs ==> -a in reprs && reprs[-a] == -reprs[a])
  }

  lemma ResolvedAgrees(g: Graph, frozen: set<int>, reprs: map<int, int>)
    requires SkewSymmetric(g) && Resolved(g, frozen, reprs)
    ensures Agreeing(g, frozen, reprs)
  {
    hide Mutual;
    forall a, b | a in g.active && b in g.active && Abs(a) !in frozen && Abs(b) !in frozen
      ensures reprs[a] == reprs[b] <==> Mutual(g, a, b)
    {
      RepresentativesAgree(g, frozen, reprs, a, b);
    }
    forall a | a in reprs ensures -a in reprs && reprs[-a] == -reprs[a] {
      NegationActive(g, a);
      RepresentativeOfNegation(g, frozen, reprs, a);
    }
  }

  lemma ResolvedAt(g: Graph, frozen: set<int>, reprs: map<int, int>, a: int)
    requires Resolved(g, frozen, reprs) && a in g.active
    ensures a in reprs && !Clash(g, a)
    ensures if Abs(a) in frozen then reprs[a] == a else Smallest(g, a, reprs[a])
  {
  }

  lemma NegationActive(g: Graph, a: int)
    requires SkewSymmetric(g) && a in g.active
    ensures -a in g.active && a != 0
  {
  }

  lemma RepresentativeOfNegation(g: Graph, frozen: set<int>, reprs: map<int, int>, a: int)
    requires SkewSymmetric(g) && Resolved(g, frozen, reprs) && a in g.active
    ensures a in reprs && -a in reprs && reprs[-a] == -reprs[a]
  {
    hide Resolved;
    hide SkewSymmetric;
    hide Smallest;
    hide Clash;
    NegationActive(g, a);
    ResolvedAt(g, frozen, reprs, a);
    ResolvedAt(g, frozen, reprs, -a);
    if Abs(a) !in frozen {
      SmallestNegated(g, a, reprs[a]);
      SmallestUnique(g, -a, -reprs[a], reprs[-a]);
    }
  }

  lemma AboveIsSuffix(s: Search, v: int, p: nat, w: int)
    requires Stacked(s) && p < |s.scc| && s.scc[p] == v
    ensures Above(s, v, w) <==> w in s.scc[p..]
  {
    if Above(s, v, w) {
      var i :| 0 <= i < |s.scc| && s.scc[i] == w;
      if i >= p {
        assert s.scc[p..][i - p] == w;
      }
    }
    if w in s.scc[p..] {
      var i :| 0 <= i < |s.scc[p..]| && s.scc[p..][i] == w;
      assert s.scc[p + i] == w;
    }
  }

  lemma PositionsDiffer(s: Search, i: nat, j: nat)
    requires Stacked(s) && i < j < |s.scc|
    ensures s.scc[i] != s.scc[j]
  {
    assert Idx(s, s.scc[i]) < Idx(s, s.scc[j]);
  }

  lemma RemovedSuffix(s: Search, s': Search, v: int, p: nat)
    requires Stacked(s) && p < |s.scc| && s.scc[p] == v
    requires s'.scc == s.scc[..p] && s'.idx == s.idx && s'.count == s.count
    requires forall w :: w in s.scc[p..] ==> Min(s', w) == TRAVERSED
    requires forall w :: w !in s.scc[p..] ==> Min(s', w) == Min(s, w)
    ensures Removing(s, s', v)
  {
    assert s.scc == s.scc[..p] + s.scc[p..];
    forall w ensures Above(s, v, w) <==> w in s.scc[p..] { AboveIsSuffix(s, v, p, w); }
    forall w | w in s'.scc ensures w in s.scc && Idx(s, w) < Idx(s, v) {
      var i :| 0 <= i < p && s.scc[i] == w;
      assert Idx(s, s.scc[i]) < Idx(s, s.scc[p]);
    }
    assert forall w :: w in s.scc && Idx(s, w) < Idx(s, v) ==> !Above(s, v, w);
  }

  /** The entry has one position on the component stack. */
  lemma EntryPosition(g: Graph, s: Search, t: Trace, v: int) returns (p: nat)
    requires SkewSymmetric(g) && Inv(g, s, t) && Entry(g, s, t, v)
    ensures |t.frames| > 0 && p < |s.scc| && s.scc[p] == v && v != 0 && Stacked(s)
    ensures forall k :: p < k < |s.scc| ==> s.scc[k] != v
  {
    EntryYoungest(g, s, t, v);
    p :| p < |s.scc| && s.scc[p] == v;
    assert Visited(s, v) && v in g.active;
    forall k | p < k < |s.scc| ensures s.scc[k] != v {
      PositionsDiffer(s, p, k);
    }
  }

  lemma ClashMeans(g: Graph, v: int)
    ensures Clash(g, v) <==> Mutual(g, v, -v)
  {
  }

  lemma EntryClash(g: Graph, s: Search, t: Trace, v: int, p: nat)
    requires Inv(g, s, t) && Entry(g, s, t, v) && p < |s.scc| && s.scc[p] == v && -v in s.scc[p..]
    ensures Clash(g, v)
  {
    hide *;
    EntryStacked(g, s, t);
    AboveIsSuffix(s, v, p, -v);
    ComponentExact(g, s, t, v, -v);
    ClashMeans(g, v);
  }

  /** `reprs'` is `reprs` with the literals of the component represented by `r`. */
  ghost predicate Popped(component: seq<int>, r: int, frozen: set<int>, reprs: map<int, int>, reprs': map<int, int>) {
    && (forall w :: w in component ==> w in reprs' && reprs'[w] == if Abs(w) in frozen then w else r)
    && (forall w :: w in reprs && w !in component ==> w in reprs' && reprs'[w] == reprs[w])
    && (forall w :: w in reprs' ==> w in reprs || w in component)
  }

  lemma PoppedMore(component: seq<int>, x: int, r: int, frozen: set<int>, reprs: map<int, int>, reprs': map<int, int>)
    requires Popped(component, r, frozen, reprs, reprs')
    ensures Popped([x] + component, r, frozen, reprs, reprs'[x := if Abs(x) in frozen then x else r])
  {
  }

  /** Popping the stack down to the entry and giving the popped literals their
      smallest one keeps the invariant and the representatives right. */
  lemma EntryRemoved(g: Graph, s: Search, s': Search, t: Trace, v: int, p: nat,
                     frozen: set<int>, reprs: map<int, int>, reprs': map<int, int>, r: int)
    requires SkewSymmetric(g) && Inv(g, s, t) && Entry(g, s, t, v) && Removing(s, s', v)
    requires Represented(g, s, frozen, reprs)
    requires p < |s.scc| && s.scc[p] == v && r in s.scc[p..] && -v !in s.scc[p..]
    requires forall w :: w in s.scc[p..] ==> Abs(r) <= Abs(w)
    requires Popped(s.scc[p..], r, frozen, reprs, reprs')
    ensures Inv(g, s', t.(frames := t.frames[..|t.frames| - 1])) && Represented(g, s', frozen, reprs')
  {
    hide Popped;
    EntryStacked(g, s, t);
    SuffixAbove(s, v, p);
    hide Inv;
    hide Entry;
    hide Above;
    hide SkewSymmetric;
    hide Removing;
    hide Represented;
    hide Stacked;
    hide Abs;
    SuffixAssigned(s, v, p, r, frozen, reprs, reprs');
    hide Assigned;
    RepresentedEntry(g, s, s', t, v, frozen, reprs, reprs', r);
    RemoveKeeps(g, s, s', t, v);
  }

  lemma EntryStacked(g: Graph, s: Search, t: Trace)
    requires Inv(g, s, t)
    ensures Stacked(s)
  {
  }

  lemma SuffixAbove(s: Search, v: int, p: nat)
    requires Stacked(s) && p < |s.scc| && s.scc[p] == v
    ensures forall w :: Above(s, v, w) <==> w in s.scc[p..]
  {
    forall w ensures Above(s, v, w) <==> w in s.scc[p..] {
      AboveIsSuffix(s, v, p, w);
    }
  }

  lemma SuffixAssigned(s: Search, v: int, p: nat, r: int,
                       frozen: set<int>, reprs: map<int, int>, reprs': map<int, int>)
    requires p < |s.scc| && forall w :: Above(s, v, w) <==> w in s.scc[p..]
    requires Popped(s.scc[p..], r, frozen, reprs, reprs')
    ensures Assigned(s, v, r, frozen, reprs, reprs')
  {
    hide Above;
  }

  lemma StackedNode(g: Graph, s: Search, t: Trace, v: int)
    requires Inv(g, s, t) && Visited(s, v) && !Done(s, v)
    ensures v in s.scc && v in g.active
  {
  }

  lemma RepresentedSame(g: Graph, s: Search, s': Search, frozen: set<int>, reprs: map<int, int>)
    requires Represented(g, s, frozen, reprs) && forall w :: Done(s', w) <==> Done(s, w)
    ensures Represented(g, s', frozen, reprs)
  {
  }

  /** The work stack is that of the frames, or holds a root to visit. */
  ghost predicate StackOk(g: Graph, s: Search, t: Trace, work: seq<int>) {
    || work == Flat(t.frames)
    || (t.frames == [] && |work| == 1 && work[0] in g.active && !Visited(s, work[0]))
  }

  /** No node loses its number, and `v` has one. */
  ghost predicate Grown(s: Search, s': Search, v: int) {
    forall w :: Visited(s, w) || w == v ==> Visited(s', w)
  }

  /** A traversed node on top of the work stack is a pushed child. */
  lemma DonePending(g: Graph, s: Search, t: Trace, v: int)
    requires Inv(g, s, t) && |Flat(t.frames)| > 0 && Flat(t.frames)[|Flat(t.frames)| - 1] == v && Done(s, v)
    ensures |t.frames| > 0 && t.frames[|t.frames| - 1].pending != [] && OnTop(t, v) && Visited(s, v)
  {
    FlatTop(t.frames);
    var f := t.frames[|t.frames| - 1];
    assert f.node in s.scc && !Done(s, f.node);
  }

  /** The top of the work stack is a root, a pushed child, or an open node whose
      pushed children are gone. */
  lemma TopNode(g: Graph, s: Search, t: Trace, work: seq<int>)
    requires Inv(g, s, t) && |work| > 0 && StackOk(g, s, t, work)
    ensures var v := work[|work| - 1];
            && v in g.active
            && (!Visited(s, v) ==> OnTop(t, v) && (t.frames == [] ==> work == [v]))
            && (Visited(s, v) ==> work == Flat(t.frames))
            && (Done(s, v) ==> Visited(s, v))
  {
    if work == Flat(t.frames) {
      FlatTop(t.frames);
      var f := t.frames[|t.frames| - 1];
      assert f.node in s.scc && Visited(s, f.node);
      if f.pending != [] {
        assert Edge(g, f.node, f.pending[|f.pending| - 1]);
      }
    }
  }

  lemma PopTraversed(g: Graph, s: Search, t: Trace, v: int)
    requires Inv(g, s, t) && |t.frames| > 0 && t.frames[|t.frames| - 1].pending != [] && OnTop(t, v) && Visited(s, v)
    ensures var t' := t.(frames := WithoutTop(t.frames));
            Inv(g, s, t') && Flat(t'.frames) == Flat(t.frames)[..|Flat(t.frames)| - 1]
  {
    PopKeeps(g, s, t, v);
    FlatWithoutTop(t.frames);
  }

  /** Between two searches every visited node is traversed. */
  lemma SearchOver(g: Graph, s: Search, t: Trace, v: int)
    requires Inv(g, s, t) && t.frames == [] && Visited(s, v)
    ensures Done(s, v)
  {
    assert v !in s.scc;
  }

  lemma DoneVisited(g: Graph, s: Search, t: Trace, v: int)
    requires Inv(g, s, t)
    ensures Done(s, v) ==> Visited(s, v)
  {
  }

  lemma AllResolved(g: Graph, s: Search, t: Trace, frozen: set<int>, reprs: map<int, int>)
    requires Inv(g, s, t) && t.frames == [] && Represented(g, s, frozen, reprs)
    requires forall l :: l in g.active ==> Visited(s, l)
    ensures Resolved(g, frozen, reprs)
    ensures forall a :: !Clash(g, a)
  {
    forall l | l in g.active ensures Done(s, l) {
      SearchOver(g, s, t, l);
    }
    assert Numbered(g, s);
    forall l ensures l in reprs <==> l in g.active {
      assert Done(s, l) ==> Visited(s, l);
      assert Visited(s, l) ==> l in g.active;
    }
    assert reprs.Keys == g.active;
    forall a ensures !Clash(g, a) {
      if Clash(g, a) {
        ReachActive(g, a, -a);
      }
    }
  }

  /** A visited node on top of the work stack whose minimum is its index is the
      youngest open node. */
  lemma EntryOnTop(g: Graph, s: Search, t: Trace, v: int, m: nat)
    requires Inv(g, s, t) && |Flat(t.frames)| > 0 && Flat(t.frames)[|Flat(t.frames)| - 1] == v
    requires Visited(s, v) && !Done(s, v) && IsNewMin(g, s, v, m)
    ensures v in s.scc && |t.frames| > 0
    ensures m == Idx(s, v) ==> Entry(g, s, t, v)
    ensures m == Idx(s, v) ==> Flat(t.frames[..|t.frames| - 1]) == Flat(t.frames)[..|Flat(t.frames)| - 1]
  {
    StackedNode(g, s, t, v);
    FlatTop(t.frames);
    hide Inv;
    hide IsNewMin;
    hide Flat;
    if t.frames[|t.frames| - 1].pending != [] {
      var _ := LowerStep(g, s, t, v, m);
    }
  }

  lemma VisitedMarks(g: Graph, s: Search, t: Trace, v: int)
    requires Inv(g, s, t) && v in g.active && !Visited(s, v)
    ensures var s' := VisitedState(s, v);
            && (forall w :: Visited(s', w) <==> Visited(s, w) || w == v)
            && (forall w :: Done(s', w) <==> Done(s, w))
  {
    VisitingState(s, v);
    VisitFacts(g, s, VisitedState(s, v), v);
  }
}
