/** The invariant of the iterative depth-first search for strongly connected
    components, and the proof that each of its five steps keeps it.

    The search keeps a node on the work stack until its children are finished,
    and may push a child several times.  The proof sees the work stack as a
    sequence of frames: an open node with those of its pushed children that
    still wait above it. */
module Tarjan {
  import opened Finite
  import opened ImplicationGraph

  /** The minimum index of completely traversed nodes. */
  const TRAVERSED: nat := 0xFFFF_FFFF

  function Abs(l: int): nat {
    if l < 0 then -l else l
  }

  function Get(m: map<int, nat>, l: int): nat {
    if l in m then m[l] else 0
  }

  datatype Search = Search(idx: map<int, nat>, min: map<int, nat>, scc: seq<int>, count: nat)

  datatype Frame = Frame(node: int, pending: seq<int>)

  /** Ghost state: frames, depth-first tree, and the minimum a node had when it
      was finished first. */
  datatype Trace = Trace(frames: seq<Frame>, parent: map<int, int>, low: map<int, nat>)

  function Idx(s: Search, v: int): nat { Get(s.idx, v) }

  function Min(s: Search, v: int): nat { Get(s.min, v) }

  function Parent(t: Trace, v: int): int { if v in t.parent then t.parent[v] else 0 }

  function Low(t: Trace, v: int): nat { Get(t.low, v) }

  predicate Visited(s: Search, v: int) { Idx(s, v) > 0 }

  predicate Done(s: Search, v: int) { Min(s, v) == TRAVERSED }

  ghost predicate Open(t: Trace, v: int) {
    exists k :: 0 <= k < |t.frames| && t.frames[k].node == v
  }

  /** The work stack of the frames. */
  function Flat(frames: seq<Frame>): seq<int> {
    if frames == [] then []
    else
      var n := |frames| - 1;
      Flat(frames[..n]) + [frames[n].node] + frames[n].pending
  }

  ghost function VisitedSet(g: Graph, s: Search): set<int> {
    set v | v in g.active && Visited(s, v)
  }

  /** Visited nodes are numbered consecutively. */
  ghost predicate Counted(g: Graph, s: Search) {
    && |g.active| < TRAVERSED
    && s.count == |VisitedSet(g, s)|
    && (forall v :: Visited(s, v) ==> v in g.active && Idx(s, v) <= s.count)
    && (forall v :: Done(s, v) ==> Visited(s, v))
  }

  /** The component stack holds the visited nodes that are not traversed, in
      the order of their index. */
  ghost predicate Stacked(s: Search) {
    && (forall v :: v in s.scc <==> Visited(s, v) && !Done(s, v))
    && (forall i, j :: 0 <= i < j < |s.scc| ==> Idx(s, s.scc[i]) < Idx(s, s.scc[j]))
    && (forall v :: v in s.scc ==> 1 <= Min(s, v) <= Idx(s, v))
  }

  ghost predicate Numbered(g: Graph, s: Search) {
    Counted(g, s) && Stacked(s)
  }

  /** The minimum of a node is the index of a node on the stack it reaches. */
  ghost predicate MinReached(g: Graph, s: Search) {
    forall v {:trigger ReachesMin(g, s, v)} :: v in s.scc ==> ReachesMin(g, s, v)
  }

  ghost predicate ReachesMin(g: Graph, s: Search, v: int) {
    exists y :: y in s.scc && Idx(s, y) == Min(s, v) && Reach(g, v, y)
  }

  /** Finished nodes on the stack know an older node they reach. */
  ghost predicate ClosedOk(g: Graph, s: Search, t: Trace) {
    forall v :: v in s.scc && !Open(t, v) ==>
      && Min(s, v) < Idx(s, v)
      && Min(s, v) <= Low(t, v)
      && forall x :: Edge(g, v, x) ==> Visited(s, x) && (x in s.scc ==> Low(t, v) <= Idx(s, x))
  }

  /** Traversed nodes only reach traversed nodes. */
  ghost predicate DoneClosed(g: Graph, s: Search) {
    forall v, x :: Done(s, v) && Edge(g, v, x) ==> Done(s, x)
  }

  ghost predicate ParentOk(g: Graph, s: Search, t: Trace, w: int) {
    var p := Parent(t, w);
    && p in s.scc && Edge(g, p, w) && Idx(s, p) < Idx(s, w)
    && (forall u :: Open(t, u) && Idx(s, u) < Idx(s, w) ==> Idx(s, u) <= Idx(s, p))
    && (!Open(t, p) ==> !Open(t, w) && Low(t, p) <= Low(t, w))
  }

  ghost predicate ParentsOk(g: Graph, s: Search, t: Trace) {
    forall w {:trigger ParentOk(g, s, t, w)} :: w in s.scc && w != s.scc[0] ==> ParentOk(g, s, t, w)
  }

  ghost predicate FramesOk(g: Graph, s: Search, t: Trace) {
    var fs := t.frames;
    && (|fs| == 0 <==> |s.scc| == 0)
    && (|fs| > 0 ==> fs[0].node == s.scc[0])
    && (forall k :: 0 <= k < |fs| ==> fs[k].node in s.scc)
    && (forall j, k :: 0 <= j < k < |fs| ==> Idx(s, fs[j].node) < Idx(s, fs[k].node))
    && (forall k, x :: 0 <= k < |fs| && Edge(g, fs[k].node, x) ==> Visited(s, x) || x in fs[k].pending)
    && (forall k, e :: 0 <= k < |fs| && e in fs[k].pending ==> Edge(g, fs[k].node, e))
    && (forall j, k, e :: 0 <= j <= k < |fs| && e in fs[k].pending ==> fs[j].node != e)
  }

  ghost predicate Inv(g: Graph, s: Search, t: Trace) {
    && Numbered(g, s) && MinReached(g, s) && ClosedOk(g, s, t) && DoneClosed(g, s)
    && ParentsOk(g, s, t) && FramesOk(g, s, t)
  }

  lemma CountBound(g: Graph, s: Search)
    requires Numbered(g, s)
    ensures s.count <= |g.active|
    ensures forall v :: Visited(s, v) && !Done(s, v) ==> Min(s, v) <= s.count
    ensures (exists v :: v in g.active && !Visited(s, v)) ==> s.count < |g.active|
  {
    CardinalityMonotone(VisitedSet(g, s), g.active);
    if v :| v in g.active && !Visited(s, v) {
      CardinalityMonotone(VisitedSet(g, s), g.active - {v});
    }
  }

  /* ---- visiting a node ---- */

  /** The children that are pushed: active and not visited yet. */
  function Fresh(g: Graph, s: Search, children: seq<int>): seq<int> {
    if children == [] then []
    else
      var n := |children| - 1;
      var c := children[n];
      Fresh(g, s, children[..n]) + (if c in g.active && !Visited(s, c) then [c] else [])
  }

  lemma {:induction false} FreshMembers(g: Graph, s: Search, children: seq<int>, c: int)
    ensures c in Fresh(g, s, children) <==> c in children && c in g.active && !Visited(s, c)
  {
    if children != [] {
      FreshMembers(g, s, children[..|children| - 1], c);
      assert children == children[..|children| - 1] + [children[|children| - 1]];
    }
  }

  function VisitedState(s: Search, v: int): Search {
    Search(s.idx[v := s.count + 1], s.min[v := s.count + 1], s.scc + [v], s.count + 1)
  }

  /** Frames without the last pending entry. */
  function WithoutTop(frames: seq<Frame>): seq<Frame>
    requires |frames| > 0 && |frames[|frames| - 1].pending| > 0
  {
    var f := frames[|frames| - 1];
    frames[|frames| - 1 := f.(pending := f.pending[..|f.pending| - 1])]
  }

  lemma FlatWithoutTop(frames: seq<Frame>)
    requires |frames| > 0 && |frames[|frames| - 1].pending| > 0
    ensures var f := frames[|frames| - 1];
            Flat(frames) == Flat(WithoutTop(frames)) + [f.pending[|f.pending| - 1]]
  {
    var n := |frames| - 1;
    assert WithoutTop(frames)[..n] == frames[..n];
  }

  lemma FlatPushed(frames: seq<Frame>, f: Frame)
    ensures Flat(frames + [f]) == Flat(frames) + [f.node] + f.pending
  {
    assert (frames + [f])[..|frames|] == frames;
  }

  lemma FlatTop(frames: seq<Frame>)
    requires |Flat(frames)| > 0
    ensures |frames| > 0
    ensures var f, top := frames[|frames| - 1], Flat(frames)[|Flat(frames)| - 1];
            if f.pending == [] then top == f.node && Flat(frames[..|frames| - 1]) == Flat(frames)[..|Flat(frames)| - 1]
            else top == f.pending[|f.pending| - 1]
  {
  }

  /** The trace after visiting `v` from the top frame, or as root. */
  function VisitedTrace(t: Trace, v: int, pushed: seq<int>): Trace
    requires |t.frames| > 0 ==> |t.frames[|t.frames| - 1].pending| > 0
  {
    if t.frames == [] then t.(frames := [Frame(v, pushed)])
    else
      Trace(WithoutTop(t.frames) + [Frame(v, pushed)], t.parent[v := t.frames[|t.frames| - 1].node], t.low)
  }

  /** `v` is the root of a new search or on top of the work stack. */
  ghost predicate OnTop(t: Trace, v: int) {
    |t.frames| > 0 ==>
      var f := t.frames[|t.frames| - 1];
      |f.pending| > 0 && f.pending[|f.pending| - 1] == v
  }

  lemma VisitedWork(t: Trace, v: int, pushed: seq<int>)
    requires OnTop(t, v)
    ensures Flat(VisitedTrace(t, v, pushed).frames) == (if t.frames == [] then [v] else Flat(t.frames)) + pushed
  {
    if t.frames != [] {
      FlatWithoutTop(t.frames);
      FlatPushed(WithoutTop(t.frames), Frame(v, pushed));
    } else {
      FlatPushed([], Frame(v, pushed));
      assert [] + [Frame(v, pushed)] == [Frame(v, pushed)];
    }
  }

  /** `s'` is `s` after visiting `v`. */
  ghost predicate Visiting(s: Search, s': Search, v: int) {
    && s'.scc == s.scc + [v] && s'.count == s.count + 1
    && (forall w :: w != v ==> Idx(s', w) == Idx(s, w) && Min(s', w) == Min(s, w))
    && Idx(s', v) == s.count + 1 == Min(s', v)
  }

  lemma VisitingState(s: Search, v: int)
    ensures Visiting(s, VisitedState(s, v), v)
  {
  }

  lemma VisitCount(g: Graph, s: Search, s': Search, v: int)
    requires v in g.active && !Visited(s, v) && Visiting(s, s', v)
    ensures |VisitedSet(g, s')| == |VisitedSet(g, s)| + 1
  {
    hide Idx;
    hide Min;
    assert VisitedSet(g, s') == VisitedSet(g, s) + {v} && v !in VisitedSet(g, s);
  }

  lemma VisitCounted(g: Graph, s: Search, s': Search, v: int)
    requires Numbered(g, s) && v in g.active && !Visited(s, v) && Visiting(s, s', v)
    ensures Counted(g, s') && s.count + 1 < TRAVERSED
  {
    CountBound(g, s);
    VisitCount(g, s, s', v);
  }

  lemma VisitStacked(g: Graph, s: Search, s': Search, v: int)
    requires Counted(g, s) && Stacked(s) && !Visited(s, v) && Visiting(s, s', v)
    requires s.count + 1 < TRAVERSED
    ensures Stacked(s')
  {
    hide *;
    VisitMembers(g, s, s', v);
    VisitOrder(g, s, s', v);
    StackedOf(s');
  }

  ghost predicate StackMembers(s: Search) {
    forall v :: v in s.scc <==> Visited(s, v) && !Done(s, v)
  }

  ghost predicate StackOrdered(s: Search) {
    forall i, j :: 0 <= i < j < |s.scc| ==> Idx(s, s.scc[i]) < Idx(s, s.scc[j])
  }

  ghost predicate StackMins(s: Search) {
    forall v :: v in s.scc ==> 1 <= Min(s, v) <= Idx(s, v)
  }

  lemma StackedOf(s: Search)
    ensures StackMembers(s) && StackOrdered(s) && StackMins(s) <==> Stacked(s)
  {
    hide Idx, Min, Visited, Done;
  }

  lemma VisitMembers(g: Graph, s: Search, s': Search, v: int)
    requires Counted(g, s) && Stacked(s) && !Visited(s, v) && Visiting(s, s', v)
    requires s.count + 1 < TRAVERSED
    ensures StackMembers(s') && StackMins(s')
  {
    hide VisitedSet;
    assert forall w :: w in s'.scc <==> w in s.scc || w == v;
    forall w ensures w in s'.scc <==> Visited(s', w) && !Done(s', w) {
      if w != v {
        assert Idx(s', w) == Idx(s, w) && Min(s', w) == Min(s, w);
      }
    }
    forall w | w in s'.scc ensures 1 <= Min(s', w) <= Idx(s', w) {
      if w != v {
        assert Idx(s', w) == Idx(s, w) && Min(s', w) == Min(s, w);
      }
    }
  }

  lemma VisitOrder(g: Graph, s: Search, s': Search, v: int)
    requires Counted(g, s) && Stacked(s) && !Visited(s, v) && Visiting(s, s', v)
    ensures StackOrdered(s')
  {
    VisitLast(s, s', v);
    forall i, j | 0 <= i < j < |s'.scc| ensures Idx(s', s'.scc[i]) < Idx(s', s'.scc[j]) {
      hide Counted, Stacked, Visiting, Idx, Min, Visited;
      VisitIndex(g, s, s', v, i);
      if j < |s.scc| {
        VisitIndex(g, s, s', v, j);
        StackOrder(s, i, j);
      }
    }
  }

  lemma VisitLast(s: Search, s': Search, v: int)
    requires Visiting(s, s', v)
    ensures |s'.scc| == |s.scc| + 1 && s'.scc[|s.scc|] == v && Idx(s', v) == s.count + 1
  {
  }

  lemma VisitIndex(g: Graph, s: Search, s': Search, v: int, i: nat)
    requires Counted(g, s) && Stacked(s) && !Visited(s, v) && Visiting(s, s', v) && i < |s.scc|
    ensures s'.scc[i] == s.scc[i] && Idx(s', s'.scc[i]) == Idx(s, s.scc[i]) <= s.count
  {
    assert s.scc[i] in s.scc && s.scc[i] != v;
  }

  lemma StackOrder(s: Search, i: nat, j: nat)
    requires Stacked(s) && i < j < |s.scc|
    ensures Idx(s, s.scc[i]) < Idx(s, s.scc[j])
  {
  }

  lemma VisitNumbered(g: Graph, s: Search, s': Search, v: int)
    requires Numbered(g, s) && v in g.active && !Visited(s, v) && Visiting(s, s', v)
    ensures Numbered(g, s')
    ensures s.count + 1 < TRAVERSED
  {
    VisitCounted(g, s, s', v);
    VisitStacked(g, s, s', v);
  }

  /** What changes: only `v` is visited, and it is not traversed. */
  lemma VisitFacts(g: Graph, s: Search, s': Search, v: int)
    requires Numbered(g, s) && v in g.active && !Visited(s, v) && Visiting(s, s', v)
    ensures v !in s.scc && !Done(s, v) && !Done(s', v)
    ensures forall w :: Visited(s', w) <==> Visited(s, w) || w == v
    ensures forall w :: Done(s', w) <==> Done(s, w)
    ensures forall w :: w in s'.scc <==> w in s.scc || w == v
    ensures forall w :: w in s.scc ==> Visited(s, w) && Idx(s, w) < Idx(s', v)
  {
    VisitNumbered(g, s, s', v);
  }

  lemma VisitMinReached(g: Graph, s: Search, s': Search, v: int)
    requires Numbered(g, s) && MinReached(g, s) && v in g.active && !Visited(s, v) && Visiting(s, s', v)
    ensures MinReached(g, s')
  {
    VisitFacts(g, s, s', v);
    hide Idx;
    hide Min;
    hide Visited;
    hide Done;
    hide Numbered;
    hide Counted;
    hide Stacked;
    forall w | w in s'.scc ensures ReachesMin(g, s', w) {
      if w == v {
        ReachSelf(g, v);
        assert v in s'.scc;
      } else {
        assert w in s.scc && ReachesMin(g, s, w);
        var y :| y in s.scc && Idx(s, y) == Min(s, w) && Reach(g, w, y);
        assert y in s'.scc && y != v;
      }
    }
  }

  lemma VisitOpen(t: Trace, v: int, pushed: seq<int>)
    requires OnTop(t, v)
    ensures forall w :: Open(VisitedTrace(t, v, pushed), w) <==> Open(t, w) || w == v
  {
    var t' := VisitedTrace(t, v, pushed);
    var n := |t.frames|;
    assert |t'.frames| == n + 1 && t'.frames[n].node == v;
    assert forall k :: 0 <= k < n ==> t'.frames[k].node == t.frames[k].node;
    forall w ensures Open(t', w) <==> Open(t, w) || w == v {
      if Open(t, w) {
        var k :| 0 <= k < n && t.frames[k].node == w;
        assert t'.frames[k].node == w;
      }
    }
  }

  lemma VisitClosedOk(g: Graph, s: Search, s': Search, t: Trace, v: int, pushed: seq<int>)
    requires Numbered(g, s) && ClosedOk(g, s, t) && DoneClosed(g, s)
    requires v in g.active && !Visited(s, v) && Visiting(s, s', v) && OnTop(t, v)
    ensures ClosedOk(g, s', VisitedTrace(t, v, pushed)) && DoneClosed(g, s')
  {
    VisitFacts(g, s, s', v);
    VisitOpen(t, v, pushed);
    hide Idx;
    hide Min;
    hide Done;
    hide Numbered;
    hide Counted;
    hide Stacked;
    var t' := VisitedTrace(t, v, pushed);
    forall w, x | w in s'.scc && !Open(t', w) && Edge(g, w, x)
      ensures Visited(s', x) && (x in s'.scc ==> Low(t', w) <= Idx(s', x))
    {
      assert w != v && w in s.scc && x != v && Visited(s, x);
    }
  }

  lemma VisitParentsOk(g: Graph, s: Search, s': Search, t: Trace, v: int, pushed: seq<int>)
    requires Numbered(g, s) && ParentsOk(g, s, t) && FramesOk(g, s, t)
    requires v in g.active && !Visited(s, v) && Visiting(s, s', v) && OnTop(t, v)
    ensures ParentsOk(g, s', VisitedTrace(t, v, pushed))
  {
    VisitFacts(g, s, s', v);
    VisitOpen(t, v, pushed);
    var t' := VisitedTrace(t, v, pushed);
    forall w | w in s'.scc && w != s'.scc[0] ensures ParentOk(g, s', t', w) {
      if w == v {
        VisitNewParent(g, s, s', t, v, pushed);
      } else {
        assert w in s.scc && w != s.scc[0] && ParentOk(g, s, t, w);
        VisitOldParent(g, s, s', t, v, pushed, w);
      }
    }
  }

  lemma VisitNewParent(g: Graph, s: Search, s': Search, t: Trace, v: int, pushed: seq<int>)
    requires Numbered(g, s) && FramesOk(g, s, t) && |s.scc| > 0
    requires v in g.active && !Visited(s, v) && Visiting(s, s', v) && OnTop(t, v)
    ensures ParentOk(g, s', VisitedTrace(t, v, pushed), v)
  {
    VisitFacts(g, s, s', v);
    VisitOpen(t, v, pushed);
    hide Numbered;
    hide Counted;
    hide Stacked;
    hide Idx;
    var t' := VisitedTrace(t, v, pushed);
    var n := |t.frames| - 1;
    var f := t.frames[n];
    assert v in f.pending && f.node in s.scc && f.node != v;
    assert Parent(t', v) == f.node;
    forall u | Open(t', u) && Idx(s', u) < Idx(s', v) ensures Idx(s', u) <= Idx(s', f.node) {
      var k :| 0 <= k < |t.frames| && t.frames[k].node == u;
      assert k < n ==> Idx(s, u) < Idx(s, f.node);
    }
    assert Open(t, f.node);
  }

  lemma VisitOldParent(g: Graph, s: Search, s': Search, t: Trace, v: int, pushed: seq<int>, w: int)
    requires Numbered(g, s) && v in g.active && !Visited(s, v) && Visiting(s, s', v) && OnTop(t, v)
    requires w in s.scc && ParentOk(g, s, t, w)
    ensures ParentOk(g, s', VisitedTrace(t, v, pushed), w)
  {
    VisitFacts(g, s, s', v);
    VisitOpen(t, v, pushed);
    hide Numbered;
    hide Counted;
    hide Stacked;
    hide Idx;
    var t' := VisitedTrace(t, v, pushed);
    assert w != v && Parent(t', w) == Parent(t, w) && Parent(t, w) in s.scc && Parent(t, w) != v;
    assert Low(t', w) == Low(t, w) && Low(t', Parent(t, w)) == Low(t, Parent(t, w));
    forall u | Open(t', u) && Idx(s', u) < Idx(s', w) ensures Idx(s', u) <= Idx(s', Parent(t, w)) {
      assert u != v;
    }
  }

  /** The frames after visiting `v`. */
  lemma VisitFrames(t: Trace, v: int, pushed: seq<int>)
    requires OnTop(t, v)
    ensures var t', n := VisitedTrace(t, v, pushed), |t.frames|;
            && |t'.frames| == n + 1 && t'.frames[n] == Frame(v, pushed)
            && (forall k :: 0 <= k < n ==> t'.frames[k].node == t.frames[k].node)
            && (forall k, e :: 0 <= k < n && e in t'.frames[k].pending ==> e in t.frames[k].pending)
            && (forall k, e :: 0 <= k < n && e in t.frames[k].pending ==> e in t'.frames[k].pending || e == v)
  {
    var n := |t.frames|;
    if n > 0 {
      var p := t.frames[n - 1].pending;
      assert p == p[..|p| - 1] + [v];
    }
  }

  lemma VisitFramesOk(g: Graph, s: Search, s': Search, t: Trace, v: int, pushed: seq<int>)
    requires Numbered(g, s) && FramesOk(g, s, t)
    requires v in g.active && !Visited(s, v) && Visiting(s, s', v) && OnTop(t, v)
    requires forall c :: c in pushed <==> Edge(g, v, c) && !Visited(s', c)
    ensures FramesOk(g, s', VisitedTrace(t, v, pushed))
  {
    hide Numbered;
    hide Counted;
    hide Stacked;
    hide Idx;
    hide Visited;
    hide Done;
    hide VisitedTrace;
    hide Edge;
    VisitFacts(g, s, s', v);
    VisitFrames(t, v, pushed);
    var t', n := VisitedTrace(t, v, pushed), |t.frames|;
    assert forall k :: 0 <= k < n ==> t.frames[k].node in s.scc;
    assert Visited(s', v);
    forall k, x | 0 <= k <= n && Edge(g, t'.frames[k].node, x) ensures Visited(s', x) || x in t'.frames[k].pending {
      assert k < n ==> Visited(s, x) || x in t.frames[k].pending;
    }
    forall j, k, e | 0 <= j <= k <= n && e in t'.frames[k].pending ensures t'.frames[j].node != e {
      if k < n {
        assert e in t.frames[k].pending && t.frames[j].node != e;
      } else {
        assert !Visited(s', e);
        assert j < n ==> Visited(s, t.frames[j].node);
      }
    }
  }

  lemma FreshEdges(g: Graph, s: Search, v: int)
    requires v in g.active
    ensures forall c :: c in Fresh(g, s, Implied(g, v)) <==> Edge(g, v, c) && !Visited(s, c)
  {
    forall c ensures c in Fresh(g, s, Implied(g, v)) <==> Edge(g, v, c) && !Visited(s, c) {
      FreshMembers(g, s, Implied(g, v), c);
    }
  }

  lemma VisitKeeps(g: Graph, s: Search, t: Trace, v: int)
    requires Inv(g, s, t) && v in g.active && !Visited(s, v) && OnTop(t, v)
    ensures var s' := VisitedState(s, v);
            Inv(g, s', VisitedTrace(t, v, Fresh(g, s', Implied(g, v)))) && s.count < |g.active|
  {
    var s' := VisitedState(s, v);
    var pushed := Fresh(g, s', Implied(g, v));
    FreshEdges(g, s', v);
    VisitingState(s, v);
    CountBound(g, s);
    hide VisitedState;
    hide VisitedTrace;
    hide Numbered;
    hide Counted;
    hide Stacked;
    hide MinReached;
    hide ClosedOk;
    hide DoneClosed;
    hide ParentsOk;
    hide FramesOk;
    hide Visiting;
    hide OnTop;
    hide Visited;
    hide Fresh;
    VisitNumbered(g, s, s', v);
    VisitMinReached(g, s, s', v);
    VisitClosedOk(g, s, s', t, v, pushed);
    VisitParentsOk(g, s, s', t, v, pushed);
    VisitFramesOk(g, s, s', t, v, pushed);
  }

  /* ---- finishing a node that is no entry of a component ---- */

  /** The minimum of `v` over itself and its children. */
  ghost predicate IsNewMin(g: Graph, s: Search, v: int, m: nat) {
    && m <= Min(s, v)
    && (forall x :: Edge(g, v, x) ==> m <= Min(s, x))
    && (m == Min(s, v) || exists x :: Edge(g, v, x) && m == Min(s, x))
  }

  /** `s'` is `s` with a lower minimum for `v`. */
  ghost predicate Lowering(s: Search, s': Search, v: int, m: nat) {
    && s'.scc == s.scc && s'.count == s.count
    && (forall w :: Idx(s', w) == Idx(s, w))
    && (forall w :: w != v ==> Min(s', w) == Min(s, w))
    && Min(s', v) == m
  }

  lemma LoweringState(s: Search, v: int, m: nat)
    ensures Lowering(s, s.(min := s.min[v := m]), v, m)
  {
  }

  /** All children of a node whose children are finished are visited. */
  ghost predicate ChildrenVisited(g: Graph, s: Search, v: int) {
    forall x :: Edge(g, v, x) ==> Visited(s, x)
  }

  lemma NewMinReached(g: Graph, s: Search, v: int, m: nat)
    requires Numbered(g, s) && MinReached(g, s) && v in s.scc && ChildrenVisited(g, s, v) && IsNewMin(g, s, v, m)
    ensures 1 <= m <= Idx(s, v)
    ensures exists y :: y in s.scc && Idx(s, y) == m && Reach(g, v, y)
    ensures forall x :: Edge(g, v, x) && x in s.scc ==> m <= Idx(s, x)
  {
    assert ReachesMin(g, s, v);
    if m != Min(s, v) {
      var x :| Edge(g, v, x) && m == Min(s, x);
      assert Visited(s, v) && Idx(s, v) <= s.count;
      CountBound(g, s);
      assert x in s.scc && ReachesMin(g, s, x);
      var y :| y in s.scc && Idx(s, y) == Min(s, x) && Reach(g, x, y);
      ReachEdge(g, v, x);
      ReachTransitive(g, v, x, y);
    }
  }

  lemma LowerNumbered(g: Graph, s: Search, s': Search, v: int, m: nat)
    requires Numbered(g, s) && v in s.scc && 1 <= m <= Idx(s, v) && Lowering(s, s', v, m)
    ensures Numbered(g, s')
    ensures forall w :: Visited(s', w) <==> Visited(s, w)
    ensures forall w :: Done(s', w) <==> Done(s, w)
  {
    CountBound(g, s);
    assert Visited(s, v) && m < TRAVERSED;
    assert VisitedSet(g, s') == VisitedSet(g, s);
  }

  lemma LowerMinReached(g: Graph, s: Search, s': Search, v: int, m: nat)
    requires MinReached(g, s) && Lowering(s, s', v, m)
    requires exists y :: y in s.scc && Idx(s, y) == m && Reach(g, v, y)
    ensures MinReached(g, s')
  {
    hide Idx;
    hide Min;
    hide Reach;
    forall w | w in s'.scc ensures ReachesMin(g, s', w) {
      if w != v {
        assert ReachesMin(g, s, w);
        var y :| y in s.scc && Idx(s, y) == Min(s, w) && Reach(g, w, y);
        assert y in s'.scc && Idx(s', y) == Min(s', w);
      } else {
        var y :| y in s.scc && Idx(s, y) == m && Reach(g, v, y);
        assert y in s'.scc && Idx(s', y) == Min(s', v);
      }
    }
  }

  function ClosedTrace(t: Trace, m: nat): Trace
    requires |t.frames| > 0
  {
    var n := |t.frames| - 1;
    Trace(t.frames[..n], t.parent, t.low[t.frames[n].node := m])
  }

  lemma PendingOnTop(t: Trace, v: int)
    requires |t.frames| > 0 && t.frames[|t.frames| - 1].pending != []
    ensures t.frames[|t.frames| - 1].pending[|t.frames[|t.frames| - 1].pending| - 1] == v ==> OnTop(t, v)
  {
  }

  lemma ClosedFrames(t: Trace, m: nat)
    requires |t.frames| > 0
    ensures ClosedTrace(t, m).frames == t.frames[..|t.frames| - 1]
  {
  }

  /** The last frame is the youngest open node. */
  lemma ClosedOpen(g: Graph, s: Search, t: Trace, m: nat)
    requires FramesOk(g, s, t) && |t.frames| > 0
    ensures var v := t.frames[|t.frames| - 1].node;
            && Open(t, v)
            && (forall w :: Open(ClosedTrace(t, m), w) <==> Open(t, w) && w != v)
            && (forall w :: Open(t, w) && w != v ==> Idx(s, w) < Idx(s, v))
  {
    var n := |t.frames| - 1;
    var v := t.frames[n].node;
    var t' := ClosedTrace(t, m);
    forall w ensures Open(t', w) <==> Open(t, w) && w != v {
      if Open(t, w) && w != v {
        var k :| 0 <= k < |t.frames| && t.frames[k].node == w;
        assert t'.frames[k].node == w;
      }
      if Open(t', w) {
        var k :| 0 <= k < n && t'.frames[k].node == w;
        assert t.frames[k].node == w;
      }
    }
  }

  lemma CloseClosedOk(g: Graph, s: Search, s': Search, t: Trace, m: nat)
    requires Numbered(g, s) && ClosedOk(g, s, t) && FramesOk(g, s, t) && |t.frames| > 0
    requires var v := t.frames[|t.frames| - 1].node;
             && Lowering(s, s', v, m) && 1 <= m < Idx(s, v) && ChildrenVisited(g, s, v)
             && (forall x :: Edge(g, v, x) && x in s.scc ==> m <= Idx(s, x))
    ensures ClosedOk(g, s', ClosedTrace(t, m))
  {
    var v := t.frames[|t.frames| - 1].node;
    var t' := ClosedTrace(t, m);
    ClosedOpen(g, s, t, m);
    hide Numbered;
    hide FramesOk;
    hide Idx;
    hide Min;
    assert forall w :: w != v ==> Low(t', w) == Low(t, w);
    assert forall w :: Visited(s', w) <==> Visited(s, w);
  }

  lemma CloseParentOk(g: Graph, s: Search, s': Search, t: Trace, t': Trace, v: int, m: nat, w: int)
    requires ClosedOk(g, s, t) && ParentOk(g, s, t, w) && w in s.scc && Lowering(s, s', v, m) && Open(t, v)
    requires forall x :: Edge(g, v, x) ==> m <= Min(s, x)
    requires t'.parent == t.parent && Low(t', v) == m && forall x :: x != v ==> Low(t', x) == Low(t, x)
    requires forall x :: Open(t', x) <==> Open(t, x) && x != v
    requires forall x :: Open(t, x) && x != v ==> Idx(s, x) < Idx(s, v)
    ensures ParentOk(g, s', t', w)
  {
    hide Idx;
    hide Min;
    hide Low;
    hide Open;
    hide Edge;
    var p := Parent(t, w);
    assert Parent(t', w) == p;
    if p == v {
      assert Edge(g, v, w) && m <= Min(s, w);
      assert Idx(s, v) < Idx(s, w);
      assert !Open(t, w);
    }
  }

  lemma CloseParentsOk(g: Graph, s: Search, s': Search, t: Trace, m: nat)
    requires ClosedOk(g, s, t) && ParentsOk(g, s, t) && FramesOk(g, s, t) && |t.frames| > 0
    requires var v := t.frames[|t.frames| - 1].node;
             Lowering(s, s', v, m) && forall x :: Edge(g, v, x) ==> m <= Min(s, x)
    ensures ParentsOk(g, s', ClosedTrace(t, m))
  {
    var v := t.frames[|t.frames| - 1].node;
    var t' := ClosedTrace(t, m);
    ClosedOpen(g, s, t, m);
    assert Low(t', v) == m && forall w :: w != v ==> Low(t', w) == Low(t, w);
    hide FramesOk;
    hide ClosedOk;
    hide Idx;
    hide Min;
    hide Low;
    hide Open;
    forall w | w in s'.scc && w != s'.scc[0] ensures ParentOk(g, s', t', w) {
      assert ParentOk(g, s, t, w);
      CloseParentOk(g, s, s', t, t', v, m, w);
    }
  }

  lemma CloseFramesOk(g: Graph, s: Search, s': Search, t: Trace, m: nat)
    requires Numbered(g, s) && MinReached(g, s) && FramesOk(g, s, t) && |t.frames| > 0
    requires var v := t.frames[|t.frames| - 1].node;
             && Lowering(s, s', v, m) && m < Idx(s, v)
             && (exists y :: y in s.scc && Idx(s, y) == m)
    ensures FramesOk(g, s', ClosedTrace(t, m))
  {
    var n := |t.frames| - 1;
    var y :| y in s.scc && Idx(s, y) == m;
    var i :| 0 <= i < |s.scc| && s.scc[i] == y;
    assert n > 0 by {
      assert i > 0 ==> Idx(s, s.scc[0]) < Idx(s, s.scc[i]);
    }
    hide Numbered;
    assert forall w :: Visited(s', w) <==> Visited(s, w);
  }

  lemma CloseKeeps(g: Graph, s: Search, t: Trace, m: nat)
    requires Inv(g, s, t) && |t.frames| > 0 && t.frames[|t.frames| - 1].pending == []
    requires var v := t.frames[|t.frames| - 1].node; IsNewMin(g, s, v, m) && m != Idx(s, v)
    ensures var v := t.frames[|t.frames| - 1].node;
            && Inv(g, s.(min := s.min[v := m]), ClosedTrace(t, m))
            && (forall w :: Done(s.(min := s.min[v := m]), w) <==> Done(s, w))
  {
    var v := t.frames[|t.frames| - 1].node;
    var s' := s.(min := s.min[v := m]);
    LoweringState(s, v, m);
    assert v in s.scc && ChildrenVisited(g, s, v);
    NewMinReached(g, s, v, m);
    LowerNumbered(g, s, s', v, m);
    LowerMinReached(g, s, s', v, m);
    CloseClosedOk(g, s, s', t, m);
    CloseParentsOk(g, s, s', t, m);
    CloseFramesOk(g, s, s', t, m);
    LowerDoneClosed(g, s, s');
  }

  lemma LowerDoneClosed(g: Graph, s: Search, s': Search)
    requires DoneClosed(g, s) && forall w :: Done(s', w) <==> Done(s, w)
    ensures DoneClosed(g, s')
  {
  }

  /* ---- a pushed node that is finished or traversed already ---- */

  lemma TopRemoved(t: Trace)
    requires |t.frames| > 0 && |t.frames[|t.frames| - 1].pending| > 0
    ensures var t' := t.(frames := WithoutTop(t.frames));
            && |t'.frames| == |t.frames|
            && (forall w :: Open(t', w) <==> Open(t, w))
            && (forall k :: 0 <= k < |t.frames| ==> t'.frames[k].node == t.frames[k].node)
            && (forall k, e :: 0 <= k < |t.frames| && e in t'.frames[k].pending ==> e in t.frames[k].pending)
            && (forall k, e :: 0 <= k < |t.frames| && e in t.frames[k].pending ==>
                                 e in t'.frames[k].pending || e == t.frames[|t.frames| - 1].pending[|t.frames[|t.frames| - 1].pending| - 1])
  {
    var n := |t.frames| - 1;
    var p := t.frames[n].pending;
    assert p == p[..|p| - 1] + [p[|p| - 1]];
    var t' := t.(frames := WithoutTop(t.frames));
    assert forall k :: 0 <= k < |t.frames| ==> t'.frames[k].node == t.frames[k].node;
  }

  lemma PopRest(g: Graph, s: Search, t: Trace, t': Trace)
    requires ClosedOk(g, s, t) && ParentsOk(g, s, t)
    requires t'.parent == t.parent && t'.low == t.low && forall w :: Open(t', w) <==> Open(t, w)
    ensures ClosedOk(g, s, t') && ParentsOk(g, s, t')
  {
    hide Open;
    hide Idx;
    hide Min;
    assert forall w :: Low(t', w) == Low(t, w) && Parent(t', w) == Parent(t, w);
    hide Low;
    hide Parent;
    forall w | w in s.scc && w != s.scc[0] ensures ParentOk(g, s, t', w) {
      assert ParentOk(g, s, t, w);
    }
  }

  lemma PopFramesOk(g: Graph, s: Search, t: Trace, v: int)
    requires FramesOk(g, s, t) && |t.frames| > 0 && OnTop(t, v) && Visited(s, v)
    ensures FramesOk(g, s, t.(frames := WithoutTop(t.frames)))
  {
    var t' := t.(frames := WithoutTop(t.frames));
    TopRemoved(t);
    hide WithoutTop;
    hide Idx;
    hide Visited;
    hide Edge;
    forall k, x | 0 <= k < |t'.frames| && Edge(g, t'.frames[k].node, x)
      ensures Visited(s, x) || x in t'.frames[k].pending
    {
      assert Visited(s, x) || x in t.frames[k].pending;
    }
  }

  lemma PopKeeps(g: Graph, s: Search, t: Trace, v: int)
    requires Inv(g, s, t) && |t.frames| > 0 && OnTop(t, v) && Visited(s, v)
    ensures Inv(g, s, t.(frames := WithoutTop(t.frames)))
  {
    TopRemoved(t);
    PopFramesOk(g, s, t, v);
    PopRest(g, s, t, t.(frames := WithoutTop(t.frames)));
  }

  /** A node on top of the work stack as a pushed child is not open. */
  lemma TopNotOpen(g: Graph, s: Search, t: Trace, v: int)
    requires FramesOk(g, s, t) && |t.frames| > 0 && OnTop(t, v)
    ensures !Open(t, v)
  {
    var n := |t.frames| - 1;
    assert v in t.frames[n].pending;
  }

  lemma RecloseKeeps(g: Graph, s: Search, t: Trace, v: int, m: nat)
    requires Inv(g, s, t) && |t.frames| > 0 && OnTop(t, v) && v in s.scc && IsNewMin(g, s, v, m)
    ensures Inv(g, s.(min := s.min[v := m]), t.(frames := WithoutTop(t.frames)))
    ensures m != Idx(s, v) && forall w :: Done(s.(min := s.min[v := m]), w) <==> Done(s, w)
  {
    var s' := s.(min := s.min[v := m]);
    TopNotOpen(g, s, t, v);
    LoweringState(s, v, m);
    NewMinReached(g, s, v, m);
    LowerNumbered(g, s, s', v, m);
    LowerMinReached(g, s, s', v, m);
    LowerDoneClosed(g, s, s');
    RecloseRest(g, s, s', t, v, m);
    assert Visited(s', v);
    PopKeeps(g, s', t, v);
  }

  lemma RecloseRest(g: Graph, s: Search, s': Search, t: Trace, v: int, m: nat)
    requires ClosedOk(g, s, t) && ParentsOk(g, s, t) && FramesOk(g, s, t)
    requires Lowering(s, s', v, m) && m <= Min(s, v) && v in s.scc && !Open(t, v)
    ensures ClosedOk(g, s', t) && ParentsOk(g, s', t) && FramesOk(g, s', t)
  {
    hide Idx;
    hide Min;
    assert forall w :: Visited(s', w) <==> Visited(s, w);
    forall w | w in s'.scc && w != s'.scc[0] ensures ParentOk(g, s', t, w) {
      assert ParentOk(g, s, t, w);
    }
  }

  /** The top frame has nothing pending and is closed. */
  lemma LowerFinished(g: Graph, s: Search, t: Trace, v: int, m: nat) returns (t': Trace)
    requires Inv(g, s, t) && |t.frames| > 0 && |Flat(t.frames)| > 0
    requires t.frames[|t.frames| - 1].pending == [] && t.frames[|t.frames| - 1].node == v
    requires IsNewMin(g, s, v, m) && m != Idx(s, v)
    requires Flat(t.frames[..|t.frames| - 1]) == Flat(t.frames)[..|Flat(t.frames)| - 1]
    ensures Inv(g, s.(min := s.min[v := m]), t') && forall w :: Done(s.(min := s.min[v := m]), w) <==> Done(s, w)
    ensures Flat(t'.frames) == Flat(t.frames)[..|Flat(t.frames)| - 1]
  {
    hide *;
    CloseKeeps(g, s, t, m);
    t' := ClosedTrace(t, m);
    ClosedFrames(t, m);
  }

  /** A pending child is visited again after its search. */
  lemma LowerPending(g: Graph, s: Search, t: Trace, v: int, m: nat) returns (t': Trace)
    requires Inv(g, s, t) && |t.frames| > 0 && |Flat(t.frames)| > 0
    requires var pending := t.frames[|t.frames| - 1].pending; pending != [] && pending[|pending| - 1] == v
    requires v in s.scc && IsNewMin(g, s, v, m)
    ensures Inv(g, s.(min := s.min[v := m]), t') && forall w :: Done(s.(min := s.min[v := m]), w) <==> Done(s, w)
    ensures Flat(t'.frames) == Flat(t.frames)[..|Flat(t.frames)| - 1] && m != Idx(s, v)
  {
    hide *;
    FlatWithoutTop(t.frames);
    PendingOnTop(t, v);
    RecloseKeeps(g, s, t, v, m);
    t' := t.(frames := WithoutTop(t.frames));
  }

  /** A visited node on top of the work stack that is no entry is popped. */
  lemma LowerStep(g: Graph, s: Search, t: Trace, v: int, m: nat) returns (t': Trace)
    requires Inv(g, s, t) && |Flat(t.frames)| > 0 && Flat(t.frames)[|Flat(t.frames)| - 1] == v
    requires v in s.scc && Visited(s, v) && IsNewMin(g, s, v, m)
    requires |t.frames| > 0 && t.frames[|t.frames| - 1].pending == [] ==> m != Idx(s, v)
    ensures var s' := s.(min := s.min[v := m]);
            Inv(g, s', t') && forall w :: Done(s', w) <==> Done(s, w)
    ensures Flat(t'.frames) == Flat(t.frames)[..|Flat(t.frames)| - 1] && m != Idx(s, v)
  {
    hide *;
    FlatTop(t.frames);
    if t.frames[|t.frames| - 1].pending == [] {
      t' := LowerFinished(g, s, t, v, m);
    } else {
      t' := LowerPending(g, s, t, v, m);
    }
  }
}
