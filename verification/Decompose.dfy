/** The iterative depth-first search of `decompose_round`, which finds the
    strongly connected components of the binary implication graph. */
module Decompose {
  import opened ImplicationGraph
  import opened Tarjan
  import opened Components

  class Decomposer {
    const graph: Graph
    const frozen: set<int>
    const vars: seq<int>
    var idx: map<int, nat>
    var min: map<int, nat>
    var reprs: map<int, int>
    var count: nat
    var work: seq<int>
    var scc: seq<int>
    var unsat: bool
    ghost var trace: Trace

    ghost predicate Wellformed() {
      && SkewSymmetric(graph) && |graph.active| < TRAVERSED
      && (forall l :: l in graph.active ==> Abs(l) in vars)
      && (forall v :: v in vars ==> v > 0)
    }

    constructor (g: Graph, vs: seq<int>, f: set<int>)
      requires SkewSymmetric(g) && |g.active| < TRAVERSED
      requires forall l :: l in g.active ==> Abs(l) in vs
      requires forall v :: v in vs ==> v > 0
      ensures Wellformed() && graph == g && vars == vs && frozen == f
      ensures Valid() && work == [] && !unsat && trace.frames == []
      ensures Represented(graph, State(), frozen, reprs)
    {
      graph, vars, frozen := g, vs, f;
      idx, min, reprs := map[], map[], map[];
      count, work, scc, unsat := 0, [], [], false;
      trace := Trace([], map[], map[]);
    }

    ghost function State(): Search
      reads this
    {
      Search(idx, min, scc, count)
    }

    ghost predicate Valid()
      reads this
    {
      Inv(graph, State(), trace)
    }

    /** The smallest minimum over `parent` and its active children. */
    method NewMinimum(parent: int) returns (m: nat)
      requires parent in graph.active
      ensures IsNewMin(graph, State(), parent, m)
    {
      m := Get(min, parent);
      var children := Implied(graph, parent);
      for i := 0 to |children|
        invariant m <= Get(min, parent)
        invariant forall k :: 0 <= k < i && children[k] in graph.active ==> m <= Get(min, children[k])
        invariant m == Get(min, parent)
          || exists k :: 0 <= k < i && children[k] in graph.active && m == Get(min, children[k])
      {
        var child := children[i];
        if child in graph.active && m > Get(min, child) {
          m := Get(min, child);
        }
      }
      if m != Get(min, parent) {
        var k :| 0 <= k < |children| && children[k] in graph.active && m == Get(min, children[k]);
        assert Edge(graph, parent, children[k]) && m == Min(State(), children[k]);
      }
    }

    /** Pushes the unvisited active children of `parent`. */
    method PushChildren(parent: int)
      modifies `work
      ensures work == old(work) + Fresh(graph, State(), Implied(graph, parent))
    {
      var children := Implied(graph, parent);
      for i := 0 to |children|
        invariant work == old(work) + Fresh(graph, State(), children[..i])
      {
        var child := children[i];
        assert children[..i + 1][..i] == children[..i];
        if child in graph.active && Get(idx, child) == 0 {
          work := work + [child];
        }
      }
      assert children[..|children|] == children;
    }

    /** Numbers `parent` and pushes its unvisited children. */
    method Prefix(parent: int)
      requires Valid() && StackOk(graph, State(), trace, work) && |work| > 0 && work[|work| - 1] == parent
      requires parent in graph.active && !Visited(State(), parent) && OnTop(trace, parent)
      requires trace.frames == [] ==> work == [parent]
      modifies `idx, `min, `count, `work, `scc, `trace
      ensures State() == VisitedState(old(State()), parent)
      ensures work == old(work) + Fresh(graph, State(), Implied(graph, parent))
      ensures Valid() && work == Flat(trace.frames) && trace.frames != [] && count == old(count) + 1 <= |graph.active|
      ensures forall v :: Visited(State(), v) <==> Visited(old(State()), v) || v == parent
      ensures forall v :: Done(State(), v) <==> Done(old(State()), v)
    {
      hide Inv;
      hide Visited;
      hide Fresh;
      VisitKeeps(graph, State(), trace, parent);
      VisitedMarks(graph, State(), trace, parent);
      ghost var s' := VisitedState(State(), parent);
      ghost var pushed := Fresh(graph, s', Implied(graph, parent));
      VisitedWork(trace, parent, pushed);
      hide VisitedTrace;
      trace := VisitedTrace(trace, parent, pushed);
      count := count + 1;
      idx, min := idx[parent := count], min[parent := count];
      scc := scc + [parent];
      assert State() == s';
      PushChildren(parent);
    }

    /** Scans the component from the top of the stack down to `parent`. */
    method FindRepresentative(parent: int, ghost p: nat) returns (clash: bool, repr: int)
      requires p < |scc| && scc[p] == parent && parent != 0
      requires forall k :: p < k < |scc| ==> scc[k] != parent
      ensures clash <==> -parent in scc[p..]
      ensures !clash ==> repr in scc[p..] && forall w :: w in scc[p..] ==> Abs(repr) <= Abs(w)
    {
      var stack := scc;
      clash, repr := false, parent;
      var j := |stack|;
      var other := 0;
      while other != parent
        invariant p <= j <= |stack| && (other == parent <==> j == p)
        invariant repr == parent || exists k :: j <= k < |stack| && stack[k] == repr
        invariant forall k :: j <= k < |stack| ==> stack[k] != -parent && Abs(repr) <= Abs(stack[k])
        decreases j
      {
        j := j - 1;
        other := stack[j];
        if other == -parent {
          assert stack[p..][j - p] == other;
          clash := true;
          return;
        }
        if Abs(other) < Abs(repr) {
          repr := other;
        }
      }
      assert exists k :: p <= k < |stack| && stack[k] == repr;
      assert forall w :: w in stack[p..] ==> exists k :: p <= k < |stack| && stack[k] == w;
    }

    /** Pops the component of `parent` and sets representatives. */
    method PopComponent(parent: int, repr: int, ghost p: nat)
      requires Stacked(State()) && p < |scc| && scc[p] == parent && parent != 0
      requires unsat == false
      modifies `scc, `min, `reprs
      ensures Removing(old(State()), State(), parent)
      ensures Popped(old(scc)[p..], repr, frozen, old(reprs), reprs)
    {
      hide Stacked;
      hide Removing;
      ghost var stack := scc;
      assert stack[|stack|..] == [];
      assert Popped([], repr, frozen, reprs, reprs);
      hide Popped;
      var other := 0;
      while other != parent
        invariant p <= |scc| <= |stack| && scc == stack[..|scc|]
        invariant |scc| == p <==> other == parent
        invariant forall w :: w in stack[|scc|..] ==> Get(min, w) == TRAVERSED
        invariant forall w :: w !in stack[|scc|..] ==> Get(min, w) == Get(old(min), w)
        invariant Popped(stack[|scc|..], repr, frozen, old(reprs), reprs)
        decreases |scc|
      {
        var last := |scc| - 1;
        other := scc[last];
        assert stack[last..] == [other] + stack[last + 1..];
        if last != p {
          PositionsDiffer(old(State()), p, last);
        }
        PoppedMore(stack[last + 1..], other, repr, frozen, old(reprs), reprs);
        scc := scc[..last];
        min := min[other := TRAVERSED];
        reprs := reprs[other := if Abs(other) in frozen then other else repr];
      }
      RemovedSuffix(old(State()), State(), parent, p);
    }

    /** `parent` is the entry of its component. */
    method FinishComponent(parent: int)
      requires Wellformed() && Valid() && Entry(graph, State(), trace, parent) && !unsat
      requires Represented(graph, State(), frozen, reprs)
      modifies `min, `reprs, `scc, `unsat, `trace
      ensures unsat ==> Clash(graph, parent)
      ensures !unsat ==> Valid() && Represented(graph, State(), frozen, reprs)
      ensures !unsat ==> trace.frames == old(trace.frames)[..|old(trace.frames)| - 1]
    {
      hide IsNewMin;
      hide Represented;
      hide Removing;
      hide SkewSymmetric;
      hide Stacked;
      ghost var p := EntryPosition(graph, State(), trace, parent);
      hide Inv;
      hide Entry;
      var clash, repr := FindRepresentative(parent, p);
      ghost var before := State();
      if clash {
        EntryClash(graph, before, trace, parent, p);
        unsat := true;
      } else {
        hide Abs;
        hide Popped;
        PopComponent(parent, repr, p);
        EntryRemoved(graph, before, State(), trace, parent, p, frozen, old(reprs), reprs, repr);
        trace := trace.(frames := trace.frames[..|trace.frames| - 1]);
      }
    }

    /** `parent` waits on the component stack, with a smaller minimum. */
    method LowerMinimum(parent: int, m: nat)
      requires Valid() && work == Flat(trace.frames) && |work| > 0 && work[|work| - 1] == parent
      requires parent in scc && Visited(State(), parent) && IsNewMin(graph, State(), parent, m)
      requires |trace.frames| > 0 && trace.frames[|trace.frames| - 1].pending == [] ==> m != Get(idx, parent)
      modifies `min, `work, `trace
      ensures Valid() && work == Flat(trace.frames) && work == old(work)[..|old(work)| - 1]
      ensures m != Get(idx, parent)
      ensures scc == old(scc) && forall v :: Done(State(), v) <==> Done(old(State()), v)
    {
      hide Inv;
      hide Flat;
      hide Done;
      hide IsNewMin;
      hide Visited;
      ghost var t := LowerStep(graph, State(), trace, parent, m);
      ghost var s := State();
      trace := t;
      work := work[..|work| - 1];
      min := min[parent := m];
      assert State() == s.(min := s.min[parent := m]);
    }

    /** Children of `parent` are finished: it closes a component or waits. */
    method Postfix(parent: int)
      requires Wellformed() && Valid() && work == Flat(trace.frames) && |work| > 0 && work[|work| - 1] == parent
      requires Visited(State(), parent) && !Done(State(), parent) && !unsat
      requires Represented(graph, State(), frozen, reprs)
      modifies `min, `reprs, `work, `scc, `unsat, `trace
      ensures unsat ==> Inconsistent(graph)
      ensures !unsat ==> Valid() && work == Flat(trace.frames) && Represented(graph, State(), frozen, reprs)
      ensures |work| < |old(work)|
      ensures forall v :: Visited(old(State()), v) ==> Visited(State(), v)
    {
      hide Represented;
      hide SkewSymmetric;
      hide IsNewMin;
      hide Flat;
      StackedNode(graph, State(), trace, parent);
      hide Inv;
      hide Done;
      hide Entry;
      hide Clash;
      var m := NewMinimum(parent);
      ghost var s := State();
      EntryOnTop(graph, s, trace, parent, m);
      if m == Get(idx, parent) {
        work := work[..|work| - 1];
        FinishComponent(parent);
      } else {
        LowerMinimum(parent, m);
        RepresentedSame(graph, s, State(), frozen, reprs);
      }
    }

    /** The state between two iterations of the search loop. */
    ghost predicate Running()
      reads this
    {
      Valid() && work == Flat(trace.frames) && Represented(graph, State(), frozen, reprs)
    }

    /** Numbers a node that is seen for the first time. */
    method FirstVisit(parent: int)
      requires Valid() && StackOk(graph, State(), trace, work) && |work| > 0 && work[|work| - 1] == parent
      requires Represented(graph, State(), frozen, reprs)
      requires parent in graph.active && !Visited(State(), parent) && OnTop(trace, parent)
      requires trace.frames == [] ==> work == [parent]
      modifies `idx, `min, `count, `work, `scc, `trace
      ensures Running() && count == old(count) + 1 <= |graph.active|
      ensures Grown(old(State()), State(), parent)
    {
      ghost var s := State();
      hide Inv;
      hide Represented;
      hide Flat;
      hide Visited;
      hide Done;
      hide OnTop;
      Prefix(parent);
      RepresentedSame(graph, s, State(), frozen, reprs);
    }

    /** Drops a child that was traversed since it was pushed. */
    method SkipTraversed(parent: int)
      requires Running() && |work| > 0 && work[|work| - 1] == parent && Done(State(), parent)
      modifies `work, `trace
      ensures Running() && |work| < |old(work)|
    {
      hide Inv;
      hide Represented;
      hide Flat;
      DonePending(graph, State(), trace, parent);
      PopTraversed(graph, State(), trace, parent);
      work := work[..|work| - 1];
      trace := trace.(frames := WithoutTop(trace.frames));
    }

    /** A node that was visited before is popped. */
    method Revisit(parent: int)
      requires Wellformed() && Running() && !unsat && |work| > 0 && work[|work| - 1] == parent
      requires Visited(State(), parent)
      modifies `min, `reprs, `work, `scc, `unsat, `trace
      ensures unsat ==> Inconsistent(graph)
      ensures !unsat ==> Running()
      ensures |work| < |old(work)| && Grown(old(State()), State(), parent)
    {
      hide Inv;
      hide Represented;
      hide SkewSymmetric;
      hide Flat;
      hide Inconsistent;
      if Get(min, parent) == TRAVERSED {
        SkipTraversed(parent);
      } else {
        Postfix(parent);
      }
    }

    /** The test of the loop for a literal on top of the work stack. */
    lemma TopCases(parent: int)
      requires Valid() && StackOk(graph, State(), trace, work) && |work| > 0 && work[|work| - 1] == parent
      requires Represented(graph, State(), frozen, reprs)
      ensures parent in graph.active
      ensures Get(min, parent) != TRAVERSED && Get(idx, parent) == 0 ==>
                !Visited(State(), parent) && OnTop(trace, parent) && (trace.frames == [] ==> work == [parent])
      ensures !(Get(min, parent) != TRAVERSED && Get(idx, parent) == 0) ==> Visited(State(), parent) && Running()
    {
      hide Inv, Represented, Flat, OnTop, StackOk;
      TopNode(graph, State(), trace, work);
    }

    /** One iteration of the search loop. */
    method Step()
      requires Wellformed() && Valid() && StackOk(graph, State(), trace, work) && |work| > 0 && !unsat
      requires Represented(graph, State(), frozen, reprs)
      modifies `idx, `min, `count, `reprs, `work, `scc, `unsat, `trace
      ensures unsat ==> Inconsistent(graph)
      ensures !unsat ==> Running()
      ensures old(count) < count <= |graph.active| || (count == old(count) && |work| < |old(work)|)
      ensures Grown(old(State()), State(), old(work)[|old(work)| - 1])
    {
      hide *;
      var parent := work[|work| - 1];
      TopCases(parent);
      if Get(min, parent) != TRAVERSED && Get(idx, parent) == 0 {
        FirstVisit(parent);
      } else {
        Revisit(parent);
      }
    }

    /** One depth-first search from `root`. */
    method SearchFrom(root: int)
      requires Wellformed() && Valid() && work == [] && trace.frames == [] && !unsat
      requires root in graph.active && !Done(State(), root)
      requires Represented(graph, State(), frozen, reprs)
      modifies `idx, `min, `count, `reprs, `work, `scc, `unsat, `trace
      ensures unsat ==> Inconsistent(graph)
      ensures !unsat ==> Valid() && work == [] && trace.frames == [] && Represented(graph, State(), frozen, reprs)
      ensures Grown(old(State()), State(), root)
    {
      if Visited(State(), root) {
        SearchOver(graph, State(), trace, root);
        assert false;
      }
      work := [root];
      hide Inv;
      hide Represented;
      hide Visited;
      hide SkewSymmetric;
      Step();
      while !unsat && work != []
        invariant unsat ==> Inconsistent(graph)
        invariant !unsat ==> Running()
        invariant Grown(old(State()), State(), root)
        decreases |graph.active| - count, |work|
      {
        Step();
      }
    }

    /** All searches: finds a literal equivalent to its negation, or a
        representative for every active literal. */
    method FindComponents()
      requires Wellformed() && Valid() && work == [] && trace.frames == [] && !unsat
      requires Represented(graph, State(), frozen, reprs)
      modifies `idx, `min, `count, `reprs, `work, `scc, `unsat, `trace
      ensures unsat <==> Inconsistent(graph)
      ensures !unsat ==> Resolved(graph, frozen, reprs) && Agreeing(graph, frozen, reprs)
    {
      hide Inv;
      hide Represented;
      hide Visited;
      hide Done;
      var i := 0;
      while !unsat && i < |vars|
        invariant 0 <= i <= |vars|
        invariant unsat ==> Inconsistent(graph)
        invariant !unsat ==> Valid() && work == [] && trace.frames == [] && Represented(graph, State(), frozen, reprs)
        invariant !unsat ==> forall l :: l in graph.active && Abs(l) in vars[..i] ==> Visited(State(), l)
      {
        if vars[i] in graph.active {
          SearchUnlessDone(-vars[i]);
          if !unsat {
            SearchUnlessDone(vars[i]);
          }
        }
        assert vars[..i + 1] == vars[..i] + [vars[i]];
        i := i + 1;
      }
      if !unsat {
        assert vars[..i] == vars;
        AllResolved(graph, State(), trace, frozen, reprs);
        ResolvedAgrees(graph, frozen, reprs);
      }
    }

    method SearchUnlessDone(root: int)
      requires Wellformed() && Valid() && work == [] && trace.frames == [] && !unsat
      requires root in graph.active && Represented(graph, State(), frozen, reprs)
      modifies `idx, `min, `count, `reprs, `work, `scc, `unsat, `trace
      ensures unsat ==> Inconsistent(graph)
      ensures !unsat ==> Valid() && work == [] && trace.frames == [] && Represented(graph, State(), frozen, reprs)
      ensures Grown(old(State()), State(), root)
    {
      DoneVisited(graph, State(), trace, root);
      hide Inv;
      hide Represented;
      if Get(min, root) != TRAVERSED {
        SearchFrom(root);
      }
    }
  }
}
