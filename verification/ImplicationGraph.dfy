/** The binary implication graph over active literals and reachability in it. */
module ImplicationGraph {

  /** `implied[l]` lists the blocking literals of the binary watches of `-l`. */
  datatype Graph = Graph(implied: map<int, seq<int>>, active: set<int>)

  function Implied(g: Graph, l: int): seq<int> {
    if l in g.implied then g.implied[l] else []
  }

  predicate Edge(g: Graph, a: int, b: int) {
    a in g.active && b in g.active && b in Implied(g, a)
  }

  /** Active literals come in pairs, and so do implications. */
  ghost predicate SkewSymmetric(g: Graph) {
    && (forall l :: l in g.active ==> l != 0 && -l in g.active)
    && (forall a, b :: Edge(g, a, b) ==> Edge(g, -b, -a))
  }

  ghost predicate Path(g: Graph, p: seq<int>) {
    && |p| > 0
    && (forall i :: 0 <= i < |p| ==> p[i] in g.active)
    && (forall i :: 0 <= i < |p| - 1 ==> Edge(g, p[i], p[i + 1]))
  }

  ghost predicate PathFrom(g: Graph, p: seq<int>, a: int, b: int) {
    Path(g, p) && p[0] == a && p[|p| - 1] == b
  }

  ghost predicate Reach(g: Graph, a: int, b: int) {
    exists p :: PathFrom(g, p, a, b)
  }

  /** Both literals are in one strongly connected component. */
  ghost predicate Mutual(g: Graph, a: int, b: int) {
    Reach(g, a, b) && Reach(g, b, a)
  }

  lemma ReachSelf(g: Graph, a: int)
    requires a in g.active
    ensures Reach(g, a, a)
  {
    assert PathFrom(g, [a], a, a);
  }

  lemma ReachActive(g: Graph, a: int, b: int)
    requires Reach(g, a, b)
    ensures a in g.active && b in g.active
  {
  }

  lemma ReachEdge(g: Graph, a: int, b: int)
    requires Edge(g, a, b)
    ensures Reach(g, a, b)
  {
    assert PathFrom(g, [a, b], a, b);
  }

  lemma ReachTransitive(g: Graph, a: int, b: int, c: int)
    requires Reach(g, a, b) && Reach(g, b, c)
    ensures Reach(g, a, c)
  {
    var p :| PathFrom(g, p, a, b);
    var q :| PathFrom(g, q, b, c);
    var r := p + q[1..];
    forall i | 0 <= i < |r| - 1 ensures Edge(g, r[i], r[i + 1]) {
      if i >= |p| - 1 {
        assert Edge(g, q[i - |p| + 1], q[i - |p| + 2]);
      }
    }
    assert PathFrom(g, r, a, c);
  }

  lemma {:induction false} ReversedPath(g: Graph, p: seq<int>)
    requires SkewSymmetric(g) && Path(g, p)
    ensures Reach(g, -p[|p| - 1], -p[0])
    decreases |p|
  {
    if |p| == 1 {
      ReachSelf(g, -p[0]);
    } else {
      var q := p[1..];
      ReversedPath(g, q);
      assert Edge(g, p[0], p[1]);
      ReachEdge(g, -p[1], -p[0]);
      ReachTransitive(g, -p[|p| - 1], -p[1], -p[0]);
    }
  }

  lemma ReachSkew(g: Graph, a: int, b: int)
    requires SkewSymmetric(g) && Reach(g, a, b)
    ensures Reach(g, -b, -a)
  {
    var p :| PathFrom(g, p, a, b);
    ReversedPath(g, p);
  }

  lemma MutualTransitive(g: Graph, a: int, b: int, c: int)
    requires Mutual(g, a, b) && Mutual(g, b, c)
    ensures Mutual(g, a, c)
  {
    ReachTransitive(g, a, b, c);
    ReachTransitive(g, c, b, a);
  }

  lemma MutualSkew(g: Graph, a: int, b: int)
    requires SkewSymmetric(g) && Mutual(g, a, b)
    ensures Mutual(g, -a, -b)
  {
    ReachSkew(g, a, b);
    ReachSkew(g, b, a);
  }

  /** A set closed under implications cannot be left. */
  lemma {:induction false} ClosedPath(g: Graph, s: set<int>, p: seq<int>)
    requires forall a, b :: a in s && Edge(g, a, b) ==> b in s
    requires Path(g, p) && p[0] in s
    ensures p[|p| - 1] in s
    decreases |p|
  {
    if |p| > 1 {
      assert Edge(g, p[0], p[1]);
      ClosedPath(g, s, p[1..]);
    }
  }

  lemma ClosedReach(g: Graph, s: set<int>, a: int, b: int)
    requires forall x, y :: x in s && Edge(g, x, y) ==> y in s
    requires a in s && Reach(g, a, b)
    ensures b in s
  {
    var p :| PathFrom(g, p, a, b);
    ClosedPath(g, s, p);
  }
}
