/** Counting facts about finite sets and repetition-free sequences. */
module Finite {
  import opened Logic

  function Elements<T>(s: seq<T>): set<T> {
    set x | x in s
  }

  lemma {:induction false} DistinctCount<T>(s: seq<T>)
    requires NoDup(s)
    ensures |Elements(s)| == |s|
  {
    if s == [] {
      assert Elements(s) == {};
    } else {
      var t, last := s[..|s| - 1], s[|s| - 1];
      DistinctCount(t);
      assert last !in t;
      assert Elements(s) == Elements(t) + {last};
    }
  }

  lemma {:induction false} CardinalityMonotone<T>(a: set<T>, b: set<T>)
    requires a <= b
    ensures |a| <= |b|
    decreases |a|
  {
    if |a| > 0 {
      var x :| x in a;
      CardinalityMonotone(a - {x}, b - {x});
    }
  }

  /** The literals over the variables below `n`. */
  ghost function Literals(n: nat): set<int> {
    if n == 0 then {} else Literals(n - 1) + {n - 1, 1 - n}
  }

  lemma {:induction false} LiteralsCount(n: nat)
    ensures |Literals(n)| <= 2 * n
  {
    if n > 0 {
      LiteralsCount(n - 1);
      assert Literals(n) == Literals(n - 1) + {n - 1} + {1 - n};
    }
  }

  lemma {:induction false} LiteralsMembers(n: nat, l: int)
    ensures l in Literals(n) <==> 0 - n < l < n
  {
    if n > 0 {
      LiteralsMembers(n - 1, l);
    }
  }

  /** A repetition-free sequence of literals cannot outgrow its variables. */
  lemma DistinctLiterals(s: seq<int>, n: nat)
    requires NoDup(s)
    requires forall l :: l in s ==> 0 - n < l < n
    ensures |s| <= 2 * n
  {
    LiteralsCount(n);
    forall l | l in s ensures l in Literals(n) { LiteralsMembers(n, l); }
    DistinctCount(s);
    CardinalityMonotone(Elements(s), Literals(n));
  }

  /** A repetition-free sequence within a sequence that is no longer covers it. */
  lemma SubsetFull(a: seq<int>, b: seq<int>)
    requires NoDup(a) && NoDup(b) && |b| <= |a|
    requires forall l :: l in a ==> l in b
    ensures forall l :: l in b ==> l in a
  {
    DistinctCount(a);
    DistinctCount(b);
    forall l | l in b ensures l in a {
      if l !in a {
        CardinalityMonotone(Elements(a), Elements(b) - {l});
      }
    }
  }

  /** A repetition-free sequence within another one is not longer. */
  lemma NotLonger(a: seq<int>, b: seq<int>)
    requires NoDup(a) && forall x :: x in a ==> x in b
    ensures |a| <= |b|
  {
    DistinctCount(a);
    ElementsBound(b);
    assert Elements(a) <= Elements(b);
    CardinalityMonotone(Elements(a), Elements(b));
  }

  lemma {:induction false} ElementsBound(s: seq<int>)
    ensures |Elements(s)| <= |s|
  {
    if s != [] {
      var n := |s| - 1;
      ElementsBound(s[..n]);
      assert s == s[..n] + [s[n]];
      assert Elements(s) == Elements(s[..n]) + {s[n]};
    }
  }
}
