/** Searching a sequence while shifting it one position back, so that the
    element found can be put first, or the old order restored. */
module MoveToFront {

  /** Element `k` moved to the front. */
  function Fronted(s: seq<int>, k: nat): (r: seq<int>)
    requires k < |s|
    ensures |r| == |s|
  {
    [s[k]] + s[..k] + s[k + 1..]
  }

  lemma FrontedMultiset(s: seq<int>, k: nat)
    requires k < |s|
    ensures multiset(Fronted(s, k)) == multiset(s)
    ensures forall x :: x in Fronted(s, k) <==> x in s
  {
    assert s == s[..k] + [s[k]] + s[k + 1..];
    assert multiset(s) == multiset(s[..k]) + multiset{s[k]} + multiset(s[k + 1..]);
    assert multiset(Fronted(s, k)) == multiset{s[k]} + multiset(s[..k]) + multiset(s[k + 1..]);
    forall x ensures x in Fronted(s, k) <==> x in s {
      assert x in s <==> x in multiset(s);
      assert x in Fronted(s, k) <==> x in multiset(Fronted(s, k));
    }
  }

  /** After shifting the first `p` elements back by one. */
  ghost predicate Shifted(s: seq<int>, a: seq<int>, p: nat, prev: int) {
    && |a| == |s| && p <= |s|
    && (p == 0 ==> prev == 0 && a == s)
    && (p > 0 ==> prev == s[p - 1] && a[0] == 0)
    && (forall q :: 1 <= q < p ==> a[q] == s[q - 1])
    && (forall q :: p <= q < |s| ==> a[q] == s[q])
  }

  lemma ShiftedFront(s: seq<int>, a: seq<int>, p: nat, prev: int)
    requires Shifted(s, a, p, prev) && p < |s|
    ensures a[p := prev][0 := s[p]] == Fronted(s, p)
  {
    var r := a[p := prev][0 := s[p]];
    forall q | 0 <= q < |s| ensures r[q] == Fronted(s, p)[q] {
    }
  }

  lemma ShiftedNext(s: seq<int>, a: seq<int>, p: nat, prev: int)
    requires Shifted(s, a, p, prev) && p < |s|
    ensures Shifted(s, a[p := prev], p + 1, s[p])
  {
  }

  /** Undoes the shift of the whole sequence. */
  method Restore(ghost s: seq<int>, a: seq<int>, prev: int) returns (r: seq<int>)
    requires Shifted(s, a, |s|, prev)
    ensures r == s
  {
    r := a;
    var last := prev;
    var l := |a|;
    while l != 0
      invariant 0 <= l <= |s| == |r|
      invariant forall q :: l <= q < |s| ==> r[q] == s[q]
      invariant l > 0 ==> last == s[l - 1] && r[0] == 0
      invariant forall q :: 1 <= q < l ==> r[q] == s[q - 1]
    {
      l := l - 1;
      var other := r[l];
      r := r[l := last];
      last := other;
    }
  }
}
