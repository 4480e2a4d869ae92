/** Sorting literals by a total order, as the standard library does. */
module Sorting {
  import opened Logic

  ghost predicate TotalOrder(before: (int, int) -> bool) {
    && (forall a, b :: before(a, b) || before(b, a))
    && (forall a, b, c :: before(a, b) && before(b, c) ==> before(a, c))
  }

  ghost predicate SortedBy(r: Clause, before: (int, int) -> bool) {
    forall i, j :: 0 <= i < j < |r| ==> before(r[i], r[j])
  }

  lemma InsertSorted(before: (int, int) -> bool, r: Clause, k: nat, x: int)
    requires TotalOrder(before) && SortedBy(r, before) && k <= |r|
    requires k > 0 ==> before(r[k - 1], x)
    requires k < |r| ==> before(x, r[k])
    ensures SortedBy(r[..k] + [x] + r[k..], before)
  {
    var n := r[..k] + [x] + r[k..];
    forall i | 0 <= i < k ensures before(r[i], x) {
      if i < k - 1 {
        var a, b := r[i], r[k - 1];
        assert before(a, b) && before(b, x);
      }
    }
    forall j | k <= j < |r| ensures before(x, r[j]) {
      if j > k {
        var b, c := r[k], r[j];
        assert before(x, b) && before(b, c);
      }
    }
    hide TotalOrder;
    forall i, j | 0 <= i < j < |n| ensures before(n[i], n[j]) {
      assert n[i] == if i < k then r[i] else if i == k then x else r[i - 1];
      assert n[j] == if j < k then r[j] else if j == k then x else r[j - 1];
    }
  }

  lemma InsertMultiset(r: Clause, k: nat, x: int)
    requires k <= |r|
    ensures multiset(r[..k] + [x] + r[k..]) == multiset(r) + multiset{x}
  {
    assert r == r[..k] + r[k..];
  }

  /** Insertion sort. */
  method SortBy(c: Clause, before: (int, int) -> bool) returns (r: Clause)
    requires TotalOrder(before)
    ensures multiset(r) == multiset(c) && SortedBy(r, before)
  {
    r := [];
    for i := 0 to |c|
      invariant multiset(r) == multiset(c[..i]) && SortedBy(r, before)
    {
      assert c[..i + 1] == c[..i] + [c[i]];
      var k := |r|;
      while k > 0 && !before(r[k - 1], c[i])
        invariant 0 <= k <= |r| && (k < |r| ==> before(c[i], r[k]))
      {
        var last, next := r[k - 1], c[i];
        assert before(last, next) || before(next, last);
        k := k - 1;
      }
      hide TotalOrder;
      hide SortedBy;
      InsertSorted(before, r, k, c[i]);
      InsertMultiset(r, k, c[i]);
      r := r[..k] + [c[i]] + r[k..];
    }
    assert c[..|c|] == c;
  }

  /* ---- clauses with the same literals ---- */

  lemma SameMembers(c: Clause, r: Clause)
    requires multiset(r) == multiset(c)
    ensures SameLits(c, r)
  {
    forall l ensures l in c <==> l in r {
      assert l in c <==> l in multiset(c);
      assert l in r <==> l in multiset(r);
    }
  }

  lemma {:induction false} CountsOne(c: Clause)
    requires NoDup(c)
    ensures forall l :: multiset(c)[l] <= 1
  {
    if c != [] {
      var rest, last := c[..|c| - 1], c[|c| - 1];
      CountsOne(rest);
      assert c == rest + [last] && last !in rest;
      assert multiset(rest)[last] == 0;
    }
  }

  lemma CountsTwo(r: Clause, i: nat, j: nat)
    requires i < j < |r| && r[i] == r[j]
    ensures multiset(r)[r[i]] >= 2
  {
    assert r == r[..i] + [r[i]] + r[i + 1..j] + [r[j]] + r[j + 1..];
  }

  lemma PermutedNoDup(c: Clause, r: Clause)
    requires NoDup(c) && multiset(r) == multiset(c)
    ensures NoDup(r)
  {
    CountsOne(c);
    forall i, j | 0 <= i < j < |r| ensures r[i] != r[j] {
      if r[i] == r[j] {
        CountsTwo(r, i, j);
      }
    }
  }
}
