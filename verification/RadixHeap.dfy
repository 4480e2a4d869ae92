/** The monotone radix heap: words are kept in the bucket given by the highest
    bit in which they differ from the last word that was popped. */
module RadixHeap {
  import opened Bits

  const WORD_BITS := 32

  type Buckets = seq<seq<nat>>

  /** Everything in the buckets. */
  ghost function Flatten(bs: Buckets): multiset<nat> {
    if bs == [] then multiset{} else Flatten(bs[..|bs| - 1]) + multiset(bs[|bs| - 1])
  }

  lemma {:induction false} FlattenMember(bs: Buckets, e: nat)
    ensures e in Flatten(bs) <==> exists k :: 0 <= k < |bs| && e in bs[k]
  {
    if bs != [] {
      var n := |bs| - 1;
      FlattenMember(bs[..n], e);
      if e in bs[..n + 1][n] {
        assert e in bs[n];
      }
      if k :| 0 <= k < |bs| && e in bs[k] && k < n {
        assert bs[..n][k] == bs[k];
      }
    }
  }

  lemma Swapped(a: multiset<nat>, b: multiset<nat>, c: multiset<nat>)
    ensures a + b + c == a + c + b
  {
  }

  /** Changing one bucket. */
  lemma {:induction false} FlattenUpdate(bs: Buckets, k: nat, b: seq<nat>)
    requires k < |bs|
    ensures Flatten(bs[k := b]) + multiset(bs[k]) == Flatten(bs) + multiset(b)
  {
    var n := |bs| - 1;
    var c := bs[k := b];
    if k == n {
      assert c[..n] == bs[..n];
      Swapped(Flatten(bs[..n]), multiset(b), multiset(bs[n]));
    } else {
      FlattenUpdate(bs[..n], k, b);
      assert c[..n] == bs[..n][k := b] && c[n] == bs[n] && bs[..n][k] == bs[k];
      Swapped(Flatten(c[..n]), multiset(bs[n]), multiset(bs[k]));
      Swapped(Flatten(bs[..n]), multiset(bs[n]), multiset(b));
    }
  }

  lemma Appended(b: seq<nat>, e: nat)
    ensures multiset(b + [e]) == multiset(b) + multiset{e}
  {
  }

  lemma Cancel(x: multiset<nat>, a: multiset<nat>, y: multiset<nat>, b: multiset<nat>)
    requires x + a == y + (a + b)
    ensures x == y + b
  {
    forall e ensures x[e] == (y + b)[e] {
      assert (x + a)[e] == (y + (a + b))[e];
    }
  }

  lemma AddBoth(x: multiset<nat>, a: multiset<nat>, y: multiset<nat>, b: multiset<nat>, e: nat)
    requires x + a == y + b
    ensures (x + multiset{e}) + a == y + (b + multiset{e})
  {
    forall k ensures ((x + multiset{e}) + a)[k] == (y + (b + multiset{e}))[k] {
      assert (x + a)[k] == (y + b)[k];
    }
  }

  lemma AddRight(x: multiset<nat>, y: multiset<nat>, b: multiset<nat>, e: nat)
    requires x + multiset{} == y + b
    ensures x + multiset{e} == y + (b + multiset{e})
  {
    forall k ensures (x + multiset{e})[k] == (y + (b + multiset{e}))[k] {
      assert (x + multiset{})[k] == (y + b)[k];
    }
  }

  lemma FlattenPush(bs: Buckets, k: nat, e: nat)
    requires k < |bs|
    ensures Flatten(bs[k := bs[k] + [e]]) == Flatten(bs) + multiset{e}
  {
    FlattenUpdate(bs, k, bs[k] + [e]);
    Appended(bs[k], e);
    Cancel(Flatten(bs[k := bs[k] + [e]]), multiset(bs[k]), Flatten(bs), multiset{e});
  }

  lemma FlattenPop(bs: Buckets, k: nat)
    requires k < |bs| && bs[k] != []
    ensures var e := bs[k][|bs[k]| - 1];
            Flatten(bs) == Flatten(bs[k := bs[k][..|bs[k]| - 1]]) + multiset{e}
  {
    var b := bs[k];
    var rest, e := b[..|b| - 1], b[|b| - 1];
    FlattenUpdate(bs, k, rest);
    assert b == rest + [e];
    Appended(rest, e);
    Cancel(Flatten(bs), multiset(rest), Flatten(bs[k := rest]), multiset{e});
  }

  lemma FlattenClear(bs: Buckets, k: nat)
    requires k < |bs|
    ensures Flatten(bs) == Flatten(bs[k := []]) + multiset(bs[k])
  {
    FlattenUpdate(bs, k, []);
  }

  lemma {:induction false} FlattenEmpty(bs: Buckets)
    requires forall k :: 0 <= k < |bs| ==> bs[k] == []
    ensures Flatten(bs) == multiset{}
  {
    if bs != [] {
      FlattenEmpty(bs[..|bs| - 1]);
    }
  }

  /** Every element is a word not below the last popped one, in the bucket of
      its distance. */
  ghost predicate Placed(bs: Buckets, last: nat) {
    && |bs| == WORD_BITS + 1
    && forall k, e {:trigger e in bs[k]} :: 0 <= k < |bs| && e in bs[k] ==>
         last <= e < Pow2(WORD_BITS) && Distance(e, last) == k
  }

  /** Only buckets from `low` to `high` hold elements. */
  ghost predicate Within(bs: Buckets, low: nat, high: nat) {
    forall k :: 0 <= k < |bs| && bs[k] != [] ==> low <= k <= high
  }

  lemma SomeBucket(bs: Buckets)
    requires |Flatten(bs)| > 0
    ensures exists k :: 0 <= k < |bs| && bs[k] != []
  {
    if forall k :: 0 <= k < |bs| ==> bs[k] == [] {
      FlattenEmpty(bs);
    }
  }

  /** The elements of bucket `i` of `before` were moved, possibly not all yet,
      to lower buckets by their distance to `res`; higher buckets are as before. */
  ghost predicate Spread(bs: Buckets, before: Buckets, i: nat, res: nat) {
    && |bs| == |before| == WORD_BITS + 1 && i < |bs|
    && (forall k :: i < k < |bs| ==> bs[k] == before[k])
    && (forall k, e {:trigger e in bs[k]} :: 0 <= k < i && e in bs[k] ==> e in before[i] && Distance(e, res) == k)
  }

  /** The smallest element of the first bucket is the smallest of all. */
  lemma FirstIsSmallest(bs: Buckets, last: nat, i: nat, res: nat)
    requires Placed(bs, last) && i < |bs| && (forall k :: 0 <= k < i ==> bs[k] == [])
    requires res in bs[i] && forall e :: e in bs[i] ==> res <= e
    ensures res in Flatten(bs) && forall e :: e in Flatten(bs) ==> res <= e
  {
    FlattenMember(bs, res);
    forall e | e in Flatten(bs) ensures res <= e {
      FlattenMember(bs, e);
      var k :| 0 <= k < |bs| && e in bs[k];
      if k > i {
        CloserSmaller(last, res, e);
      }
    }
  }

  /** After the redistribution everything is placed for the new base. */
  lemma SpreadPlaced(bs: Buckets, before: Buckets, last: nat, i: nat, res: nat)
    requires Placed(before, last) && Spread(bs, before, i, res) && bs[i] == []
    requires res in before[i] && forall e :: e in before[i] ==> res <= e
    ensures Placed(bs, res)
  {
    forall k, e | 0 <= k < |bs| && e in bs[k] ensures res <= e < Pow2(WORD_BITS) && Distance(e, res) == k {
      if k > i {
        assert e in before[k];
        CloserSmaller(last, res, e);
        BaseMoved(last, res, e);
      } else {
        assert k < i && e in before[i];
      }
    }
  }

  lemma PlacedPush(bs: Buckets, last: nat, e: nat)
    requires Placed(bs, last) && last <= e < Pow2(WORD_BITS) && Distance(e, last) <= WORD_BITS
    ensures var k := Distance(e, last); Placed(bs[k := bs[k] + [e]], last)
  {
    hide Distance;
  }

  lemma WithinPush(bs: Buckets, low: nat, high: nat, k: nat, e: nat)
    requires Within(bs, low, high) && k < |bs|
    ensures Within(bs[k := bs[k] + [e]], if low > k then k else low, if high < k then k else high)
  {
  }

  /** The lower bound moves past an empty bucket. */
  lemma WithinRaised(bs: Buckets, low: nat, high: nat)
    requires Within(bs, low, high) && |bs| == WORD_BITS + 1 && low < |bs| && bs[low] == []
    ensures Within(bs, if low + 1 < 32 then low + 1 else 32, high)
  {
  }

  lemma WithinClear(bs: Buckets, low: nat, high: nat, i: nat)
    requires Within(bs, low, high) && 0 < i < |bs|
    ensures Within(bs[i := []], low, if high == i then i - 1 else high)
  {
  }

  lemma PlacedPop(bs: Buckets, last: nat, k: nat)
    requires Placed(bs, last) && k < |bs| && bs[k] != []
    ensures Placed(bs[k := bs[k][..|bs[k]| - 1]], last)
  {
    hide Distance;
    var bs' := bs[k := bs[k][..|bs[k]| - 1]];
    forall j, e | 0 <= j < |bs'| && e in bs'[j] ensures e in bs[j] {
    }
  }

  /** One more element is moved down. */
  lemma SpreadPush(bs: Buckets, before: Buckets, i: nat, res: nat, e: nat)
    requires Spread(bs, before, i, res) && e in before[i] && Distance(e, res) < i
    ensures var j := Distance(e, res);
            var bs' := bs[j := bs[j] + [e]];
            Spread(bs', before, i, res) && bs'[i] == bs[i] && Flatten(bs') == Flatten(bs) + multiset{e}
  {
    FlattenPush(bs, Distance(e, res), e);
    hide Distance;
    hide Flatten;
  }

  /** Emptying the bucket leaves everything but the smallest element. */
  lemma Cleared(bs: Buckets, before: Buckets, i: nat, s: seq<nat>, res: nat)
    requires Spread(bs, before, i, res) && bs[i] == s
    requires Flatten(bs) + multiset{res} == Flatten(before) + multiset(s)
    ensures Spread(bs[i := []], before, i, res)
    ensures Flatten(before) == Flatten(bs[i := []]) + multiset{res}
  {
    FlattenClear(bs, i);
    Swapped(Flatten(bs[i := []]), multiset(s), multiset{res});
    Cancel(Flatten(before), multiset(s), Flatten(bs[i := []]), multiset{res});
  }

  lemma CloserInBucket(bs: Buckets, last: nat, i: nat, a: nat, b: nat)
    requires Placed(bs, last) && 0 < i < |bs| && a in bs[i] && b in bs[i]
    ensures Distance(a, b) < i
  {
    SameDistanceCloser(last, a, b, i);
  }

  class Reap {
    var numElements: nat
    var lastDeleted: nat
    var minBucket: nat
    var maxBucket: nat
    var buckets: Buckets

    ghost predicate Valid()
      reads this
    {
      && Placed(buckets, lastDeleted) && Within(buckets, minBucket, maxBucket)
      && minBucket <= WORD_BITS && maxBucket <= WORD_BITS && lastDeleted < Pow2(WORD_BITS)
      && numElements == |Contents()|
    }

    ghost function Contents(): multiset<nat>
      reads this
    {
      Flatten(buckets)
    }

    constructor ()
      ensures Valid() && Contents() == multiset{} && lastDeleted == 0
    {
      numElements, lastDeleted, minBucket, maxBucket := 0, 0, 32, 0;
      buckets := seq(WORD_BITS + 1, _ => []);
      new;
      FlattenEmpty(buckets);
      assert Pow2(WORD_BITS) >= 1;
    }

    method Clear()
      modifies this
      requires Valid()
      ensures Valid() && Contents() == multiset{} && lastDeleted == 0
    {
      for i := 0 to WORD_BITS + 1
        invariant |buckets| == WORD_BITS + 1 && forall k :: 0 <= k < i ==> buckets[k] == []
      {
        buckets := buckets[i := []];
      }
      numElements, lastDeleted, minBucket, maxBucket := 0, 0, 32, 0;
      FlattenEmpty(buckets);
      assert Pow2(WORD_BITS) >= 1;
    }

    /** Adds a word that is not below the last popped one. */
    method Push(e: nat)
      requires Valid() && lastDeleted <= e < Pow2(WORD_BITS)
      modifies this
      ensures Valid() && Contents() == old(Contents()) + multiset{e} && lastDeleted == old(lastDeleted)
    {
      hide Flatten;
      hide Pow2;
      hide Within;
      var diff := Xor(e, lastDeleted);
      var bucket := BitLength(diff);
      DistanceBound(e, lastDeleted, WORD_BITS);
      FlattenPush(buckets, bucket, e);
      PlacedPush(buckets, lastDeleted, e);
      WithinPush(buckets, minBucket, maxBucket, bucket, e);
      assert |buckets| == WORD_BITS + 1 && bucket == Distance(e, lastDeleted) <= WORD_BITS;
      hide Placed;
      hide Distance;
      buckets := buckets[bucket := buckets[bucket] + [e]];
      if minBucket > bucket {
        minBucket := bucket;
      }
      if maxBucket < bucket {
        maxBucket := bucket;
      }
      numElements := numElements + 1;
    }

    /** The position of the first smallest element. */
    method Smallest(s: seq<nat>) returns (q: nat)
      requires s != [] && forall e :: e in s ==> e < Pow2(WORD_BITS)
      ensures q < |s| && forall e :: e in s ==> s[q] <= e
    {
      q := 0;
      var res := s[0];
      for p := 0 to |s|
        invariant q < |s| && res == s[q] && forall k :: 0 <= k < p ==> res <= s[k]
      {
        if s[p] < res {
          res, q := s[p], p;
        }
      }
    }

    /** Moves the lower bound up to the first bucket that is not empty. */
    method FirstNonEmpty() returns (i: nat)
      requires Valid() && numElements > 0
      modifies `minBucket
      ensures Valid() && minBucket == i <= maxBucket && buckets[i] != []
      ensures forall k :: 0 <= k < i ==> buckets[k] == []
    {
      i := minBucket;
      SomeBucket(buckets);
      while buckets[i] == []
        invariant i == minBucket <= WORD_BITS && Valid()
        invariant exists k :: i <= k < |buckets| && buckets[k] != []
        decreases WORD_BITS - i
      {
        i := i + 1;
        minBucket := i;
      }
    }

    /** Pushes an element on a lower bucket. */
    method MoveDown(j: nat, other: nat)
      requires j < |buckets| && j <= maxBucket && Within(buckets, minBucket, maxBucket)
      modifies `buckets, `minBucket
      ensures buckets == old(buckets)[j := old(buckets)[j] + [other]]
      ensures minBucket <= old(minBucket) && Within(buckets, minBucket, maxBucket)
    {
      WithinPush(buckets, minBucket, maxBucket, j, other);
      hide Within;
      buckets := buckets[j := buckets[j] + [other]];
      if minBucket > j {
        minBucket := j;
      }
    }

    /** Moves all elements of bucket `i` but the one at position `q` to the
        buckets of their distance to that element. */
    method Redistribute(i: nat, q: nat)
      requires Placed(buckets, lastDeleted) && Within(buckets, minBucket, maxBucket) && maxBucket <= WORD_BITS
      requires 0 < i == minBucket <= maxBucket && q < |buckets[i]|
      requires forall k :: 0 <= k < i ==> buckets[k] == []
      modifies `buckets, `minBucket, `maxBucket
      ensures Spread(buckets, old(buckets), i, old(buckets)[i][q]) && buckets[i] == []
      ensures Flatten(old(buckets)) == Flatten(buckets) + multiset{old(buckets)[i][q]}
      ensures Within(buckets, minBucket, maxBucket) && minBucket <= i && maxBucket <= WORD_BITS
    {
      ghost var before := buckets;
      ghost var res := buckets[i][q];
      assert |buckets| == WORD_BITS + 1 && Spread(buckets, before, i, res);
      hide Flatten;
      hide Placed;
      hide Within;
      hide Pow2;
      var s := buckets[i];
      MoveOthers(i, q, s);
      assert buckets[i] == s && i < |buckets|;
      Cleared(buckets, before, i, s, res);
      WithinClear(buckets, minBucket, maxBucket, i);
      hide Spread;
      buckets := buckets[i := []];
      if maxBucket == i {
        maxBucket := i - 1;
      }
    }

    method MoveOthers(i: nat, q: nat, s: seq<nat>)
      requires Placed(buckets, lastDeleted) && Within(buckets, minBucket, maxBucket)
      requires 0 < i <= maxBucket && i < |buckets| && q < |s| && buckets[i] == s && minBucket <= i
      requires Spread(buckets, buckets, i, s[q])
      modifies `buckets, `minBucket
      ensures Spread(buckets, old(buckets), i, s[q]) && buckets[i] == s
      ensures Flatten(buckets) + multiset{s[q]} == Flatten(old(buckets)) + multiset(s)
      ensures Within(buckets, minBucket, maxBucket) && minBucket <= i
    {
      hide Flatten;
      hide Placed;
      hide Within;
      hide Pow2;
      ghost var before := buckets;
      var res := s[q];
      for p := 0 to |s|
        invariant Spread(buckets, before, i, res) && buckets[i] == s
        invariant Flatten(buckets) + (if p > q then multiset{res} else multiset{}) == Flatten(before) + multiset(s[..p])
        invariant minBucket <= i && Within(buckets, minBucket, maxBucket)
      {
        assert s[..p + 1] == s[..p] + [s[p]];
        Appended(s[..p], s[p]);
        if p != q {
          var other := s[p];
          var j := BitLength(Xor(other, res));
          assert other in before[i] && res in before[i];
          CloserInBucket(before, lastDeleted, i, other, res);
          SpreadPush(buckets, before, i, res, other);
          assert j < i < |buckets|;
          hide Spread;
          AddBoth(Flatten(buckets), if p > q then multiset{res} else multiset{}, Flatten(before), multiset(s[..p]), other);
          MoveDown(j, other);
        } else {
          AddRight(Flatten(buckets), Flatten(before), multiset(s[..p]), res);
        }
      }
      assert s[..|s|] == s;
    }

    /** Removes one copy of the last popped word. */
    method DropLast()
      requires Placed(buckets, lastDeleted) && buckets[0] != []
      modifies `buckets
      ensures Placed(buckets, lastDeleted)
      ensures Flatten(old(buckets)) == Flatten(buckets) + multiset{lastDeleted}
      ensures forall low, high :: Within(old(buckets), low, high) ==> Within(buckets, low, high)
    {
      var b := buckets[0];
      ghost var e := b[|b| - 1];
      assert e in buckets[0];
      DistanceZero(e, lastDeleted);
      FlattenPop(buckets, 0);
      PlacedPop(buckets, lastDeleted, 0);
      hide Placed;
      buckets := buckets[0 := b[..|b| - 1]];
    }

    /** Removes and returns the smallest element. */
    method Pop() returns (res: nat)
      requires Valid() && numElements > 0
      modifies this
      ensures Valid()
      ensures res in old(Contents()) && forall e :: e in old(Contents()) ==> res <= e
      ensures old(Contents()) == Contents() + multiset{res}
      ensures res == lastDeleted >= old(lastDeleted)
    {
      hide Flatten;
      hide Pow2;
      hide Within;
      hide Distance;
      var i := FirstNonEmpty();
      ghost var before := buckets;
      assert forall e :: e in buckets[i] ==> e < Pow2(WORD_BITS);
      if i > 0 {
        var q := Smallest(buckets[i]);
        res := buckets[i][q];
        assert res in before[i];
        FirstIsSmallest(before, lastDeleted, i, res);
        Redistribute(i, q);
        SpreadPlaced(buckets, before, lastDeleted, i, res);
        hide Placed;
      } else {
        res := lastDeleted;
        AllNotBelow(before, lastDeleted);
        DropLast();
      }
      if minBucket == i && buckets[i] == [] {
        WithinRaised(buckets, i, maxBucket);
        minBucket := if i + 1 < 32 then i + 1 else 32;
      }
      numElements := numElements - 1;
      lastDeleted := res;
    }
  }

  lemma AllNotBelow(bs: Buckets, last: nat)
    requires Placed(bs, last)
    ensures forall e :: e in Flatten(bs) ==> last <= e
  {
    forall e | e in Flatten(bs) ensures last <= e {
      FlattenMember(bs, e);
    }
  }
}
