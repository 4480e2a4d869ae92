/** Least significant digit radix sort, byte by byte, skipping bytes that all
    ranks share and clearing only the part of the counters that was used. */
module RadixSort {
  import opened Bits
  import opened ByteSort

  /** Which bucket an element goes to in a pass. */
  function Digit(rank: int -> nat, x: int, i: nat): nat {
    Byte(rank(x), i)
  }

  /** The elements with byte `i` equal to `m`, in order. */
  ghost function Bucket(s: seq<int>, rank: int -> nat, i: nat, m: nat): seq<int> {
    if s == [] then []
    else Bucket(s[..|s| - 1], rank, i, m) + if Digit(rank, s[|s| - 1], i) == m then [s[|s| - 1]] else []
  }

  /** The buckets below `m` one after the other. */
  ghost function Buckets(s: seq<int>, rank: int -> nat, i: nat, m: nat): seq<int> {
    if m == 0 then [] else Buckets(s, rank, i, m - 1) + Bucket(s, rank, i, m - 1)
  }

  /** The elements of one rank, in order. */
  ghost function OfRank(s: seq<int>, rank: int -> nat, r: nat): seq<int> {
    if s == [] then []
    else OfRank(s[..|s| - 1], rank, r) + if rank(s[|s| - 1]) == r then [s[|s| - 1]] else []
  }

  /** Sorted by the lowest `n` bytes. */
  ghost predicate SortedLow(s: seq<int>, rank: int -> nat, n: nat) {
    forall p, q :: 0 <= p < q < |s| ==> !LessLow(rank(s[q]), rank(s[p]), n)
  }

  ghost predicate Sorted(s: seq<int>, rank: int -> nat) {
    forall p, q :: 0 <= p < q < |s| ==> rank(s[p]) <= rank(s[q])
  }

  /** A stable rearrangement: elements of equal rank keep their order. */
  ghost predicate Stable(s: seq<int>, t: seq<int>, rank: int -> nat) {
    forall r :: OfRank(s, rank, r) == OfRank(t, rank, r)
  }

  /* ---- a distribution by one byte ---- */

  lemma {:induction false} OfRankConcat(s: seq<int>, t: seq<int>, rank: int -> nat, r: nat)
    ensures OfRank(s + t, rank, r) == OfRank(s, rank, r) + OfRank(t, rank, r)
  {
    if t == [] {
      assert s + t == s;
    } else {
      assert (s + t)[..|s + t| - 1] == s + t[..|t| - 1];
      OfRankConcat(s, t[..|t| - 1], rank, r);
    }
  }

  /** A bucket has all elements of a rank or none. */
  lemma {:induction false} OfRankBucket(s: seq<int>, rank: int -> nat, i: nat, m: nat, r: nat)
    ensures OfRank(Bucket(s, rank, i, m), rank, r) == if Byte(r, i) == m then OfRank(s, rank, r) else []
  {
    if s != [] {
      var rest, last := s[..|s| - 1], s[|s| - 1];
      OfRankBucket(rest, rank, i, m, r);
      OfRankConcat(Bucket(rest, rank, i, m), if Digit(rank, last, i) == m then [last] else [], rank, r);
      OfRankOne(last, rank, r);
    }
  }

  lemma OfRankOne(x: int, rank: int -> nat, r: nat)
    ensures OfRank([x], rank, r) == if rank(x) == r then [x] else []
  {
    assert [x][..0] == [];
  }

  lemma {:induction false} OfRankBuckets(s: seq<int>, rank: int -> nat, i: nat, m: nat, r: nat)
    ensures OfRank(Buckets(s, rank, i, m), rank, r) == if Byte(r, i) < m then OfRank(s, rank, r) else []
  {
    hide Byte;
    hide Bucket;
    if m == 0 {
      assert OfRank([], rank, r) == [];
    } else {
      assert Buckets(s, rank, i, m) == Buckets(s, rank, i, m - 1) + Bucket(s, rank, i, m - 1);
      hide *;
      OfRankBuckets(s, rank, i, m - 1, r);
      OfRankBucket(s, rank, i, m - 1, r);
      OfRankConcat(Buckets(s, rank, i, m - 1), Bucket(s, rank, i, m - 1), rank, r);
    }
  }

  lemma SortedPrefix(s: seq<int>, rank: int -> nat, n: nat)
    requires SortedLow(s, rank, n) && s != []
    ensures SortedLow(s[..|s| - 1], rank, n)
  {
    hide LessLow;
    var rest := s[..|s| - 1];
    forall p, q | 0 <= p < q < |rest| ensures !LessLow(rank(rest[q]), rank(rest[p]), n) {
      assert rest[p] == s[p] && rest[q] == s[q];
    }
  }

  lemma {:induction false} BucketMembers(s: seq<int>, rank: int -> nat, i: nat, m: nat)
    ensures forall x {:trigger x in Bucket(s, rank, i, m)} :: x in Bucket(s, rank, i, m) ==> x in s && Digit(rank, x, i) == m
  {
    hide Digit;
    if s != [] {
      var rest := s[..|s| - 1];
      BucketMembers(rest, rank, i, m);
      assert forall x :: x in rest ==> x in s;
    }
  }

  /** A bucket is sorted if the sequence was. */
  lemma {:induction false} BucketSorted(s: seq<int>, rank: int -> nat, i: nat, m: nat)
    requires SortedLow(s, rank, i)
    ensures SortedLow(Bucket(s, rank, i, m), rank, i)
  {
    hide LessLow;
    hide Digit;
    if s != [] {
      var rest, last := s[..|s| - 1], s[|s| - 1];
      SortedPrefix(s, rank, i);
      BucketSorted(rest, rank, i, m);
      BucketMembers(rest, rank, i, m);
      var b := Bucket(rest, rank, i, m);
      forall p | 0 <= p < |b| ensures !LessLow(rank(last), rank(b[p]), i) {
        assert b[p] in Bucket(rest, rank, i, m);
        var k :| 0 <= k < |rest| && rest[k] == b[p];
        assert s[k] == b[p];
      }
    }
  }

  lemma {:induction false} BucketsMembers(s: seq<int>, rank: int -> nat, i: nat, m: nat)
    ensures forall x {:trigger x in Buckets(s, rank, i, m)} :: x in Buckets(s, rank, i, m) ==> x in s && Digit(rank, x, i) < m
  {
    hide Digit;
    if m > 0 {
      BucketsMembers(s, rank, i, m - 1);
      BucketMembers(s, rank, i, m - 1);
    }
  }

  lemma {:induction false} BucketsSorted(s: seq<int>, rank: int -> nat, i: nat, m: nat)
    requires SortedLow(s, rank, i)
    ensures SortedLow(Buckets(s, rank, i, m), rank, i + 1)
  {
    hide LessLow;
    hide Digit;
    hide Bucket;
    if m > 0 {
      BucketsSorted(s, rank, i, m - 1);
      BucketSorted(s, rank, i, m - 1);
      BucketsMembers(s, rank, i, m - 1);
      BucketMembers(s, rank, i, m - 1);
      hide Buckets;
      SortedConcat(Buckets(s, rank, i, m - 1), Bucket(s, rank, i, m - 1), rank, i, m - 1);
      assert Buckets(s, rank, i, m) == Buckets(s, rank, i, m - 1) + Bucket(s, rank, i, m - 1) by {
        BucketsUnfold(s, rank, i, m);
      }
    }
  }

  lemma BucketsUnfold(s: seq<int>, rank: int -> nat, i: nat, m: nat)
    requires m > 0
    ensures Buckets(s, rank, i, m) == Buckets(s, rank, i, m - 1) + Bucket(s, rank, i, m - 1)
  {
  }

  /** Appending a bucket of a higher byte value. */
  lemma SortedConcat(lower: seq<int>, b: seq<int>, rank: int -> nat, i: nat, m: nat)
    requires SortedLow(lower, rank, i + 1) && SortedLow(b, rank, i)
    requires forall x :: x in lower ==> Digit(rank, x, i) < m
    requires forall x :: x in b ==> Digit(rank, x, i) == m
    ensures SortedLow(lower + b, rank, i + 1)
  {
    var all := lower + b;
    forall p, q | 0 <= p < q < |all| ensures !LessLow(rank(all[q]), rank(all[p]), i + 1) {
      if q >= |lower| {
        assert all[q] == b[q - |lower|] && all[q] in b;
        if p >= |lower| {
          assert all[p] == b[p - |lower|] && all[p] in b;
        } else {
          assert all[p] == lower[p] && all[p] in lower;
        }
        hide Byte;
      } else {
        assert all[p] == lower[p] && all[q] == lower[q];
      }
    }
  }

  /** One distribution is stable and sorts by one byte more. */
  lemma PassCorrect(s: seq<int>, rank: int -> nat, i: nat)
    requires SortedLow(s, rank, i)
    ensures Stable(s, Buckets(s, rank, i, 256), rank) && SortedLow(Buckets(s, rank, i, 256), rank, i + 1)
  {
    BucketsSorted(s, rank, i, 256);
    forall r ensures OfRank(s, rank, r) == OfRank(Buckets(s, rank, i, 256), rank, r) {
      OfRankBuckets(s, rank, i, 256, r);
      ByteBound(r, i);
    }
  }

  /** If all elements agree on a byte, sorting by it changes nothing. */
  lemma SkipCorrect(s: seq<int>, rank: int -> nat, i: nat)
    requires SortedLow(s, rank, i)
    requires forall x, y :: x in s && y in s ==> Digit(rank, x, i) == Digit(rank, y, i)
    ensures SortedLow(s, rank, i + 1)
  {
    forall p, q | 0 <= p < q < |s| ensures !LessLow(rank(s[q]), rank(s[p]), i + 1) {
      assert s[p] in s && s[q] in s;
      assert Digit(rank, s[p], i) == Digit(rank, s[q], i);
    }
  }

  lemma SortedAll(s: seq<int>, rank: int -> nat, n: nat)
    requires SortedLow(s, rank, n) && forall x :: x in s ==> rank(x) < Pow2(8 * n)
    ensures Sorted(s, rank)
  {
    hide Pow2;
    hide LessLow;
    forall p, q | 0 <= p < q < |s| ensures rank(s[p]) <= rank(s[q]) {
      var x, y := s[p], s[q];
      assert x in s && y in s;
      LessAll(rank(y), rank(x), n);
    }
  }

  /** Equal subsequences for all ranks make a permutation. */
  lemma {:induction false} OfRankCount(s: seq<int>, rank: int -> nat, x: int)
    ensures multiset(OfRank(s, rank, rank(x)))[x] == multiset(s)[x]
  {
    if s != [] {
      var rest, last := s[..|s| - 1], s[|s| - 1];
      OfRankCount(rest, rank, x);
      assert s == rest + [last];
    }
  }

  lemma StablePermutation(s: seq<int>, t: seq<int>, rank: int -> nat)
    requires Stable(s, t, rank)
    ensures multiset(s) == multiset(t)
  {
    forall x ensures multiset(s)[x] == multiset(t)[x] {
      OfRankCount(s, rank, x);
      OfRankCount(t, rank, x);
      assert OfRank(s, rank, rank(x)) == OfRank(t, rank, rank(x));
    }
  }

  /* ---- where the elements of a bucket go ---- */

  ghost function Start(s: seq<int>, rank: int -> nat, i: nat, m: nat): nat {
    |Buckets(s, rank, i, m)|
  }

  lemma {:induction false} StartMonotone(s: seq<int>, rank: int -> nat, i: nat, m: nat, k: nat)
    requires m <= k
    ensures Start(s, rank, i, m) <= Start(s, rank, i, k)
    decreases k - m
  {
    if m < k {
      StartMonotone(s, rank, i, m, k - 1);
    }
  }

  lemma StartEnd(s: seq<int>, rank: int -> nat, i: nat)
    ensures Start(s, rank, i, 256) == |s|
  {
    forall r ensures OfRank(s, rank, r) == OfRank(Buckets(s, rank, i, 256), rank, r) {
      OfRankBuckets(s, rank, i, 256, r);
      ByteBound(r, i);
    }
    StablePermutation(s, Buckets(s, rank, i, 256), rank);
    assert |multiset(s)| == |s|;
  }

  /** A prefix has no more elements in a bucket. */
  lemma {:induction false} BucketPrefix(s: seq<int>, rank: int -> nat, i: nat, m: nat, p: nat)
    requires p <= |s|
    ensures Bucket(s[..p], rank, i, m) <= Bucket(s, rank, i, m)
  {
    if p == |s| {
      assert s[..p] == s;
    } else {
      assert s[..|s| - 1][..p] == s[..p];
      BucketPrefix(s[..|s| - 1], rank, i, m, p);
    }
  }

  /** The next element goes right behind those of its bucket. */
  lemma BucketNext(s: seq<int>, rank: int -> nat, i: nat, m: nat, p: nat)
    requires p < |s|
    ensures Bucket(s[..p + 1], rank, i, m) == Bucket(s[..p], rank, i, m) + if Digit(rank, s[p], i) == m then [s[p]] else []
  {
    assert s[..p + 1][..p] == s[..p];
  }

  /** Buckets are disjoint ranges of positions. */
  lemma Apart(s: seq<int>, rank: int -> nat, i: nat, m: nat, k: nat, m': nat, k': nat)
    requires m != m' && k < |Bucket(s, rank, i, m)| && k' < |Bucket(s, rank, i, m')|
    ensures Start(s, rank, i, m) + k != Start(s, rank, i, m') + k'
  {
    hide *;
    StartNext(s, rank, i, m);
    StartNext(s, rank, i, m');
    if m < m' {
      StartMonotone(s, rank, i, m + 1, m');
    } else {
      StartMonotone(s, rank, i, m' + 1, m);
    }
  }

  lemma StartNext(s: seq<int>, rank: int -> nat, i: nat, m: nat)
    ensures Start(s, rank, i, m + 1) == Start(s, rank, i, m) + |Bucket(s, rank, i, m)|
  {
  }

  /** Every position belongs to a bucket. */
  lemma {:induction false} BucketsIndex(s: seq<int>, rank: int -> nat, i: nat, n: nat, t: nat) returns (m: nat)
    requires t < Start(s, rank, i, n)
    ensures m < n && Start(s, rank, i, m) <= t < Start(s, rank, i, m) + |Bucket(s, rank, i, m)|
    ensures Buckets(s, rank, i, n)[t] == Bucket(s, rank, i, m)[t - Start(s, rank, i, m)]
  {
    if t < Start(s, rank, i, n - 1) {
      m := BucketsIndex(s, rank, i, n - 1, t);
    } else {
      m := n - 1;
    }
  }

  /* ---- the algorithm ---- */

  /** The counters hold the sizes of the buckets. */
  ghost predicate Counts(s: seq<int>, rank: int -> nat, i: nat, count: seq<nat>) {
    |count| == 256 && forall m :: 0 <= m < 256 ==> count[m] == |Bucket(s, rank, i, m)|
  }

  /** All bytes of all ranks lie between those of `lower` and `upper`. */
  ghost predicate Bounded(s: seq<int>, rank: int -> nat, lower: nat, upper: nat) {
    forall x, k :: x in s ==> Byte(lower, k) <= Byte(rank(x), k) <= Byte(upper, k)
  }

  /** Zero outside the range. */
  ghost predicate Clear(count: seq<nat>, low: nat, high: nat) {
    |count| == 256 && forall m :: 0 <= m < 256 && !(low <= m <= high) ==> count[m] == 0
  }

  method ClearRange(count: array<nat>, low: nat, high: nat)
    requires low <= high < 256 && Clear(count[..], low, high)
    modifies count
    ensures forall m :: 0 <= m < count.Length ==> count[m] == 0
  {
    var j := low;
    while j <= high
      invariant low <= j <= high + 1 && count.Length == 256
      invariant forall m :: 0 <= m < 256 && !(j <= m <= high) ==> count[m] == 0
    {
      count[j] := 0;
      j := j + 1;
    }
  }

  /** Counts the elements of every bucket, and on the first pass collects the
      conjunction and disjunction of all ranks. */
  method CountBuckets(c: array<int>, rank: int -> nat, i: nat, count: array<nat>, bounded: bool, low: nat, high: nat)
    returns (lower: nat, upper: nat)
    requires count.Length == 256 && forall m :: 0 <= m < 256 ==> count[m] == 0
    requires bounded ==> Bounded(c[..], rank, low, high)
    modifies count
    ensures Counts(c[..], rank, i, count[..])
    ensures Bounded(c[..], rank, lower, upper)
    ensures bounded ==> lower == low && upper == high
  {
    lower, upper := low, high;
    ghost var s := c[..];
    for p := 0 to c.Length
      invariant c[..] == s
      invariant Counts(s[..p], rank, i, count[..])
      invariant bounded ==> lower == low && upper == high
      invariant !bounded ==> Bounded(s[..p], rank, lower, upper)
    {
      var r := rank(c[p]);
      if !bounded {
        BoundedNext(s, rank, p, lower, upper);
        lower, upper := And(lower, r), Or(upper, r);
      }
      var m := Byte(r, i);
      ByteBound(r, i);
      CountsNext(s, rank, i, count[..], p);
      count[m] := count[m] + 1;
    }
    assert s[..c.Length] == s;
  }

  lemma BoundedNext(s: seq<int>, rank: int -> nat, p: nat, lower: nat, upper: nat)
    requires p < |s| && Bounded(s[..p], rank, lower, upper)
    ensures Bounded(s[..p + 1], rank, And(lower, rank(s[p])), Or(upper, rank(s[p])))
  {
    var r := rank(s[p]);
    assert s[..p + 1] == s[..p] + [s[p]];
    hide Byte, And, Or;
    forall x, k | x in s[..p + 1] ensures Byte(And(lower, r), k) <= Byte(rank(x), k) <= Byte(Or(upper, r), k) {
      assert x in s[..p] || x == s[p];
      ByteBetween(lower, r, k);
      ByteBetween(upper, r, k);
    }
  }

  lemma CountsNext(s: seq<int>, rank: int -> nat, i: nat, count: seq<nat>, p: nat)
    requires p < |s| && Counts(s[..p], rank, i, count) && Digit(rank, s[p], i) < 256
    ensures var m := Digit(rank, s[p], i); Counts(s[..p + 1], rank, i, count[m := count[m] + 1])
  {
    var m := Digit(rank, s[p], i);
    var count' := count[m := count[m] + 1];
    forall k | 0 <= k < 256 ensures count'[k] == |Bucket(s[..p + 1], rank, i, k)| {
      BucketNext(s, rank, i, k, p);
    }
  }

  /** The counters hold the position for the next element of every bucket. */
  ghost predicate Positions(s: seq<int>, rank: int -> nat, i: nat, count: seq<nat>, low: nat, high: nat, p: nat) {
    && |count| == 256 && p <= |s|
    && forall m :: low <= m <= high < 256 ==> count[m] == Start(s, rank, i, m) + |Bucket(s[..p], rank, i, m)|
  }

  /** Buckets outside the range are empty. */
  ghost predicate InRange(s: seq<int>, rank: int -> nat, i: nat, low: nat, high: nat) {
    && low <= high < 256
    && forall x :: x in s ==> low <= Digit(rank, x, i) <= high
  }

  lemma {:induction false} EmptyBucket(s: seq<int>, rank: int -> nat, i: nat, m: nat)
    requires forall x :: x in s ==> Digit(rank, x, i) != m
    ensures Bucket(s, rank, i, m) == []
  {
    if s != [] {
      var rest := s[..|s| - 1];
      assert s[|s| - 1] in s && forall x :: x in rest ==> x in s;
      EmptyBucket(rest, rank, i, m);
    }
  }

  lemma {:induction false} StartZero(s: seq<int>, rank: int -> nat, i: nat, low: nat, high: nat, m: nat)
    requires InRange(s, rank, i, low, high) && m <= low
    ensures Start(s, rank, i, m) == 0
    decreases m
  {
    if m > 0 {
      StartZero(s, rank, i, low, high, m - 1);
      EmptyBucket(s, rank, i, m - 1);
    }
  }

  lemma CountsFacts(s: seq<int>, rank: int -> nat, i: nat, count: seq<nat>, low: nat, high: nat)
    requires Counts(s, rank, i, count) && InRange(s, rank, i, low, high)
    ensures |count| == 256 && low <= high < 256
    ensures forall m :: low <= m <= high ==> count[m] == |Bucket(s, rank, i, m)|
    ensures forall m :: 0 <= m < 256 && !(low <= m <= high) ==> count[m] == 0
  {
    forall m | 0 <= m < 256 && !(low <= m <= high) ensures count[m] == 0 {
      EmptyBucket(s, rank, i, m);
    }
  }

  lemma PositionsFacts(s: seq<int>, rank: int -> nat, i: nat, count: seq<nat>, low: nat, high: nat)
    requires |count| == 256 && low <= high < 256
    requires forall m :: low <= m <= high ==> count[m] == Start(s, rank, i, m)
    requires forall m :: 0 <= m < 256 && !(low <= m <= high) ==> count[m] == 0
    ensures Positions(s, rank, i, count, low, high, 0) && Clear(count, low, high)
  {
    assert s[..0] == [];
  }

  /** Turns the counters into positions. */
  method Accumulate(ghost s: seq<int>, ghost rank: int -> nat, ghost i: nat, count: array<nat>, low: nat, high: nat)
    requires count.Length == 256 && Counts(s, rank, i, count[..]) && InRange(s, rank, i, low, high)
    modifies count
    ensures Positions(s, rank, i, count[..], low, high, 0)
    ensures Clear(count[..], low, high)
  {
    hide *;
    CountsFacts(s, rank, i, count[..], low, high);
    var pos := 0;
    StartZero(s, rank, i, low, high, low);
    var j := low;
    while j <= high
      invariant low <= j <= high + 1 && pos == Start(s, rank, i, j)
      invariant forall m :: low <= m < j ==> count[m] == Start(s, rank, i, m)
      invariant forall m :: j <= m <= high ==> count[m] == |Bucket(s, rank, i, m)|
      invariant forall m :: 0 <= m < 256 && !(low <= m <= high) ==> count[m] == 0
    {
      var delta := count[j];
      StartNext(s, rank, i, j);
      count[j] := pos;
      pos := pos + delta;
      j := j + 1;
    }
    PositionsFacts(s, rank, i, count[..], low, high);
  }

  /** Element `k` of bucket `m` of the first `p` elements is in place. */
  ghost predicate InPlace(s: seq<int>, d: seq<int>, rank: int -> nat, i: nat, p: nat, m: nat, k: nat)
    requires |d| == |s| && p <= |s|
  {
    k < |Bucket(s[..p], rank, i, m)| ==>
      Start(s, rank, i, m) + k < |s| && d[Start(s, rank, i, m) + k] == Bucket(s[..p], rank, i, m)[k]
  }

  /** What was distributed so far is in place. */
  ghost predicate Distributed(s: seq<int>, d: seq<int>, rank: int -> nat, i: nat, p: nat) {
    && |d| == |s| && p <= |s|
    && forall m: nat, k: nat {:trigger InPlace(s, d, rank, i, p, m, k)} :: InPlace(s, d, rank, i, p, m, k)
  }

  /** Where element `p` goes. */
  ghost function Slot(s: seq<int>, rank: int -> nat, i: nat, p: nat): nat
    requires p < |s|
  {
    Start(s, rank, i, Digit(rank, s[p], i)) + |Bucket(s[..p], rank, i, Digit(rank, s[p], i))|
  }

  lemma SlotBound(s: seq<int>, rank: int -> nat, i: nat, p: nat)
    requires p < |s|
    ensures Slot(s, rank, i, p) < |s|
    ensures var m := Digit(rank, s[p], i); m < 256 && |Bucket(s[..p], rank, i, m)| < |Bucket(s, rank, i, m)|
  {
    var m := Digit(rank, s[p], i);
    ByteBound(rank(s[p]), i);
    BucketNext(s, rank, i, m, p);
    BucketPrefix(s, rank, i, m, p + 1);
    StartNext(s, rank, i, m);
    StartMonotone(s, rank, i, m + 1, 256);
    StartEnd(s, rank, i);
  }

  lemma DistributeNext(s: seq<int>, d: seq<int>, rank: int -> nat, i: nat, p: nat, next: nat)
    requires next == p + 1 && p < |s| && Distributed(s, d, rank, i, p)
    requires Slot(s, rank, i, p) < |s|
    ensures Distributed(s, d[Slot(s, rank, i, p) := s[p]], rank, i, next)
  {
    SlotBound(s, rank, i, p);
    var d' := d[Slot(s, rank, i, p) := s[p]];
    hide Slot;
    forall m: nat, k: nat ensures InPlace(s, d', rank, i, next, m, k) {
      assert InPlace(s, d, rank, i, p, m, k);
      if m == Digit(rank, s[p], i) {
        SameBucket(s, d, rank, i, p, k);
      } else {
        OtherBucket(s, d, rank, i, p, m, k);
      }
    }
  }

  lemma SameBucket(s: seq<int>, d: seq<int>, rank: int -> nat, i: nat, p: nat, k: nat)
    requires p < |s| == |d| && Slot(s, rank, i, p) < |s|
    requires InPlace(s, d, rank, i, p, Digit(rank, s[p], i), k)
    ensures InPlace(s, d[Slot(s, rank, i, p) := s[p]], rank, i, p + 1, Digit(rank, s[p], i), k)
  {
    BucketNext(s, rank, i, Digit(rank, s[p], i), p);
    hide Bucket;
    hide Start;
    hide Digit;
  }

  lemma OtherBucket(s: seq<int>, d: seq<int>, rank: int -> nat, i: nat, p: nat, m: nat, k: nat)
    requires p < |s| == |d| && Slot(s, rank, i, p) < |s| && m != Digit(rank, s[p], i)
    requires |Bucket(s[..p], rank, i, Digit(rank, s[p], i))| < |Bucket(s, rank, i, Digit(rank, s[p], i))|
    requires InPlace(s, d, rank, i, p, m, k)
    ensures InPlace(s, d[Slot(s, rank, i, p) := s[p]], rank, i, p + 1, m, k)
  {
    BucketNext(s, rank, i, m, p);
    BucketPrefix(s, rank, i, m, p);
    hide Bucket;
    hide Start;
    hide Digit;
    if k < |Bucket(s[..p], rank, i, m)| {
      Apart(s, rank, i, Digit(rank, s[p], i), |Bucket(s[..p], rank, i, Digit(rank, s[p], i))|, m, k);
    }
  }

  lemma PositionsNext(s: seq<int>, rank: int -> nat, i: nat, count: seq<nat>, low: nat, high: nat, p: nat)
    requires p < |s| && Positions(s, rank, i, count, low, high, p) && InRange(s, rank, i, low, high)
    ensures var m := Digit(rank, s[p], i);
            && low <= m <= high && count[m] == Slot(s, rank, i, p)
            && Positions(s, rank, i, count[m := count[m] + 1], low, high, p + 1)
  {
    assert s[p] in s;
    var m := Digit(rank, s[p], i);
    var count' := count[m := count[m] + 1];
    forall k | low <= k <= high ensures count'[k] == Start(s, rank, i, k) + |Bucket(s[..p + 1], rank, i, k)| {
      BucketNext(s, rank, i, k, p);
    }
  }

  lemma AllDistributed(s: seq<int>, d: seq<int>, rank: int -> nat, i: nat)
    requires Distributed(s, d, rank, i, |s|)
    ensures d == Buckets(s, rank, i, 256)
  {
    assert s[..|s|] == s;
    StartEnd(s, rank, i);
    forall t | 0 <= t < |s| ensures d[t] == Buckets(s, rank, i, 256)[t] {
      var m := BucketsIndex(s, rank, i, 256, t);
      var k := t - Start(s, rank, i, m);
      assert InPlace(s, d, rank, i, |s|, m, k);
    }
  }

  /** Puts an element at the position of its bucket, which moves on. */
  method Put(d: array<int>, count: array<nat>, m: nat, x: int)
    requires m < count.Length && count[m] < d.Length
    modifies d, count
    ensures d[..] == old(d[..])[old(count[m]) := x]
    ensures count[..] == old(count[..])[m := old(count[m]) + 1]
  {
    d[count[m]] := x;
    count[m] := count[m] + 1;
  }

  lemma StillClear(count: seq<nat>, low: nat, high: nat, m: nat)
    requires Clear(count, low, high) && low <= m <= high && m < 256
    ensures Clear(count[m := count[m] + 1], low, high)
  {
  }

  /** Moves one element to its bucket. */
  method DistributeOne(c: array<int>, d: array<int>, rank: int -> nat, i: nat, count: array<nat>, low: nat, high: nat, p: nat)
    requires c != d && d.Length == c.Length && count.Length == 256 && p < c.Length
    requires Positions(c[..], rank, i, count[..], low, high, p) && InRange(c[..], rank, i, low, high)
    requires Clear(count[..], low, high) && Distributed(c[..], d[..], rank, i, p)
    modifies d, count
    ensures c[..] == old(c[..]) && Clear(count[..], low, high)
    ensures Positions(c[..], rank, i, count[..], low, high, p + 1) && Distributed(c[..], d[..], rank, i, p + 1)
  {
    ghost var s := c[..];
    assert Digit(rank, s[p], i) == Byte(rank(c[p]), i);
    hide *;
    PositionsNext(s, rank, i, count[..], low, high, p);
    SlotBound(s, rank, i, p);
    DistributeNext(s, d[..], rank, i, p, p + 1);
    StillClear(count[..], low, high, Digit(rank, s[p], i));
    Put(d, count, Byte(rank(c[p]), i), c[p]);
  }

  /** Moves the elements to their buckets. */
  method Distribute(c: array<int>, d: array<int>, rank: int -> nat, i: nat, count: array<nat>, low: nat, high: nat)
    requires c != d && d.Length == c.Length && count.Length == 256
    requires Positions(c[..], rank, i, count[..], low, high, 0) && InRange(c[..], rank, i, low, high)
    requires Clear(count[..], low, high)
    modifies d, count
    ensures d[..] == Buckets(c[..], rank, i, 256)
    ensures Clear(count[..], low, high)
  {
    ghost var s := c[..];
    assert s[..0] == [];
    hide Positions, Distributed, Clear, InRange;
    for p := 0 to c.Length
      invariant c[..] == s && Clear(count[..], low, high)
      invariant Positions(s, rank, i, count[..], low, high, p)
      invariant Distributed(s, d[..], rank, i, p)
    {
      DistributeOne(c, d, rank, i, count, low, high, p);
    }
    AllDistributed(s, d[..], rank, i);
  }

  lemma StableTransitive(s: seq<int>, t: seq<int>, u: seq<int>, rank: int -> nat)
    requires Stable(s, t, rank) && Stable(t, u, rank)
    ensures Stable(s, u, rank)
  {
    forall r ensures OfRank(s, rank, r) == OfRank(u, rank, r) {
      assert OfRank(s, rank, r) == OfRank(t, rank, r);
    }
  }

  /** A rearrangement has the same elements. */
  lemma SameElements(s: seq<int>, t: seq<int>, rank: int -> nat)
    requires Stable(s, t, rank)
    ensures forall x :: x in s <==> x in t
  {
    StablePermutation(s, t, rank);
    hide Stable;
    forall x ensures x in s <==> x in t {
      assert x in s <==> x in multiset(s);
      assert x in t <==> x in multiset(t);
    }
  }

  lemma BoundedSame(s: seq<int>, t: seq<int>, rank: int -> nat, lower: nat, upper: nat)
    requires Stable(s, t, rank) && Bounded(s, rank, lower, upper)
    ensures Bounded(t, rank, lower, upper)
  {
    SameElements(s, t, rank);
    hide Stable, Byte;
  }

  lemma BoundedAt(s: seq<int>, rank: int -> nat, lower: nat, upper: nat, x: int, k: nat)
    requires Bounded(s, rank, lower, upper) && x in s
    ensures Byte(lower, k) <= Digit(rank, x, k) <= Byte(upper, k)
  {
  }

  /** The byte is the same in all ranks. */
  lemma SkipBounded(s: seq<int>, rank: int -> nat, i: nat, lower: nat, upper: nat)
    requires SortedLow(s, rank, i) && Bounded(s, rank, lower, upper) && Byte(lower, i) == Byte(upper, i)
    ensures SortedLow(s, rank, i + 1)
  {
    hide Byte;
    hide SortedLow;
    forall x, y | x in s && y in s ensures Digit(rank, x, i) == Digit(rank, y, i) {
      BoundedAt(s, rank, lower, upper, x, i);
      BoundedAt(s, rank, lower, upper, y, i);
    }
    SkipCorrect(s, rank, i);
  }

  lemma BoundedInRange(s: seq<int>, rank: int -> nat, i: nat, lower: nat, upper: nat, count: seq<nat>)
    requires Bounded(s, rank, lower, upper) && |s| > 0 && Counts(s, rank, i, count)
    ensures InRange(s, rank, i, Byte(lower, i), Byte(upper, i)) && Clear(count, Byte(lower, i), Byte(upper, i))
  {
    assert s[0] in s;
    BoundedAt(s, rank, lower, upper, s[0], i);
    ByteBound(upper, i);
    hide Byte;
    forall x | x in s ensures Byte(lower, i) <= Digit(rank, x, i) <= Byte(upper, i) {
      BoundedAt(s, rank, lower, upper, x, i);
    }
    forall m | 0 <= m < 256 && !(Byte(lower, i) <= m <= Byte(upper, i)) ensures count[m] == 0 {
      EmptyBucket(s, rank, i, m);
    }
  }

  /** Distributes one byte from `c` to `d`. */
  method Pass(c: array<int>, d: array<int>, rank: int -> nat, i: nat, count: array<nat>, low: nat, high: nat)
    requires c != d && d.Length == c.Length && count.Length == 256
    requires Counts(c[..], rank, i, count[..]) && InRange(c[..], rank, i, low, high) && SortedLow(c[..], rank, i)
    modifies d, count
    ensures Stable(c[..], d[..], rank) && SortedLow(d[..], rank, i + 1) && Clear(count[..], low, high)
  {
    PassCorrect(c[..], rank, i);
    Accumulate(c[..], rank, i, count, low, high);
    Distribute(c, d, rank, i, count, low, high);
  }

  method Copy(b: array<int>, a: array<int>)
    requires a != b && a.Length == b.Length
    modifies a
    ensures a[..] == b[..]
  {
    for i := 0 to a.Length
      invariant a[..i] == b[..i]
    {
      a[i] := b[i];
    }
    assert a[..a.Length] == a[..] && b[..b.Length] == b[..];
  }

  /** Sorts stably by ranks of the given number of bytes. */
  method RSort(a: array<int>, rank: int -> nat, bytes: nat)
    requires forall x :: x in a[..] ==> rank(x) < Pow2(8 * bytes)
    modifies a
    ensures Sorted(a[..], rank) && Stable(old(a[..]), a[..], rank)
    ensures multiset(a[..]) == multiset(old(a[..]))
  {
    ghost var s := a[..];
    if a.Length <= 1 {
      return;
    }
    var c := Passes(a, rank, bytes);
    SameElements(s, c[..], rank);
    SortedAll(c[..], rank, bytes);
    if c != a {
      Copy(c, a);
    }
    StablePermutation(s, a[..], rank);
  }

  /** The passes over all bytes; the result is in `a` or in a new buffer. */
  method Passes(a: array<int>, rank: int -> nat, bytes: nat) returns (c: array<int>)
    requires a.Length > 1
    modifies a
    ensures c.Length == a.Length && (c == a || fresh(c))
    ensures Stable(old(a[..]), c[..], rank) && SortedLow(c[..], rank, bytes)
  {
    ghost var s := a[..];
    var count := new nat[256];
    c := a;
    var b := a;
    var initialized, bounded := false, false;
    var lower: nat, upper: nat := Pow2(8 * bytes) - 1, 0;
    var low: nat, high: nat := 0, 255;
    hide Stable, SortedLow, Bounded, Byte, Positions;
    SortedNone(s, rank);
    StableSelf(s, rank);
    for i := 0 to bytes
      invariant c.Length == a.Length && b.Length == a.Length && count.Length == 256
      invariant initialized ==> fresh(b) && b != a
      invariant c == a || (initialized && c == b)
      invariant Stable(s, c[..], rank) && SortedLow(c[..], rank, i)
      invariant bounded ==> Bounded(c[..], rank, lower, upper)
      invariant low <= high < 256 && Clear(count[..], low, high)
    {
      if bounded && Byte(lower, i) == Byte(upper, i) {
        SkipBounded(c[..], rank, i, lower, upper);
        continue;
      }
      ClearRange(count, low, high);
      lower, upper := CountBuckets(c, rank, i, count, bounded, lower, upper);
      low, high := Byte(lower, i), Byte(upper, i);
      BoundedInRange(c[..], rank, i, lower, upper, count[..]);
      assert low <= high < 256;
      hide InRange, Clear;
      if !bounded {
        bounded := true;
        if Byte(lower, i) == Byte(upper, i) {
          SkipBounded(c[..], rank, i, lower, upper);
          continue;
        }
      }
      if !initialized {
        b := new int[a.Length];
        initialized := true;
      }
      var d := if c == a then b else a;
      Pass(c, d, rank, i, count, low, high);
      BoundedSame(c[..], d[..], rank, lower, upper);
      StableTransitive(s, c[..], d[..], rank);
      c := d;
    }
  }

  lemma SortedNone(s: seq<int>, rank: int -> nat)
    ensures SortedLow(s, rank, 0)
  {
  }

  lemma StableSelf(s: seq<int>, rank: int -> nat)
    ensures Stable(s, s, rank)
  {
  }
}
