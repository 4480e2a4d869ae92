/** Unsigned words as natural numbers: powers of two, exclusive or and bit length. */
module Bits {

  function Pow2(n: nat): (p: nat)
    ensures p >= 1
  {
    if n == 0 then 1 else 2 * Pow2(n - 1)
  }

  /** Shifting right by `n` bits. */
  function ShiftRight(a: nat, n: nat): (r: nat)
    decreases n
  {
    if n == 0 then a else ShiftRight(a / 2, n - 1)
  }

  function Xor(a: nat, b: nat): (r: nat)
    decreases a + b
  {
    if a == 0 && b == 0 then 0
    else 2 * Xor(a / 2, b / 2) + (if a % 2 == b % 2 then 0 else 1)
  }

  /** Position of the highest set bit plus one; zero for zero. */
  function BitLength(a: nat): (n: nat) {
    if a == 0 then 0 else 1 + BitLength(a / 2)
  }

  ghost predicate PowerOfTwo(n: nat) {
    n == 1 || (n > 1 && n % 2 == 0 && PowerOfTwo(n / 2))
  }

  /* ---- the highest bit in which two words differ ---- */

  /** Number of low bits one has to drop to make two words equal. */
  function Distance(a: nat, b: nat): nat {
    BitLength(Xor(a, b))
  }

  lemma {:induction false} XorZero(a: nat, b: nat)
    ensures Xor(a, b) == 0 <==> a == b
    decreases a + b
  {
    if a != 0 || b != 0 {
      XorZero(a / 2, b / 2);
    }
  }

  lemma {:induction false} ShiftZero(n: nat)
    ensures ShiftRight(0, n) == 0
  {
    if n > 0 {
      ShiftZero(n - 1);
    }
  }

  /** The distance is at most `n` exactly when shifting by `n` makes the words
      equal. */
  lemma {:induction false} DistanceShift(a: nat, b: nat, n: nat)
    ensures Distance(a, b) <= n <==> ShiftRight(a, n) == ShiftRight(b, n)
    decreases n
  {
    XorZero(a, b);
    if n > 0 {
      DistanceShift(a / 2, b / 2, n - 1);
      if a == 0 && b == 0 {
      } else {
        assert Xor(a, b) / 2 == Xor(a / 2, b / 2);
        if Xor(a, b) == 0 {
          XorZero(a / 2, b / 2);
        }
      }
    }
  }

  lemma {:induction false} ShiftMonotone(a: nat, b: nat, n: nat)
    requires a <= b
    ensures ShiftRight(a, n) <= ShiftRight(b, n)
    decreases n
  {
    if n > 0 {
      ShiftMonotone(a / 2, b / 2, n - 1);
    }
  }

  lemma {:induction false} ShiftOnce(a: nat, n: nat)
    requires n > 0
    ensures ShiftRight(a, n) == ShiftRight(a, n - 1) / 2
    decreases n
  {
    if n > 1 {
      ShiftOnce(a / 2, n - 1);
    }
  }

  lemma DistanceSymmetric(a: nat, b: nat)
    ensures Distance(a, b) == Distance(b, a)
  {
    DistanceShift(a, b, Distance(b, a));
    DistanceShift(b, a, Distance(b, a));
    DistanceShift(b, a, Distance(a, b));
    DistanceShift(a, b, Distance(a, b));
  }

  /** The distance is an ultrametric. */
  lemma DistanceTriangle(a: nat, b: nat, c: nat, n: nat)
    requires Distance(a, b) <= n && Distance(b, c) <= n
    ensures Distance(a, c) <= n
  {
    DistanceShift(a, b, n);
    DistanceShift(b, c, n);
    DistanceShift(a, c, n);
  }

  /** Above `base` at distance `i`, bit `i - 1` is set, and not so in `base`. */
  lemma AboveBase(base: nat, a: nat, i: nat)
    requires base <= a && Distance(a, base) == i > 0
    ensures ShiftRight(a, i - 1) == ShiftRight(base, i - 1) + 1
  {
    DistanceShift(a, base, i);
    DistanceShift(a, base, i - 1);
    ShiftMonotone(base, a, i - 1);
    ShiftOnce(a, i);
    ShiftOnce(base, i);
  }

  /** Two words at the same positive distance above `base` are closer. */
  lemma SameDistanceCloser(base: nat, a: nat, b: nat, i: nat)
    requires base <= a && base <= b && Distance(a, base) == Distance(b, base) == i > 0
    ensures Distance(a, b) < i
  {
    AboveBase(base, a, i);
    AboveBase(base, b, i);
    DistanceShift(a, b, i - 1);
  }

  /** Closer to `base` from above means smaller. */
  lemma CloserSmaller(base: nat, a: nat, b: nat)
    requires base <= a && base <= b && Distance(a, base) < Distance(b, base)
    ensures a < b
  {
    var i := Distance(b, base);
    AboveBase(base, b, i);
    DistanceShift(a, base, i - 1);
    if b <= a {
      ShiftMonotone(b, a, i - 1);
    }
  }

  /** Moving the base by less than the distance keeps the distance. */
  lemma BaseMoved(base: nat, moved: nat, a: nat)
    requires Distance(moved, base) < Distance(a, base)
    ensures Distance(a, moved) == Distance(a, base)
  {
    var k := Distance(a, base);
    DistanceSymmetric(moved, base);
    DistanceTriangle(a, base, moved, k);
    if Distance(a, moved) < k {
      DistanceTriangle(a, moved, base, k - 1);
    }
  }

  lemma {:induction false} ShiftBound(a: nat, n: nat)
    requires a < Pow2(n)
    ensures ShiftRight(a, n) == 0
    decreases n
  {
    if n > 0 {
      ShiftBound(a / 2, n - 1);
    }
  }

  /** Words of `n` bits have distance at most `n`. */
  lemma DistanceBound(a: nat, b: nat, n: nat)
    requires a < Pow2(n) && b < Pow2(n)
    ensures Distance(a, b) <= n
  {
    ShiftBound(a, n);
    ShiftBound(b, n);
    DistanceShift(a, b, n);
  }

  lemma DistanceZero(a: nat, b: nat)
    ensures Distance(a, b) == 0 <==> a == b
  {
    XorZero(a, b);
  }
}
