/** Ranks byte by byte: the order that least significant digit sorting builds
    up, and one stable distribution by a byte. */
module ByteSort {
  import opened Bits

  /** The lowest `k` bits. */
  function LowBits(a: nat, k: nat): (r: nat)
    decreases k
  {
    if k == 0 then 0 else 2 * LowBits(a / 2, k - 1) + a % 2
  }

  /** Byte `i` of a word. */
  function Byte(a: nat, i: nat): nat {
    LowBits(ShiftRight(a, 8 * i), 8)
  }

  function And(a: nat, b: nat): nat
    decreases a + b
  {
    if a == 0 && b == 0 then 0 else 2 * And(a / 2, b / 2) + (if a % 2 == 1 && b % 2 == 1 then 1 else 0)
  }

  function Or(a: nat, b: nat): nat
    decreases a + b
  {
    if a == 0 && b == 0 then 0 else 2 * Or(a / 2, b / 2) + (if a % 2 == 1 || b % 2 == 1 then 1 else 0)
  }

  lemma {:induction false} BitwiseShift(a: nat, b: nat, n: nat)
    ensures ShiftRight(And(a, b), n) == And(ShiftRight(a, n), ShiftRight(b, n))
    ensures ShiftRight(Or(a, b), n) == Or(ShiftRight(a, n), ShiftRight(b, n))
    decreases n
  {
    if n > 0 {
      assert And(a, b) / 2 == And(a / 2, b / 2) && Or(a, b) / 2 == Or(a / 2, b / 2);
      BitwiseShift(a / 2, b / 2, n - 1);
    }
  }

  lemma {:induction false} BitwiseLow(a: nat, b: nat, k: nat)
    ensures LowBits(And(a, b), k) <= LowBits(a, k) <= LowBits(Or(a, b), k)
    ensures LowBits(And(a, b), k) <= LowBits(b, k) <= LowBits(Or(a, b), k)
    decreases k
  {
    if k == 0 {
    } else {
      BitwiseLow(a / 2, b / 2, k - 1);
      BitwiseHalves(a, b);
      hide And, Or;
    }
  }

  lemma BitwiseHalves(a: nat, b: nat)
    ensures And(a, b) / 2 == And(a / 2, b / 2) && And(a, b) % 2 == (if a % 2 == 1 && b % 2 == 1 then 1 else 0)
    ensures Or(a, b) / 2 == Or(a / 2, b / 2) && Or(a, b) % 2 == (if a % 2 == 1 || b % 2 == 1 then 1 else 0)
  {
  }

  /** A byte lies between that of a conjunction and that of a disjunction. */
  lemma ByteBetween(a: nat, b: nat, i: nat)
    ensures Byte(And(a, b), i) <= Byte(a, i) <= Byte(Or(a, b), i)
    ensures Byte(And(a, b), i) <= Byte(b, i) <= Byte(Or(a, b), i)
  {
    BitwiseShift(a, b, 8 * i);
    BitwiseLow(ShiftRight(a, 8 * i), ShiftRight(b, 8 * i), 8);
  }

  lemma {:induction false} LowBitsBound(a: nat, k: nat)
    ensures LowBits(a, k) < Pow2(k)
    decreases k
  {
    if k > 0 {
      LowBitsBound(a / 2, k - 1);
    }
  }

  lemma ByteBound(a: nat, i: nat)
    ensures Byte(a, i) < 256
  {
    LowBitsBound(ShiftRight(a, 8 * i), 8);
    assert Pow2(8) == 256;
  }

  /** Less in the lowest `n` bytes. */
  predicate LessLow(r: nat, s: nat, n: nat) {
    n > 0 && (Byte(r, n - 1) < Byte(s, n - 1) || (Byte(r, n - 1) == Byte(s, n - 1) && LessLow(r, s, n - 1)))
  }

  predicate EqualLow(r: nat, s: nat, n: nat) {
    n == 0 || (Byte(r, n - 1) == Byte(s, n - 1) && EqualLow(r, s, n - 1))
  }

  lemma {:induction false} LessTransitive(r: nat, s: nat, t: nat, n: nat)
    requires !LessLow(s, r, n) && !LessLow(t, s, n)
    ensures !LessLow(t, r, n)
  {
    if n > 0 {
      if Byte(r, n - 1) == Byte(s, n - 1) == Byte(t, n - 1) {
        LessTransitive(r, s, t, n - 1);
      }
    }
  }

  lemma {:induction false} ShiftSum(a: nat, m: nat, n: nat)
    ensures ShiftRight(a, m + n) == ShiftRight(ShiftRight(a, m), n)
    decreases m
  {
    if m > 0 {
      ShiftSum(a / 2, m - 1, n);
    }
  }

  lemma ByteShift(a: nat, i: nat)
    ensures Byte(a, i + 1) == Byte(ShiftRight(a, 8), i)
  {
    ShiftSum(a, 8, 8 * i);
  }

  /** Comparing from the highest byte down amounts to comparing the rest first
      and then the lowest byte. */
  lemma {:induction false} LessShift(r: nat, s: nat, n: nat)
    ensures EqualLow(r, s, n + 1) <==> EqualLow(ShiftRight(r, 8), ShiftRight(s, 8), n) && Byte(r, 0) == Byte(s, 0)
    ensures LessLow(r, s, n + 1) <==>
            || LessLow(ShiftRight(r, 8), ShiftRight(s, 8), n)
            || (EqualLow(ShiftRight(r, 8), ShiftRight(s, 8), n) && Byte(r, 0) < Byte(s, 0))
  {
    hide Byte;
    hide ShiftRight;
    if n > 0 {
      LessShift(r, s, n - 1);
      ByteShift(r, n - 1);
      ByteShift(s, n - 1);
    }
  }

  lemma {:induction false} LessSplit(r: nat, s: nat, k: nat)
    ensures r < s <==> ShiftRight(r, k) < ShiftRight(s, k) || (ShiftRight(r, k) == ShiftRight(s, k) && LowBits(r, k) < LowBits(s, k))
    ensures r == s <==> ShiftRight(r, k) == ShiftRight(s, k) && LowBits(r, k) == LowBits(s, k)
    decreases k
  {
    if k > 0 {
      LessSplit(r / 2, s / 2, k - 1);
    }
  }

  lemma {:induction false} ShiftLess(a: nat, m: nat, n: nat)
    requires a < Pow2(m + n)
    ensures ShiftRight(a, m) < Pow2(n)
    decreases m
  {
    if m > 0 {
      ShiftLess(a / 2, m - 1, n);
    }
  }

  /** The lowest byte decides when the rest is equal. */
  lemma LessStep(r: nat, s: nat, n: nat)
    requires LessLow(ShiftRight(r, 8), ShiftRight(s, 8), n) <==> ShiftRight(r, 8) < ShiftRight(s, 8)
    requires EqualLow(ShiftRight(r, 8), ShiftRight(s, 8), n) <==> ShiftRight(r, 8) == ShiftRight(s, 8)
    ensures LessLow(r, s, n + 1) <==> r < s
    ensures EqualLow(r, s, n + 1) <==> r == s
  {
    assert Byte(r, 0) == LowBits(r, 8) && Byte(s, 0) == LowBits(s, 8);
    hide *;
    LessShift(r, s, n);
    LessSplit(r, s, 8);
  }

  /** Over all bytes the order is the order of the words. */
  lemma {:induction false} LessAll(r: nat, s: nat, n: nat)
    requires r < Pow2(8 * n) && s < Pow2(8 * n)
    ensures LessLow(r, s, n) <==> r < s
    ensures EqualLow(r, s, n) <==> r == s
    decreases n
  {
    if n == 0 {
      assert r == 0 && s == 0;
    } else {
      assert 8 * n == 8 + 8 * (n - 1);
      hide *;
      ShiftLess(r, 8, 8 * (n - 1));
      ShiftLess(s, 8, 8 * (n - 1));
      LessAll(ShiftRight(r, 8), ShiftRight(s, 8), n - 1);
      LessStep(r, s, n - 1);
    }
  }
}
