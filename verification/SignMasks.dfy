/** Sign masks of even parity: how many there are and that stepping from one to
    the next visits them all. */
module SignMasks {
  import opened Bits

  predicate Bit(a: nat, j: nat) {
    ShiftRight(a, j) % 2 == 1
  }

  /** An odd number of bits is set. */
  predicate Parity(a: nat) {
    a != 0 && ((a % 2 == 1) != Parity(a / 2))
  }

  /** How many masks from 1 to `n` have even parity. */
  ghost function CountEven(n: nat): nat {
    if n == 0 then 0 else CountEven(n - 1) + if Parity(n) then 0 else 1
  }

  lemma ParityPair(q: nat)
    ensures Parity(2 * q + 1) != Parity(2 * q)
  {
    assert (2 * q + 1) / 2 == q && (2 * q) / 2 == q;
  }

  lemma {:induction false} EvenTotal(h: nat)
    requires h >= 1
    ensures CountEven(2 * h - 1) == h - 1
  {
    if h == 1 {
      assert Parity(1);
    } else {
      EvenTotal(h - 1);
      ParityPair(h - 1);
      assert CountEven(2 * h - 1) == CountEven(2 * h - 2) + if Parity(2 * h - 1) then 0 else 1;
      assert CountEven(2 * h - 2) == CountEven(2 * h - 3) + if Parity(2 * h - 2) then 0 else 1;
    }
  }

  lemma {:induction false} CountMonotone(a: nat, b: nat)
    requires a <= b
    ensures CountEven(a) <= CountEven(b)
    decreases b - a
  {
    if a < b {
      CountMonotone(a, b - 1);
    }
  }

  /** If the counts agree there is no even mask in between. */
  lemma NoneBetween(a: nat, b: nat, x: nat)
    requires a < x <= b && CountEven(a) == CountEven(b)
    ensures Parity(x)
  {
    CountMonotone(a, x - 1);
    CountMonotone(x, b);
  }

  /** If the counts differ there is an even mask in between. */
  lemma {:induction false} SomeBetween(a: nat, b: nat) returns (x: nat)
    requires a <= b && CountEven(a) < CountEven(b)
    ensures a < x <= b && !Parity(x)
  {
    if !Parity(b) {
      x := b;
    } else {
      x := SomeBetween(a, b - 1);
    }
  }

  /** The next mask of even parity. */
  method NextEven(signs: nat) returns (next: nat)
    ensures next > signs && !Parity(next) && forall x :: signs < x < next ==> Parity(x)
    ensures CountEven(next) == CountEven(signs) + 1
  {
    var q := signs / 2 + 1;
    ParityPair(q);
    next := signs + 1;
    while Parity(next)
      invariant signs < next <= 2 * q + 1 && forall x :: signs < x < next ==> Parity(x)
      invariant CountEven(next - 1) == CountEven(signs)
      decreases 2 * q + 1 - next
    {
      next := next + 1;
    }
  }

  /* ---- masks and bits ---- */

  function MaskOf(bits: seq<bool>): nat {
    if bits == [] then 0 else 2 * MaskOf(bits[1..]) + if bits[0] then 1 else 0
  }

  function XorAll(bits: seq<bool>): bool {
    bits != [] && (bits[0] != XorAll(bits[1..]))
  }

  lemma {:induction false} MaskBits(bits: seq<bool>, j: nat)
    requires j < |bits|
    ensures Bit(MaskOf(bits), j) == bits[j]
    decreases j
  {
    if j > 0 {
      MaskBits(bits[1..], j - 1);
    }
  }

  lemma {:induction false} MaskFacts(bits: seq<bool>)
    ensures MaskOf(bits) < Pow2(|bits|) && Parity(MaskOf(bits)) == XorAll(bits)
  {
    if bits != [] {
      MaskFacts(bits[1..]);
      assert MaskOf(bits) / 2 == MaskOf(bits[1..]);
    }
  }

  lemma {:induction false} XorFlip(bits: seq<bool>, j: nat)
    requires j < |bits|
    ensures XorAll(bits[j := !bits[j]]) != XorAll(bits)
    decreases j
  {
    var flipped := bits[j := !bits[j]];
    if j == 0 {
      assert flipped[1..] == bits[1..];
    } else {
      assert flipped[1..] == bits[1..][j - 1 := !bits[1..][j - 1]];
      XorFlip(bits[1..], j - 1);
    }
  }

  lemma {:induction false} SameBits(a: nat, b: nat, n: nat)
    requires a < Pow2(n) && b < Pow2(n) && forall j :: 0 <= j < n ==> Bit(a, j) == Bit(b, j)
    ensures a == b
  {
    if n > 0 {
      forall j | 0 <= j < n - 1 ensures Bit(a / 2, j) == Bit(b / 2, j) {
        assert Bit(a, j + 1) == Bit(b, j + 1);
      }
      SameBits(a / 2, b / 2, n - 1);
      assert Bit(a, 0) == Bit(b, 0);
    }
  }

  /** Masks that differ in a single bit have different parity. */
  lemma {:induction false} ParityDiffers(a: nat, b: nat, n: nat, p: nat)
    requires a < Pow2(n) && b < Pow2(n) && p < n && Bit(a, p) != Bit(b, p)
    requires forall j :: 0 <= j < n && j != p ==> Bit(a, j) == Bit(b, j)
    ensures Parity(a) != Parity(b)
  {
    forall j | 0 <= j < n - 1 && j + 1 != p ensures Bit(a / 2, j) == Bit(b / 2, j) {
      assert Bit(a, j + 1) == Bit(b, j + 1);
    }
    if p == 0 {
      SameBits(a / 2, b / 2, n - 1);
      assert a % 2 != b % 2;
    } else {
      assert Bit(a, 0) == Bit(b, 0) && Bit(a / 2, p - 1) != Bit(b / 2, p - 1);
      ParityDiffers(a / 2, b / 2, n - 1, p - 1);
    }
    assert Parity(a) == ((a % 2 == 1) != Parity(a / 2)) && Parity(b) == ((b % 2 == 1) != Parity(b / 2));
  }
}
