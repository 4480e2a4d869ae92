/** Reluctant doubling: Donald Knuth's two-word generator of the Luby restart
    sequence, with a base period and an optional limit. */
module ReluctantDoubling {
  import opened Bits

  /** The Luby sequence as the literature defines it, from 1 on. */
  function Luby(n: nat): nat
    requires n > 0
    decreases n
  {
    var k := BitLength(n);
    BitLengthBounds(n);
    if n == Pow2(k) - 1 then Pow2(k - 1) else Luby(n - Pow2(k - 1) + 1)
  }

  lemma {:induction false} BitLengthBounds(n: nat)
    requires n > 0
    ensures BitLength(n) > 0 && Pow2(BitLength(n) - 1) <= n < Pow2(BitLength(n))
    ensures n == Pow2(BitLength(n)) - 1 || Pow2(BitLength(n) - 1) > 1
    decreases n
  {
    if n > 1 {
      BitLengthBounds(n / 2);
    }
  }

  lemma {:induction false} BitLengthUnique(n: nat, k: nat)
    requires k > 0 && Pow2(k - 1) <= n < Pow2(k)
    ensures BitLength(n) == k
    decreases n
  {
    if n > 1 {
      BitLengthUnique(n / 2, k - 1);
    }
  }

  /** The lowest set bit, `u & -u`. */
  function LowestBit(u: nat): (b: nat)
    requires u > 0
    ensures b > 0
    decreases u
  {
    if u % 2 == 1 then 1 else 2 * LowestBit(u / 2)
  }

  /** `x` is a multiple of `Pow2(k)`. */
  predicate Multiple(x: nat, k: nat)
    decreases k
  {
    k == 0 || (x % 2 == 0 && Multiple(x / 2, k - 1))
  }

  lemma {:induction false} MultipleLess(x: nat, k: nat)
    requires k > 0 && Multiple(x, k)
    ensures Multiple(x, k - 1)
    decreases k
  {
    if k > 1 {
      MultipleLess(x / 2, k - 1);
    }
  }

  lemma {:induction false} MultipleAdd(x: nat, k: nat)
    requires Multiple(x, k)
    ensures Multiple(x + Pow2(k), k)
    decreases k
  {
    if k > 0 {
      MultipleAdd(x / 2, k - 1);
      assert (x + Pow2(k)) / 2 == x / 2 + Pow2(k - 1);
    }
  }

  lemma {:induction false} LowestBitExact(x: nat, k: nat)
    requires Multiple(x, k + 1)
    ensures LowestBit(x + Pow2(k)) == Pow2(k)
    decreases k
  {
    if k > 0 {
      LowestBitExact(x / 2, k - 1);
      assert (x + Pow2(k)) / 2 == x / 2 + Pow2(k - 1);
    }
  }

  lemma {:induction false} LowestBitAtLeast(x: nat, k: nat)
    requires Multiple(x, k) && x > 0
    ensures LowestBit(x) >= Pow2(k)
    decreases k
  {
    if k > 0 {
      LowestBitAtLeast(x / 2, k - 1);
    }
  }

  datatype Pair = Pair(u: nat, v: nat)

  /** One step of the generator. */
  function Next(p: Pair): Pair
    requires p.u > 0
  {
    if LowestBit(p.u) == p.v then Pair(p.u + 1, 1) else Pair(p.u, 2 * p.v)
  }

  function After(p: Pair, n: nat): (r: Pair)
    requires p.u > 0
    ensures r.u > 0
    decreases n
  {
    if n == 0 then p else Next(After(p, n - 1))
  }

  lemma {:induction false} AfterSum(p: Pair, a: nat, b: nat)
    requires p.u > 0
    ensures After(p, a + b) == After(After(p, a), b)
    decreases b
  {
    if b > 0 {
      AfterSum(p, a, b - 1);
    }
  }

  /** The terms of the second half repeat those of the first, and the last one
      is the power. */
  lemma LubySecond(k: nat, n: nat)
    requires k > 1 && Pow2(k - 1) <= n < Pow2(k)
    ensures Luby(n) == if n == Pow2(k) - 1 then Pow2(k - 1) else Luby(n - Pow2(k - 1) + 1)
  {
    BitLengthUnique(n, k);
  }

  lemma Pow2Twice(k: nat)
    requires k > 1
    ensures Pow2(k) == 2 * Pow2(k - 1) && Pow2(k - 1) == 2 * Pow2(k - 2) && Pow2(k - 2) >= 1
  {
  }

  /** From a multiple of `Pow2(k - 1)` plus one on, the generator gives the
      first `Pow2(k) - 1` terms and ends with the power itself. */
  lemma {:induction false} Block(k: nat, x: nat, i: nat)
    requires k > 0 && Multiple(x, k - 1) && i < Pow2(k) - 1
    ensures var r := After(Pair(x + 1, 1), i);
            && r.v == Luby(i + 1)
            && (i == Pow2(k) - 2 ==> r == Pair(x + Pow2(k - 1), Pow2(k - 1)))
    decreases k, i + 2
  {
    if k == 1 {
      assert i == 0;
    } else {
      hide *;
      MultipleLess(x, k - 1);
      Pow2Twice(k);
      if i < Pow2(k - 1) - 1 {
        Block(k - 1, x, i);
      } else {
        BlockSecond(k, x, i);
      }
    }
  }

  /** The second half of a block. */
  lemma {:induction false} BlockSecond(k: nat, x: nat, i: nat)
    requires k > 1 && Multiple(x, k - 1) && Pow2(k - 1) - 1 <= i < Pow2(k) - 1
    ensures var r := After(Pair(x + 1, 1), i);
            && r.v == Luby(i + 1)
            && (i == Pow2(k) - 2 ==> r == Pair(x + Pow2(k - 1), Pow2(k - 1)))
    decreases k, 1
  {
    hide *;
    MultipleLess(x, k - 1);
    MultipleAdd(x, k - 2);
    Pow2Twice(k);
    var rest := i - (Pow2(k - 1) - 1);
    SecondHalf(k, x);
    AfterSum(Pair(x + 1, 1), Pow2(k - 1) - 1, rest);
    LubySecond(k, i + 1);
    if rest < Pow2(k - 1) - 1 {
      Block(k - 1, x + Pow2(k - 2), rest);
    } else {
      LastOfBlock(k, x);
    }
  }

  /** After the first half comes the second one. */
  lemma {:induction false} SecondHalf(k: nat, x: nat)
    requires k > 1 && Multiple(x, k - 1)
    ensures After(Pair(x + 1, 1), Pow2(k - 1) - 1) == Pair(x + Pow2(k - 2) + 1, 1)
    decreases k, 0
  {
    MultipleLess(x, k - 1);
    Block(k - 1, x, Pow2(k - 1) - 2);
    LowestBitExact(x, k - 2);
  }

  /** The power itself comes after the second half. */
  lemma {:induction false} LastOfBlock(k: nat, x: nat)
    requires k > 1 && Multiple(x, k - 1)
    ensures After(Pair(x + Pow2(k - 2) + 1, 1), Pow2(k - 1) - 1) == Pair(x + Pow2(k - 1), Pow2(k - 1))
    decreases k, 0
  {
    MultipleLess(x, k - 1);
    MultipleAdd(x, k - 2);
    Block(k - 1, x + Pow2(k - 2), Pow2(k - 1) - 2);
    MultipleAdd(x, k - 1);
    LowestBitAtLeast(x + Pow2(k - 1), k - 1);
  }

  lemma {:induction false} MultipleZero(k: nat)
    ensures Multiple(0, k)
    decreases k
  {
    if k > 0 {
      MultipleZero(k - 1);
    }
  }

  /** The generator produces the Luby sequence. */
  lemma GeneratesLuby(n: nat)
    ensures After(Pair(1, 1), n).v == Luby(n + 1)
  {
    BitLengthBounds(n + 1);
    var k := BitLength(n + 1) + 1;
    MultipleZero(k - 1);
    Block(k, 0, n);
  }

  /** Terms before the last one of a block are smaller than its power. */
  lemma {:induction false} LubyBound(k: nat, n: nat)
    requires 0 < n < Pow2(k + 1)
    ensures if n == Pow2(k + 1) - 1 then Luby(n) == Pow2(k) else Luby(n) < Pow2(k) && 2 * Luby(n) <= Pow2(k)
    decreases k
  {
    if k == 0 {
      BitLengthUnique(1, 1);
    } else if n < Pow2(k) {
      LubyBound(k - 1, n);
      Pow2Twice(k + 1);
    } else {
      Pow2Twice(k + 1);
      LubySecond(k + 1, n);
      if n < Pow2(k + 1) - 1 {
        LubyBound(k - 1, n - Pow2(k) + 1);
      }
    }
  }

  /** The Luby sequence reaches a limit of more than half of, and at most,
      `Pow2(k)` in its term `Pow2(k + 1) - 1` and not before: the terms up to
      there are those produced between two restarts. */
  lemma LimitReached(limit: nat, k: nat, n: nat)
    requires limit <= Pow2(k) < 2 * limit
    requires 0 < n < Pow2(k + 1)
    ensures Luby(n) >= limit <==> n == Pow2(k + 1) - 1
  {
    LubyBound(k, n);
  }

  /** In every generated pair the second word is a power of two not above the
      lowest set bit of the first one. */
  ghost predicate PairOk(p: Pair) {
    p.u > 0 && PowerOfTwo(p.v) && p.v <= LowestBit(p.u)
  }

  lemma NextOk(p: Pair)
    requires PairOk(p)
    ensures PairOk(Next(p))
  {
    if LowestBit(p.u) != p.v {
      DoubledPower(p.u, p.v);
    }
  }

  lemma StartOk()
    ensures PairOk(Pair(1, 1)) && After(Pair(1, 1), 0) == Pair(1, 1)
  {
  }

  lemma PositiveTerm(p: Pair)
    requires PairOk(p)
    ensures p.u > 0 && p.v > 0
  {
  }

  /** The current term of a pair, and the next one. */
  lemma Terms(p: Pair, n: nat)
    requires p == After(Pair(1, 1), n) && PairOk(p)
    ensures p.v > 0 && p.v == Luby(n + 1)
    ensures var q := Next(p);
            q == After(Pair(1, 1), n + 1) && PairOk(q) && q.v > 0 && q.v == Luby(n + 2)
    ensures PairOk(Pair(1, 1)) && After(Pair(1, 1), 0) == Pair(1, 1)
  {
    assert Next(p) == After(Pair(1, 1), n + 1);
    GeneratesLuby(n);
    GeneratesLuby(n + 1);
    hide After, Luby;
    NextOk(p);
    PositiveTerm(p);
    PositiveTerm(Next(p));
    StartOk();
  }

  /** A power of two below the lowest set bit can be doubled. */
  lemma {:induction false} DoubledPower(u: nat, v: nat)
    requires u > 0 && PowerOfTwo(v) && v < LowestBit(u)
    ensures 2 * v <= LowestBit(u) && PowerOfTwo(2 * v)
    decreases v
  {
    if v == 1 {
    } else {
      assert u % 2 == 0 && v == 2 * (v / 2);
      DoubledPower(u / 2, v / 2);
    }
  }

  /** The length of an interval in ticks. */
  function Ticks(v: nat, period: nat): (t: nat)
    ensures v > 0 && period > 0 ==> t > 0
    ensures v == 1 ==> t == period
  {
    v * period
  }

  class Reluctant {
    var u: nat
    var v: nat
    var limit: nat
    var period: nat
    var countdown: nat
    var trigger: bool
    var limited: bool
    /** Intervals finished since the sequence started, and ticks counted in the
        current one. */
    ghost var finished: nat
    ghost var counted: nat

    ghost predicate Valid()
      reads this
    {
      period > 0 ==>
        && Pair(u, v) == After(Pair(1, 1), finished) && PairOk(Pair(u, v))
        && countdown + counted == Ticks(v, period) && (countdown > 0)
        && (trigger ==> counted == 0)
        && (limited && limit > 1 ==> v < limit)
    }

    constructor ()
      ensures Valid() && period == 0 && !trigger
    {
      period, trigger := 0, false;
    }

    method Enable(p: nat, l: int)
      requires p > 0
      modifies this
      ensures Valid() && period == p && !trigger && finished == 0 && counted == 0
      ensures limited <==> l > 0
      ensures l > 0 ==> limit == l
    {
      u, v := 1, 1;
      period, countdown := p, p;
      trigger := false;
      if l <= 0 {
        limited := false;
      } else {
        limited, limit := true, l;
      }
      finished, counted := 0, 0;
    }

    method Disable()
      modifies this
      ensures Valid() && period == 0 && !trigger
    {
      period, trigger := 0, false;
    }

    /** Counts a tick; the trigger is set when as many ticks were counted as
        the period times the current term of the Luby sequence. */
    method Tick()
      requires Valid()
      modifies this
      ensures Valid() && period == old(period) && limited == old(limited) && limit == old(limit)
      ensures period == 0 || old(trigger) ==> trigger == old(trigger) && counted == old(counted) && finished == old(finished)
      ensures period > 0 && !old(trigger) ==>
        (trigger <==> old(counted) + 1 == Ticks(Luby(old(finished) + 1), period))
      ensures period > 0 && !old(trigger) && !trigger ==> counted == old(counted) + 1 && finished == old(finished)
      ensures period > 0 && !old(trigger) && trigger ==>
        counted == 0 && finished == if limited && Luby(old(finished) + 2) >= limit then 0 else old(finished) + 1
    {
      if period == 0 || trigger {
        return;
      }
      Terms(Pair(u, v), finished);
      hide After, Luby, PairOk, Ticks, LowestBit;
      countdown := countdown - 1;
      counted := counted + 1;
      if countdown > 0 {
        return;
      }
      if LowestBit(u) == v {
        u, v := u + 1, 1;
      } else {
        v := 2 * v;
      }
      finished := finished + 1;
      if limited && v >= limit {
        u, v := 1, 1;
        finished := 0;
      }
      countdown := Ticks(v, period);
      counted := 0;
      trigger := true;
    }

    /** Reads and resets the trigger. */
    method Triggered() returns (res: bool)
      requires Valid()
      modifies `trigger
      ensures Valid() && res == old(trigger) && !trigger
    {
      if !trigger {
        return false;
      }
      trigger := false;
      return true;
    }
  }
}
