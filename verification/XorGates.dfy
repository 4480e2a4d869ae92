/** XOR gates: all clauses obtained from one by negating an even number of its
    literals. */
module XorGates {
  import opened Logic
  import opened Bits
  import opened SignMasks
  import opened Reconstruction
  import opened ElimState
  import opened Elimination
  import opened VariableElimination
  import opened Gates
  import opened MatchedGates
  import opened MoreGates
  import Finite

  /** The literals negated where the mask has a bit. */
  function Signed(lits: seq<int>, signs: nat): (r: seq<int>)
    ensures |r| == |lits|
    ensures forall j :: 0 <= j < |lits| ==> r[j] == if Bit(signs, j) then -lits[j] else lits[j]
  {
    seq(|lits|, j requires 0 <= j < |lits| => if Bit(signs, j) then -lits[j] else lits[j])
  }

  function SetOf(lits: seq<int>): set<int> {
    set l | l in lits
  }

  /** Distinct variables. */
  ghost predicate Distinct(lits: seq<int>) {
    && (forall j :: 0 <= j < |lits| ==> lits[j] != 0)
    && (forall i, j :: 0 <= i < j < |lits| ==> lits[i] != lits[j] && lits[i] != -lits[j])
  }

  ghost predicate HasClause(s: State, ids: set<nat>, lits: seq<int>, mask: nat) {
    exists id :: id in ids && Loose(s, id, SetOf(Signed(lits, mask)))
  }

  ghost predicate IsMask(s: State, id: nat, lits: seq<int>, mask: nat) {
    mask < Pow2(|lits|) && !Parity(mask) && Loose(s, id, SetOf(Signed(lits, mask)))
  }

  ghost predicate OnePerMask(s: State, ids: set<nat>, lits: seq<int>) {
    forall c, d, mask {:trigger IsMask(s, c, lits, mask), IsMask(s, d, lits, mask)} ::
      c in ids && d in ids && IsMask(s, c, lits, mask) && IsMask(s, d, lits, mask) ==> c == d
  }

  ghost predicate HasMask(s: State, id: nat, lits: seq<int>) {
    exists mask :: IsMask(s, id, lits, mask)
  }

  /** For every even mask there is one clause, and every clause has its mask. */
  ghost predicate XorClauses(s: State, ids: set<nat>, lits: seq<int>) {
    && OnePerMask(s, ids, lits)
    && (forall mask: nat {:trigger HasClause(s, ids, lits, mask)} :: mask < Pow2(|lits|) && !Parity(mask) ==>
          HasClause(s, ids, lits, mask))
    && (forall id {:trigger HasMask(s, id, lits)} :: id in ids ==> HasMask(s, id, lits))
  }

  lemma MaskClause(s: State, ids: set<nat>, lits: seq<int>, mask: nat) returns (id: nat)
    requires XorClauses(s, ids, lits) && mask < Pow2(|lits|) && !Parity(mask)
    ensures id in ids && Loose(s, id, SetOf(Signed(lits, mask)))
  {
    assert HasClause(s, ids, lits, mask);
    id :| id in ids && Loose(s, id, SetOf(Signed(lits, mask)));
  }

  lemma ClauseMask(s: State, ids: set<nat>, lits: seq<int>, id: nat) returns (mask: nat)
    requires XorClauses(s, ids, lits) && id in ids
    ensures mask < Pow2(|lits|) && !Parity(mask) && Loose(s, id, SetOf(Signed(lits, mask)))
  {
    assert HasMask(s, id, lits);
    mask :| IsMask(s, id, lits, mask);
  }

  /** The mask that makes all literals but the one at `p` false in the model. */
  lemma ForcingMask(lits: seq<int>, p: nat, m: Model) returns (mask: nat)
    requires p < |lits|
    ensures mask < Pow2(|lits|) && !Parity(mask)
    ensures forall j :: 0 <= j < |lits| && j != p ==> (Bit(mask, j) <==> Holds(m, lits[j]))
  {
    var bits := Values(lits, m);
    if XorAll(bits) {
      XorFlip(bits, p);
      bits := bits[p := !bits[p]];
    }
    MaskFacts(bits);
    mask := MaskOf(bits);
    forall j | 0 <= j < |lits| && j != p ensures Bit(mask, j) <==> Holds(m, lits[j]) {
      MaskBits(bits, j);
    }
  }

  ghost function Values(lits: seq<int>, m: Model): (r: seq<bool>)
    ensures |r| == |lits| && forall j :: 0 <= j < |lits| ==> (r[j] <==> Holds(m, lits[j]))
  {
    if lits == [] then [] else [Holds(m, lits[0])] + Values(lits[1..], m)
  }

  /** In every model the other literals of one clause are false. */
  lemma XorOpen(s: State, ids: set<nat>, lits: seq<int>, p: nat, m: Model)
    requires XorClauses(s, ids, lits) && Distinct(lits) && p < |lits|
    ensures SomeOpen(m, s, ids, lits[p])
  {
    hide XorClauses, Bit, Loose, OpenHolds;
    var mask := ForcingMask(lits, p, m);
    var r := Signed(lits, mask);
    var id := MaskClause(s, ids, lits, mask);
    forall l | l in SetOf(r) && l != lits[p] && l != -lits[p] ensures !Holds(m, l) {
      var j :| 0 <= j < |r| && r[j] == l;
      assert j != p;
    }
    LooseOpen(s, id, SetOf(r), lits[p], m);
  }

  lemma SignedDiffer(lits: seq<int>, a: nat, b: nat, j: nat)
    requires j < |lits| && Bit(a, j) != Bit(b, j)
    ensures Signed(lits, b)[j] == -Signed(lits, a)[j]
  {
  }

  /** The bits of two even masks differ apart from one position as well. */
  lemma OtherBit(a: nat, b: nat, n: nat, p: nat) returns (j: nat)
    requires a < Pow2(n) && b < Pow2(n) && p < n && a != b && Parity(a) == Parity(b)
    ensures j < n && j != p && Bit(a, j) != Bit(b, j)
  {
    if forall j :: 0 <= j < n && j != p ==> Bit(a, j) == Bit(b, j) {
      if Bit(a, p) == Bit(b, p) {
        SameBits(a, b, n);
      } else {
        ParityDiffers(a, b, n, p);
      }
    }
    j :| j < n && j != p && Bit(a, j) != Bit(b, j);
  }

  lemma XorOpposed(s: State, n: nat, ids: set<nat>, lits: seq<int>, p: nat, c: nat, d: nat)
    requires StateOk(s, n) && XorClauses(s, ids, lits) && Distinct(lits) && p < |lits|
    requires c in ids && d in ids && c != d
    ensures Opposed(s, c, d, lits[p])
  {
    hide StateOk, Bit, Loose, Opposed;
    var a := ClauseMask(s, ids, lits, c);
    var b := ClauseMask(s, ids, lits, d);
    assert IsMask(s, c, lits, a) && IsMask(s, d, lits, b);
    var j := OtherBit(a, b, |lits|, p);
    SignedDiffer(lits, a, b, j);
    var ra, rb := Signed(lits, a), Signed(lits, b);
    assert ra[j] in SetOf(ra) && rb[j] in SetOf(rb);
    LooseOpposed(s, n, c, SetOf(ra), d, SetOf(rb), lits[p], ra[j]);
  }

  lemma XorLive(s: State, ids: set<nat>, lits: seq<int>, p: nat, id: nat)
    requires XorClauses(s, ids, lits) && p < |lits| && id in ids
    ensures Live(s, id) && Mentions(s.clauses[id].lits, lits[p]) && Val(s.units, lits[p]) == 0
  {
    hide XorClauses, Bit;
    var mask := ClauseMask(s, ids, lits, id);
    var r := Signed(lits, mask);
    assert r[p] in SetOf(r);
  }

  /** The clauses for all even masks are a matched gate for each literal. */
  lemma XorMatched(s: State, n: nat, ids: set<nat>, lits: seq<int>, p: nat)
    requires StateOk(s, n) && XorClauses(s, ids, lits) && Distinct(lits) && p < |lits| && ids != {}
    ensures Matched(s, ids, lits[p])
  {
    hide StateOk, XorClauses, SomeOpen, Opposed, Mentions, Val;
    forall id | id in ids ensures Live(s, id) && Mentions(s.clauses[id].lits, lits[p]) {
      XorLive(s, ids, lits, p, id);
    }
    var some :| some in ids;
    XorLive(s, ids, lits, p, some);
    forall m ensures SomeOpen(m, s, ids, lits[p]) {
      XorOpen(s, ids, lits, p, m);
    }
    forall c, d | c in ids && d in ids && c != d ensures Opposed(s, c, d, lits[p]) {
      XorOpposed(s, n, ids, lits, p, c, d);
    }
    MatchedOf(s, ids, lits[p]);
  }

  /** They define each of their literals if and only if in those that have a true
      literal the others follow anyhow. */
  lemma XorDefines(s: State, n: nat, ids: set<nat>, lits: seq<int>, p: nat)
    requires StateOk(s, n) && XorClauses(s, ids, lits) && Distinct(lits) && p < |lits| && ids != {}
    ensures Definition(s, ids, lits[p]) <==> SatisfiedRedundant(s, ids, lits[p])
  {
    hide *;
    XorMatched(s, n, ids, lits, p);
    MatchedDefines(s, n, ids, lits[p]);
  }

  /* ---- the search ---- */

  /** The unassigned literals of a live clause. */
  method GetClause(e: Eliminator, id: nat) returns (ok: bool, lits: seq<int>)
    requires e.Valid() && id in e.clauses
    ensures ok <==> Live(e.S(), id)
    ensures ok ==> lits == Unassigned(e.units, e.clauses[id].lits, 0)
  {
    ok, lits := false, [];
    if e.clauses[id].garbage {
      return;
    }
    var c := e.clauses[id].lits;
    assert LitsOk(c, e.range);
    for i := 0 to |c|
      invariant lits == Unassigned(e.units, c[..i], 0)
    {
      assert c[i] in c;
      UnassignedStep(e.units, c, i, 0);
      if Val(e.units, c[i]) == 0 {
        lits := lits + [c[i]];
      }
    }
    assert c[..|c|] == c;
    ok := true;
  }

  lemma ClauseLits(s: State, n: nat, id: nat)
    requires StateOk(s, n) && Live(s, id)
    ensures var lits := Unassigned(s.units, s.clauses[id].lits, 0);
            Loose(s, id, SetOf(lits)) && Distinct(lits)
            && forall l :: l in lits <==> l in s.clauses[id].lits && Val(s.units, l) == 0
  {
    var c := s.clauses[id].lits;
    var lits := Unassigned(s.units, c, 0);
    assert LitsOk(c, n);
    forall l ensures l in lits <==> l in c && Val(s.units, l) == 0 {
      UnassignedMembers(s.units, c, 0, l);
      assert l in c ==> l != 0;
    }
    UnassignedNoDup(s.units, c, 0);
    hide Unassigned;
    forall j | 0 <= j < |lits| ensures lits[j] != 0 {
      assert lits[j] in lits;
    }
    forall i, j | 0 <= i < j < |lits| ensures lits[i] != -lits[j] {
      assert lits[i] in lits && lits[j] in lits && lits[j] in c && -lits[j] !in c;
    }
  }

  /** Whether the unassigned literals of a clause are the given ones. */
  method IsClause(e: Eliminator, id: nat, lits: seq<int>) returns (ok: bool)
    requires e.Valid() && id in e.clauses && NoDup(lits)
    ensures ok <==> Loose(e.S(), id, SetOf(lits))
  {
    hide Loose, OccsOk;
    LooseSize(e.S(), id, lits);
    NotLive(e.S(), id, SetOf(lits));
    if e.clauses[id].garbage || |e.clauses[id].lits| < |lits| {
      return false;
    }
    var c := e.clauses[id].lits;
    assert LitsOk(c, e.range);
    ghost var seen: set<int> := {};
    var found := 0;
    for i := 0 to |c|
      invariant found == |seen| && seen <= SetOf(lits) && found <= |lits|
      invariant forall l :: l in seen <==> l in c[..i] && Val(e.units, l) == 0
    {
      var lit := c[i];
      assert c[..i + 1] == c[..i] + [lit] && lit !in c[..i];
      if Val(e.units, lit) == 0 {
        if lit !in lits {
          Unmatched(e.S(), id, lits, lit);
          return false;
        }
        found := found + 1;
        seen := seen + {lit};
        if found > |lits| {
          LooseSeen(e.S(), id, lits, seen);
          return false;
        }
      }
    }
    assert c[..|c|] == c;
    ok := found == |lits|;
    LooseSeen(e.S(), id, lits, seen);
    if ok {
      FullSet(seen, lits);
      AllSeen(e.S(), id, seen);
    }
  }

  lemma NotLive(s: State, id: nat, lits: set<int>)
    ensures Loose(s, id, lits) ==> Live(s, id)
  {
  }

  lemma Unmatched(s: State, id: nat, lits: seq<int>, lit: int)
    requires id in s.clauses && lit in s.clauses[id].lits && Val(s.units, lit) == 0 && lit !in lits
    ensures !Loose(s, id, SetOf(lits))
  {
    assert lit !in SetOf(lits);
  }

  lemma AllSeen(s: State, id: nat, seen: set<int>)
    requires Live(s, id) && forall l :: l in seen <==> l in s.clauses[id].lits && Val(s.units, l) == 0
    ensures Loose(s, id, seen)
  {
  }

  /** The literals of a matched clause are not fewer than those matched. */
  lemma LooseSize(s: State, id: nat, lits: seq<int>)
    requires id in s.clauses && NoDup(lits)
    ensures Loose(s, id, SetOf(lits)) ==> |lits| <= |s.clauses[id].lits|
  {
    var c := s.clauses[id].lits;
    if Loose(s, id, SetOf(lits)) {
      forall l | l in lits ensures l in c {
        assert l in SetOf(lits);
      }
      Finite.NotLonger(lits, c);
    }
  }

  /** Unassigned literals of a matched clause are not more than those matched,
      and if all are seen they are as many. */
  lemma LooseSeen(s: State, id: nat, lits: seq<int>, seen: set<int>)
    requires id in s.clauses && NoDup(lits)
    requires forall l :: l in seen ==> l in s.clauses[id].lits && Val(s.units, l) == 0
    ensures Loose(s, id, SetOf(lits)) ==> |seen| <= |lits|
    ensures Loose(s, id, SetOf(lits)) && (forall l :: l in s.clauses[id].lits && Val(s.units, l) == 0 ==> l in seen) ==>
      |seen| == |lits|
  {
    Finite.DistinctCount(lits);
    assert SetOf(lits) == Finite.Elements(lits);
    if Loose(s, id, SetOf(lits)) {
      forall l | l in seen ensures l in SetOf(lits) {
      }
      Finite.CardinalityMonotone(seen, SetOf(lits));
      if forall l :: l in s.clauses[id].lits && Val(s.units, l) == 0 ==> l in seen {
        assert seen == SetOf(lits);
      }
    }
  }

  lemma FullSet(seen: set<int>, lits: seq<int>)
    requires seen <= SetOf(lits) && |seen| == |lits| && NoDup(lits)
    ensures seen == SetOf(lits)
  {
    Finite.DistinctCount(lits);
    assert SetOf(lits) == Finite.Elements(lits);
    forall l | l in SetOf(lits) ensures l in seen {
      if l !in seen {
        Finite.CardinalityMonotone(seen, SetOf(lits) - {l});
      }
    }
  }

  /** A clause with these unassigned literals, from the shortest list. */
  method FindClause(e: Eliminator, lits: seq<int>) returns (found: bool, id: nat)
    requires e.Valid() && NoDup(lits)
    ensures found ==> Loose(e.S(), id, SetOf(lits))
    ensures !found && Complete(e.S(), e.occs) && lits != [] ==> forall x :: !Loose(e.S(), x, SetOf(lits))
  {
    var best, len := 0, 0;
    for i := 0 to |lits|
      invariant if i == 0 then best == 0 else best in lits
    {
      assert lits[i] in lits;
      var l := |OccList(e.occs, lits[i])|;
      if best == 0 || l < len {
        len, best := l, lits[i];
      }
    }
    var os := OccList(e.occs, best);
    found, id := false, 0;
    for i := 0 to |os|
      invariant !found && forall k :: 0 <= k < i ==> !Loose(e.S(), os[k], SetOf(lits))
    {
      assert OccList(e.occs, best)[i] in e.clauses;
      found := IsClause(e, os[i], lits);
      if found {
        return true, os[i];
      }
    }
    if lits != [] {
      assert best in SetOf(lits);
      ListedAll(e.S(), e.occs, best, SetOf(lits));
    }
  }

  /** Flips the literals in whose bits the two masks differ. */
  method FlipSigns(orig: seq<int>, lits: seq<int>, prev: nat, signs: nat) returns (r: seq<int>)
    requires lits == Signed(orig, prev)
    ensures r == Signed(orig, signs)
  {
    r := lits;
    for j := 0 to |lits|
      invariant |r| == |orig|
      invariant forall k :: 0 <= k < j ==> r[k] == Signed(orig, signs)[k]
      invariant forall k :: j <= k < |r| ==> r[k] == lits[k]
    {
      if Bit(prev, j) != Bit(signs, j) {
        r := r[j := -r[j]];
      }
    }
  }

  lemma SignedNoDup(lits: seq<int>, signs: nat)
    requires Distinct(lits)
    ensures NoDup(Signed(lits, signs))
  {
    hide Bit;
  }

  /** Clauses for all even masks up to `signs`. */
  ghost predicate UpTo(s: State, ids: set<nat>, lits: seq<int>, signs: nat) {
    && OnePerMask(s, ids, lits)
    && (forall mask: nat {:trigger HasClause(s, ids, lits, mask)} :: mask <= signs && !Parity(mask) ==> HasClause(s, ids, lits, mask))
    && (forall id {:trigger HasMaskTo(s, id, lits, signs)} :: id in ids ==> HasMaskTo(s, id, lits, signs))
  }

  ghost predicate HasMaskTo(s: State, id: nat, lits: seq<int>, signs: nat) {
    exists mask: nat :: mask <= signs && IsMask(s, id, lits, mask)
  }

  lemma UpToStart(s: State, id: nat, lits: seq<int>)
    requires Loose(s, id, SetOf(lits))
    ensures UpTo(s, {id}, lits, 0)
  {
    MaskZero(lits);
    PowPositive(|lits|);
    assert IsMask(s, id, lits, 0);
    assert id in {id} && HasClause(s, {id}, lits, 0);
  }

  lemma PowPositive(n: nat)
    ensures Pow2(n) >= 1
  {
  }

  lemma {:induction false} NoBit(j: nat)
    ensures !Bit(0, j)
  {
    ShiftZero(j);
  }

  /** A clause has one mask only. */
  lemma MaskUnique(s: State, id: nat, lits: seq<int>, a: nat, b: nat)
    requires Distinct(lits) && IsMask(s, id, lits, a) && IsMask(s, id, lits, b)
    ensures a == b
  {
    var ra, rb := Signed(lits, a), Signed(lits, b);
    assert SetOf(ra) == SetOf(rb);
    forall j | 0 <= j < |lits| ensures Bit(a, j) == Bit(b, j) {
      assert ra[j] in SetOf(ra);
      var k :| 0 <= k < |rb| && rb[k] == ra[j];
      assert k == j;
    }
    SameBits(a, b, |lits|);
  }

  lemma UpToNext(s: State, ids: set<nat>, lits: seq<int>, prev: nat, signs: nat, id: nat)
    requires UpTo(s, ids, lits, prev) && prev < signs < Pow2(|lits|) && !Parity(signs) && Distinct(lits)
    requires forall x :: prev < x < signs ==> Parity(x)
    requires Loose(s, id, SetOf(Signed(lits, signs)))
    ensures UpTo(s, ids + {id}, lits, signs)
  {
    hide Loose, Signed, Bit, Parity, SetOf, Distinct, Pow2;
    assert IsMask(s, id, lits, signs);
    forall mask: nat | mask <= signs && !Parity(mask) ensures HasClause(s, ids + {id}, lits, mask) {
      if mask <= prev {
        assert HasClause(s, ids, lits, mask);
        var x :| x in ids && Loose(s, x, SetOf(Signed(lits, mask)));
        assert x in ids + {id};
      } else {
        assert mask == signs && id in ids + {id};
      }
    }
    forall x | x in ids + {id} ensures HasMaskTo(s, x, lits, signs) {
      if x in ids {
        assert HasMaskTo(s, x, lits, prev);
        var mask: nat :| mask <= prev && IsMask(s, x, lits, mask);
      }
    }
    NextUnique(s, ids, lits, prev, signs, id);
  }

  lemma NextUnique(s: State, ids: set<nat>, lits: seq<int>, prev: nat, signs: nat, id: nat)
    requires UpTo(s, ids, lits, prev) && prev < signs && Distinct(lits) && IsMask(s, id, lits, signs)
    ensures OnePerMask(s, ids + {id}, lits)
  {
    hide IsMask;
    forall c, d, mask: nat | c in ids + {id} && d in ids + {id} && IsMask(s, c, lits, mask) && IsMask(s, d, lits, mask)
      ensures c == d
    {
      if c in ids {
        EarlierMask(s, ids, lits, prev, c, mask);
      }
      if d in ids {
        EarlierMask(s, ids, lits, prev, d, mask);
      }
      if c == id {
        MaskUnique(s, id, lits, mask, signs);
      }
      if d == id {
        MaskUnique(s, id, lits, mask, signs);
      }
    }
  }

  lemma EarlierMask(s: State, ids: set<nat>, lits: seq<int>, prev: nat, c: nat, mask: nat)
    requires UpTo(s, ids, lits, prev) && c in ids && IsMask(s, c, lits, mask) && Distinct(lits)
    ensures mask <= prev
  {
    assert HasMaskTo(s, c, lits, prev);
    var other: nat :| other <= prev && IsMask(s, c, lits, other);
    MaskUnique(s, c, lits, mask, other);
  }

  lemma UpToAll(s: State, ids: set<nat>, lits: seq<int>, signs: nat)
    requires UpTo(s, ids, lits, signs) && |lits| > 0 && CountEven(signs) == Pow2(|lits| - 1) - 1 && signs < Pow2(|lits|)
    ensures XorClauses(s, ids, lits)
  {
    EvenTotal(Pow2(|lits| - 1));
    hide Loose, Signed, Bit, Parity, SetOf, CountEven, OnePerMask;
    forall mask: nat | mask < Pow2(|lits|) && !Parity(mask) ensures HasClause(s, ids, lits, mask) {
      if mask > signs {
        NoneBetween(signs, Pow2(|lits|) - 1, mask);
      }
    }
    forall id | id in ids ensures HasMask(s, id, lits) {
      assert HasMaskTo(s, id, lits, signs);
      var mask: nat :| mask <= signs && IsMask(s, id, lits, mask);
    }
  }

  /** Some even mask has no live clause. */
  ghost predicate Incomplete(s: State, lits: seq<int>) {
    exists mask: nat {:trigger MissingMask(s, lits, mask)} :: MissingMask(s, lits, mask)
  }

  ghost predicate MissingMask(s: State, lits: seq<int>, mask: nat) {
    mask < Pow2(|lits|) && !Parity(mask) && forall id :: !Loose(s, id, SetOf(Signed(lits, mask)))
  }

  /** Looks for all clauses that arise from one by an even number of negations. */
  method CompleteXor(e: Eliminator, id: nat, orig: seq<int>) returns (found: bool, gates: set<nat>)
    requires e.Valid() && Distinct(orig) && |orig| >= 3 && Loose(e.S(), id, SetOf(orig))
    ensures found ==> gates != {} && XorClauses(e.S(), gates, orig)
    ensures !found && Complete(e.S(), e.occs) ==> Incomplete(e.S(), orig)
  {
    MaskZero(orig);
    hide StateOk, UpTo, Loose, OccsOk, Complete, XorClauses, Incomplete;
    gates := {id};
    UpToStart(e.S(), id, orig);
    var lits := orig;
    var needed := Pow2(|orig| - 1) - 1;
    var signs := 0;
    EvenTotal(Pow2(|orig| - 1));
    assert needed > 0;
    while needed > 0
      invariant signs < Pow2(|orig|) && lits == Signed(orig, signs) && id in gates
      invariant UpTo(e.S(), gates, orig, signs)
      invariant needed + CountEven(signs) == Pow2(|orig| - 1) - 1 == CountEven(Pow2(|orig|) - 1)
    {
      ghost var x := SomeBetween(signs, Pow2(|orig|) - 1);
      var prev := signs;
      signs := NextEven(signs);
      lits := FlipSigns(orig, lits, prev, signs);
      SignedNoDup(orig, signs);
      var ok, other := FindClause(e, lits);
      if !ok {
        if Complete(e.S(), e.occs) {
          MaskMissing(e.S(), orig, signs);
        }
        return false, {};
      }
      UpToNext(e.S(), gates, orig, prev, signs, other);
      gates := gates + {other};
      needed := needed - 1;
    }
    UpToAll(e.S(), gates, orig, signs);
    found := true;
  }

  lemma MaskMissing(s: State, lits: seq<int>, mask: nat)
    requires mask < Pow2(|lits|) && !Parity(mask) && forall id :: !Loose(s, id, SetOf(Signed(lits, mask)))
    ensures Incomplete(s, lits)
  {
    assert MissingMask(s, lits, mask);
  }

  lemma MaskZero(lits: seq<int>)
    ensures Signed(lits, 0) == lits
  {
    forall j ensures !Bit(0, j) {
      NoBit(j);
    }
  }

  /** The unassigned literals of a clause. */
  function OpenLits(s: State, id: nat): seq<int>
    requires id in s.clauses
  {
    Unassigned(s.units, s.clauses[id].lits, 0)
  }

  /** The clause is the start of an XOR gate within the arity limit. */
  ghost predicate StartsXor(s: State, id: nat, arityLimit: int)
    requires id in s.clauses
  {
    3 <= |OpenLits(s, id)| <= arityLimit + 1 && Live(s, id) && !Incomplete(s, OpenLits(s, id))
  }

  /** The XOR gate that one clause with the pivot starts, if any. */
  method XorFrom(e: Eliminator, id: nat, pivot: int, arityLimit: int) returns (gates: set<nat>)
    requires e.Valid() && Val(e.units, pivot) == 0 && id in e.clauses && pivot in e.clauses[id].lits
    ensures gates != {} ==> Matched(e.S(), gates, pivot)
    ensures gates == {} && Complete(e.S(), e.occs) ==> !StartsXor(e.S(), id, arityLimit)
  {
    gates := {};
    hide XorClauses, Complete, Incomplete, Matched, Loose, NoDup;
    var ok, lits := GetClause(e, id);
    if ok && |lits| >= 3 && |lits| - 1 <= arityLimit {
      ClauseLits(e.S(), e.range, id);
      var found;
      found, gates := CompleteXor(e, id, lits);
      if found {
        assert pivot in lits;
        ghost var p: nat :| p < |lits| && lits[p] == pivot;
        XorMatched(e.S(), e.range, gates, lits, p);
      } else {
        gates := {};
      }
    }
  }

  /** Looks for an XOR gate; with complete occurrence lists one is found whenever
      a clause with the pivot starts one. */
  method FindXorGate(e: Eliminator, pivot: int, arityLimit: int) returns (gates: set<nat>)
    requires e.Valid() && Val(e.units, pivot) == 0
    ensures gates != {} ==> Matched(e.S(), gates, pivot)
    ensures gates == {} && Complete(e.S(), e.occs) ==> NoneStarts(e.S(), OccList(e.occs, pivot), arityLimit)
  {
    gates := {};
    var os := OccList(e.occs, pivot);
    Listing(e, pivot);
    hide *;
    for i := 0 to |os|
      invariant gates == {}
      invariant forall k :: 0 <= k < |os| ==> os[k] in e.clauses && pivot in e.clauses[os[k]].lits
      invariant Complete(e.S(), e.occs) ==> NoneStarts(e.S(), os[..i], arityLimit)
    {
      gates := XorFrom(e, os[i], pivot, arityLimit);
      if gates != {} {
        return;
      }
      NoneStartsNext(e.S(), os, i, arityLimit);
    }
    NoneStartsAll(e.S(), os, arityLimit);
  }

  /** None of the clauses starts an XOR. */
  ghost predicate NoneStarts(s: State, ids: seq<nat>, arityLimit: int) {
    forall id {:trigger Live(s, id)} :: id in ids && Live(s, id) ==> !StartsXor(s, id, arityLimit)
  }

  lemma Listing(e: Eliminator, pivot: int)
    requires e.Valid()
    ensures var os := OccList(e.occs, pivot);
            && (forall k :: 0 <= k < |os| ==> os[k] in e.clauses && pivot in e.clauses[os[k]].lits)
            && e.S().clauses == e.clauses && forall limit {:trigger NoneStarts(e.S(), os[..0], limit)} :: NoneStarts(e.S(), os[..0], limit)
  {
  }

  lemma NoneStartsNext(s: State, os: seq<nat>, i: nat, arityLimit: int)
    requires i < |os| && os[i] in s.clauses
    ensures NoneStarts(s, os[..i], arityLimit) && !StartsXor(s, os[i], arityLimit) ==> NoneStarts(s, os[..i + 1], arityLimit)
  {
    assert os[..i + 1] == os[..i] + [os[i]];
    hide StartsXor;
  }

  lemma NoneStartsAll(s: State, os: seq<nat>, arityLimit: int)
    ensures NoneStarts(s, os[..|os|], arityLimit) ==> NoneStarts(s, os, arityLimit)
  {
    assert os[..|os|] == os;
  }
}
