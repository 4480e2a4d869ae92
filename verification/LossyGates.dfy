/** Two concrete states in which a satisfied clause is taken for a gate clause,
    of an if-then-else and of an XOR gate.  The clauses found do not define the
    pivot, and resolving gate clauses with the others only loses a resolvent. */
module LossyGates {
  import opened Logic
  import opened Bits
  import opened SignMasks
  import opened Reconstruction
  import opened ElimState
  import opened VariableElimination
  import opened Gates
  import opened MatchedGates
  import opened MoreGates
  import opened XorGates

  /** Clauses 0 to 3 are the gate for pivot 1; the unit 5 satisfies clause 0. */
  function GateLits(xor: bool, id: nat): seq<int> {
    if id == 0 then [1, 2, 3, 5]
    else if id == 1 then (if xor then [-1, -2, 3] else [1, -2, 4])
    else if id == 2 then (if xor then [-1, 2, -3] else [-1, 2, -3])
    else if id == 3 then (if xor then [1, -2, -3] else [-1, -2, -4])
    else if id == 4 then [1, 6] else [-1, 7]
  }

  function Lossy(xor: bool): State {
    State(map id: nat | id < 6 :: IrredundantClause(GateLits(xor, id), false, id < 4), [5], false)
  }

  /** What is left after elimination by substitution holds: the part without the
      pivot and the resolvents of gate clauses with other clauses. */
  ghost predicate SubstitutionHolds(m: Model, s: State, pivot: int) {
    && ModelsFree(m, s, pivot)
    && forall c, d {:trigger Live(s, c), Live(s, d)} ::
         (Live(s, c) && Live(s, d) && s.clauses[c].gate != s.clauses[d].gate
          && pivot in s.clauses[c].lits && -pivot in s.clauses[d].lits) ==>
           ResolventHolds(m, s.clauses[c].lits, s.clauses[d].lits, pivot)
  }

  ghost predicate SameElsewhere(m: Model, m': Model, pivot: int) {
    forall v :: v != pivot ==> (v in m <==> v in m')
  }

  /** No value of the pivot makes the model one of the formula. */
  ghost predicate Beyond(m: Model, s: State, pivot: int) {
    forall m' {:trigger SameElsewhere(m, m', pivot)} :: SameElsewhere(m, m', pivot) ==> !ModelsAll(m', s)
  }

  lemma Two(a: int, b: int, l: int)
    ensures l in [a, b] <==> l == a || l == b
  {
    assert [a, b][0] == a && [a, b][1] == b;
  }

  lemma Three(a: int, b: int, c: int, l: int)
    ensures l in [a, b, c] <==> l == a || l == b || l == c
  {
    assert [a, b, c][0] == a && [a, b, c][1] == b && [a, b, c][2] == c;
  }

  lemma GateMembers(xor: bool, l: int)
    ensures l in GateLits(xor, 0) <==> l in {1, 2, 3, 5}
    ensures l in GateLits(xor, 1) <==> l in if xor then {-1, -2, 3} else {1, -2, 4}
    ensures l in GateLits(xor, 2) <==> l in {-1, 2, -3}
    ensures l in GateLits(xor, 3) <==> l in if xor then {1, -2, -3} else {-1, -2, -4}
    ensures l in GateLits(xor, 4) <==> l in {1, 6}
    ensures l in GateLits(xor, 5) <==> l in {-1, 7}
  {
    assert [1, 2, 3, 5][0] == 1 && [1, 2, 3, 5][1] == 2 && [1, 2, 3, 5][2] == 3 && [1, 2, 3, 5][3] == 5;
    Three(-1, -2, 3, l);
    Three(1, -2, 4, l);
    Three(-1, 2, -3, l);
    Three(1, -2, -3, l);
    Three(-1, -2, -4, l);
    Two(1, 6, l);
    Two(-1, 7, l);
  }

  lemma LossyFacts(xor: bool)
    ensures var s := Lossy(xor);
            && s.units == [5] && !s.unsat
            && (forall id: nat :: id in s.clauses <==> id < 6)
            && (forall id: nat {:trigger s.clauses[id]} :: id < 6 ==> s.clauses[id] == IrredundantClause(GateLits(xor, id), false, id < 4))
            && Val(s.units, 5) == 1 && Val(s.units, -5) == -1 && forall l :: l != 5 && l != -5 ==> Val(s.units, l) == 0
  {
    assert [5][0] == 5;
  }

  lemma LossyOk(xor: bool)
    ensures StateOk(Lossy(xor), 8)
  {
    var s := Lossy(xor);
    LossyFacts(xor);
    forall id | id in s.clauses ensures LitsOk(s.clauses[id].lits, 8) {
      forall l | l in GateLits(xor, id) ensures InRange(l, 8) && -l !in GateLits(xor, id) {
        GateMembers(xor, l);
        GateMembers(xor, -l);
      }
    }
  }

  lemma LossyLoose(xor: bool, id: nat, lits: set<int>)
    requires id < 4
    requires lits == if id == 0 then {1, 2, 3} else if id == 2 then {-1, 2, -3}
                     else if id == 1 then (if xor then {-1, -2, 3} else {1, -2, 4})
                     else (if xor then {1, -2, -3} else {-1, -2, -4})
    ensures Loose(Lossy(xor), id, lits)
  {
    var s := Lossy(xor);
    LossyFacts(xor);
    forall l ensures l in lits <==> l in GateLits(xor, id) && l != 5 {
      GateMembers(xor, l);
    }
    GateMembers(xor, -5);
    hide Lossy, GateLits, Val;
  }

  /** The variable 5 is true, all others are false. */
  lemma LossyRest(xor: bool, id: nat)
    requires id < 4
    ensures RestHolds(iset{5}, GateLits(xor, id), 1) && RestHolds(iset{5}, GateLits(xor, id), -1)
  {
    var l := if id == 0 then 5 else if id == 2 then -3 else -2;
    GateMembers(xor, l);
    hide GateLits;
    assert l in GateLits(xor, id) && Holds(iset{5}, l);
  }

  lemma LossyHolds(xor: bool)
    ensures SubstitutionHolds(iset{5}, Lossy(xor), 1)
  {
    var s, m := Lossy(xor), iset{5};
    LossyFacts(xor);
    GateMentions(xor);
    hide Lossy, GateLits, Val;
    assert forall u :: u in s.units ==> u == 5;
    assert Holds(m, 5);
    forall c: nat, d: nat | Live(s, c) && Live(s, d) && s.clauses[c].gate != s.clauses[d].gate
                  && 1 in s.clauses[c].lits && -1 in s.clauses[d].lits
      ensures ResolventHolds(m, s.clauses[c].lits, s.clauses[d].lits, 1)
    {
      LossyRest(xor, if c < 4 then c else d);
    }
  }

  lemma GateMentions(xor: bool)
    ensures forall id: nat :: id < 6 ==> Mentions(GateLits(xor, id), 1)
  {
    GateMembers(xor, 1);
    GateMembers(xor, -1);
  }

  lemma LossyBeyond(xor: bool)
    ensures Beyond(iset{5}, Lossy(xor), 1)
  {
    var s := Lossy(xor);
    LossyFacts(xor);
    forall m' | SameElsewhere(iset{5}, m', 1) ensures !ModelsAll(m', s) {
      assert 6 !in m' && 7 !in m';
      NotBoth(xor, m');
      assert Live(s, 4) && Live(s, 5);
    }
  }

  lemma NotBoth(xor: bool, m: Model)
    requires 6 !in m && 7 !in m
    ensures !Satisfies(m, GateLits(xor, 4)) || !Satisfies(m, GateLits(xor, 5))
  {
    if 1 in m {
      forall l | l in GateLits(xor, 5) ensures !Holds(m, l) {
        GateMembers(xor, l);
      }
    } else {
      forall l | l in GateLits(xor, 4) ensures !Holds(m, l) {
        GateMembers(xor, l);
      }
    }
  }

  lemma LossyNotRedundant(xor: bool)
    ensures !SatisfiedRedundant(Lossy(xor), Four(0, 1, 2, 3), 1) && !NoneTrue(Lossy(xor), Four(0, 1, 2, 3))
  {
    var s := Lossy(xor);
    LossyFacts(xor);
    LossyHolds(xor);
    GateMembers(xor, 5);
    assert 0 in Four(0, 1, 2, 3) && Live(s, 0);
    assert HasTrue(s, 0) by {
      assert 5 in s.clauses[0].lits && 5 in s.units;
    }
    forall l | l in s.clauses[0].lits && Val(s.units, l) == 0 && l != 1 && l != -1 ensures !Holds(iset{5}, l) {
      GateMembers(xor, l);
    }
    assert !OpenHolds(iset{5}, s, 0, 1);
    assert !OpenEntailed(s, 0, 1);
  }

  lemma SignedThree()
    ensures Signed([1, 2, 3], 3) == [-1, -2, 3] && Signed([1, 2, 3], 5) == [-1, 2, -3] && Signed([1, 2, 3], 6) == [1, -2, -3]
    ensures Parity(1) && Parity(2) && !Parity(3) && Parity(4) && !Parity(5) && !Parity(6)
    ensures CountEven(6) == 3 && Pow2(3) == 8 && Pow2(2) == 4
  {
    assert ShiftRight(3, 0) == 3 && ShiftRight(5, 0) == 5 && ShiftRight(6, 0) == 6 && ShiftRight(1, 0) == 1;
    assert ShiftRight(3, 1) == 1 && ShiftRight(5, 1) == 2 && ShiftRight(6, 1) == 3 && ShiftRight(1, 1) == 0 && ShiftRight(2, 1) == 1;
    assert ShiftRight(3, 2) == 0 && ShiftRight(5, 2) == 1 && ShiftRight(6, 2) == 1;
    assert !Parity(0) && Parity(1) && Parity(2) && !Parity(3) && Parity(4) && !Parity(5) && !Parity(6);
    assert CountEven(0) == 0 && CountEven(1) == 0 && CountEven(2) == 0 && CountEven(3) == 1 && CountEven(4) == 1 && CountEven(5) == 2;
    assert Pow2(1) == 2 && Pow2(2) == 4;
  }

  lemma SetOfThree(a: int, b: int, c: int)
    ensures SetOf([a, b, c]) == {a, b, c}
  {
    forall l ensures l in SetOf([a, b, c]) <==> l in {a, b, c} {
      Three(a, b, c, l);
    }
  }

  lemma LossyMasks(s: State)
    requires s == Lossy(true)
    ensures Loose(s, 0, SetOf([1, 2, 3]))
    ensures Loose(s, 1, SetOf(Signed([1, 2, 3], 3)))
    ensures Loose(s, 2, SetOf(Signed([1, 2, 3], 5)))
    ensures Loose(s, 3, SetOf(Signed([1, 2, 3], 6)))
  {
    hide *;
    SignedThree();
    SetOfThree(1, 2, 3);
    SetOfThree(-1, -2, 3);
    SetOfThree(-1, 2, -3);
    SetOfThree(1, -2, -3);
    LossyLoose(true, 0, {1, 2, 3});
    LossyLoose(true, 1, {-1, -2, 3});
    LossyLoose(true, 2, {-1, 2, -3});
    LossyLoose(true, 3, {1, -2, -3});
  }

  lemma OneTwoThree()
    ensures Distinct([1, 2, 3])
  {
  }

  lemma LossyXor()
    ensures XorClauses(Lossy(true), Four(0, 1, 2, 3), [1, 2, 3]) && Distinct([1, 2, 3])
  {
    hide *;
    var s, lits := Lossy(true), [1, 2, 3];
    OneTwoThree();
    SignedThree();
    LossyMasks(s);
    UpToStart(s, 0, lits);
    UpToNext(s, {0}, lits, 0, 3, 1);
    UpToNext(s, {0} + {1}, lits, 3, 5, 2);
    UpToNext(s, {0} + {1} + {2}, lits, 5, 6, 3);
    FourSum();
    UpToAll(s, Four(0, 1, 2, 3), lits, 6);
  }

  lemma FourSum()
    ensures {0} + {1} + {2} + {3} == Four(0, 1, 2, 3)
  {
  }

  /** Both searches accept the clauses 0 to 3, but they do not define the pivot:
      a model of what elimination keeps extends to no model of the formula. */
  lemma SatisfiedGateLoses(xor: bool)
    ensures var s, ids := Lossy(xor), Four(0, 1, 2, 3);
            && StateOk(s, 8)
            && (if xor then XorClauses(s, ids, [1, 2, 3]) else LooseIte(s, 0, 1, 2, 3, 1, 2, 3, 4))
            && Matched(s, ids, 1) && !SatisfiedRedundant(s, ids, 1) && !Definition(s, ids, 1)
            && SubstitutionHolds(iset{5}, s, 1) && Beyond(iset{5}, s, 1)
  {
    hide *;
    var s, ids := Lossy(xor), Four(0, 1, 2, 3);
    LossyOk(xor);
    if xor {
      LossyXor();
      assert [1, 2, 3][0] == 1 && 0 in ids by {
        FourHas(0, 1, 2, 3);
      }
      XorMatched(s, 8, ids, [1, 2, 3], 0);
    } else {
      LossyIte();
      IteMatched(s, 8, 0, 1, 2, 3, 1, 2, 3, 4);
    }
    LossyNotRedundant(xor);
    MatchedDefines(s, 8, ids, 1);
    LossyHolds(xor);
    LossyBeyond(xor);
  }

  lemma FourHas(a: nat, b: nat, c: nat, d: nat)
    ensures a in Four(a, b, c, d)
  {
  }

  lemma LossyIte()
    ensures LooseIte(Lossy(false), 0, 1, 2, 3, 1, 2, 3, 4)
  {
    hide Lossy, Loose;
    LossyLoose(false, 0, {1, 2, 3});
    LossyLoose(false, 1, {1, -2, 4});
    LossyLoose(false, 2, {-1, 2, -3});
    LossyLoose(false, 3, {-1, -2, -4});
  }
}
