/** Whole runs of the online proof checker: any sequence of calls. */
module CheckerRuns {
  import opened Logic
  import opened CheckerState
  import opened CheckerTable
  import opened OnlineChecker

  datatype Call = AddOriginal(c: seq<int>) | AddDerived(c: seq<int>) | Delete(c: seq<int>)

  /** A run is aborted at the first rejected derivation or missing deletion. */
  datatype Verdict =
    | Aborted(at: nat)
    | Finished(inconsistent: bool, clauses: set<seq<int>>, units: seq<int>, binaries: set<(int, int)>)

  ghost function Originals(calls: seq<Call>): Formula {
    set i | 0 <= i < |calls| && calls[i].AddOriginal? :: calls[i].c
  }

  lemma OriginalsStep(calls: seq<Call>, i: nat)
    requires i < |calls|
    ensures Originals(calls[..i + 1]) == Originals(calls[..i]) + (if calls[i].AddOriginal? then {calls[i].c} else {})
  {
    var now, before := calls[..i + 1], calls[..i];
    forall c ensures c in Originals(now) <==> c in Originals(before) || (calls[i].AddOriginal? && c == calls[i].c) {
      if c in Originals(now) {
        var k :| 0 <= k < |now| && now[k].AddOriginal? && c == now[k].c;
        assert k < i ==> before[k] == now[k];
      }
      if c in Originals(before) {
        var k :| 0 <= k < |before| && before[k].AddOriginal? && c == before[k].c;
        assert now[k] == before[k];
      }
      assert now[i] == calls[i];
    }
  }

  /** Every derivation among the first `n` calls is entailed by the originals before it. */
  ghost predicate DerivedSound(calls: seq<Call>, n: nat) {
    forall i :: 0 <= i < n && i < |calls| && calls[i].AddDerived? ==> Entails(Originals(calls[..i]), calls[i].c)
  }

  lemma DerivedStep(calls: seq<Call>, i: nat)
    requires i < |calls| && DerivedSound(calls, i)
    requires calls[i].AddDerived? ==> Entails(Originals(calls[..i]), calls[i].c)
    ensures DerivedSound(calls, i + 1)
  {
    forall k | 0 <= k < i + 1 && calls[k].AddDerived? ensures Entails(Originals(calls[..k]), calls[k].c) {
      assert k < i || k == i;
    }
  }

  lemma NothingAdded(calls: seq<Call>)
    ensures Originals([]) == {} && DerivedSound(calls, 0)
  {
  }

  /** Soundness over whole runs: whatever the sequence of calls, every accepted
      derivation, every live clause, every root unit and every binary watch is
      entailed by the original clauses added so far, and an inconsistent
      checker means that these originals are unsatisfiable. */
  method Run(nonces: seq<nat>, calls: seq<Call>) returns (verdict: Verdict)
    requires |nonces| == 4
    requires forall i, l :: 0 <= i < |calls| && l in calls[i].c ==> l != 0
    ensures verdict.Aborted? ==> verdict.at < |calls| && !calls[verdict.at].AddOriginal?
    ensures DerivedSound(calls, if verdict.Aborted? then verdict.at else |calls|)
    ensures verdict.Finished? && verdict.inconsistent ==> Unsat(Originals(calls))
    ensures verdict.Finished? ==> forall c :: c in verdict.clauses ==> Entails(Originals(calls), c)
    ensures verdict.Finished? ==> forall l :: l in verdict.units ==> Entails(Originals(calls), [l])
    ensures verdict.Finished? ==> forall a, b :: (a, b) in verdict.binaries ==> Entails(Originals(calls), [a, b])
  {
    assert calls[..0] == [];
    NothingAdded(calls);
    hide Originals;
    hide DerivedSound;
    hide Shape;
    hide Propagating;
    hide DatabaseOk;
    hide Entails;
    hide Unsat;
    var checker := new Checker(nonces);
    for i := 0 to |calls|
      invariant checker.Valid() && checker.originals == Originals(calls[..i]) && fresh(checker)
      invariant DerivedSound(calls, i)
    {
      OriginalsStep(calls, i);
      match calls[i] {
        case AddOriginal(c) =>
          checker.AddOriginalClause(c);
          DerivedStep(calls, i);
        case AddDerived(c) =>
          var ok := checker.AddDerivedClause(c);
          if !ok {
            return Aborted(i);
          }
          DerivedStep(calls, i);
        case Delete(c) =>
          var outcome := checker.DeleteClause(c);
          if outcome.Missing? {
            return Aborted(i);
          }
          DerivedStep(calls, i);
      }
    }
    assert calls[..|calls|] == calls;
    var live, units, binaries := checker.Holdings();
    verdict := Finished(checker.inconsistent, live, units, binaries);
  }
}
