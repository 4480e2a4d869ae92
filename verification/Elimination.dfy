/** Bounded variable elimination: resolution with on-the-fly strengthening,
    root-level propagation over occurrence lists, adding resolvents and
    pushing the eliminated clauses on the extension stack. */
module Elimination {
  import opened Finite
  import opened Logic
  import opened Extension
  import opened Reconstruction
  import opened ElimState

  type Occs = map<int, seq<nat>>

  function OccList(occs: Occs, l: int): seq<nat> {
    if l in occs then occs[l] else []
  }

  ghost predicate OccsOk(clauses: Clauses, occs: Occs) {
    forall l, k :: 0 <= k < |OccList(occs, l)| ==>
                     OccList(occs, l)[k] in clauses && l in clauses[OccList(occs, l)[k]].lits
  }

  /** The occurrence list contains every live clause with the literal. */
  ghost predicate Occurs(s: State, ids: seq<nat>, lit: int) {
    && NoDup(ids)
    && (forall k :: 0 <= k < |ids| ==> ids[k] in s.clauses && lit in s.clauses[ids[k]].lits)
    && (forall id :: Live(s, id) && lit in s.clauses[id].lits ==> id in ids)
  }

  /** The occurrence lists of all unassigned literals are complete. */
  ghost predicate Indexed(s: State, occs: Occs) {
    forall l {:trigger OccList(occs, l)} :: Val(s.units, l) == 0 ==> Occurs(s, OccList(occs, l), l)
  }

  /** Without new clauses occurrence lists stay complete. */
  lemma IndexedKept(s: State, t: State, occs: Occs)
    requires Grows(s, t) && t.clauses.Keys == s.clauses.Keys
    ensures Indexed(s, occs) ==> Indexed(t, occs)
  {
    forall l | Indexed(s, occs) && Val(t.units, l) == 0 ensures Occurs(t, OccList(occs, l), l) {
      assert Val(s.units, l) == 0;
      assert Occurs(s, OccList(occs, l), l);
    }
  }

  /** No clause listed for the literal is live. */
  ghost predicate Dropped(t: State, occs: Occs, l: int) {
    forall id :: id in OccList(occs, l) ==> !Live(t, id)
  }

  lemma StillDropped(s: State, t: State, occs: Occs, l: int)
    requires Grows(s, t) && t.clauses.Keys == s.clauses.Keys && Dropped(s, occs, l)
    ensures Dropped(t, occs, l)
  {
  }

  /** The clauses that new units satisfy were dropped. */
  ghost predicate Propagated(s: State, t: State, occs: Occs) {
    !t.unsat ==> forall l :: l in t.units && l !in s.units ==> Dropped(t, occs, l)
  }

  lemma PropagatedTransitive(s: State, t: State, u: State, occs: Occs)
    requires Propagated(s, t, occs) && Propagated(t, u, occs)
    requires Grows(t, u) && u.clauses.Keys == t.clauses.Keys
    ensures Propagated(s, u, occs)
  {
    hide Dropped;
    forall l | !u.unsat && l in u.units && l !in s.units ensures Dropped(u, occs, l) {
      if l in t.units {
        StillDropped(t, u, occs, l);
      }
    }
  }

  lemma PropagatedNothing(s: State, t: State, occs: Occs)
    requires t.units == s.units
    ensures Propagated(s, t, occs)
  {
  }

  /** Work list of propagation: all new units are on it, and the clauses of the
      first `i` are dropped. */
  ghost predicate Working(s: State, t: State, occs: Occs, root: int, work: seq<int>, i: nat) {
    && i <= |work| && root in work
    && (forall l :: l in t.units && l !in s.units ==> l in work)
    && (!t.unsat ==> forall k :: 0 <= k < i ==> Dropped(t, occs, work[k]))
  }

  lemma WorkingMore(s: State, t: State, u: State, occs: Occs, root: int, work: seq<int>, more: seq<int>, i: nat)
    requires Working(s, t, occs, root, work, i) && u.units == t.units + more
    requires Grows(t, u) && u.clauses.Keys == t.clauses.Keys
    ensures Working(s, u, occs, root, work + more, i)
  {
    hide Dropped;
    forall k | !u.unsat && 0 <= k < i ensures Dropped(u, occs, (work + more)[k]) {
      StillDropped(t, u, occs, work[k]);
    }
  }

  lemma WorkingStart(s: State, occs: Occs, root: int)
    ensures Working(s, s, occs, root, [root], 0)
  {
  }

  /* ---- what propagation leaves ---- */

  /** Not false, or false by a unit that is still to be propagated. */
  predicate Open(units: seq<int>, pending: seq<int>, l: int) {
    -l !in units || -l in pending
  }

  ghost predicate TwoOpen(units: seq<int>, pending: seq<int>, c: Clause) {
    exists a, b :: a in c && b in c && a != b && Open(units, pending, a) && Open(units, pending, b)
  }

  /** Satisfied, or with two open literals. */
  ghost predicate Settled(units: seq<int>, pending: seq<int>, c: Clause) {
    (exists l :: l in c && l in units) || TwoOpen(units, pending, c)
  }

  /** So are the live clauses listed for the literal. */
  ghost predicate ListSettled(t: State, occs: Occs, l: int, pending: seq<int>) {
    forall id :: id in OccList(occs, l) && Live(t, id) ==> Settled(t.units, pending, t.clauses[id].lits)
  }

  ghost predicate Checked(t: State, occs: Occs, work: seq<int>, i: nat) {
    i <= |work| && forall k :: 0 <= k < i ==> ListSettled(t, occs, -work[k], work[i..])
  }

  /** The lists of literals that are unassigned, or the negation of the root,
      are complete. */
  ghost predicate ListsComplete(s: State, occs: Occs, root: int) {
    forall id, l :: Live(s, id) && l in s.clauses[id].lits && (l == -root || Val(s.units, l) == 0) ==> id in OccList(occs, l)
  }

  /** No live clause with a literal falsified by the root or a new unit is unit
      or empty. */
  ghost predicate UnitsSettled(t: State, before: seq<int>, root: int) {
    forall id, l :: Live(t, id) && l in t.clauses[id].lits && -l in t.units && (-l == root || -l !in before) ==>
      Settled(t.units, [], t.clauses[id].lits)
  }

  /** Complete lists are complete enough after one assignment. */
  lemma ListsKnown(s: State, occs: Occs, unit: int)
    requires Indexed(s, occs) && Val(s.units, unit) == 0
    ensures ListsComplete(WithUnit(s, unit), occs, unit)
  {
    var t := WithUnit(s, unit);
    forall id, l | Live(t, id) && l in t.clauses[id].lits && (l == -unit || Val(t.units, l) == 0) ensures id in OccList(occs, l) {
      assert Live(s, id) && Val(s.units, l) == 0;
      assert Occurs(s, OccList(occs, l), l);
    }
  }

  lemma SettledSince(t: State, before: seq<int>, unit: int)
    requires UnitsSettled(t, before + [unit], unit)
    ensures UnitsSettled(t, before, unit)
  {
    hide Settled;
    forall id, l | Live(t, id) && l in t.clauses[id].lits && -l in t.units && (-l == unit || -l !in before)
      ensures Settled(t.units, [], t.clauses[id].lits)
    {
      assert -l in before + [unit] ==> -l in before || -l == unit;
    }
  }

  lemma SettledMore(units: seq<int>, pending: seq<int>, more: seq<int>, c: Clause)
    requires Settled(units, pending, c)
    ensures Settled(units + more, pending + more, c)
  {
    if l :| l in c && l in units {
      assert l in units + more;
    } else {
      var a, b :| a in c && b in c && a != b && Open(units, pending, a) && Open(units, pending, b);
      assert Open(units + more, pending + more, a) && Open(units + more, pending + more, b);
    }
  }

  lemma SettledPending(units: seq<int>, pending: seq<int>, wider: seq<int>, c: Clause)
    requires Settled(units, pending, c)
    requires forall l :: l in c && -l in pending ==> -l in wider
    ensures Settled(units, wider, c)
  {
    if TwoOpen(units, pending, c) {
      var a, b :| a in c && b in c && a != b && Open(units, pending, a) && Open(units, pending, b);
      assert Open(units, wider, a) && Open(units, wider, b);
    }
  }

  /** One literal of the work list was propagated. */
  lemma CheckedNext(t: State, u: State, occs: Occs, work: seq<int>, more: seq<int>, i: nat)
    requires i < |work| && Checked(t, occs, work, i) && Grows(t, u) && u.units == t.units + more
    requires u.clauses.Keys == t.clauses.Keys
    requires ListSettled(u, occs, -work[i], more)
    requires forall id :: Live(u, id) && -work[i] in u.clauses[id].lits ==> id in OccList(occs, -work[i])
    ensures Checked(u, occs, work + more, i + 1)
  {
    var work', pending := work + more, work[i + 1..] + more;
    assert work'[i + 1..] == pending && work[i..] + more == [work[i]] + pending;
    forall k | 0 <= k < i + 1 ensures ListSettled(u, occs, -work'[k], pending) {
      assert work'[k] == work[k];
      hide ListSettled;
      if k < i {
        assert ListSettled(t, occs, -work[k], work[i..]);
        ListNext(t, u, occs, -work[k], work[i], work[i..], more, pending);
      } else {
        ListWider(u, occs, -work[i], more, pending);
      }
    }
  }

  lemma ListWider(t: State, occs: Occs, l: int, pending: seq<int>, wider: seq<int>)
    requires ListSettled(t, occs, l, pending) && forall x :: x in pending ==> x in wider
    ensures ListSettled(t, occs, l, wider)
  {
    hide Settled;
    forall id | id in OccList(occs, l) && Live(t, id) ensures Settled(t.units, wider, t.clauses[id].lits) {
      SettledPending(t.units, pending, wider, t.clauses[id].lits);
    }
  }

  lemma ListNext(t: State, u: State, occs: Occs, l: int, lit: int, old': seq<int>, more: seq<int>, pending: seq<int>)
    requires ListSettled(t, occs, l, old') && Grows(t, u) && u.units == t.units + more && u.clauses.Keys == t.clauses.Keys
    requires ListSettled(u, occs, -lit, more) && old' + more == [lit] + pending && forall x :: x in more ==> x in pending
    requires forall id :: Live(u, id) && -lit in u.clauses[id].lits ==> id in OccList(occs, -lit)
    ensures ListSettled(u, occs, l, pending)
  {
    hide Settled;
    forall id | id in OccList(occs, l) && Live(u, id) ensures Settled(u.units, pending, u.clauses[id].lits) {
      var c := u.clauses[id].lits;
      if -lit in c {
        SettledPending(u.units, more, pending, c);
      } else {
        SettledMore(t.units, old', more, c);
        SettledPending(u.units, old' + more, pending, c);
      }
    }
  }

  lemma FreshUnits(t: State, n: nat, before: seq<int>, more: seq<int>)
    requires StateOk(t, n) && t.units == before + more
    ensures forall l :: l in more ==> l !in before
  {
    forall l | l in more ensures l !in before {
      var k :| 0 <= k < |more| && more[k] == l;
      assert t.units[|before| + k] == l;
      forall j | 0 <= j < |before| ensures before[j] != l {
        assert t.units[j] == before[j];
      }
    }
  }

  lemma EarlierUnits(a: seq<int>, b: seq<int>)
    requires a <= b
    ensures forall l :: l in a ==> l in b
  {
  }

  lemma NothingChecked(t: State, occs: Occs, work: seq<int>)
    ensures Checked(t, occs, work, 0)
  {
  }

  lemma CheckedDropped(t: State, u: State, occs: Occs, work: seq<int>, i: nat)
    requires Checked(t, occs, work, i) && Grows(t, u) && u.units == t.units && u.clauses.Keys == t.clauses.Keys
    ensures Checked(u, occs, work, i)
  {
    forall k | 0 <= k < i ensures ListSettled(u, occs, -work[k], work[i..]) {
      assert ListSettled(t, occs, -work[k], work[i..]);
    }
  }

  /** The lists are complete for what is on the work list. */
  lemma WorkListed(s: State, t: State, n: nat, occs: Occs, root: int, l: int)
    requires ListsComplete(s, occs, root) && Grows(s, t) && t.clauses.Keys == s.clauses.Keys && StateOk(t, n)
    requires l in t.units && (l == root || l !in s.units)
    ensures forall id :: Live(t, id) && -l in t.clauses[id].lits ==> id in OccList(occs, -l)
  {
    assert -l !in t.units && -(-l) == l;
    forall id | Live(t, id) && -l in t.clauses[id].lits ensures id in OccList(occs, -l) {
      assert Live(s, id) && -l in s.clauses[id].lits && (-l == -root || Val(s.units, -l) == 0);
    }
  }

  lemma CheckedAll(s: State, t: State, n: nat, occs: Occs, root: int, work: seq<int>)
    requires ListsComplete(s, occs, root) && Grows(s, t) && t.clauses.Keys == s.clauses.Keys && StateOk(t, n)
    requires Checked(t, occs, work, |work|) && Working(s, t, occs, root, work, |work|)
    ensures UnitsSettled(t, s.units, root)
  {
    assert work[|work|..] == [];
    forall id, l | Live(t, id) && l in t.clauses[id].lits && -l in t.units && (-l == root || -l !in s.units)
      ensures Settled(t.units, [], t.clauses[id].lits)
    {
      assert -(-l) == l;
      WorkListed(s, t, n, occs, root, -l);
      var k :| 0 <= k < |work| && work[k] == -l;
      assert ListSettled(t, occs, -work[k], []);
    }
  }

  /** The first `i` clauses are settled. */
  ghost predicate FirstSettled(t: State, ids: seq<nat>, i: nat, pending: seq<int>) {
    forall k {:trigger ids[k]} :: 0 <= k < i && k < |ids| && Live(t, ids[k]) ==> Settled(t.units, pending, t.clauses[ids[k]].lits)
  }

  lemma FirstMore(t: State, u: State, ids: seq<nat>, i: nat, pending: seq<int>, more: seq<int>)
    requires FirstSettled(t, ids, i, pending) && Grows(t, u) && u.units == t.units + more && u.clauses.Keys == t.clauses.Keys
    requires i < |ids| && (Live(u, ids[i]) ==> Settled(u.units, [], u.clauses[ids[i]].lits))
    ensures FirstSettled(u, ids, i + 1, pending + more)
  {
    forall k | 0 <= k < i + 1 && Live(u, ids[k]) ensures Settled(u.units, pending + more, u.clauses[ids[k]].lits) {
      if k < i {
        SettledMore(t.units, pending, more, t.clauses[ids[k]].lits);
      } else {
        SettledPending(u.units, [], pending + more, u.clauses[ids[k]].lits);
      }
    }
  }

  lemma FirstNone(t: State, ids: seq<nat>)
    ensures FirstSettled(t, ids, 0, [])
  {
  }

  lemma FirstSkip(t: State, ids: seq<nat>, i: nat, pending: seq<int>)
    requires FirstSettled(t, ids, i, pending) && i < |ids| && !Live(t, ids[i])
    ensures FirstSettled(t, ids, i + 1, pending)
  {
  }

  lemma FirstAll(t: State, occs: Occs, l: int, pending: seq<int>)
    requires FirstSettled(t, OccList(occs, l), |OccList(occs, l)|, pending)
    ensures ListSettled(t, occs, l, pending)
  {
    hide Settled;
    var ids := OccList(occs, l);
    forall id | id in ids && Live(t, id) ensures Settled(t.units, pending, t.clauses[id].lits) {
      var k :| 0 <= k < |ids| && ids[k] == id;
    }
  }

  lemma OpenTwice(units: seq<int>, lits: seq<int>, i: nat, unit: int)
    requires i < |lits| && NoDup(lits) && unit in lits[..i] && Val(units, unit) == 0 && Val(units, lits[i]) == 0
    ensures TwoOpen(units, [], lits)
  {
    var k :| 0 <= k < i && lits[..i][k] == unit;
    assert lits[k] != lits[i] && lits[i] in lits && unit in lits;
    assert Open(units, [], unit) && Open(units, [], lits[i]);
  }

  lemma DroppedReflexive(s: State)
    ensures DroppedSatisfied(s, s)
  {
  }

  lemma DroppedGrows(s: State, t: State, pivot: int)
    requires Progress(s, t, pivot) && DroppedSatisfied(s, t)
    ensures Grows(s, t) && t.clauses.Keys == s.clauses.Keys
  {
  }

  lemma GrownDropped(s: State, t: State, u: State, pivot: int)
    requires Progress(s, t, pivot) && Progress(t, u, pivot) && DroppedSatisfied(s, t) && DroppedSatisfied(t, u)
    ensures DroppedSatisfied(s, u)
  {
    DroppedTransitive(s, t, u);
  }

  lemma WorkingNext(s: State, t: State, occs: Occs, root: int, work: seq<int>, i: nat)
    requires Working(s, t, occs, root, work, i) && i < |work| && (!t.unsat ==> Dropped(t, occs, work[i]))
    ensures Working(s, t, occs, root, work, i + 1)
  {
  }

  lemma WorkingDone(s: State, t: State, occs: Occs, root: int, work: seq<int>)
    requires Working(s, t, occs, root, work, |work|) || t.unsat
    ensures Propagated(s, t, occs) && (!t.unsat ==> Dropped(t, occs, root))
  {
    hide Dropped;
    forall l | !t.unsat && l in work ensures Dropped(t, occs, l) {
      var k :| 0 <= k < |work| && work[k] == l;
    }
  }

  ghost predicate Occurring(s: State, l: int) {
    exists id :: Live(s, id) && l in s.clauses[id].lits
  }

  /** No literal appears that was not in a live clause before. */
  ghost predicate NoNewLiterals(s: State, t: State) {
    forall l :: Occurring(t, l) ==> Occurring(s, l)
  }

  lemma LiteralsSame(s: State)
    ensures NoNewLiterals(s, s)
  {
  }

  lemma LiteralsTransitive(s: State, t: State, u: State)
    requires NoNewLiterals(s, t) && NoNewLiterals(t, u)
    ensures NoNewLiterals(s, u)
  {
  }

  lemma LiteralsKept(s: State, t: State)
    requires Grows(s, t) && t.clauses.Keys == s.clauses.Keys
    ensures NoNewLiterals(s, t)
  {
    forall l | Occurring(t, l) ensures Occurring(s, l) {
      var id :| Live(t, id) && l in t.clauses[id].lits;
      assert Live(s, id);
    }
  }

  lemma LiteralsAdded(s: State, id: nat, lits: seq<int>)
    requires id !in s.clauses && forall l :: l in lits ==> Occurring(s, l)
    ensures NoNewLiterals(s, WithClause(s, id, lits))
  {
    var t := WithClause(s, id, lits);
    forall l | Occurring(t, l) ensures Occurring(s, l) {
      var d :| Live(t, d) && l in t.clauses[d].lits;
      assert d != id ==> Live(s, d) && s.clauses[d].lits == t.clauses[d].lits;
    }
  }

  lemma StrongOccurring(s: State, id: nat, pivot: int)
    requires Live(s, id)
    ensures forall l :: l in Unassigned(s.units, s.clauses[id].lits, pivot) ==> Occurring(s, l)
  {
    forall l | l in Unassigned(s.units, s.clauses[id].lits, pivot) ensures Occurring(s, l) {
      UnassignedMembers(s.units, s.clauses[id].lits, pivot, l);
    }
  }

  lemma ResolventOccurring(s: State, cid: nat, did: nat, pivot: int, r: Clause)
    requires Live(s, cid) && Live(s, did) && IsResolvent(s.units, s.clauses[cid].lits, s.clauses[did].lits, pivot, r)
    ensures forall l :: l in r ==> Occurring(s, l)
  {
    forall l | l in r ensures Occurring(s, l) {
      assert ResolventLit(s.units, s.clauses[cid].lits, s.clauses[did].lits, pivot, l);
    }
  }

  lemma ProgressGrows(s: State, t: State, pivot: int)
    requires Progress(s, t, pivot)
    ensures Grows(s, t)
  {
  }

  /** The clause is connected to these of its literals. */
  ghost predicate Connecting(units: seq<int>, before: Occs, occs: Occs, id: nat, lits: seq<int>) {
    forall l {:trigger OccList(occs, l)} ::
      OccList(occs, l) == if l in lits && Val(units, l) == 0 then OccList(before, l) + [id] else OccList(before, l)
  }

  lemma NothingConnected(units: seq<int>, occs: Occs, id: nat)
    ensures Connecting(units, occs, occs, id, [])
  {
  }

  lemma ConnectingNext(units: seq<int>, before: Occs, occs: Occs, id: nat, lits: seq<int>, x: int)
    requires x !in lits && Connecting(units, before, occs, id, lits)
    ensures Val(units, x) == 0 ==> Connecting(units, before, occs[x := OccList(occs, x) + [id]], id, lits + [x])
    ensures Val(units, x) != 0 ==> Connecting(units, before, occs, id, lits + [x])
  {
    assert forall l :: l in lits + [x] <==> l in lits || l == x;
    UpdatedList(occs, x, OccList(occs, x) + [id]);
    hide Val, OccList;
  }

  lemma UpdatedList(occs: Occs, x: int, ids: seq<nat>)
    ensures forall l {:trigger OccList(occs[x := ids], l)} :: OccList(occs[x := ids], l) == if l == x then ids else OccList(occs, l)
  {
  }

  lemma PrefixNext(lits: seq<int>, i: nat)
    requires NoDup(lits) && i < |lits|
    ensures lits[i] in lits && lits[i] !in lits[..i] && lits[..i + 1] == lits[..i] + [lits[i]]
  {
  }

  /** A clause connected to its unassigned literals keeps the lists complete. */
  lemma ConnectedAll(s: State, before: Occs, occs: Occs, id: nat, lits: seq<int>)
    requires id !in s.clauses && OccsOk(s.clauses, before) && Connecting(s.units, before, occs, id, lits)
    ensures Indexed(s, before) ==> Indexed(WithClause(s, id, lits), occs)
  {
    var t := WithClause(s, id, lits);
    forall l | Indexed(s, before) && Val(t.units, l) == 0 ensures Occurs(t, OccList(occs, l), l) {
      assert Occurs(s, OccList(before, l), l);
      hide Val, OccList;
      WiderOccurs(s, OccList(before, l), OccList(occs, l), id, lits, l);
    }
  }

  lemma WiderOccurs(s: State, os: seq<nat>, more: seq<nat>, id: nat, lits: seq<int>, l: int)
    requires Occurs(s, os, l) && id !in s.clauses && more == if l in lits then os + [id] else os
    ensures Occurs(WithClause(s, id, lits), more, l)
  {
    var t := WithClause(s, id, lits);
    assert l in lits ==> more[|os|] == id;
    forall d | Live(t, d) && l in t.clauses[d].lits ensures d in more {
      if d != id {
        assert Live(s, d) && d in os;
        var k :| 0 <= k < |os| && os[k] == d;
        assert more[k] == d;
      }
    }
  }

  lemma AppendOccs(clauses: Clauses, occs: Occs, l: int, id: nat)
    requires OccsOk(clauses, occs) && id in clauses && l in clauses[id].lits
    ensures OccsOk(clauses, occs[l := OccList(occs, l) + [id]])
  {
    var occs' := occs[l := OccList(occs, l) + [id]];
    forall x, k | 0 <= k < |OccList(occs', x)|
      ensures OccList(occs', x)[k] in clauses && x in clauses[OccList(occs', x)[k]].lits
    {
      assert k < |OccList(occs, x)| ==> OccList(occs', x)[k] == OccList(occs, x)[k];
    }
  }

  /* ---- consequences of a state ---- */

  lemma UnitConsequence(s: State, id: nat, unit: int)
    requires Live(s, id)
    requires forall l :: l in s.clauses[id].lits && l != unit ==> l != 0 && -l in s.units
    ensures forall m :: ModelsAll(m, s) ==> Holds(m, unit)
  {
    forall m | ModelsAll(m, s) ensures Holds(m, unit) {
      assert Satisfies(m, s.clauses[id].lits);
      var l :| l in s.clauses[id].lits && Holds(m, l);
      assert l != unit ==> Holds(m, -l);
    }
  }

  lemma EmptyConsequence(s: State, id: nat)
    requires Live(s, id)
    requires forall l :: l in s.clauses[id].lits ==> l != 0 && -l in s.units
    ensures forall m :: !ModelsAll(m, s)
  {
    forall m ensures !ModelsAll(m, s) {
      if Satisfies(m, s.clauses[id].lits) {
        var l :| l in s.clauses[id].lits && Holds(m, l);
        assert -l in s.units && !Holds(m, -l);
      }
    }
  }

  /** A literal of the resolvent that is not yet assigned. */
  ghost predicate ResolventLit(units: seq<int>, c: Clause, d: Clause, pivot: int, l: int) {
    Val(units, l) == 0 && ((l in c && l != pivot) || (l in d && l != -pivot))
  }

  /** `r` is the resolvent without its false literals, and no literal is true. */
  ghost predicate IsResolvent(units: seq<int>, c: Clause, d: Clause, pivot: int, r: Clause) {
    && NoDup(r)
    && (forall l :: l in r <==> ResolventLit(units, c, d, pivot, l))
    && (forall l :: l in c && l != pivot ==> l !in units)
    && (forall l :: l in d && l != -pivot ==> l !in units)
  }

  /** The resolvent is longer than what is left of the antecedent, so it does
      not subsume it. */
  predicate NotSmaller(units: seq<int>, c: Clause, pivot: int, r: Clause) {
    |Unassigned(units, c, pivot)| < |r|
  }

  /** The resolvent follows from the units and the clauses without the pivot. */
  ghost predicate ResolventEntailed(s: State, c: Clause, d: Clause, pivot: int) {
    forall m :: ModelsFree(m, s, pivot) ==> ResolventHolds(m, c, d, pivot)
  }

  lemma ResolventConsequence(s: State, n: nat, cid: nat, did: nat, pivot: int, r: Clause)
    requires StateOk(s, n) && Live(s, cid) && Live(s, did)
    requires IsResolvent(s.units, s.clauses[cid].lits, s.clauses[did].lits, pivot, r)
    ensures forall m :: ModelsAll(m, s) ==> Satisfies(m, r)
  {
    var c, d := s.clauses[cid].lits, s.clauses[did].lits;
    forall m | ModelsAll(m, s) ensures Satisfies(m, r) {
      assert Satisfies(m, c) && Satisfies(m, d);
      var k :| k in c && Holds(m, k);
      var l :| l in d && Holds(m, l);
      var x := if k != pivot then k else l;
      assert -x in s.units ==> Holds(m, -x);
      assert x in r;
    }
  }

  /** A clause within the resolvent, free of the pivot, entails it. */
  lemma WithinResolvent(s: State, t: State, c: Clause, d: Clause, pivot: int, r: Clause)
    requires forall m :: ModelsFree(m, t, pivot) ==> Satisfies(m, r)
    requires forall l :: l in r ==> ResolventLit(s.units, c, d, pivot, l)
    ensures ResolventEntailed(t, c, d, pivot)
  {
    forall m | ModelsFree(m, t, pivot) ensures ResolventHolds(m, c, d, pivot) {
      assert Satisfies(m, r);
      var l :| l in r && Holds(m, l);
      assert ResolventLit(s.units, c, d, pivot, l);
    }
  }

  lemma ClashEntailed(s: State, c: Clause, d: Clause, pivot: int)
    requires Clashes(c, d, pivot) && pivot in c && -pivot !in c && 0 !in c
    requires -pivot in d && pivot !in d
    ensures ResolventEntailed(s, c, d, pivot)
  {
    var k :| k in d && k != -pivot && -k in c;
    forall m ensures ResolventHolds(m, c, d, pivot) {
      assert -k != pivot;
      assert Holds(m, k) || Holds(m, -k);
    }
  }

  lemma EntailedSymmetric(s: State, c: Clause, d: Clause, pivot: int)
    requires ResolventEntailed(s, c, d, pivot)
    ensures ResolventEntailed(s, d, c, -pivot)
  {
    var negated := -pivot;
    forall m | ModelsFree(m, s, negated) ensures ResolventHolds(m, d, c, negated) {
      assert ModelsFree(m, s, pivot);
      assert ResolventHolds(m, c, d, pivot);
    }
  }

  lemma ResolventSymmetric(units: seq<int>, c: Clause, d: Clause, pivot: int, r: Clause)
    requires IsResolvent(units, c, d, pivot, r)
    ensures IsResolvent(units, d, c, -pivot, r)
  {
    forall l ensures l in r <==> ResolventLit(units, d, c, -pivot, l) {
      assert l in r <==> ResolventLit(units, c, d, pivot, l);
    }
  }

  class Eliminator {
    const range: nat
    var clauses: Clauses
    var occs: Occs
    var units: seq<int>
    var unsat: bool
    var clause: seq<int>
    var nextId: nat

    ghost function S(): State
      reads this
    {
      State(clauses, units, unsat)
    }

    ghost predicate Valid()
      reads this
    {
      && StateOk(S(), range)
      && OccsOk(clauses, occs)
      && forall id :: id in clauses ==> id < nextId
    }

    /** All occurrence lists are complete. */
    ghost predicate Connected()
      reads this
    {
      Indexed(S(), occs)
    }

    lemma StillConnected(s: State, pivot: int)
      requires Progress(s, S(), pivot) && clauses.Keys == s.clauses.Keys
      ensures (Indexed(s, occs) ==> Connected()) && NoNewLiterals(s, S())
    {
      ProgressGrows(s, S(), pivot);
      IndexedKept(s, S(), occs);
      LiteralsKept(s, S());
    }

    /* ---- elementary changes ---- */

    method MarkGarbage(id: nat)
      requires id in clauses
      modifies this`clauses
      ensures S() == WithGarbage(old(S()), id)
    {
      clauses := clauses[id := clauses[id].(garbage := true)];
    }

    method AssignUnit(unit: int)
      modifies this`units
      ensures S() == WithUnit(old(S()), unit)
    {
      units := units + [unit];
    }

    method LearnEmptyClause()
      modifies this`unsat
      ensures S() == WithEmptyClause(old(S()))
    {
      unsat := true;
    }

    /* ---- propagation ---- */

    /** The first true literal, or else whether one or several are unassigned. */
    method Examine(lits: seq<int>) returns (satisfied: int, unit: int, several: bool)
      requires NoDup(lits) && forall l :: l in lits ==> l != 0
      ensures satisfied != 0 ==> satisfied in lits && satisfied in units
      ensures several && satisfied == 0 ==> TwoOpen(units, [], lits)
      ensures satisfied == 0 ==> forall l :: l in lits ==> l !in units
      ensures satisfied == 0 && unit == 0 ==> forall l :: l in lits ==> -l in units
      ensures satisfied == 0 && unit != 0 && !several ==> unit in lits && Val(units, unit) == 0
      ensures satisfied == 0 && unit != 0 && !several ==> forall l :: l in lits && l != unit ==> -l in units
    {
      satisfied, unit, several := 0, 0, false;
      var i := 0;
      while i < |lits|
        invariant 0 <= i <= |lits| && satisfied == 0
        invariant forall k :: 0 <= k < i ==> lits[k] !in units
        invariant unit == 0 ==> !several && forall k :: 0 <= k < i ==> -lits[k] in units
        invariant unit != 0 ==> unit in lits[..i] && unit in lits && Val(units, unit) == 0
        invariant several ==> TwoOpen(units, [], lits)
        invariant unit != 0 && !several ==> forall k :: 0 <= k < i && lits[k] != unit ==> -lits[k] in units
      {
        var lit := lits[i];
        assert lit in lits;
        if Val(units, lit) > 0 {
          satisfied := lit;
          return;
        } else if Val(units, lit) == 0 {
          if unit != 0 {
            OpenTwice(units, lits, i, unit);
            several := true;
          } else {
            unit := lit;
          }
        }
        i := i + 1;
      }
    }

    /** Visit the clauses in which a literal became false. */
    method PropagateFalse(lit: int, work: seq<int>, ghost pivot: int) returns (work': seq<int>)
      requires Valid() && !unsat
      modifies this`clauses, this`units, this`unsat
      ensures Valid() && Progress(old(S()), S(), pivot) && DroppedSatisfied(old(S()), S())
      ensures exists more :: work' == work + more && units == old(units) + more && (!unsat ==> ListSettled(S(), occs, -lit, more))
    {
      var ns := OccList(occs, -lit);
      ghost var s0, more: seq<int> := S(), [];
      work' := work;
      ProgressReflexive(S(), pivot);
      DroppedReflexive(S());
      assert work + [] == work && s0.units + [] == s0.units;
      hide Settled, FirstSettled, Progress, DroppedSatisfied, StateOk, ListSettled;
      FirstNone(S(), ns);
      var i := 0;
      while i < |ns| && !unsat
        invariant 0 <= i <= |ns|
        invariant Valid() && Progress(s0, S(), pivot) && DroppedSatisfied(s0, S())
        invariant work' == work + more && units == s0.units + more
        invariant !unsat ==> FirstSettled(S(), ns, i, more)
      {
        ghost var s := S();
        assert OccList(occs, -lit)[i] in clauses;
        var unit := VisitListed(ns, i, more, pivot);
        ProgressTransitive(s0, s, S(), pivot);
        DroppedTransitive(s0, s, S());
        if unit != 0 {
          assert units == s0.units + (more + [unit]);
          work' := work' + [unit];
          more := more + [unit];
        }
        i := i + 1;
      }
      if !unsat {
        FirstAll(S(), occs, -lit, more);
      }
    }

    /** Visit the next clause of a list, unless it is garbage. */
    method VisitListed(ns: seq<nat>, i: nat, ghost more: seq<int>, ghost pivot: int) returns (unit: int)
      requires Valid() && !unsat && i < |ns| && ns[i] in clauses && FirstSettled(S(), ns, i, more)
      modifies this`clauses, this`units, this`unsat
      ensures Valid() && Progress(old(S()), S(), pivot) && DroppedSatisfied(old(S()), S())
      ensures units == if unit != 0 then old(units) + [unit] else old(units)
      ensures !unsat ==> FirstSettled(S(), ns, i + 1, if unit != 0 then more + [unit] else more)
    {
      hide Settled, FirstSettled, Progress, DroppedSatisfied, StateOk;
      ghost var s := S();
      unit := 0;
      if clauses[ns[i]].garbage {
        FirstSkip(s, ns, i, more);
        ProgressReflexive(s, pivot);
        DroppedReflexive(s);
      } else {
        unit := VisitFalsified(ns[i], pivot);
        DroppedGrows(s, S(), pivot);
        if !unsat {
          if unit != 0 {
            FirstMore(s, S(), ns, i, more, [unit]);
          } else {
            assert more + [] == more && s.units + [] == s.units;
            FirstMore(s, S(), ns, i, more, []);
          }
        }
      }
    }

    /** Drop a satisfied clause, learn a unit or the empty clause from another. */
    method VisitFalsified(id: nat, ghost pivot: int) returns (found: int)
      requires Valid() && !unsat && Live(S(), id)
      modifies this`clauses, this`units, this`unsat
      ensures Valid() && Progress(old(S()), S(), pivot) && DroppedSatisfied(old(S()), S())
      ensures units == if found != 0 then old(units) + [found] else old(units)
      ensures !unsat && Live(S(), id) ==> Settled(units, [], clauses[id].lits)
    {
      found := 0;
      assert LitsOk(clauses[id].lits, range);
      var satisfied, unit, several := Examine(clauses[id].lits);
      if satisfied != 0 {
        SatisfiedProgress(S(), range, id, satisfied, pivot);
        MarkGarbage(id);
      } else if unit == 0 {
        EmptyConsequence(S(), id);
        EmptyClauseProgress(S(), pivot);
        LearnEmptyClause();
      } else if !several {
        UnitConsequence(S(), id, unit);
        UnitProgress(S(), range, unit, pivot);
        AssignUnit(unit);
        found := unit;
      } else {
        ProgressReflexive(S(), pivot);
      }
    }

    /** Drop the clauses satisfied by a literal. */
    method DropSatisfied(lit: int, ghost pivot: int)
      requires Valid() && lit in units
      modifies this`clauses
      ensures Valid() && Progress(old(S()), S(), pivot) && DroppedSatisfied(old(S()), S())
      ensures Dropped(S(), occs, lit)
    {
      var ps := OccList(occs, lit);
      ghost var s0 := S();
      ProgressReflexive(S(), pivot);
      var i := 0;
      while i < |ps|
        invariant 0 <= i <= |ps|
        invariant Valid() && Progress(s0, S(), pivot) && DroppedSatisfied(s0, S())
        invariant forall k :: 0 <= k < i ==> !Live(S(), ps[k])
      {
        var id := ps[i];
        assert OccList(occs, lit)[i] in clauses && lit in clauses[id].lits;
        if !clauses[id].garbage {
          ghost var s := S();
          SatisfiedProgress(S(), range, id, lit, pivot);
          MarkGarbage(id);
          ProgressTransitive(s0, s, S(), pivot);
          DroppedTransitive(s0, s, S());
        }
        i := i + 1;
      }
    }

    /** Propagate a unit and everything it implies over the occurrence lists. */
    method ElimPropagate(root: int, ghost pivot: int)
      requires Valid() && root in units
      modifies this`clauses, this`units, this`unsat
      ensures Valid() && Progress(old(S()), S(), pivot) && DroppedSatisfied(old(S()), S())
      ensures Propagated(old(S()), S(), occs) && (!unsat ==> Dropped(S(), occs, root))
      ensures !unsat && old(ListsComplete(S(), occs, root)) ==> UnitsSettled(S(), old(units), root)
    {
      hide Working, Progress, DroppedSatisfied, StateOk, OccsOk, Dropped, Propagated, ListsComplete, Checked, UnitsSettled, ListSettled;
      ghost var s0 := S();
      ProgressReflexive(S(), pivot);
      DroppedReflexive(S());
      UnitsBound();
      var work := [root];
      var i := 0;
      WorkingStart(S(), occs, root);
      NothingChecked(S(), occs, work);
      while i < |work| && !unsat
        invariant 0 <= i <= |work| <= 1 + |units| <= 1 + 2 * range
        invariant Valid() && Progress(s0, S(), pivot) && DroppedSatisfied(s0, S())
        invariant forall l :: l in work ==> l in units && (l == root || l !in s0.units)
        invariant Working(s0, S(), occs, root, work, i)
        invariant !unsat && ListsComplete(s0, occs, root) ==> Checked(S(), occs, work, i)
        decreases 1 + 2 * range - i
      {
        ghost var s := S();
        work := PropagateWork(root, work, i, s0, pivot);
        i := i + 1;
        UnitsBound();
        DroppedGrows(s0, s, pivot);
        ProgressTransitive(s0, s, S(), pivot);
        GrownDropped(s0, s, S(), pivot);
        EarlierUnits(s0.units, s.units);
      }
      WorkingDone(s0, S(), occs, root, work);
      if !unsat && ListsComplete(s0, occs, root) {
        DroppedGrows(s0, S(), pivot);
        CheckedAll(s0, S(), range, occs, root, work);
      }
    }

    /** Propagate one literal of the work list. */
    method PropagateWork(ghost root: int, work: seq<int>, i: nat, ghost s0: State, ghost pivot: int) returns (work': seq<int>)
      requires Valid() && !unsat && i < |work| && forall l :: l in work ==> l in units
      requires Working(s0, S(), occs, root, work, i)
      requires Progress(s0, S(), pivot) && DroppedSatisfied(s0, S()) && (work[i] == root || work[i] !in s0.units)
      requires ListsComplete(s0, occs, root) ==> Checked(S(), occs, work, i)
      modifies this`clauses, this`units, this`unsat
      ensures Valid() && Progress(old(S()), S(), pivot) && DroppedSatisfied(old(S()), S())
      ensures Working(s0, S(), occs, root, work', i + 1) && 0 <= |work'| - |work| == |units| - |old(units)|
      ensures forall l :: l in work' ==> l in units
      ensures forall l :: l in work' && l !in work ==> l !in old(units)
      ensures !unsat && ListsComplete(s0, occs, root) ==> Checked(S(), occs, work', i + 1)
    {
      hide Working, Progress, DroppedSatisfied, StateOk, OccsOk, Dropped, ListsComplete, Checked, ListSettled;
      var lit := work[i];
      ghost var s := S();
      work' := PropagateFalse(lit, work, pivot);
      ghost var more :| work' == work + more && units == old(units) + more && (!unsat ==> ListSettled(S(), occs, -lit, more));
      DroppedGrows(s, S(), pivot);
      FreshUnits(S(), range, s.units, more);
      WorkingMore(s0, s, S(), occs, root, work, more, i);
      if !unsat {
        ghost var t := S();
        if ListsComplete(s0, occs, root) {
          GrownDropped(s0, s, t, pivot);
          ProgressTransitive(s0, s, t, pivot);
          DroppedGrows(s0, t, pivot);
          WorkListed(s0, t, range, occs, root, lit);
          CheckedNext(s, t, occs, work, more, i);
        }
        DropSatisfied(lit, pivot);
        ProgressTransitive(s, t, S(), pivot);
        DroppedGrows(t, S(), pivot);
        GrownDropped(s, t, S(), pivot);
        WorkingMore(s0, t, S(), occs, root, work', [], i);
        assert work' + [] == work';
        if ListsComplete(s0, occs, root) {
          CheckedDropped(t, S(), occs, work', i + 1);
        }
      }
      WorkingNext(s0, S(), occs, root, work', i);
    }

    lemma UnitsBound()
      requires Valid()
      ensures |units| <= 2 * range
    {
      DistinctLiterals(units, range);
    }

    /* ---- resolution ---- */

    /** Collect the unassigned literals of the first antecedent. */
    method CollectFirst(lits: seq<int>, pivot: int) returns (satisfied: int, first: seq<int>)
      requires forall l :: l in lits ==> l != 0
      ensures satisfied != 0 ==> satisfied in lits && satisfied != pivot && satisfied in units
      ensures satisfied == 0 ==> first == Unassigned(units, lits, pivot)
      ensures satisfied == 0 ==> forall l :: l in lits && l != pivot ==> l !in units
    {
      satisfied, first := 0, [];
      var i := 0;
      while i < |lits|
        invariant 0 <= i <= |lits| && satisfied == 0
        invariant first == Unassigned(units, lits[..i], pivot)
        invariant forall k :: 0 <= k < i && lits[k] != pivot ==> lits[k] !in units
      {
        var lit := lits[i];
        assert lit in lits && lits[..i + 1][..i] == lits[..i];
        if lit != pivot {
          if Val(units, lit) > 0 {
            satisfied := lit;
            return;
          } else if Val(units, lit) == 0 {
            first := first + [lit];
          }
        }
        i := i + 1;
      }
      assert lits[..i] == lits;
    }

    /** Add the unassigned literals of the second antecedent, unless it is
        satisfied or clashes with the first. */
    method CollectSecond(lits: seq<int>, pivot: int, first: seq<int>)
      returns (satisfied: int, tautological: int, both: seq<int>, count: nat)
      requires forall l :: l in lits ==> l != 0
      requires NoDup(lits) && NoDup(first)
      ensures satisfied != 0 ==> satisfied in lits && satisfied != -pivot && satisfied in units
      ensures tautological != 0 ==> tautological in lits && tautological != -pivot && -tautological in first
      ensures satisfied == 0 && tautological == 0 ==>
                && NoDup(both) && count == |Unassigned(units, lits, -pivot)|
                && (forall l :: l in both <==> l in first || l in Unassigned(units, lits, -pivot))
                && (forall l :: l in lits && l != -pivot && Val(units, l) == 0 ==> -l !in first)
                && (forall l :: l in lits && l != -pivot ==> l !in units)
    {
      hide Unassigned;
      hide NoDup;
      var marked := set l | l in first;
      satisfied, tautological, both, count := 0, 0, first, 0;
      ghost var seen: seq<int> := [];
      UnassignedNone(units, -pivot);
      var i := 0;
      while i < |lits|
        invariant 0 <= i <= |lits| && satisfied == 0 && tautological == 0
        invariant seen == Unassigned(units, lits[..i], -pivot)
        invariant NoDup(both) && count == |seen|
        invariant forall l :: l in both <==> l in first || l in seen
        invariant forall k :: 0 <= k < i && lits[k] != -pivot && Val(units, lits[k]) == 0 ==> -lits[k] !in first
        invariant forall k :: 0 <= k < i && lits[k] != -pivot ==> lits[k] !in units
      {
        var lit := lits[i];
        assert lit in lits;
        UnassignedStep(units, lits, i, -pivot);
        if lit != -pivot && Val(units, lit) > 0 {
          satisfied := lit;
          return;
        } else if lit != -pivot && Val(units, lit) == 0 {
          if -lit in marked {
            tautological := lit;
            return;
          }
          if lit !in marked {
            NoDupAppend(both, lit);
            both := both + [lit];
          }
          count := count + 1;
          seen := seen + [lit];
        }
        i := i + 1;
      }
      assert lits[..i] == lits;
    }

    /* ---- strengthening ---- */

    /** Replace a clause by its literals other than `pivot` that are not false. */
    method ElimOnTheFlySelfSubsumption(id: nat, pivot: int)
      requires Valid() && Live(S(), id) && pivot in clauses[id].lits
      requires forall l :: l in clauses[id].lits && l != pivot ==> l !in units
      requires forall m :: ModelsAll(m, S()) ==> Satisfies(m, Unassigned(units, clauses[id].lits, pivot))
      modifies this`clauses, this`occs, this`nextId
      ensures Valid() && Progress(old(S()), S(), pivot)
      ensures forall m :: ModelsFree(m, S(), pivot) ==> Satisfies(m, Unassigned(units, old(clauses)[id].lits, pivot))
      ensures forall d :: d in old(clauses) && d != id ==> d in clauses && clauses[d] == old(clauses)[d]
      ensures id in clauses && clauses[id].garbage
      ensures (old(Connected()) ==> Connected()) && NoNewLiterals(old(S()), S())
    {
      hide Indexed, NoNewLiterals, Occurring;
      ghost var s0 := S();
      var lits := clauses[id].lits;
      var satisfied, strong := CollectFirst(lits, pivot);
      StrengthenedOk(s0, range, id, pivot);
      AddProgress(S(), range, nextId, strong, pivot);
      StrongOccurring(s0, id, pivot);
      LiteralsAdded(s0, nextId, strong);
      var r := nextId;
      AddIrredundantClause(strong);
      ghost var s1 := S();
      StrengthenedProgress(s1, range, id, r, pivot);
      hide StateOk, OccsOk, Progress, ModelsAll, ModelsFree, Unassigned;
      MarkGarbage(id);
      StillConnected(s1, pivot);
      LiteralsTransitive(s0, s1, S());
      ProgressTransitive(s0, s1, S(), pivot);
    }

    /** Drop the second antecedent subsumed by the strengthened first one. */
    method DropSubsumed(did: nat, pivot: int, ghost r: Clause)
      requires Valid() && did in clauses && -pivot in clauses[did].lits
      requires forall m :: ModelsFree(m, S(), pivot) ==> Satisfies(m, r)
      requires forall l :: l in r ==> l in clauses[did].lits && l != pivot && l != -pivot
      modifies this`clauses
      ensures S() == WithGarbage(old(S()), did)
      ensures Valid() && Progress(old(S()), S(), pivot)
      ensures forall m :: ModelsFree(m, S(), pivot) <==> old(ModelsFree(m, S(), pivot))
      ensures (old(Connected()) ==> Connected()) && NoNewLiterals(old(S()), S())
    {
      hide Indexed, NoNewLiterals, Occurring;
      ghost var s := S();
      SubsumedProgress(s, range, did, pivot, r);
      MarkGarbage(did);
      StillConnected(s, pivot);
    }

    /** Store a clause and connect its unassigned literals. */
    method AddIrredundantClause(lits: seq<int>)
      requires Valid() && LitsOk(lits, range)
      modifies this`clauses, this`occs, this`nextId
      ensures Valid() && S() == WithClause(old(S()), old(nextId), lits) && old(nextId) !in old(clauses)
      ensures old(Connected()) ==> Connected()
    {
      ghost var s, before := S(), occs;
      clauses := clauses[nextId := IrredundantClause(lits, false, false)];
      hide Connecting, Indexed;
      ConnectClause(nextId, lits);
      ConnectedAll(s, before, occs, nextId, lits);
      nextId := nextId + 1;
    }

    /** Connect the unassigned literals of a clause. */
    method ConnectClause(id: nat, lits: seq<int>)
      requires OccsOk(clauses, occs) && id in clauses && clauses[id].lits == lits && NoDup(lits)
      modifies this`occs
      ensures OccsOk(clauses, occs) && Connecting(units, old(occs), occs, id, lits)
    {
      hide Connecting, OccsOk, NoDup;
      NothingConnected(units, occs, id);
      for i := 0 to |lits|
        invariant OccsOk(clauses, occs) && Connecting(units, old(occs), occs, id, lits[..i])
      {
        PrefixNext(lits, i);
        ConnectingNext(units, old(occs), occs, id, lits[..i], lits[i]);
        if Val(units, lits[i]) == 0 {
          AppendOccs(clauses, occs, lits[i], id);
          occs := occs[lits[i] := OccList(occs, lits[i]) + [id]];
        }
      }
      assert lits[..|lits|] == lits;
    }

    /* ---- resolution ---- */

    /** Collect the resolvent of two live clauses, unless one of them is
        satisfied, and then dropped, or the resolvent is a tautology.  The
        literals of the antecedents that are not false are counted as well. */
    method CollectResolvent(cid: nat, pivot: int, did: nat) returns (collected: bool, both: seq<int>, m: nat, n: nat)
      requires Valid() && !unsat && Live(S(), cid) && Live(S(), did)
      requires pivot in clauses[cid].lits && -pivot in clauses[did].lits && Val(units, pivot) == 0
      modifies this`clauses
      ensures Valid() && Progress(old(S()), S(), pivot) && units == old(units)
      ensures (old(Connected()) ==> Connected()) && NoNewLiterals(old(S()), S())
      ensures !collected ==> ResolventEntailed(S(), old(clauses)[cid].lits, old(clauses)[did].lits, pivot)
      ensures collected ==> S() == old(S())
      ensures collected ==> IsResolvent(units, clauses[cid].lits, clauses[did].lits, pivot, both) && LitsOk(both, range)
      ensures collected ==> m == |Unassigned(units, clauses[cid].lits, pivot)| + 1
      ensures collected ==> n == |Unassigned(units, clauses[did].lits, -pivot)| + 1
    {
      hide Indexed, NoNewLiterals, Occurring, Progress, ModelsAll, ModelsFree, ResolventEntailed, IsResolvent;
      var c, d := clauses[cid].lits, clauses[did].lits;
      collected, both, m, n := false, [], 0, 0;
      LiteralsSame(S());
      ProgressReflexive(S(), pivot);
      var satisfied, first := CollectFirst(c, pivot);
      if satisfied != 0 {
        DropAntecedent(cid, satisfied, pivot);
        TrueInResolvent(S(), c, d, pivot, satisfied);
        return;
      }
      var tautological, count;
      UnassignedNoDup(units, c, pivot);
      satisfied, tautological, both, count := CollectSecond(d, pivot, first);
      if satisfied != 0 {
        DropAntecedent(did, satisfied, pivot);
        TrueInResolvent(S(), c, d, pivot, satisfied);
        return;
      }
      if tautological != 0 {
        UnassignedMembers(units, c, pivot, -tautological);
        ClashEntailed(S(), c, d, pivot);
        return;
      }
      CollectedResolvent(S(), range, cid, did, pivot, both);
      collected, m, n := true, |first| + 1, count + 1;
    }

    /** Resolve two live clauses, the first one not longer than the second. */
    method Resolve(cid: nat, pivot: int, did: nat, eagerly: bool) returns (res: bool)
      requires Valid() && !unsat && Live(S(), cid) && Live(S(), did)
      requires pivot in clauses[cid].lits && -pivot in clauses[did].lits && Val(units, pivot) == 0
      modifies this`clauses, this`occs, this`units, this`unsat, this`clause, this`nextId
      ensures Valid() && Progress(old(S()), S(), pivot)
      ensures res ==> S() == old(S())
      ensures res ==> IsResolvent(units, old(clauses)[cid].lits, old(clauses)[did].lits, pivot, clause)
      ensures res ==> |clause| >= 2 && LitsOk(clause, range)
      ensures res ==> NotSmaller(units, clauses[cid].lits, pivot, clause) && NotSmaller(units, clauses[did].lits, -pivot, clause)
      ensures !res ==> clause == []
      ensures !res ==> ResolventEntailed(S(), old(clauses)[cid].lits, old(clauses)[did].lits, pivot)
      ensures !eagerly ==> Val(units, pivot) == 0
      ensures (old(Connected()) ==> Connected()) && NoNewLiterals(old(S()), S())
    {
      hide Indexed, NoNewLiterals, Occurring, Progress, ModelsAll, ModelsFree, ResolventEntailed;
      ghost var s := S();
      ghost var c, d := clauses[cid].lits, clauses[did].lits;
      clause := [];
      res := false;
      var collected, both, m, n := CollectResolvent(cid, pivot, did);
      if !collected {
        return;
      }
      ResolventConsequence(s, range, cid, did, pivot, both);
      LiteralsSame(s);
      if |both| == 0 {
        EmptyResolvent(s, both);
        EmptyClauseProgress(s, pivot);
        LearnEmptyClause();
        StillConnected(s, pivot);
        UnsatEntails(S(), c, d, pivot);
        return;
      }
      if |both| == 1 {
        UnitResolvent(s, range, cid, did, pivot, both);
        LearnUnit(both[0], eagerly, pivot);
        UnitInResolvent(s, S(), c, d, pivot, both);
        return;
      }
      res := Strengthen(cid, pivot, did, m, n, both);
      if res {
        clause := both;
      }
    }

    /** Resolve two clauses on the pivot unless one of them is garbage.  The
        result is true if the resolvent, in `clause`, has to be added. */
    method ResolveClauses(cid: nat, pivot: int, did: nat, eagerly: bool) returns (res: bool)
      requires Valid() && !unsat && cid in clauses && did in clauses
      requires pivot in clauses[cid].lits && -pivot in clauses[did].lits && Val(units, pivot) == 0
      modifies this`clauses, this`occs, this`units, this`unsat, this`clause, this`nextId
      ensures Valid() && Progress(old(S()), S(), pivot)
      ensures res ==> S() == old(S()) && Live(S(), cid) && Live(S(), did)
      ensures res ==> IsResolvent(units, clauses[cid].lits, clauses[did].lits, pivot, clause)
      ensures res ==> |clause| >= 2 && LitsOk(clause, range)
      ensures res ==> NotSmaller(units, clauses[cid].lits, pivot, clause) && NotSmaller(units, clauses[did].lits, -pivot, clause)
      ensures !res && old(Live(S(), cid) && Live(S(), did)) ==>
                ResolventEntailed(S(), old(clauses)[cid].lits, old(clauses)[did].lits, pivot)
      ensures !res && !old(Live(S(), cid) && Live(S(), did)) ==> S() == old(S())
      ensures !eagerly ==> Val(units, pivot) == 0
      ensures (old(Connected()) ==> Connected()) && NoNewLiterals(old(S()), S())
    {
      hide Indexed, NoNewLiterals, Occurring;
      hide Progress;
      hide ModelsAll;
      hide ModelsFree;
      hide ResolventEntailed;
      hide IsResolvent;
      ghost var s := S();
      ghost var c, d := clauses[cid].lits, clauses[did].lits;
      ProgressReflexive(s, pivot);
      LiteralsSame(s);
      if clauses[cid].garbage || clauses[did].garbage {
        return false;
      }
      if |clauses[cid].lits| > |clauses[did].lits| {
        res := Resolve(did, -pivot, cid, eagerly);
        ProgressSymmetric(s, S(), -pivot);
        if res {
          ResolventSymmetric(units, d, c, -pivot, clause);
        } else {
          EntailedSymmetric(S(), d, c, -pivot);
        }
      } else {
        res := Resolve(cid, pivot, did, eagerly);
      }
    }

    /** Drop an antecedent satisfied by a literal other than its pivot. */
    method DropAntecedent(id: nat, lit: int, ghost pivot: int)
      requires Valid() && id in clauses && lit in clauses[id].lits && lit in units
      modifies this`clauses
      ensures Valid() && Progress(old(S()), S(), pivot) && units == old(units)
      ensures (old(Connected()) ==> Connected()) && NoNewLiterals(old(S()), S())
    {
      hide Indexed, NoNewLiterals, Occurring;
      ghost var s := S();
      SatisfiedProgress(s, range, id, lit, pivot);
      MarkGarbage(id);
      StillConnected(s, pivot);
    }

    /** Assign a unit resolvent and propagate it if asked to. */
    method LearnUnit(unit: int, eagerly: bool, ghost pivot: int)
      requires Valid() && InRange(unit, range) && Val(units, unit) == 0
      requires forall m :: ModelsAll(m, S()) ==> Holds(m, unit)
      modifies this`clauses, this`units, this`unsat
      ensures Valid() && Progress(old(S()), S(), pivot) && unit in units
      ensures !eagerly ==> units == old(units) + [unit]
      ensures (old(Connected()) ==> Connected()) && NoNewLiterals(old(S()), S())
      ensures eagerly && !unsat && old(Connected()) ==> UnitsSettled(S(), old(units), unit)
    {
      hide Indexed, NoNewLiterals, Occurring, ListsComplete, UnitsSettled;
      ghost var s := S();
      UnitProgress(s, range, unit, pivot);
      if Connected() {
        ListsKnown(s, occs, unit);
      }
      AssignUnit(unit);
      if eagerly {
        ghost var t := S();
        ElimPropagate(unit, pivot);
        ProgressTransitive(s, t, S(), pivot);
        if !unsat && old(Connected()) {
          SettledSince(S(), s.units, unit);
        }
      }
      StillConnected(s, pivot);
    }

    /** Self-subsuming resolution: `s` and `t` count the literals of the
        antecedents that are not false, pivot included. */
    method Strengthen(cid: nat, pivot: int, did: nat, s: nat, t: nat, both: seq<int>) returns (res: bool)
      requires Valid() && !unsat && Live(S(), cid) && Live(S(), did)
      requires pivot in clauses[cid].lits && -pivot in clauses[did].lits && Val(units, pivot) == 0
      requires IsResolvent(units, clauses[cid].lits, clauses[did].lits, pivot, both)
      requires s == |Unassigned(units, clauses[cid].lits, pivot)| + 1
      requires t == |Unassigned(units, clauses[did].lits, -pivot)| + 1
      modifies this`clauses, this`occs, this`nextId
      ensures Valid() && Progress(old(S()), S(), pivot)
      ensures (old(Connected()) ==> Connected()) && NoNewLiterals(old(S()), S())
      ensures res ==> S() == old(S())
      ensures !res ==> ResolventEntailed(S(), old(clauses)[cid].lits, old(clauses)[did].lits, pivot)
      ensures res <==> s <= |both| && t <= |both|
      ensures (s > |both| ==> !Live(S(), cid)) && (t > |both| ==> !Live(S(), did))
    {
      hide Indexed, NoNewLiterals, Occurring;
      hide Progress;
      hide ModelsAll;
      hide ModelsFree;
      hide ResolventEntailed;
      ghost var s0 := S();
      ghost var c, d := clauses[cid].lits, clauses[did].lits;
      ProgressReflexive(s0, pivot);
      LiteralsSame(s0);
      DifferentAntecedents(s0, range, cid, did, pivot);
      ResolventConsequence(s0, range, cid, did, pivot, both);
      ResolventSymmetric(units, c, d, pivot, both);
      if s > |both| {
        SmallerCovers(s0, range, cid, did, pivot, both);
        SameLitsEverywhere(s0, both, Unassigned(units, c, pivot));
        ElimOnTheFlySelfSubsumption(cid, pivot);
        if t > |both| {
          ghost var s1 := S();
          SecondCovered(s0, range, cid, did, pivot, both);
          DropSubsumed(did, pivot, Unassigned(s0.units, c, pivot));
          LiteralsTransitive(s0, s1, S());
          ProgressTransitive(s0, s1, S(), pivot);
        }
        WithinResolvent(s0, S(), c, d, pivot, Unassigned(s0.units, c, pivot));
        return false;
      }
      if t > |both| {
        SmallerCovers(s0, range, did, cid, -pivot, both);
        SameLitsEverywhere(s0, both, Unassigned(units, d, -pivot));
        ElimOnTheFlySelfSubsumption(did, -pivot);
        ProgressSymmetric(s0, S(), -pivot);
        WithinResolvent(s0, S(), d, c, -pivot, Unassigned(s0.units, d, -pivot));
        EntailedSymmetric(S(), d, c, -pivot);
        return false;
      }
      return true;
    }
  }

  /** A clause with the pivot subsumed by what holds without the pivot may go. */
  lemma SubsumedProgress(s: State, n: nat, id: nat, pivot: int, r: Clause)
    requires StateOk(s, n) && id in s.clauses && Mentions(s.clauses[id].lits, pivot)
    requires forall m :: ModelsFree(m, s, pivot) ==> Satisfies(m, r)
    requires forall l :: l in r ==> l in s.clauses[id].lits && l != pivot && l != -pivot
    ensures Progress(s, WithGarbage(s, id), pivot) && StateOk(WithGarbage(s, id), n)
    ensures forall m :: ModelsFree(m, WithGarbage(s, id), pivot) <==> ModelsFree(m, s, pivot)
  {
    var c, t := s.clauses[id].lits, WithGarbage(s, id);
    assert forall d :: Live(t, d) <==> Live(s, d) && d != id;
    forall m ensures ModelsFree(m, t, pivot) <==> ModelsFree(m, s, pivot) {
      if ModelsFree(m, t, pivot) {
        forall d | Live(s, d) && !Mentions(s.clauses[d].lits, pivot) ensures Satisfies(m, s.clauses[d].lits) {
          assert Live(t, d);
        }
      }
    }
    forall m | Satisfies(m, r) ensures Satisfies(m, c) && OtherHolds(m, c, pivot) {
      var l :| l in r && Holds(m, l);
      assert l in c;
    }
    forall m | ModelsAll(m, t) ensures ModelsFree(m, t, pivot) {
    }
    GarbageProgress(s, id, pivot);
  }

  lemma StrengthenedOk(s: State, n: nat, id: nat, pivot: int)
    requires StateOk(s, n) && id in s.clauses && pivot in s.clauses[id].lits
    ensures LitsOk(Unassigned(s.units, s.clauses[id].lits, pivot), n)
    ensures !Mentions(Unassigned(s.units, s.clauses[id].lits, pivot), pivot)
  {
    var c := s.clauses[id].lits;
    UnassignedNoDup(s.units, c, pivot);
    forall l ensures l in Unassigned(s.units, c, pivot) <==> l in c && l != pivot && Val(s.units, l) == 0 {
      UnassignedMembers(s.units, c, pivot, l);
    }
  }

  /** With the strengthened clause `r` in place the original may go. */
  lemma StrengthenedProgress(s: State, n: nat, id: nat, r: nat, pivot: int)
    requires StateOk(s, n) && Live(s, r) && id in s.clauses && id != r && pivot in s.clauses[id].lits
    requires s.clauses[r].lits == Unassigned(s.units, s.clauses[id].lits, pivot)
    ensures Progress(s, WithGarbage(s, id), pivot) && StateOk(WithGarbage(s, id), n)
    ensures forall m :: ModelsFree(m, WithGarbage(s, id), pivot) ==> Satisfies(m, s.clauses[r].lits)
  {
    var c, t := s.clauses[id].lits, WithGarbage(s, id);
    StrengthenedOk(s, n, id, pivot);
    assert Live(t, r) && t.clauses[r].lits == s.clauses[r].lits;
    forall m | Satisfies(m, s.clauses[r].lits) ensures Satisfies(m, c) && OtherHolds(m, c, pivot) {
      var l :| l in s.clauses[r].lits && Holds(m, l);
      UnassignedMembers(s.units, c, pivot, l);
    }
    GarbageProgress(s, id, pivot);
  }

  /** A clause whose literal other than the pivot is a unit makes the resolvent hold. */
  lemma TrueInResolvent(s: State, c: Clause, d: Clause, pivot: int, lit: int)
    requires (lit in c && lit != pivot) || (lit in d && lit != -pivot)
    requires lit in s.units
    ensures ResolventEntailed(s, c, d, pivot)
  {
    forall m | ModelsFree(m, s, pivot) ensures ResolventHolds(m, c, d, pivot) {
      assert Holds(m, lit);
    }
  }

  /** What the two collecting loops produce is the resolvent. */
  lemma CollectedResolvent(s: State, n: nat, cid: nat, did: nat, pivot: int, both: seq<int>)
    requires StateOk(s, n) && cid in s.clauses && did in s.clauses
    requires pivot in s.clauses[cid].lits && -pivot in s.clauses[did].lits
    requires var c, d := s.clauses[cid].lits, s.clauses[did].lits;
             && NoDup(both)
             && (forall l :: l in both <==> l in Unassigned(s.units, c, pivot) || l in Unassigned(s.units, d, -pivot))
             && (forall l :: l in d && l != -pivot && Val(s.units, l) == 0 ==> -l !in Unassigned(s.units, c, pivot))
             && (forall l :: l in c && l != pivot ==> l !in s.units)
             && (forall l :: l in d && l != -pivot ==> l !in s.units)
    ensures IsResolvent(s.units, s.clauses[cid].lits, s.clauses[did].lits, pivot, both)
    ensures LitsOk(both, n)
  {
    var c, d := s.clauses[cid].lits, s.clauses[did].lits;
    forall l
      ensures l in Unassigned(s.units, c, pivot) <==> l in c && l != pivot && Val(s.units, l) == 0
      ensures l in Unassigned(s.units, d, -pivot) <==> l in d && l != -pivot && Val(s.units, l) == 0
    {
      UnassignedMembers(s.units, c, pivot, l);
      UnassignedMembers(s.units, d, -pivot, l);
    }
    assert LitsOk(c, n) && LitsOk(d, n);
  }

  lemma UnsatEntails(s: State, c: Clause, d: Clause, pivot: int)
    requires s.unsat
    ensures ResolventEntailed(s, c, d, pivot)
  {
  }

  lemma DifferentAntecedents(s: State, n: nat, cid: nat, did: nat, pivot: int)
    requires StateOk(s, n) && cid in s.clauses && did in s.clauses
    requires pivot in s.clauses[cid].lits && -pivot in s.clauses[did].lits
    ensures cid != did
  {
  }

  lemma EmptyResolvent(s: State, r: Clause)
    requires |r| == 0 && forall m :: ModelsAll(m, s) ==> Satisfies(m, r)
    ensures forall m :: !ModelsAll(m, s)
  {
    forall m ensures !ModelsAll(m, s) {
      assert !Satisfies(m, r);
    }
  }

  lemma UnitResolvent(s: State, n: nat, cid: nat, did: nat, pivot: int, r: Clause)
    requires StateOk(s, n) && cid in s.clauses && did in s.clauses
    requires pivot in s.clauses[cid].lits && -pivot in s.clauses[did].lits
    requires IsResolvent(s.units, s.clauses[cid].lits, s.clauses[did].lits, pivot, r)
    requires |r| == 1 && forall m :: ModelsAll(m, s) ==> Satisfies(m, r)
    ensures forall m :: ModelsAll(m, s) ==> Holds(m, r[0])
    ensures InRange(r[0], n) && Val(s.units, r[0]) == 0 && r[0] != pivot && r[0] != -pivot
  {
    assert r[0] in r && ResolventLit(s.units, s.clauses[cid].lits, s.clauses[did].lits, pivot, r[0]);
    assert LitsOk(s.clauses[cid].lits, n) && LitsOk(s.clauses[did].lits, n);
    forall m | ModelsAll(m, s) ensures Holds(m, r[0]) {
      assert Satisfies(m, r);
    }
  }

  lemma UnitInResolvent(s: State, t: State, c: Clause, d: Clause, pivot: int, r: Clause)
    requires |r| == 1 && IsResolvent(s.units, c, d, pivot, r) && r[0] in t.units
    ensures ResolventEntailed(t, c, d, pivot)
  {
    assert r[0] in r;
    TrueInResolvent(t, c, d, pivot, r[0]);
  }

  /** If the resolvent is smaller than an antecedent then it consists of the
      rest of this antecedent. */
  lemma SmallerCovers(s: State, n: nat, cid: nat, did: nat, pivot: int, both: seq<int>)
    requires StateOk(s, n) && cid in s.clauses && did in s.clauses
    requires IsResolvent(s.units, s.clauses[cid].lits, s.clauses[did].lits, pivot, both)
    requires |both| <= |Unassigned(s.units, s.clauses[cid].lits, pivot)|
    ensures SameLits(both, Unassigned(s.units, s.clauses[cid].lits, pivot))
    ensures forall l :: l in Unassigned(s.units, s.clauses[cid].lits, pivot) ==>
                          ResolventLit(s.units, s.clauses[cid].lits, s.clauses[did].lits, pivot, l)
  {
    var c := s.clauses[cid].lits;
    var first := Unassigned(s.units, c, pivot);
    forall l ensures l in first <==> l in c && l != pivot && Val(s.units, l) == 0 {
      UnassignedMembers(s.units, c, pivot, l);
    }
    UnassignedNoDup(s.units, c, pivot);
    SubsetFull(first, both);
  }

  lemma SameLitsEverywhere(s: State, c: Clause, d: Clause)
    requires SameLits(c, d) && forall m :: ModelsAll(m, s) ==> Satisfies(m, c)
    ensures forall m :: ModelsAll(m, s) ==> Satisfies(m, d)
  {
    forall m | ModelsAll(m, s) ensures Satisfies(m, d) {
      assert Satisfies(m, c);
    }
  }

  /** If the resolvent is smaller than both antecedents, the rest of the first
      one is contained in the second one. */
  lemma SecondCovered(s: State, n: nat, cid: nat, did: nat, pivot: int, both: seq<int>)
    requires StateOk(s, n) && cid in s.clauses && did in s.clauses
    requires pivot in s.clauses[cid].lits && -pivot in s.clauses[did].lits
    requires IsResolvent(s.units, s.clauses[cid].lits, s.clauses[did].lits, pivot, both)
    requires |both| <= |Unassigned(s.units, s.clauses[did].lits, -pivot)|
    ensures forall l :: l in Unassigned(s.units, s.clauses[cid].lits, pivot) ==>
                          l in s.clauses[did].lits && l != pivot && l != -pivot
  {
    var c, d := s.clauses[cid].lits, s.clauses[did].lits;
    ResolventSymmetric(s.units, c, d, pivot, both);
    SmallerCovers(s, n, did, cid, -pivot, both);
    assert LitsOk(c, n) && LitsOk(d, n);
    forall l | l in Unassigned(s.units, c, pivot) ensures l in d && l != pivot && l != -pivot {
      UnassignedMembers(s.units, c, pivot, l);
      assert ResolventLit(s.units, c, d, pivot, l);
      assert l in both;
      UnassignedMembers(s.units, d, -pivot, l);
    }
  }
}
