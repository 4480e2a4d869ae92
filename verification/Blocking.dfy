/** Blocked clause elimination: the exact test with its move-to-front schemes,
    the cheap filters before it, and the removal of the clauses blocked on one
    literal. */
module Blocking {
  import opened Logic
  import opened Extension
  import opened Reconstruction
  import opened MoveToFront

  /** The irredundant clauses by number. */
  type Clauses = map<int, Clause>

  /* ---- searching one clause ---- */

  /** A literal of the clause other than `skip` is complementary to a marked one. */
  predicate ClashesAt(d: Clause, j: int, skip: int, marks: set<int>)
    requires 0 <= j < |d|
  {
    d[j] != skip && -d[j] in marks
  }

  /** The members of a clause or an occurrence list. */
  function Members(c: seq<int>): set<int> {
    set l | l in c
  }

  /** The first clashing position, or the length without one. */
  function FirstClash(d: Clause, skip: int, marks: set<int>, from: nat := 0): (k: nat)
    requires from <= |d|
    ensures from <= k <= |d| && (k < |d| ==> ClashesAt(d, k, skip, marks))
    ensures forall i :: from <= i < k ==> !ClashesAt(d, i, skip, marks)
    decreases |d| - from
  {
    if from == |d| || ClashesAt(d, from, skip, marks) then from else FirstClash(d, skip, marks, from + 1)
  }

  /** The literals after the search: the first clashing one is moved to the front. */
  function Searched(d: Clause, skip: int, marks: set<int>): Clause {
    var k := FirstClash(d, skip, marks);
    if k < |d| then Fronted(d, k) else d
  }

  lemma ClashFound(c: Clause, d: Clause, lit: int, skip: int)
    requires skip == -lit
    ensures Clashes(c, d, lit) <==> FirstClash(d, skip, Members(c)) < |d|
  {
    var first := FirstClash(d, skip, Members(c));
    if Clashes(c, d, lit) {
      var k :| k in d && k != -lit && -k in c;
      var j :| 0 <= j < |d| && d[j] == k;
      assert ClashesAt(d, j, skip, Members(c));
    }
    if first < |d| {
      assert d[first] in d && d[first] != -lit && -d[first] in c;
    }
  }

  lemma SearchedMultiset(d: Clause, skip: int, marks: set<int>)
    ensures multiset(Searched(d, skip, marks)) == multiset(d)
  {
    var k := FirstClash(d, skip, marks);
    if k < |d| {
      FrontedMultiset(d, k);
    }
  }

  /** Searches a clause for a literal whose negation is marked while shifting
      the others back, and restores the order without one. */
  method FindClash(d: Clause, skip: int, marks: set<int>) returns (found: bool, r: Clause)
    ensures found <==> FirstClash(d, skip, marks) < |d|
    ensures r == Searched(d, skip, marks)
  {
    r := d;
    var prev := 0;
    var l := 0;
    while l < |d|
      invariant 0 <= l <= |d| && Shifted(d, r, l, prev)
      invariant l <= FirstClash(d, skip, marks)
    {
      var other := r[l];
      ShiftedNext(d, r, l, prev);
      ShiftedFront(d, r, l, prev);
      r := r[l := prev];
      prev := other;
      if other != skip && -other in marks {
        assert ClashesAt(d, l, skip, marks);
        r := r[0 := other];
        return true, r;
      }
      assert !ClashesAt(d, l, skip, marks);
      l := l + 1;
    }
    r := Restore(d, r, prev);
    found := false;
  }

  /* ---- clauses and occurrence lists ---- */

  /** The clauses not marked as garbage. */
  ghost function Live(clauses: Clauses, garbage: set<int>): Formula {
    set id | id in clauses && id !in garbage :: clauses[id]
  }

  /** Only the order of literals differs. */
  ghost predicate Permuted(a: Clauses, b: Clauses) {
    && a.Keys == b.Keys
    && forall id :: id in a ==> multiset(a[id]) == multiset(b[id])
  }

  predicate Listed(clauses: Clauses, occs: seq<int>) {
    forall i :: 0 <= i < |occs| ==> occs[i] in clauses && occs[i] != 0
  }

  /** The occurrence list of a literal has all its live clauses. */
  ghost predicate Connected(clauses: Clauses, garbage: set<int>, occs: seq<int>, lit: int) {
    && Listed(clauses, occs) && NoDup(occs)
    && (forall id :: id in occs ==> lit in clauses[id])
    && (forall id :: id in clauses && id !in garbage && lit in clauses[id] ==> id in occs)
  }

  /** All resolvents with the listed clauses are tautologies. */
  ghost predicate AllClash(clauses: Clauses, occs: seq<int>, c: Clause, lit: int)
    requires Listed(clauses, occs)
  {
    forall id :: id in occs ==> Clashes(c, clauses[id], lit)
  }

  lemma MultisetMembers(a: Clause, b: Clause)
    requires multiset(a) == multiset(b)
    ensures SameLits(a, b) && |a| == |b|
  {
    forall l ensures l in a <==> l in b {
      assert l in multiset(a) <==> l in multiset(b);
    }
    assert |multiset(a)| == |multiset(b)|;
  }

  lemma PermutedClause(a: Clauses, b: Clauses, id: int)
    requires Permuted(a, b) && id in a
    ensures SameLits(a[id], b[id]) && |a[id]| == |b[id]|
  {
    MultisetMembers(a[id], b[id]);
  }

  lemma PermutedModels(a: Clauses, b: Clauses, garbage: set<int>, m: Model)
    requires Permuted(a, b) && Models(m, Live(a, garbage))
    ensures Models(m, Live(b, garbage))
  {
    forall c | c in Live(b, garbage) ensures Satisfies(m, c) {
      var id :| id in b && id !in garbage && b[id] == c;
      assert a[id] in Live(a, garbage);
      PermutedClause(a, b, id);
      var l :| l in a[id] && Holds(m, l);
      assert l in c;
    }
  }

  lemma PermutedConnected(a: Clauses, b: Clauses, garbage: set<int>, occs: seq<int>, lit: int)
    requires Permuted(a, b) && Connected(a, garbage, occs, lit)
    ensures Connected(b, garbage, occs, lit)
  {
    forall id | id in b ensures lit in a[id] <==> lit in b[id] {
      PermutedClause(a, b, id);
    }
  }

  lemma PermutedClash(a: Clauses, b: Clauses, occs: seq<int>, occs': seq<int>, id: int, lit: int)
    requires Permuted(a, b) && Listed(a, occs) && id in a
    requires forall d :: d in occs' <==> d in occs
    ensures Listed(b, occs') && (AllClash(b, occs', b[id], lit) <==> AllClash(a, occs, a[id], lit))
  {
    PermutedClause(a, b, id);
    forall d | d in occs ensures Clashes(a[id], a[d], lit) <==> Clashes(b[id], b[d], lit) {
      PermutedClause(a, b, d);
    }
    forall i | 0 <= i < |occs'| ensures occs'[i] in b && occs'[i] != 0 {
      var d := occs'[i];
      assert d in occs' && d in occs;
      var j :| 0 <= j < |occs| && occs[j] == d;
    }
  }

  /* ---- the exact test ---- */

  /** The first listed clause without a clash, or the length without one. */
  ghost function FirstOpen(clauses: Clauses, occs: seq<int>, skip: int, marks: set<int>, from: nat := 0): (k: nat)
    requires Listed(clauses, occs) && from <= |occs|
    ensures from <= k <= |occs|
    ensures k < |occs| ==> FirstClash(clauses[occs[k]], skip, marks) == |clauses[occs[k]]|
    ensures forall i :: from <= i < k ==> FirstClash(clauses[occs[i]], skip, marks) < |clauses[occs[i]]|
    decreases |occs| - from
  {
    if from == |occs| || FirstClash(clauses[occs[from]], skip, marks) == |clauses[occs[from]]| then from
    else FirstOpen(clauses, occs, skip, marks, from + 1)
  }

  lemma OpenClause(clauses: Clauses, occs: seq<int>, c: Clause, lit: int, skip: int)
    requires Listed(clauses, occs) && skip == -lit
    ensures AllClash(clauses, occs, c, lit) <==> FirstOpen(clauses, occs, skip, Members(c)) == |occs|
  {
    var k := FirstOpen(clauses, occs, skip, Members(c));
    forall i | 0 <= i < |occs|
      ensures Clashes(c, clauses[occs[i]], lit) <==> FirstClash(clauses[occs[i]], skip, Members(c)) < |clauses[occs[i]]|
    {
      ClashFound(c, clauses[occs[i]], lit, skip);
    }
    assert k < |occs| ==> occs[k] in occs;
  }

  /** Exactly the clauses `ids` have been searched. */
  ghost predicate SearchedIn(a: Clauses, b: Clauses, ids: seq<int>, skip: int, marks: set<int>) {
    && a.Keys == b.Keys
    && forall id :: id in a ==> b[id] == if id in ids then Searched(a[id], skip, marks) else a[id]
  }

  lemma SearchedPermuted(a: Clauses, b: Clauses, ids: seq<int>, skip: int, marks: set<int>)
    requires SearchedIn(a, b, ids, skip, marks)
    ensures Permuted(a, b)
  {
    forall id | id in a ensures multiset(a[id]) == multiset(b[id]) {
      SearchedMultiset(a[id], skip, marks);
    }
  }

  lemma SearchedNext(a: Clauses, b: Clauses, occs: seq<int>, i: nat, skip: int, marks: set<int>)
    requires NoDup(occs) && i < |occs| && occs[i] in a
    requires SearchedIn(a, b, occs[..i], skip, marks)
    ensures b[occs[i]] == a[occs[i]]
    ensures SearchedIn(a, b[occs[i] := Searched(a[occs[i]], skip, marks)], occs[..i + 1], skip, marks)
  {
    hide Searched;
    assert occs[..i + 1] == occs[..i] + [occs[i]];
    FreshId(occs, i);
    assert forall id :: id in occs[..i + 1] <==> id in occs[..i] || id == occs[i];
  }

  lemma FreshId(occs: seq<int>, i: nat)
    requires NoDup(occs) && i < |occs|
    ensures occs[i] !in occs[..i]
  {
  }

  /** One step of the loop over the occurrence list. */
  lemma SearchedStep(a: Clauses, b: Clauses, os: seq<int>, nos: seq<int>, i: nat, prev: int, skip: int, marks: set<int>)
    requires Listed(a, os) && NoDup(os) && i < |os| && Shifted(os, nos, i, prev)
    requires SearchedIn(a, b, os[..i], skip, marks) && i <= FirstOpen(a, os, skip, marks)
    ensures var d := nos[i];
            && d == os[i] && d in b && b[d] == a[d]
            && Shifted(os, nos[i := prev], i + 1, d) && nos[i := prev][0 := d] == Fronted(os, i)
            && SearchedIn(a, b[d := Searched(a[d], skip, marks)], os[..i + 1], skip, marks)
            && (FirstClash(a[d], skip, marks) < |a[d]| <==> i < FirstOpen(a, os, skip, marks))
  {
    hide SearchedIn;
    ShiftedNext(os, nos, i, prev);
    ShiftedFront(os, nos, i, prev);
    SearchedNext(a, b, os, i, skip, marks);
    SearchedKeys(a, b, os[..i], skip, marks);
  }

  lemma SearchedNone(a: Clauses, os: seq<int>, skip: int, marks: set<int>)
    ensures SearchedIn(a, a, os[..0], skip, marks) && Shifted(os, os, 0, 0)
  {
  }

  lemma SearchedKeys(a: Clauses, b: Clauses, ids: seq<int>, skip: int, marks: set<int>)
    requires SearchedIn(a, b, ids, skip, marks)
    ensures a.Keys == b.Keys
  {
  }

  /* ---- flushing and filtering ---- */

  /** The listed clauses that are not dropped, in their order. */
  function Kept(ids: seq<int>, drop: set<int>): (r: seq<int>)
    ensures |r| <= |ids|
  {
    if ids == [] then []
    else Kept(ids[..|ids| - 1], drop) + if ids[|ids| - 1] in drop then [] else [ids[|ids| - 1]]
  }

  lemma KeptNext(ids: seq<int>, i: nat, drop: set<int>)
    requires i < |ids|
    ensures Kept(ids[..i + 1], drop) == Kept(ids[..i], drop) + if ids[i] in drop then [] else [ids[i]]
  {
    assert ids[..i + 1][..i] == ids[..i];
  }

  lemma KeptNone(ids: seq<int>, drop: set<int>)
    ensures Kept(ids[..0], drop) == []
  {
  }

  lemma KeptExtend(ids: seq<int>, id: int, drop: set<int>)
    ensures Kept(ids + [id], drop) == Kept(ids, drop) + if id in drop then [] else [id]
  {
    assert (ids + [id])[..|ids|] == ids;
  }

  /** One clause copied or dropped while compacting a list in place. */
  lemma WriteNext(os: seq<int>, ids: seq<int>, i: nat, j: nat, drop: set<int>)
    requires j <= i < |ids| == |os| && ids[i..] == os[i..] && ids[..j] == Kept(os[..i], drop)
    ensures ids[i] == os[i] && ids[j := ids[i]][i + 1..] == os[i + 1..] && os[..i + 1][..i] == os[..i]
    ensures ids[j := ids[i]][..j] == ids[..j] && ids[j := ids[i]][..j + 1] == ids[..j] + [ids[i]]
    ensures Kept(os[..i + 1], drop) == if ids[i] in drop then ids[..j] else ids[..j] + [ids[i]]
  {
    KeptNext(os, i, drop);
    assert ids[i] == ids[i..][0] == os[i..][0];
    assert ids[i + 1..] == ids[i..][1..] == os[i + 1..];
  }

  lemma {:induction false} KeptMembers(ids: seq<int>, drop: set<int>)
    ensures forall id :: id in Kept(ids, drop) <==> id in ids && id !in drop
    ensures NoDup(ids) ==> NoDup(Kept(ids, drop))
  {
    if ids != [] {
      var n := |ids| - 1;
      assert ids == ids[..n] + [ids[n]];
      KeptMembers(ids[..n], drop);
      if NoDup(ids) {
        assert ids[n] !in ids[..n];
      }
    }
  }

  lemma KeptConnected(clauses: Clauses, garbage: set<int>, occs: seq<int>, lit: int)
    requires Connected(clauses, garbage, occs, lit)
    ensures Connected(clauses, garbage, Kept(occs, garbage), lit)
  {
    KeptMembers(occs, garbage);
    var r := Kept(occs, garbage);
    forall i | 0 <= i < |r| ensures r[i] in clauses && r[i] != 0 {
      assert r[i] in r;
    }
  }

  /** All literals of the given clauses. */
  ghost function AllLiterals(clauses: Clauses, ids: seq<int>): set<int>
    requires Listed(clauses, ids)
  {
    set i, l | 0 <= i < |ids| && l in clauses[ids[i]] :: l
  }

  /** What the cheap filter before the exact test asks of a clause: its size is
      within the limits, and the negation of a literal other than `lit` occurs
      in a clause with the negation of `lit`. */
  ghost predicate Plausible(c: Clause, lit: int, marks: set<int>, least: int, most: int) {
    least <= |c| <= most && FirstClash(c, lit, marks) < |c|
  }

  ghost function Implausible(clauses: Clauses, ids: seq<int>, lit: int, marks: set<int>, least: int, most: int): set<int>
    requires Listed(clauses, ids)
  {
    set i | 0 <= i < |ids| && !Plausible(clauses[ids[i]], lit, marks, least, most) :: ids[i]
  }

  lemma ImplausibleMember(clauses: Clauses, ids: seq<int>, i: nat, lit: int, marks: set<int>, least: int, most: int)
    requires Listed(clauses, ids) && i < |ids|
    ensures ids[i] in Implausible(clauses, ids, lit, marks, least, most)
       <==> !Plausible(clauses[ids[i]], lit, marks, least, most)
  {
  }

  /** The filter never drops a clause within the size limits that passes the
      exact test, unless there is no resolvent at all. */
  lemma BlockedIsPlausible(clauses: Clauses, nos: seq<int>, id: int, lit: int, least: int, most: int)
    requires Listed(clauses, nos) && nos != [] && id in clauses && least <= |clauses[id]| <= most
    requires AllClash(clauses, nos, clauses[id], lit)
    ensures Plausible(clauses[id], lit, AllLiterals(clauses, nos), least, most)
  {
    var c, d := clauses[id], clauses[nos[0]];
    assert nos[0] in nos;
    var k :| k in d && k != -lit && -k in c;
    assert k in AllLiterals(clauses, nos);
    var j :| 0 <= j < |c| && c[j] == -k;
    assert ClashesAt(c, j, lit, AllLiterals(clauses, nos));
  }

  /** No literal other than `skip` is negated in a candidate. */
  ghost predicate Isolated(clauses: Clauses, id: int, skip: int, candidates: seq<int>)
    requires id in clauses && Listed(clauses, candidates)
  {
    FirstClash(clauses[id], skip, AllLiterals(clauses, candidates)) == |clauses[id]|
  }

  /** A clause without any literal negated in a candidate keeps them all from
      being blocked. */
  lemma NoneBlocked(clauses: Clauses, nos: seq<int>, d: int, candidates: seq<int>, id: int, lit: int, skip: int)
    requires Listed(clauses, nos) && Listed(clauses, candidates) && d in nos && id in candidates && skip == -lit
    requires Isolated(clauses, d, skip, candidates)
    ensures !AllClash(clauses, nos, clauses[id], lit)
  {
    var c := clauses[id];
    var i :| 0 <= i < |candidates| && candidates[i] == id;
    var marks := AllLiterals(clauses, candidates);
    forall k ensures !(k in clauses[d] && k != skip && -k in c) {
      if k in clauses[d] && k != skip {
        var j :| 0 <= j < |clauses[d]| && clauses[d][j] == k;
        assert !ClashesAt(clauses[d], j, skip, marks);
        assert -k !in marks;
      }
    }
  }

  /* ---- removing blocked clauses ---- */

  /** No clause is tautological on the literal. */
  ghost predicate Clean(clauses: Clauses, lit: int, negated: int) {
    forall id :: id in clauses ==> NonZero(clauses[id]) && !(lit in clauses[id] && negated in clauses[id])
  }

  /** The live clauses within the size limits that are blocked on `lit`. */
  ghost function Removable(clauses: Clauses, garbage: set<int>, ids: seq<int>, nos: seq<int>, lit: int, least: int, most: int): set<int>
    requires Listed(clauses, ids) && Listed(clauses, nos)
  {
    set i | 0 <= i < |ids| && ids[i] !in garbage && least <= |clauses[ids[i]]| <= most
            && AllClash(clauses, nos, clauses[ids[i]], lit) :: ids[i]
  }

  ghost predicate AllSmall(clauses: Clauses, occs: seq<int>, most: int)
    requires Listed(clauses, occs)
  {
    forall i :: 0 <= i < |occs| ==> |clauses[occs[i]]| <= most
  }

  lemma PermutedClean(a: Clauses, b: Clauses, lit: int, negated: int)
    requires Permuted(a, b) && Clean(a, lit, negated)
    ensures Clean(b, lit, negated)
  {
    forall id | id in b ensures SameLits(a[id], b[id]) {
      PermutedClause(a, b, id);
    }
  }

  lemma PermutedTrans(a: Clauses, b: Clauses, c: Clauses)
    requires Permuted(a, b) && Permuted(b, c)
    ensures Permuted(a, c)
  {
  }

  lemma ListedBlocked(clauses: Clauses, garbage: set<int>, nos: seq<int>, c: Clause, lit: int)
    requires Connected(clauses, garbage, nos, -lit) && AllClash(clauses, nos, c, lit)
    ensures Blocked(Live(clauses, garbage), c, lit)
  {
  }

  lemma RepairsPermuted(f: Formula, entries: seq<Entry>, a: Clauses, b: Clauses, garbage: set<int>)
    requires Permuted(a, b) && Repairs(f, entries, Live(a, garbage))
    ensures Repairs(f, entries, Live(b, garbage))
  {
    assert Permuted(b, a);
    forall m | Models(m, Live(b, garbage)) ensures Models(Extended(m, entries), f) {
      PermutedModels(b, a, garbage, m);
    }
  }

  lemma RepairsRemoved(f: Formula, entries: seq<Entry>, clauses: Clauses, garbage: set<int>, id: int, lit: int)
    requires id in clauses && lit != 0 && lit in clauses[id] && NonZero(clauses[id])
    requires Blocked(Live(clauses, garbage), clauses[id], lit)
    requires Repairs(f, entries, Live(clauses, garbage))
    ensures Repairs(f, entries + [Entry([lit], clauses[id])], Live(clauses, garbage + {id}))
  {
    var c := clauses[id];
    var g, h := Live(clauses, garbage), Live(clauses, garbage + {id});
    assert ValidBlocking(g, c, lit, h);
    BlockingReconstructs(g, c, lit, h);
    assert EntryOk(Entry([lit], c));
    RepairsCompose(f, entries, g, [Entry([lit], c)], h);
  }

  /** The listed clauses that are blocked on `lit`. */
  ghost function BlockedIds(clauses: Clauses, ids: seq<int>, nos: seq<int>, lit: int): set<int>
    requires Listed(clauses, ids) && Listed(clauses, nos)
  {
    set i | 0 <= i < |ids| && AllClash(clauses, nos, clauses[ids[i]], lit) :: ids[i]
  }

  lemma BlockedNext(clauses: Clauses, ids: seq<int>, nos: seq<int>, i: nat, lit: int)
    requires Listed(clauses, ids) && Listed(clauses, nos) && i < |ids|
    ensures BlockedIds(clauses, ids[..i + 1], nos, lit)
         == BlockedIds(clauses, ids[..i], nos, lit) + if AllClash(clauses, nos, clauses[ids[i]], lit) then {ids[i]} else {}
  {
    var a, b := BlockedIds(clauses, ids[..i + 1], nos, lit), BlockedIds(clauses, ids[..i], nos, lit);
    forall id | id in a ensures id in b || (id == ids[i] && AllClash(clauses, nos, clauses[ids[i]], lit)) {
      var k :| 0 <= k < |ids[..i + 1]| && AllClash(clauses, nos, clauses[ids[..i + 1][k]], lit) && ids[..i + 1][k] == id;
      assert k < i ==> ids[..i][k] == id;
    }
    forall id | id in b ensures id in a {
      var k :| 0 <= k < |ids[..i]| && AllClash(clauses, nos, clauses[ids[..i][k]], lit) && ids[..i][k] == id;
      assert ids[..i + 1][k] == id;
    }
    assert ids[..i + 1][i] == ids[i];
  }

  /** The candidates are all clauses the exact test can accept. */
  lemma CandidatesComplete(clauses: Clauses, garbage: set<int>, pos: seq<int>, nos: seq<int>, lit: int, least: int, most: int,
                           candidates: seq<int>)
    requires Listed(clauses, pos) && Listed(clauses, nos) && nos != []
    requires candidates == Kept(Kept(pos, garbage), Implausible(clauses, pos, lit, AllLiterals(clauses, nos), least, most))
    ensures Listed(clauses, candidates) && forall id :: id in candidates ==> id in pos && id !in garbage
    ensures BlockedIds(clauses, candidates, nos, lit) == Removable(clauses, garbage, pos, nos, lit, least, most)
  {
    var drop := Implausible(clauses, pos, lit, AllLiterals(clauses, nos), least, most);
    KeptMembers(pos, garbage);
    KeptMembers(Kept(pos, garbage), drop);
    hide Implausible;
    forall k | 0 <= k < |candidates| ensures candidates[k] in clauses && candidates[k] != 0 && candidates[k] in candidates {
      var id := candidates[k];
      assert id in candidates && id in pos;
    }
    forall k | 0 <= k < |pos|
      ensures pos[k] in pos
      ensures pos[k] in drop <==> !Plausible(clauses[pos[k]], lit, AllLiterals(clauses, nos), least, most)
      ensures least <= |clauses[pos[k]]| <= most && AllClash(clauses, nos, clauses[pos[k]], lit) ==> pos[k] !in drop
    {
      ImplausibleMember(clauses, pos, k, lit, AllLiterals(clauses, nos), least, most);
      if least <= |clauses[pos[k]]| <= most && AllClash(clauses, nos, clauses[pos[k]], lit) {
        BlockedIsPlausible(clauses, nos, pos[k], lit, least, most);
      }
    }
    var a, b := BlockedIds(clauses, candidates, nos, lit), Removable(clauses, garbage, pos, nos, lit, least, most);
    forall id | id in a ensures id in b {
      var k :| 0 <= k < |candidates| && AllClash(clauses, nos, clauses[candidates[k]], lit) && candidates[k] == id;
      var q :| 0 <= q < |pos| && pos[q] == id;
    }
    forall id | id in b ensures id in a {
      var k :| 0 <= k < |candidates| && candidates[k] == id;
    }
  }

  lemma NoneRemovable(clauses: Clauses, nos: seq<int>, candidates: seq<int>, lit: int)
    requires Listed(clauses, candidates) && Listed(clauses, nos)
    requires forall id :: id in candidates ==> !AllClash(clauses, nos, clauses[id], lit)
    ensures BlockedIds(clauses, candidates, nos, lit) == {}
  {
    forall k | 0 <= k < |candidates| ensures !AllClash(clauses, nos, clauses[candidates[k]], lit) {
      assert candidates[k] in candidates;
    }
  }

  lemma FrontedConnected(clauses: Clauses, garbage: set<int>, occs: seq<int>, k: nat, lit: int)
    requires Connected(clauses, garbage, occs, lit) && k < |occs|
    ensures Connected(clauses, garbage, Fronted(occs, k), lit)
    ensures forall id :: id in Fronted(occs, k) <==> id in occs
  {
    FrontedMultiset(occs, k);
    var r := Fronted(occs, k);
    forall i | 0 <= i < |r| ensures r[i] in clauses && r[i] != 0 {
      assert r[i] in r;
    }
    forall i, j | 0 <= i < j < |r| ensures r[i] != r[j] {
      assert r[j] == occs[if j <= k then j - 1 else j];
      assert i > 0 ==> r[i] == occs[if i <= k then i - 1 else i];
    }
  }

  lemma NotListed(clauses: Clauses, garbage: set<int>, nos: seq<int>, id: int, lit: int, negated: int)
    requires Connected(clauses, garbage, nos, negated) && Clean(clauses, lit, negated) && id in clauses && lit in clauses[id]
    ensures id !in nos && Listed(clauses, nos) && NoDup(nos)
  {
  }

  /** The exact test only reorders literals and occurrences. */
  lemma TestKeeps(a: Clauses, b: Clauses, garbage: set<int>, os: seq<int>, nos: seq<int>, marks: set<int>, skip: int)
    requires Connected(a, garbage, os, skip)
    requires var k := FirstOpen(a, os, skip, marks);
             && nos == (if k < |os| then Fronted(os, k) else os) && SearchedIn(a, b, os[..k], skip, marks)
    ensures Permuted(a, b) && Connected(b, garbage, nos, skip) && forall d :: d in nos <==> d in os
  {
    hide *;
    ConnectedListed(a, garbage, os, skip);
    var k := FirstOpen(a, os, skip, marks);
    SearchedPermuted(a, b, os[..k], skip, marks);
    if k < |os| {
      FrontedConnected(a, garbage, os, k, skip);
    }
    PermutedConnected(a, b, garbage, nos, skip);
  }

  lemma StillClean(a: Clauses, b: Clauses, id: int, lit: int, negated: int)
    requires Permuted(a, b) && Clean(a, lit, negated) && id in a && lit in a[id]
    ensures id in b && lit in b[id] && NonZero(b[id])
  {
    PermutedClause(a, b, id);
  }

  lemma BlockedNone(clauses: Clauses, ids: seq<int>, nos: seq<int>, lit: int)
    requires Listed(clauses, ids) && Listed(clauses, nos)
    ensures BlockedIds(clauses, ids[..0], nos, lit) == {}
  {
  }

  lemma PermutedSelf(a: Clauses)
    ensures Permuted(a, a)
  {
  }

  /** What the removal on one literal does: nothing if a live clause with the
      negation is too large, and otherwise all it may. */
  ghost function Removed(clauses: Clauses, garbage: set<int>, ids: seq<int>, nos: seq<int>, lit: int, least: int, most: int): set<int>
    requires Listed(clauses, ids) && Listed(clauses, nos)
  {
    var live := Kept(nos, garbage);
    if Listed(clauses, live) && AllSmall(clauses, live, most) then Removable(clauses, garbage, ids, live, lit, least, most) else {}
  }

  lemma RemovedCases(clauses: Clauses, garbage: set<int>, ids: seq<int>, nos: seq<int>, lit: int, least: int, most: int)
    requires Listed(clauses, ids) && Listed(clauses, nos) && Listed(clauses, Kept(nos, garbage))
    ensures Removed(clauses, garbage, ids, nos, lit, least, most)
         == if AllSmall(clauses, Kept(nos, garbage), most)
            then Removable(clauses, garbage, ids, Kept(nos, garbage), lit, least, most) else {}
  {
  }

  lemma CandidatesContain(clauses: Clauses, garbage: set<int>, pos: seq<int>, candidates: seq<int>, lit: int)
    requires Connected(clauses, garbage, pos, lit) && Listed(clauses, candidates)
    requires forall id :: id in candidates ==> id in pos
    ensures forall i :: 0 <= i < |candidates| ==> lit in clauses[candidates[i]]
  {
    forall i | 0 <= i < |candidates| ensures lit in clauses[candidates[i]] {
      assert candidates[i] in candidates;
    }
  }

  lemma KeptSingle(ids: seq<int>, drop: set<int>, k: nat)
    requires |Kept(ids, drop)| == 1 && k < |ids|
    ensures ids[..k + 1] == ids[..k] + [ids[k]]
    ensures ids[k] !in drop <==> ids[k] == Kept(ids, drop)[0]
  {
    KeptMembers(ids, drop);
    assert ids[k] in ids;
    var r := Kept(ids, drop);
    assert forall id :: id in r <==> id == r[0];
  }

  lemma {:induction false} KeptMore(ids: seq<int>, drop: set<int>, id: int)
    requires id !in ids
    ensures Kept(ids, drop + {id}) == Kept(ids, drop)
  {
    if ids != [] {
      KeptMore(ids[..|ids| - 1], drop, id);
    }
  }

  lemma KeptUnaffected(ids: seq<int>, i: nat, drop: set<int>)
    requires NoDup(ids) && i < |ids|
    ensures Kept(ids[..i + 1], drop + {ids[i]}) == Kept(ids[..i], drop)
  {
    KeptNext(ids, i, drop + {ids[i]});
    KeptMore(ids[..i], drop, ids[i]);
  }

  lemma RemovableNone(clauses: Clauses, garbage: set<int>, ids: seq<int>, nos: seq<int>, lit: int, least: int, most: int)
    requires Listed(clauses, ids) && Listed(clauses, nos)
    ensures Removable(clauses, garbage, ids[..0], nos, lit, least, most) == {}
  {
  }

  lemma RemovableNext(clauses: Clauses, garbage: set<int>, ids: seq<int>, nos: seq<int>, i: nat, lit: int, least: int, most: int)
    requires Listed(clauses, ids) && Listed(clauses, nos) && i < |ids| && NoDup(ids)
    ensures Removable(clauses, garbage, ids[..i + 1], nos, lit, least, most)
         == Removable(clauses, garbage, ids[..i], nos, lit, least, most)
            + (if ids[i] !in garbage && least <= |clauses[ids[i]]| <= most && AllClash(clauses, nos, clauses[ids[i]], lit)
               then {ids[i]} else {})
    ensures ids[i] !in Removable(clauses, garbage, ids[..i], nos, lit, least, most)
  {
    assert ids[..i + 1] == ids[..i] + [ids[i]];
    assert ids[i] !in ids[..i];
    var a := Removable(clauses, garbage, ids[..i + 1], nos, lit, least, most);
    var b := Removable(clauses, garbage, ids[..i], nos, lit, least, most);
    forall id | id in b ensures id in a && id in ids[..i] {
      var k :| 0 <= k < i && ids[..i][k] == id;
      assert ids[..i + 1][k] == id;
    }
    forall id | id in a ensures id in b || id == ids[i] {
      var k :| 0 <= k < i + 1 && ids[..i + 1][k] == id;
      assert k < i ==> ids[..i][k] == id;
    }
    assert ids[..i + 1][i] == ids[i];
  }

  /** With one resolution partner, searching the candidate for the negation of
      a literal of the partner decides the test. */
  lemma OneClash(a: Clauses, b: Clauses, d: int, c: int, lit: int)
    requires Permuted(a, b) && c in a && d in a && d != 0
    ensures Listed(a, [d])
    ensures AllClash(a, [d], a[c], lit) <==> FirstClash(b[c], lit, Members(a[d])) < |b[c]|
  {
    PermutedClause(a, b, c);
    var marks := Members(a[d]);
    assert [d][0] == d && d in [d];
    var first := FirstClash(b[c], lit, marks);
    if Clashes(a[c], a[d], lit) {
      var k :| k in a[d] && k != -lit && -k in a[c];
      var j :| 0 <= j < |b[c]| && b[c][j] == -k;
      assert ClashesAt(b[c], j, lit, marks);
    }
    if first < |b[c]| {
      var k := -b[c][first];
      assert k in a[d] && k != -lit && b[c][first] in b[c];
    }
  }

  /** What searching one candidate keeps. */
  lemma SearchOne(a: Clauses, b: Clauses, garbage: set<int>, os: seq<int>, d: int, c: int, lit: int, negated: int,
                  f: Formula, entries: seq<Entry>)
    requires Permuted(a, b) && Clean(b, lit, negated) && negated == -lit && d in a && d != 0 && c in a && c in b && lit in b[c]
    requires Connected(b, garbage, os, lit) && Connected(b, garbage, [d], negated)
    requires Repairs(f, entries, Live(b, garbage))
    ensures var b' := b[c := Searched(b[c], lit, Members(a[d]))];
            && a.Keys == b'.Keys && |a[c]| == |b[c]| && Permuted(a, b') && Clean(b', lit, negated)
            && Connected(b', garbage, os, lit) && Connected(b', garbage, [d], negated)
            && Repairs(f, entries, Live(b', garbage))
            && Listed(a, [d]) && (AllClash(a, [d], a[c], lit) <==> FirstClash(b[c], lit, Members(a[d])) < |b[c]|)
            && (AllClash(a, [d], a[c], lit) ==> Blocked(Live(b', garbage), b'[c], lit) && lit in b'[c] && NonZero(b'[c]))
  {
    hide *;
    SearchOnePermuted(a, b, c, lit, Members(a[d]));
    var b' := b[c := Searched(b[c], lit, Members(a[d]))];
    PermutedClean(b, b', lit, negated);
    PermutedConnected(b, b', garbage, os, lit);
    PermutedConnected(b, b', garbage, [d], negated);
    RepairsPermuted(f, entries, b, b', garbage);
    PermutedTrans(a, b, b');
    OneClash(a, b, d, c, lit);
    PermutedClause(a, b, c);
    StillClean(b, b', c, lit, negated);
    if AllClash(a, [d], a[c], lit) {
      PermutedClash(a, b', [d], [d], c, lit);
      ListedBlocked(b', garbage, [d], b'[c], lit);
    }
  }

  lemma SameSize(a: Clauses, b: Clauses, c: int)
    requires Permuted(a, b) && c in b
    ensures c in a && |a[c]| == |b[c]|
  {
    PermutedClause(a, b, c);
  }

  lemma SearchOnePermuted(a: Clauses, b: Clauses, c: int, skip: int, marks: set<int>)
    requires Permuted(a, b) && c in b
    ensures c in a && a.Keys == b.Keys && Permuted(b, b[c := Searched(b[c], skip, marks)])
  {
    SearchedMultiset(b[c], skip, marks);
  }

  lemma OneSmall(clauses: Clauses, d: int, most: int)
    requires d in clauses && d != 0
    ensures Listed(clauses, [d]) && (AllSmall(clauses, [d], most) <==> |clauses[d]| <= most)
  {
    assert [d][0] == d;
  }

  lemma ConnectedAt(clauses: Clauses, garbage: set<int>, occs: seq<int>, i: nat, lit: int)
    requires Connected(clauses, garbage, occs, lit) && i < |occs|
    ensures occs[i] in clauses && lit in clauses[occs[i]] && occs[i] != 0
  {
    assert occs[i] in occs;
  }

  lemma PureBlocked(clauses: Clauses, garbage: set<int>, pos: seq<int>, i: nat, lit: int, negated: int)
    requires Connected(clauses, garbage, pos, lit) && Connected(clauses, garbage, [], negated) && negated == -lit
    requires Clean(clauses, lit, negated) && i < |pos|
    ensures pos[i] in clauses && lit in clauses[pos[i]] && NonZero(clauses[pos[i]])
    ensures Blocked(Live(clauses, garbage), clauses[pos[i]], lit)
  {
    assert pos[i] in pos;
  }

  lemma MembersNext(ids: seq<int>, i: nat)
    ensures Members(ids[..0]) == {}
    ensures i < |ids| ==> Members(ids[..i + 1]) == Members(ids[..i]) + {ids[i]}
  {
    if i < |ids| {
      assert ids[..i + 1] == ids[..i] + [ids[i]];
      forall l ensures l in Members(ids[..i + 1]) <==> l in Members(ids[..i]) || l == ids[i] {
      }
    }
  }

  lemma MembersAll(ids: seq<int>, garbage: set<int>, g: set<int>)
    requires garbage == g + Members(ids)
    ensures forall id :: id in ids ==> id in garbage
  {
    forall id | id in ids ensures id in garbage {
      assert id in Members(ids);
    }
  }

  lemma FlushedAll(clauses: Clauses, garbage: set<int>, occs: seq<int>, lit: int)
    requires Connected(clauses, garbage, occs, lit) && forall id :: id in occs ==> id in garbage
    ensures Connected(clauses, garbage, [], lit)
  {
  }

  lemma RemovedPositive(clauses: Clauses, garbage: set<int>, ids: seq<int>, nos: seq<int>, lit: int, least: int, most: int)
    requires Listed(clauses, ids) && Listed(clauses, nos)
    ensures Removed(clauses, garbage, ids, nos, lit, least, most) <= Members(ids)
  {
  }

  lemma ConnectedListed(clauses: Clauses, garbage: set<int>, occs: seq<int>, lit: int)
    requires Connected(clauses, garbage, occs, lit)
    ensures Listed(clauses, occs) && NoDup(occs)
  {
  }

  lemma ConnectedMonotone(clauses: Clauses, garbage: set<int>, more: set<int>, occs: seq<int>, lit: int)
    requires Connected(clauses, garbage, occs, lit) && garbage <= more
    ensures Connected(clauses, more, occs, lit)
  {
  }

  class Blocker {
    var clauses: Clauses
    var garbage: set<int>
    var pos: seq<int>
    var nos: seq<int>
    var candidates: seq<int>

    /** Whether all resolvents of clause `id` on `lit` are tautologies.  The
        first clause found to give another resolvent is moved to the front of
        the occurrence list, which keeps its order otherwise. */
    method IsBlockedClause(id: int, lit: int) returns (res: bool)
      requires id in clauses && id !in nos && Listed(clauses, nos) && NoDup(nos)
      modifies this`clauses, this`nos
      ensures res <==> AllClash(old(clauses), old(nos), old(clauses)[id], lit)
      ensures var k := FirstOpen(old(clauses), old(nos), -lit, Members(old(clauses)[id]));
              && nos == (if k < |old(nos)| then Fronted(old(nos), k) else old(nos))
              && SearchedIn(old(clauses), clauses, old(nos)[..k], -lit, Members(old(clauses)[id]))
    {
      hide *;
      ghost var a, os := clauses, nos;
      var skip, marks := -lit, Members(clauses[id]);
      ghost var open := FirstOpen(a, os, skip, marks);
      OpenClause(a, os, a[id], lit, skip);
      SearchedNone(a, os, skip, marks);
      var i, prev := 0, 0;
      while i < |nos|
        invariant 0 <= i <= open && |nos| == |os| && Shifted(os, nos, i, prev)
        invariant SearchedIn(a, clauses, os[..i], skip, marks)
      {
        var d := nos[i];
        SearchedStep(a, clauses, os, nos, i, prev, skip, marks);
        nos := nos[i := prev];
        prev := d;
        var found, literals := FindClash(clauses[d], skip, marks);
        if !found {
          nos := nos[0 := d];
          return false;
        }
        clauses := clauses[d := literals];
        i := i + 1;
      }
      assert os[..i] == os;
      nos := Restore(os, nos, prev);
      res := true;
    }

    /** Collects the literals of the given clauses. */
    method MarkAll(ids: seq<int>) returns (marks: set<int>)
      requires Listed(clauses, ids)
      ensures marks == AllLiterals(clauses, ids)
    {
      marks := {};
      for i := 0 to |ids|
        invariant marks == AllLiterals(clauses, ids[..i])
      {
        marks := marks + Members(clauses[ids[i]]);
        assert forall l :: l in AllLiterals(clauses, ids[..i + 1]) <==>
                             l in AllLiterals(clauses, ids[..i]) || l in clauses[ids[i]];
      }
      assert ids[..|ids|] == ids;
    }

    /** Searches a clause without changing it. */
    method HasClash(d: Clause, skip: int, marks: set<int>) returns (found: bool)
      ensures found <==> FirstClash(d, skip, marks) < |d|
    {
      var l := 0;
      while l < |d|
        invariant 0 <= l <= FirstClash(d, skip, marks)
      {
        if d[l] != skip && -d[l] in marks {
          assert ClashesAt(d, l, skip, marks);
          return true;
        }
        assert !ClashesAt(d, l, skip, marks);
        l := l + 1;
      }
      found := false;
    }

    /** Flushes garbage clauses from the occurrences of `lit` and collects the
        plausible candidates. */
    method BlockCandidates(lit: int, least: int, most: int)
      requires Listed(clauses, pos) && Listed(clauses, nos) && candidates == []
      modifies this`pos, this`candidates
      ensures pos == Kept(old(pos), garbage)
      ensures candidates == Kept(pos, Implausible(clauses, old(pos), lit, AllLiterals(clauses, nos), least, most))
    {
      hide Kept, Implausible;
      var marks := MarkAll(nos);
      ghost var os := pos;
      ghost var drop := Implausible(clauses, os, lit, marks, least, most);
      KeptNone(os, garbage);
      KeptNone(os, drop);
      var i, j := 0, 0;
      while i < |pos|
        invariant 0 <= j <= i <= |pos| == |os| && pos[i..] == os[i..]
        invariant pos[..j] == Kept(os[..i], garbage) && candidates == Kept(pos[..j], drop)
      {
        var c := pos[i];
        WriteNext(os, pos, i, j, garbage);
        KeptExtend(pos[..j], c, drop);
        ImplausibleMember(clauses, os, i, lit, marks, least, most);
        pos := pos[j := c];
        j := j + 1;
        i := i + 1;
        if c in garbage {
          j := j - 1;
          continue;
        }
        if |clauses[c]| > most { continue; }
        if |clauses[c]| < least { continue; }
        var found := HasClash(clauses[c], lit, marks);
        if found {
          candidates := candidates + [c];
        }
      }
      pos := pos[..j];
      assert os[..i] == os;
    }

    /** Looks for a clause with the negation of `lit` that no candidate clashes
        with, and gives up on the candidates if there is one. */
    method BlockImpossible(lit: int) returns (res: int)
      requires Listed(clauses, nos) && Listed(clauses, candidates)
      modifies this`candidates
      ensures res != 0 <==> exists i :: 0 <= i < |nos| && Isolated(clauses, nos[i], -lit, old(candidates))
      ensures candidates == if res != 0 then [] else old(candidates)
      ensures res != 0 ==> forall id :: id in old(candidates) ==> !AllClash(clauses, nos, clauses[id], lit)
    {
      var marks := MarkAll(candidates);
      res := 0;
      for i := 0 to |nos|
        invariant candidates == old(candidates)
        invariant res != 0 ==> res in nos && Isolated(clauses, res, -lit, candidates)
        invariant res != 0 <==> exists k :: 0 <= k < i && Isolated(clauses, nos[k], -lit, candidates)
      {
        var found := HasClash(clauses[nos[i]], -lit, marks);
        if !found {
          res := nos[i];
          assert Isolated(clauses, nos[i], -lit, candidates);
        }
      }
      if res != 0 {
        forall id | id in candidates ensures !AllClash(clauses, nos, clauses[id], lit) {
          NoneBlocked(clauses, nos, res, candidates, id, lit, -lit);
        }
        candidates := [];
      }
    }

    /** Flushes garbage clauses from the occurrences of the negation. */
    method FlushNegative() returns (maxSize: int)
      requires Listed(clauses, nos)
      modifies this`nos
      ensures nos == Kept(old(nos), garbage) && Listed(clauses, nos)
      ensures forall most: nat :: maxSize <= most <==> AllSmall(clauses, nos, most)
    {
      hide Kept;
      ghost var os := nos;
      maxSize := 0;
      KeptNone(os, garbage);
      var i, j := 0, 0;
      while i < |nos|
        invariant 0 <= j <= i <= |nos| == |os| && nos[i..] == os[i..]
        invariant nos[..j] == Kept(os[..i], garbage) && Listed(clauses, nos[..j])
        invariant forall k :: 0 <= k < j ==> |clauses[nos[..j][k]]| <= maxSize
        invariant maxSize == 0 || exists k :: 0 <= k < j && |clauses[nos[..j][k]]| == maxSize
      {
        var c := nos[i];
        WriteNext(os, nos, i, j, garbage);
        ghost var before := nos[..j];
        nos := nos[j := c];
        j := j + 1;
        i := i + 1;
        if c in garbage {
          j := j - 1;
          assert nos[..j] == before;
        } else if |clauses[c]| > maxSize {
          maxSize := |clauses[c]|;
          assert nos[..j][j - 1] == c;
        } else {
          assert forall k :: 0 <= k < j - 1 ==> nos[..j][k] == before[k];
        }
      }
      nos := nos[..j];
      assert os[..i] == os;
    }

    /** Marks a blocked clause as garbage after pushing it. */
    method Remove(external: External, id: int, lit: int, ghost f: Formula, ghost base: seq<int>, ghost before: seq<Entry>)
      returns (ghost entries: seq<Entry>)
      requires id in clauses && lit != 0 && lit in clauses[id] && NonZero(clauses[id])
      requires Blocked(Live(clauses, garbage), clauses[id], lit)
      requires Repairs(f, before, Live(clauses, garbage)) && external.extension == base + Flat(before)
      modifies this`garbage, external`extension, external`witnesses
      ensures garbage == old(garbage) + {id}
      ensures Repairs(f, entries, Live(clauses, garbage)) && external.extension == base + Flat(entries)
    {
      hide *;
      entries := before + [Entry([lit], clauses[id])];
      RepairsRemoved(f, before, clauses, garbage, id, lit);
      FlatConcat(before, [Entry([lit], clauses[id])]);
      FlatOne(Entry([lit], clauses[id]));
      external.PushClauseOnExtensionStack(clauses[id], lit);
      garbage := garbage + {id};
    }

    /** Applies the exact test to one candidate and removes it if it passes. */
    method TryCandidate(external: External, id: int, lit: int, ghost f: Formula, ghost base: seq<int>, ghost before: seq<Entry>)
      returns (blocked: bool, ghost entries: seq<Entry>)
      requires id in clauses && lit != 0 && lit in clauses[id]
      requires Connected(clauses, garbage, nos, -lit) && Clean(clauses, lit, -lit)
      requires Repairs(f, before, Live(clauses, garbage)) && external.extension == base + Flat(before)
      modifies this`clauses, this`nos, this`garbage, external`extension, external`witnesses
      ensures blocked <==> AllClash(old(clauses), old(nos), old(clauses)[id], lit)
      ensures Permuted(old(clauses), clauses) && Connected(clauses, garbage, nos, -lit)
      ensures forall d :: d in nos <==> d in old(nos)
      ensures garbage == if blocked then old(garbage) + {id} else old(garbage)
      ensures Repairs(f, entries, Live(clauses, garbage)) && external.extension == base + Flat(entries)
    {
      hide *;
      ghost var a, os := clauses, nos;
      NotListed(a, garbage, os, id, lit, -lit);
      blocked := IsBlockedClause(id, lit);
      TestKeeps(a, clauses, garbage, os, nos, Members(a[id]), -lit);
      RepairsPermuted(f, before, a, clauses, garbage);
      entries := before;
      if blocked {
        StillClean(a, clauses, id, lit, -lit);
        PermutedClash(a, clauses, os, nos, id, lit);
        ListedBlocked(clauses, garbage, nos, clauses[id], lit);
        entries := Remove(external, id, lit, f, base, before);
        ConnectedMonotone(clauses, old(garbage), garbage, nos, -lit);
      }
    }

    /** The occurrence lists of the literal and its negation are connected. */
    ghost predicate Ready(lit: int)
      reads this
    {
      && lit != 0 && Clean(clauses, lit, -lit)
      && Connected(clauses, garbage, pos, lit) && Connected(clauses, garbage, nos, -lit)
    }

    /** Tries all candidates in order. */
    method TryCandidates(external: External, lit: int, ghost f: Formula, ghost base: seq<int>, ghost before: seq<Entry>)
      returns (blocked: nat, ghost entries: seq<Entry>)
      requires Ready(lit) && Listed(clauses, candidates)
      requires forall i :: 0 <= i < |candidates| ==> lit in clauses[candidates[i]]
      requires Repairs(f, before, Live(clauses, garbage)) && external.extension == base + Flat(before)
      modifies this`clauses, this`nos, this`garbage, external`extension, external`witnesses
      ensures Ready(lit) && Permuted(old(clauses), clauses)
      ensures blocked == 0 ==> garbage == old(garbage)
      ensures garbage == old(garbage) + BlockedIds(old(clauses), candidates, old(nos), lit)
      ensures Repairs(f, entries, Live(clauses, garbage)) && external.extension == base + Flat(entries)
    {
      hide Clean, Connected, Permuted, AllClash, Kept, Removable, Removed, AllSmall, BlockedIds, Implausible, Members;
      hide Live, Blocked, Repairs, Flat, Models, Satisfies, Extended;
      ghost var a, os, g := clauses, nos, garbage;
      ConnectedListed(a, g, os, -lit);
      blocked, entries := 0, before;
      BlockedNone(a, candidates, os, lit);
      PermutedSelf(a);
      for i := 0 to |candidates|
        invariant Ready(lit) && Permuted(a, clauses) && forall d :: d in nos <==> d in os
        invariant blocked == 0 ==> garbage == g
        invariant garbage == g + BlockedIds(a, candidates[..i], os, lit)
        invariant Repairs(f, entries, Live(clauses, garbage)) && external.extension == base + Flat(entries)
      {
        ghost var b, h := clauses, garbage;
        StillClean(a, b, candidates[i], lit, -lit);
        PermutedClash(a, b, os, nos, candidates[i], lit);
        BlockedNext(a, candidates, os, i, lit);
        var removed: bool;
        removed, entries := TryCandidate(external, candidates[i], lit, f, base, entries);
        if removed {
          blocked := blocked + 1;
        }
        PermutedTrans(a, b, clauses);
        PermutedClean(b, clauses, lit, -lit);
        ConnectedMonotone(b, h, garbage, pos, lit);
        PermutedConnected(b, clauses, garbage, pos, lit);
      }
      assert candidates[..|candidates|] == candidates;
    }

    /** Flushes garbage clauses from the occurrences of the literal. */
    method FlushPositive()
      modifies this`pos
      ensures pos == Kept(old(pos), garbage)
    {
      hide Kept;
      ghost var os := pos;
      KeptNone(os, garbage);
      var i, j := 0, 0;
      while i < |pos|
        invariant 0 <= j <= i <= |pos| == |os| && pos[i..] == os[i..] && pos[..j] == Kept(os[..i], garbage)
      {
        WriteNext(os, pos, i, j, garbage);
        var c := pos[i];
        i := i + 1;
        if c in garbage { continue; }
        pos := pos[j := c];
        j := j + 1;
      }
      pos := pos[..j];
      assert os[..i] == os;
    }

    /** At least two resolution partners: unless one is too large, exactly the
        clauses within the size limits that are blocked on the literal go,
        whatever the filters skip. */
    method BlockLiteralWithAtLeastTwoNegativeOccs(external: External, lit: int, least: int, most: int,
                                                  ghost f: Formula, ghost base: seq<int>, ghost before: seq<Entry>)
      returns (ghost entries: seq<Entry>)
      requires Ready(lit) && candidates == [] && |Kept(nos, garbage)| > 1 && most >= 0
      requires Repairs(f, before, Live(clauses, garbage)) && external.extension == base + Flat(before)
      modifies this, external`extension, external`witnesses
      ensures Ready(lit) && candidates == [] && Permuted(old(clauses), clauses)
      ensures garbage == old(garbage) + Removed(old(clauses), old(garbage), old(pos), old(nos), lit, least, most)
      ensures Repairs(f, entries, Live(clauses, garbage)) && external.extension == base + Flat(entries)
    {
      hide Clean, Connected, Permuted, AllClash, Kept, Removable, Removed, AllSmall, BlockedIds, Implausible, Members;
      hide Listed, Live, Blocked, Repairs, Flat, Models, Satisfies, Extended;
      ghost var a, g, ps := clauses, garbage, pos;
      PermutedSelf(a);
      entries := before;
      ConnectedListed(a, g, pos, lit);
      ConnectedListed(a, g, nos, -lit);
      KeptConnected(a, g, nos, -lit);
      RemovedCases(a, g, pos, nos, lit, least, most);
      var maxSize := FlushNegative();
      ghost var ns := nos;
      if maxSize > most {
        assert !AllSmall(a, ns, most);
        return;
      }
      assert AllSmall(a, ns, most);
      BlockCandidates(lit, least, most);
      KeptConnected(a, g, ps, lit);
      CandidatesComplete(a, g, ps, ns, lit, least, most, candidates);
      if candidates == [] {
        BlockedNone(a, candidates, ns, lit);
        assert candidates[..0] == candidates;
        return;
      }
      if |candidates| > 1 {
        ghost var cs := candidates;
        var impossible := BlockImpossible(lit);
        if impossible != 0 {
          NoneRemovable(a, ns, cs, lit);
          return;
        }
      }
      CandidatesContain(a, g, ps, candidates, lit);
      var blocked: nat;
      blocked, entries := TryCandidates(external, lit, f, base, entries);
      candidates := [];
      if blocked > 0 {
        KeptConnected(clauses, garbage, pos, lit);
        FlushPositive();
      }
    }

    /** Searches one clause for a clash with the only partner and removes it if
        there is one.  Its literals may get reordered. */
    method TryAgainst(external: External, lit: int, d: int, c: int, marks: set<int>, ghost a: Clauses, ghost os: seq<int>,
                      ghost f: Formula, ghost base: seq<int>, ghost before: seq<Entry>)
      returns (removed: bool, ghost entries: seq<Entry>)
      requires a.Keys == clauses.Keys && Permuted(a, clauses) && Clean(clauses, lit, -lit) && nos == [d]
      requires d in a && d != 0 && c in a && lit in clauses[c] && marks == Members(a[d]) && lit != 0
      requires Connected(clauses, garbage, os, lit) && Connected(clauses, garbage, nos, -lit)
      requires Repairs(f, before, Live(clauses, garbage)) && external.extension == base + Flat(before)
      modifies this`clauses, this`garbage, external`extension, external`witnesses
      ensures a.Keys == clauses.Keys && Permuted(a, clauses) && Clean(clauses, lit, -lit)
      ensures Connected(clauses, garbage, os, lit) && Connected(clauses, garbage, nos, -lit)
      ensures Listed(a, [d]) && (removed <==> AllClash(a, [d], a[c], lit))
      ensures garbage == if removed then old(garbage) + {c} else old(garbage)
      ensures Repairs(f, entries, Live(clauses, garbage)) && external.extension == base + Flat(entries)
    {
      hide *;
      SearchOne(a, clauses, garbage, os, d, c, lit, -lit, f, before);
      entries := before;
      var literals: Clause;
      removed, literals := FindClash(clauses[c], lit, marks);
      clauses := clauses[c := literals];
      if removed {
        entries := Remove(external, c, lit, f, base, before);
        ConnectedMonotone(clauses, old(garbage), garbage, os, lit);
        ConnectedMonotone(clauses, old(garbage), garbage, nos, -lit);
      }
    }

    /** Removes the clauses blocked on the literal when `d` is the only
        resolution partner. */
    method BlockAgainst(external: External, lit: int, d: int, least: int, most: int,
                        ghost f: Formula, ghost base: seq<int>, ghost before: seq<Entry>)
      returns (ghost entries: seq<Entry>)
      requires Ready(lit) && nos == [d]
      requires Repairs(f, before, Live(clauses, garbage)) && external.extension == base + Flat(before)
      modifies this`clauses, this`pos, this`garbage, external`extension, external`witnesses
      ensures Ready(lit) && Permuted(old(clauses), clauses)
      ensures Listed(old(clauses), old(pos)) && Listed(old(clauses), nos)
      ensures garbage == old(garbage) + Removable(old(clauses), old(garbage), old(pos), nos, lit, least, most)
      ensures Repairs(f, entries, Live(clauses, garbage)) && external.extension == base + Flat(entries)
    {
      hide Clean, Connected, Permuted, AllClash, Kept, Removable, Removed, AllSmall, BlockedIds, Implausible, Members;
      hide Live, Blocked, Repairs, Flat, Models, Satisfies, Extended;
      ghost var a, g, os := clauses, garbage, pos;
      ConnectedListed(a, g, os, lit);
      ConnectedListed(a, g, nos, -lit);
      PermutedSelf(a);
      ConnectedAt(a, g, nos, 0, -lit);
      RemovableNone(a, g, os, nos, lit, least, most);
      KeptNone(os, garbage);
      entries := before;
      var marks := Members(clauses[d]);
      var i, j := 0, 0;
      while i < |pos|
        invariant 0 <= j <= i <= |pos| == |os| && pos[i..] == os[i..] && pos[..j] == Kept(os[..i], garbage)
        invariant a.Keys == clauses.Keys && Permuted(a, clauses) && Clean(clauses, lit, -lit) && marks == Members(a[d])
        invariant Connected(clauses, garbage, os, lit) && Connected(clauses, garbage, nos, -lit)
        invariant garbage == g + Removable(a, g, os[..i], nos, lit, least, most)
        invariant Repairs(f, entries, Live(clauses, garbage)) && external.extension == base + Flat(entries)
      {
        var c := pos[i];
        ConnectedAt(clauses, garbage, os, i, lit);
        SameSize(a, clauses, c);
        WriteNext(os, pos, i, j, garbage);
        RemovableNext(a, g, os, nos, i, lit, least, most);
        KeptUnaffected(os, i, garbage);
        pos := pos[j := c];
        j := j + 1;
        i := i + 1;
        if c in garbage {
          j := j - 1;
          continue;
        }
        if |clauses[c]| > most { continue; }
        if |clauses[c]| < least { continue; }
        var removed: bool;
        removed, entries := TryAgainst(external, lit, d, c, marks, a, os, f, base, entries);
        if removed {
          j := j - 1;
        }
      }
      pos := pos[..j];
      assert os[..i] == os;
      KeptConnected(clauses, garbage, os, lit);
    }

    /** The only clause with the negation that is not garbage. */
    method OnlyPartner() returns (d: int)
      requires |Kept(nos, garbage)| == 1
      ensures [d] == Kept(nos, garbage)
    {
      ghost var only := Kept(nos, garbage)[0];
      KeptMembers(nos, garbage);
      assert only in Kept(nos, garbage);
      d := 0;
      for k := 0 to |nos|
        invariant d == if only in nos[..k] then only else 0
      {
        KeptSingle(nos, garbage, k);
        if nos[k] !in garbage {
          d := nos[k];
        }
      }
      assert nos[..|nos|] == nos;
    }

    /** A single resolution partner: its literals are marked instead. */
    method BlockLiteralWithOneNegativeOcc(external: External, lit: int, least: int, most: int,
                                          ghost f: Formula, ghost base: seq<int>, ghost before: seq<Entry>)
      returns (ghost entries: seq<Entry>)
      requires Ready(lit) && |Kept(nos, garbage)| == 1
      requires Repairs(f, before, Live(clauses, garbage)) && external.extension == base + Flat(before)
      modifies this`clauses, this`pos, this`nos, this`garbage, external`extension, external`witnesses
      ensures Ready(lit) && Permuted(old(clauses), clauses)
      ensures garbage == old(garbage) + Removed(old(clauses), old(garbage), old(pos), old(nos), lit, least, most)
      ensures Repairs(f, entries, Live(clauses, garbage)) && external.extension == base + Flat(entries)
    {
      hide Clean, Connected, Permuted, AllClash, Kept, Removable, Removed, AllSmall, BlockedIds, Implausible, Members;
      hide Listed, Live, Blocked, Repairs, Flat, Models, Satisfies, Extended;
      ghost var a, g := clauses, garbage;
      PermutedSelf(a);
      entries := before;
      ConnectedListed(a, g, pos, lit);
      ConnectedListed(a, g, nos, -lit);
      KeptConnected(a, g, nos, -lit);
      RemovedCases(a, g, pos, nos, lit, least, most);
      var d := OnlyPartner();
      nos := [d];
      ConnectedAt(a, g, nos, 0, -lit);
      OneSmall(a, d, most);
      if |clauses[d]| > most {
        return;
      }
      entries := BlockAgainst(external, lit, d, least, most, f, base, before);
    }

    /** No live clause has the negation: everything with the literal goes. */
    method BlockPureLiteral(external: External, lit: int, ghost f: Formula, ghost base: seq<int>, ghost before: seq<Entry>)
      returns (ghost entries: seq<Entry>)
      requires Ready(lit) && Kept(nos, garbage) == []
      requires Repairs(f, before, Live(clauses, garbage)) && external.extension == base + Flat(before)
      modifies this`pos, this`nos, this`garbage, external`extension, external`witnesses
      ensures Ready(lit) && pos == [] && nos == []
      ensures garbage == old(garbage) + Members(old(pos))
      ensures Repairs(f, entries, Live(clauses, garbage)) && external.extension == base + Flat(entries)
    {
      hide Clean, Connected, Permuted, AllClash, Kept, Removable, Removed, AllSmall, BlockedIds, Implausible, Members;
      hide Listed, Live, Blocked, Repairs, Flat, Models, Satisfies, Extended;
      ghost var g, ps := garbage, pos;
      MembersNext(ps, 0);
      entries := before;
      KeptConnected(clauses, g, nos, -lit);
      for i := 0 to |pos|
        invariant pos == ps && Ready(lit) && Connected(clauses, garbage, [], -lit)
        invariant garbage == g + Members(ps[..i])
        invariant Repairs(f, entries, Live(clauses, garbage)) && external.extension == base + Flat(entries)
      {
        ghost var h := garbage;
        MembersNext(ps, i);
        if pos[i] in garbage { continue; }
        PureBlocked(clauses, garbage, pos, i, lit, -lit);
        entries := Remove(external, pos[i], lit, f, base, entries);
        ConnectedMonotone(clauses, h, garbage, pos, lit);
        ConnectedMonotone(clauses, h, garbage, nos, -lit);
        ConnectedMonotone(clauses, h, garbage, [], -lit);
      }
      assert pos[..|pos|] == pos;
      MembersAll(ps, garbage, g);
      FlushedAll(clauses, garbage, pos, lit);
      pos, nos := [], [];
    }

    /** One blocking literal off the schedule.  `positives` and `negatives`
        count the live clauses with the literal and its negation. */
    method BlockLiteral(external: External, lit: int, active: bool, frozen: bool, positives: nat, negatives: nat,
                        occurrenceLimit: int, least: int, most: int,
                        ghost f: Formula, ghost base: seq<int>, ghost before: seq<Entry>)
      returns (ghost entries: seq<Entry>)
      requires Ready(lit) && candidates == [] && most >= 0
      requires positives == |Kept(pos, garbage)| && negatives == |Kept(nos, garbage)|
      requires Repairs(f, before, Live(clauses, garbage)) && external.extension == base + Flat(before)
      modifies this, external`extension, external`witnesses
      ensures Ready(lit) && candidates == [] && Permuted(old(clauses), clauses)
      ensures old(garbage) <= garbage <= old(garbage) + Members(old(pos))
      ensures !active || frozen || negatives > occurrenceLimit || (positives == 0 && negatives > 0) ==> garbage == old(garbage)
      ensures active && !frozen && negatives == 0 <= occurrenceLimit ==> garbage == old(garbage) + Members(old(pos))
      ensures active && !frozen && 0 < negatives <= occurrenceLimit && positives > 0 ==>
                garbage == old(garbage) + Removed(old(clauses), old(garbage), old(pos), old(nos), lit, least, most)
      ensures Repairs(f, entries, Live(clauses, garbage)) && external.extension == base + Flat(entries)
    {
      hide Clean, Connected, Permuted, AllClash, Kept, Removable, Removed, AllSmall, BlockedIds, Implausible, Members;
      hide Listed, Live, Blocked, Repairs, Flat, Models, Satisfies, Extended;
      entries := before;
      PermutedSelf(clauses);
      if !active || frozen || negatives > occurrenceLimit {
        return;
      }
      ConnectedListed(clauses, garbage, pos, lit);
      ConnectedListed(clauses, garbage, nos, -lit);
      RemovedPositive(clauses, garbage, pos, nos, lit, least, most);
      if negatives == 0 {
        entries := BlockPureLiteral(external, lit, f, base, before);
      } else if positives == 0 {
      } else if negatives == 1 {
        entries := BlockLiteralWithOneNegativeOcc(external, lit, least, most, f, base, before);
      } else {
        entries := BlockLiteralWithAtLeastTwoNegativeOccs(external, lit, least, most, f, base, before);
      }
    }
  }
}
