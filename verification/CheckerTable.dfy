/** Canonical literal order, clause hashing and the invariants of the chained
    hash table and the garbage list of the online proof checker. */
module CheckerTable {
  import opened Bits
  import opened Finite
  import opened Logic
  import opened CheckerState

  const WORD := 0x1_0000_0000_0000_0000

  function Abs(l: int): nat {
    if l < 0 then -l else l
  }

  /** Literals are sorted by variable, the negative one first. */
  predicate Smaller(a: int, b: int) {
    Abs(a) < Abs(b) || (Abs(a) == Abs(b) && a < b)
  }

  ghost predicate Sorted(s: seq<int>) {
    forall i, j :: 0 <= i < j < |s| ==> !Smaller(s[j], s[i])
  }

  ghost predicate StrictlySorted(s: seq<int>) {
    forall i, j :: 0 <= i < j < |s| ==> Smaller(s[i], s[j])
  }

  function Insert(x: int, s: seq<int>): seq<int> {
    if s == [] || Smaller(x, s[0]) then [x] + s else [s[0]] + Insert(x, s[1..])
  }

  function Sort(s: seq<int>): seq<int> {
    if s == [] then [] else Insert(s[0], Sort(s[1..]))
  }

  lemma {:induction false} InsertSorts(x: int, s: seq<int>)
    requires Sorted(s)
    ensures Sorted(Insert(x, s))
    ensures forall l :: l in Insert(x, s) <==> l == x || l in s
  {
    if s != [] && !Smaller(x, s[0]) {
      InsertSorts(x, s[1..]);
      assert s == [s[0]] + s[1..];
      var t := Insert(x, s[1..]);
      forall j | 0 <= j < |t| ensures !Smaller(t[j], s[0]) {
        assert t[j] in t;
        if t[j] != x {
          assert t[j] in s[1..];
        }
      }
    }
  }

  lemma {:induction false} SortSorts(s: seq<int>)
    ensures Sorted(Sort(s)) && SameLits(s, Sort(s))
  {
    if s != [] {
      SortSorts(s[1..]);
      InsertSorts(s[0], Sort(s[1..]));
      assert s == [s[0]] + s[1..];
    }
  }

  lemma SameLitsEmpty(s: seq<int>, t: seq<int>)
    requires SameLits(s, t) && |t| > 0
    ensures |s| > 0
  {
    var x := t[0];
    assert x in t;
    assert x in s;
  }

  /** The smallest element comes first. */
  lemma FirstIsLeast(s: seq<int>, l: int)
    requires StrictlySorted(s) && |s| > 0 && l in s
    ensures l == s[0] || Smaller(s[0], l)
    ensures l in s[1..] <==> l != s[0]
  {
    var k :| 0 <= k < |s| && s[k] == l;
    if k > 0 {
      assert l == s[1..][k - 1];
    } else {
      assert forall i :: 0 <= i < |s[1..]| ==> Smaller(s[0], s[1..][i]);
    }
  }

  /** A strictly sorted sequence is determined by its elements. */
  lemma {:induction false} CanonicalUnique(s: seq<int>, t: seq<int>)
    requires StrictlySorted(s) && StrictlySorted(t) && SameLits(s, t)
    ensures s == t
  {
    if |s| > 0 || |t| > 0 {
      if |s| > 0 {
        SameLitsEmpty(t, s);
      }
      if |t| > 0 {
        SameLitsEmpty(s, t);
      }
      assert s[0] in s && t[0] in t;
      FirstIsLeast(s, t[0]);
      FirstIsLeast(t, s[0]);
      forall l ensures l in s[1..] <==> l in t[1..] {
        if l in s {
          FirstIsLeast(s, l);
          FirstIsLeast(t, l);
        }
        assert (l in s[1..] ==> l in s) && (l in t[1..] ==> l in t);
      }
      CanonicalUnique(s[1..], t[1..]);
    }
  }

  /** The next literal of a sorted sequence that differs in variable from the
      last one kept is larger than all kept ones. */
  lemma LargerThanKept(s: seq<int>, i: nat, kept: seq<int>)
    requires Sorted(s) && i < |s| && s[i] != 0
    requires StrictlySorted(kept) && SameLits(kept, s[..i])
    requires |kept| > 0 ==> s[i] != kept[|kept| - 1] && s[i] != -kept[|kept| - 1]
    ensures StrictlySorted(kept + [s[i]])
    ensures s[i] !in kept && -s[i] !in kept
  {
    forall k | 0 <= k < |kept| ensures Abs(kept[k]) < Abs(s[i]) {
      var last := kept[|kept| - 1];
      assert last in kept && last in s[..i];
      var p :| 0 <= p < i && s[p] == last;
      assert !Smaller(s[i], s[p]);
      assert k < |kept| - 1 ==> Smaller(kept[k], last);
    }
  }

  /** The hash of the first `n` literals: nonces are used in rotation, a
      negative literal is sign-extended to 64 bits, arithmetic wraps around. */
  function HashPrefix(nonces: seq<nat>, s: seq<int>, n: nat): (h: nat)
    requires |nonces| == 4 && n <= |s|
    ensures h < WORD
  {
    if n == 0 then 0
    else (HashPrefix(nonces, s, n - 1) + nonces[(n - 1) % 4] * (s[n - 1] % WORD)) % WORD
  }

  lemma HashStep(nonces: seq<nat>, s: seq<int>, i: nat, j: nat)
    requires |nonces| == 4 && i < |s| && j == i % 4
    ensures HashPrefix(nonces, s, i + 1) == (HashPrefix(nonces, s, i) + nonces[j] * (s[i] % WORD)) % WORD
  {
  }

  function Hash(nonces: seq<nat>, s: seq<int>): nat
    requires |nonces| == 4
  {
    HashPrefix(nonces, s, |s|)
  }

  /** Fold the upper half of the hash onto the lower one until it fits; a table
      size is a power of two, so masking with `size - 1` is the remainder. */
  function Folded(hash: nat, shift: nat, size: nat): nat
    requires size >= 1
    decreases shift
  {
    if Pow2(shift) > size && shift > 0 then Folded(Xor(hash, ShiftRight(hash, shift)), shift / 2, size) else hash
  }

  function Reduced(hash: nat, size: nat): (h: nat)
    requires size >= 1
    ensures h < size
  {
    Folded(hash, 32, size) % size
  }

  /** The stored hash is the one of the literals in canonical order. */
  ghost predicate HashOk(nonces: seq<nat>, c: CheckerClause)
    requires |nonces| == 4
  {
    exists s :: StrictlySorted(s) && SameLits(s, c.literals) && c.hash == Hash(nonces, s)
  }

  type Table = seq<seq<nat>>

  /** Chain `h` of `n` holds the clauses with that reduced hash, each once. */
  ghost predicate ChainOk(hashes: map<nat, nat>, n: nat, h: nat, chain: seq<nat>) {
    && NoDup(chain)
    && n > 0
    && forall id :: id in chain <==> id in hashes && Reduced(hashes[id], n) == h
  }

  ghost predicate ChainsOk(hashes: map<nat, nat>, table: Table) {
    && (|table| == 0 ==> |hashes| == 0)
    && forall h :: 0 <= h < |table| ==> ChainOk(hashes, |table|, h, table[h])
  }

  /** The hashes of the live clauses. */
  ghost function Hashes(db: Database): map<nat, nat> {
    map id | id in db && db[id].size > 0 :: db[id].hash
  }

  ghost predicate TableOk(db: Database, table: Table, nonces: seq<nat>) {
    && |nonces| == 4
    && (|table| == 0 || PowerOfTwo(|table|))
    && ChainsOk(Hashes(db), table)
    && (forall id :: id in db ==> HashOk(nonces, db[id]))
  }

  lemma UnlinkKeepsChains(hashes: map<nat, nat>, table: Table, h: nat, k: nat)
    requires ChainsOk(hashes, table) && h < |table| && k < |table[h]|
    ensures table[h][k] in hashes
    ensures ChainsOk(hashes - {table[h][k]}, table[h := RemoveAt(table[h], k)])
  {
    hide Reduced;
    hide Hash;
    var id, chain := table[h][k], table[h];
    var chain' := RemoveAt(chain, k);
    assert ChainOk(hashes, |table|, h, chain) && id in chain;
    forall d ensures d in chain' <==> d in chain && d != id {
      if d in chain && d != id {
        var p :| 0 <= p < |chain| && chain[p] == d;
        assert chain'[if p < k then p else p - 1] == d;
      }
    }
    var table' := table[h := chain'];
    forall g | 0 <= g < |table'| ensures ChainOk(hashes - {id}, |table'|, g, table'[g]) {
      assert ChainOk(hashes, |table|, g, table[g]);
    }
  }

  lemma LinkKeepsChains(hashes: map<nat, nat>, table: Table, id: nat, hash: nat)
    requires ChainsOk(hashes, table) && id !in hashes && |table| > 0
    ensures var h := Reduced(hash, |table|);
            ChainsOk(hashes[id := hash], table[h := [id] + table[h]])
  {
    hide Reduced;
    hide Hash;
    var h := Reduced(hash, |table|);
    var chain' := [id] + table[h];
    assert ChainOk(hashes, |table|, h, table[h]);
    var table' := table[h := chain'];
    forall g | 0 <= g < |table'| ensures ChainOk(hashes[id := hash], |table'|, g, table'[g]) {
      assert ChainOk(hashes, |table|, g, table[g]);
    }
  }

  ghost function LiveIds(db: Database): set<nat> {
    set id | id in db && db[id].size > 0
  }

  ghost predicate GarbageOk(db: Database, garbage: seq<nat>) {
    && NoDup(garbage)
    && forall id :: id in garbage <==> id in db && db[id].size == 0
  }

  lemma SameClausesKeepTable(db: Database, db': Database, table: Table, nonces: seq<nat>, garbage: seq<nat>)
    requires SameClauses(db, db')
    requires TableOk(db, table, nonces) && GarbageOk(db, garbage)
    ensures TableOk(db', table, nonces) && GarbageOk(db', garbage) && LiveIds(db') == LiveIds(db)
  {
    hide Reduced;
    hide Hash;
    assert Hashes(db') == Hashes(db);
    forall id | id in db' ensures HashOk(nonces, db'[id]) {
      assert HashOk(nonces, db[id]);
      var s :| StrictlySorted(s) && SameLits(s, db[id].literals) && db[id].hash == Hash(nonces, s);
      assert SameLits(s, db'[id].literals);
    }
  }

  /** A live clause over the literals `s` can only sit in the chain of the hash of `s`. */
  lemma FindsItsChain(db: Database, table: Table, nonces: seq<nat>, id: nat, s: seq<int>)
    requires TableOk(db, table, nonces) && Live(db, id)
    requires StrictlySorted(s) && SameLits(s, db[id].literals)
    ensures db[id].hash == Hash(nonces, s)
    ensures |table| > 0 && id in table[Reduced(Hash(nonces, s), |table|)]
  {
    hide Reduced;
    hide Hash;
    assert HashOk(nonces, db[id]);
    var t :| StrictlySorted(t) && SameLits(t, db[id].literals) && db[id].hash == Hash(nonces, t);
    CanonicalUnique(s, t);
    assert id in Hashes(db);
    assert |table| > 0;
    var h := Reduced(Hash(nonces, s), |table|);
    assert ChainOk(Hashes(db), |table|, h, table[h]);
  }

  lemma StrictlySortedNoDup(s: seq<int>)
    requires StrictlySorted(s)
    ensures NoDup(s)
  {
  }

  /** Two repetition-free clauses of equal length, one within the other, agree. */
  lemma SubsetOfEqualLength(s: seq<int>, t: seq<int>)
    requires NoDup(s) && NoDup(t) && |s| == |t|
    requires forall l :: l in s ==> l in t
    ensures SameLits(s, t)
  {
    DistinctCount(s);
    DistinctCount(t);
    assert Elements(s) <= Elements(t);
    SubsetEqual(Elements(s), Elements(t));
    forall l ensures l in s <==> l in t {
      assert l in s <==> l in Elements(s);
      assert l in t <==> l in Elements(t);
    }
  }

  lemma SubsetEqual(a: set<int>, b: set<int>)
    requires a <= b && |a| == |b|
    ensures a == b
  {
    forall x | x in b ensures x in a {
      if x !in a {
        CardinalityMonotone(a, b - {x});
      }
    }
  }

  /* ---- the clause database as the checker's methods see it ---- */

  ghost predicate DatabaseOk(db: Database, table: Table, nonces: seq<nat>, garbage: seq<nat>,
                             numClauses: nat, numGarbage: nat, nextAddress: nat) {
    && TableOk(db, table, nonces) && GarbageOk(db, garbage)
    && numClauses == |LiveIds(db)| <= |table| && numGarbage == |garbage|
    && (forall id :: id in db ==> id < nextAddress)
  }

  function WithoutEntry(table: Table, h: nat, k: nat): Table
    requires h < |table| && k < |table[h]|
  {
    table[h := RemoveAt(table[h], k)]
  }

  /** Unlinking a clause from its chain and putting it on the garbage list. */
  lemma DiscardEntry(db: Database, table: Table, nonces: seq<nat>, garbage: seq<nat>,
                     numClauses: nat, numGarbage: nat, nextAddress: nat, h: nat, k: nat)
    requires DatabaseOk(db, table, nonces, garbage, numClauses, numGarbage, nextAddress)
    requires h < |table| && k < |table[h]|
    ensures Live(db, table[h][k]) && numClauses > 0
    ensures DatabaseOk(Discarded(db, table[h][k]), WithoutEntry(table, h, k), nonces, [table[h][k]] + garbage,
                       numClauses - 1, numGarbage + 1, nextAddress)
  {
    hide Reduced;
    hide Hash;
    var id := table[h][k];
    DiscardTable(db, table, nonces, h, k);
    hide TableOk;
    assert id in LiveIds(db);
    assert LiveIds(Discarded(db, id)) == LiveIds(db) - {id};
    assert id !in garbage;
  }

  lemma DiscardTable(db: Database, table: Table, nonces: seq<nat>, h: nat, k: nat)
    requires TableOk(db, table, nonces)
    requires h < |table| && k < |table[h]|
    ensures Live(db, table[h][k])
    ensures TableOk(Discarded(db, table[h][k]), WithoutEntry(table, h, k), nonces)
  {
    hide Reduced;
    hide Hash;
    var id := table[h][k];
    UnlinkKeepsChains(Hashes(db), table, h, k);
    var db' := Discarded(db, id);
    assert Hashes(db') == Hashes(db) - {id};
    forall d | d in db' ensures HashOk(nonces, db'[d]) {
      assert HashOk(nonces, db[d]);
    }
  }

  /** Linking a new clause into the chain of its hash value. */
  lemma InsertEntry(db: Database, table: Table, nonces: seq<nat>, garbage: seq<nat>,
                    numClauses: nat, numGarbage: nat, nextAddress: nat, c: CheckerClause, h: nat)
    requires DatabaseOk(db, table, nonces, garbage, numClauses, numGarbage, nextAddress)
    requires c.size > 0 && HashOk(nonces, c) && numClauses < |table| && h == Reduced(c.hash, |table|)
    ensures DatabaseOk(db[nextAddress := c], table[h := [nextAddress] + table[h]], nonces, garbage,
                       numClauses + 1, numGarbage, nextAddress + 1)
  {
    var id := nextAddress;
    hide Reduced, HashOk, TableOk, GarbageOk, LiveIds;
    assert id !in db;
    InsertTable(db, table, nonces, id, c, h);
    InsertGarbage(db, garbage, id, c);
    InsertLive(db, id, c);
  }

  lemma InsertGarbage(db: Database, garbage: seq<nat>, id: nat, c: CheckerClause)
    requires GarbageOk(db, garbage) && id !in db && c.size > 0
    ensures GarbageOk(db[id := c], garbage)
  {
  }

  lemma InsertLive(db: Database, id: nat, c: CheckerClause)
    requires id !in db && c.size > 0
    ensures |LiveIds(db[id := c])| == |LiveIds(db)| + 1
  {
    assert LiveIds(db[id := c]) == LiveIds(db) + {id} && id !in LiveIds(db);
  }

  lemma InsertTable(db: Database, table: Table, nonces: seq<nat>, id: nat, c: CheckerClause, h: nat)
    requires TableOk(db, table, nonces) && id !in db
    requires c.size > 0 && HashOk(nonces, c) && |table| > 0 && h == Reduced(c.hash, |table|)
    ensures TableOk(db[id := c], table[h := [id] + table[h]], nonces)
  {
    hide Reduced;
    hide Hash;
    var db' := db[id := c];
    LinkKeepsChains(Hashes(db), table, id, c.hash);
    assert Hashes(db') == Hashes(db)[id := c.hash];
    forall d | d in db' ensures HashOk(nonces, db'[d]) {
      assert d != id ==> HashOk(nonces, db[d]);
    }
  }

  lemma SameClausesKeepDatabase(db: Database, db': Database, table: Table, nonces: seq<nat>, garbage: seq<nat>,
                                numClauses: nat, numGarbage: nat, nextAddress: nat)
    requires SameClauses(db, db')
    requires DatabaseOk(db, table, nonces, garbage, numClauses, numGarbage, nextAddress)
    ensures DatabaseOk(db', table, nonces, garbage, numClauses, numGarbage, nextAddress)
  {
    hide Reduced;
    hide Hash;
    SameClausesKeepTable(db, db', table, nonces, garbage);
  }

  lemma FreedDatabase(db: Database, table: Table, nonces: seq<nat>, garbage: seq<nat>,
                      numClauses: nat, numGarbage: nat, nextAddress: nat)
    requires DatabaseOk(db, table, nonces, garbage, numClauses, numGarbage, nextAddress)
    ensures DatabaseOk(Freed(db), table, nonces, [], numClauses, 0, nextAddress)
  {
    hide Reduced;
    hide Hash;
    assert LiveIds(Freed(db)) == LiveIds(db) && Hashes(Freed(db)) == Hashes(db);
    forall d | d in Freed(db) ensures HashOk(nonces, Freed(db)[d]) {
      assert HashOk(nonces, db[d]);
    }
  }

  /* ---- rehashing ---- */

  /** The clauses in the chains before `i` and in the first `p` entries of chain `i`. */
  ghost predicate Visited(table: Table, i: nat, p: nat, id: nat) {
    || (exists h :: 0 <= h < i && h < |table| && id in table[h])
    || (i < |table| && p <= |table[i]| && id in table[i][..p])
  }

  /** `table'` holds exactly the visited clauses of `table`. */
  ghost predicate Rehashed(hashes: map<nat, nat>, table: Table, i: nat, p: nat, table': Table, part: map<nat, nat>) {
    && |table'| > 0 && ChainsOk(part, table')
    && (forall id :: id in part ==> id in hashes && part[id] == hashes[id])
    && (forall id :: id in part <==> Visited(table, i, p, id))
  }

  lemma RehashStep(hashes: map<nat, nat>, table: Table, i: nat, p: nat, table': Table, part: map<nat, nat>)
    requires ChainsOk(hashes, table) && Rehashed(hashes, table, i, p, table', part)
    requires i < |table| && p < |table[i]|
    ensures var id := table[i][p];
            id in hashes &&
            var h := Reduced(hashes[id], |table'|);
            Rehashed(hashes, table, i, p + 1, table'[h := [id] + table'[h]], part[id := hashes[id]])
  {
    hide Reduced;
    hide Hash;
    var id := table[i][p];
    assert ChainOk(hashes, |table|, i, table[i]) && id in table[i];
    assert table[i][..p + 1] == table[i][..p] + [id];
    assert forall d :: Visited(table, i, p + 1, d) <==> Visited(table, i, p, d) || d == id;
    NotYetVisited(hashes, table, i, p);
    LinkKeepsChains(part, table', id, hashes[id]);
  }

  lemma NotYetVisited(hashes: map<nat, nat>, table: Table, i: nat, p: nat)
    requires ChainsOk(hashes, table) && i < |table| && p < |table[i]|
    ensures !Visited(table, i, p, table[i][p])
  {
    hide Reduced;
    hide Hash;
    var id := table[i][p];
    assert ChainOk(hashes, |table|, i, table[i]) && id in table[i];
    assert id !in table[i][..p];
    forall h | 0 <= h < i ensures id !in table[h] {
      assert ChainOk(hashes, |table|, h, table[h]);
    }
  }

  lemma RehashNextChain(hashes: map<nat, nat>, table: Table, i: nat, table': Table, part: map<nat, nat>)
    requires i < |table| && Rehashed(hashes, table, i, |table[i]|, table', part)
    ensures Rehashed(hashes, table, i + 1, 0, table', part)
  {
    assert table[i][..|table[i]|] == table[i];
    forall d ensures Visited(table, i + 1, 0, d) <==> Visited(table, i, |table[i]|, d) {
      if Visited(table, i + 1, 0, d) {
        var h :| 0 <= h < i + 1 && h < |table| && d in table[h];
      }
    }
  }

  lemma RehashDone(hashes: map<nat, nat>, table: Table, table': Table, part: map<nat, nat>)
    requires ChainsOk(hashes, table) && Rehashed(hashes, table, |table|, 0, table', part)
    ensures ChainsOk(hashes, table')
  {
    hide Reduced;
    hide Hash;
    forall id | id in hashes ensures id in part {
      assert |table| > 0;
      var h := Reduced(hashes[id], |table|);
      assert ChainOk(hashes, |table|, h, table[h]);
      assert Visited(table, |table|, 0, id);
    }
    assert part == hashes;
  }

  lemma RehashBegins(hashes: map<nat, nat>, table: Table, table': Table)
    requires |table'| > 0 && forall h :: 0 <= h < |table'| ==> table'[h] == []
    ensures Rehashed(hashes, table, 0, 0, table', map[])
  {
    hide Reduced;
    forall h | 0 <= h < |table'| ensures ChainOk(map[], |table'|, h, table'[h]) {
    }
    if |table| > 0 {
      assert table[0][..0] == [];
    }
  }

  lemma ChainEntryLive(db: Database, table: Table, nonces: seq<nat>, h: nat, k: nat)
    requires TableOk(db, table, nonces) && h < |table| && k < |table[h]|
    ensures Live(db, table[h][k])
  {
    hide Reduced;
    assert ChainOk(Hashes(db), |table|, h, table[h]) && table[h][k] in table[h];
  }

  /** Clauses over the same literals have the same size and hash. */
  lemma SameClauseSameHash(db: Database, table: Table, nonces: seq<nat>, id: nat, s: seq<int>)
    requires TableOk(db, table, nonces) && Live(db, id) && StrictlySorted(s)
    requires NoDup(db[id].literals) && SameLits(s, db[id].literals)
    ensures db[id].hash == Hash(nonces, s) && |db[id].literals| == |s|
  {
    hide Reduced;
    hide Hash;
    FindsItsChain(db, table, nonces, id, s);
    StrictlySortedNoDup(s);
    DistinctCount(s);
    DistinctCount(db[id].literals);
    SameLitsSameElements(s, db[id].literals);
  }

  lemma SameLitsSameElements(s: seq<int>, t: seq<int>)
    requires SameLits(s, t)
    ensures Elements(s) == Elements(t)
  {
    forall l ensures l in Elements(s) <==> l in Elements(t) {
      assert (l in Elements(s) <==> l in s) && (l in Elements(t) <==> l in t);
    }
  }

  lemma AllInChain(db: Database, table: Table, nonces: seq<nat>, s: seq<int>)
    requires TableOk(db, table, nonces) && StrictlySorted(s) && |table| > 0
    ensures forall id :: Live(db, id) && SameLits(s, db[id].literals) ==> id in table[Reduced(Hash(nonces, s), |table|)]
  {
    hide Reduced;
    hide Hash;
    forall id | Live(db, id) && SameLits(s, db[id].literals)
      ensures id in table[Reduced(Hash(nonces, s), |table|)]
    {
      FindsItsChain(db, table, nonces, id, s);
    }
  }
}
