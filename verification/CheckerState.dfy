/** Invariants of the online proof checker, as predicates over the values of
    its fields, and the lemmas that each elementary update keeps them. */
module CheckerState {
  import opened Finite
  import opened Logic

  /** `size` is zero once the clause is garbage, else the number of literals. */
  datatype CheckerClause = CheckerClause(literals: seq<int>, hash: nat, size: nat)

  datatype Watch = Watch(blit: int, size: nat, clause: nat)

  type Database = map<nat, CheckerClause>
  type Watchers = map<int, seq<Watch>>

  predicate InRange(l: int, n: nat) {
    l != 0 && 0 - n < l < n
  }

  function Val(vals: map<int, int>, l: int): int {
    if l in vals then vals[l] else 0
  }

  function WatchList(watchers: Watchers, l: int): seq<Watch> {
    if l in watchers then watchers[l] else []
  }

  ghost predicate Live(db: Database, id: nat) {
    id in db && db[id].size > 0
  }

  ghost function Sign(trail: seq<int>, l: int): int {
    if l in trail then 1 else if -l in trail then -1 else 0
  }

  /** `vals` is exactly the assignment recorded on the trail. */
  ghost predicate AssignmentOk(vals: map<int, int>, trail: seq<int>, n: nat) {
    && NoDup(trail)
    && (forall l :: l in trail ==> InRange(l, n))
    && (forall l :: l in trail ==> -l !in trail)
    && (forall l :: Val(vals, l) == Sign(trail, l))
  }

  ghost predicate ClauseOk(c: CheckerClause, n: nat) {
    && |c.literals| >= 2
    && NoDup(c.literals)
    && (forall l :: l in c.literals ==> InRange(l, n))
    && (c.size == 0 || c.size == |c.literals|)
  }

  ghost predicate ClausesOk(db: Database, n: nat) {
    forall id :: id in db ==> ClauseOk(db[id], n)
  }

  ghost predicate IsWatch(c: CheckerClause, l: int) {
    |c.literals| >= 2 && (l == c.literals[0] || l == c.literals[1])
  }

  ghost predicate WatchOk(db: Database, l: int, w: Watch) {
    && w.clause in db
    && w.size == |db[w.clause].literals|
    && w.blit in db[w.clause].literals
    && l in db[w.clause].literals
    && w.blit != l
    && (db[w.clause].size > 0 ==> IsWatch(db[w.clause], l))
  }

  ghost predicate ListOk(db: Database, l: int, ws: seq<Watch>) {
    && (forall k :: 0 <= k < |ws| ==> WatchOk(db, l, ws[k]))
    && (forall j, k :: 0 <= j < k < |ws| ==> ws[j].clause != ws[k].clause)
  }

  ghost predicate WatchersOk(db: Database, watchers: Watchers) {
    forall l :: ListOk(db, l, WatchList(watchers, l))
  }

  /** The clause occurs in the list at or after position `from`. */
  ghost predicate Listed(ws: seq<Watch>, from: nat, id: nat) {
    exists k :: from <= k < |ws| && ws[k].clause == id
  }

  /** Both watched literals of every live clause have their watch. */
  ghost predicate Watched(db: Database, watchers: Watchers) {
    forall id, l :: Live(db, id) && IsWatch(db[id], l) ==> Listed(WatchList(watchers, l), 0, id)
  }

  ghost predicate Shape(n: nat, vals: map<int, int>, trail: seq<int>, db: Database, watchers: Watchers) {
    && AssignmentOk(vals, trail, n)
    && ClausesOk(db, n)
    && WatchersOk(db, watchers)
    && Watched(db, watchers)
  }

  /** The two-watched-literal invariant: a live clause with a watch falsified
      by `done` is satisfied by `trail`. */
  ghost predicate Propagated(db: Database, done: seq<int>, trail: seq<int>) {
    forall id, l :: Live(db, id) && IsWatch(db[id], l) && -l in done ==> SatisfiedBy(trail, db[id].literals)
  }

  /** The same for one literal `l` whose watch list is processed up to `j`. */
  ghost predicate PropagatedUpTo(db: Database, l: int, ws: seq<Watch>, j: nat, trail: seq<int>) {
    forall id :: Live(db, id) && IsWatch(db[id], l) ==>
                   SatisfiedBy(trail, db[id].literals) || Listed(ws, j, id)
  }

  ghost predicate DbSound(db: Database, g: Formula) {
    forall id :: id in db ==> Entails(g, db[id].literals)
  }

  ghost predicate TrailSound(trail: seq<int>, g: Formula) {
    forall l :: l in trail ==> Entails(g, [l])
  }

  /** Only the order of literals within clauses differs. */
  ghost predicate SameClauses(db: Database, db': Database) {
    && db.Keys == db'.Keys
    && forall id :: id in db ==>
         && db[id].size == db'[id].size
         && db[id].hash == db'[id].hash
         && |db[id].literals| == |db'[id].literals|
         && SameLits(db[id].literals, db'[id].literals)
  }

  lemma SameClausesReflexive(db: Database)
    ensures SameClauses(db, db)
  {
  }

  lemma SameClausesTransitive(a: Database, b: Database, c: Database)
    requires SameClauses(a, b) && SameClauses(b, c)
    ensures SameClauses(a, c)
  {
    forall id | id in a ensures SameLits(a[id].literals, c[id].literals) {
      assert SameLits(a[id].literals, b[id].literals) && SameLits(b[id].literals, c[id].literals);
    }
  }

  /** A fully propagated clause is satisfied or has two unassigned literals. */
  ghost predicate Settled(c: Clause, trail: seq<int>) {
    || SatisfiedBy(trail, c)
    || exists i, j :: 0 <= i < j < |c| && c[i] !in trail && -c[i] !in trail && c[j] !in trail && -c[j] !in trail
  }

  lemma PropagatedSettles(db: Database, trail: seq<int>, n: nat)
    requires ClausesOk(db, n)
    requires Propagated(db, trail, trail)
    ensures forall id :: Live(db, id) ==> Settled(db[id].literals, trail)
  {
    forall id | Live(db, id) ensures Settled(db[id].literals, trail) {
      var c := db[id].literals;
      assert ClauseOk(db[id], n);
      assert IsWatch(db[id], c[0]) && IsWatch(db[id], c[1]);
      if !SatisfiedBy(trail, c) {
        assert c[0] in c && c[1] in c;
        assert c[0] !in trail && -c[0] !in trail && c[1] !in trail && -c[1] !in trail;
      }
    }
  }

  /* ---- assignments ---- */

  function Assigned(vals: map<int, int>, l: int): map<int, int> {
    vals[l := 1][-l := -1]
  }

  lemma AssignKeeps(vals: map<int, int>, trail: seq<int>, n: nat, l: int)
    requires AssignmentOk(vals, trail, n)
    requires InRange(l, n) && Val(vals, l) == 0
    ensures AssignmentOk(Assigned(vals, l), trail + [l], n)
  {
    assert Sign(trail, l) == 0;
    var vals', trail' := Assigned(vals, l), trail + [l];
    forall k ensures Val(vals', k) == Sign(trail', k) {
      assert Val(vals, k) == Sign(trail, k);
    }
  }

  lemma GrowingTrailKeeps(db: Database, done: seq<int>, trail: seq<int>, l: int)
    requires Propagated(db, done, trail)
    ensures Propagated(db, done, trail + [l])
  {
    forall id, k | Live(db, id) && IsWatch(db[id], k) && -k in done
      ensures SatisfiedBy(trail + [l], db[id].literals)
    {
      var x :| x in db[id].literals && x in trail;
      assert x in trail + [l];
    }
  }

  lemma GrowingTrailKeepsUpTo(db: Database, l: int, ws: seq<Watch>, j: nat, trail: seq<int>, x: int)
    requires PropagatedUpTo(db, l, ws, j, trail)
    ensures PropagatedUpTo(db, l, ws, j, trail + [x])
  {
    forall id | Live(db, id) && IsWatch(db[id], l)
      ensures SatisfiedBy(trail + [x], db[id].literals) || Listed(ws, j, id)
    {
      if SatisfiedBy(trail, db[id].literals) {
        var y :| y in db[id].literals && y in trail;
        assert y in trail + [x];
      }
    }
  }

  /** A trail without repetition over `n` variables cannot outgrow them. */
  lemma TrailBound(vals: map<int, int>, trail: seq<int>, n: nat)
    requires AssignmentOk(vals, trail, n)
    ensures |trail| <= 2 * n
  {
    DistinctLiterals(trail, n);
  }

  /* ---- watches ---- */

  function RemoveAt<T>(s: seq<T>, j: nat): seq<T>
    requires j < |s|
  {
    s[..j] + s[j + 1..]
  }

  lemma RemovedListOk(db: Database, l: int, ws: seq<Watch>, j: nat)
    requires ListOk(db, l, ws) && j < |ws|
    ensures ListOk(db, l, RemoveAt(ws, j))
  {
  }

  lemma RemovedListed(ws: seq<Watch>, j: nat, from: nat, id: nat)
    requires from <= j < |ws| && ws[j].clause != id
    requires Listed(ws, from, id)
    ensures Listed(RemoveAt(ws, j), from, id)
  {
    var r := RemoveAt(ws, j);
    var k :| from <= k < |ws| && ws[k].clause == id;
    if k < j {
      assert r[k] == ws[k];
    } else {
      assert r[k - 1] == ws[k];
    }
  }

  lemma AppendedListed(ws: seq<Watch>, w: Watch, id: nat)
    ensures Listed(ws, 0, id) || id == w.clause ==> Listed(ws + [w], 0, id)
  {
    var r := ws + [w];
    assert r[|ws|] == w;
    if Listed(ws, 0, id) {
      var k :| 0 <= k < |ws| && ws[k].clause == id;
      assert r[k] == ws[k];
    }
  }

  /** Dropping the watch of a garbage clause. */
  lemma DropKeeps(db: Database, watchers: Watchers, l: int, j: nat)
    requires WatchersOk(db, watchers) && Watched(db, watchers)
    requires j < |WatchList(watchers, l)|
    requires !Live(db, WatchList(watchers, l)[j].clause)
    ensures var watchers' := watchers[l := RemoveAt(WatchList(watchers, l), j)];
            WatchersOk(db, watchers') && Watched(db, watchers')
  {
    var ws := WatchList(watchers, l);
    var watchers' := watchers[l := RemoveAt(ws, j)];
    RemovedListOk(db, l, ws, j);
    forall k ensures ListOk(db, k, WatchList(watchers', k)) {
      assert k != l ==> WatchList(watchers', k) == WatchList(watchers, k);
    }
    forall id, k | Live(db, id) && IsWatch(db[id], k) ensures Listed(WatchList(watchers', k), 0, id) {
      assert Listed(WatchList(watchers, k), 0, id);
      if k == l {
        RemovedListed(ws, j, 0, id);
      }
    }
  }

  /** Replacing a blocking literal by another literal of the clause. */
  lemma BlitKeeps(db: Database, watchers: Watchers, l: int, j: nat, blit: int)
    requires WatchersOk(db, watchers) && Watched(db, watchers)
    requires j < |WatchList(watchers, l)|
    requires blit != l && WatchList(watchers, l)[j].clause in db
    requires blit in db[WatchList(watchers, l)[j].clause].literals
    ensures var ws := WatchList(watchers, l);
            var watchers' := watchers[l := ws[j := ws[j].(blit := blit)]];
            WatchersOk(db, watchers') && Watched(db, watchers')
  {
    var ws := WatchList(watchers, l);
    var ws' := ws[j := ws[j].(blit := blit)];
    var watchers' := watchers[l := ws'];
    assert forall k :: WatchList(watchers', k) == if k == l then ws' else WatchList(watchers, k);
    assert ListOk(db, l, ws);
    hide WatchList, ListOk, Listed, IsWatch;
    BlitList(db, l, ws, j, blit);
    forall id, k | Live(db, id) && IsWatch(db[id], k) ensures Listed(WatchList(watchers', k), 0, id) {
      assert Listed(WatchList(watchers, k), 0, id);
    }
  }

  /** One list with another blocking literal at one position. */
  lemma BlitList(db: Database, l: int, ws: seq<Watch>, j: nat, blit: int)
    requires ListOk(db, l, ws) && j < |ws| && blit != l && ws[j].clause in db && blit in db[ws[j].clause].literals
    ensures ListOk(db, l, ws[j := ws[j].(blit := blit)])
    ensures forall id :: Listed(ws, 0, id) ==> Listed(ws[j := ws[j].(blit := blit)], 0, id)
  {
    var ws' := ws[j := ws[j].(blit := blit)];
    assert WatchOk(db, l, ws[j]);
    forall id | Listed(ws, 0, id) ensures Listed(ws', 0, id) {
      var p :| 0 <= p < |ws| && ws[p].clause == id;
      assert ws'[p].clause == id;
    }
  }

  /** Changing the literals of one clause. */
  function WithLiterals(db: Database, id: nat, lits: seq<int>): Database
    requires id in db
  {
    db[id := db[id].(literals := lits)]
  }

  /** Putting the propagated watch second, the other watch first. */
  function Oriented(lits: seq<int>, l: int): seq<int>
    requires |lits| >= 2
  {
    var other := if lits[0] == l then lits[1] else lits[0];
    lits[0 := other][1 := l]
  }

  /** The only watch of `db'` that is no watch of `db` is `r`. */
  ghost predicate NewWatch(db: Database, db': Database, r: int) {
    && db.Keys == db'.Keys
    && forall id, x :: id in db && IsWatch(db'[id], x) ==> x == r || IsWatch(db[id], x)
  }

  lemma OrientKeeps(n: nat, db: Database, watchers: Watchers, id: nat, l: int)
    requires ClausesOk(db, n) && WatchersOk(db, watchers) && Watched(db, watchers)
    requires Live(db, id) && IsWatch(db[id], l)
    ensures var db' := WithLiterals(db, id, Oriented(db[id].literals, l));
            && ClausesOk(db', n) && WatchersOk(db', watchers) && Watched(db', watchers)
            && SameClauses(db, db') && IsWatch(db'[id], l)
            && NewWatch(db, db', 0)
  {
    var lits := db[id].literals;
    var lits' := Oriented(lits, l);
    var db' := WithLiterals(db, id, lits');
    assert ClauseOk(db[id], n);
    assert lits' == lits || lits' == lits[0 := lits[1]][1 := lits[0]];
    SwapKeepsLits(lits, 0, 1);
    assert SameLits(lits, lits') && NoDup(lits') && |lits'| == |lits|;
    assert forall k :: IsWatch(db[id], k) <==> IsWatch(db'[id], k);
    forall k ensures ListOk(db', k, WatchList(watchers, k)) {
      assert ListOk(db, k, WatchList(watchers, k));
      forall p | 0 <= p < |WatchList(watchers, k)| ensures WatchOk(db', k, WatchList(watchers, k)[p]) {
        assert WatchOk(db, k, WatchList(watchers, k)[p]);
      }
    }
    forall d, k | Live(db', d) && IsWatch(db'[d], k) ensures Listed(WatchList(watchers, k), 0, d) {
      assert Live(db, d) && IsWatch(db[d], k);
    }
  }

  lemma SwapKeepsLits(s: seq<int>, i: nat, j: nat)
    requires i < |s| && j < |s|
    ensures SameLits(s, s[i := s[j]][j := s[i]])
    ensures NoDup(s) ==> NoDup(s[i := s[j]][j := s[i]])
  {
    var t := s[i := s[j]][j := s[i]];
    assert t[i] == s[j] && t[j] == s[i];
    forall l ensures l in s <==> l in t {
      if l in s {
        var k :| 0 <= k < |s| && s[k] == l;
        assert l == if k == i then t[j] else if k == j then t[i] else t[k];
      }
    }
  }

  /** `db'` is `db` after the watch `l` of clause `id` was exchanged for `r`. */
  ghost predicate Moved(db: Database, db': Database, id: nat, l: int, r: int) {
    && SameClauses(db, db')
    && Live(db, id) && IsWatch(db[id], l) && !IsWatch(db[id], r)
    && IsWatch(db'[id], r)
    && l in db[id].literals && r in db[id].literals && l != r
    && (forall x :: x != l && IsWatch(db[id], x) ==> IsWatch(db'[id], x))
    && (forall d :: d in db && d != id ==> db[d] == db'[d])
  }

  lemma LeftListOk(db: Database, db': Database, id: nat, l: int, ws: seq<Watch>, j: nat)
    requires exists r :: Moved(db, db', id, l, r)
    requires ListOk(db, l, ws) && j < |ws| && ws[j].clause == id
    ensures ListOk(db', l, RemoveAt(ws, j))
  {
    RemovedListOk(db, l, ws, j);
    var now := RemoveAt(ws, j);
    forall p | 0 <= p < |now| ensures WatchOk(db', l, now[p]) {
      var q := if p < j then p else p + 1;
      assert now[p] == ws[q] && WatchOk(db, l, ws[q]) && ws[q].clause != id;
    }
  }

  lemma OtherListOk(db: Database, db': Database, id: nat, l: int, r: int, x: int, ws: seq<Watch>)
    requires Moved(db, db', id, l, r)
    requires ListOk(db, x, ws) && x != l
    ensures ListOk(db', x, if x == r then ws + [Watch(l, |db[id].literals|, id)] else ws)
  {
    forall p | 0 <= p < |ws|
      ensures WatchOk(db', x, ws[p]) && (x == r ==> ws[p].clause != id)
    {
      assert WatchOk(db, x, ws[p]);
    }
  }

  /** Exchanging the second watch `l` of a long clause for its literal at `k`. */
  lemma MoveClause(n: nat, db: Database, id: nat, l: int, k: nat)
    requires ClausesOk(db, n)
    requires Live(db, id) && 2 <= k < |db[id].literals| && db[id].literals[1] == l
    ensures var lits := db[id].literals;
            var db' := WithLiterals(db, id, lits[1 := lits[k]][k := l]);
            ClausesOk(db', n) && Moved(db, db', id, l, lits[k]) && !IsWatch(db'[id], l)
            && NewWatch(db, db', lits[k])
  {
    var lits := db[id].literals;
    assert ClauseOk(db[id], n);
    SwapKeepsLits(lits, 1, k);
    var lits' := lits[1 := lits[k]][k := l];
    assert lits'[0] == lits[0] && lits'[1] == lits[k];
  }

  function MovedWatchers(watchers: Watchers, l: int, j: nat, r: int, w: Watch): Watchers
    requires j < |WatchList(watchers, l)|
  {
    watchers[l := RemoveAt(WatchList(watchers, l), j)][r := WatchList(watchers, r) + [w]]
  }

  lemma MoveWatchers(db: Database, db': Database, watchers: Watchers, id: nat, l: int, j: nat, r: int)
    requires WatchersOk(db, watchers) && Watched(db, watchers)
    requires Moved(db, db', id, l, r) && !IsWatch(db'[id], l)
    requires NewWatch(db, db', r)
    requires j < |WatchList(watchers, l)| && WatchList(watchers, l)[j].clause == id
    ensures var watchers' := MovedWatchers(watchers, l, j, r, Watch(l, |db[id].literals|, id));
            WatchersOk(db', watchers') && Watched(db', watchers')
  {
    hide *;
    MovedListsOk(db, db', watchers, id, l, j, r);
    MovedWatched(db, db', watchers, id, l, j, r);
  }

  /** The list of `l` loses the watch, the one of `r` gets it at its end. */
  lemma MovedList(watchers: Watchers, l: int, j: nat, r: int, w: Watch, x: int)
    requires j < |WatchList(watchers, l)| && l != r
    ensures WatchList(MovedWatchers(watchers, l, j, r, w), x) ==
      var ws := WatchList(watchers, x); if x == l then RemoveAt(ws, j) else if x == r then ws + [w] else ws
  {
    hide RemoveAt;
  }

  lemma MovedListsOk(db: Database, db': Database, watchers: Watchers, id: nat, l: int, j: nat, r: int)
    requires WatchersOk(db, watchers) && Moved(db, db', id, l, r) && !IsWatch(db'[id], l)
    requires j < |WatchList(watchers, l)| && WatchList(watchers, l)[j].clause == id
    ensures WatchersOk(db', MovedWatchers(watchers, l, j, r, Watch(l, |db[id].literals|, id)))
  {
    var w := Watch(l, |db[id].literals|, id);
    MovedApart(db, db', id, l, r);
    hide ListOk, Moved, IsWatch, MovedWatchers, WatchList, RemoveAt;
    forall x ensures ListOk(db', x, WatchList(MovedWatchers(watchers, l, j, r, w), x)) {
      assert ListOk(db, x, WatchList(watchers, x));
      MovedList(watchers, l, j, r, w, x);
      if x == l {
        LeftListOk(db, db', id, l, WatchList(watchers, l), j);
      } else {
        OtherListOk(db, db', id, l, r, x, WatchList(watchers, x));
      }
    }
  }

  lemma MovedApart(db: Database, db': Database, id: nat, l: int, r: int)
    requires Moved(db, db', id, l, r) && !IsWatch(db'[id], l)
    ensures l != r
  {
  }

  lemma MovedWatched(db: Database, db': Database, watchers: Watchers, id: nat, l: int, j: nat, r: int)
    requires Watched(db, watchers) && Moved(db, db', id, l, r) && !IsWatch(db'[id], l) && NewWatch(db, db', r)
    requires j < |WatchList(watchers, l)| && WatchList(watchers, l)[j].clause == id
    ensures Watched(db', MovedWatchers(watchers, l, j, r, Watch(l, |db[id].literals|, id)))
  {
    var w := Watch(l, |db[id].literals|, id);
    var watchers' := MovedWatchers(watchers, l, j, r, w);
    MovedApart(db, db', id, l, r);
    forall d, x | Live(db', d) && IsWatch(db'[d], x) ensures Listed(WatchList(watchers', x), 0, d) {
      OldWatch(db, db', id, l, r, d, x);
      hide Moved, NewWatch, IsWatch, MovedWatchers, WatchList, RemoveAt, Listed;
      var before := WatchList(watchers, x);
      MovedList(watchers, l, j, r, w, x);
      AppendedListed(before, w, d);
      if d != id || x != r {
        assert Listed(before, 0, d);
        if x == l {
          RemovedListed(before, j, 0, d);
        }
      }
    }
  }

  /** The only new watch is that of the moved clause. */
  lemma OldWatch(db: Database, db': Database, id: nat, l: int, r: int, d: nat, x: int)
    requires Moved(db, db', id, l, r) && NewWatch(db, db', r) && Live(db', d) && IsWatch(db'[d], x)
    ensures Live(db, d) && (d != id || x != r ==> IsWatch(db[d], x))
    ensures x == l ==> !IsWatch(db'[id], l) ==> d != id
  {
  }

  /* ---- propagation steps ---- */

  lemma StepSatisfied(db: Database, l: int, ws: seq<Watch>, ws': seq<Watch>, j: nat, trail: seq<int>)
    requires PropagatedUpTo(db, l, ws, j, trail)
    requires j < |ws| == |ws'| && (forall k :: 0 <= k < |ws| ==> ws'[k].clause == ws[k].clause)
    requires ws[j].clause in db && SatisfiedBy(trail, db[ws[j].clause].literals)
    ensures PropagatedUpTo(db, l, ws', j + 1, trail)
  {
    forall id | Live(db, id) && IsWatch(db[id], l)
      ensures SatisfiedBy(trail, db[id].literals) || Listed(ws', j + 1, id)
    {
      if !SatisfiedBy(trail, db[id].literals) {
        var k :| j <= k < |ws| && ws[k].clause == id;
        assert ws'[k].clause == id;
      }
    }
  }

  lemma StepDropped(db: Database, l: int, ws: seq<Watch>, j: nat, trail: seq<int>)
    requires PropagatedUpTo(db, l, ws, j, trail)
    requires j < |ws| && !(Live(db, ws[j].clause) && IsWatch(db[ws[j].clause], l))
    ensures PropagatedUpTo(db, l, RemoveAt(ws, j), j, trail)
  {
    forall id | Live(db, id) && IsWatch(db[id], l)
      ensures SatisfiedBy(trail, db[id].literals) || Listed(RemoveAt(ws, j), j, id)
    {
      if !SatisfiedBy(trail, db[id].literals) {
        RemovedListed(ws, j, j, id);
      }
    }
  }

  /** `db'` differs from `db` in the order of literals of clauses, and the only
      new watch is `r`, which `done` does not falsify. */
  lemma ReorderKeepsPropagated(db: Database, db': Database, r: int, done: seq<int>, trail: seq<int>)
    requires SameClauses(db, db') && -r !in done
    requires NewWatch(db, db', r)
    requires Propagated(db, done, trail)
    ensures Propagated(db', done, trail)
  {
    forall id, x | Live(db', id) && IsWatch(db'[id], x) && -x in done
      ensures SatisfiedBy(trail, db'[id].literals)
    {
      assert Live(db, id) && IsWatch(db[id], x);
      var y :| y in db[id].literals && y in trail;
      assert y in db'[id].literals;
    }
  }

  lemma ReorderKeepsUpTo(db: Database, db': Database, r: int, l: int, ws: seq<Watch>, j: nat, trail: seq<int>)
    requires SameClauses(db, db') && l != r
    requires NewWatch(db, db', r)
    requires PropagatedUpTo(db, l, ws, j, trail)
    ensures PropagatedUpTo(db', l, ws, j, trail)
  {
    forall id | Live(db', id) && IsWatch(db'[id], l)
      ensures SatisfiedBy(trail, db'[id].literals) || Listed(ws, j, id)
    {
      assert Live(db, id) && IsWatch(db[id], l);
      if SatisfiedBy(trail, db[id].literals) {
        var y :| y in db[id].literals && y in trail;
        assert y in db'[id].literals;
      }
    }
  }

  lemma ReorderKeepsSound(db: Database, db': Database, g: Formula)
    requires SameClauses(db, db') && DbSound(db, g)
    ensures DbSound(db', g)
  {
    forall id | id in db' ensures Entails(g, db'[id].literals) {
      SameLitsEntailed(g, db[id].literals, db'[id].literals);
    }
  }

  /** The invariant of propagating the watch list of `x` up to position `j`.
      `root` is the trail to which the checker will backtrack, `done` the part
      of the trail whose literals are completely propagated. */
  ghost predicate Visiting(n: nat, vals: map<int, int>, trail: seq<int>, db: Database, watchers: Watchers,
                           g: Formula, root: seq<int>, done: seq<int>, x: int, j: nat) {
    && Shape(n, vals, trail, db, watchers)
    && DbSound(db, g) && TrailSound(trail, g)
    && root <= trail && done <= trail && x != 0 && -x in trail && -x !in root
    && Propagated(db, root, root)
    && Propagated(db, done, trail)
    && PropagatedUpTo(db, x, WatchList(watchers, x), j, trail)
  }

  lemma VisitBlit(n: nat, vals: map<int, int>, trail: seq<int>, db: Database, watchers: Watchers,
                  g: Formula, root: seq<int>, done: seq<int>, x: int, j: nat, blit: int)
    requires Visiting(n, vals, trail, db, watchers, g, root, done, x, j)
    requires j < |WatchList(watchers, x)| && WatchList(watchers, x)[j].clause in db
    requires blit != x && blit in db[WatchList(watchers, x)[j].clause].literals && Val(vals, blit) > 0
    ensures var ws := WatchList(watchers, x);
            Visiting(n, vals, trail, db, watchers[x := ws[j := ws[j].(blit := blit)]], g, root, done, x, j + 1)
  {
    var ws := WatchList(watchers, x);
    BlitKeeps(db, watchers, x, j, blit);
    StepSatisfied(db, x, ws, ws[j := ws[j].(blit := blit)], j, trail);
  }

  lemma VisitOrient(n: nat, vals: map<int, int>, trail: seq<int>, db: Database, watchers: Watchers,
                    g: Formula, root: seq<int>, done: seq<int>, x: int, j: nat, id: nat)
    requires Visiting(n, vals, trail, db, watchers, g, root, done, x, j)
    requires Live(db, id) && IsWatch(db[id], x)
    ensures var db' := WithLiterals(db, id, Oriented(db[id].literals, x));
            Visiting(n, vals, trail, db', watchers, g, root, done, x, j) && SameClauses(db, db')
  {
    var db' := WithLiterals(db, id, Oriented(db[id].literals, x));
    OrientKeeps(n, db, watchers, id, x);
    ReorderKeepsSound(db, db', g);
    assert forall l :: l in root || l in done ==> l in trail;
    assert 0 !in trail;
    ReorderKeepsPropagated(db, db', 0, root, root);
    ReorderKeepsPropagated(db, db', 0, done, trail);
    ReorderKeepsUpTo(db, db', 0, x, WatchList(watchers, x), j, trail);
  }

  lemma VisitMove(n: nat, vals: map<int, int>, trail: seq<int>, db: Database, watchers: Watchers,
                  g: Formula, root: seq<int>, done: seq<int>, x: int, j: nat, id: nat, k: nat)
    requires Visiting(n, vals, trail, db, watchers, g, root, done, x, j)
    requires Live(db, id) && 2 <= k < |db[id].literals| && db[id].literals[1] == x
    requires j < |WatchList(watchers, x)| && WatchList(watchers, x)[j].clause == id
    requires Val(vals, db[id].literals[k]) >= 0
    ensures var lits := db[id].literals;
            var db' := WithLiterals(db, id, lits[1 := lits[k]][k := x]);
            var watchers' := MovedWatchers(watchers, x, j, lits[k], Watch(x, |lits|, id));
            && Visiting(n, vals, trail, db', watchers', g, root, done, x, j)
            && SameClauses(db, db')
            && WatchList(watchers', x) == RemoveAt(WatchList(watchers, x), j)
  {
    var lits := db[id].literals;
    var r := lits[k];
    var db' := WithLiterals(db, id, lits[1 := r][k := x]);
    MoveClause(n, db, id, x, k);
    MoveWatchers(db, db', watchers, id, x, j, r);
    ReorderKeepsSound(db, db', g);
    assert forall l :: l in root || l in done ==> l in trail;
    ReorderKeepsPropagated(db, db', r, root, root);
    ReorderKeepsPropagated(db, db', r, done, trail);
    ReorderKeepsUpTo(db, db', r, x, WatchList(watchers, x), j, trail);
    StepDropped(db', x, WatchList(watchers, x), j, trail);
  }

  lemma VisitAssign(n: nat, vals: map<int, int>, trail: seq<int>, db: Database, watchers: Watchers,
                    g: Formula, root: seq<int>, done: seq<int>, x: int, j: nat, unit: int)
    requires Visiting(n, vals, trail, db, watchers, g, root, done, x, j)
    requires j < |WatchList(watchers, x)| && WatchList(watchers, x)[j].clause in db
    requires Val(vals, unit) == 0
    requires var lits := db[WatchList(watchers, x)[j].clause].literals;
             unit in lits && forall l :: l in lits && l != unit ==> Val(vals, l) < 0
    ensures Visiting(n, Assigned(vals, unit), trail + [unit], db, watchers, g, root, done, x, j + 1)
  {
    var ws := WatchList(watchers, x);
    var lits := db[ws[j].clause].literals;
    assert ClauseOk(db[ws[j].clause], n);
    AssignKeeps(vals, trail, n, unit);
    UnitEntailed(g, lits, unit, trail);
    GrowingTrailKeeps(db, done, trail, unit);
    GrowingTrailKeepsUpTo(db, x, ws, j, trail, unit);
    assert unit in trail + [unit];
    StepSatisfied(db, x, ws, ws, j, trail + [unit]);
  }

  lemma VisitConflict(n: nat, vals: map<int, int>, trail: seq<int>, db: Database, watchers: Watchers,
                      g: Formula, root: seq<int>, done: seq<int>, x: int, j: nat, id: nat)
    requires Visiting(n, vals, trail, db, watchers, g, root, done, x, j)
    requires id in db && forall l :: l in db[id].literals ==> Val(vals, l) < 0
    ensures Unsat(g)
  {
    assert ClauseOk(db[id], n);
    FalsifiedUnsat(g, db[id].literals, trail);
  }

  /** What visiting a watch needs to know about its clause. */
  lemma VisitFacts(n: nat, vals: map<int, int>, trail: seq<int>, db: Database, watchers: Watchers,
                   g: Formula, root: seq<int>, done: seq<int>, x: int, j: nat)
    requires Visiting(n, vals, trail, db, watchers, g, root, done, x, j)
    requires j < |WatchList(watchers, x)|
    ensures AssignmentOk(vals, trail, n) && SameClauses(db, db) && Val(vals, x) < 0
    ensures var w := WatchList(watchers, x)[j];
            && w.clause in db && |db[w.clause].literals| == w.size >= 2
            && x in db[w.clause].literals && w.blit in db[w.clause].literals && w.blit != x && InRange(w.blit, n)
            && db[w.clause].literals[0] != db[w.clause].literals[1]
            && (forall l :: l in db[w.clause].literals ==> InRange(l, n))
            && (Live(db, w.clause) ==> IsWatch(db[w.clause], x))
  {
    assert ListOk(db, x, WatchList(watchers, x));
    var w := WatchList(watchers, x)[j];
    assert WatchOk(db, x, w) && ClauseOk(db[w.clause], n);
  }

  /** Between two propagations: sound for `g`, and propagated at `root`. */
  ghost predicate Propagating(n: nat, vals: map<int, int>, trail: seq<int>, db: Database, watchers: Watchers,
                              g: Formula, root: seq<int>, next: nat) {
    && Shape(n, vals, trail, db, watchers)
    && DbSound(db, g) && TrailSound(trail, g)
    && root <= trail && |root| <= next <= |trail|
    && Propagated(db, root, root)
  }

  lemma VisitBegins(n: nat, vals: map<int, int>, trail: seq<int>, db: Database, watchers: Watchers,
                    g: Formula, root: seq<int>, next: nat)
    requires Propagating(n, vals, trail, db, watchers, g, root, next) && next < |trail|
    requires Propagated(db, trail[..next], trail)
    ensures Visiting(n, vals, trail, db, watchers, g, root, trail[..next], -trail[next], 0)
  {
    var x := -trail[next];
    assert -x == trail[next] && trail[next] in trail;
    forall i | 0 <= i < |root| ensures root[i] != trail[next] {
      assert root[i] == trail[i];
    }
    forall id | Live(db, id) && IsWatch(db[id], x)
      ensures SatisfiedBy(trail, db[id].literals) || Listed(WatchList(watchers, x), 0, id)
    {
      assert Listed(WatchList(watchers, x), 0, id);
    }
  }

  lemma VisitEnds(n: nat, vals: map<int, int>, trail: seq<int>, db: Database, watchers: Watchers,
                  g: Formula, root: seq<int>, next: nat, x: int, j: nat)
    requires next < |trail| && |root| <= next && x == -trail[next] && j >= |WatchList(watchers, x)|
    requires Visiting(n, vals, trail, db, watchers, g, root, trail[..next], x, j)
    ensures Propagating(n, vals, trail, db, watchers, g, root, next + 1)
    ensures Propagated(db, trail[..next + 1], trail)
  {
    forall id, l | Live(db, id) && IsWatch(db[id], l) && -l in trail[..next + 1]
      ensures SatisfiedBy(trail, db[id].literals)
    {
      if -l !in trail[..next] {
        assert l == x;
        assert !Listed(WatchList(watchers, x), j, id);
      }
    }
  }

  lemma VisitAborts(n: nat, vals: map<int, int>, trail: seq<int>, db: Database, watchers: Watchers,
                    g: Formula, root: seq<int>, next: nat, x: int, j: nat)
    requires next < |trail| && |root| <= next
    requires Visiting(n, vals, trail, db, watchers, g, root, trail[..next], x, j)
    ensures Propagating(n, vals, trail, db, watchers, g, root, next + 1)
  {
  }

  lemma VisitDrop(n: nat, vals: map<int, int>, trail: seq<int>, db: Database, watchers: Watchers,
                  g: Formula, root: seq<int>, done: seq<int>, x: int, j: nat)
    requires Visiting(n, vals, trail, db, watchers, g, root, done, x, j)
    requires j < |WatchList(watchers, x)| && !Live(db, WatchList(watchers, x)[j].clause)
    ensures Visiting(n, vals, trail, db, watchers[x := RemoveAt(WatchList(watchers, x), j)], g, root, done, x, j)
  {
    DropKeeps(db, watchers, x, j);
    StepDropped(db, x, WatchList(watchers, x), j, trail);
  }

  lemma BinaryOthers(lits: seq<int>, a: int, b: int)
    requires |lits| == 2 && a in lits && b in lits && a != b
    ensures forall l :: l in lits ==> l == a || l == b
  {
  }

  lemma BeginFacts(n: nat, vals: map<int, int>, trail: seq<int>, db: Database, watchers: Watchers,
                   g: Formula, root: seq<int>, next: nat)
    requires Propagating(n, vals, trail, db, watchers, g, root, next)
    ensures |root| <= next <= |trail| <= 2 * n
    ensures SameClauses(db, db)
  {
    TrailBound(vals, trail, n);
  }

  /* ---- adding, discarding and freeing clauses ---- */

  function WithClauseWatched(watchers: Watchers, id: nat, lits: seq<int>): Watchers
    requires |lits| >= 2
  {
    var w1 := watchers[lits[0] := WatchList(watchers, lits[0]) + [Watch(lits[1], |lits|, id)]];
    w1[lits[1] := WatchList(w1, lits[1]) + [Watch(lits[0], |lits|, id)]]
  }

  lemma AddedListOk(db: Database, db': Database, id: nat, l: int, blit: int, ws: seq<Watch>)
    requires id !in db && id in db' && db' == db[id := db'[id]]
    requires ListOk(db, l, ws)
    requires blit in db'[id].literals && blit != l && IsWatch(db'[id], l)
    ensures ListOk(db', l, ws + [Watch(blit, |db'[id].literals|, id)])
  {
    var ws' := ws + [Watch(blit, |db'[id].literals|, id)];
    forall k | 0 <= k < |ws| ensures WatchOk(db', l, ws[k]) && ws[k].clause != id {
      assert WatchOk(db, l, ws[k]);
    }
    assert l in db'[id].literals;
  }

  lemma OldListOk(db: Database, db': Database, l: int, ws: seq<Watch>)
    requires forall id :: id in db ==> id in db' && db'[id] == db[id]
    requires ListOk(db, l, ws)
    ensures ListOk(db', l, ws)
  {
    forall k | 0 <= k < |ws| ensures WatchOk(db', l, ws[k]) {
      assert WatchOk(db, l, ws[k]);
    }
  }

  lemma AddKeepsWatchers(db: Database, db': Database, watchers: Watchers, id: nat)
    requires id !in db && id in db' && db' == db[id := db'[id]]
    requires |db'[id].literals| >= 2 && NoDup(db'[id].literals)
    requires WatchersOk(db, watchers) && Watched(db, watchers)
    ensures var watchers' := WithClauseWatched(watchers, id, db'[id].literals);
            WatchersOk(db', watchers') && Watched(db', watchers')
  {
    var lits := db'[id].literals;
    var w0, w1 := Watch(lits[1], |lits|, id), Watch(lits[0], |lits|, id);
    var watchers' := WithClauseWatched(watchers, id, lits);
    assert lits[0] != lits[1] && lits[0] in lits && lits[1] in lits;
    forall l ensures ListOk(db', l, WatchList(watchers', l)) {
      assert ListOk(db, l, WatchList(watchers, l));
      if l == lits[0] {
        AddedListOk(db, db', id, l, lits[1], WatchList(watchers, l));
      } else if l == lits[1] {
        AddedListOk(db, db', id, l, lits[0], WatchList(watchers, l));
      } else {
        OldListOk(db, db', l, WatchList(watchers, l));
      }
    }
    forall d, l | Live(db', d) && IsWatch(db'[d], l) ensures Listed(WatchList(watchers', l), 0, d) {
      AppendedListed(WatchList(watchers, l), w0, d);
      AppendedListed(WatchList(watchers, l), w1, d);
      if d != id {
        assert Live(db, d) && IsWatch(db[d], l);
        assert Listed(WatchList(watchers, l), 0, d);
      }
    }
  }

  /** Adding a clause whose watches are unassigned keeps the root state. */
  lemma AddKeeps(n: nat, vals: map<int, int>, trail: seq<int>, db: Database, watchers: Watchers, g: Formula,
                 id: nat, c: CheckerClause)
    requires Propagating(n, vals, trail, db, watchers, g, trail, |trail|)
    requires id !in db && ClauseOk(c, n) && Entails(g, c.literals)
    requires Val(vals, c.literals[0]) == 0 && Val(vals, c.literals[1]) == 0
    ensures Propagating(n, vals, trail, db[id := c], WithClauseWatched(watchers, id, c.literals), g, trail, |trail|)
  {
    var db' := db[id := c];
    AddKeepsWatchers(db, db', watchers, id);
    assert ClausesOk(db', n) && DbSound(db', g);
    forall d, l | Live(db', d) && IsWatch(db'[d], l) && -l in trail
      ensures SatisfiedBy(trail, db'[d].literals)
    {
      assert d != id;
      assert Live(db, d) && IsWatch(db[d], l);
    }
  }

  function Discarded(db: Database, id: nat): Database
    requires id in db
  {
    db[id := db[id].(size := 0)]
  }

  lemma DiscardKeeps(n: nat, vals: map<int, int>, trail: seq<int>, db: Database, watchers: Watchers, g: Formula,
                     id: nat)
    requires Propagating(n, vals, trail, db, watchers, g, trail, |trail|)
    requires id in db
    ensures Propagating(n, vals, trail, Discarded(db, id), watchers, g, trail, |trail|)
  {
    var db' := Discarded(db, id);
    forall l ensures ListOk(db', l, WatchList(watchers, l)) {
      assert ListOk(db, l, WatchList(watchers, l));
      forall k | 0 <= k < |WatchList(watchers, l)| ensures WatchOk(db', l, WatchList(watchers, l)[k]) {
        assert WatchOk(db, l, WatchList(watchers, l)[k]);
      }
    }
    assert forall d :: d in db' ==> db'[d].literals == db[d].literals && ClauseOk(db[d], n);
    forall d, l | Live(db', d) && IsWatch(db'[d], l)
      ensures Listed(WatchList(watchers, l), 0, d)
      ensures -l in trail ==> SatisfiedBy(trail, db'[d].literals)
    {
      assert Live(db, d) && IsWatch(db[d], l);
    }
  }

  /** No watch refers to a garbage clause. */
  ghost predicate Flushed(db: Database, ws: seq<Watch>) {
    forall k :: 0 <= k < |ws| ==> Live(db, ws[k].clause)
  }

  function Freed(db: Database): Database {
    map id | id in db && db[id].size > 0 :: db[id]
  }

  lemma FreeKeeps(n: nat, vals: map<int, int>, trail: seq<int>, db: Database, watchers: Watchers, g: Formula)
    requires Propagating(n, vals, trail, db, watchers, g, trail, |trail|)
    requires forall l :: Flushed(db, WatchList(watchers, l))
    ensures Propagating(n, vals, trail, Freed(db), watchers, g, trail, |trail|)
  {
    var db' := Freed(db);
    forall l ensures ListOk(db', l, WatchList(watchers, l)) {
      assert ListOk(db, l, WatchList(watchers, l)) && Flushed(db, WatchList(watchers, l));
      forall k | 0 <= k < |WatchList(watchers, l)| ensures WatchOk(db', l, WatchList(watchers, l)[k]) {
        assert WatchOk(db, l, WatchList(watchers, l)[k]);
      }
    }
    forall d, l | Live(db', d) && IsWatch(db'[d], l)
      ensures Listed(WatchList(watchers, l), 0, d)
      ensures -l in trail ==> SatisfiedBy(trail, db'[d].literals)
    {
      assert Live(db, d) && IsWatch(db[d], l);
    }
  }

  lemma DropKeepsPropagating(n: nat, vals: map<int, int>, trail: seq<int>, db: Database, watchers: Watchers,
                             g: Formula, l: int, j: nat)
    requires Propagating(n, vals, trail, db, watchers, g, trail, |trail|)
    requires j < |WatchList(watchers, l)| && !Live(db, WatchList(watchers, l)[j].clause)
    ensures Propagating(n, vals, trail, db, watchers[l := RemoveAt(WatchList(watchers, l), j)], g, trail, |trail|)
  {
    DropKeeps(db, watchers, l, j);
  }

  lemma WatchedInRange(n: nat, db: Database, watchers: Watchers, l: int)
    requires ClausesOk(db, n) && WatchersOk(db, watchers) && |WatchList(watchers, l)| > 0
    ensures InRange(l, n)
  {
    assert ListOk(db, l, WatchList(watchers, l));
    assert WatchOk(db, l, WatchList(watchers, l)[0]);
    assert ClauseOk(db[WatchList(watchers, l)[0].clause], n);
  }

  /** More variables do not hurt. */
  lemma ShapeEnlarges(n: nat, n': nat, vals: map<int, int>, trail: seq<int>, db: Database, watchers: Watchers)
    requires Shape(n, vals, trail, db, watchers) && n <= n'
    ensures Shape(n', vals, trail, db, watchers)
  {
    forall id | id in db ensures ClauseOk(db[id], n') {
      assert ClauseOk(db[id], n);
    }
  }

  /** Every binary watch, even of a garbage clause, is an entailed clause. */
  lemma BinaryWatchSound(db: Database, watchers: Watchers, g: Formula, l: int, k: nat)
    requires WatchersOk(db, watchers) && DbSound(db, g)
    requires k < |WatchList(watchers, l)| && WatchList(watchers, l)[k].size == 2
    ensures Entails(g, [l, WatchList(watchers, l)[k].blit])
  {
    var w := WatchList(watchers, l)[k];
    assert ListOk(db, l, WatchList(watchers, l)) && WatchOk(db, l, w);
    var c := db[w.clause].literals;
    BinaryOthers(c, l, w.blit);
    var d := [l, w.blit];
    assert d[0] == l && d[1] == w.blit;
    SameLitsEntailed(g, c, d);
  }

  /* ---- temporary assumptions ---- */

  lemma LastOfTrail(trail: seq<int>)
    requires NoDup(trail) && |trail| > 0
    ensures var lit, rest := trail[|trail| - 1], trail[..|trail| - 1];
            NoDup(rest) && lit !in rest && forall l :: l in trail <==> l in rest || l == lit
  {
    var lit, rest := trail[|trail| - 1], trail[..|trail| - 1];
    assert trail == rest + [lit];
  }

  lemma UnassignKeeps(vals: map<int, int>, trail: seq<int>, n: nat)
    requires AssignmentOk(vals, trail, n) && |trail| > 0
    ensures var lit := trail[|trail| - 1];
            AssignmentOk(vals[lit := 0][-lit := 0], trail[..|trail| - 1], n)
  {
    var lit := trail[|trail| - 1];
    var vals', trail' := vals[lit := 0][-lit := 0], trail[..|trail| - 1];
    LastOfTrail(trail);
    assert lit in trail && -lit !in trail;
    forall l ensures Val(vals', l) == Sign(trail', l) {
      assert Val(vals, l) == Sign(trail, l);
    }
  }

  lemma SameAssignment(vals: map<int, int>, vals': map<int, int>, trail: seq<int>, n: nat)
    requires AssignmentOk(vals, trail, n) && AssignmentOk(vals', trail, n)
    ensures forall l :: Val(vals', l) == Val(vals, l)
  {
    forall l ensures Val(vals', l) == Val(vals, l) {
      assert Val(vals', l) == Sign(trail, l);
    }
  }

  /** The formula refuted when a clause is checked. */
  ghost function Assuming(g: Formula, c: Clause): Formula {
    g + (set l | l in c :: [-l])
  }

  lemma AssumingSound(db: Database, trail: seq<int>, g: Formula, c: Clause)
    requires DbSound(db, g) && TrailSound(trail, g)
    ensures DbSound(db, Assuming(g, c)) && TrailSound(trail, Assuming(g, c))
    ensures forall l :: l in c ==> Entails(Assuming(g, c), [-l])
  {
    var h := Assuming(g, c);
    forall id | id in db ensures Entails(h, db[id].literals) {
      EntailsMonotone(g, h, db[id].literals);
    }
    forall l | l in trail ensures Entails(h, [l]) {
      EntailsMonotone(g, h, [l]);
    }
    forall l | l in c ensures Entails(h, [-l]) {
      assert [-l] in h;
    }
  }

  /** The trail refutes the clause without falsifying any live clause and
      without leaving one unit: unit propagation cannot derive the clause. */
  ghost predicate NoUnitRefutation(db: Database, trail: seq<int>, c: Clause) {
    && (forall l :: l in c ==> -l in trail)
    && (forall l :: l in trail ==> -l !in trail)
    && (forall id :: Live(db, id) ==> Settled(db[id].literals, trail))
  }

  lemma Falsified(vals: map<int, int>, trail: seq<int>, n: nat, c: Clause, g: Formula)
    requires AssignmentOk(vals, trail, n) && TrailSound(trail, g) && Entails(g, c)
    requires forall l :: l in c ==> l != 0 && Val(vals, l) < 0
    ensures Unsat(g)
  {
    forall l | l in c ensures -l in trail {
      assert Val(vals, l) == Sign(trail, l);
    }
    FalsifiedUnsat(g, c, trail);
  }

  lemma UnitLearned(vals: map<int, int>, trail: seq<int>, n: nat, c: Clause, g: Formula, unit: int)
    requires AssignmentOk(vals, trail, n) && TrailSound(trail, g) && Entails(g, c)
    requires forall l :: l in c && l != unit ==> l != 0 && Val(vals, l) < 0
    ensures TrailSound(trail + [unit], g)
  {
    forall l | l in c && l != unit ensures -l in trail {
      assert Val(vals, l) == Sign(trail, l);
    }
    UnitEntailed(g, c, unit, trail);
  }

  lemma OriginalsGrow(db: Database, trail: seq<int>, g: Formula, c: Clause)
    requires DbSound(db, g) && TrailSound(trail, g)
    ensures DbSound(db, g + {c}) && TrailSound(trail, g + {c})
    ensures Unsat(g) ==> Unsat(g + {c})
    ensures Entails(g + {c}, c)
  {
    forall id | id in db ensures Entails(g + {c}, db[id].literals) {
      EntailsMonotone(g, g + {c}, db[id].literals);
    }
    forall l | l in trail ensures Entails(g + {c}, [l]) {
      EntailsMonotone(g, g + {c}, [l]);
    }
    forall m | Models(m, g + {c}) ensures Models(m, g) {
    }
  }

  lemma TautologyEntailed(vals: map<int, int>, trail: seq<int>, n: nat, c: Clause, g: Formula)
    requires AssignmentOk(vals, trail, n) && TrailSound(trail, g)
    requires forall l :: l in c ==> l != 0
    requires exists l :: l in c && (Val(vals, l) > 0 || -l in c)
    ensures Entails(g, c)
  {
    var l :| l in c && (Val(vals, l) > 0 || -l in c);
    assert Val(vals, l) == Sign(trail, l);
    forall m | Models(m, g) ensures Satisfies(m, c) {
      if -l in c {
        assert Holds(m, l) || Holds(m, -l);
      } else {
        UnitHolds(g, l, m);
      }
    }
  }
}
