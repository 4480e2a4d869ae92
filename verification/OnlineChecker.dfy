/** The online forward proof checker: a small propagation engine with two
    watched literals, blocking literals, a hash table of clauses and lazily
    collected garbage. */
module OnlineChecker {
  import opened Bits
  import opened Logic
  import opened CheckerState
  import opened CheckerTable

  /** How a deletion ends. */
  datatype Deletion = Skipped | Missing | Removed(id: nat)

  class Checker {
    var sizeVars: nat
    var vals: map<int, int>
    var watchers: Watchers
    var db: Database
    var trail: seq<int>
    var nextToPropagate: nat
    var inconsistent: bool
    var clauses: Table
    var garbage: seq<nat>
    var numClauses: nat
    var numGarbage: nat
    var nextAddress: nat
    var simplified: seq<int>
    const nonces: seq<nat>
    ghost var originals: Formula

    /** Consistent data structures, everything entailed by the originals, and
        a completely propagated root trail. */
    ghost predicate RootOk()
      reads this
    {
      && Propagating(sizeVars, vals, trail, db, watchers, originals, trail, nextToPropagate)
      && nextToPropagate == |trail|
    }

    ghost predicate TablesOk()
      reads this
    {
      DatabaseOk(db, clauses, nonces, garbage, numClauses, numGarbage, nextAddress)
    }

    /** Holds before and after every call of the public methods.  Once the
        checker is inconsistent only soundness is maintained. */
    ghost predicate Valid()
      reads this
    {
      && Shape(sizeVars, vals, trail, db, watchers)
      && DbSound(db, originals) && TrailSound(trail, originals)
      && |nonces| == 4
      && (if inconsistent then Unsat(originals) else RootOk() && TablesOk())
    }

    constructor (nonces: seq<nat>)
      requires |nonces| == 4
      ensures Valid() && !inconsistent && originals == {} && db == map[] && trail == []
    {
      this.nonces := nonces;
      sizeVars, vals, watchers, db, trail, nextToPropagate := 0, map[], map[], map[], [], 0;
      inconsistent, clauses, garbage := false, [], [];
      numClauses, numGarbage, nextAddress, simplified, originals := 0, 0, 0, [], {};
    }

    /** Assign an unassigned literal to true. */
    method Assign(lit: int)
      requires AssignmentOk(vals, trail, sizeVars)
      requires InRange(lit, sizeVars) && Val(vals, lit) == 0
      modifies this`vals, this`trail
      ensures AssignmentOk(vals, trail, sizeVars)
      ensures trail == old(trail) + [lit] && vals == Assigned(old(vals), lit)
    {
      AssignKeeps(vals, trail, sizeVars, lit);
      vals := vals[lit := 1][-lit := -1];
      trail := trail + [lit];
    }

    /** Position of the first unwatched literal that is not false. */
    method FindReplacement(lits: seq<int>) returns (k: nat)
      requires |lits| >= 2
      ensures 2 <= k <= |lits| && (k < |lits| ==> Val(vals, lits[k]) >= 0)
      ensures forall i :: 2 <= i < k ==> Val(vals, lits[i]) < 0
    {
      k := 2;
      while k < |lits| && Val(vals, lits[k]) < 0
        invariant 2 <= k <= |lits|
        invariant forall i :: 2 <= i < k ==> Val(vals, lits[i]) < 0
      {
        k := k + 1;
      }
    }

    /** Watch the literal at `k` instead of the false second literal `x`. */
    method MoveWatch(x: int, j: nat, k: nat, ghost g: Formula, ghost root: seq<int>, ghost done: seq<int>)
      requires Visiting(sizeVars, vals, trail, db, watchers, g, root, done, x, j)
      requires j < |WatchList(watchers, x)|
      requires var id := WatchList(watchers, x)[j].clause;
               && Live(db, id) && 2 <= k < |db[id].literals|
               && db[id].literals[1] == x && Val(vals, db[id].literals[k]) >= 0
      modifies this`db, this`watchers
      ensures SameClauses(old(db), db)
      ensures Visiting(sizeVars, vals, trail, db, watchers, g, root, done, x, j)
      ensures |WatchList(watchers, x)| == |old(WatchList(watchers, x))| - 1
    {
      var id := WatchList(watchers, x)[j].clause;
      var lits := db[id].literals;
      var r := lits[k];
      VisitMove(sizeVars, vals, trail, db, watchers, g, root, done, x, j, id, k);
      assert |RemoveAt(WatchList(watchers, x), j)| == |WatchList(watchers, x)| - 1;
      assert id in db && |WatchList(watchers, x)| > j;
      hide *;
      db := WithLiterals(db, id, lits[1 := r][k := x]);
      watchers := MovedWatchers(watchers, x, j, r, Watch(x, |lits|, id));
    }

    /** All literals except `other` are false: assign it or report the conflict. */
    method AssignOrFail(x: int, j: nat, other: int, ghost g: Formula, ghost root: seq<int>, ghost done: seq<int>)
      returns (res: bool)
      requires Visiting(sizeVars, vals, trail, db, watchers, g, root, done, x, j)
      requires j < |WatchList(watchers, x)| && WatchList(watchers, x)[j].clause in db
      requires var lits := db[WatchList(watchers, x)[j].clause].literals;
               other in lits && Val(vals, other) <= 0 && forall l :: l in lits && l != other ==> Val(vals, l) < 0
      modifies this`vals, this`trail
      ensures old(trail) <= trail
      ensures Visiting(sizeVars, vals, trail, db, watchers, g, root, done, x, if res then j + 1 else j)
      ensures !res ==> Unsat(g)
    {
      VisitFacts(sizeVars, vals, trail, db, watchers, g, root, done, x, j);
      if Val(vals, other) < 0 {
        VisitConflict(sizeVars, vals, trail, db, watchers, g, root, done, x, j, WatchList(watchers, x)[j].clause);
        res := false;
      } else {
        VisitAssign(sizeVars, vals, trail, db, watchers, g, root, done, x, j, other);
        Assign(other);
        res := true;
      }
    }

    /** Find a replacement for the false second watch `x` of a long clause, or
        else propagate its first watch. */
    method Rewatch(x: int, j: nat, ghost g: Formula, ghost root: seq<int>, ghost done: seq<int>)
      returns (res: bool, next: nat)
      requires Visiting(sizeVars, vals, trail, db, watchers, g, root, done, x, j)
      requires j < |WatchList(watchers, x)|
      requires var id := WatchList(watchers, x)[j].clause;
               Live(db, id) && |db[id].literals| > 2 && db[id].literals[1] == x && Val(vals, db[id].literals[0]) <= 0
      modifies this`vals, this`trail, this`db, this`watchers
      ensures old(trail) <= trail && SameClauses(old(db), db)
      ensures res ==> Visiting(sizeVars, vals, trail, db, watchers, g, root, done, x, next)
      ensures !res ==> Visiting(sizeVars, vals, trail, db, watchers, g, root, done, x, j) && Unsat(g)
      ensures next <= |WatchList(watchers, x)| && |WatchList(watchers, x)| - next < |old(WatchList(watchers, x))| - j
    {
      VisitFacts(sizeVars, vals, trail, db, watchers, g, root, done, x, j);
      var id := WatchList(watchers, x)[j].clause;
      var lits := db[id].literals;
      var other := lits[0];
      var k := FindReplacement(lits);
      if k < |lits| {
        MoveWatch(x, j, k, g, root, done);
        res, next := true, j;
      } else {
        res := AssignOrFail(x, j, other, g, root, done);
        next := j + 1;
      }
    }

    /** Visit a long live clause at position `j` in the watch list of `x`. */
    method VisitLong(x: int, j: nat, ghost g: Formula, ghost root: seq<int>, ghost done: seq<int>)
      returns (res: bool, next: nat)
      requires Visiting(sizeVars, vals, trail, db, watchers, g, root, done, x, j)
      requires j < |WatchList(watchers, x)|
      requires WatchList(watchers, x)[j].size > 2 && Live(db, WatchList(watchers, x)[j].clause)
      modifies this`vals, this`trail, this`db, this`watchers
      ensures old(trail) <= trail && SameClauses(old(db), db)
      ensures res ==> Visiting(sizeVars, vals, trail, db, watchers, g, root, done, x, next)
      ensures !res ==> Visiting(sizeVars, vals, trail, db, watchers, g, root, done, x, j) && Unsat(g)
      ensures next <= |WatchList(watchers, x)| && |WatchList(watchers, x)| - next < |old(WatchList(watchers, x))| - j
    {
      var ws := WatchList(watchers, x);
      var w := ws[j];
      VisitFacts(sizeVars, vals, trail, db, watchers, g, root, done, x, j);
      var lits := db[w.clause].literals;
      var other := if lits[0] == x then lits[1] else lits[0];  // lits[0] ^ lits[1] ^ x
      if Val(vals, other) > 0 {
        VisitBlit(sizeVars, vals, trail, db, watchers, g, root, done, x, j, other);
        watchers := watchers[x := ws[j := w.(blit := other)]];
        res, next := true, j + 1;
      } else {
        ghost var db0 := db;
        VisitOrient(sizeVars, vals, trail, db, watchers, g, root, done, x, j, w.clause);
        db := WithLiterals(db, w.clause, Oriented(lits, x));
        ghost var db1 := db;
        res, next := Rewatch(x, j, g, root, done);
        SameClausesTransitive(db0, db1, db);
      }
    }

    /** Visit the watch at position `j`: assign, move the watch or find a conflict. */
    method Visit(x: int, j: nat, ghost g: Formula, ghost root: seq<int>, ghost done: seq<int>)
      returns (res: bool, next: nat)
      requires Visiting(sizeVars, vals, trail, db, watchers, g, root, done, x, j)
      requires j < |WatchList(watchers, x)|
      modifies this`vals, this`trail, this`db, this`watchers
      ensures old(trail) <= trail && SameClauses(old(db), db)
      ensures Visiting(sizeVars, vals, trail, db, watchers, g, root, done, x, if res then next else j)
      ensures !res ==> Unsat(g)
      ensures next <= |WatchList(watchers, x)| && |WatchList(watchers, x)| - next < |old(WatchList(watchers, x))| - j
    {
      VisitFacts(sizeVars, vals, trail, db, watchers, g, root, done, x, j);
      var ws := WatchList(watchers, x);
      var w := ws[j];
      res, next := true, j + 1;
      if Val(vals, w.blit) > 0 {
        VisitBlit(sizeVars, vals, trail, db, watchers, g, root, done, x, j, w.blit);
        assert ws[j := w.(blit := w.blit)] == ws && watchers[x := ws] == watchers;
      } else if w.size == 2 {
        BinaryOthers(db[w.clause].literals, w.blit, x);
        res := AssignOrFail(x, j, w.blit, g, root, done);
      } else if db[w.clause].size == 0 {
        VisitDrop(sizeVars, vals, trail, db, watchers, g, root, done, x, j);
        watchers := watchers[x := RemoveAt(ws, j)];
        next := j;
      } else {
        res, next := VisitLong(x, j, g, root, done);
      }
    }

    /** Propagate one literal over the watches of its negation. */
    method PropagateLiteral(lit: int, ghost g: Formula, ghost root: seq<int>, ghost done: seq<int>)
      returns (res: bool, ghost j: nat)
      requires Visiting(sizeVars, vals, trail, db, watchers, g, root, done, -lit, 0)
      modifies this`vals, this`trail, this`db, this`watchers
      ensures old(trail) <= trail && SameClauses(old(db), db)
      ensures Visiting(sizeVars, vals, trail, db, watchers, g, root, done, -lit, j)
      ensures if res then j >= |WatchList(watchers, -lit)| else Unsat(g)
    {
      var p: nat := 0;
      res := true;
      SameClausesReflexive(db);
      while res && p < |WatchList(watchers, -lit)|
        invariant old(trail) <= trail && SameClauses(old(db), db)
        invariant Visiting(sizeVars, vals, trail, db, watchers, g, root, done, -lit, p)
        invariant !res ==> Unsat(g)
        decreases res, |WatchList(watchers, -lit)| - p
      {
        ghost var db0 := db;
        var next: nat;
        res, next := Visit(-lit, p, g, root, done);
        SameClausesTransitive(old(db), db0, db);
        if res {
          p := next;
        }
      }
      j := p;
    }

    /** Propagate the next literal on the trail. */
    method PropagateNext(ghost g: Formula, ghost root: seq<int>) returns (res: bool)
      requires Propagating(sizeVars, vals, trail, db, watchers, g, root, nextToPropagate)
      requires nextToPropagate < |trail| && Propagated(db, trail[..nextToPropagate], trail)
      modifies this`vals, this`trail, this`db, this`watchers, this`nextToPropagate
      ensures Propagating(sizeVars, vals, trail, db, watchers, g, root, nextToPropagate)
      ensures nextToPropagate == old(nextToPropagate) + 1 <= |trail|
      ensures old(trail) <= trail && SameClauses(old(db), db)
      ensures if res then Propagated(db, trail[..nextToPropagate], trail) else Unsat(g)
    {
      ghost var next, before := nextToPropagate, trail;
      var lit := trail[nextToPropagate];
      BeginFacts(sizeVars, vals, trail, db, watchers, g, root, next);
      VisitBegins(sizeVars, vals, trail, db, watchers, g, root, next);
      nextToPropagate := nextToPropagate + 1;
      ghost var j: nat;
      res, j := PropagateLiteral(lit, g, root, before[..next]);
      assert trail[..next] == before[..next];
      if res {
        VisitEnds(sizeVars, vals, trail, db, watchers, g, root, next, -lit, j);
      } else {
        VisitAborts(sizeVars, vals, trail, db, watchers, g, root, next, -lit, j);
      }
    }

    /** Propagate all literals on the trail not propagated yet. */
    method Propagate(ghost g: Formula, ghost root: seq<int>) returns (res: bool)
      requires Propagating(sizeVars, vals, trail, db, watchers, g, root, nextToPropagate)
      requires Propagated(db, trail[..nextToPropagate], trail)
      modifies this`vals, this`trail, this`db, this`watchers, this`nextToPropagate
      ensures Propagating(sizeVars, vals, trail, db, watchers, g, root, nextToPropagate)
      ensures old(trail) <= trail && SameClauses(old(db), db)
      ensures if res then nextToPropagate == |trail| && Propagated(db, trail, trail) else Unsat(g)
    {
      res := true;
      BeginFacts(sizeVars, vals, trail, db, watchers, g, root, nextToPropagate);
      while res && nextToPropagate < |trail|
        invariant Propagating(sizeVars, vals, trail, db, watchers, g, root, nextToPropagate)
        invariant old(trail) <= trail && SameClauses(old(db), db)
        invariant res ==> nextToPropagate <= |trail| && Propagated(db, trail[..nextToPropagate], trail)
        invariant !res ==> Unsat(g)
        decreases res, 2 * sizeVars - nextToPropagate
      {
        ghost var db0 := db;
        BeginFacts(sizeVars, vals, trail, db, watchers, g, root, nextToPropagate);
        res := PropagateNext(g, root);
        SameClausesTransitive(old(db), db0, db);
      }
      assert res ==> trail[..nextToPropagate] == trail;
    }

    /** Take back all assignments after the first `previously` ones. */
    method Backtrack(previously: nat)
      requires AssignmentOk(vals, trail, sizeVars) && previously <= |trail|
      modifies this`vals, this`trail, this`nextToPropagate
      ensures AssignmentOk(vals, trail, sizeVars)
      ensures trail == old(trail[..previously]) && nextToPropagate == previously
    {
      while |trail| > previously
        invariant AssignmentOk(vals, trail, sizeVars)
        invariant previously <= |trail| && trail == old(trail)[..|trail|]
      {
        var lit := trail[|trail| - 1];
        UnassignKeeps(vals, trail, sizeVars);
        vals := vals[lit := 0][-lit := 0];
        trail := trail[..|trail| - 1];
      }
      nextToPropagate := previously;
    }

    /** Assume the negation of every literal of the clause. */
    method AssumeNegation(lits: seq<int>, ghost h: Formula)
      requires Propagating(sizeVars, vals, trail, db, watchers, h, trail, |trail|)
      requires forall l :: l in lits ==> InRange(l, sizeVars) && Val(vals, l) <= 0 && -l !in lits
      requires forall l :: l in lits ==> Entails(h, [-l])
      modifies this`vals, this`trail
      ensures Shape(sizeVars, vals, trail, db, watchers)
      ensures DbSound(db, h) && TrailSound(trail, h)
      ensures old(trail) <= trail && Propagated(db, old(trail), old(trail))
      ensures Propagated(db, old(trail), trail)
      ensures forall l :: l in lits ==> -l in trail
    {
      for i := 0 to |lits|
        invariant Shape(sizeVars, vals, trail, db, watchers)
        invariant DbSound(db, h) && TrailSound(trail, h)
        invariant old(trail) <= trail && Propagated(db, old(trail), old(trail)) && Propagated(db, old(trail), trail)
        invariant forall k :: 0 <= k < i ==> -lits[k] in trail
        invariant forall k :: i <= k < |lits| ==> Val(vals, lits[k]) <= 0
      {
        assert lits[i] in lits;
        if Val(vals, -lits[i]) <= 0 {
          assert Val(vals, -lits[i]) == Sign(trail, -lits[i]) && Val(vals, lits[i]) == Sign(trail, lits[i]);
          ghost var vals0 := vals;
          GrowingTrailKeeps(db, old(trail), trail, -lits[i]);
          Assign(-lits[i]);
          forall k | i + 1 <= k < |lits| ensures Val(vals, lits[k]) <= 0 {
            assert lits[k] in lits && lits[k] != -lits[i];
          }
        } else {
          assert Val(vals, -lits[i]) == Sign(trail, -lits[i]) && Val(vals, lits[i]) == Sign(trail, lits[i]);
        }
      }
    }

    /** Assume the negation of the clause and propagate. */
    method Refute(lits: seq<int>, ghost h: Formula) returns (res: bool)
      requires Propagating(sizeVars, vals, trail, db, watchers, h, trail, nextToPropagate)
      requires nextToPropagate == |trail|
      requires forall l :: l in lits ==> InRange(l, sizeVars) && Val(vals, l) <= 0 && -l !in lits
      requires forall l :: l in lits ==> Entails(h, [-l])
      modifies this`vals, this`trail, this`db, this`watchers, this`nextToPropagate
      ensures SameClauses(old(db), db) && old(trail) <= trail
      ensures Propagating(sizeVars, vals, trail, db, watchers, h, old(trail), nextToPropagate)
      ensures if res then Unsat(h) else NoUnitRefutation(db, trail, lits)
    {
      ghost var root := trail;
      AssumeNegation(lits, h);
      assert trail[..nextToPropagate] == root;
      var ok := Propagate(h, root);
      if ok {
        PropagatedSettles(db, trail, sizeVars);
      }
      res := !ok;
    }

    /** Check that unit propagation refutes the negation of the clause. */
    method Check() returns (res: bool)
      requires !inconsistent ==> RootOk()
      requires inconsistent ==> Unsat(originals)
      requires forall l :: l in simplified ==> InRange(l, sizeVars) && Val(vals, l) <= 0 && -l !in simplified
      modifies this`vals, this`trail, this`db, this`watchers, this`nextToPropagate
      ensures SameClauses(old(db), db) && trail == old(trail)
      ensures !inconsistent ==> RootOk()
      ensures forall l :: Val(vals, l) == old(Val(vals, l))
      ensures res ==> Entails(originals, simplified)
      ensures !res ==> exists t :: old(trail) <= t && NoUnitRefutation(db, t, simplified)
    {
      if inconsistent {
        SameClausesReflexive(db);
        return true;
      }
      ghost var root, db0, vals0 := trail, db, vals;
      ghost var h := Assuming(originals, simplified);
      var previously := nextToPropagate;
      AssumingSound(db, trail, originals, simplified);
      res := Refute(simplified, h);
      ghost var full := trail;
      if res {
        RefutationEntails(originals, simplified);
      }
      Backtrack(previously);
      assert trail == root;
      ReorderKeepsSound(db0, db, originals);
      SameAssignment(vals0, vals, trail, sizeVars);
      assert !res ==> root <= full && NoUnitRefutation(db, full, simplified);
    }

    /* ---- importing clauses ---- */

    /** Grow the variable range until it contains `idx`. */
    method EnlargeVars(idx: nat)
      requires Shape(sizeVars, vals, trail, db, watchers)
      requires !inconsistent ==> RootOk()
      modifies this`sizeVars
      ensures old(sizeVars) <= sizeVars && idx < sizeVars
      ensures Shape(sizeVars, vals, trail, db, watchers)
      ensures !inconsistent ==> RootOk()
    {
      var size := if sizeVars > 0 then 2 * sizeVars else 2;
      while idx >= size
        invariant size >= sizeVars && size >= 2
        decreases idx - size
      {
        size := 2 * size;
      }
      ShapeEnlarges(sizeVars, size, vals, trail, db, watchers);
      sizeVars := size;
    }

    method ImportClause(c: seq<int>)
      requires Valid() && !inconsistent
      requires forall l :: l in c ==> l != 0
      modifies this`sizeVars, this`simplified
      ensures Valid() && simplified == c
      ensures forall l :: l in c ==> InRange(l, sizeVars)
    {
      simplified := [];
      for i := 0 to |c|
        invariant Shape(sizeVars, vals, trail, db, watchers) && RootOk()
        invariant simplified == c[..i]
        invariant forall k :: 0 <= k < i ==> InRange(c[k], sizeVars)
      {
        var idx := Abs(c[i]);
        assert c[i] in c;
        if idx >= sizeVars {
          EnlargeVars(idx);
        }
        simplified := simplified + [c[i]];
      }
    }

    /** Sort the imported clause, drop repeated literals and find out whether
        it is satisfied at the root or contains complementary literals. */
    method Tautological() returns (res: bool)
      modifies this`simplified
      ensures res <==> exists l :: l in old(simplified) && (Val(vals, l) > 0 || -l in old(simplified))
      ensures !res ==> StrictlySorted(simplified) && SameLits(simplified, old(simplified))
      requires forall l :: l in simplified ==> l != 0
    {
      ghost var given := simplified;
      SortSorts(simplified);
      simplified := Sort(simplified);
      var kept: seq<int> := [];
      var prev := 0;
      var i := 0;
      while i < |simplified|
        invariant 0 <= i <= |simplified| && Sorted(simplified) && SameLits(given, simplified)
        invariant StrictlySorted(kept) && SameLits(kept, simplified[..i])
        invariant prev == if kept == [] then 0 else kept[|kept| - 1]
        invariant forall l :: l in kept ==> l != 0 && -l !in kept && Val(vals, l) <= 0
      {
        var lit := simplified[i];
        assert lit in simplified && lit in given;
        assert simplified[..i + 1] == simplified[..i] + [lit];
        if lit == prev {
          assert prev in kept;
        } else if lit == -prev {
          assert prev in kept && prev in simplified[..i] && prev in simplified;
          assert prev in given && -prev in given;
          return true;
        } else if Val(vals, lit) > 0 {
          return true;
        } else {
          LargerThanKept(simplified, i, kept);
          kept, prev := kept + [lit], lit;
        }
        i := i + 1;
      }
      assert simplified[..i] == simplified;
      res := false;
      forall l | l in given ensures Val(vals, l) <= 0 && -l !in given {
        assert l in simplified && l in kept;
      }
      simplified := kept;
    }

    /* ---- hash table ---- */

    /** Hash of the simplified clause. */
    method ComputeHash() returns (hash: nat)
      requires |nonces| == 4
      ensures hash == Hash(nonces, simplified)
    {
      hash := 0;
      var j := 0;
      for i := 0 to |simplified|
        invariant hash == HashPrefix(nonces, simplified, i) && j == i % 4
      {
        HashStep(nonces, simplified, i, j);
        hash := (hash + nonces[j] * (simplified[i] % WORD)) % WORD;
        hide HashPrefix;
        j := j + 1;
        if j == 4 {
          j := 0;
        }
      }
    }

    /** Reduce a hash to a table position. */
    static method ReduceHash(hash: nat, size: nat) returns (res: nat)
      requires size >= 1
      ensures res == Reduced(hash, size) < size
    {
      var shift: nat := 32;
      res := hash;
      while shift > 0 && Pow2(shift) > size
        invariant Folded(res, shift, size) == Folded(hash, 32, size)
        decreases shift
      {
        res := Xor(res, ShiftRight(res, shift));
        shift := shift / 2;
      }
      res := res % size;
    }

    /** Double the hash table and move every chain to its new position. */
    method EnlargeClauses()
      requires TablesOk() && numClauses == |clauses|
      modifies this`clauses
      ensures TablesOk() && |clauses| > numClauses
    {
      hide Reduced;
      hide HashOk;
      var size := if |clauses| > 0 then 2 * |clauses| else 1;
      var table: Table := seq(size, _ => []);
      var chains := clauses;
      ghost var hashes, part: map<nat, nat> := Hashes(db), map[];
      RehashBegins(hashes, chains, table);
      for i := 0 to |chains|
        invariant Rehashed(hashes, chains, i, 0, table, part) && |table| == size
      {
        for p := 0 to |chains[i]|
          invariant Rehashed(hashes, chains, i, p, table, part) && |table| == size
        {
          RehashStep(hashes, chains, i, p, table, part);
          var id := chains[i][p];
          var h := ReduceHash(db[id].hash, size);
          table := table[h := [id] + table[h]];
          part := part[id := hashes[id]];
        }
        RehashNextChain(hashes, chains, i, table, part);
      }
      RehashDone(hashes, chains, table, part);
      clauses := table;
    }

    static method AllMarked(lits: seq<int>, marked: set<int>) returns (found: bool)
      ensures found <==> forall l :: l in lits ==> l in marked
    {
      found := true;
      var i := 0;
      while found && i < |lits|
        invariant 0 <= i <= |lits|
        invariant found ==> forall k :: 0 <= k < i ==> lits[k] in marked
        invariant !found ==> exists l :: l in lits && l !in marked
      {
        var l := lits[i];
        assert l in lits;
        found := l in marked;
        assert found || (l in lits && l !in marked);
        i := i + 1;
      }
    }

    /** Position of a live clause over exactly the simplified literals, or the
        end of its chain if there is none. */
    method Find() returns (h: nat, k: nat)
      requires TablesOk() && ClausesOk(db, sizeVars)
      requires |clauses| > 0 && StrictlySorted(simplified)
      ensures h < |clauses| && k <= |clauses[h]|
      ensures k < |clauses[h]| ==> Live(db, clauses[h][k]) && SameLits(simplified, db[clauses[h][k]].literals)
      ensures k == |clauses[h]| ==> forall id :: Live(db, id) ==> !SameLits(simplified, db[id].literals)
    {
      hide Reduced;
      hide Hash;
      hide HashOk;
      hide PowerOfTwo;
      var hash := ComputeHash();
      h := ReduceHash(hash, |clauses|);
      var marked := set l | l in simplified;
      k := 0;
      while k < |clauses[h]|
        invariant 0 <= k <= |clauses[h]|
        invariant forall p :: 0 <= p < k ==> Live(db, clauses[h][p]) && !SameLits(simplified, db[clauses[h][p]].literals)
      {
        ChainEntryLive(db, clauses, nonces, h, k);
        var c := db[clauses[h][k]];
        assert ClauseOk(c, sizeVars);
        StrictlySortedNoDup(simplified);
        if SameLits(simplified, c.literals) {
          SameClauseSameHash(db, clauses, nonces, clauses[h][k], simplified);
        }
        if c.hash == hash && c.size == |simplified| {
          var found := AllMarked(c.literals, marked);
          if found {
            SubsetOfEqualLength(c.literals, simplified);
            assert SameLits(simplified, c.literals);
            return;
          }
        }
        k := k + 1;
      }
      AllInChain(db, clauses, nonces, simplified);
    }

    /* ---- adding clauses ---- */

    /** Move two unassigned literals of the simplified clause to the front. */
    method SelectWatches() returns (lits: seq<int>)
      requires NoDup(simplified)
      requires exists i, j :: 0 <= i < j < |simplified| && Val(vals, simplified[i]) == 0 == Val(vals, simplified[j])
      ensures |lits| == |simplified| >= 2 && SameLits(simplified, lits) && NoDup(lits)
      ensures Val(vals, lits[0]) == 0 == Val(vals, lits[1])
    {
      ghost var a, b :| 0 <= a < b < |simplified| && Val(vals, simplified[a]) == 0 == Val(vals, simplified[b]);
      lits := simplified;
      lits := BringUnassigned(lits, 0, a);
      b :| 1 <= b < |lits| && Val(vals, lits[b]) == 0;
      lits := BringUnassigned(lits, 1, b);
    }

    /** Swap the first unassigned literal from position `i` on to position `i`. */
    method BringUnassigned(lits: seq<int>, i: nat, ghost k: nat) returns (res: seq<int>)
      requires i <= k < |lits| && Val(vals, lits[k]) == 0
      ensures |res| == |lits| && SameLits(lits, res) && (NoDup(lits) ==> NoDup(res))
      ensures Val(vals, res[i]) == 0 && res[..i] == lits[..i]
      ensures forall p :: 0 <= p < |lits| && Val(vals, lits[p]) == 0 && p != k ==>
                            exists q :: 0 <= q < |res| && q != i && Val(vals, res[q]) == 0
    {
      var j := i;
      while Val(vals, lits[j]) != 0
        invariant i <= j <= k && (Val(vals, lits[i]) == 0 ==> j == i)
        decreases k - j
      {
        j := j + 1;
      }
      SwapKeepsLits(lits, i, j);
      res := lits[i := lits[j]][j := lits[i]];
      forall p | 0 <= p < |lits| && Val(vals, lits[p]) == 0 && p != k
        ensures exists q :: 0 <= q < |res| && q != i && Val(vals, res[q]) == 0
      {
        var q := if p == j then k else p;
        assert q != i ==> Val(vals, res[q]) == 0;
      }
    }

    /** The clause is kept: it is live or satisfied for good. */
    ghost predicate Kept(c: Clause)
      reads this
    {
      SatisfiedBy(trail, c) || exists id :: Live(db, id) && SameLits(c, db[id].literals)
    }

    ghost predicate Simplified()
      reads this
    {
      && StrictlySorted(simplified)
      && forall l :: l in simplified ==> InRange(l, sizeVars) && Val(vals, l) <= 0 && -l !in simplified
    }

    /** Allocate the simplified clause, watch it and put it in the hash table. */
    method InsertClause()
      requires RootOk() && TablesOk() && |nonces| == 4 && Simplified() && Entails(originals, simplified)
      requires exists i, j :: 0 <= i < j < |simplified| && Val(vals, simplified[i]) == 0 == Val(vals, simplified[j])
      modifies this`db, this`watchers, this`clauses, this`numClauses, this`nextAddress
      ensures RootOk() && TablesOk()
      ensures Kept(simplified)
      ensures forall id :: id in old(db) ==> id in db && db[id] == old(db)[id]
    {
      hide TableOk;
      hide Reduced;
      hide Propagated;
      hide AssignmentOk;
      hide WatchersOk;
      hide Watched;
      hide DbSound;
      hide GarbageOk;
      if numClauses == |clauses| {
        EnlargeClauses();
      }
      StrictlySortedNoDup(simplified);
      var hash := ComputeHash();
      var h := ReduceHash(hash, |clauses|);
      var lits := SelectWatches();
      var c := CheckerClause(lits, hash, |lits|);
      assert ClauseOk(c, sizeVars) && HashOk(nonces, c);
      SameLitsEntailed(originals, simplified, lits);
      ghost var id := nextAddress;
      LinkNewClause(c, h);
      assert Live(db, id) && SameLits(simplified, db[id].literals);
    }

    /** Store a clause at a new address and update watches and table. */
    method LinkNewClause(c: CheckerClause, h: nat)
      requires RootOk() && TablesOk() && numClauses < |clauses|
      requires |c.literals| >= 2 && ClauseOk(c, sizeVars) && c.size > 0 && HashOk(nonces, c) && h == Reduced(c.hash, |clauses|)
      requires Val(vals, c.literals[0]) == 0 == Val(vals, c.literals[1]) && Entails(originals, c.literals)
      modifies this`db, this`watchers, this`clauses, this`numClauses, this`nextAddress
      ensures RootOk() && TablesOk()
      ensures old(nextAddress) !in old(db) && db == old(db)[old(nextAddress) := c]
    {
      hide TableOk;
      hide Reduced;
      hide HashOk;
      hide Shape;
      hide Propagated;
      hide ClauseOk;
      AddKeeps(sizeVars, vals, trail, db, watchers, originals, nextAddress, c);
      InsertEntry(db, clauses, nonces, garbage, numClauses, numGarbage, nextAddress, c, h);
      db := db[nextAddress := c];
      watchers := WithClauseWatched(watchers, nextAddress, c.literals);
      clauses := clauses[h := [nextAddress] + clauses[h]];
      numClauses := numClauses + 1;
      nextAddress := nextAddress + 1;
    }

    /** Classify the simplified clause by its literals that are not false. */
    method CountUnassigned() returns (unit: int, several: bool)
      requires forall l :: l in simplified ==> l != 0 && Val(vals, l) <= 0
      requires NoDup(simplified)
      ensures several <==> exists i, j :: 0 <= i < j < |simplified| &&
                                          Val(vals, simplified[i]) == 0 == Val(vals, simplified[j])
      ensures !several && unit == 0 ==> forall l :: l in simplified ==> Val(vals, l) < 0
      ensures !several && unit != 0 ==> unit in simplified && Val(vals, unit) == 0
      ensures !several && unit != 0 ==> forall l :: l in simplified && l != unit ==> Val(vals, l) < 0
    {
      unit, several := 0, false;
      ghost var first := 0;
      var i := 0;
      while i < |simplified| && !several
        invariant 0 <= i <= |simplified|
        invariant unit == 0 ==> forall k :: 0 <= k < i ==> Val(vals, simplified[k]) < 0
        invariant unit != 0 ==> 0 <= first < i && simplified[first] == unit && Val(vals, unit) == 0
        invariant unit != 0 && !several ==> forall k :: 0 <= k < i && k != first ==> Val(vals, simplified[k]) < 0
        invariant several ==> exists p, q :: 0 <= p < q < |simplified| &&
                                             Val(vals, simplified[p]) == 0 == Val(vals, simplified[q])
      {
        var lit := simplified[i];
        assert lit in simplified;
        if Val(vals, lit) == 0 {
          if unit != 0 {
            assert Val(vals, simplified[first]) == 0 == Val(vals, simplified[i]);
            several := true;
          } else {
            unit, first := lit, i;
          }
        }
        i := i + 1;
      }
    }

    /** Add the simplified clause: it is empty or falsified, a unit, or stored. */
    method AddClause()
      requires Valid() && !inconsistent && Simplified() && Entails(originals, simplified)
      modifies this`vals, this`trail, this`db, this`watchers, this`nextToPropagate, this`inconsistent,
               this`clauses, this`numClauses, this`nextAddress
      ensures Valid()
      ensures !inconsistent ==> Kept(simplified)
    {
      hide Propagated;
      hide AssignmentOk;
      hide WatchersOk;
      hide Watched;
      hide DatabaseOk;
      hide Entails;
      StrictlySortedNoDup(simplified);
      var unit, several := CountUnassigned();
      if several {
        InsertClause();
      } else if unit == 0 {
        Falsified(vals, trail, sizeVars, simplified, originals);
        inconsistent := true;
      } else {
        AddUnit(unit);
      }
    }

    /** Assign and propagate a unit clause. */
    method AddUnit(unit: int)
      requires Valid() && !inconsistent && Simplified() && Entails(originals, simplified)
      requires unit in simplified && Val(vals, unit) == 0
      requires forall l :: l in simplified && l != unit ==> Val(vals, l) < 0
      modifies this`vals, this`trail, this`db, this`watchers, this`nextToPropagate, this`inconsistent
      ensures Valid()
      ensures !inconsistent ==> Kept(simplified)
    {
      hide AssignmentOk;
      hide WatchersOk;
      hide Watched;
      hide DatabaseOk;
      hide ClausesOk;
      hide DbSound;
      hide TrailSound;
      hide Propagated;
      hide SameClauses;
      ghost var root, db0 := trail, db;
      UnitLearned(vals, trail, sizeVars, simplified, originals, unit);
      GrowingTrailKeeps(db, root, root, unit);
      Assign(unit);
      assert trail[..nextToPropagate] == root;
      assert unit in trail;
      var ok := Propagate(originals, root);
      assert unit in trail;
      SameClausesKeepDatabase(db0, db, clauses, nonces, garbage, numClauses, numGarbage, nextAddress);
      if !ok {
        inconsistent := true;
      }
    }

    /* ---- deleting clauses ---- */

    /** Everything that was live is unchanged, dead now, or satisfied at the root. */
    ghost predicate Reclaimed(db0: Database, id: nat)
      reads this
    {
      && (forall d :: Live(db, d) ==> d in db0 && db0[d] == db[d])
      && (forall d :: Live(db0, d) && d != id ==> Live(db, d) || SatisfiedBy(trail, db0[d].literals))
    }

    /** Unlink entry `k` of chain `h` and put it on the garbage list. */
    method Discard(h: nat, k: nat)
      requires RootOk() && TablesOk()
      requires h < |clauses| && k < |clauses[h]|
      modifies this`db, this`clauses, this`garbage, this`numClauses, this`numGarbage
      ensures RootOk() && TablesOk()
      ensures clauses == WithoutEntry(old(clauses), h, k)
      ensures var id := old(clauses)[h][k]; Live(old(db), id) && db == Discarded(old(db), id)
    {
      hide TableOk;
      hide Shape;
      hide Propagated;
      var id := clauses[h][k];
      DiscardEntry(db, clauses, nonces, garbage, numClauses, numGarbage, nextAddress, h, k);
      DiscardKeeps(sizeVars, vals, trail, db, watchers, originals, id);
      db := Discarded(db, id);
      clauses := WithoutEntry(clauses, h, k);
      garbage := [id] + garbage;
      numClauses := numClauses - 1;
      numGarbage := numGarbage + 1;
    }

    method ClauseSatisfied(lits: seq<int>) returns (res: bool)
      requires AssignmentOk(vals, trail, sizeVars)
      ensures res <==> SatisfiedBy(trail, lits)
    {
      res := false;
      var i := 0;
      while i < |lits| && !res
        invariant 0 <= i <= |lits|
        invariant !res ==> forall k :: 0 <= k < i ==> lits[k] !in trail
        invariant res ==> SatisfiedBy(trail, lits)
      {
        var l := lits[i];
        assert l in lits && Val(vals, l) == Sign(trail, l);
        res := Val(vals, l) > 0;
        i := i + 1;
      }
    }

    /** Discard the satisfied clauses of the whole table. */
    method DiscardSatisfied()
      requires RootOk() && TablesOk()
      modifies this`db, this`clauses, this`garbage, this`numClauses, this`numGarbage
      ensures RootOk() && TablesOk()
      ensures forall d :: d in old(db) <==> d in db
      ensures forall d :: d in db ==> db[d] == old(db)[d] || (db[d].size == 0 && SatisfiedBy(trail, old(db)[d].literals))
    {
      hide DatabaseOk;
      hide Propagating;
      var i := 0;
      while i < |clauses|
        invariant 0 <= i <= |clauses| == |old(clauses)|
        invariant RootOk() && TablesOk()
        invariant forall d :: d in old(db) <==> d in db
        invariant forall d :: d in db ==> db[d] == old(db)[d] || (db[d].size == 0 && SatisfiedBy(trail, old(db)[d].literals))
      {
        var p := 0;
        while p < |clauses[i]|
          invariant 0 <= i < |clauses| == |old(clauses)| && 0 <= p <= |clauses[i]|
          invariant RootOk() && TablesOk()
          invariant forall d :: d in old(db) <==> d in db
          invariant forall d :: d in db ==> db[d] == old(db)[d] || (db[d].size == 0 && SatisfiedBy(trail, old(db)[d].literals))
          decreases |clauses[i]| - p
        {
          EntryFacts(i, p);
          var satisfied := ClauseSatisfied(db[clauses[i][p]].literals);
          if satisfied {
            Discard(i, p);
          } else {
            p := p + 1;
          }
        }
        i := i + 1;
      }
    }

    lemma EntryFacts(h: nat, k: nat)
      requires RootOk() && TablesOk()
      requires h < |clauses| && k < |clauses[h]|
      ensures Live(db, clauses[h][k]) && AssignmentOk(vals, trail, sizeVars)
    {
      ChainEntryLive(db, clauses, nonces, h, k);
    }

    /** Remove the watches of garbage clauses from one list. */
    method FlushList(lit: int)
      requires RootOk()
      modifies this`watchers
      ensures RootOk() && Flushed(db, WatchList(watchers, lit))
      ensures forall l :: l != lit ==> WatchList(watchers, l) == WatchList(old(watchers), l)
    {
      hide Shape;
      hide Propagated;
      var j: nat := 0;
      while j < |WatchList(watchers, lit)|
        invariant RootOk() && j <= |WatchList(watchers, lit)|
        invariant forall k :: 0 <= k < j ==> Live(db, WatchList(watchers, lit)[k].clause)
        invariant forall l :: l != lit ==> WatchList(watchers, l) == WatchList(old(watchers), l)
        decreases |WatchList(watchers, lit)| - j
      {
        var ws := WatchList(watchers, lit);
        WatchInDatabase(lit, j);
        if db[ws[j].clause].size > 0 {
          j := j + 1;
        } else {
          DropKeepsPropagating(sizeVars, vals, trail, db, watchers, originals, lit, j);
          watchers := watchers[lit := RemoveAt(ws, j)];
        }
      }
    }

    lemma WatchInDatabase(l: int, j: nat)
      requires RootOk() && j < |WatchList(watchers, l)|
      ensures WatchList(watchers, l)[j].clause in db
    {
      assert ListOk(db, l, WatchList(watchers, l)) && WatchOk(db, l, WatchList(watchers, l)[j]);
    }

    /** Discard satisfied clauses, remove all watches of garbage clauses and
        free them. */
    method CollectGarbageClauses()
      requires RootOk() && TablesOk()
      modifies this`db, this`clauses, this`garbage, this`numClauses, this`numGarbage, this`watchers
      ensures RootOk() && TablesOk() && garbage == []
      ensures forall d :: d in db ==> Live(db, d) && d in old(db) && db[d] == old(db)[d]
      ensures forall d :: Live(old(db), d) ==> Live(db, d) || SatisfiedBy(trail, old(db)[d].literals)
    {
      hide DatabaseOk;
      hide Shape;
      hide Propagated;
      hide Flushed;
      DiscardSatisfied();
      ghost var db1 := db;
      var lit := 1 - sizeVars as int;
      while lit < sizeVars
        invariant RootOk() && TablesOk() && db == db1
        invariant 1 - sizeVars <= lit
        invariant forall l :: 0 - sizeVars < l < lit ==> Flushed(db, WatchList(watchers, l))
      {
        FlushList(lit);
        lit := lit + 1;
      }
      AllFlushed();
      FreeKeeps(sizeVars, vals, trail, db, watchers, originals);
      FreedDatabase(db, clauses, nonces, garbage, numClauses, numGarbage, nextAddress);
      db := Freed(db);
      garbage, numGarbage := [], 0;
    }

    lemma AllFlushed()
      requires RootOk()
      requires forall l :: 0 - sizeVars < l < sizeVars ==> Flushed(db, WatchList(watchers, l))
      ensures forall l :: Flushed(db, WatchList(watchers, l))
    {
      forall l ensures Flushed(db, WatchList(watchers, l)) {
        if |WatchList(watchers, l)| > 0 {
          WatchedInRange(sizeVars, db, watchers, l);
        }
      }
    }

    /* ---- the public interface ---- */

    /** Add a clause of the input formula. */
    method AddOriginalClause(c: seq<int>)
      requires Valid() && forall l :: l in c ==> l != 0
      modifies this
      ensures Valid() && originals == old(originals) + {c}
      ensures old(inconsistent) ==> inconsistent
      ensures !inconsistent ==> Kept(c) || exists l :: l in c && -l in c
    {
      hide DatabaseOk;
      hide Shape;
      hide Propagated;
      GrowOriginals(c);
      if inconsistent {
        return;
      }
      ImportClause(c);
      var satisfied := Tautological();
      if satisfied {
        TautologyKept(c);
      } else {
        SimplifiedFacts(c);
        AddClause();
        KeptSameLits(simplified, c);
      }
      simplified := [];
    }

    method GrowOriginals(c: seq<int>)
      requires Valid()
      modifies this`originals
      ensures Valid() && originals == old(originals) + {c}
      ensures Entails(originals, c)
    {
      OriginalsGrow(db, trail, originals, c);
      originals := originals + {c};
    }

    lemma TautologyKept(c: seq<int>)
      requires Valid()
      requires exists l :: l in c && (Val(vals, l) > 0 || -l in c)
      ensures Kept(c) || exists l :: l in c && -l in c
    {
      var l :| l in c && (Val(vals, l) > 0 || -l in c);
      assert Val(vals, l) == Sign(trail, l);
    }

    lemma SimplifiedFacts(c: seq<int>)
      requires StrictlySorted(simplified) && SameLits(simplified, c)
      requires forall l :: l in c ==> InRange(l, sizeVars)
      requires !exists l :: l in c && (Val(vals, l) > 0 || -l in c)
      ensures Simplified()
      ensures forall g: Formula :: Entails(g, c) ==> Entails(g, simplified)
    {
      forall g: Formula | Entails(g, c) ensures Entails(g, simplified) {
        SameLitsEntailed(g, c, simplified);
      }
    }

    lemma KeptSameLits(c: Clause, d: Clause)
      requires SameLits(c, d)
      ensures Kept(c) ==> Kept(d)
    {
      if SatisfiedBy(trail, c) {
        assert SatisfiedBy(trail, d);
      } else if Kept(c) {
        var id :| Live(db, id) && SameLits(c, db[id].literals);
        assert SameLits(d, db[id].literals);
      }
    }

    /** Add a derived clause if unit propagation confirms it; false is the
        fatal error that aborts the program. */
    method AddDerivedClause(c: seq<int>) returns (ok: bool)
      requires Valid() && forall l :: l in c ==> l != 0
      modifies this
      ensures Valid() && originals == old(originals)
      ensures old(inconsistent) ==> inconsistent
      ensures ok ==> Entails(originals, c)
      ensures !ok ==> !inconsistent && exists t :: old(trail) <= t && NoUnitRefutation(db, t, c)
      ensures ok && !inconsistent ==> Kept(c) || exists l :: l in c && -l in c
    {
      hide DatabaseOk;
      hide Shape;
      hide Propagated;
      hide Settled;
      ok := true;
      if inconsistent {
        return;
      }
      ImportClause(c);
      var satisfied := Tautological();
      if satisfied {
        TautologyKept(c);
        SatisfiedEntailed(c);
      } else {
        SimplifiedFacts(c);
        ok := CheckDerived(c);
        if ok {
          AddClause();
          KeptSameLits(simplified, c);
        }
      }
      simplified := [];
    }

    lemma SatisfiedEntailed(c: seq<int>)
      requires Valid() && forall l :: l in c ==> l != 0
      requires exists l :: l in c && (Val(vals, l) > 0 || -l in c)
      ensures Entails(originals, c)
    {
      TautologyEntailed(vals, trail, sizeVars, c, originals);
    }

    method CheckDerived(ghost c: Clause) returns (ok: bool)
      requires Valid() && !inconsistent && Simplified() && SameLits(simplified, c)
      modifies this`vals, this`trail, this`db, this`watchers, this`nextToPropagate
      ensures Valid() && Simplified() && trail == old(trail)
      ensures ok ==> Entails(originals, simplified) && Entails(originals, c)
      ensures !ok ==> exists t :: trail <= t && NoUnitRefutation(db, t, c)
    {
      hide DatabaseOk;
      hide Shape;
      hide Propagated;
      hide Settled;
      ghost var db0 := db;
      ok := Check();
      SameClausesKeepDatabase(db0, db, clauses, nonces, garbage, numClauses, numGarbage, nextAddress);
      if ok {
        SameLitsEntailed(originals, simplified, c);
      } else {
        ghost var t :| trail <= t && NoUnitRefutation(db, t, simplified);
        assert NoUnitRefutation(db, t, c);
      }
    }

    /** Delete a clause; `Missing` is the fatal error that aborts the program. */
    method DeleteClause(c: seq<int>) returns (outcome: Deletion)
      requires Valid() && forall l :: l in c ==> l != 0
      modifies this
      ensures Valid() && originals == old(originals) && inconsistent == old(inconsistent) && trail == old(trail)
      ensures match outcome
              case Skipped => db == old(db) && (inconsistent || exists l :: l in c && (l in trail || -l in c))
              case Missing => db == old(db) && forall id :: Live(db, id) ==> !SameLits(c, db[id].literals)
              case Removed(id) => Live(old(db), id) && SameLits(c, old(db)[id].literals)
                                  && !Live(db, id) && Reclaimed(old(db), id)
    {
      hide DatabaseOk;
      hide Shape;
      hide Propagated;
      if inconsistent {
        return Skipped;
      }
      ImportClause(c);
      var satisfied := Tautological();
      if satisfied {
        SatisfiedWitness(c);
        outcome := Skipped;
      } else {
        SimplifiedFacts(c);
        outcome := DeleteSimplified(c);
      }
      simplified := [];
    }

    lemma SatisfiedWitness(c: seq<int>)
      requires Valid()
      requires exists l :: l in c && (Val(vals, l) > 0 || -l in c)
      ensures exists l :: l in c && (l in trail || -l in c)
    {
      var l :| l in c && (Val(vals, l) > 0 || -l in c);
      assert Val(vals, l) == Sign(trail, l);
    }

    method DeleteSimplified(ghost c: Clause) returns (outcome: Deletion)
      requires Valid() && !inconsistent && Simplified() && SameLits(simplified, c)
      modifies this`db, this`clauses, this`garbage, this`numClauses, this`numGarbage, this`watchers
      ensures Valid() && !outcome.Skipped?
      ensures outcome.Missing? ==> db == old(db) && forall id :: Live(db, id) ==> !SameLits(c, db[id].literals)
      ensures outcome.Removed? ==> var id := outcome.id;
                                   && Live(old(db), id) && SameLits(c, old(db)[id].literals)
                                   && !Live(db, id) && Reclaimed(old(db), id)
    {
      hide DatabaseOk;
      hide Shape;
      hide Propagated;
      ghost var db0 := db;
      if |clauses| == 0 {
        EmptyTable(c);
        return Missing;
      }
      RootFacts();
      assert forall d: Clause :: SameLits(c, d) <==> SameLits(simplified, d);
      var h, k := Find();
      if k == |clauses[h]| {
        return Missing;
      }
      var id := clauses[h][k];
      assert SameLits(c, db[id].literals);
      Discard(h, k);
      outcome := Removed(id);
      if 2 * numGarbage > |clauses| && 2 * numGarbage > sizeVars {
        CollectGarbageClauses();
      }
    }

    lemma EmptyTable(c: Clause)
      requires TablesOk() && |clauses| == 0
      ensures forall id :: Live(db, id) ==> !SameLits(c, db[id].literals)
    {
      forall id ensures !Live(db, id) {
        assert id !in Hashes(db);
      }
    }

    lemma RootFacts()
      requires RootOk()
      ensures ClausesOk(db, sizeVars)
    {
    }

    /** Everything the checker relies on. */
    method Holdings() returns (live: set<seq<int>>, units: seq<int>, binaries: set<(int, int)>)
      requires Valid()
      ensures units == trail
      ensures live == set id | id in db && db[id].size > 0 :: db[id].literals
      ensures binaries == set l, w | l in watchers && w in watchers[l] && w.size == 2 :: (l, w.blit)
      ensures forall c :: c in live ==> Entails(originals, c)
      ensures forall l :: l in units ==> Entails(originals, [l])
      ensures forall a, b :: (a, b) in binaries ==> Entails(originals, [a, b])
    {
      live := set id | id in db && db[id].size > 0 :: db[id].literals;
      units := trail;
      binaries := set l, w | l in watchers && w in watchers[l] && w.size == 2 :: (l, w.blit);
      forall l, w | l in watchers && w in watchers[l] && w.size == 2 ensures Entails(originals, [l, w.blit]) {
        var k :| 0 <= k < |watchers[l]| && watchers[l][k] == w;
        BinaryWatchSound(db, watchers, originals, l, k);
      }
    }
  }
}
