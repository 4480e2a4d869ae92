/** The extension stack: a flat sequence of zero-separated witnesses and
    clauses, pushed when clauses are removed and processed backward once to
    repair a model of the simplified formula. */
module Extension {
  import opened Logic

  /** A removed clause with the literals that repair it. */
  datatype Entry = Entry(flips: seq<int>, clause: Clause)

  ghost predicate NonZero(s: seq<int>) {
    forall l :: l in s ==> l != 0
  }

  ghost predicate EntryOk(e: Entry) {
    NonZero(e.flips) && NonZero(e.clause)
  }

  function FlatEntry(e: Entry): seq<int> {
    [0] + e.flips + [0] + e.clause
  }

  /** The stack holding the given entries. */
  function Flat(entries: seq<Entry>): seq<int> {
    if entries == [] then [] else Flat(entries[..|entries| - 1]) + FlatEntry(entries[|entries| - 1])
  }

  /** Flip the variable of a literal. */
  ghost function Flipped(m: Model, l: int): Model {
    var v := if l < 0 then -l else l;
    if v in m then m - iset{v} else m + iset{v}
  }

  /** Make the witness literals true, last one first. */
  ghost function Repaired(m: Model, flips: seq<int>): Model {
    if flips == [] then m
    else
      var l := flips[|flips| - 1];
      Repaired(if Holds(m, l) then m else Flipped(m, l), flips[..|flips| - 1])
  }

  ghost function Processed(m: Model, e: Entry): Model {
    if Satisfies(m, e.clause) then m else Repaired(m, e.flips)
  }

  /** One backward pass over all entries. */
  ghost function Extended(m: Model, entries: seq<Entry>): Model {
    if entries == [] then m
    else Extended(Processed(m, entries[|entries| - 1]), entries[..|entries| - 1])
  }

  lemma FlatLast(b: seq<Entry>)
    requires b != []
    ensures Flat(b) == Flat(b[..|b| - 1]) + FlatEntry(b[|b| - 1])
  {
  }

  lemma {:induction false} FlatConcat(a: seq<Entry>, b: seq<Entry>)
    ensures Flat(a + b) == Flat(a) + Flat(b)
  {
    if b == [] {
      assert a + b == a;
    } else {
      var n := |b| - 1;
      FlatConcat(a, b[..n]);
      hide FlatEntry;
      FlatLast(b);
      FlatLast(a + b);
      hide Flat;
      assert (a + b)[..|a + b| - 1] == a + b[..n];
      assert (Flat(a) + Flat(b[..n])) + FlatEntry(b[n]) == Flat(a) + (Flat(b[..n]) + FlatEntry(b[n]));
    }
  }

  lemma {:induction false} ExtendedConcat(m: Model, a: seq<Entry>, b: seq<Entry>)
    ensures Extended(m, a + b) == Extended(Extended(m, b), a)
  {
    if b == [] {
      assert a + b == a;
    } else {
      var n := |b| - 1;
      ExtendedConcat(Processed(m, b[n]), a, b[..n]);
      assert (a + b)[..|a + b| - 1] == a + b[..n];
    }
  }

  lemma FlatOne(e: Entry)
    ensures Flat([e]) == FlatEntry(e)
  {
    assert [e][..0] == [];
  }

  lemma FlipMakesTrue(m: Model, l: int)
    requires l != 0
    ensures Holds(Flipped(m, l), l) <==> !Holds(m, l)
    ensures forall k :: k != l && k != -l ==> (Holds(Flipped(m, l), k) <==> Holds(m, k))
  {
  }

  /* ---- what processing an entry does to an assignment ---- */

  /** Every literal that comes before its negation in the witness is true in
      `m'`, and variables outside the witness keep their value. */
  ghost predicate MadeTrue(m: Model, m': Model, flips: seq<int>) {
    FirstsTrue(m', flips) && Framed(m, m', flips)
  }

  ghost predicate FirstsTrue(m': Model, flips: seq<int>) {
    forall i :: 0 <= i < |flips| && First(flips, i) ==> Holds(m', flips[i])
  }

  ghost predicate First(flips: seq<int>, i: nat)
    requires i < |flips|
  {
    -flips[i] !in flips[..i]
  }

  ghost predicate Framed(m: Model, m': Model, flips: seq<int>) {
    forall k :: k != 0 && k !in flips && -k !in flips ==> (Holds(m', k) <==> Holds(m, k))
  }

  /** A satisfied clause leaves the assignment alone, for a falsified one the
      witness becomes true. */
  ghost predicate EntryEffect(m: Model, m': Model, e: Entry) {
    if Satisfies(m, e.clause) then m' == m else MadeTrue(m, m', e.flips)
  }

  ghost predicate Consistent(flips: seq<int>) {
    forall l :: l in flips ==> -l !in flips
  }

  lemma {:induction false} RepairedMakesTrue(m: Model, flips: seq<int>)
    requires NonZero(flips)
    ensures MadeTrue(m, Repaired(m, flips), flips)
  {
    if flips != [] {
      var n := |flips| - 1;
      var l, rest := flips[n], flips[..n];
      var m1 := if Holds(m, l) then m else Flipped(m, l);
      assert flips == rest + [l] && l in flips && l != 0;
      assert forall k :: k in rest ==> k in flips;
      FlipMakesTrue(m, l);
      RepairedMakesTrue(m1, rest);
      MadeTrueStep(m, m1, Repaired(m1, rest), rest, l);
    }
  }

  lemma MadeTrueStep(m: Model, m1: Model, m': Model, rest: seq<int>, l: int)
    requires l != 0 && MadeTrue(m1, m', rest) && Holds(m1, l)
    requires forall k :: k != l && k != -l ==> (Holds(m1, k) <==> Holds(m, k))
    ensures MadeTrue(m, m', rest + [l])
  {
    if -l !in rest {
      LastTrue(m1, m', rest, l);
    }
    hide Holds, FirstsTrue, Framed;
    FirstsStep(m', rest, l);
    FrameStep(m, m1, m', rest, l);
  }

  lemma FirstsStep(m': Model, rest: seq<int>, l: int)
    requires FirstsTrue(m', rest) && (-l !in rest ==> Holds(m', l))
    ensures FirstsTrue(m', rest + [l])
  {
    hide Holds;
    var flips := rest + [l];
    forall i | 0 <= i < |flips| && First(flips, i) ensures Holds(m', flips[i]) {
      FirstStep(rest, l, i);
    }
  }

  lemma FirstStep(rest: seq<int>, l: int, i: nat)
    requires i <= |rest| && First(rest + [l], i)
    ensures if i < |rest| then (rest + [l])[i] == rest[i] && First(rest, i) else (rest + [l])[i] == l && -l !in rest
  {
    assert (rest + [l])[..i] == rest[..i];
    assert rest[..|rest|] == rest;
  }

  lemma FrameStep(m: Model, m1: Model, m': Model, rest: seq<int>, l: int)
    requires Framed(m1, m', rest) && forall k :: k != l && k != -l ==> (Holds(m1, k) <==> Holds(m, k))
    ensures Framed(m, m', rest + [l])
  {
    hide Holds;
    assert forall k :: k in rest + [l] <==> k in rest || k == l;
  }

  lemma LastTrue(m: Model, m': Model, rest: seq<int>, l: int)
    requires l != 0 && MadeTrue(m, m', rest) && Holds(m, l) && -l !in rest
    ensures Holds(m', l)
  {
    if l in rest {
      FirstOccurrence(m, m', rest, l);
    }
  }

  /** A witness literal whose negation is not in the witness becomes true. */
  lemma FirstOccurrence(m: Model, m': Model, flips: seq<int>, l: int)
    requires MadeTrue(m, m', flips) && l in flips && -l !in flips
    ensures Holds(m', l)
  {
    var i :| 0 <= i < |flips| && flips[i] == l;
  }

  /** Processing an entry with a consistent witness: nothing changes if the
      clause holds; otherwise all witness literals hold afterwards, so the
      clause does if it has one of them, and all other variables keep their
      value. */
  lemma ProcessedEntry(m: Model, e: Entry)
    requires EntryOk(e)
    ensures EntryEffect(m, Processed(m, e), e)
    ensures Satisfies(m, e.clause) ==> Processed(m, e) == m
    ensures !Satisfies(m, e.clause) && Consistent(e.flips) ==> forall l :: l in e.flips ==> Holds(Processed(m, e), l)
    ensures Consistent(e.flips) && (exists l :: l in e.flips && l in e.clause) ==> Satisfies(Processed(m, e), e.clause)
    ensures forall k :: k != 0 && k !in e.flips && -k !in e.flips ==> (Holds(Processed(m, e), k) <==> Holds(m, k))
  {
    RepairedMakesTrue(m, e.flips);
    if !Satisfies(m, e.clause) && Consistent(e.flips) {
      forall l | l in e.flips ensures Holds(Processed(m, e), l) {
        FirstOccurrence(m, Processed(m, e), e.flips, l);
      }
    }
  }

  /** The assignments between the entries of a backward pass, last one first. */
  ghost predicate Pass(entries: seq<Entry>, between: seq<Model>) {
    && |between| == |entries| + 1
    && forall i :: 0 <= i < |entries| ==> EntryEffect(between[i + 1], between[i], entries[i])
  }

  ghost predicate PassFromTo(m: Model, m': Model, entries: seq<Entry>) {
    exists between :: Pass(entries, between) && between[|entries|] == m && between[0] == m'
  }

  lemma {:induction false} ExtendedPass(m: Model, entries: seq<Entry>)
    requires forall i :: 0 <= i < |entries| ==> EntryOk(entries[i])
    ensures PassFromTo(m, Extended(m, entries), entries)
  {
    if entries == [] {
      assert Pass(entries, [m]);
    } else {
      var n := |entries| - 1;
      var m1 := Processed(m, entries[n]);
      ProcessedEntry(m, entries[n]);
      ExtendedPass(m1, entries[..n]);
      var rest :| Pass(entries[..n], rest) && rest[n] == m1 && rest[0] == Extended(m1, entries[..n]);
      var between := rest + [m];
      forall i | 0 <= i < n + 1 ensures EntryEffect(between[i + 1], between[i], entries[i]) {
        if i < n {
          assert EntryEffect(rest[i + 1], rest[i], entries[..n][i]);
        }
      }
      assert Pass(entries, between);
    }
  }

  /** The assignment as the source stores it: variables beyond the vector are false. */
  ghost function ModelOf(vals: seq<bool>): Model {
    iset v | 0 < v < |vals| && vals[v]
  }

  function Abs(l: int): nat {
    if l < 0 then -l else l
  }

  predicate Value(vals: seq<bool>, l: int) {
    var v := Abs(l) < |vals| && vals[Abs(l)];
    if l < 0 then !v else v
  }

  lemma ValueHolds(vals: seq<bool>, l: int)
    requires l != 0
    ensures Value(vals, l) <==> Holds(ModelOf(vals), l)
  {
  }

  /** The entry on top of the stack. */
  lemma TopEntry(stack: seq<int>, i: nat, left: seq<Entry>, rest: seq<Entry>, e: Entry)
    requires left != [] && rest == left[..|left| - 1] && e == left[|left| - 1]
    requires i <= |stack| && stack[..i] == Flat(left)
    ensures var start := |Flat(rest)|;
            && start + |FlatEntry(e)| == i && start + 2 + |e.flips| <= i && stack[start..i] == FlatEntry(e)
            && stack[..start] == Flat(rest) && stack[start..start + 1 + |e.flips|] == [0] + e.flips
  {
    hide Flat, FlatEntry;
    FlatLast(left);
    Slices(stack, i, Flat(rest), FlatEntry(e));
    EntrySlices(stack, |Flat(rest)|, i, e);
  }

  lemma Slices(stack: seq<int>, i: nat, a: seq<int>, b: seq<int>)
    requires i <= |stack| && stack[..i] == a + b
    ensures |a| + |b| == i && stack[..|a|] == a && stack[|a|..i] == b
  {
    assert stack[..|a|] == (a + b)[..|a|];
    assert stack[|a|..i] == (a + b)[|a|..];
  }

  lemma EntrySlices(stack: seq<int>, start: nat, i: nat, e: Entry)
    requires start <= i <= |stack| && stack[start..i] == FlatEntry(e)
    ensures start + 2 + |e.flips| <= i && stack[start..start + 1 + |e.flips|] == [0] + e.flips
  {
    var n := 1 + |e.flips|;
    assert stack[start..start + n] == stack[start..i][..n];
    assert FlatEntry(e)[..n] == [0] + e.flips;
  }

  /** The witness literals come after a separator. */
  ghost predicate WitnessAt(stack: seq<int>, start: nat, e: Entry) {
    EntryOk(e) && start + 1 + |e.flips| <= |stack| && stack[start..start + 1 + |e.flips|] == [0] + e.flips
  }

  lemma WitnessLiteral(stack: seq<int>, start: nat, e: Entry, n: nat, i: nat)
    requires WitnessAt(stack, start, e) && n <= |e.flips| && i == start + n
    ensures i < |stack| && (if n == 0 then stack[i] == 0 else stack[i] == e.flips[n - 1] && stack[i] != 0)
  {
    var s := stack[start..start + 1 + |e.flips|];
    assert stack[i] == s[n] == ([0] + e.flips)[n];
    if n > 0 {
      assert e.flips[n - 1] in e.flips;
    }
  }

  lemma RepairedNext(m: Model, flips: seq<int>, n: nat)
    requires n < |flips|
    ensures Repaired(m, flips[..n + 1]) == Repaired(if Holds(m, flips[n]) then m else Flipped(m, flips[n]), flips[..n])
  {
    assert flips[..n + 1][..n] == flips[..n];
  }

  lemma RepairedNone(m: Model, flips: seq<int>)
    ensures flips == [] ==> Repaired(m, flips) == m
  {
  }

  lemma ExtendedTop(m: Model, left: seq<Entry>)
    requires left != []
    ensures Extended(m, left) == Extended(Processed(m, left[|left| - 1]), left[..|left| - 1])
  {
  }

  lemma EmptyStack(left: seq<Entry>)
    ensures left == [] <==> |Flat(left)| == 0
  {
  }

  class External {
    var extension: seq<int>
    var witnesses: set<int>
    var vals: seq<bool>

    /** Push a clause that `pivot` repairs. */
    method PushClauseOnExtensionStack(c: seq<int>, pivot: int)
      modifies this`extension, this`witnesses
      ensures extension == old(extension) + FlatEntry(Entry([pivot], c))
      ensures witnesses == old(witnesses) + {pivot}
    {
      extension := extension + [0];
      PushWitnessLiteral(pivot);
      extension := extension + [0];
      for i := 0 to |c|
        invariant extension == old(extension) + [0, pivot, 0] + c[..i]
        invariant witnesses == old(witnesses) + {pivot}
      {
        extension := extension + [c[i]];
      }
      assert c[..|c|] == c;
      assert FlatEntry(Entry([pivot], c)) == [0, pivot, 0] + c;
    }

    method PushWitnessLiteral(lit: int)
      modifies this`extension, this`witnesses
      ensures extension == old(extension) + [lit]
      ensures witnesses == old(witnesses) + {lit}
    {
      extension := extension + [lit];
      if lit !in witnesses {
        witnesses := witnesses + {lit};
      }
    }

    method PushBinaryClauseOnExtensionStack(pivot: int, other: int)
      modifies this`extension, this`witnesses
      ensures extension == old(extension) + FlatEntry(Entry([pivot], [pivot, other]))
      ensures witnesses == old(witnesses) + {pivot}
    {
      extension := extension + [0];
      PushWitnessLiteral(pivot);
      extension := extension + [0, pivot, other];
    }

    /** Flip the variable of a false literal. */
    method FlipVariable(lit: int)
      requires lit != 0
      modifies this`vals
      ensures ModelOf(vals) == Flipped(old(ModelOf(vals)), lit)
    {
      var idx := Abs(lit);
      if idx >= |vals| {
        vals := vals + seq(idx + 1 - |vals|, _ => false);
      }
      vals := vals[idx := !vals[idx]];
    }

    /** The single backward pass over the extension stack. */
    method Extend(ghost entries: seq<Entry>)
      requires extension == Flat(entries) && forall i :: 0 <= i < |entries| ==> EntryOk(entries[i])
      modifies this`vals
      ensures ModelOf(vals) == Extended(old(ModelOf(vals)), entries)
      ensures PassFromTo(old(ModelOf(vals)), ModelOf(vals), entries)
    {
      ExtendedPass(ModelOf(vals), entries);
      var i := |extension|;
      ghost var left := entries;
      while i != 0
        invariant left <= entries && i == |Flat(left)| && extension[..i] == Flat(left)
        invariant Extended(ModelOf(vals), left) == Extended(old(ModelOf(vals)), entries)
        decreases i
      {
        ghost var e, rest := left[|left| - 1], left[..|left| - 1];
        ghost var start, before := |Flat(rest)|, vals;
        assert EntryOk(e);
        TopEntry(extension, i, left, rest, e);
        hide Flat, FlatEntry, Extended, EntryOk, PassFromTo;
        var satisfied: bool;
        satisfied, i := ScanClause(i, e, start);
        if satisfied {
          i := SkipWitness(i, e, start);
        } else {
          i := RepairWitness(i, e, start);
        }
        ExtendedTop(ModelOf(before), left);
        left := rest;
        EmptyStack(left);
      }
      assert left == [];
    }

    /** Read a clause backward up to and including its separator. */
    method ScanClause(end: nat, ghost e: Entry, ghost start: nat) returns (satisfied: bool, i: nat)
      requires EntryOk(e) && start + |FlatEntry(e)| == end <= |extension|
      requires extension[start..end] == FlatEntry(e)
      ensures i == start + 1 + |e.flips|
      ensures satisfied <==> Satisfies(ModelOf(vals), e.clause)
    {
      ghost var from := start + 2 + |e.flips|;
      assert forall k :: 0 <= k < |FlatEntry(e)| ==> extension[start + k] == FlatEntry(e)[k];
      assert extension[from - 1] == 0;
      assert forall k :: from <= k < end ==> extension[k] == e.clause[k - from] && extension[k] in e.clause;
      i := end - 1;
      satisfied := false;
      while extension[i] != 0
        invariant from - 1 <= i < end
        invariant !satisfied ==> forall k :: i < k < end ==> !Holds(ModelOf(vals), extension[k])
        invariant satisfied ==> Satisfies(ModelOf(vals), e.clause)
        decreases i
      {
        var lit := extension[i];
        assert lit == e.clause[i - from] && lit in e.clause;
        ValueHolds(vals, lit);
        if !satisfied && Value(vals, lit) {
          satisfied := true;
        }
        i := i - 1;
      }
      forall l | l in e.clause ensures !satisfied ==> !Holds(ModelOf(vals), l) {
        var p :| 0 <= p < |e.clause| && e.clause[p] == l;
        assert extension[from + p] == l;
      }
    }

    method SkipWitness(end: nat, ghost e: Entry, ghost start: nat) returns (i: nat)
      requires EntryOk(e) && end == start + 1 + |e.flips| < |extension|
      requires extension[start..end] == [0] + e.flips
      ensures i == start
    {
      assert forall k :: start < k < end ==> extension[k] == ([0] + e.flips)[k - start] && extension[k] in e.flips;
      assert extension[start] == 0;
      i := end - 1;
      while extension[i] != 0
        invariant start <= i < end
        decreases i
      {
        i := i - 1;
      }
    }

    method RepairWitness(end: nat, ghost e: Entry, ghost start: nat) returns (i: nat)
      requires EntryOk(e) && end == start + 1 + |e.flips| < |extension|
      requires extension[start..end] == [0] + e.flips
      modifies this`vals
      ensures i == start
      ensures ModelOf(vals) == Repaired(old(ModelOf(vals)), e.flips)
      ensures MadeTrue(old(ModelOf(vals)), ModelOf(vals), e.flips)
    {
      RepairedMakesTrue(ModelOf(vals), e.flips);
      assert WitnessAt(extension, start, e);
      hide *;
      ghost var was, n := ModelOf(vals), |e.flips|;
      assert e.flips[..n] == e.flips;
      i := end - 1;
      WitnessLiteral(extension, start, e, n, i);
      while extension[i] != 0
        invariant start <= i < |extension| && n <= |e.flips| && i == start + n
        invariant if n == 0 then extension[i] == 0 else extension[i] == e.flips[n - 1] && extension[i] != 0
        invariant Repaired(ModelOf(vals), e.flips[..n]) == Repaired(was, e.flips)
        decreases i
      {
        n := n - 1;
        var lit := extension[i];
        RepairedNext(ModelOf(vals), e.flips, n);
        ValueHolds(vals, lit);
        if !Value(vals, lit) {
          FlipVariable(lit);
        }
        i := i - 1;
        WitnessLiteral(extension, start, e, n, i);
      }
      RepairedNone(ModelOf(vals), e.flips[..n]);
    }
  }
}
