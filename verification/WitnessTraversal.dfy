/** Traversing the witnesses on the extension stack, from the last pushed to
    the first and the other way around, without changing it.  The callback is a
    predicate; a rejected witness ends the traversal. */
module WitnessTraversal {
  import opened Logic
  import opened Extension

  type Accept = (Clause, seq<int>) -> bool

  function Reversed<T>(s: seq<T>): (r: seq<T>)
    ensures |r| == |s|
  {
    if s == [] then [] else Reversed(s[1..]) + [s[0]]
  }

  lemma {:induction false} ReversedAt<T>(s: seq<T>, k: nat)
    requires k < |s|
    ensures Reversed(s)[k] == s[|s| - 1 - k]
  {
    if k < |s| - 1 {
      ReversedAt(s[1..], k);
    }
  }

  lemma ReversedTwice<T>(s: seq<T>)
    ensures Reversed(Reversed(s)) == s
  {
    forall k | 0 <= k < |s| ensures Reversed(Reversed(s))[k] == s[k] {
      ReversedAt(Reversed(s), k);
      ReversedAt(s, |s| - 1 - k);
    }
  }

  lemma ReversedLast<T>(x: T, s: seq<T>)
    ensures Reversed([x] + s) == Reversed(s) + [x]
  {
    assert ([x] + s)[1..] == s;
  }

  ghost predicate Accepted(accept: Accept, entries: seq<Entry>) {
    forall i :: 0 <= i < |entries| ==> accept(entries[i].clause, entries[i].flips)
  }

  /** All entries were visited and accepted, or all up to a rejected one. */
  ghost predicate Visited(accept: Accept, entries: seq<Entry>, visited: seq<Entry>, complete: bool) {
    && visited <= entries
    && (complete ==> visited == entries && Accepted(accept, visited))
    && (!complete ==> visited != [] && Accepted(accept, visited[..|visited| - 1])
                      && !accept(visited[|visited| - 1].clause, visited[|visited| - 1].flips))
  }

  ghost predicate Stack(extension: seq<int>, entries: seq<Entry>) {
    extension == Flat(entries) && forall i :: 0 <= i < |entries| ==> EntryOk(entries[i])
  }

  /** Literals read from the end of a part, in the order they were pushed. */
  method ReadBackward(extension: seq<int>, end: nat, ghost start: nat, ghost s: seq<int>) returns (r: seq<int>, i: nat)
    requires start + 1 + |s| == end <= |extension| && extension[start..end] == [0] + s && NonZero(s)
    ensures r == s && i == start
  {
    forall k | start <= k < end ensures extension[k] == ([0] + s)[k - start] && (extension[k] == 0 <==> k == start) {
      assert extension[start..end][k - start] == ([0] + s)[k - start];
      assert k > start ==> ([0] + s)[k - start] in s;
    }
    i := end - 1;
    r := [];
    assert s[|s|..] == [];
    while extension[i] != 0
      invariant start <= i < end && r == Reversed(s[i - start..])
      decreases i
    {
      assert extension[i] == s[i - start - 1] && s[i - start - 1..] == [s[i - start - 1]] + s[i - start..];
      ReversedLast(s[i - start - 1], s[i - start..]);
      r := r + [extension[i]];
      i := i - 1;
    }
    assert s[0..] == s;
    ReversedTwice(s);
    r := Reversed(r);
  }

  lemma LastEntry(extension: seq<int>, i: nat, entries: seq<Entry>, rest: seq<Entry>, e: Entry)
    requires i <= |extension| && extension[..i] == Flat(entries) && entries == rest + [e]
    ensures var p, q := |Flat(rest)|, |Flat(rest)| + 1 + |e.flips|;
            && i == q + 1 + |e.clause|
            && extension[q..i] == [0] + e.clause && extension[p..q] == [0] + e.flips && extension[..p] == Flat(rest)
  {
    assert entries[..|entries| - 1] == rest;
    assert extension[..i] == Flat(rest) + ([0] + e.flips + [0] + e.clause);
    hide Flat;
    ThreeParts(extension, i, Flat(rest), [0] + e.flips, [0] + e.clause);
  }

  lemma ThreeParts(s: seq<int>, i: nat, a: seq<int>, b: seq<int>, c: seq<int>)
    requires i <= |s| && s[..i] == a + (b + c)
    ensures i == |a| + |b| + |c|
    ensures s[..|a|] == a && s[|a|..|a| + |b|] == b && s[|a| + |b|..i] == c
  {
    var t := s[..i];
    assert t[..|a|] == a && t[|a|..|a| + |b|] == b && t[|a| + |b|..] == c;
  }

  lemma VisitedMore(accept: Accept, entries: seq<Entry>, visited: seq<Entry>, e: Entry)
    requires Accepted(accept, visited) && visited + [e] <= entries
    ensures if accept(e.clause, e.flips) then Accepted(accept, visited + [e]) else Visited(accept, entries, visited + [e], false)
  {
  }

  /** Visits the entries from the last one pushed to the first. */
  method TraverseWitnessesBackward(extension: seq<int>, accept: Accept, ghost entries: seq<Entry>)
    returns (complete: bool, visited: seq<Entry>)
    requires Stack(extension, entries)
    ensures Visited(accept, Reversed(entries), visited, complete)
  {
    hide Flat;
    visited := [];
    var i := |extension|;
    ghost var left := entries;
    ReversedFrom(entries, |entries|);
    while i != 0
      invariant |left| <= |entries| && left <= entries
      invariant 0 <= i <= |extension| && extension[..i] == Flat(left) && i == |Flat(left)|
      invariant visited == Reversed(entries[|left|..]) && visited <= Reversed(entries) && Accepted(accept, visited)
    {
      NonEmpty(left);
      ghost var e, rest := left[|left| - 1], left[..|left| - 1];
      assert left == rest + [e] && entries[|rest|] == e;
      LastEntry(extension, i, left, rest, e);
      ReversedFrom(entries, |rest|);
      var clause, flips;
      clause, i := ReadBackward(extension, i, |Flat(rest)| + 1 + |e.flips|, e.clause);
      flips, i := ReadBackward(extension, i, |Flat(rest)|, e.flips);
      VisitedMore(accept, Reversed(entries), visited, e);
      visited := visited + [Entry(flips, clause)];
      if !accept(clause, flips) {
        return false, visited;
      }
      left := rest;
    }
    NonEmpty(left);
    assert entries[0..] == entries;
    complete := true;
  }

  lemma NonEmpty(entries: seq<Entry>)
    ensures |Flat(entries)| == 0 <==> entries == []
  {
  }

  lemma {:induction false} ReversedFrom<T>(s: seq<T>, k: nat)
    requires k <= |s|
    ensures Reversed(s[k..]) <= Reversed(s)
    ensures k < |s| ==> Reversed(s[k..]) == Reversed(s[k + 1..]) + [s[k]]
  {
    if k > 0 {
      assert s[1..][k - 1..] == s[k..];
      ReversedFrom(s[1..], k - 1);
    } else {
      assert s[0..] == s;
    }
    if k < |s| {
      assert s[k..] == [s[k]] + s[k + 1..];
      ReversedLast(s[k], s[k + 1..]);
    }
  }

  /** Reads up to the next zero, which is skipped, or the end of the stack. */
  method ReadForward(extension: seq<int>, start: nat, ghost s: seq<int>) returns (r: seq<int>, i: nat)
    requires start + |s| <= |extension| && extension[start..start + |s|] == s && NonZero(s)
    requires start + |s| < |extension| ==> extension[start + |s|] == 0
    ensures r == s && i == if start + |s| < |extension| then start + |s| + 1 else |extension|
  {
    assert forall k :: 0 <= k < |s| ==> extension[start + k] == s[k] && s[k] in s;
    i := start;
    r := [];
    while i != |extension|
      invariant start <= i <= start + |s| && r == s[..i - start]
    {
      var lit := extension[i];
      i := i + 1;
      if lit == 0 {
        assert i - 1 == start + |s|;
        assert s[..|s|] == s;
        return;
      }
      assert i - 1 < start + |s|;
      assert s[..i - start] == s[..i - 1 - start] + [lit];
      r := r + [lit];
    }
    assert s[..|s|] == s;
  }

  /** The entry behind the first `k`. */
  lemma NextEntry(extension: seq<int>, entries: seq<Entry>, k: nat)
    requires extension == Flat(entries) && k < |entries|
    ensures var p := |Flat(entries[..k])|; var q := p + 1 + |entries[k].flips|; var t := q + 1 + |entries[k].clause|;
            && t == |Flat(entries[..k + 1])| <= |extension|
            && extension[p] == 0 && extension[p + 1..q] == entries[k].flips
            && extension[q] == 0 && extension[q + 1..t] == entries[k].clause
            && (k + 1 < |entries| ==> t < |extension| && extension[t] == 0)
            && (k + 1 == |entries| ==> t == |extension|)
  {
    hide *;
    FlatAround(entries, k);
    Parts(extension, Flat(entries[..k]), entries[k].flips, entries[k].clause, Flat(entries[k + 1..]));
    var rest := entries[k + 1..];
    NonEmpty(rest);
    if rest != [] {
      FlatAround(rest, 0);
      NonEmpty(rest[..0]);
      var t := |Flat(entries[..k + 1])|;
      assert Flat(rest)[0] == 0 && extension[t] == extension[t..][0];
    }
  }

  lemma FlatAround(entries: seq<Entry>, k: nat)
    requires k < |entries|
    ensures var e := entries[k];
            && Flat(entries) == Flat(entries[..k]) + ([0] + e.flips + [0] + e.clause) + Flat(entries[k + 1..])
            && |Flat(entries[..k + 1])| == |Flat(entries[..k])| + 2 + |e.flips| + |e.clause|
  {
    hide Flat;
    var e := entries[k];
    assert entries[..k + 1] == entries[..k] + [e] && entries == entries[..k + 1] + entries[k + 1..];
    FlatConcat(entries[..k], [e]);
    FlatOne(e);
    FlatConcat(entries[..k + 1], entries[k + 1..]);
  }

  lemma Parts(extension: seq<int>, a: seq<int>, flips: seq<int>, clause: seq<int>, b: seq<int>)
    requires extension == a + ([0] + flips + [0] + clause) + b
    ensures var p := |a|; var q := p + 1 + |flips|; var t := q + 1 + |clause|;
            && t + |b| == |extension| && extension[p] == 0 && extension[p + 1..q] == flips
            && extension[q] == 0 && extension[q + 1..t] == clause && extension[t..] == b
  {
  }

  /** Visits the entries from the first one pushed to the last. */
  method TraverseWitnessesForward(extension: seq<int>, accept: Accept, ghost entries: seq<Entry>)
    returns (complete: bool, visited: seq<Entry>)
    requires Stack(extension, entries)
    ensures Visited(accept, entries, visited, complete)
  {
    hide Flat;
    hide FlatEntry;
    visited := [];
    NonEmpty(entries);
    if |extension| == 0 {
      return true, [];
    }
    assert |Flat(entries[..0])| == 0 by {
      NonEmpty(entries[..0]);
    }
    var i := 1;
    while i != |extension|
      invariant |visited| <= |entries| && visited == entries[..|visited|] && Accepted(accept, visited)
      invariant i == if |visited| < |entries| then |Flat(visited)| + 1 else |extension|
    {
      ghost var e := entries[|visited|];
      NextEntry(extension, entries, |visited|);
      assert entries[..|visited| + 1] == visited + [e];
      var flips, clause;
      flips, i := ReadForward(extension, i, e.flips);
      clause, i := ReadForward(extension, i, e.clause);
      VisitedMore(accept, entries, visited, e);
      visited := visited + [Entry(flips, clause)];
      if !accept(clause, flips) {
        return false, visited;
      }
    }
    assert |visited| == |entries| by {
      if |visited| < |entries| {
        NextEntry(extension, entries, |visited|);
      }
    }
    complete := true;
  }
}
