/** The move-to-front decision queue: a doubly linked list of variables ordered
    by time stamps, and the search for the next decision variable, which in the
    `BRANCHAUX` build moves auxiliary variables out of the way to the front. */
module DecisionQueue {
  import opened Logic

  datatype Link = Link(prev: nat, next: nat)

  function LinkOf(links: map<nat, Link>, v: nat): Link {
    if v in links then links[v] else Link(0, 0)
  }

  function Stamp(btab: map<nat, int>, v: nat): int {
    if v in btab then btab[v] else 0
  }

  /** The links of the variable at position `i`. */
  ghost function Expected(order: seq<nat>, i: nat): Link
    requires i < |order|
  {
    Link(if i == 0 then 0 else order[i - 1], if i == |order| - 1 then 0 else order[i + 1])
  }

  /** The links form one doubly linked list in the given order. */
  ghost predicate Linked(order: seq<nat>, links: map<nat, Link>, first: nat, last: nat) {
    && NoDup(order) && (forall v :: v in order ==> v > 0)
    && (forall i {:trigger Expected(order, i)} :: 0 <= i < |order| ==> LinkOf(links, order[i]) == Expected(order, i))
    && (if order == [] then first == 0 && last == 0 else first == order[0] && last == order[|order| - 1])
  }

  /** Time stamps increase along the list. */
  ghost predicate Stamped(order: seq<nat>, btab: map<nat, int>) {
    forall i, j :: 0 <= i < j < |order| ==> Stamp(btab, order[i]) < Stamp(btab, order[j])
  }

  ghost predicate StampsOk(order: seq<nat>, btab: map<nat, int>, counter: int) {
    Stamped(order, btab) && forall v :: v in order ==> Stamp(btab, v) <= counter
  }

  ghost predicate LaterAssigned(order: seq<nat>, btab: map<nat, int>, vals: set<nat>, idx: nat) {
    forall v {:trigger v in order} :: v in order && Stamp(btab, v) > Stamp(btab, idx) ==> v in vals
  }

  /** Variables with a later stamp than `bumped` are assigned, and the search
      starts at a variable that is not earlier. */
  ghost predicate PointsTo(order: seq<nat>, btab: map<nat, int>, vals: set<nat>, unassigned: nat, bumped: int) {
    && (order == [] <==> unassigned == 0)
    && (order != [] ==> unassigned in order && bumped <= Stamp(btab, unassigned))
    && (forall v {:trigger v in order} :: v in order && Stamp(btab, v) > bumped ==> v in vals)
  }

  function Without<T>(s: seq<T>, k: nat): seq<T>
    requires k < |s|
  {
    s[..k] + s[k + 1..]
  }

  /** Writing the two neighbours of a removed variable. */
  function Bypassed(links: map<nat, Link>, l: Link): map<nat, Link> {
    var a := if l.prev != 0 then links[l.prev := LinkOf(links, l.prev).(next := l.next)] else links;
    if l.next != 0 then a[l.next := LinkOf(a, l.next).(prev := l.prev)] else a
  }

  lemma Neighbours(order: seq<nat>, links: map<nat, Link>, first: nat, last: nat, k: nat)
    requires Linked(order, links, first, last) && k < |order|
    ensures var l := LinkOf(links, order[k]);
            && l == Expected(order, k)
            && (l.prev != 0 <==> k > 0) && (l.next != 0 <==> k < |order| - 1)
  {
    assert LinkOf(links, order[k]) == Expected(order, k);
    assert k > 0 ==> order[k - 1] in order;
    assert k < |order| - 1 ==> order[k + 1] in order;
  }

  lemma LinkedFacts(order: seq<nat>, links: map<nat, Link>, first: nat, last: nat)
    requires Linked(order, links, first, last)
    ensures NoDup(order) && forall v :: v in order ==> v > 0
  {
  }

  lemma BypassedLink(links: map<nat, Link>, l: Link, v: nat)
    requires v != 0
    ensures LinkOf(Bypassed(links, l), v) == Link(if v == l.next then l.prev else LinkOf(links, v).prev,
                                                  if v == l.prev then l.next else LinkOf(links, v).next)
  {
  }

  lemma BypassedAt(order: seq<nat>, links: map<nat, Link>, k: nat, i: nat)
    requires k < |order| && NoDup(order) && (forall v :: v in order ==> v > 0) && i < |Without(order, k)|
    requires forall j {:trigger Expected(order, j)} :: 0 <= j < |order| ==> LinkOf(links, order[j]) == Expected(order, j)
    ensures LinkOf(Bypassed(links, LinkOf(links, order[k])), Without(order, k)[i]) == Expected(Without(order, k), i)
  {
    var rest := Without(order, k);
    var j := if i < k then i else i + 1;
    var l := LinkOf(links, order[k]);
    assert rest[i] == order[j] && order[j] in order;
    BypassedLink(links, l, order[j]);
    hide Bypassed;
    hide LinkOf;
    assert LinkOf(links, order[j]) == Expected(order, j) && l == Expected(order, k);
    assert k > 0 ==> order[k - 1] in order && (order[j] == order[k - 1] <==> j == k - 1);
    assert k < |order| - 1 ==> order[k + 1] in order && (order[j] == order[k + 1] <==> j == k + 1);
    assert i > 0 ==> rest[i - 1] == order[if i - 1 < k then i - 1 else i];
    assert i < |rest| - 1 ==> rest[i + 1] == order[if i + 1 < k then i + 1 else i + 2];
  }

  lemma DequeueLinked(order: seq<nat>, links: map<nat, Link>, first: nat, last: nat, k: nat)
    requires Linked(order, links, first, last) && k < |order|
    ensures var l := LinkOf(links, order[k]);
            Linked(Without(order, k), Bypassed(links, l),
                   if l.prev != 0 then first else l.next, if l.next != 0 then last else l.prev)
  {
    Neighbours(order, links, first, last, k);
    WithoutNoDup(order, k);
    hide Bypassed;
    hide LinkOf;
    hide Expected;
    hide NoDup;
    forall i | 0 <= i < |order| - 1
      ensures LinkOf(Bypassed(links, LinkOf(links, order[k])), Without(order, k)[i]) == Expected(Without(order, k), i)
    {
      BypassedAt(order, links, k, i);
    }
    ExpectedNeighbours(order, k);
  }

  lemma WithoutNoDup(order: seq<nat>, k: nat)
    requires k < |order| && NoDup(order)
    ensures |Without(order, k)| == |order| - 1 && NoDup(Without(order, k))
    ensures forall v :: v in Without(order, k) ==> v in order
  {
    var rest := Without(order, k);
    forall i | 0 <= i < |rest| ensures rest[i] == order[if i < k then i else i + 1] {
    }
  }

  lemma ExpectedNeighbours(order: seq<nat>, k: nat)
    requires k < |order|
    ensures Expected(order, k).prev == (if k == 0 then 0 else order[k - 1])
    ensures Expected(order, k).next == (if k == |order| - 1 then 0 else order[k + 1])
    ensures |order| > 1 && k > 0 ==> Without(order, k)[0] == order[0]
    ensures |order| > 1 && k == 0 ==> Without(order, k)[0] == order[1]
    ensures k > 0 && k == |order| - 1 ==> Without(order, k)[|order| - 2] == order[k - 1]
    ensures k < |order| - 1 ==> Without(order, k)[|order| - 2] == order[|order| - 1]
  {
  }

  lemma AppendLinked(order: seq<nat>, links: map<nat, Link>, first: nat, last: nat, v: nat)
    requires Linked(order, links, first, last) && v > 0 && v !in order
    ensures var a := if last != 0 then links[last := LinkOf(links, last).(next := v)] else links;
            Linked(order + [v], a[v := Link(last, 0)], if last != 0 then first else v, v)
  {
    var order' := order + [v];
    var a := if last != 0 then links[last := LinkOf(links, last).(next := v)] else links;
    var links' := a[v := Link(last, 0)];
    forall i | 0 <= i < |order'| ensures LinkOf(links', order'[i]) == Expected(order', i) {
      if i < |order| {
        assert order'[i] == order[i] && order[i] in order && LinkOf(links, order[i]) == Expected(order, i);
        assert i < |order| - 1 ==> order[i] != order[|order| - 1];
      }
    }
    assert order != [] ==> order[|order| - 1] in order;
  }

  lemma PrependLinked(order: seq<nat>, links: map<nat, Link>, first: nat, last: nat, v: nat)
    requires Linked(order, links, first, last) && v > 0 && v !in order && order != []
    ensures Linked([v] + order, links[first := LinkOf(links, first).(prev := v)][v := Link(0, first)], v, last)
  {
    var order' := [v] + order;
    var links' := links[first := LinkOf(links, first).(prev := v)][v := Link(0, first)];
    forall i | 0 <= i < |order'| ensures LinkOf(links', order'[i]) == Expected(order', i) {
      if i > 0 {
        assert order'[i] == order[i - 1] && order[i - 1] in order && LinkOf(links, order[i - 1]) == Expected(order, i - 1);
        assert i > 1 ==> order[i - 1] != order[0];
      }
    }
  }

  /* ---- the search ---- */

  /** The elements inside or outside a set, in order. */
  ghost function Select(s: seq<nat>, keep: set<nat>, inside: bool): seq<nat> {
    if s == [] then [] else (if (s[0] in keep) == inside then [s[0]] else []) + Select(s[1..], keep, inside)
  }

  /** The queue when the search arrived at position `p` from position `u`: the
      auxiliary variables in between moved to the front, in their order. */
  ghost function Searched(order: seq<nat>, aux: set<nat>, u: nat, p: nat): seq<nat>
    requires p <= u < |order|
  {
    var seen := order[p + 1..u + 1];
    Select(seen, aux, true) + order[..p + 1] + Select(seen, aux, false) + order[u + 1..]
  }

  lemma SearchedStart(order: seq<nat>, aux: set<nat>, u: nat)
    requires u < |order|
    ensures Searched(order, aux, u, u) == order
  {
    assert order[u + 1..u + 1] == [];
    assert order[..u + 1] + order[u + 1..] == order;
  }

  /** One step down: an auxiliary variable is moved to the front, another one
      stays. */
  lemma SearchedStep(order: seq<nat>, aux: set<nat>, u: nat, p: nat)
    requires 0 < p <= u < |order|
    ensures var k, o := |Select(order[p + 1..u + 1], aux, true)| + p, Searched(order, aux, u, p);
            && k < |o| && o[k] == order[p] && k > 0 && o[k - 1] == order[p - 1]
            && Searched(order, aux, u, p - 1) == if order[p] in aux then [order[p]] + Without(o, k) else o
  {
    hide *;
    var seen, x, b, tail := order[p + 1..u + 1], order[p], order[..p], order[u + 1..];
    var a, n := Select(seen, aux, true), Select(seen, aux, false);
    SelectNext(x, seen, aux, true);
    SelectNext(x, seen, aux, false);
    WithoutMiddle(a, b, x, n, tail);
    Regrouped(a, b, x, n, tail);
    assert order[p..u + 1] == [x] + seen && order[..p + 1] == b + [x];
    assert order[..p - 1 + 1] == b && order[p - 1 + 1..u + 1] == order[p..u + 1];
    SearchedMeans(order, aux, u, p);
    SearchedMeans(order, aux, u, p - 1);
  }

  lemma SearchedMeans(order: seq<nat>, aux: set<nat>, u: nat, p: nat)
    requires p <= u < |order|
    ensures var seen := order[p + 1..u + 1];
            Searched(order, aux, u, p) ==
            Select(seen, aux, true) + order[..p + 1] + Select(seen, aux, false) + order[u + 1..]
  {
  }

  lemma SelectNext(x: nat, s: seq<nat>, keep: set<nat>, inside: bool)
    ensures Select([x] + s, keep, inside) == (if (x in keep) == inside then [x] else []) + Select(s, keep, inside)
  {
    assert ([x] + s)[1..] == s;
  }

  lemma Regrouped(a: seq<nat>, b: seq<nat>, x: nat, n: seq<nat>, tail: seq<nat>)
    ensures ([x] + a) + b + ([] + n) + tail == [x] + (a + b + n + tail)
    ensures ([] + a) + b + ([x] + n) + tail == a + (b + [x]) + n + tail
  {
  }

  lemma WithoutMiddle(a: seq<nat>, b: seq<nat>, x: nat, n: seq<nat>, tail: seq<nat>)
    ensures var o := a + (b + [x]) + n + tail;
            && o[|a| + |b|] == x && (|b| > 0 ==> o[|a| + |b| - 1] == b[|b| - 1])
            && Without(o, |a| + |b|) == a + b + n + tail
  {
    var o := a + (b + [x]) + n + tail;
    assert o[..|a| + |b|] == a + b;
    assert o[|a| + |b| + 1..] == n + tail;
  }

  lemma {:induction false} SelectMembers(s: seq<nat>, keep: set<nat>, inside: bool)
    ensures forall v :: v in Select(s, keep, inside) <==> v in s && (v in keep) == inside
  {
    if s != [] {
      SelectMembers(s[1..], keep, inside);
      assert s == [s[0]] + s[1..];
    }
  }

  class VmtfQueue {
    const aux: set<nat>
    var links: map<nat, Link>
    var first: nat
    var last: nat
    var unassigned: nat
    var bumped: int
    var btab: map<nat, int>
    var counter: int
    var vals: set<nat>
    ghost var order: seq<nat>

    /** The list is linked and stamped. */
    ghost predicate ListOk()
      reads this
    {
      Linked(order, links, first, last) && StampsOk(order, btab, counter)
    }

    ghost predicate PointerOk()
      reads this
    {
      PointsTo(order, btab, vals, unassigned, bumped)
    }

    ghost predicate Valid()
      reads this
    {
      ListOk() && PointerOk()
    }

    constructor (auxiliary: set<nat>)
      ensures Valid() && order == [] && vals == {} && aux == auxiliary
    {
      aux := auxiliary;
      links, first, last, unassigned, bumped, btab, counter, vals := map[], 0, 0, 0, 0, map[], 0, {};
      order := [];
    }

    method UpdateQueueUnassigned(idx: nat)
      requires ListOk() && idx in order
      requires LaterAssigned(order, btab, vals, idx)
      modifies `unassigned, `bumped
      ensures Valid() && unassigned == idx && bumped == Stamp(btab, idx)
    {
      unassigned := idx;
      bumped := Stamp(btab, idx);
    }

    method Dequeue(idx: nat, ghost k: nat)
      requires Linked(order, links, first, last) && k < |order| && order[k] == idx
      modifies `links, `first, `last, `order
      ensures order == Without(old(order), k) && Linked(order, links, first, last)
      ensures k < |old(order)| - 1 ==> last == old(last)
    {
      DequeueLinked(order, links, first, last, k);
      Neighbours(order, links, first, last, k);
      var l := LinkOf(links, idx);
      if l.prev != 0 {
        links := links[l.prev := LinkOf(links, l.prev).(next := l.next)];
      } else {
        first := l.next;
      }
      if l.next != 0 {
        links := links[l.next := LinkOf(links, l.next).(prev := l.prev)];
      } else {
        last := l.prev;
      }
      order := Without(order, k);
    }

    method Enqueue(idx: nat)
      requires Linked(order, links, first, last) && idx > 0 && idx !in order
      modifies `links, `first, `last, `order
      ensures order == old(order) + [idx] && Linked(order, links, first, last)
    {
      AppendLinked(order, links, first, last, idx);
      if last != 0 {
        links := links[last := LinkOf(links, last).(next := idx)];
      } else {
        first := idx;
      }
      links := links[idx := Link(last, 0)];
      last := idx;
      order := order + [idx];
    }

    /** Relinks a removed variable in front of the first one. */
    method PushFront(idx: nat)
      requires Linked(order, links, first, last) && idx > 0 && idx !in order && order != []
      modifies `links, `first, `order
      ensures order == [idx] + old(order) && Linked(order, links, first, last)
      ensures LinkOf(links, idx).next == old(first)
    {
      PrependLinked(order, links, first, last, idx);
      links := links[first := LinkOf(links, first).(prev := idx)][idx := Link(0, first)];
      first := idx;
      order := [idx] + order;
    }

    /** A new variable comes last and is where the search starts. */
    method InitEnqueue(idx: nat)
      requires Valid() && idx > 0 && idx !in order && idx !in vals
      modifies `links, `first, `last, `order, `btab, `counter, `unassigned, `bumped
      ensures Valid() && order == old(order) + [idx] && unassigned == idx
    {
      NewStamp(order, btab, counter, vals, idx);
      hide StampsOk;
      hide PointsTo;
      hide LaterAssigned;
      Enqueue(idx);
      counter := counter + 1;
      btab := btab[idx := counter];
      UpdateQueueUnassigned(last);
    }

    method Assign(idx: nat)
      requires Valid()
      modifies `vals
      ensures Valid() && vals == old(vals) + {idx}
    {
      vals := vals + {idx};
    }

    /** A variable becomes unassigned; the search may have to start there. */
    method Unassign(idx: nat)
      requires Valid() && idx in order
      modifies `vals, `unassigned, `bumped
      ensures Valid() && vals == old(vals) - {idx}
    {
      vals := vals - {idx};
      if bumped < Stamp(btab, idx) {
        UpdateQueueUnassigned(idx);
      }
    }

    /** Moves a variable to the end with a new stamp. */
    method BumpQueue(idx: nat, ghost k: nat)
      requires Valid() && k < |order| && order[k] == idx
      modifies `links, `first, `last, `order, `btab, `counter, `unassigned, `bumped
      ensures Valid() && vals == old(vals)
      ensures order == if k == |old(order)| - 1 then old(order) else Without(old(order), k) + [idx]
    {
      hide NoDup;
      hide Without;
      hide StampsOk;
      hide PointsTo;
      hide LaterAssigned;
      hide Linked;
      Neighbours(order, links, first, last, k);
      if LinkOf(links, idx).next == 0 {
        return;
      }
      LinkedFacts(order, links, first, last);
      assert idx in order && idx > 0;
      WithoutMembers(order, k);
      Bumped(order, btab, counter, k, vals, unassigned, bumped);
      Dequeue(idx, k);
      Enqueue(idx);
      counter := counter + 1;
      btab := btab[idx := counter];
      if idx !in vals {
        UpdateQueueUnassigned(idx);
      }
    }

    /** Moves an auxiliary variable to the front and stamps it below all others. */
    method MoveToFront(temp: nat, ghost k: nat)
      requires ListOk() && 0 < k < |order| && order[k] == temp
      modifies `links, `first, `last, `order, `btab
      ensures ListOk() && order == [temp] + Without(old(order), k)
      ensures forall v :: v != temp ==> Stamp(btab, v) == Stamp(old(btab), v)
    {
      assert temp in order && temp > 0 && |Without(order, k)| > 0;
      WithoutMembers(order, k);
      Fronted(order, btab, counter, k);
      hide NoDup;
      hide Without;
      hide StampsOk;
      ghost var rest := Without(order, k);
      Dequeue(temp, k);
      assert first == rest[0];
      hide Linked;
      PushFront(temp);
      btab := btab[temp := Stamp(btab, LinkOf(links, temp).next) - 1];
    }

    /** One step of the search. */
    method StepDown(res: nat, ghost o: seq<nat>, ghost u: nat, ghost p: nat) returns (next: nat)
      requires ListOk() && 0 < p <= u < |o| && NoDup(o) && order == Searched(o, aux, u, p) && res == o[p]
      modifies `links, `first, `last, `order, `btab
      ensures ListOk() && next == o[p - 1] && order == Searched(o, aux, u, p - 1)
    {
      hide StampsOk;
      hide Without;
      hide NoDup;
      hide Linked;
      SearchedStep(o, aux, u, p);
      hide Searched;
      ghost var k := |Select(o[p + 1..u + 1], aux, true)| + p;
      hide Select;
      Neighbours(order, links, first, last, k);
      next := LinkOf(links, res).prev;
      if res in aux {
        MoveToFront(res, k);
      }
    }

    /** The last variable in the queue that is neither assigned nor auxiliary. */
    method NextDecisionVariable() returns (res: nat, ghost p: nat)
      requires Valid() && exists v :: v in order && v !in vals && v !in aux
      modifies `links, `first, `last, `order, `btab, `unassigned, `bumped
      ensures Valid() && p < |old(order)| && res == old(order)[p] && res !in vals && res !in aux
      ensures forall j :: p < j < |old(order)| ==> old(order)[j] in vals || old(order)[j] in aux
      ensures exists u :: p <= u < |old(order)| && old(order)[u] == old(unassigned) && order == Searched(old(order), aux, u, p)
    {
      ghost var o := order;
      ghost var candidate, u := Start();
      var searched;
      res, searched, p := SearchLoop(o, candidate, u);
      if searched > 0 {
        AfterResult(o, u, p);
        hide Searched;
        hide Linked;
        hide StampsOk;
        hide PointsTo;
        hide LaterAssigned;
        UpdateQueueUnassigned(res);
      }
    }

    /** Goes down the queue until a variable is neither assigned nor auxiliary. */
    method SearchLoop(ghost o: seq<nat>, ghost candidate: nat, ghost u: nat) returns (res: nat, searched: nat, ghost p: nat)
      requires Valid() && order == o && candidate <= u < |o| && o[u] == unassigned && NoDup(o)
      requires o[candidate] !in vals && o[candidate] !in aux
      requires forall j :: u < j < |o| ==> o[j] in vals
      modifies `links, `first, `last, `order, `btab
      ensures ListOk() && p <= u && order == Searched(o, aux, u, p)
      ensures res == o[p] && res !in vals && res !in aux
      ensures forall j :: p < j < |o| ==> o[j] in vals || o[j] in aux
      ensures searched == 0 ==> Valid()
    {
      hide Searched;
      hide Linked;
      hide StampsOk;
      hide PointsTo;
      hide NoDup;
      p := u;
      res := unassigned;
      searched := 0;
      SearchedStart(o, aux, u);
      while res in vals || res in aux
        invariant candidate <= p <= u && res == o[p] && ListOk() && order == Searched(o, aux, u, p)
        invariant forall j :: p < j < |o| ==> o[j] in vals || o[j] in aux
        invariant searched == 0 ==> Valid()
        decreases p
      {
        res := StepDown(res, o, u, p);
        searched := searched + 1;
        p := p - 1;
      }
    }

    /** Where the search starts, and that a candidate is not later. */
    lemma Start() returns (candidate: nat, u: nat)
      requires Valid() && exists v :: v in order && v !in vals && v !in aux
      ensures candidate <= u < |order| && order[u] == unassigned
      ensures order[candidate] !in vals && order[candidate] !in aux
      ensures NoDup(order) && forall j :: u < j < |order| ==> order[j] in vals
    {
      var v :| v in order && v !in vals && v !in aux;
      candidate :| candidate < |order| && order[candidate] == v;
      u :| u < |order| && order[u] == unassigned;
      forall j | u < j < |order| ensures order[j] in vals {
        assert order[j] in order && Stamp(btab, order[u]) < Stamp(btab, order[j]);
      }
    }

    /** Everything later than the result is assigned. */
    lemma AfterResult(o: seq<nat>, u: nat, p: nat)
      requires ListOk() && p <= u < |o| && order == Searched(o, aux, u, p)
      requires forall j :: p < j <= u ==> o[j] in vals || o[j] in aux
      requires forall j :: u < j < |o| ==> o[j] in vals
      ensures o[p] in order && LaterAssigned(order, btab, vals, o[p])
    {
      var seen := o[p + 1..u + 1];
      var a, n := Select(seen, aux, true), Select(seen, aux, false);
      var k := |a| + p;
      assert order[k] == o[p];
      SelectMembers(seen, aux, false);
      forall v | v in order && Stamp(btab, v) > Stamp(btab, o[p]) ensures v in vals {
        var i :| 0 <= i < |order| && order[i] == v;
        assert forall j :: 0 <= j <= k ==> Stamp(btab, order[j]) <= Stamp(btab, order[k]);
        assert k < i;
        if i <= k + |n| {
          assert v == n[i - k - 1] && v in n;
          var j :| 0 <= j < |seen| && seen[j] == v;
          assert o[p + 1 + j] == v;
        } else {
          assert v == o[u + 1..][i - k - 1 - |n|];
        }
      }
    }
  }

  lemma WithoutMembers(s: seq<nat>, k: nat)
    requires NoDup(s) && k < |s|
    ensures forall v :: v in Without(s, k) <==> v in s && v != s[k]
  {
    var r := Without(s, k);
    forall v ensures v in r <==> v in s && v != s[k] {
      if v in s && v != s[k] {
        var i :| 0 <= i < |s| && s[i] == v;
        assert r[if i < k then i else i - 1] == v;
      }
      if v in r {
        var i :| 0 <= i < |r| && r[i] == v;
        assert s[if i < k then i else i + 1] == v;
      }
    }
  }

  lemma StampWithout(order: seq<nat>, btab: map<nat, int>, k: nat)
    requires Stamped(order, btab) && k < |order|
    ensures Stamped(Without(order, k), btab)
  {
    var r := Without(order, k);
    forall i, j | 0 <= i < j < |r| ensures Stamp(btab, r[i]) < Stamp(btab, r[j]) {
      assert r[i] == order[if i < k then i else i + 1] && r[j] == order[if j < k then j else j + 1];
    }
  }

  lemma StampPrepended(order: seq<nat>, btab: map<nat, int>, v: nat)
    requires Stamped(order, btab) && v !in order && order != []
    ensures Stamped([v] + order, btab[v := Stamp(btab, order[0]) - 1])
  {
    var o, b := [v] + order, btab[v := Stamp(btab, order[0]) - 1];
    forall i, j | 0 <= i < j < |o| ensures Stamp(b, o[i]) < Stamp(b, o[j]) {
      assert o[j] == order[j - 1] && order[j - 1] in order;
      assert i > 0 ==> o[i] == order[i - 1] && order[i - 1] in order;
      assert j > 1 ==> Stamp(btab, order[0]) < Stamp(btab, order[j - 1]);
    }
  }

  lemma NewStamp(order: seq<nat>, btab: map<nat, int>, counter: int, vals: set<nat>, v: nat)
    requires StampsOk(order, btab, counter) && v !in order
    ensures var order', btab' := order + [v], btab[v := counter + 1];
            StampsOk(order', btab', counter + 1) && LaterAssigned(order', btab', vals, v) && v in order'
  {
    StampAppended(order, btab, counter, v);
    assert (order + [v])[|order|] == v;
  }

  /** A variable is moved to the end with a new stamp. */
  lemma Bumped(order: seq<nat>, btab: map<nat, int>, counter: int, k: nat, vals: set<nat>, unassigned: nat, bumped: int)
    requires NoDup(order) && StampsOk(order, btab, counter) && PointsTo(order, btab, vals, unassigned, bumped) && k < |order|
    ensures var idx := order[k];
            var order', btab' := Without(order, k) + [idx], btab[idx := counter + 1];
            && StampsOk(order', btab', counter + 1) && LaterAssigned(order', btab', vals, idx)
            && (idx in vals ==> PointsTo(order', btab', vals, unassigned, bumped))
  {
    WithoutMembers(order, k);
    StampWithout(order, btab, k);
    assert order[k] in order;
    StampAppended(Without(order, k), btab, counter, order[k]);
    hide NoDup;
    hide Without;
    hide Stamped;
    var order' := Without(order, k) + [order[k]];
    assert forall v :: v in order' <==> v in order;
    assert order'[|order'| - 1] == order[k];
  }

  /** A variable is moved to the front with the lowest stamp. */
  lemma Fronted(order: seq<nat>, btab: map<nat, int>, counter: int, k: nat)
    requires NoDup(order) && StampsOk(order, btab, counter) && k < |order| && |Without(order, k)| > 0
    ensures var rest := Without(order, k);
            StampsOk([order[k]] + rest, btab[order[k] := Stamp(btab, rest[0]) - 1], counter)
  {
    WithoutMembers(order, k);
    StampWithout(order, btab, k);
    StampPrepended(Without(order, k), btab, order[k]);
    hide NoDup;
    hide Stamped;
    var rest := Without(order, k);
    hide Without;
    assert rest[0] in rest;
    assert forall v :: v in [order[k]] + rest ==> v == order[k] || v in rest;
  }

  lemma StampAppended(order: seq<nat>, btab: map<nat, int>, counter: int, v: nat)
    requires Stamped(order, btab) && v !in order && forall w :: w in order ==> Stamp(btab, w) <= counter
    ensures Stamped(order + [v], btab[v := counter + 1])
  {
    var o, b := order + [v], btab[v := counter + 1];
    forall i, j | 0 <= i < j < |o| ensures Stamp(b, o[i]) < Stamp(b, o[j]) {
      assert o[i] == order[i] && order[i] in order;
      assert j < |order| ==> o[j] == order[j] && order[j] in order;
    }
  }
}
