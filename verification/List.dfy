/** ethercat/nuttx/linux/list.h: circular doubly linked lists threaded through
    shared nodes. Each operation rewrites a few pointers; its contract says
    what becomes of every ring in the heap, as a RingSpec operation. */
module List {
  import opened RingSpec

  /** struct list_head. An entry not yet on a list may hold anything. */
  class ListHead {
    var next: ListHead?
    var prev: ListHead?

    constructor () {
      next, prev := null, null;
    }
  }

  type Ring = seq<ListHead>

  /** r is a ring in the heap: next leads around it in order and prev back. */
  ghost predicate IsRing(r: Ring)
    reads r
  {
    && Distinct(r)
    && (forall i :: 0 <= i < |r| - 1 ==> r[i].next == r[i + 1])
    && (forall i :: 0 < i < |r| ==> r[i].prev == r[i - 1])
    && (|r| > 0 ==> r[|r| - 1].next == r[0] && r[0].prev == r[|r| - 1])
  }

  lemma RotateRing(r: Ring, i: nat)
    requires IsRing(r) && i <= |r|
    ensures IsRing(Rotate(r, i))
  {
    var q := Rotate(r, i);
    var n := |r| - i;
    forall j | 0 <= j < |q| - 1 ensures q[j].next == q[j + 1] {
      if j == n - 1 { assert i > 0; } else if j < n { assert q[j] == r[i + j]; } else { assert q[j] == r[j - n]; }
    }
    forall j | 0 < j < |q| ensures q[j].prev == q[j - 1] {
      if j == n { assert i < |r|; } else if j < n { assert q[j] == r[i + j]; } else { assert q[j] == r[j - n]; }
    }
  }

  ghost function Nodes(rs: seq<Ring>): (ns: set<ListHead>)
    ensures forall k, i :: 0 <= k < |rs| && 0 <= i < |rs[k]| ==> rs[k][i] in ns
  {
    set k, i | 0 <= k < |rs| && 0 <= i < |rs[k]| :: rs[k][i]
  }

  /** Every ring of rs is in the heap and no node is in two places. */
  ghost predicate AreRings(rs: seq<Ring>)
    reads Nodes(rs)
  {
    && Disjoint(rs)
    && forall k :: 0 <= k < |rs| ==> IsRing(rs[k])
  }

  /** __list_add. The ring r is read from next round to prev. */
  method UnderscoreListAdd(entry: ListHead, prev: ListHead, next: ListHead, ghost r: Ring)
    requires IsRing(r) && |r| > 0 && entry !in r
    requires prev == r[|r| - 1] && next == r[0]
    modifies entry, prev`next, next`prev
    ensures IsRing(r + [entry])
  {
    next.prev := entry;
    entry.next := next;
    entry.prev := prev;
    prev.next := entry;
  }

  /** __list_del. The ring r is read so that the entry to unlink comes last. */
  method UnderscoreListDel(prev: ListHead, next: ListHead, ghost r: Ring)
    requires IsRing(r) && |r| > 0
    requires prev == r[|r| - 1].prev && next == r[|r| - 1].next
    modifies prev`next, next`prev
    ensures IsRing(r[..|r| - 1])
    ensures |r| == 1 ==> IsRing(r)
    ensures |r| > 1 ==> unchanged(r[|r| - 1])
  {
    next.prev := prev;
    prev.next := next;
  }

  // ----- reading a ring from another place -----

  /** The ring of r[i], read so that r[i] comes last. */
  lemma ReadUpTo(r: Ring, i: nat)
    requires IsRing(r) && i < |r|
    ensures var q := Rotate(r, i + 1);
      && IsRing(q) && |q| == |r| && q[|q| - 1] == r[i] && q[0] == r[i].next
      && (forall y :: y in q <==> y in r)
      && (r[i].next == r[i] <==> |r| == 1)
  {
    RotateRing(r, i + 1);
    assert r == r[..i + 1] + r[i + 1..];
  }

  /** The ring of r[i], read so that r[i] comes first. */
  lemma ReadFrom(r: Ring, i: nat)
    requires IsRing(r) && i < |r|
    ensures var q := Rotate(r, i);
      && IsRing(q) && |q| == |r| && q[0] == r[i] && q[|q| - 1] == r[i].prev
      && (forall y :: y in q <==> y in r)
  {
    RotateRing(r, i);
    assert r == r[..i] + r[i..];
  }

  lemma InsertRing(r: Ring, i: nat, x: ListHead)
    requires i <= |r| && IsRing(Rotate(r, i) + [x])
    ensures IsRing(Insert(r, i, x))
  {
    RotateRing(Rotate(r, i) + [x], |r| - i);
    RotateInsert(r, i, x);
  }

  lemma RemoveRing(r: Ring, i: nat)
    requires i < |r| && IsRing(Rotate(r, i + 1)[..|r| - 1])
    ensures IsRing(Remove(r, i))
  {
    RotateRing(Rotate(r, i + 1)[..|r| - 1], |r| - i - 1);
    RotateRemove(r, i);
  }

  /** Replacing one ring of a disjoint collection, once the others are known to be kept. */
  lemma AreRingsWith(rs: seq<Ring>, k: nat, r: Ring)
    requires k < |rs| && Disjoint(rs) && IsRing(r)
    requires forall x :: x in r ==> x in rs[k] || !Linked(rs, x)
    requires Elsewhere(rs, k)
    ensures AreRings(rs[k := r])
  {
    assert Distinct(r);
    hide IsRing, Distinct, Disjoint, Linked;
    ReplaceKeepsDisjoint(rs, k, r);
    var q := rs[k := r];
    forall l | 0 <= l < |q| ensures IsRing(q[l]) {
      assert l != k ==> Untouched(rs, k, l);
    }
  }

  lemma RingsApart(rs: seq<Ring>, k: nat, l: nat)
    requires AreRings(rs) && k < |rs| && l < |rs| && k != l
    ensures forall y :: y in rs[k] ==> y !in rs[l]
    ensures forall y :: y in rs[l] ==> Linked(rs, y)
    ensures IsRing(rs[l])
  {
    RingsDisjoint(rs, k, l);
    RingIsLinked(rs, l);
  }

  /** The neighbours of position i are in the ring. */
  lemma NeighboursIn(rs: seq<Ring>, k: nat, i: nat)
    requires AreRings(rs) && k < |rs| && i < |rs[k]|
    ensures IsRing(rs[k])
    ensures var x := rs[k][i];
      x.next != null && x.next in rs[k] && x.prev != null && x.prev in rs[k]
    ensures forall y :: y in rs[k] ==> y in Nodes(rs) && Linked(rs, y)
  {
    var r := rs[k];
    assert r[i].next == if i < |r| - 1 then r[i + 1] else r[0];
    assert r[i].prev == if i > 0 then r[i - 1] else r[|r| - 1];
    RingIsLinked(rs, k);
  }

  /** Ring l is a ring of nodes that are on the lists but not on ring k. */
  ghost predicate Untouched(rs: seq<Ring>, k: nat, l: nat)
    requires k < |rs| && l < |rs|
    reads rs[l]
  {
    IsRing(rs[l]) && forall y :: y in rs[l] ==> y !in rs[k] && Linked(rs, y)
  }

  /** Every ring but number k is Untouched. */
  ghost predicate Elsewhere(rs: seq<Ring>, k: nat)
    requires k < |rs|
    reads Nodes(rs[k := []])
  {
    forall l :: 0 <= l < |rs| && l != k ==> rs[l] == rs[k := []][l] && Untouched(rs, k, l)
  }

  /** x, its ring, and what a change around x cannot reach. */
  lemma Approach(rs: seq<Ring>, x: ListHead) returns (k: nat, i: nat)
    requires AreRings(rs) && Linked(rs, x)
    ensures (k, i) == Where(rs, x) && At(rs, x, k, i)
    ensures IsRing(rs[k]) && x.prev != null && x.next != null
    ensures x.prev in rs[k] && x.next in rs[k] && x in rs[k]
    ensures Disjoint(rs) && Elsewhere(rs, k)
    ensures forall y :: y in rs[k] ==> y in Nodes(rs) && Linked(rs, y)
    ensures forall y :: y in Nodes(rs[k := []]) ==> y !in rs[k] && Linked(rs, y)
  {
    hide Distinct, IsRing;
    var p := Where(rs, x);
    k, i := p.0, p.1;
    NeighboursIn(rs, k, i);
    forall l | 0 <= l < |rs| && l != k ensures Untouched(rs, k, l) {
      RingsApart(rs, k, l);
    }
  }

  lemma Added(rs: seq<Ring>, x: ListHead, k: nat, i: nat)
    requires Disjoint(rs) && !Linked(rs, x) && k < |rs| && i <= |rs[k]|
    requires IsRing(Rotate(rs[k], i) + [x]) && Elsewhere(rs, k)
    ensures AreRings(rs[k := Insert(rs[k], i, x)])
    ensures i == 0 ==> AreRings(rs[k := Insert(rs[k], |rs[k]|, x)])
  {
    hide Distinct, IsRing, Insert;
    var n := if i == 0 then |rs[k]| else i;
    assert Rotate(rs[k], 0) == Rotate(rs[k], |rs[k]|);
    InsertRing(rs[k], i, x);
    InsertRing(rs[k], n, x);
    InsertElements(rs[k], i, x);
    InsertElements(rs[k], n, x);
    AreRingsWith(rs, k, Insert(rs[k], i, x));
    AreRingsWith(rs, k, Insert(rs[k], n, x));
  }

  lemma Removed(rs: seq<Ring>, x: ListHead, k: nat, i: nat)
    requires Disjoint(rs) && Linked(rs, x) && (k, i) == Where(rs, x) && At(rs, x, k, i)
    requires IsRing(Rotate(rs[k], i + 1)[..|rs[k]| - 1]) && Elsewhere(rs, k)
    ensures AreRings(Detach(rs, x))
  {
    hide IsRing, Remove;
    RemoveRing(rs[k], i);
    RemoveElements(rs[k], i);
    AreRingsWith(rs, k, Remove(rs[k], i));
  }

  // ----- the operations (lines 129-240) -----

  method ListAdd(entry: ListHead, head: ListHead, ghost rs: seq<Ring>)
    requires AreRings(rs) && Linked(rs, head) && !Linked(rs, entry)
    modifies entry, Nodes(rs)
    ensures AreRings(AddAfter(rs, entry, head))
  {
    hide IsRing, Distinct, Disjoint, AreRings, Elsewhere, Rotate, Linked;
    ghost var k, i := Approach(rs, head);
    ReadUpTo(rs[k], i);
    ghost var away := Nodes(rs[k := []]);
    assert entry !in away && head !in away && head.next !in away;
    UnderscoreListAdd(entry, head, head.next, Rotate(rs[k], i + 1));
    assert forall y :: y in away ==> old(allocated(y)) && unchanged(y);
    Added(rs, entry, k, i + 1);
  }

  method ListAddTail(entry: ListHead, head: ListHead, ghost rs: seq<Ring>)
    requires AreRings(rs) && Linked(rs, head) && !Linked(rs, entry)
    modifies entry, Nodes(rs)
    ensures AreRings(AddBefore(rs, entry, head))
  {
    hide IsRing, Distinct, Disjoint, AreRings, Elsewhere, Rotate, Linked;
    ghost var k, i := Approach(rs, head);
    ReadFrom(rs[k], i);
    ghost var away := Nodes(rs[k := []]);
    assert entry !in away && head !in away && head.prev !in away;
    UnderscoreListAdd(entry, head.prev, head, Rotate(rs[k], i));
    assert forall y :: y in away ==> old(allocated(y)) && unchanged(y);
    Added(rs, entry, k, i);
  }

  /** The entry is off the lists but, unless it was alone, keeps its pointers:
      list_del on a head does not reset it, whatever lines 199-201 say. */
  method ListDel(entry: ListHead, ghost rs: seq<Ring>)
    requires AreRings(rs) && Linked(rs, entry)
    modifies Nodes(rs)
    ensures AreRings(Detach(rs, entry))
    ensures if old(entry.next) == entry then IsRing([entry]) else unchanged(entry)
  {
    hide IsRing, Distinct, Disjoint, AreRings, Elsewhere, Rotate, Linked;
    ghost var k, i := Approach(rs, entry);
    ReadUpTo(rs[k], i);
    ghost var away := Nodes(rs[k := []]);
    assert entry.next !in away && entry.prev !in away;
    ghost var q := Rotate(rs[k], i + 1);
    assert |q| == 1 ==> q == [entry];
    UnderscoreListDel(entry.prev, entry.next, q);
    assert forall y :: y in away ==> old(allocated(y)) && unchanged(y);
    Removed(rs, entry, k, i);
  }

  lemma Appended(rs: seq<Ring>, x: ListHead)
    requires AreRings(rs) && !Linked(rs, x) && IsRing([x])
    ensures AreRings(rs + [[x]])
  {
    hide IsRing, Linked;
    AppendKeepsDisjoint(rs, x);
  }

  method InitListHead(list: ListHead, ghost rs: seq<Ring>)
    requires AreRings(rs) && !Linked(rs, list)
    modifies list
    ensures AreRings(rs + [[list]])
  {
    hide IsRing, AreRings, Linked;
    ghost var ns := Nodes(rs);
    NodesLinked(rs);
    assert list !in ns;
    list.prev := list;
    list.next := list.prev;
    assert forall y :: y in ns ==> old(allocated(y)) && unchanged(y);
    SelfRing(list);
    Appended(rs, list);
  }

  lemma SelfRing(x: ListHead)
    requires x.next == x == x.prev
    ensures IsRing([x])
  {
  }

  lemma NodesLinked(rs: seq<Ring>)
    ensures forall y :: y in Nodes(rs) <==> Linked(rs, y)
  {
    forall y | y in Nodes(rs) ensures Linked(rs, y) {
      var k, i :| 0 <= k < |rs| && 0 <= i < |rs[k]| && rs[k][i] == y;
      assert At(rs, y, k, i);
    }
  }

  method ListDelInit(entry: ListHead, ghost rs: seq<Ring>)
    requires AreRings(rs) && Linked(rs, entry)
    modifies Nodes(rs)
    ensures AreRings(Detach(rs, entry) + [[entry]])
  {
    hide IsRing, Distinct, Disjoint, AreRings, Elsewhere, Rotate, Linked, Detach;
    ghost var k, i := Approach(rs, entry);
    ReadUpTo(rs[k], i);
    ghost var away := Nodes(rs[k := []]);
    assert entry.next !in away && entry.prev !in away;
    UnderscoreListDel(entry.prev, entry.next, Rotate(rs[k], i + 1));
    assert forall y :: y in away ==> old(allocated(y)) && unchanged(y);
    Removed(rs, entry, k, i);
    DetachLinked(rs, entry);
    InitListHead(entry, Detach(rs, entry));
  }

  method ListMoveTail(list: ListHead, head: ListHead, ghost rs: seq<Ring>)
    requires AreRings(rs) && Linked(rs, list) && Linked(rs, head) && list != head
    modifies Nodes(rs)
    ensures Linked(Detach(rs, list), head)
    ensures AreRings(AddBefore(Detach(rs, list), list, head))
  {
    hide IsRing, Distinct, Disjoint, AreRings, Elsewhere, Rotate, Linked, Detach;
    ghost var k, i := Approach(rs, list);
    ReadUpTo(rs[k], i);
    ghost var away := Nodes(rs[k := []]);
    assert list.next !in away && list.prev !in away;
    UnderscoreListDel(list.prev, list.next, Rotate(rs[k], i + 1));
    assert forall y :: y in away ==> old(allocated(y)) && unchanged(y);
    Removed(rs, list, k, i);
    DetachLinked(rs, list);
    NodesLinked(rs);
    NodesLinked(Detach(rs, list));
    ListAddTail(list, head, Detach(rs, list));
  }

  method ListEmpty(head: ListHead, ghost rs: seq<Ring>) returns (empty: bool)
    requires AreRings(rs) && Linked(rs, head)
    ensures empty <==> rs[Where(rs, head).0] == [head]
  {
    ghost var k, i := Approach(rs, head);
    ReadUpTo(rs[k], i);
    empty := head.next == head;
  }

  // ----- traversals (lines 316-338) -----

  lemma RingFrom(rs: seq<Ring>, head: ListHead) returns (q: Ring)
    requires AreRings(rs) && Linked(rs, head)
    ensures IsRing(q) && |q| > 0 && q[0] == head && Entries(rs, head) == q[1..]
  {
    var k, i := Approach(rs, head);
    ReadFrom(rs[k], i);
    q := Rotate(rs[k], i);
  }

  function Reversed<T>(s: seq<T>): (r: seq<T>) {
    if s == [] then [] else Reversed(s[1..]) + [s[0]]
  }

  /** One step around a ring, and whether it is back at the start. */
  lemma StepsOf(r: Ring, n: nat)
    requires IsRing(r) && n < |r|
    ensures r[n].next == if n + 1 < |r| then r[n + 1] else r[0]
    ensures r[n].prev == if n > 0 then r[n - 1] else r[|r| - 1]
    ensures r[n] == r[0] <==> n == 0
  {
  }

  /** list_for_each_entry, collecting what the body sees. */
  method ListForEachEntry(head: ListHead, ghost rs: seq<Ring>) returns (visited: Ring)
    requires AreRings(rs) && Linked(rs, head)
    ensures visited == Entries(rs, head)
  {
    hide AreRings, IsRing, Linked, Entries;
    ghost var q := RingFrom(rs, head);
    StepsOf(q, 0);
    visited := [];
    var pos := head.next;
    ghost var n := 0;
    while pos != head
      invariant 0 <= n < |q| && visited == q[1..n + 1]
      invariant pos == if n + 1 < |q| then q[n + 1] else head
      decreases |q| - n
    {
      StepsOf(q, n + 1);
      visited := visited + [pos];
      pos := pos.next;
      n := n + 1;
      if n + 1 < |q| { StepsOf(q, n + 1); }
    }
    if n + 1 < |q| { StepsOf(q, n + 1); }
  }

  /** list_for_each_entry_reverse. */
  method ListForEachEntryReverse(head: ListHead, ghost rs: seq<Ring>) returns (visited: Ring)
    requires AreRings(rs) && Linked(rs, head)
    ensures visited == Reversed(Entries(rs, head))
  {
    hide AreRings, IsRing, Linked, Entries;
    ghost var q := RingFrom(rs, head);
    StepsOf(q, 0);
    visited := [];
    var pos := head.prev;
    ghost var n := |q|;
    while pos != head
      invariant 1 <= n <= |q| && visited == Reversed(q[n..])
      invariant pos == q[n - 1]
      decreases n
    {
      StepsOf(q, n - 1);
      assert q[n - 1..][1..] == q[n..];
      visited := visited + [pos];
      pos := pos.prev;
      n := n - 1;
    }
    StepsOf(q, n - 1);
  }

  /** Where the pointers of a list lead. */
  lemma NextOf(rs: seq<Ring>, head: ListHead, n: nat)
    requires AreRings(rs) && Linked(rs, head)
    ensures var es := Entries(rs, head);
      && head.next == (if |es| > 0 then es[0] else head)
      && (n < |es| ==> es[n] != head && es[n].next == if n + 1 < |es| then es[n + 1] else head)
  {
    hide AreRings, IsRing, Linked, Entries;
    var q := RingFrom(rs, head);
    StepsOf(q, 0);
    if n + 1 < |q| {
      StepsOf(q, n + 1);
    }
  }

  // ----- any run of operations -----

  ghost function Operands(ops: seq<Op<ListHead>>): set<ListHead> {
    set i | 0 <= i < |ops| :: ops[i].x
  }

  method Perform(op: Op<ListHead>, ghost rs: seq<Ring>)
    requires AreRings(rs) && Legal(rs, op)
    modifies op.x, Nodes(rs)
    ensures AreRings(Apply(rs, op))
  {
    match op
    case Init(x) => InitListHead(x, rs);
    case Add(x, head) => ListAdd(x, head, rs);
    case AddTail(x, head) => ListAddTail(x, head, rs);
    case Del(x) => ListDel(x, rs);
    case DelInit(x) => ListDelInit(x, rs);
    case MoveTail(x, head) => ListMoveTail(x, head, rs);
  }

  lemma ApplyNodes(rs: seq<Ring>, op: Op<ListHead>)
    requires AreRings(rs) && Legal(rs, op)
    ensures Nodes(Apply(rs, op)) <= Nodes(rs) + {op.x}
  {
    ApplyConserves(rs, op);
    MembersAreNodes(rs);
    MembersAreNodes(Apply(rs, op));
    forall y | y in Nodes(Apply(rs, op)) ensures y in Nodes(rs) + {op.x} {
      assert y in Members(Apply(rs, op)) + Dropped([op]);
    }
  }

  lemma MembersAreNodes(rs: seq<Ring>)
    ensures forall y :: y in Members(rs) <==> y in Nodes(rs)
  {
    if rs != [] {
      var n := |rs| - 1;
      MembersAreNodes(rs[..n]);
      forall y ensures y in Members(rs) <==> y in Nodes(rs) {
        if y in Nodes(rs) {
          var k, i :| 0 <= k < |rs| && 0 <= i < |rs[k]| && rs[k][i] == y;
          if k < n { assert rs[..n][k][i] == y; }
        }
        if y in Nodes(rs[..n]) {
          var k, i :| 0 <= k < n && 0 <= i < |rs[..n][k]| && rs[..n][k][i] == y;
          assert rs[k][i] == y;
        }
        if y in rs[n] {
          var i :| 0 <= i < |rs[n]| && rs[n][i] == y;
        }
      }
    }
  }

  /** Every interleaving of the operations, over any number of rings, does to
      the heap what the same operations do to sequences. */
  method Run(ops: seq<Op<ListHead>>, ghost rs: seq<Ring>)
    requires AreRings(rs) && LegalRun(rs, ops)
    modifies Operands(ops), Nodes(rs)
    ensures AreRings(ApplyRun(rs, ops))
  {
    hide AreRings, Legal, Apply;
    if ops != [] {
      ApplyNodes(rs, ops[0]);
      assert ops[0].x in Operands(ops);
      assert forall x :: x in Operands(ops[1..]) ==> x in Operands(ops);
      Perform(ops[0], rs);
      Run(ops[1..], Apply(rs, ops[0]));
    }
  }

  // ----- a traversal that survives deletion -----

  /** Where the loop of ListForEachEntrySafe is once it has handled es[..n]. */
  ghost predicate Progress(rs: seq<Ring>, cur: seq<Ring>, head: ListHead, es: Ring, n: nat,
                           plan: map<ListHead, Op<ListHead>>)
    requires n <= |es|
    reads Nodes(cur)
  {
    && AreRings(cur) && cur == Dispose(rs, es[..n], plan)
    && Linked(cur, head) && Entries(cur, head) == Kept(es[..n], plan.Keys) + es[n..]
    && Planned(cur, head, plan) && Nodes(cur) <= Nodes(rs)
  }

  lemma ProgressPointers(rs: seq<Ring>, cur: seq<Ring>, head: ListHead, es: Ring, n: nat,
                         plan: map<ListHead, Op<ListHead>>)
    requires n <= |es| && Progress(rs, cur, head, es, n, plan)
    ensures n < |es| ==> es[n] != head && es[n].next == if n + 1 < |es| then es[n + 1] else head
    ensures head.next != null && AreRings(cur)
    ensures n < |es| ==> es[n] in Nodes(cur)
    ensures n < |es| && es[n] in plan ==> plan[es[n]].x == es[n] && Legal(cur, plan[es[n]])
    ensures n == 0 ==> head.next == if |es| > 0 then es[0] else head
  {
    var m := |Kept(es[..n], plan.Keys)|;
    hide Linked, Entries, Dispose, Legal, Kept;
    NextOf(cur, head, m);
    NodesLinked(cur);
    if n < |es| {
      EntryRing(cur, head, m);
      if es[n] in plan {
        DisposeEntry(cur, head, m, plan);
      }
    }
  }

  lemma ProgressStart(rs: seq<Ring>, head: ListHead, es: Ring, plan: map<ListHead, Op<ListHead>>)
    requires AreRings(rs) && Linked(rs, head) && es == Entries(rs, head) && Planned(rs, head, plan)
    ensures Progress(rs, rs, head, es, 0, plan)
  {
    assert es[..0] == [] && es[0..] == es;
  }

  /** What the body does to entry n, or nothing. */
  ghost function Handled(cur: seq<Ring>, x: ListHead, plan: map<ListHead, Op<ListHead>>): seq<Ring> {
    if x in plan && Legal(cur, plan[x]) then Apply(cur, plan[x]) else cur
  }

  lemma HandledEntry(cur: seq<Ring>, head: ListHead, es: Ring, n: nat, kept: Ring, plan: map<ListHead, Op<ListHead>>)
    requires n < |es| && Disjoint(cur) && Linked(cur, head) && Planned(cur, head, plan)
    requires Entries(cur, head) == kept + es[n..]
    ensures var next := Handled(cur, es[n], plan);
      && Linked(next, head) && Planned(next, head, plan) && Nodes(next) <= Nodes(cur)
      && Entries(next, head) == kept + (if es[n] in plan then [] else [es[n]]) + es[n + 1..]
  {
    hide Entries, Apply, Legal, Linked, Nodes, Disjoint, Planned;
    assert (kept + es[n..])[|kept|] == es[n];
    if es[n] in plan {
      DisposeEntry(cur, head, |kept|, plan);
      assert Remove(kept + es[n..], |kept|) == kept + [] + es[n + 1..];
      NodesLinked(cur);
      NodesLinked(Handled(cur, es[n], plan));
      forall y | y in Nodes(Handled(cur, es[n], plan)) ensures y in Nodes(cur) {
        assert Linked(Handled(cur, es[n], plan), y);
      }
    } else {
      assert kept + es[n..] == kept + [es[n]] + es[n + 1..];
    }
  }

  lemma ProgressStep(rs: seq<Ring>, cur: seq<Ring>, head: ListHead, es: Ring, n: nat, plan: map<ListHead, Op<ListHead>>)
    requires n < |es| && cur == Dispose(rs, es[..n], plan) && Disjoint(cur)
    requires Linked(cur, head) && Entries(cur, head) == Kept(es[..n], plan.Keys) + es[n..]
    requires Planned(cur, head, plan) && Nodes(cur) <= Nodes(rs)
    requires AreRings(Handled(cur, es[n], plan))
    ensures Progress(rs, Handled(cur, es[n], plan), head, es, n + 1, plan)
  {
    hide AreRings, Entries, Apply, Legal, Linked, Disjoint, Nodes, Planned, Handled, Dispose, Kept;
    NextHandled(rs, es, n, plan);
    HandledEntry(cur, head, es, n, Kept(es[..n], plan.Keys), plan);
  }

  lemma NextHandled(rs: seq<Ring>, es: Ring, n: nat, plan: map<ListHead, Op<ListHead>>)
    requires n < |es|
    ensures Dispose(rs, es[..n + 1], plan) == Handled(Dispose(rs, es[..n], plan), es[n], plan)
    ensures Kept(es[..n + 1], plan.Keys) == Kept(es[..n], plan.Keys) + if es[n] in plan then [] else [es[n]]
  {
    hide Apply, Legal;
    assert es[..n + 1][..n] == es[..n];
  }

  /** What ProgressStep asks for, which a change of the heap does not touch. */
  lemma ProgressFacts(rs: seq<Ring>, cur: seq<Ring>, head: ListHead, es: Ring, n: nat,
                      plan: map<ListHead, Op<ListHead>>)
    requires n <= |es| && Progress(rs, cur, head, es, n, plan)
    ensures cur == Dispose(rs, es[..n], plan) && Disjoint(cur)
    ensures Linked(cur, head) && Entries(cur, head) == Kept(es[..n], plan.Keys) + es[n..]
    ensures Planned(cur, head, plan) && Nodes(cur) <= Nodes(rs)
  {
  }

  /** The body of the loop, given entry n: dispose of it as planned, or leave it. */
  method HandleEntry(pos: ListHead, head: ListHead, plan: map<ListHead, Op<ListHead>>,
                     ghost rs: seq<Ring>, ghost cur: seq<Ring>, ghost es: Ring, ghost n: nat)
    requires n < |es| && pos == es[n] && Progress(rs, cur, head, es, n, plan)
    modifies Nodes(cur)
    ensures Progress(rs, Handled(cur, pos, plan), head, es, n + 1, plan)
  {
    hide AreRings, Progress, Linked, Entries, Dispose, Kept, Legal, Apply, Planned, Disjoint, Nodes;
    ProgressPointers(rs, cur, head, es, n, plan);
    ProgressFacts(rs, cur, head, es, n, plan);
    if pos in plan {
      Perform(plan[pos], cur);
    }
    ProgressStep(rs, cur, head, es, n, plan);
  }

  /** list_for_each_entry_safe, with a body that deletes the entry it is given, makes it
      a ring of its own or moves it to another list, wherever there is a plan for it. */
  method ListForEachEntrySafe(head: ListHead, plan: map<ListHead, Op<ListHead>>, ghost rs: seq<Ring>)
    returns (visited: Ring)
    requires AreRings(rs) && Linked(rs, head) && Planned(rs, head, plan)
    modifies Nodes(rs)
    ensures visited == Entries(rs, head)
    ensures var after := Dispose(rs, visited, plan);
      AreRings(after) && Linked(after, head) && Entries(after, head) == Kept(visited, plan.Keys)
  {
    hide AreRings, Disjoint, Linked, Entries, Dispose, Planned, Kept, Nodes, Legal, Handled, Progress;
    ghost var es := Entries(rs, head);
    ghost var cur: seq<Ring> := rs;
    ghost var n := 0;
    visited := [];
    ProgressStart(rs, head, es, plan);
    ProgressPointers(rs, cur, head, es, 0, plan);
    var pos := head.next;
    var tmp := pos.next;
    while pos != head
      invariant 0 <= n <= |es| && visited == es[..n] && Progress(rs, cur, head, es, n, plan)
      invariant pos == if n < |es| then es[n] else head
      invariant n < |es| ==> tmp == if n + 1 < |es| then es[n + 1] else head
      decreases |es| - n
    {
      visited := visited + [pos];
      ProgressFacts(rs, cur, head, es, n, plan);
      HandleEntry(pos, head, plan, rs, cur, es, n);
      cur := Handled(cur, pos, plan);
      n := n + 1;
      ProgressPointers(rs, cur, head, es, n, plan);
      pos := tmp;
      tmp := pos.next;
    }
    ProgressPointers(rs, cur, head, es, n, plan);
    ProgressFacts(rs, cur, head, es, n, plan);
    assert es[..n] == es && Kept(es, plan.Keys) + es[n..] == Kept(es, plan.Keys);
  }
}
