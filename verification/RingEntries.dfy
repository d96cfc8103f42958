/** What each operation of ethercat/nuttx/linux/list.h (lines 129-226) does to the list of
    every head, as the comments of that file put it: entries in order, without rings. */
module RingEntries {
  import opened RingSpec

  lemma {:induction false} KeptAll<T>(s: seq<T>, x: T)
    requires x !in s
    ensures Kept(s, {x}) == s
  {
    if s != [] {
      KeptAll(s[..|s| - 1], x);
      assert s == s[..|s| - 1] + [s[|s| - 1]];
    }
  }

  lemma {:induction false} KeptRemoved<T>(s: seq<T>, n: nat)
    requires n < |s| && Distinct(s)
    ensures Kept(s, {s[n]}) == Remove(s, n)
  {
    var m := |s| - 1;
    if n == m {
      KeptAll(s[..m], s[m]);
    } else {
      KeptRemoved(s[..m], n);
      assert Remove(s[..m], n) + [s[m]] == Remove(s, n);
    }
  }

  lemma EntriesAreDistinct<T>(rs: seq<seq<T>>, h: T)
    requires Disjoint(rs) && Linked(rs, h)
    ensures Distinct(Entries(rs, h)) && h !in Entries(rs, h)
    ensures forall y :: y in Entries(rs, h) ==> Linked(rs, y)
    ensures forall y :: y in rs[Where(rs, h).0] ==> y == h || y in Entries(rs, h)
  {
    var (k, i) := Where(rs, h);
    RingIsLinked(rs, k);
    RotateElements(rs[k], i);
  }

  lemma RotateElements<T>(r: seq<T>, i: nat)
    requires i < |r| && Distinct(r)
    ensures Distinct(Rotate(r, i)[1..]) && r[i] !in Rotate(r, i)[1..]
    ensures forall y :: y in r <==> y == r[i] || y in Rotate(r, i)[1..]
  {
    var q := Rotate(r, i);
    forall y | y in r ensures y == r[i] || y in q[1..] {
      var j :| 0 <= j < |r| && r[j] == y;
      if j != i {
        var p := if j > i then j - i else |r| - i + j;
        assert q[1..][p - 1] == y;
      }
    }
  }

  /** Detaching an element removes it from every list it is on, and does nothing else. */
  lemma DetachKeepsOthers<T>(rs: seq<seq<T>>, x: T, h: T)
    requires Disjoint(rs) && Linked(rs, x) && Linked(rs, h) && x != h
    ensures Linked(Detach(rs, x), h) && Entries(Detach(rs, x), h) == Kept(Entries(rs, h), {x})
  {
    var es := Entries(rs, h);
    EntriesAreDistinct(rs, h);
    DetachLinked(rs, x);
    hide Entries, Detach, Kept, Disjoint, Linked;
    if x in es {
      var n :| 0 <= n < |es| && es[n] == x;
      DetachEntry(rs, h, n);
      KeptRemoved(es, n);
    } else {
      KeptAll(es, x);
      DetachElsewhere(rs, x, h);
    }
  }

  lemma DetachElsewhere<T>(rs: seq<seq<T>>, x: T, h: T)
    requires Disjoint(rs) && Linked(rs, x) && Linked(rs, h) && x != h && x !in Entries(rs, h)
    ensures Linked(Detach(rs, x), h) && Entries(Detach(rs, x), h) == Entries(rs, h)
  {
    var (k, i) := Where(rs, x);
    EntriesAreDistinct(rs, h);
    InItsRing(rs, x);
    DetachLinked(rs, x);
    OtherListsKept(rs, k, Remove(rs[k], i), h);
  }

  lemma AppendKeepsLists<T>(rs: seq<seq<T>>, x: T, h: T)
    requires Disjoint(rs) && !Linked(rs, x) && Linked(rs, h)
    ensures Linked(rs + [[x]], h) && Entries(rs + [[x]], h) == Entries(rs, h)
  {
    AppendPlanned(rs, h, x, map[]);
  }

  lemma AloneIsEmpty<T>(rs: seq<seq<T>>, x: T)
    requires Disjoint(rs) && !Linked(rs, x)
    ensures Linked(rs + [[x]], x) && Entries(rs + [[x]], x) == []
  {
    AppendKeepsDisjoint(rs, x);
    assert At(rs + [[x]], x, |rs|, 0);
    WhereIs(rs + [[x]], x, |rs|, 0);
  }

  /** The list an operation is given: list_add puts the entry in front, list_add_tail at
      the end, and list_move_tail takes it from where it was and puts it at the end. */
  lemma GivenList<T>(rs: seq<seq<T>>, op: Op<T>)
    requires Disjoint(rs) && Legal(rs, op) && (op.Add? || op.AddTail? || op.MoveTail?)
    ensures Linked(rs, op.head) && Linked(Apply(rs, op), op.head)
    ensures Entries(Apply(rs, op), op.head) ==
      if op.Add? then [op.x] + Entries(rs, op.head)
      else if op.AddTail? then Entries(rs, op.head) + [op.x]
      else Kept(Entries(rs, op.head), {op.x}) + [op.x]
  {
    hide Entries, Detach, Kept, Disjoint, Linked, AddAfter, AddBefore;
    match op
    case Add(x, h) => AddAfterPrepends(rs, x, h);
    case AddTail(x, h) => AddBeforeAppends(rs, x, h);
    case MoveTail(x, h) =>
      DetachLinked(rs, x);
      DetachKeepsOthers(rs, x, h);
      AddBeforeAppends(Detach(rs, x), x, h);
  }

  /** The element itself: INIT_LIST_HEAD and list_del_init make it the head of an empty
      list, list_del takes it off every list. */
  lemma OwnList<T>(rs: seq<seq<T>>, op: Op<T>)
    requires Disjoint(rs) && Legal(rs, op) && (op.Init? || op.Del? || op.DelInit?)
    ensures if op.Del? then !Linked(Apply(rs, op), op.x)
            else Linked(Apply(rs, op), op.x) && Entries(Apply(rs, op), op.x) == []
  {
    hide Entries, Detach, Disjoint, Linked;
    match op
    case Init(x) => AloneIsEmpty(rs, x);
    case Del(x) => DetachLinked(rs, x);
    case DelInit(x) =>
      DetachLinked(rs, x);
      AloneIsEmpty(Detach(rs, x), x);
  }

  /** Every other list on a ring of its own: it loses the element if it had it, and
      keeps the rest in order. */
  lemma OtherLists<T>(rs: seq<seq<T>>, op: Op<T>, h: T)
    requires Disjoint(rs) && Legal(rs, op) && Linked(rs, h) && h != op.x
    requires op.Add? || op.AddTail? || op.MoveTail? ==> Where(rs, h).0 != Where(rs, op.head).0
    ensures Linked(Apply(rs, op), h)
    ensures Entries(Apply(rs, op), h) == Kept(Entries(rs, h), {op.x})
  {
    EntriesAreDistinct(rs, h);
    if op.x !in Entries(rs, h) { KeptAll(Entries(rs, h), op.x); }
    hide Entries, Kept, Disjoint, Linked, Detach, AddAfter, AddBefore, Where;
    match op
    case Init(x) => AppendKeepsLists(rs, x, h);
    case Add(x, o) => AddKeepsLists(rs, x, o, h);
    case AddTail(x, o) => AddKeepsLists(rs, x, o, h);
    case Del(x) => DetachKeepsOthers(rs, x, h);
    case DelInit(x) =>
      DetachLinked(rs, x);
      DetachKeepsOthers(rs, x, h);
      AppendKeepsLists(Detach(rs, x), x, h);
    case MoveTail(x, o) =>
      DetachLinked(rs, x);
      DetachKeepsOthers(rs, x, h);
      StaysApart(rs, x, h, o);
      AddKeepsLists(Detach(rs, x), x, o, h);
  }

  lemma AddKeepsLists<T>(rs: seq<seq<T>>, x: T, o: T, h: T)
    requires Disjoint(rs) && !Linked(rs, x) && Linked(rs, o) && Linked(rs, h) && Where(rs, h).0 != Where(rs, o).0
    ensures Linked(AddAfter(rs, x, o), h) && Entries(AddAfter(rs, x, o), h) == Entries(rs, h)
    ensures Linked(AddBefore(rs, x, o), h) && Entries(AddBefore(rs, x, o), h) == Entries(rs, h)
  {
    var (k, i) := Where(rs, o);
    InsertKeepsDisjoint(rs, k, i + 1, x);
    InsertKeepsDisjoint(rs, k, Before(i, |rs[k]|), x);
    OtherListsKept(rs, k, Insert(rs[k], i + 1, x), h);
    OtherListsKept(rs, k, Insert(rs[k], Before(i, |rs[k]|), x), h);
  }

  /** Detaching moves nobody to another ring. */
  lemma StaysApart<T>(rs: seq<seq<T>>, x: T, h: T, o: T)
    requires Disjoint(rs) && Linked(rs, x) && Linked(rs, h) && Linked(rs, o) && h != x && o != x
    ensures Linked(Detach(rs, x), h) && Linked(Detach(rs, x), o)
    ensures Where(rs, h).0 != Where(rs, o).0 ==> Where(Detach(rs, x), h).0 != Where(Detach(rs, x), o).0
  {
    var (k, i) := Where(rs, x);
    DetachLinked(rs, x);
    RemoveElements(rs[k], i);
    InItsRing(rs, h);
    InItsRing(rs, o);
    KeepsRing(rs, k, Remove(rs[k], i), h);
    KeepsRing(rs, k, Remove(rs[k], i), o);
  }
}
