/** Collections of disjoint rings as plain sequences: what the operations of
    ethercat/nuttx/linux/list.h mean, without pointers. A ring may be empty. */
module RingSpec {
  import opened Multisets

  predicate Distinct<T(==)>(r: seq<T>) {
    forall i, j :: 0 <= i < j < |r| ==> r[i] != r[j]
  }

  predicate Disjoint<T(==)>(rs: seq<seq<T>>) {
    && (forall k :: 0 <= k < |rs| ==> Distinct(rs[k]))
    && (forall k, l, i, j :: 0 <= k < l < |rs| && 0 <= i < |rs[k]| && 0 <= j < |rs[l]| ==> rs[k][i] != rs[l][j])
  }

  predicate At<T(==)>(rs: seq<seq<T>>, x: T, k: int, i: int) {
    0 <= k < |rs| && 0 <= i < |rs[k]| && rs[k][i] == x
  }

  ghost predicate Linked<T>(rs: seq<seq<T>>, x: T) {
    exists k, i :: At(rs, x, k, i)
  }

  /** The ring and the position of x. */
  ghost function Where<T>(rs: seq<seq<T>>, x: T): (p: (nat, nat))
    requires Linked(rs, x)
    ensures At(rs, x, p.0, p.1)
  {
    var k, i :| At(rs, x, k, i);
    (k, i)
  }

  lemma WhereIs<T>(rs: seq<seq<T>>, x: T, k: nat, i: nat)
    requires Disjoint(rs) && At(rs, x, k, i)
    ensures Linked(rs, x) && Where(rs, x) == (k, i)
  {
    var (l, j) := Where(rs, x);
    assert l == k && j == i;
  }

  // ----- one ring -----

  function Insert<T>(r: seq<T>, i: nat, x: T): (s: seq<T>)
    requires i <= |r|
  {
    r[..i] + [x] + r[i..]
  }

  function Remove<T>(r: seq<T>, i: nat): (s: seq<T>)
    requires i < |r|
  {
    r[..i] + r[i + 1..]
  }

  /** The same ring, read from position i. */
  function Rotate<T>(r: seq<T>, i: nat): (s: seq<T>)
    requires i <= |r|
  {
    r[i..] + r[..i]
  }

  /** The place in front of position i, kept away from the start so that r[0] stays first. */
  function Before(i: nat, n: nat): nat {
    if i == 0 then n else i
  }

  // ----- the operations -----

  ghost function AddAfter<T>(rs: seq<seq<T>>, x: T, h: T): seq<seq<T>>
    requires Linked(rs, h)
  {
    var (k, i) := Where(rs, h);
    rs[k := Insert(rs[k], i + 1, x)]
  }

  ghost function AddBefore<T>(rs: seq<seq<T>>, x: T, h: T): seq<seq<T>>
    requires Linked(rs, h)
  {
    var (k, i) := Where(rs, h);
    rs[k := Insert(rs[k], Before(i, |rs[k]|), x)]
  }

  ghost function Detach<T>(rs: seq<seq<T>>, x: T): seq<seq<T>>
    requires Linked(rs, x)
  {
    var (k, i) := Where(rs, x);
    rs[k := Remove(rs[k], i)]
  }

  // ----- conservation -----

  function Members<T>(rs: seq<seq<T>>): multiset<T> {
    if rs == [] then multiset{} else Members(rs[..|rs| - 1]) + multiset(rs[|rs| - 1])
  }

  lemma {:induction false} MembersUpdate<T>(rs: seq<seq<T>>, k: nat, r: seq<T>)
    requires k < |rs|
    ensures Members(rs[k := r]) + multiset(rs[k]) == Members(rs) + multiset(r)
  {
    var n := |rs| - 1;
    if k == n {
      assert rs[k := r][..n] == rs[..n];
    } else {
      MembersUpdate(rs[..n], k, r);
      assert rs[k := r][..n] == rs[..n][k := r];
      assert rs[k := r][n] == rs[n] && rs[..n][k] == rs[k];
      var front, front' := Members(rs[..n]), Members(rs[..n][k := r]);
      SwapLast(front', multiset(rs[n]), multiset(rs[k]), front, multiset(r));
    }
  }

  lemma MembersAppend<T>(rs: seq<seq<T>>, r: seq<T>)
    ensures Members(rs + [r]) == Members(rs) + multiset(r)
  {
    assert (rs + [r])[..|rs|] == rs;
  }

  lemma InsertMembers<T>(r: seq<T>, i: nat, x: T)
    requires i <= |r|
    ensures multiset(Insert(r, i, x)) == multiset(r) + multiset{x}
  {
    assert r == r[..i] + r[i..];
  }

  lemma RemoveMembers<T>(r: seq<T>, i: nat)
    requires i < |r|
    ensures multiset(Remove(r, i)) + multiset{r[i]} == multiset(r)
  {
    assert r == r[..i] + [r[i]] + r[i + 1..];
  }

  /** Nothing is lost or duplicated: adding adds one element, detaching removes one. */
  lemma AddConserves<T>(rs: seq<seq<T>>, x: T, h: T)
    requires Linked(rs, h)
    ensures Members(AddAfter(rs, x, h)) == Members(rs) + multiset{x}
    ensures Members(AddBefore(rs, x, h)) == Members(rs) + multiset{x}
  {
    var (k, i) := Where(rs, h);
    var b := Before(i, |rs[k]|);
    MembersUpdate(rs, k, Insert(rs[k], i + 1, x));
    MembersUpdate(rs, k, Insert(rs[k], b, x));
    InsertMembers(rs[k], i + 1, x);
    InsertMembers(rs[k], b, x);
    Cancel(Members(AddAfter(rs, x, h)), Members(rs), multiset(rs[k]), multiset{x});
    Cancel(Members(AddBefore(rs, x, h)), Members(rs), multiset(rs[k]), multiset{x});
  }

  lemma DetachConserves<T>(rs: seq<seq<T>>, x: T)
    requires Linked(rs, x)
    ensures Members(Detach(rs, x)) + multiset{x} == Members(rs)
  {
    var (k, i) := Where(rs, x);
    MembersUpdate(rs, k, Remove(rs[k], i));
    RemoveMembers(rs[k], i);
    var rest := multiset(Remove(rs[k], i));
    assert Members(rs) + rest == Members(Detach(rs, x)) + (rest + multiset{x});
    Cancel(Members(rs), Members(Detach(rs, x)), rest, multiset{x});
  }

  // ----- disjointness is kept -----

  lemma RotateInsert<T>(r: seq<T>, i: nat, x: T)
    requires i <= |r|
    ensures Rotate(Rotate(r, i) + [x], |r| - i) == Insert(r, i, x)
  {
  }

  lemma RotateRemove<T>(r: seq<T>, i: nat)
    requires i < |r|
    ensures Rotate(Rotate(r, i + 1)[..|r| - 1], |r| - i - 1) == Remove(r, i)
  {
  }

  lemma InsertElements<T>(r: seq<T>, i: nat, x: T)
    requires i <= |r|
    ensures forall y :: y in Insert(r, i, x) <==> y == x || y in r
    ensures Distinct(r) && x !in r ==> Distinct(Insert(r, i, x))
  {
    assert r == r[..i] + r[i..];
  }

  lemma RemoveElements<T>(r: seq<T>, i: nat)
    requires i < |r| && Distinct(r)
    ensures forall y :: y in Remove(r, i) <==> y in r && y != r[i]
    ensures Distinct(Remove(r, i))
  {
    assert r == r[..i] + [r[i]] + r[i + 1..];
  }

  lemma ReplaceKeepsDisjoint<T>(rs: seq<seq<T>>, k: nat, r: seq<T>)
    requires Disjoint(rs) && k < |rs| && Distinct(r)
    requires forall x :: x in r ==> x in rs[k] || !Linked(rs, x)
    ensures Disjoint(rs[k := r])
  {
    var q := rs[k := r];
    forall a, b, i, j | 0 <= a < b < |q| && 0 <= i < |q[a]| && 0 <= j < |q[b]| ensures q[a][i] != q[b][j] {
      if a == k {
        assert At(rs, q[b][j], b, j);
        if q[a][i] in rs[k] { var m :| 0 <= m < |rs[k]| && rs[k][m] == q[a][i]; }
      } else if b == k {
        assert At(rs, q[a][i], a, i);
        if q[b][j] in rs[k] { var m :| 0 <= m < |rs[k]| && rs[k][m] == q[b][j]; }
      }
    }
  }

  lemma RingIsLinked<T>(rs: seq<seq<T>>, k: nat)
    requires k < |rs|
    ensures forall y :: y in rs[k] ==> Linked(rs, y)
  {
    forall y | y in rs[k] ensures Linked(rs, y) {
      var i :| 0 <= i < |rs[k]| && rs[k][i] == y;
      assert At(rs, y, k, i);
    }
  }

  lemma RingsDisjoint<T>(rs: seq<seq<T>>, k: nat, l: nat)
    requires Disjoint(rs) && k < |rs| && l < |rs| && k != l
    ensures forall y :: y in rs[k] ==> y !in rs[l]
  {
  }

  /** After a detachment everything else is still linked, and only x is gone. */
  lemma DetachLinked<T>(rs: seq<seq<T>>, x: T)
    requires Disjoint(rs) && Linked(rs, x)
    ensures Disjoint(Detach(rs, x)) && !Linked(Detach(rs, x), x)
    ensures forall y :: Linked(rs, y) && y != x ==> Linked(Detach(rs, x), y)
    ensures forall y :: Linked(Detach(rs, x), y) ==> Linked(rs, y)
  {
    var (k, i) := Where(rs, x);
    var q := Detach(rs, x);
    RemoveElements(rs[k], i);
    RingIsLinked(rs, k);
    ReplaceKeepsDisjoint(rs, k, q[k]);
    forall y | Linked(rs, y) && y != x ensures Linked(q, y) {
      var (l, j) := Where(rs, y);
      if l == k {
        assert y in q[k];
        RingIsLinked(q, k);
      } else {
        assert At(q, y, l, j);
      }
    }
    forall y | Linked(q, y) ensures Linked(rs, y) && y != x {
      var (l, j) := Where(q, y);
      if l == k {
        assert y in q[k];
      } else {
        assert At(rs, y, l, j);
        assert y != x by {
          WhereIs(rs, y, l, j);
        }
      }
    }
  }

  lemma AppendKeepsDisjoint<T>(rs: seq<seq<T>>, x: T)
    requires Disjoint(rs) && !Linked(rs, x)
    ensures Disjoint(rs + [[x]])
  {
    var q := rs + [[x]];
    forall a, b, i, j | 0 <= a < b < |q| && 0 <= i < |q[a]| && 0 <= j < |q[b]| ensures q[a][i] != q[b][j] {
      if b == |rs| {
        assert At(rs, q[a][i], a, i);
      }
    }
  }

  // ----- the list a head stands for -----

  /** The entries of the list headed by h, in order. */
  ghost function Entries<T>(rs: seq<seq<T>>, h: T): seq<T>
    requires Linked(rs, h)
  {
    var (k, i) := Where(rs, h);
    Rotate(rs[k], i)[1..]
  }

  /** Removing one element of a ring removes it from every reading of the ring. */
  lemma RotateOfRemove<T>(r: seq<T>, i: nat, j: nat)
    requires i < |r| && j < |r| && i != j
    ensures var q, p := Rotate(r, i), if j > i then j - i else |r| - i + j;
      && 0 < p < |r| && q[p] == r[j]
      && Rotate(Remove(r, j), if j < i then i - 1 else i) == Remove(q, p)
      && Remove(r, j)[if j < i then i - 1 else i] == r[i]
  {
  }

  /** Detaching the n-th entry of a list leaves the other entries in order. */
  lemma DetachEntry<T>(rs: seq<seq<T>>, h: T, n: nat)
    requires Disjoint(rs) && Linked(rs, h) && n < |Entries(rs, h)|
    ensures var es := Entries(rs, h);
      && Linked(rs, es[n]) && es[n] != h
      && Linked(Detach(rs, es[n]), h)
      && Entries(Detach(rs, es[n]), h) == Remove(es, n)
  {
    var (k, i) := Where(rs, h);
    var r := rs[k];
    var q := Rotate(r, i);
    var es := Entries(rs, h);
    var x := es[n];
    var j := if i + n + 1 < |r| then i + n + 1 else i + n + 1 - |r|;
    assert x == q[n + 1] == r[j];
    assert At(rs, x, k, j);
    WhereIs(rs, x, k, j);
    assert i != j && x != h;
    RotateOfRemove(r, i, j);
    DetachLinked(rs, x);
    var i' := if j < i then i - 1 else i;
    assert At(Detach(rs, x), h, k, i');
    WhereIs(Detach(rs, x), h, k, i');
    assert Remove(q, n + 1)[1..] == Remove(es, n);
  }

  /** Inserting right after or right before r[i], and reading on from r[i]. */
  lemma RotateOfInsert<T>(r: seq<T>, i: nat, x: T)
    requires i < |r|
    ensures var q := Insert(r, i + 1, x);
      |q| == |r| + 1 && q[i] == r[i] && Rotate(q, i)[1..] == [x] + Rotate(r, i)[1..]
    ensures var q, j := Insert(r, Before(i, |r|), x), if i == 0 then 0 else i + 1;
      |q| == |r| + 1 && q[j] == r[i] && Rotate(q, j)[1..] == Rotate(r, i)[1..] + [x]
  {
  }

  /** Inserting a new element keeps the rings disjoint. */
  lemma InsertKeepsDisjoint<T>(rs: seq<seq<T>>, k: nat, i: nat, x: T)
    requires Disjoint(rs) && k < |rs| && i <= |rs[k]| && !Linked(rs, x)
    ensures Disjoint(rs[k := Insert(rs[k], i, x)])
  {
    RingIsLinked(rs, k);
    InsertElements(rs[k], i, x);
    hide Insert;
    ReplaceKeepsDisjoint(rs, k, Insert(rs[k], i, x));
  }

  /** list_add prepends to the list of its head. */
  lemma AddAfterPrepends<T>(rs: seq<seq<T>>, x: T, h: T)
    requires Disjoint(rs) && Linked(rs, h) && !Linked(rs, x)
    ensures Linked(AddAfter(rs, x, h), h) && Entries(AddAfter(rs, x, h), h) == [x] + Entries(rs, h)
  {
    var (k, i) := Where(rs, h);
    var q := AddAfter(rs, x, h);
    InsertKeepsDisjoint(rs, k, i + 1, x);
    RotateOfInsert(rs[k], i, x);
    hide Insert, Rotate, Disjoint;
    assert At(q, h, k, i);
    WhereIs(q, h, k, i);
  }

  /** list_add_tail appends to it. */
  lemma AddBeforeAppends<T>(rs: seq<seq<T>>, x: T, h: T)
    requires Disjoint(rs) && Linked(rs, h) && !Linked(rs, x)
    ensures Linked(AddBefore(rs, x, h), h) && Entries(AddBefore(rs, x, h), h) == Entries(rs, h) + [x]
  {
    var (k, i) := Where(rs, h);
    var q := AddBefore(rs, x, h);
    InsertKeepsDisjoint(rs, k, Before(i, |rs[k]|), x);
    RotateOfInsert(rs[k], i, x);
    hide Insert, Rotate, Disjoint;
    var j := if i == 0 then 0 else i + 1;
    assert At(q, h, k, j);
    WhereIs(q, h, k, j);
  }

  /** list_del or list_del_init on a head leaves the entries as a ring of their own, in order. */
  lemma DetachedHeadLeavesEntries<T>(rs: seq<seq<T>>, h: T)
    requires Disjoint(rs) && Linked(rs, h)
    ensures var (k, i) := Where(rs, h); Rotate(Detach(rs, h)[k], i) == Entries(rs, h)
  {
  }

  /** Replacing ring k leaves the lists of every other ring as they were. */
  lemma OtherListsKept<T>(rs: seq<seq<T>>, k: nat, r: seq<T>, h: T)
    requires Disjoint(rs) && k < |rs| && Disjoint(rs[k := r]) && Linked(rs, h) && Where(rs, h).0 != k
    ensures Linked(rs[k := r], h) && Entries(rs[k := r], h) == Entries(rs, h)
  {
    var (l, j) := Where(rs, h);
    assert At(rs[k := r], h, l, j);
    WhereIs(rs[k := r], h, l, j);
  }

  /** The elements of s that are not doomed. */
  function Kept<T>(s: seq<T>, doomed: set<T>): (r: seq<T>) {
    if s == [] then []
    else Kept(s[..|s| - 1], doomed) + if s[|s| - 1] in doomed then [] else [s[|s| - 1]]
  }

  // ----- runs of operations -----

  datatype Op<T> =
    | Init(x: T)
    | Add(x: T, head: T)
    | AddTail(x: T, head: T)
    | Del(x: T)
    | DelInit(x: T)
    | MoveTail(x: T, head: T)

  /** What each operation asks of its caller: new entries are on no list,
      heads and old entries are on one, and no list moves behind itself. */
  ghost predicate Legal<T>(rs: seq<seq<T>>, op: Op<T>) {
    match op
    case Init(x) => !Linked(rs, x)
    case Add(x, h) => !Linked(rs, x) && Linked(rs, h)
    case AddTail(x, h) => !Linked(rs, x) && Linked(rs, h)
    case Del(x) => Linked(rs, x)
    case DelInit(x) => Linked(rs, x)
    case MoveTail(x, h) => Linked(rs, x) && Linked(rs, h) && x != h && Linked(Detach(rs, x), h)
  }

  ghost function Apply<T>(rs: seq<seq<T>>, op: Op<T>): seq<seq<T>>
    requires Legal(rs, op)
  {
    match op
    case Init(x) => rs + [[x]]
    case Add(x, h) => AddAfter(rs, x, h)
    case AddTail(x, h) => AddBefore(rs, x, h)
    case Del(x) => Detach(rs, x)
    case DelInit(x) => Detach(rs, x) + [[x]]
    case MoveTail(x, h) => AddBefore(Detach(rs, x), x, h)
  }

  ghost predicate LegalRun<T>(rs: seq<seq<T>>, ops: seq<Op<T>>)
    decreases ops
  {
    ops == [] || (Legal(rs, ops[0]) && LegalRun(Apply(rs, ops[0]), ops[1..]))
  }

  ghost function ApplyRun<T>(rs: seq<seq<T>>, ops: seq<Op<T>>): seq<seq<T>>
    requires LegalRun(rs, ops)
    decreases ops
  {
    if ops == [] then rs else ApplyRun(Apply(rs, ops[0]), ops[1..])
  }

  function Gained<T>(ops: seq<Op<T>>): multiset<T> {
    if ops == [] then multiset{}
    else (if ops[0].Init? || ops[0].Add? || ops[0].AddTail? then multiset{ops[0].x} else multiset{}) + Gained(ops[1..])
  }

  function Dropped<T>(ops: seq<Op<T>>): multiset<T> {
    if ops == [] then multiset{}
    else (if ops[0].Del? then multiset{ops[0].x} else multiset{}) + Dropped(ops[1..])
  }

  lemma ApplyConserves<T>(rs: seq<seq<T>>, op: Op<T>)
    requires Legal(rs, op)
    ensures Members(Apply(rs, op)) + Dropped([op]) == Members(rs) + Gained([op])
  {
    match op
    case Init(x) => MembersAppend(rs, [x]);
    case Add(x, h) => AddConserves(rs, x, h);
    case AddTail(x, h) => AddConserves(rs, x, h);
    case Del(x) => DetachConserves(rs, x);
    case DelInit(x) =>
      DetachConserves(rs, x);
      MembersAppend(Detach(rs, x), [x]);
    case MoveTail(x, h) =>
      DetachConserves(rs, x);
      AddConserves(Detach(rs, x), x, h);
  }

  /** Over any run, an element is on a list exactly as often as it was put
      there and not taken off: moves and list_del_init neither lose nor copy. */
  lemma {:induction false} RunConserves<T>(rs: seq<seq<T>>, ops: seq<Op<T>>)
    requires LegalRun(rs, ops)
    ensures Members(ApplyRun(rs, ops)) + Dropped(ops) == Members(rs) + Gained(ops)
    decreases ops
  {
    hide Members, Apply, Gained, Dropped;
    FirstCounted(ops);
    if ops != [] {
      var next := Apply(rs, ops[0]);
      ApplyConserves(rs, ops[0]);
      RunConserves(next, ops[1..]);
      Chain(Members(ApplyRun(rs, ops)), Dropped(ops[1..]), Members(next), Gained(ops[1..]),
            Dropped([ops[0]]), Members(rs), Gained([ops[0]]));
    }
  }

  lemma FirstCounted<T>(ops: seq<Op<T>>)
    ensures ops == [] ==> Gained(ops) == multiset{} && Dropped(ops) == multiset{}
    ensures ops != [] ==> Gained(ops) == Gained([ops[0]]) + Gained(ops[1..])
    ensures ops != [] ==> Dropped(ops) == Dropped([ops[0]]) + Dropped(ops[1..])
  {
    if ops != [] {
      assert [ops[0]][1..] == [];
    }
  }

  lemma Chain<T>(last: multiset<T>, d: multiset<T>, mid: multiset<T>, g: multiset<T>,
                 d0: multiset<T>, first: multiset<T>, g0: multiset<T>)
    requires last + d == mid + g && mid + d0 == first + g0
    ensures last + (d0 + d) == first + (g0 + g)
  {
    assert last + (d0 + d) == (last + d) + d0;
    assert mid + g + d0 == (mid + d0) + g;
  }

  // ----- disposing of entries while walking over a list -----

  /** What a loop body may do with an entry it is given: delete it, with or without
      making it a ring of its own, or move it to a list other than the one headed by h. */
  ghost predicate Planned<T>(rs: seq<seq<T>>, h: T, plan: map<T, Op<T>>)
    requires Linked(rs, h)
  {
    forall x :: x in plan ==>
      && plan[x].x == x && !plan[x].Init? && !plan[x].Add? && !plan[x].AddTail?
      && (plan[x].MoveTail? ==> Linked(rs, plan[x].head) && Where(rs, plan[x].head).0 != Where(rs, h).0)
  }

  /** Doing so for the elements of xs that have a plan, one after the other. */
  ghost function Dispose<T>(rs: seq<seq<T>>, xs: seq<T>, plan: map<T, Op<T>>): seq<seq<T>>
  {
    if xs == [] then rs
    else
      var before := Dispose(rs, xs[..|xs| - 1], plan);
      var x := xs[|xs| - 1];
      if x in plan && Legal(before, plan[x]) then Apply(before, plan[x]) else before
  }

  /** Replacing ring k moves nobody who was not on it, or is on its replacement, to another ring. */
  lemma KeepsRing<T>(rs: seq<seq<T>>, k: nat, r: seq<T>, y: T)
    requires Disjoint(rs) && k < |rs| && Disjoint(rs[k := r]) && Linked(rs, y)
    requires Where(rs, y).0 == k ==> y in r
    ensures Linked(rs[k := r], y) && Where(rs[k := r], y).0 == Where(rs, y).0
  {
    var (l, j) := Where(rs, y);
    var q := rs[k := r];
    var i :| 0 <= i < |q[l]| && q[l][i] == y;
    assert At(q, y, l, i);
    WhereIs(q, y, l, i);
  }

  /** The ring, and the list, of h once the n-th entry is detached; and the rings of the heads planned for. */
  lemma DetachPlanned<T>(rs: seq<seq<T>>, h: T, n: nat, plan: map<T, Op<T>>)
    requires Disjoint(rs) && Linked(rs, h) && Planned(rs, h, plan) && n < |Entries(rs, h)|
    ensures var x := Entries(rs, h)[n];
      && Linked(rs, x) && Disjoint(Detach(rs, x)) && !Linked(Detach(rs, x), x) && Linked(Detach(rs, x), h)
      && Entries(Detach(rs, x), h) == Remove(Entries(rs, h), n) && Planned(Detach(rs, x), h, plan)
      && forall y :: Linked(Detach(rs, x), y) ==> Linked(rs, y)
  {
    var x := Entries(rs, h)[n];
    DetachEntry(rs, h, n);
    DetachLinked(rs, x);
    var (k, i) := Where(rs, x);
    EntryRing(rs, h, n);
    RemoveElements(rs[k], i);
    RingIsLinked(rs, k);
    InItsRing(rs, h);
    KeepsRing(rs, k, Remove(rs[k], i), h);
    forall o | Linked(rs, o) && Where(rs, o).0 != k
      ensures Linked(Detach(rs, x), o) && Where(Detach(rs, x), o).0 == Where(rs, o).0
    {
      KeepsRing(rs, k, Remove(rs[k], i), o);
    }
  }

  lemma InItsRing<T>(rs: seq<seq<T>>, y: T)
    requires Linked(rs, y)
    ensures y in rs[Where(rs, y).0]
  {
  }

  lemma EntryRing<T>(rs: seq<seq<T>>, h: T, n: nat)
    requires Disjoint(rs) && Linked(rs, h) && n < |Entries(rs, h)|
    ensures Linked(rs, Entries(rs, h)[n]) && Where(rs, Entries(rs, h)[n]).0 == Where(rs, h).0
  {
    var (k, i) := Where(rs, h);
    var r := rs[k];
    var j := if i + n + 1 < |r| then i + n + 1 else i + n + 1 - |r|;
    assert Entries(rs, h)[n] == Rotate(r, i)[n + 1] == r[j];
    assert At(rs, r[j], k, j);
    WhereIs(rs, r[j], k, j);
  }

  /** A new ring of its own changes nothing for those already on rings. */
  lemma AppendPlanned<T>(rs: seq<seq<T>>, h: T, x: T, plan: map<T, Op<T>>)
    requires Disjoint(rs) && Linked(rs, h) && Planned(rs, h, plan) && !Linked(rs, x)
    ensures var q := rs + [[x]];
      && Disjoint(q) && Linked(q, h) && Entries(q, h) == Entries(rs, h) && Planned(q, h, plan)
      && forall y :: Linked(q, y) ==> Linked(rs, y) || y == x
  {
    var q := rs + [[x]];
    AppendKeepsDisjoint(rs, x);
    forall y | Linked(rs, y) ensures Linked(q, y) && Where(q, y) == Where(rs, y) {
      var (k, i) := Where(rs, y);
      assert At(q, y, k, i);
      WhereIs(q, y, k, i);
    }
    forall y | Linked(q, y) ensures Linked(rs, y) || y == x {
      var (k, i) := Where(q, y);
      if k < |rs| { assert At(rs, y, k, i); }
    }
  }

  /** Nor does an addition to another ring. */
  lemma AddPlanned<T>(rs: seq<seq<T>>, h: T, x: T, o: T, plan: map<T, Op<T>>)
    requires Disjoint(rs) && Linked(rs, h) && Planned(rs, h, plan) && !Linked(rs, x)
    requires Linked(rs, o) && Where(rs, o).0 != Where(rs, h).0
    ensures var q := AddBefore(rs, x, o);
      && Disjoint(q) && Linked(q, h) && Entries(q, h) == Entries(rs, h) && Planned(q, h, plan)
      && forall y :: Linked(q, y) ==> Linked(rs, y) || y == x
  {
    var (k, i) := Where(rs, o);
    var q, b := AddBefore(rs, x, o), Before(i, |rs[k]|);
    InsertKeepsDisjoint(rs, k, b, x);
    InsertElements(rs[k], b, x);
    OtherListsKept(rs, k, Insert(rs[k], b, x), h);
    forall y | Linked(rs, y) ensures Linked(q, y) && Where(q, y).0 == Where(rs, y).0 {
      InItsRing(rs, y);
      KeepsRing(rs, k, Insert(rs[k], b, x), y);
    }
    forall y | Linked(q, y) ensures Linked(rs, y) || y == x {
      var (l, j) := Where(q, y);
      if l != k { assert At(rs, y, l, j); } else { RingIsLinked(rs, k); }
    }
  }

  /** Disposing of the n-th entry of a list leaves the other entries in order. */
  lemma DisposeEntry<T>(rs: seq<seq<T>>, h: T, n: nat, plan: map<T, Op<T>>)
    requires Disjoint(rs) && Linked(rs, h) && Planned(rs, h, plan)
    requires n < |Entries(rs, h)| && Entries(rs, h)[n] in plan
    ensures var op := plan[Entries(rs, h)[n]];
      && Legal(rs, op) && Disjoint(Apply(rs, op)) && Linked(Apply(rs, op), h)
      && Entries(Apply(rs, op), h) == Remove(Entries(rs, h), n) && Planned(Apply(rs, op), h, plan)
      && forall y :: Linked(Apply(rs, op), y) ==> Linked(rs, y)
  {
    var x := Entries(rs, h)[n];
    DetachPlanned(rs, h, n, plan);
    EntryRing(rs, h, n);
    hide Disjoint, Linked, Entries, Detach, Remove, AddBefore;
    match plan[x] {
      case DelInit(_) => AppendPlanned(Detach(rs, x), h, x, plan);
      case MoveTail(_, o) => AddPlanned(Detach(rs, x), h, x, o, plan);
      case _ =>
    }
  }
}
