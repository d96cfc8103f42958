/** The memory of lcm/test/types/lcmtest_bools_t.c: heap blocks, and message
    structures whose pointers lead to them. */
module LcmMemory {
  import opened LcmCodec
  import opened Words

  /** malloc and free: the blocks allocated and not yet freed. */
  class Heap {
    ghost var live: set<object>

    constructor ()
      ensures live == {}
    {
      live := {};
    }

    /** lcm_malloc of int8_t; a request for nothing gives NULL. */
    method MallocBytes(n: nat) returns (a: array?<Int8>)
      modifies this
      ensures n == 0 ==> a == null && live == old(live)
      ensures n > 0 ==> a != null && fresh(a) && a.Length == n && live == old(live) + {a}
    {
      if n == 0 {
        return null;
      }
      var b := new Int8[n];
      live := live + {b};
      return b;
    }

    /** lcm_malloc of int8_t*. */
    method MallocRows(n: nat) returns (a: array?<array?<Int8>>)
      modifies this
      ensures n == 0 ==> a == null && live == old(live)
      ensures n > 0 ==> a != null && fresh(a) && a.Length == n && live == old(live) + {a}
    {
      if n == 0 {
        return null;
      }
      var b := new array?<Int8>[n];
      live := live + {b};
      return b;
    }

    /** malloc of a buffer of bytes. */
    method MallocBuffer(n: nat) returns (buf: array<Byte>)
      requires n > 0
      modifies this
      ensures fresh(buf) && buf.Length == n && live == old(live) + {buf}
    {
      buf := new Byte[n];
      live := live + {buf};
    }

    /** malloc of one structure. */
    method MallocMessage() returns (m: Message)
      modifies this
      ensures fresh(m) && live == old(live) + {m}
    {
      m := new Message();
      live := live + {m};
    }

    /** free: only a live block, so no block is ever freed twice. */
    method Free(block: object)
      requires block in live
      modifies this
      ensures live == old(live) - {block}
    {
      live := live - {block};
    }
  }

  type Bytes = array?<Int8>
  type RowTable = array?<array?<Int8>>

  function Cells(a: Bytes): seq<Int8>
    reads a
  {
    if a == null then [] else a[..]
  }

  function One(block: object?): set<object> {
    if block == null then {} else {block}
  }

  /** The blocks of the first a rows. */
  ghost function RowsMade(t: RowTable, a: nat): set<object>
    requires t != null && a <= t.Length
    reads t
  {
    set i | 0 <= i < a && t[i] != null :: t[i]
  }

  /** The first a rows are separate blocks of numB bytes, holding the given cells. */
  ghost predicate TableSoFar(t: RowTable, a: nat, numB: Int8, rows: seq<seq<Int8>>)
    requires t != null && a <= t.Length
    reads t, RowsMade(t, a)
  {
    && |rows| == a && (a > 0 ==> 0 <= numB)
    && (forall i :: 0 <= i < a ==> RowIs(t[i], numB, rows[i]))
    && (forall i, j :: 0 <= i < j < a && t[i] != null ==> t[i] != t[j])
  }

  ghost predicate RowIs(r: Bytes, numB: Int8, cells: seq<Int8>)
    reads r
  {
    (r == null <==> numB == 0) && |cells| == numB && Cells(r) == cells
  }

  ghost function RowSet(t: RowTable): set<object>
    reads t
  {
    if t == null then {} else RowsMade(t, t.Length)
  }

  ghost function Rows(t: RowTable): (r: seq<seq<Int8>>)
    reads t, RowSet(t)
  {
    if t == null then []
    else seq(t.Length, i requires 0 <= i < t.Length reads t, RowSet(t) => Cells(t[i]))
  }

  lemma RowsMadeNext(t: RowTable, a: nat)
    requires t != null && a < t.Length
    ensures RowsMade(t, a + 1) == RowsMade(t, a) + One(t[a])
  {
  }

  lemma EmptyTable(t: RowTable, numB: Int8)
    requires t != null
    ensures TableSoFar(t, 0, numB, []) && RowsMade(t, 0) == {}
  {
  }

  /** struct lcmtest_bools_t (lcmtest_bools_t.h:20-28). */
  class Message {
    var oneBool: Int8
    var fixedArray: seq<Int8>
    var numA: Int8
    var numB: Int8
    var oneDim: Bytes
    var twoDim: RowTable

    constructor () {
      oneBool, fixedArray, numA, numB := 0, [0, 0, 0], 0, 0;
      oneDim, twoDim := null, null;
    }

    /** The heap blocks the message owns. */
    ghost function Blocks(): set<object>
      reads this, twoDim
    {
      One(oneDim) + One(twoDim) + RowSet(twoDim)
    }

    /** Every pointer is NULL or leads to a block of the size the counts give, all different. */
    ghost predicate Valid()
      reads this, twoDim, RowSet(twoDim)
    {
      && |fixedArray| == 3 && 0 <= numA
      && (oneDim == null <==> numA == 0) && (oneDim != null ==> oneDim.Length == numA)
      && (twoDim == null <==> numA == 0)
      && (twoDim != null ==> twoDim.Length == numA && TableSoFar(twoDim, numA, numB, Rows(twoDim)))
      && (oneDim != null ==> oneDim !in RowSet(twoDim))
    }

    ghost function Value(): Bools
      reads this, oneDim, twoDim, RowSet(twoDim)
    {
      Bools(oneBool, fixedArray, numA, numB, Cells(oneDim), Rows(twoDim))
    }
  }

  lemma ValidIsWellFormed(m: Message)
    requires m.Valid()
    ensures WellFormed(m.Value())
  {
  }

  lemma TableDone(t: RowTable, numB: Int8, rows: seq<seq<Int8>>)
    requires t != null && TableSoFar(t, t.Length, numB, rows)
    ensures Rows(t) == rows
  {
  }

  /** A table of the size the counts give, or NULL for none. */
  ghost predicate TableOf(t: RowTable, numA: Int8, numB: Int8, rows: seq<seq<Int8>>)
    reads t, RowSet(t)
  {
    if t == null then numA == 0 && rows == []
    else numA > 0 && t.Length == numA && TableSoFar(t, numA, numB, rows)
  }

  /** p is a structure with value v that owns exactly the given blocks. */
  ghost predicate Holds(p: Message, v: Bools, blocks: set<object>)
    reads p, blocks
  {
    && (p.oneDim != null ==> p.oneDim in blocks) && (p.twoDim != null ==> p.twoDim in blocks)
    && RowSet(p.twoDim) <= blocks
    && p.Valid() && p.Value() == v && p.Blocks() == blocks
  }

  lemma HeldIsWellFormed(p: Message, v: Bools, blocks: set<object>)
    requires Holds(p, v, blocks)
    ensures WellFormed(v)
  {
    ValidIsWellFormed(p);
  }

  /** What the fields of p say about v. */
  lemma HeldFields(p: Message, v: Bools, blocks: set<object>)
    requires Holds(p, v, blocks)
    ensures p.oneBool == v.oneBool && p.fixedArray == v.fixedArray && p.numA == v.numA && p.numB == v.numB
    ensures WellFormed(v) && Cells(p.oneDim) == v.oneDim && RowIs(p.oneDim, p.numA, v.oneDim)
    ensures p.oneDim == null <==> p.numA == 0
    ensures p.oneDim != null ==> p.oneDim.Length == p.numA && p.oneDim in blocks
    ensures p.twoDim == null <==> p.numA == 0
    ensures p.twoDim != null ==> p.twoDim.Length == p.numA && p.twoDim in blocks && RowSet(p.twoDim) <= blocks
  {
    HeldIsWellFormed(p, v, blocks);
  }

  lemma HeapIsNoBlock(h: Heap, p: Message, v: Bools, blocks: set<object>)
    requires Holds(p, v, blocks)
    ensures h !in blocks
  {
  }

  lemma StructureIsNoBlock(q: Message, p: Message, v: Bools, blocks: set<object>)
    requires Holds(p, v, blocks)
    ensures q !in blocks
  {
  }

  /** Row a of p. */
  lemma HeldRow(p: Message, v: Bools, blocks: set<object>, a: nat)
    requires Holds(p, v, blocks) && a < p.numA
    ensures p.twoDim != null && p.twoDim.Length == p.numA == |v.twoDim|
    ensures RowIs(p.twoDim[a], p.numB, v.twoDim[a]) && (p.twoDim[a] != null ==> p.twoDim[a] in blocks)
    ensures p.twoDim[a] == null <==> p.numB == 0
    ensures p.twoDim[a] != null ==> p.twoDim[a].Length == p.numB
  {
    assert p.Value().twoDim[a] == Cells(p.twoDim[a]);
  }

  /** The blocks of several messages. */
  function Union(owned: seq<set<object>>): set<object> {
    if owned == [] then {} else Union(owned[..|owned| - 1]) + owned[|owned| - 1]
  }

  lemma UnionNext(owned: seq<set<object>>, e: nat)
    requires e < |owned|
    ensures Union(owned[..e + 1]) == Union(owned[..e]) + owned[e]
  {
    assert owned[..e + 1][..e] == owned[..e];
  }

  lemma {:induction false} InUnion(owned: seq<set<object>>, e: nat)
    requires e < |owned|
    ensures owned[e] <= Union(owned)
  {
    if e < |owned| - 1 {
      InUnion(owned[..|owned| - 1], e);
    }
  }

  /** No block belongs to two messages. */
  predicate Separate(owned: seq<set<object>>) {
    forall i, j :: 0 <= i < j < |owned| ==> owned[i] !! owned[j]
  }

  /** A change of the heap and of another structure does not reach a message's blocks. */
  lemma Elsewhere(h: Heap, q: Message, p: Message, v: Bools, blocks: set<object>)
    requires Holds(p, v, blocks)
    ensures h !in blocks && q !in blocks
  {
    HeapIsNoBlock(h, p, v, blocks);
    StructureIsNoBlock(q, p, v, blocks);
  }

  lemma OneMore(owned: seq<set<object>>, blocks: set<object>)
    ensures Union(owned + [blocks]) == Union(owned) + blocks
    ensures Separate(owned) && Union(owned) !! blocks ==> Separate(owned + [blocks])
  {
    var q := owned + [blocks];
    assert q[..|owned|] == owned;
    forall i | 0 <= i < |owned| ensures owned[i] <= Union(owned) { InUnion(owned, i); }
  }

  lemma NoneOwned()
    ensures Union([]) == {} && Separate([])
  {
  }

  lemma OneOwned(owned: seq<set<object>>)
    requires |owned| == 1
    ensures Union(owned) == owned[0]
  {
    assert owned[..0] == [];
  }
}
