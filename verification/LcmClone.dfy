/** The life of messages in lcm/test/types/lcmtest_bools_t.c: cleaning up after
    decoding, cloning, copying and destroying, and the stub that receives a message. */
module LcmClone {
  import opened LcmCodec
  import opened LcmMemory
  import opened LcmDecode
  import opened Words

  // ----- cleaning up (lines 158-184, 202-205) -----

  /** One turn of the loop of __lcmtest_bools_t_decode_array_cleanup: frees every block
      of the message, each once, and nothing else. */
  method CleanupElement(h: Heap, p: Message, ghost v: Bools, ghost blocks: set<object>)
    requires Holds(p, v, blocks) && blocks <= h.live
    modifies h
    ensures h.live == old(h.live) - blocks
  {
    ghost var live := h.live;
    if p.oneDim != null { h.Free(p.oneDim); }
    var a := 0;
    while a < p.numA
      invariant 0 <= a <= p.numA
      invariant p.twoDim != null ==> h.live == live - One(p.oneDim) - RowsMade(p.twoDim, a)
      invariant p.twoDim == null ==> h.live == live - One(p.oneDim)
    {
      if p.twoDim[a] != null { h.Free(p.twoDim[a]); }
      RowsMadeNext(p.twoDim, a);
      a := a + 1;
    }
    if p.twoDim != null { h.Free(p.twoDim); }
  }

  lemma {:induction false} ApartFromUnion(owned: seq<set<object>>, e: nat, k: nat)
    requires e <= k < |owned| && Separate(owned)
    ensures Union(owned[..e]) !! owned[k]
  {
    if e > 0 {
      ApartFromUnion(owned, e - 1, k);
      UnionNext(owned, e - 1);
    }
  }

  /** __lcmtest_bools_t_decode_array_cleanup: frees every block of every message once. */
  method CleanupArray(h: Heap, p: seq<Message>, ghost vs: seq<Bools>, ghost owned: seq<set<object>>)
    requires |p| == |vs| == |owned| && Separate(owned) && Union(owned) <= h.live
    requires forall i :: 0 <= i < |p| ==> Holds(p[i], vs[i], owned[i])
    modifies h
    ensures h.live == old(h.live) - Union(owned)
    ensures forall i :: 0 <= i < |p| ==> Holds(p[i], vs[i], owned[i])
  {
    hide Holds, Union, Separate;
    NoneOwned();
    assert owned[..0] == [];
    var element := 0;
    while element < |p|
      invariant 0 <= element <= |p| && h.live == old(h.live) - Union(owned[..element])
      invariant forall i :: 0 <= i < |p| ==> Holds(p[i], vs[i], owned[i])
    {
      ApartFromUnion(owned, element, element);
      InUnion(owned, element);
      UnionNext(owned, element);
      forall i | 0 <= i < |p| ensures h !in owned[i] {
        HeapIsNoBlock(h, p[i], vs[i], owned[i]);
      }
      CleanupElement(h, p[element], vs[element], owned[element]);
      element := element + 1;
    }
    assert owned[..element] == owned;
  }

  /** lcmtest_bools_t_decode_cleanup. */
  method DecodeCleanup(h: Heap, p: Message, ghost v: Bools, ghost blocks: set<object>)
    requires Holds(p, v, blocks) && blocks <= h.live
    modifies h
    ensures h.live == old(h.live) - blocks
  {
    OneOwned([blocks]);
    CleanupArray(h, [p], [v], [blocks]);
  }

  /** Any handler that a user may pass: it gets the message to read, allocates and keeps
      what it wants, and frees blocks it owns, which are none of the message's. */
  method UserHandler(h: Heap, p: Message, wants: seq<nat>, ghost gives: set<object>, ghost v: Bools,
                     ghost blocks: set<object>)
    returns (ghost kept: set<object>)
    requires Holds(p, v, blocks) && gives <= h.live
    modifies h
    ensures Holds(p, v, blocks) && fresh(kept) && h.live == old(h.live) - gives + kept
  {
    HeapIsNoBlock(h, p, v, blocks);
    hide Holds;
    kept := {};
    h.live := h.live - gives;
    var i := 0;
    while i < |wants|
      invariant 0 <= i <= |wants|
      invariant Holds(p, v, blocks) && fresh(kept) && h.live == old(h.live) - gives + kept
    {
      var a := h.MallocBytes(wants[i]);
      kept := kept + One(a);
      i := i + 1;
    }
  }

  /** lcmtest_bools_t_handler_stub (lines 268-285): a message that decodes leaves the heap
      as the user's handler does; a refused one leaves it as it was, unless the message
      was cut off after its fixed fields. */
  method HandlerStub(h: Heap, hash: U64, buf: array<Byte>, size: nat, wants: seq<nat>, ghost gives: set<object>)
    returns (out: Outcome, ghost kept: set<object>)
    requires size <= buf.Length && gives <= h.live
    modifies h
    ensures Parse(hash, buf[..size]).Got? ==> fresh(kept) && h.live == old(h.live) - gives + kept
    ensures Parse(hash, buf[..size]) == Refused ==>
      out.Returned? && out.code < 0 && (h.live == old(h.live) <==> !HeaderComplete(hash, buf[..size]))
  {
    hide Parse, Holds, HeaderComplete;
    kept := {};
    var p := new Message();
    assert buf[..size] == Window(buf[..], 0, size);
    ghost var blocks;
    out, blocks := Decode(h, hash, buf, 0, size, p);
    if out == Undefined || out.code < 0 { return; }
    ghost var v := Parse(hash, buf[..size]).value;
    kept := UserHandler(h, p, wants, gives, v, blocks);
    DecodeCleanup(h, p, v, blocks);
  }

  // ----- cloning (lines 207-240) -----

  /** One turn of the clone's inner loop (lines 226-227), from row a of source to row a of t. */
  method CloneRow(h: Heap, source: RowTable, t: RowTable, a: nat, numB: Int8, ghost rows: seq<seq<Int8>>)
    requires source != null && t != null && a < t.Length == source.Length == |rows|
    requires TableSoFar(source, |rows|, numB, rows) && t != source && t !in RowsMade(source, |rows|)
    requires TableSoFar(t, a, numB, rows[..a])
    modifies h, t
    ensures TableSoFar(source, |rows|, numB, rows) && RowsMade(source, |rows|) == old(RowsMade(source, |rows|))
    ensures RowsMade(t, a) == old(RowsMade(t, a))
    ensures fresh(One(t[a])) && h.live == old(h.live) + One(t[a])
    ensures TableSoFar(t, a + 1, numB, rows[..a + 1])
  {
    assert rows[..a + 1] == rows[..a] + [rows[a]];
    var row := h.MallocBytes(numB);
    t[a] := row;
    assert forall i :: 0 <= i < a ==> t[i] == old(t[i]);
    CloneBytes(source[a], row, numB);
  }

  /** __boolean_clone_array and __int8_t_clone_array: copy n bytes. */
  method CloneBytes(source: Bytes, a: Bytes, n: nat)
    requires (source == null <==> n == 0) && (a == null <==> n == 0)
    requires source != null ==> source.Length == n
    requires a != null ==> a.Length == n && a != source
    modifies a
    ensures Cells(a) == Cells(source)
  {
    if a != null && source != null {
      forall i | 0 <= i < n {
        a[i] := source[i];
      }
      assert a[..] == source[..];
    }
  }

  lemma SourceTable(p: Message)
    requires p.Valid()
    ensures |p.Value().twoDim| == p.numA && (p.twoDim == null <==> p.numA == 0)
    ensures p.twoDim != null ==>
      p.twoDim.Length == p.numA && TableSoFar(p.twoDim, |p.Value().twoDim|, p.numB, p.Value().twoDim)
  {
  }

  /** The loop over the rows (lines 225-228). */
  method CloneTable(h: Heap, source: RowTable, t: RowTable, numA: nat, numB: Int8, ghost rows: seq<seq<Int8>>)
    requires source != null && t != null && numA == t.Length == source.Length == |rows|
    requires TableSoFar(source, |rows|, numB, rows) && t != source && t !in RowsMade(source, |rows|)
    modifies h, t
    ensures TableSoFar(t, t.Length, numB, rows)
    ensures fresh(RowsMade(t, t.Length)) && h.live == old(h.live) + RowsMade(t, t.Length)
  {
    hide *;
    EmptyTable(t, numB);
    assert rows[..0] == [];
    var a := 0;
    while a < numA
      invariant 0 <= a <= numA
      invariant TableSoFar(source, |rows|, numB, rows) && t != source && t !in RowsMade(source, |rows|)
      invariant TableSoFar(t, a, numB, rows[..a])
      invariant fresh(RowsMade(t, a)) && h.live == old(h.live) + RowsMade(t, a)
    {
      CloneRow(h, source, t, a, numB, rows);
      RowsMadeNext(t, a);
      a := a + 1;
    }
    assert rows[..a] == rows;
  }

  /** The ragged array of the clone (lines 223-229). */
  method CloneRows(h: Heap, p: Message, q: Message)
    requires p.Valid() && p != q && q.numA == p.numA
    modifies h, q`twoDim
    ensures TableOf(q.twoDim, p.numA, p.numB, old(p.Value().twoDim))
    ensures fresh(One(q.twoDim) + RowSet(q.twoDim)) && h.live == old(h.live) + One(q.twoDim) + RowSet(q.twoDim)
  {
    SourceTable(p);
    ghost var rows := p.Value().twoDim;
    ghost var made: set<object> := if p.twoDim == null then {} else RowsMade(p.twoDim, |rows|);
    var t := h.MallocRows(q.numA);
    q.twoDim := t;
    if t != null {
      assert t !in made;
      hide TableSoFar, RowIs, Cells, Rows, Message.Valid, Message.Value, Message.Blocks;
      CloneTable(h, p.twoDim, t, p.numA, p.numB, rows);
    }
  }

  lemma ClonedIs(q: Message, v: Bools)
    requires WellFormed(v) && q.oneBool == v.oneBool && q.fixedArray == v.fixedArray
    requires q.numA == v.numA && q.numB == v.numB
    requires RowIs(q.oneDim, q.numA, v.oneDim) && TableOf(q.twoDim, q.numA, q.numB, v.twoDim)
    requires q.oneDim != null ==> q.oneDim !in RowSet(q.twoDim)
    ensures Holds(q, v, One(q.oneDim) + One(q.twoDim) + RowSet(q.twoDim))
  {
    if q.twoDim != null {
      TableDone(q.twoDim, q.numB, v.twoDim);
    }
  }

  /** All but the rows (lines 212-221). */
  method CloneFields(h: Heap, p: Message, q: Message, ghost v: Bools, ghost blocks: set<object>)
    requires Holds(p, v, blocks) && p != q
    modifies h, q`oneBool, q`fixedArray, q`numA, q`numB, q`oneDim
    ensures Holds(p, v, blocks)
    ensures q.oneBool == v.oneBool && q.fixedArray == v.fixedArray && q.numA == v.numA && q.numB == v.numB
    ensures RowIs(q.oneDim, v.numA, v.oneDim)
    ensures fresh(One(q.oneDim)) && h.live == old(h.live) + One(q.oneDim)
  {
    hide Holds, RowIs, Cells, WellFormed;
    Elsewhere(h, q, p, v, blocks);
    HeldFields(p, v, blocks);
    q.oneBool := p.oneBool;
    q.fixedArray := p.fixedArray;
    q.numA := p.numA;
    q.numB := p.numB;
    q.oneDim := h.MallocBytes(q.numA);
    assert q.oneDim != null ==> q.oneDim !in blocks;
    CloneBytes(p.oneDim, q.oneDim, p.numA);
    RowMade(q.oneDim, p.numA, v.oneDim);
  }

  lemma RowMade(a: Bytes, n: Int8, cells: seq<Int8>)
    requires n >= 0 && (a == null <==> n == 0) && (a != null ==> a.Length == n) && Cells(a) == cells
    ensures RowIs(a, n, cells)
  {
  }

  /** One turn of the loop of __lcmtest_bools_t_clone_array: an equal message in blocks of its own. */
  method CloneElement(h: Heap, p: Message, q: Message, ghost v: Bools, ghost blocks: set<object>)
    returns (ghost made: set<object>)
    requires Holds(p, v, blocks) && p != q
    modifies h, q
    ensures Holds(q, v, made) && fresh(made) && h.live == old(h.live) + made
  {
    hide *;
    HeldFields(p, v, blocks);
    CloneFields(h, p, q, v, blocks);
    HeldIsValid(p, v, blocks);
    CloneRows(h, p, q);
    ClonedIs(q, v);
    made := One(q.oneDim) + One(q.twoDim) + RowSet(q.twoDim);
  }

  lemma HeldIsValid(p: Message, v: Bools, blocks: set<object>)
    requires Holds(p, v, blocks)
    ensures p.Valid() && p.Value() == v
  {
  }

  /** __lcmtest_bools_t_clone_array: equal messages, so of equal encodings, sharing no
      block with their sources or each other. */
  method CloneArray(h: Heap, p: seq<Message>, q: seq<Message>, ghost vs: seq<Bools>, ghost owned: seq<set<object>>)
    returns (ghost made: seq<set<object>>)
    requires |p| == |q| == |vs| == |owned| && forall i :: 0 <= i < |p| ==> Holds(p[i], vs[i], owned[i])
    requires forall i, j :: 0 <= i < j < |q| ==> q[i] != q[j]
    requires forall i, j :: 0 <= i < |p| && 0 <= j < |q| ==> p[i] != q[j]
    modifies h, q
    ensures forall i :: 0 <= i < |p| ==> Holds(p[i], vs[i], owned[i])
    ensures |made| == |q| && forall i :: 0 <= i < |q| ==> Holds(q[i], vs[i], made[i])
    ensures Separate(made) && fresh(Union(made)) && h.live == old(h.live) + Union(made)
  {
    hide Holds, Union, Separate;
    made := [];
    NoneOwned();
    var element := 0;
    while element < |p|
      invariant 0 <= element == |made| <= |p|
      invariant forall i :: 0 <= i < |p| ==> Holds(p[i], vs[i], owned[i])
      invariant forall i :: 0 <= i < element ==> Holds(q[i], vs[i], made[i])
      invariant Separate(made) && fresh(Union(made)) && h.live == old(h.live) + Union(made)
    {
      forall i | 0 <= i < |p| ensures h !in owned[i] && q[element] !in owned[i] {
        Elsewhere(h, q[element], p[i], vs[i], owned[i]);
      }
      forall i | 0 <= i < element ensures h !in made[i] && q[element] !in made[i] {
        Elsewhere(h, q[element], q[i], vs[i], made[i]);
      }
      ghost var before, blocks := Union(made), {};
      blocks := CloneElement(h, p[element], q[element], vs[element], owned[element]);
      assert before !! blocks;
      OneMore(made, blocks);
      made := made + [blocks];
      element := element + 1;
    }
  }

  /** lcmtest_bools_t_copy: the structure itself is one more block. */
  method Copy(h: Heap, p: Message, ghost v: Bools, ghost blocks: set<object>)
    returns (q: Message, ghost made: set<object>)
    requires Holds(p, v, blocks)
    modifies h
    ensures Holds(p, v, blocks) && Holds(q, v, made) && q !in made
    ensures fresh(q) && fresh(made) && h.live == old(h.live) + {q} + made
  {
    HeapIsNoBlock(h, p, v, blocks);
    hide Holds, Union;
    q := h.MallocMessage();
    ghost var all;
    all := CloneArray(h, [p], [q], [v], [blocks]);
    OneOwned(all);
    made := all[0];
    assert Holds([p][0], [v][0], [blocks][0]) && Holds([q][0], [v][0], all[0]);
    StructureIsNoBlock(q, q, v, made);
  }

  /** lcmtest_bools_t_destroy (lines 242-246). */
  method Destroy(h: Heap, p: Message, ghost v: Bools, ghost blocks: set<object>)
    requires Holds(p, v, blocks) && blocks + {p} <= h.live
    modifies h
    ensures h.live == old(h.live) - blocks - {p}
  {
    StructureIsNoBlock(p, p, v, blocks);
    hide Holds, Union;
    OneOwned([blocks]);
    CleanupArray(h, [p], [v], [blocks]);
    h.Free(p);
  }
}
