/** Decoding in lcm/test/types/lcmtest_bools_t.c: filling message structures, and
    the blocks they need, from the bytes in a buffer. */
module LcmDecode {
  import opened LcmCodec
  import opened LcmMemory
  import opened Words

  /** __int8_t_decode_array and __boolean_decode_array into n bytes of memory. */
  method DecodeBytes(buf: array<Byte>, offset: nat, maxlen: int, a: Bytes, n: nat) returns (thislen: int)
    requires offset + maxlen <= buf.Length
    requires a == null ==> n == 0
    requires a != null ==> a.Length == n
    modifies a
    ensures maxlen < n ==> thislen < 0
    ensures maxlen >= n ==> thislen == n && Cells(a) == Cooked(buf[offset..offset + n])
  {
    if maxlen < n {
      return -1;
    }
    if a != null {
      forall i | 0 <= i < n {
        a[i] := FromByte(buf[offset + i]);
      }
    }
    thislen := n;
  }

  // ----- one element (lines 129-152) -----

  /** An int result, or a call of a primitive with a negative count. */
  datatype Outcome = Returned(code: int) | Undefined

  /** The bytes a decoder may look at. */
  function Window(b: seq<Byte>, offset: nat, maxlen: int): seq<Byte>
    requires offset <= |b| && offset + maxlen <= |b|
  {
    if maxlen < 0 then [] else b[offset..offset + maxlen]
  }

  /** A failed or meaningless row makes the whole table so. */
  lemma {:induction false} RowsFail(b: seq<Byte>, pos: nat, a: nat, rows: nat, n: int)
    requires a <= rows && !TakeRows(b, pos, a, n).Got?
    ensures TakeRows(b, pos, rows, n) == TakeRows(b, pos, a, n)
    decreases rows
  {
    if a < rows {
      RowsFail(b, pos, a, rows - 1, n);
    }
  }

  lemma TakeFrom(buf: array<Byte>, offset: nat, maxlen: nat, pos: nat, n: nat)
    requires offset + maxlen <= buf.Length && pos + n <= maxlen
    ensures Take(buf[offset..offset + maxlen], pos, n) == Got(Cooked(buf[offset + pos..offset + pos + n]), pos + n)
  {
    SubSlice(buf[..], offset, offset + maxlen, pos, pos + n);
    assert buf[..][offset..offset + maxlen] == buf[offset..offset + maxlen];
    assert buf[..][offset + pos..offset + pos + n] == buf[offset + pos..offset + pos + n];
  }

  /** One turn of the inner loop (lines 148-150): allocate and fill row a. */
  method DecodeRow(h: Heap, buf: array<Byte>, offset: nat, maxlen: nat, t: RowTable, a: nat, numB: Int8, pos: nat,
                   ghost rows: seq<seq<Int8>>) returns (thislen: int)
    requires offset + maxlen <= buf.Length && pos <= maxlen && numB >= 0
    requires t != null && a < t.Length && TableSoFar(t, a, numB, rows)
    modifies h, t
    ensures RowsMade(t, a) == old(RowsMade(t, a))
    ensures fresh(One(t[a])) && h.live == old(h.live) + One(t[a])
    ensures var took := Take(buf[offset..offset + maxlen], pos, numB);
      if thislen < 0 then took == Refused
      else took.Got? && took.end == pos + thislen <= maxlen && TableSoFar(t, a + 1, numB, rows + [took.value])
  {
    var row := h.MallocBytes(numB);
    t[a] := row;
    assert forall i :: 0 <= i < a ==> t[i] == old(t[i]);
    assert TableSoFar(t, a, numB, rows) && row !in RowsMade(t, a);
    thislen := DecodeBytes(buf, offset + pos, maxlen - pos, row, numB);
    if thislen >= 0 {
      TakeFrom(buf, offset, maxlen, pos, numB);
      OneMoreRow(t, a, numB, rows, Take(buf[offset..offset + maxlen], pos, numB).value);
    }
  }

  lemma OneMoreRow(t: RowTable, a: nat, numB: Int8, rows: seq<seq<Int8>>, cells: seq<Int8>)
    requires t != null && a < t.Length && numB >= 0 && TableSoFar(t, a, numB, rows)
    requires RowIs(t[a], numB, cells) && (t[a] != null ==> t[a] !in RowsMade(t, a))
    ensures TableSoFar(t, a + 1, numB, rows + [cells])
  {
  }

  /** The inner loop (lines 145-152): allocate and fill the rows. */
  method DecodeRows(h: Heap, buf: array<Byte>, offset: nat, maxlen: nat, p: Message, start: nat) returns (out: Outcome)
    requires offset + maxlen <= buf.Length && start <= maxlen && p.numA >= 0
    modifies h, p`twoDim
    ensures old(h.live) <= h.live && fresh(h.live - old(h.live)) && (p.numA == 0 ==> h.live == old(h.live))
    ensures match TakeRows(buf[offset..offset + maxlen], start, p.numA, p.numB)
      case Got(rows, end) =>
        && out == Returned(end) && TableOf(p.twoDim, p.numA, p.numB, rows)
        && fresh(One(p.twoDim) + RowSet(p.twoDim)) && h.live == old(h.live) + One(p.twoDim) + RowSet(p.twoDim)
      case Refused => out.Returned? && out.code < 0
      case NoMeaning => out == Undefined
  {
    hide TableSoFar, RowIs, RowsMade, Take, Cells;
    ghost var w := buf[offset..offset + maxlen];
    var t := h.MallocRows(p.numA);
    p.twoDim := t;
    if t == null {
      return Returned(start);
    }
    if p.numB < 0 {
      FirstRowMeaningless(w, start, p.numA, p.numB);
      return Undefined;
    }
    var pos, a := start, 0;
    ghost var rows: seq<seq<Int8>> := [];
    EmptyTable(t, p.numB);
    while a < p.numA
      invariant 0 <= a <= p.numA == t.Length && 0 <= pos <= maxlen && p.twoDim == t
      invariant TakeRows(w, start, a, p.numB) == Got(rows, pos) && TableSoFar(t, a, p.numB, rows)
      invariant fresh(RowsMade(t, a)) && h.live == old(h.live) + {t} + RowsMade(t, a)
    {
      var thislen := DecodeRow(h, buf, offset, maxlen, t, a, p.numB, pos, rows);
      RowsMadeNext(t, a);
      if thislen < 0 {
        NextRow(w, start, a, p.numB, pos, rows);
        RowsFail(w, start, a + 1, p.numA, p.numB);
        return Returned(thislen);
      }
      NextRow(w, start, a, p.numB, pos, rows);
      rows := TakeRows(w, start, a + 1, p.numB).value;
      pos := pos + thislen;
      a := a + 1;
    }
    return Returned(pos);
  }

  lemma FirstRowMeaningless(w: seq<Byte>, start: nat, rows: nat, n: int)
    requires rows > 0 && n < 0
    ensures TakeRows(w, start, rows, n) == NoMeaning
  {
    RowsFail(w, start, 1, rows, n);
  }

  lemma NextRow(w: seq<Byte>, start: nat, a: nat, n: int, pos: nat, rows: seq<seq<Int8>>)
    requires TakeRows(w, start, a, n) == Got(rows, pos)
    ensures TakeRows(w, start, a + 1, n) ==
      match Take(w, pos, n)
      case Got(row, q) => Got(rows + [row], q)
      case Refused => Refused
      case NoMeaning => NoMeaning
  {
  }

  /** An int8_t or int8_t[n] field inside the structure. */
  method DecodeField(buf: array<Byte>, offset: nat, maxlen: int, n: nat) returns (thislen: int, s: seq<Int8>)
    requires offset + maxlen <= buf.Length
    ensures maxlen < n ==> thislen < 0
    ensures maxlen >= n ==> thislen == n && s == Cooked(buf[offset..offset + n])
  {
    if maxlen < n {
      return -1, [];
    }
    return n, Cooked(buf[offset..offset + n]);
  }

  /** The fields at the start of w. */
  ghost predicate HeaderOf(p: Message, w: seq<Byte>)
    reads p`oneBool, p`fixedArray, p`numA, p`numB
  {
    && |w| >= 6
    && p.oneBool == FromByte(w[0]) && p.fixedArray == Cooked(w[1..4])
    && p.numA == FromByte(w[4]) && p.numB == FromByte(w[5])
  }

  /** The first four fields (lines 129-139). */
  method DecodeHeader(buf: array<Byte>, offset: nat, maxlen: int, p: Message) returns (pos: int)
    requires offset <= buf.Length && offset + maxlen <= buf.Length
    modifies p`oneBool, p`fixedArray, p`numA, p`numB
    ensures maxlen < 6 ==> pos < 0
    ensures maxlen >= 6 ==> pos == 6 && HeaderOf(p, Window(buf[..], offset, maxlen))
  {
    hide HeaderOf, Window;
    pos := 0;
    var thislen, s;
    thislen, s := DecodeField(buf, offset + pos, maxlen - pos, 1);
    if thislen < 0 { return thislen; } else { pos := pos + thislen; }
    p.oneBool := s[0];
    thislen, s := DecodeField(buf, offset + pos, maxlen - pos, 3);
    if thislen < 0 { return thislen; } else { pos := pos + thislen; }
    p.fixedArray := s;
    thislen, s := DecodeField(buf, offset + pos, maxlen - pos, 1);
    if thislen < 0 { return thislen; } else { pos := pos + thislen; }
    p.numA := s[0];
    thislen, s := DecodeField(buf, offset + pos, maxlen - pos, 1);
    if thislen < 0 { return thislen; } else { pos := pos + thislen; }
    p.numB := s[0];
    HeaderRead(buf, offset, maxlen, p);
  }

  lemma HeaderRead(buf: array<Byte>, offset: nat, maxlen: nat, p: Message)
    requires offset + maxlen <= buf.Length && maxlen >= 6
    requires p.oneBool == FromByte(buf[offset]) && p.fixedArray == Cooked(buf[offset + 1..offset + 4])
    requires p.numA == FromByte(buf[offset + 4]) && p.numB == FromByte(buf[offset + 5])
    ensures HeaderOf(p, Window(buf[..], offset, maxlen))
  {
    var w := Window(buf[..], offset, maxlen);
    SubSlice(buf[..], offset, offset + maxlen, 1, 4);
    assert buf[..][offset + 1..offset + 4] == buf[offset + 1..offset + 4];
  }

  /** The variable array (lines 141-143): allocate and fill it. */
  method DecodeOneDim(h: Heap, buf: array<Byte>, offset: nat, maxlen: nat, p: Message, pos: nat) returns (thislen: int)
    requires offset + maxlen <= buf.Length && pos <= maxlen && p.numA >= 0
    modifies h, p`oneDim
    ensures p.oneDim == null <==> p.numA == 0
    ensures fresh(One(p.oneDim)) && h.live == old(h.live) + One(p.oneDim)
    ensures var took := Take(buf[offset..offset + maxlen], pos, p.numA);
      if thislen < 0 then took == Refused
      else took.Got? && took.end == pos + thislen <= maxlen && RowIs(p.oneDim, p.numA, took.value)
  {
    p.oneDim := h.MallocBytes(p.numA);
    thislen := DecodeBytes(buf, offset + pos, maxlen - pos, p.oneDim, p.numA);
    if thislen >= 0 {
      TakeFrom(buf, offset, maxlen, pos, p.numA);
    }
  }

  lemma Assembled(p: Message, w: seq<Byte>, oneDim: seq<Int8>, twoDim: seq<seq<Int8>>, end: nat)
    requires HeaderOf(p, w) && Take(w, 6, p.numA) == Got(oneDim, 6 + |oneDim|)
    requires TakeRows(w, 6 + |oneDim|, p.numA, p.numB) == Got(twoDim, end)
    requires RowIs(p.oneDim, p.numA, oneDim) && TableOf(p.twoDim, p.numA, p.numB, twoDim)
    requires p.oneDim != null ==> p.oneDim !in RowSet(p.twoDim)
    ensures p.Valid() && ParseBody(w, 0) == Got(p.Value(), end)
    ensures Holds(p, p.Value(), One(p.oneDim) + One(p.twoDim) + RowSet(p.twoDim))
  {
    if p.twoDim != null {
      TableDone(p.twoDim, p.numB, twoDim);
    }
  }

  /** When an array field cannot be had, neither can the message. */
  lemma NotAssembled(p: Message, w: seq<Byte>, oneDim: Parsed<seq<Int8>>)
    requires HeaderOf(p, w) && oneDim == Take(w, 6, p.numA)
    ensures oneDim == Refused ==> ParseBody(w, 0) == Refused
    ensures oneDim == NoMeaning ==> ParseBody(w, 0) == NoMeaning
    ensures oneDim.Got? ==> oneDim.end == 6 + |oneDim.value| && p.numA >= 0
    ensures oneDim.Got? ==> var rows := TakeRows(w, oneDim.end, p.numA, p.numB);
      (rows == Refused ==> ParseBody(w, 0) == Refused) && (rows == NoMeaning ==> ParseBody(w, 0) == NoMeaning)
  {
  }

  /** What a decoder of one element into p promises: the message parsed, in blocks that
      are all it allocated; and in any case which elements make it allocate at all. */
  ghost predicate Decoded(parsed: Parsed<Bools>, out: Outcome, p: Message, blocks: set<object>)
    reads p, blocks
  {
    match parsed
    case Got(v, end) => out == Returned(end) && Holds(p, v, blocks)
    case Refused => out.Returned? && out.code < 0
    case NoMeaning => out == Undefined
  }

  /** One turn of the loop of __lcmtest_bools_t_decode_array. */
  method DecodeElement(h: Heap, buf: array<Byte>, offset: nat, maxlen: int, p: Message)
    returns (out: Outcome, ghost blocks: set<object>)
    requires offset <= buf.Length && offset + maxlen <= buf.Length
    modifies h, p
    ensures var w := Window(buf[..], offset, maxlen);
      Decoded(ParseBody(w, 0), out, p, blocks) && (h.live == old(h.live) <==> !TakesBlocks(w, 0))
    ensures fresh(blocks) && h.live == old(h.live) + blocks
  {
    hide ParseBody, Take, TakeRows, Cells, TableSoFar, RowIs, TableOf, HeaderOf, RowSet, Holds, TakesBlocks;
    var pos := DecodeHeader(buf, offset, maxlen, p);
    if pos < 0 {
      ShortHeader(Window(buf[..], offset, maxlen));
      return Returned(pos), {};
    }
    ghost var w := buf[offset..offset + maxlen];
    assert w == Window(buf[..], offset, maxlen);
    ghost var took := Take(w, 6, p.numA);
    NotAssembled(p, w, took);
    CountTakesBlocks(p, w);
    if p.numA < 0 {
      NegativeCount(w, 6, p.numA);
      return Undefined, {};
    }
    out, blocks := DecodeArrays(h, buf, offset, maxlen, p, w);
  }

  lemma CountTakesBlocks(p: Message, w: seq<Byte>)
    requires HeaderOf(p, w)
    ensures TakesBlocks(w, 0) <==> p.numA > 0
  {
  }

  lemma ShortHeader(w: seq<Byte>)
    ensures |w| < 6 ==> ParseBody(w, 0) == Refused && !TakesBlocks(w, 0)
  {
  }

  lemma NegativeCount(w: seq<Byte>, pos: nat, n: int)
    requires n < 0
    ensures Take(w, pos, n) == NoMeaning
  {
  }

  /** The array fields, once the counts are known. */
  method DecodeArrays(h: Heap, buf: array<Byte>, offset: nat, maxlen: nat, p: Message, ghost w: seq<Byte>)
    returns (out: Outcome, ghost blocks: set<object>)
    requires 6 <= maxlen && offset + maxlen <= buf.Length && w == buf[offset..offset + maxlen]
    requires HeaderOf(p, w) && p.numA >= 0
    modifies h, p`oneDim, p`twoDim
    ensures p.numA == old(p.numA) && Decoded(ParseBody(w, 0), out, p, blocks)
    ensures fresh(blocks) && h.live == old(h.live) + blocks && (blocks == {} <==> p.numA == 0)
  {
    hide ParseBody, Take, TakeRows, Cells, TableSoFar, RowIs, TableOf, HeaderOf, RowSet, One, Holds;
    ghost var took := Take(w, 6, p.numA);
    NotAssembled(p, w, took);
    var thislen := DecodeOneDim(h, buf, offset, maxlen, p, 6);
    OneIs(p.oneDim);
    blocks := One(p.oneDim);
    if thislen < 0 { return Returned(thislen), blocks; }
    ghost var before := h.live;
    out := DecodeRows(h, buf, offset, maxlen, p, 6 + thislen);
    blocks := blocks + (h.live - before);
    if TakeRows(w, took.end, p.numA, p.numB).Got? {
      assert h.live - before == One(p.twoDim) + RowSet(p.twoDim);
      assert blocks == One(p.oneDim) + One(p.twoDim) + RowSet(p.twoDim);
      ghost var rows := TakeRows(w, took.end, p.numA, p.numB);
      Assembled(p, w, took.value, rows.value, rows.end);
    }
  }

  lemma OneIs(a: Bytes)
    ensures One(a) == {} <==> a == null
  {
  }

  // ----- any number of elements (lines 123-156) -----

  /** Decoding from the middle of a window. */
  lemma RestOfWindow(b: seq<Byte>, offset: nat, maxlen: int, pos: nat)
    requires offset <= |b| && offset + maxlen <= |b| && pos <= |Window(b, offset, maxlen)|
    ensures offset + pos <= |b|
    ensures var w := Window(b, offset, maxlen);
      && Window(b, offset + pos, maxlen - pos) == w[pos..]
      && ParseBody(w, pos) == Shift(ParseBody(w[pos..], 0), pos)
      && (TakesBlocks(w, pos) <==> TakesBlocks(w[pos..], 0))
  {
    var w := Window(b, offset, maxlen);
    ParseBodyShift(w, pos);
    hide ParseBody;
  }

  /** What a successful ParseBody says of where it ends. */
  lemma ParsedEnds(w: seq<Byte>, pos: nat)
    requires pos <= |w| && ParseBody(w, pos).Got?
    ensures pos <= ParseBody(w, pos).end <= |w|
  {
    ParseBodyIff(w, pos, ParseBody(w, pos).value, ParseBody(w, pos).end);
  }

  /** One turn of the element loop, at pos of the window. */
  method DecodeNext(h: Heap, buf: array<Byte>, offset: nat, maxlen: int, p: Message, pos: nat, ghost w: seq<Byte>)
    returns (out: Outcome, ghost blocks: set<object>)
    requires offset <= buf.Length && offset + maxlen <= buf.Length
    requires w == Window(buf[..], offset, maxlen) && pos <= |w|
    modifies h, p
    ensures match ParseBody(w, pos)
      case Got(v, end) => pos <= end <= |w| && out == Returned(end - pos) && Holds(p, v, blocks)
      case Refused => out.Returned? && out.code < 0
      case NoMeaning => out == Undefined
    ensures fresh(blocks) && h.live == old(h.live) + blocks && (h.live == old(h.live) <==> !TakesBlocks(w, pos))
  {
    hide ParseBody, TakesBlocks, Holds, Window;
    RestOfWindow(buf[..], offset, maxlen, pos);
    if ParseBody(w, pos).Got? {
      ParsedEnds(w, pos);
    }
    out, blocks := DecodeElement(h, buf, offset + pos, maxlen - pos, p);
  }

  /** __lcmtest_bools_t_decode_array: every message parsed, each in blocks of its own,
      which are together all that was allocated; whatever the outcome, something was
      allocated exactly when some element got as far as a block. */
  method DecodeArray(h: Heap, buf: array<Byte>, offset: nat, maxlen: int, p: seq<Message>)
    returns (out: Outcome, ghost owned: seq<set<object>>)
    requires offset <= buf.Length && offset + maxlen <= buf.Length
    requires forall i, j :: 0 <= i < j < |p| ==> p[i] != p[j]
    modifies h, p
    ensures match ParseBodies(Window(buf[..], offset, maxlen), 0, |p|)
      case Got(vs, end) =>
        out == Returned(end) && |owned| == |vs| == |p| && forall i :: 0 <= i < |p| ==> Holds(p[i], vs[i], owned[i])
      case Refused => out.Returned? && out.code < 0
      case NoMeaning => out == Undefined
    ensures Separate(owned) && fresh(Union(owned)) && h.live == old(h.live) + Union(owned)
    ensures h.live == old(h.live) <==> !AnyTakesBlocks(Window(buf[..], offset, maxlen), 0, |p|)
  {
    hide ParseBody, TakesBlocks, Holds, Window, Union, Separate;
    ghost var w := Window(buf[..], offset, maxlen);
    ghost var vs: seq<Bools> := [];
    owned := [];
    NoneOwned();
    var pos, element := 0, 0;
    while element < |p|
      invariant 0 <= element == |owned| == |vs| <= |p| && 0 <= pos <= |w| && w == Window(buf[..], offset, maxlen)
      invariant ParseBodies(w, 0, element) == Got(vs, pos)
      invariant forall i :: 0 <= i < element ==> Holds(p[i], vs[i], owned[i])
      invariant Separate(owned) && fresh(Union(owned)) && h.live == old(h.live) + Union(owned)
      invariant h.live == old(h.live) <==> !AnyTakesBlocks(w, 0, element)
    {
      forall i | 0 <= i < element ensures h !in owned[i] && p[element] !in owned[i] {
        Elsewhere(h, p[element], p[i], vs[i], owned[i]);
      }
      ghost var blocks, before := {}, Union(owned);
      out, blocks := DecodeNext(h, buf, offset, maxlen, p[element], pos, w);
      assert before !! blocks;
      OneMore(owned, blocks);
      owned := owned + [blocks];
      if !out.Returned? || out.code < 0 {
        BodiesFail(w, 0, element + 1, |p|);
        BlocksStayTaken(w, 0, element + 1, |p|);
        return;
      }
      vs := ParseBodies(w, 0, element + 1).value;
      pos := pos + out.code;
      element := element + 1;
    }
    out := Returned(pos);
  }

  /** __int64_t_decode_array of one number, as its 64 bits. */
  method DecodeInt64(buf: array<Byte>, offset: nat, maxlen: int) returns (thislen: int, n: nat)
    requires offset + maxlen <= buf.Length
    ensures maxlen < 8 ==> thislen < 0
    ensures maxlen >= 8 ==> thislen == 8 && n == FromBigEndian(buf[offset..offset + 8])
  {
    if maxlen < 8 {
      return -1, 0;
    }
    return 8, FromBigEndian(buf[offset..offset + 8]);
  }

  lemma ParseInWindow(hash: U64, b: seq<Byte>, offset: nat, maxlen: int)
    requires offset <= |b| && offset + maxlen <= |b|
    ensures maxlen < 8 ==> Parse(hash, Window(b, offset, maxlen)) == Refused
    ensures maxlen >= 8 && FromBigEndian(b[offset..offset + 8]) != hash ==>
      Parse(hash, Window(b, offset, maxlen)) == Refused
    ensures maxlen >= 8 && FromBigEndian(b[offset..offset + 8]) == hash ==>
      Parse(hash, Window(b, offset, maxlen)) == Shift(ParseBody(Window(b, offset + 8, maxlen - 8), 0), 8)
  {
    hide FromBigEndian, ParseBody;
    if maxlen >= 8 {
      var w := Window(b, offset, maxlen);
      SubSlice(b, offset, offset + maxlen, 0, 8);
      assert w[..8] == w[0..8];
      assert w[8..] == Window(b, offset + 8, maxlen - 8);
      ParseBodyShift(w, 8);
    }
  }

  /** The fingerprint and the fixed fields are there, and the fingerprint is right. */
  predicate HeaderComplete(hash: U64, w: seq<Byte>) {
    |w| >= 14 && FromBigEndian(w[..8]) == hash
  }

  /** lcmtest_bools_t_decode. A refused message leaves blocks behind exactly when it
      was cut off after its fixed fields. */
  method Decode(h: Heap, hash: U64, buf: array<Byte>, offset: nat, maxlen: int, p: Message)
    returns (out: Outcome, ghost blocks: set<object>)
    requires offset <= buf.Length && offset + maxlen <= buf.Length
    modifies h, p
    ensures Decoded(Parse(hash, Window(buf[..], offset, maxlen)), out, p, blocks)
    ensures fresh(blocks) && h.live == old(h.live) + blocks
    ensures Parse(hash, Window(buf[..], offset, maxlen)) == Refused ==>
      (h.live == old(h.live) <==> !HeaderComplete(hash, Window(buf[..], offset, maxlen)))
  {
    hide Parse, ParseBody, Window, Holds, FromBigEndian, TakesBlocks, AnyTakesBlocks, HeaderComplete, Union;
    ghost var w := Window(buf[..], offset, maxlen);
    ParseInWindow(hash, buf[..], offset, maxlen);
    HeaderInWindow(hash, buf[..], offset, maxlen);
    assert maxlen >= 8 ==> buf[..][offset..offset + 8] == buf[offset..offset + 8];
    var thislen, thisHash := DecodeInt64(buf, offset, maxlen);
    if thislen < 0 { return Returned(thislen), {}; }
    var pos := thislen;
    if thisHash != hash { return Returned(-1), {}; }
    ghost var rest := Window(buf[..], offset + pos, maxlen - pos);
    ghost var owned;
    out, owned := DecodeArray(h, buf, offset + pos, maxlen - pos, [p]);
    blocks := Union(owned);
    OneBodyParsed(rest, 0);
    OneTakesBlocks(rest, 0);
    if ParseBody(rest, 0).Got? {
      OneOwned(owned);
      assert Holds([p][0], [ParseBody(rest, 0).value][0], owned[0]);
    }
    if ParseBody(rest, 0) == Refused { RefusedTakesBlocks(rest, 0); }
    if out.Returned? && out.code >= 0 {
      out := Returned(pos + out.code);
    }
  }

  lemma HeaderInWindow(hash: U64, b: seq<Byte>, offset: nat, maxlen: int)
    requires offset <= |b| && offset + maxlen <= |b|
    ensures HeaderComplete(hash, Window(b, offset, maxlen))
      <==> maxlen >= 14 && FromBigEndian(b[offset..offset + 8]) == hash
    ensures maxlen >= 8 ==> |Window(b, offset + 8, maxlen - 8)| == maxlen - 8
  {
    hide FromBigEndian;
    if maxlen >= 14 {
      assert Window(b, offset, maxlen)[..8] == b[offset..offset + 8];
    }
  }

  /** So every message cut off after its fixed fields leaves blocks behind. */
  lemma CutAfterHeader(hash: U64, v: Bools, k: nat)
    requires WellFormed(v) && 14 <= k < |Encoding(hash, v)|
    ensures Parse(hash, Encoding(hash, v)[..k]) == Refused && HeaderComplete(hash, Encoding(hash, v)[..k])
  {
    PrefixIsRefused(hash, v, k);
    HashRoundTrip(hash);
    hide FromBigEndian, BigEndian, Body, Parse;
    assert Encoding(hash, v)[..k][..8] == BigEndian(hash, 8);
  }

  /** The shortest such message: one element in the first array, an empty row, and the
      last of its 15 bytes missing. */
  lemma FourteenOfFifteenBytes(hash: U64)
    ensures var v := Bools(0, [0, 0, 0], 1, 0, [0], [[]]);
      && WellFormed(v) && |Encoding(hash, v)| == 15
      && Parse(hash, Encoding(hash, v)[..14]) == Refused && HeaderComplete(hash, Encoding(hash, v)[..14])
  {
    var v := Bools(0, [0, 0, 0], 1, 0, [0], [[]]);
    assert |RowBytes([[]])| == 0;
    CutAfterHeader(hash, v, 14);
  }
}
