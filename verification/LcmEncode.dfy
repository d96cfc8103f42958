/** Encoding and sizing in lcm/test/types/lcmtest_bools_t.c: reading a message
    through its pointers and writing its bytes into a buffer. */
module LcmEncode {
  import opened LcmCodec
  import opened LcmLayout
  import opened LcmMemory
  import opened Options
  import opened Words

  // ----- the primitives of lcm_coretypes.h -----

  /** after is before with the given bytes written at offset. */
  predicate Wrote(before: seq<Byte>, after: seq<Byte>, offset: nat, bytes: seq<Byte>) {
    offset + |bytes| <= |before| && after == before[..offset] + bytes + before[offset + |bytes|..]
  }

  lemma WroteMore(s: seq<Byte>, t: seq<Byte>, u: seq<Byte>, offset: nat, x: seq<Byte>, y: seq<Byte>)
    requires Wrote(s, t, offset, x) && Wrote(t, u, offset + |x|, y)
    ensures Wrote(s, u, offset, x + y)
  {
  }

  /** __int8_t_encode_array and __boolean_encode_array. */
  method EncodeBytes(buf: array<Byte>, offset: nat, maxlen: int, s: seq<Int8>) returns (thislen: int)
    requires offset + maxlen <= buf.Length
    modifies buf
    ensures maxlen < |s| ==> thislen < 0 && buf[..] == old(buf[..])
    ensures maxlen >= |s| ==> thislen == |s| && Wrote(old(buf[..]), buf[..], offset, Raw(s))
  {
    if maxlen < |s| {
      return -1;
    }
    forall i | 0 <= i < |s| {
      buf[offset + i] := ToByte(s[i]);
    }
    thislen := |s|;
  }

  /** The same primitives on n bytes of memory. */
  method EncodeCells(buf: array<Byte>, offset: nat, maxlen: int, a: Bytes, n: nat) returns (thislen: int)
    requires offset + maxlen <= buf.Length
    requires a == null ==> n == 0
    requires a != null ==> a.Length == n && (a as object) != buf
    modifies buf
    ensures Cells(a) == old(Cells(a))
    ensures maxlen < n ==> thislen < 0 && buf[..] == old(buf[..])
    ensures maxlen >= n ==> thislen == n && Wrote(old(buf[..]), buf[..], offset, Raw(Cells(a)))
  {
    if maxlen < n {
      return -1;
    }
    if a != null {
      forall i | 0 <= i < n {
        buf[offset + i] := ToByte(a[i]);
      }
    }
    thislen := n;
  }

  // ----- encoding (lines 46-91) -----

  /** One more chunk of b in the buffer. */
  lemma Advance(s: seq<Byte>, t: seq<Byte>, u: seq<Byte>, offset: nat, b: seq<Byte>, pos: nat, chunk: seq<Byte>)
    requires pos + |chunk| <= |b| && b[pos..pos + |chunk|] == chunk
    requires Wrote(s, t, offset, b[..pos]) && Wrote(t, u, offset + pos, chunk)
    ensures Wrote(s, u, offset, b[..pos + |chunk|])
  {
    WroteMore(s, t, u, offset, b[..pos], chunk);
    assert b[..pos] + chunk == b[..pos + |chunk|];
  }

  lemma WroteNothing(s: seq<Byte>, offset: nat)
    requires offset <= |s|
    ensures Wrote(s, s, offset, [])
  {
  }

  lemma RowPlace(rows: seq<seq<Int8>>, a: nat)
    requires a < |rows|
    ensures var m, n := |RowBytes(rows[..a])|, |RowBytes(rows[..a + 1])|;
      n == m + |rows[a]| && n <= |RowBytes(rows)| && RowBytes(rows)[m..n] == Raw(rows[a])
      && RowBytes(rows)[..n] == RowBytes(rows[..a + 1])
  {
    assert rows[..a + 1][..a] == rows[..a];
    if a + 1 == |rows| {
      assert rows[..a + 1] == rows;
    } else {
      RowPlace(rows[..|rows| - 1], a);
      assert rows[..|rows| - 1][..a] == rows[..a] && rows[..|rows| - 1][..a + 1] == rows[..a + 1];
    }
  }

  /** The chunks of Body, at the places the code writes them. */
  lemma BodyChunks(v: Bools)
    requires |v.fixedArray| == 3
    ensures var b, p := Body(v), 6 + |v.oneDim|;
      && |b| == p + |RowBytes(v.twoDim)|
      && b[0..1] == Raw([v.oneBool]) && b[1..4] == Raw(v.fixedArray)
      && b[4..5] == Raw([v.numA]) && b[5..6] == Raw([v.numB])
      && b[6..p] == Raw(v.oneDim) && b[p..] == RowBytes(v.twoDim)
  {
  }

  lemma RowChunk(v: Bools, a: nat)
    requires |v.fixedArray| == 3 && a < |v.twoDim|
    ensures var b, p := Body(v), 6 + |v.oneDim|;
      var m, n := p + |RowBytes(v.twoDim[..a])|, p + |RowBytes(v.twoDim[..a + 1])|;
      n == m + |v.twoDim[a]| && n <= |b| && b[m..n] == Raw(v.twoDim[a])
  {
    BodyChunks(v);
    RowPlace(v.twoDim, a);
    var b, p := Body(v), 6 + |v.oneDim|;
    var m, n := |RowBytes(v.twoDim[..a])|, |RowBytes(v.twoDim[..a + 1])|;
    SubSlice(b, p, |b|, m, n);
    assert b[p..] == b[p..|b|];
  }

  /** What an encoder promises: it succeeds exactly when maxlen is enough for b,
      and even when it fails it has written only a beginning of b, inside the window. */
  ghost predicate Encoded(before: seq<Byte>, buf: array<Byte>, offset: nat, maxlen: int, b: seq<Byte>, r: int,
                          done: nat)
    reads buf
  {
    && done <= |b| && Wrote(before, buf[..], offset, b[..done])
    && (maxlen >= |b| ==> r == |b| == done)
    && (maxlen < |b| ==> r < 0 && (done == 0 || done <= maxlen))
  }

  /** Between two calls of a primitive: pos bytes of b are in the buffer. */
  ghost predicate Underway(before: seq<Byte>, buf: array<Byte>, offset: nat, maxlen: int, b: seq<Byte>, pos: int)
    reads buf
  {
    0 <= pos <= |b| && (pos == 0 || pos <= maxlen) && Wrote(before, buf[..], offset, b[..pos])
  }

  lemma Begin(buf: array<Byte>, offset: nat, maxlen: int, b: seq<Byte>)
    requires offset <= buf.Length
    ensures Underway(buf[..], buf, offset, maxlen, b, 0)
  {
    assert b[..0] == [];
  }

  /** What Underway said before a call of a complete encoder. */
  predicate WasUnderway(before: seq<Byte>, t: seq<Byte>, offset: nat, maxlen: int, b: seq<Byte>, pos: int) {
    0 <= pos <= |b| && (pos == 0 || pos <= maxlen) && Wrote(before, t, offset, b[..pos])
  }

  lemma Remember(s: seq<Byte>, buf: array<Byte>, offset: nat, maxlen: int, b: seq<Byte>, pos: int)
    requires Underway(s, buf, offset, maxlen, b, pos)
    ensures WasUnderway(s, buf[..], offset, maxlen, b, pos)
    ensures 0 <= pos <= |b| && (pos == 0 || pos <= maxlen) && offset + pos <= buf.Length
  {
  }

  /** A primitive called on the chunk that comes next. */
  lemma ChunkWritten(s: seq<Byte>, t: seq<Byte>, buf: array<Byte>, offset: nat, maxlen: int,
                     b: seq<Byte>, pos: nat, chunk: seq<Byte>, thislen: int)
    requires WasUnderway(s, t, offset, maxlen, b, pos)
    requires pos + |chunk| <= |b| && b[pos..pos + |chunk|] == chunk
    requires maxlen - pos < |chunk| ==> thislen < 0 && buf[..] == t
    requires maxlen - pos >= |chunk| ==> thislen == |chunk| && Wrote(t, buf[..], offset + pos, chunk)
    ensures thislen < 0 ==> Encoded(s, buf, offset, maxlen, b, thislen, pos)
    ensures thislen >= 0 ==> thislen == |chunk| && Underway(s, buf, offset, maxlen, b, pos + thislen)
  {
    if thislen >= 0 {
      Advance(s, t, buf[..], offset, b, pos, chunk);
    }
    hide Wrote;
  }

  /** One call of a primitive on fields of p, the chunk of b that comes next. */
  method EncodeChunk(buf: array<Byte>, offset: nat, maxlen: int, chunk: seq<Int8>, pos: nat,
                     ghost s: seq<Byte>, ghost b: seq<Byte>, ghost p: Message, ghost v: Bools,
                     ghost blocks: set<object>)
    returns (thislen: int)
    requires offset <= buf.Length && offset + maxlen <= buf.Length
    requires Underway(s, buf, offset, maxlen, b, pos)
    requires pos + |chunk| <= |b| && b[pos..pos + |chunk|] == Raw(chunk)
    requires Holds(p, v, blocks) && buf !in blocks
    modifies buf
    ensures Holds(p, v, blocks)
    ensures thislen < 0 ==> Encoded(s, buf, offset, maxlen, b, thislen, pos)
    ensures thislen >= 0 ==> thislen == |chunk| && Underway(s, buf, offset, maxlen, b, pos + thislen)
  {
    Remember(s, buf, offset, maxlen, b, pos);
    hide Holds, Underway, WasUnderway, Encoded, Wrote;
    ghost var t := buf[..];
    thislen := EncodeBytes(buf, offset + pos, maxlen - pos, chunk);
    ChunkWritten(s, t, buf, offset, maxlen, b, pos, Raw(chunk), thislen);
  }

  /** The same for bytes in a block of p. */
  method EncodeBlock(buf: array<Byte>, offset: nat, maxlen: int, a: Bytes, n: nat, pos: nat,
                     ghost s: seq<Byte>, ghost b: seq<Byte>, ghost p: Message, ghost v: Bools,
                     ghost blocks: set<object>)
    returns (thislen: int)
    requires offset <= buf.Length && offset + maxlen <= buf.Length
    requires Underway(s, buf, offset, maxlen, b, pos)
    requires a == null ==> n == 0
    requires a != null ==> a.Length == n && a in blocks
    requires pos + n <= |b| && b[pos..pos + n] == Raw(Cells(a))
    requires Holds(p, v, blocks) && buf !in blocks
    modifies buf
    ensures Holds(p, v, blocks)
    ensures thislen < 0 ==> Encoded(s, buf, offset, maxlen, b, thislen, pos)
    ensures thislen >= 0 ==> thislen == n && Underway(s, buf, offset, maxlen, b, pos + thislen)
  {
    Remember(s, buf, offset, maxlen, b, pos);
    hide Holds, Underway, WasUnderway, Encoded, Wrote;
    ghost var t, bytes := buf[..], Raw(Cells(a));
    thislen := EncodeCells(buf, offset + pos, maxlen - pos, a, n);
    ChunkWritten(s, t, buf, offset, maxlen, b, pos, bytes, thislen);
  }

  /** One element of __lcmtest_bools_t_encode_array. */
  method EncodeElement(buf: array<Byte>, offset: nat, maxlen: int, p: Message, ghost v: Bools,
                       ghost blocks: set<object>)
    returns (r: int, ghost done: nat)
    requires offset <= buf.Length && offset + maxlen <= buf.Length && Holds(p, v, blocks) && buf !in blocks
    modifies buf
    ensures Holds(p, v, blocks) && Encoded(old(buf[..]), buf, offset, maxlen, Body(v), r, done)
  {
    hide *;
    ghost var s, b := buf[..], Body(v);
    HeldFields(p, v, blocks);
    HeldSizes(v);
    BodyChunks(v);
    Begin(buf, offset, maxlen, b);
    var pos, thislen := 0, 0;

    thislen := EncodeChunk(buf, offset, maxlen, [p.oneBool], pos, s, b, p, v, blocks);
    if thislen < 0 { return thislen, pos; } else { pos := pos + thislen; }

    thislen := EncodeChunk(buf, offset, maxlen, p.fixedArray, pos, s, b, p, v, blocks);
    if thislen < 0 { return thislen, pos; } else { pos := pos + thislen; }

    thislen := EncodeChunk(buf, offset, maxlen, [p.numA], pos, s, b, p, v, blocks);
    if thislen < 0 { return thislen, pos; } else { pos := pos + thislen; }

    thislen := EncodeChunk(buf, offset, maxlen, [p.numB], pos, s, b, p, v, blocks);
    if thislen < 0 { return thislen, pos; } else { pos := pos + thislen; }

    HeldFields(p, v, blocks);
    thislen := EncodeBlock(buf, offset, maxlen, p.oneDim, p.numA, pos, s, b, p, v, blocks);
    if thislen < 0 { return thislen, pos; } else { pos := pos + thislen; }

    r, done := EncodeRows(buf, offset, maxlen, p, pos, s, b, v, blocks);
  }

  lemma HeldSizes(v: Bools)
    requires WellFormed(v)
    ensures |v.fixedArray| == 3 && |v.oneDim| == v.numA == |v.twoDim|
  {
  }

  /** Its inner loop (lines 68-73), the last part of the element. */
  method EncodeRows(buf: array<Byte>, offset: nat, maxlen: int, p: Message, start: nat,
                    ghost s: seq<Byte>, ghost b: seq<Byte>, ghost v: Bools, ghost blocks: set<object>)
    returns (r: int, ghost done: nat)
    requires offset <= buf.Length && offset + maxlen <= buf.Length && b == Body(v)
    requires Holds(p, v, blocks) && buf !in blocks
    requires start == 6 + |v.oneDim| && Underway(s, buf, offset, maxlen, b, start)
    modifies buf
    ensures Holds(p, v, blocks) && Encoded(s, buf, offset, maxlen, b, r, done)
  {
    hide *;
    RowsStart(p, v, blocks);
    var pos, thislen := start, 0;
    var a := 0;
    while a < p.numA
      invariant 0 <= a <= p.numA == |v.twoDim|
      invariant pos == start + |RowBytes(v.twoDim[..a])|
      invariant Holds(p, v, blocks) && Underway(s, buf, offset, maxlen, b, pos)
    {
      thislen := EncodeRow(buf, offset, maxlen, p, a, pos, s, b, v, blocks);
      if thislen < 0 { return thislen, pos; } else { pos := pos + thislen; }
      a := a + 1;
    }
    assert v.twoDim[..a] == v.twoDim;
    Finished(s, buf, offset, maxlen, b, pos);
    return pos, pos;
  }

  lemma RowsStart(p: Message, v: Bools, blocks: set<object>)
    requires Holds(p, v, blocks)
    ensures p.numA == |v.twoDim| && RowBytes(v.twoDim[..0]) == []
    ensures |Body(v)| == 6 + |v.oneDim| + |RowBytes(v.twoDim)|
  {
    HeldFields(p, v, blocks);
    hide Holds;
    BodyChunks(v);
    RowsFrom(v.twoDim);
  }

  method EncodeRow(buf: array<Byte>, offset: nat, maxlen: int, p: Message, a: nat, pos: nat,
                   ghost s: seq<Byte>, ghost b: seq<Byte>, ghost v: Bools, ghost blocks: set<object>)
    returns (thislen: int)
    requires offset <= buf.Length && offset + maxlen <= buf.Length && b == Body(v)
    requires Holds(p, v, blocks) && buf !in blocks && a < p.numA == |v.twoDim|
    requires pos == 6 + |v.oneDim| + |RowBytes(v.twoDim[..a])| && Underway(s, buf, offset, maxlen, b, pos)
    modifies buf
    ensures Holds(p, v, blocks)
    ensures thislen < 0 ==> Encoded(s, buf, offset, maxlen, b, thislen, pos)
    ensures thislen >= 0 ==>
      pos + thislen == 6 + |v.oneDim| + |RowBytes(v.twoDim[..a + 1])|
        && Underway(s, buf, offset, maxlen, b, pos + thislen)
  {
    hide *;
    HeldFields(p, v, blocks);
    RowChunk(v, a);
    HeldRow(p, v, blocks, a);
    RowHas(p.twoDim[a], p.numB, v.twoDim[a]);
    thislen := EncodeBlock(buf, offset, maxlen, p.twoDim[a], p.numB, pos, s, b, p, v, blocks);
  }

  lemma RowHas(r: Bytes, numB: Int8, cells: seq<Int8>)
    requires RowIs(r, numB, cells)
    ensures Cells(r) == cells && |cells| == numB
  {
  }

  lemma RowsFrom(rows: seq<seq<Int8>>)
    ensures RowBytes(rows[..0]) == []
  {
  }

  lemma Finished(s: seq<Byte>, t: array<Byte>, offset: nat, maxlen: int, b: seq<Byte>, pos: nat)
    requires Underway(s, t, offset, maxlen, b, pos) && pos == |b| && (pos > 0 || maxlen >= 0)
    ensures Encoded(s, t, offset, maxlen, b, pos, pos)
  {
  }

  /** A complete encoder called on the part c of b that comes next. */
  lemma Continued(s: seq<Byte>, t: seq<Byte>, buf: array<Byte>, offset: nat, maxlen: int,
                  b: seq<Byte>, pos: nat, c: seq<Byte>, r: int, done: nat)
    requires WasUnderway(s, t, offset, maxlen, b, pos) && Encoded(t, buf, offset + pos, maxlen - pos, c, r, done)
    requires pos + |c| <= |b| && b[pos..pos + |c|] == c && |c| > 0
    ensures r < 0 ==> Encoded(s, buf, offset, maxlen, b, r, pos + done)
    ensures r >= 0 ==> r == |c| && Underway(s, buf, offset, maxlen, b, pos + r)
  {
    SubSlice(b, pos, pos + |c|, 0, done);
    Advance(s, t, buf[..], offset, b, pos, c[..done]);
  }

  lemma BodiesPlace(vs: seq<Bools>, e: nat)
    requires e < |vs|
    ensures var m, n := |Bodies(vs[..e])|, |Bodies(vs[..e + 1])|;
      n == m + |Body(vs[e])| && n <= |Bodies(vs)| && Bodies(vs)[m..n] == Body(vs[e])
      && Bodies(vs)[..n] == Bodies(vs[..e + 1])
  {
    hide Body;
    assert vs[..e + 1][..e] == vs[..e];
    if e + 1 == |vs| {
      assert vs[..e + 1] == vs;
    } else {
      BodiesPlace(vs[..|vs| - 1], e);
      assert vs[..|vs| - 1][..e] == vs[..e] && vs[..|vs| - 1][..e + 1] == vs[..e + 1];
    }
  }

  /** One turn of the element loop, on the part of b that comes next. */
  method EncodeNext(buf: array<Byte>, offset: nat, maxlen: int, p: Message, pos: nat,
                    ghost s: seq<Byte>, ghost b: seq<Byte>, ghost v: Bools, ghost blocks: set<object>)
    returns (thislen: int, ghost done: nat)
    requires offset <= buf.Length && offset + maxlen <= buf.Length && Holds(p, v, blocks) && buf !in blocks
    requires Underway(s, buf, offset, maxlen, b, pos)
    requires pos + |Body(v)| <= |b| && b[pos..pos + |Body(v)|] == Body(v)
    modifies buf
    ensures Holds(p, v, blocks)
    ensures thislen < 0 ==> Encoded(s, buf, offset, maxlen, b, thislen, done)
    ensures thislen >= 0 ==> thislen == |Body(v)| > 0 && Underway(s, buf, offset, maxlen, b, pos + thislen)
  {
    hide *;
    HeldIsWellFormed(p, v, blocks);
    BodyIsNotEmpty(v);
    Remember(s, buf, offset, maxlen, b, pos);
    ghost var t := buf[..];
    thislen, done := EncodeElement(buf, offset + pos, maxlen - pos, p, v, blocks);
    Continued(s, t, buf, offset, maxlen, b, pos, Body(v), thislen, done);
    done := pos + done;
  }

  /** __lcmtest_bools_t_encode_array. */
  method EncodeArray(buf: array<Byte>, offset: nat, maxlen: int, p: seq<Message>, ghost vs: seq<Bools>,
                     ghost owned: seq<set<object>>)
    returns (r: int, ghost done: nat)
    requires offset <= buf.Length && offset + maxlen <= buf.Length && |p| == |vs| == |owned|
    requires forall i :: 0 <= i < |p| ==> Holds(p[i], vs[i], owned[i]) && buf !in owned[i]
    modifies buf
    ensures forall i :: 0 <= i < |p| ==> Holds(p[i], vs[i], owned[i])
    ensures p != [] ==> Encoded(old(buf[..]), buf, offset, maxlen, Bodies(vs), r, done)
    ensures p == [] ==> r == 0 && buf[..] == old(buf[..])
  {
    hide *;
    ghost var s, b := buf[..], Bodies(vs);
    Begin(buf, offset, maxlen, b);
    BodiesOfNone();
    assert vs[..0] == [];
    var pos, element := 0, 0;
    while element < |p|
      invariant 0 <= element <= |p| && pos == |Bodies(vs[..element])| && (element > 0 ==> pos > 0)
      invariant forall i :: 0 <= i < |p| ==> Holds(p[i], vs[i], owned[i])
      invariant Underway(s, buf, offset, maxlen, b, pos)
      invariant p == [] ==> buf[..] == s
    {
      BodiesPlace(vs, element);
      var thislen;
      thislen, done := EncodeNext(buf, offset, maxlen, p[element], pos, s, b, vs[element], owned[element]);
      if thislen < 0 { return thislen, done; } else { pos := pos + thislen; }
      element := element + 1;
    }
    assert vs[..element] == vs;
    if p != [] { Finished(s, buf, offset, maxlen, b, pos); }
    return pos, pos;
  }

  lemma BodiesOfNone()
    ensures Bodies([]) == []
  {
  }

  lemma BodyIsNotEmpty(v: Bools)
    requires WellFormed(v)
    ensures |Body(v)| > 0
  {
  }

  /** __int64_t_encode_array of one number, given by its 64 bits, at the start of b. */
  method EncodeInt64(buf: array<Byte>, offset: nat, maxlen: int, n: U64, ghost s: seq<Byte>, ghost b: seq<Byte>)
    returns (thislen: int)
    requires offset <= buf.Length && offset + maxlen <= buf.Length && buf[..] == s
    requires |b| >= 8 && b[..8] == BigEndian(n, 8)
    modifies buf
    ensures maxlen < 8 ==> Encoded(s, buf, offset, maxlen, b, thislen, 0)
    ensures maxlen >= 8 ==> thislen == 8 && Underway(s, buf, offset, maxlen, b, 8)
  {
    if maxlen < 8 {
      WroteNothing(s, offset);
      assert b[..0] == [];
      return -1;
    }
    var bytes := BigEndian(n, 8);
    forall i | 0 <= i < 8 {
      buf[offset + i] := bytes[i];
    }
    assert Wrote(s, buf[..], offset, bytes);
    thislen := 8;
  }

  /** lcmtest_bools_t_encode: succeeds exactly when maxlen is at least the encoded
      size, and touches nothing outside offset..offset+maxlen. */
  method Encode(hash: U64, buf: array<Byte>, offset: nat, maxlen: int, p: Message, ghost v: Bools,
                ghost blocks: set<object>)
    returns (r: int, ghost done: nat)
    requires offset <= buf.Length && offset + maxlen <= buf.Length && Holds(p, v, blocks) && buf !in blocks
    modifies buf
    ensures Holds(p, v, blocks) && Encoded(old(buf[..]), buf, offset, maxlen, Encoding(hash, v), r, done)
    ensures r >= 0 ==>
      WellFormed(v) && offset + r <= buf.Length && Layout(hash, v, buf[offset..offset + r])
  {
    hide *;
    r, done := EncodeParts(hash, buf, offset, maxlen, p, v, blocks);
    HeldIsWellFormed(p, v, blocks);
    WrittenLayout(old(buf[..]), buf, offset, maxlen, hash, v, r, done);
  }

  /** What is in the buffer lies where LcmLayout says. */
  lemma WrittenLayout(before: seq<Byte>, buf: array<Byte>, offset: nat, maxlen: int, hash: U64, v: Bools, r: int,
                      done: nat)
    requires WellFormed(v) && |before| == buf.Length
    requires Encoded(before, buf, offset, maxlen, Encoding(hash, v), r, done)
    ensures r >= 0 ==> offset + r <= buf.Length && Layout(hash, v, buf[offset..offset + r])
  {
    hide Layout, Encoding;
    var b := Encoding(hash, v);
    LayoutIff(hash, v, b);
    if r >= 0 {
      assert b[..done] == b == buf[offset..offset + r];
    }
  }

  /** The two calls of lcmtest_bools_t_encode. */
  method EncodeParts(hash: U64, buf: array<Byte>, offset: nat, maxlen: int, p: Message, ghost v: Bools,
                     ghost blocks: set<object>)
    returns (r: int, ghost done: nat)
    requires offset <= buf.Length && offset + maxlen <= buf.Length && Holds(p, v, blocks) && buf !in blocks
    modifies buf
    ensures Holds(p, v, blocks) && Encoded(old(buf[..]), buf, offset, maxlen, Encoding(hash, v), r, done)
  {
    hide *;
    ghost var s, b := buf[..], Encoding(hash, v);
    EncodingParts(hash, v);
    Begin(buf, offset, maxlen, b);
    var pos := EncodeInt64(buf, offset, maxlen, hash, s, b);
    if pos < 0 { return pos, 0; }
    var thislen;
    thislen, done := EncodeOne(buf, offset, maxlen, p, pos, s, b, v, blocks);
    if thislen < 0 { return thislen, done; }
    return pos + thislen, done;
  }

  /** __lcmtest_bools_t_encode_array on one element, as the last part of b. */
  method EncodeOne(buf: array<Byte>, offset: nat, maxlen: int, p: Message, pos: nat,
                   ghost s: seq<Byte>, ghost b: seq<Byte>, ghost v: Bools, ghost blocks: set<object>)
    returns (thislen: int, ghost done: nat)
    requires offset <= buf.Length && offset + maxlen <= buf.Length && Holds(p, v, blocks) && buf !in blocks
    requires Underway(s, buf, offset, maxlen, b, pos)
    requires pos + |Body(v)| == |b| && b[pos..] == Body(v)
    modifies buf
    ensures Holds(p, v, blocks)
    ensures Encoded(s, buf, offset, maxlen, b, if thislen < 0 then thislen else pos + thislen, done)
  {
    hide *;
    HeldIsWellFormed(p, v, blocks);
    OneBody(v);
    Remember(s, buf, offset, maxlen, b, pos);
    ghost var t := buf[..];
    thislen, done := EncodeArray(buf, offset + pos, maxlen - pos, [p], [v], [blocks]);
    assert Holds([p][0], [v][0], [blocks][0]);
    LastPart(s, t, buf, offset, maxlen, b, pos, Body(v), thislen, done);
    done := if thislen < 0 then pos + done else pos + thislen;
  }

  lemma LastPart(s: seq<Byte>, t: seq<Byte>, buf: array<Byte>, offset: nat, maxlen: int,
                 b: seq<Byte>, pos: nat, c: seq<Byte>, r: int, done: nat)
    requires WasUnderway(s, t, offset, maxlen, b, pos) && Encoded(t, buf, offset + pos, maxlen - pos, c, r, done)
    requires pos + |c| == |b| && b[pos..] == c && |c| > 0
    ensures r < 0 ==> Encoded(s, buf, offset, maxlen, b, r, pos + done)
    ensures r >= 0 ==> Encoded(s, buf, offset, maxlen, b, pos + r, pos + r)
  {
    hide Wrote;
    assert b[pos..pos + |c|] == b[pos..];
    Continued(s, t, buf, offset, maxlen, b, pos, c, r, done);
    if r >= 0 {
      Finished(s, buf, offset, maxlen, b, pos + r);
    }
  }

  lemma EncodingParts(hash: U64, p: Bools)
    ensures var b := Encoding(hash, p);
      |b| == 8 + |Body(p)| && b[..8] == BigEndian(hash, 8) && b[8..] == Body(p)
  {
  }

  lemma OneBody(p: Bools)
    requires WellFormed(p)
    ensures Bodies([p]) == Body(p) && |Body(p)| > 0
  {
    assert [p][..0] == [];
  }

  // ----- sizes (lines 93-121) -----

  /** __boolean_encoded_array_size and __int8_t_encoded_array_size of n elements. */
  function EncodedBytesSize(n: nat): nat {
    n
  }

  method EncodedArraySize(p: seq<Message>, ghost vs: seq<Bools>, ghost owned: seq<set<object>>) returns (size: nat)
    requires |p| == |vs| == |owned| && forall i :: 0 <= i < |p| ==> Holds(p[i], vs[i], owned[i])
    ensures size == |Bodies(vs)|
  {
    hide Bodies, Body, Holds;
    BodiesOfNone();
    assert vs[..0] == [];
    size := 0;
    var element := 0;
    while element < |p|
      invariant 0 <= element <= |p| && size == |Bodies(vs[..element])|
      invariant forall i :: 0 <= i < |p| ==> Holds(p[i], vs[i], owned[i])
    {
      BodiesPlace(vs, element);
      var thissize := EncodedElementSize(p[element], vs[element], owned[element]);
      size := size + thissize;
      element := element + 1;
    }
    assert vs[..element] == vs;
  }

  /** One turn of the loop (lines 98-112). */
  method EncodedElementSize(p: Message, ghost v: Bools, ghost blocks: set<object>) returns (size: nat)
    requires Holds(p, v, blocks)
    ensures size == |Body(v)|
  {
    HeldFields(p, v, blocks);
    BodyChunks(v);
    RowsFrom(v.twoDim);
    assert |v.oneDim| == v.numA == |v.twoDim|;
    hide RowBytes, Body, Holds, Raw, RowIs, Cells;
    size := EncodedBytesSize(1);
    size := size + EncodedBytesSize(3);
    size := size + EncodedBytesSize(1);
    size := size + EncodedBytesSize(1);
    size := size + EncodedBytesSize(p.numA);
    var a := 0;
    while a < p.numA
      invariant 0 <= a <= p.numA
      invariant size == 6 + |v.oneDim| + |RowBytes(v.twoDim[..a])|
    {
      RowPlace(v.twoDim, a);
      HeldRow(p, v, blocks, a);
      RowHas(p.twoDim[a], p.numB, v.twoDim[a]);
      size := size + EncodedBytesSize(p.numB);
      a := a + 1;
    }
    assert v.twoDim[..a] == v.twoDim;
  }

  /** lcmtest_bools_t_encoded_size is the length of what lcmtest_bools_t_encode writes. */
  method EncodedSize(hash: U64, p: Message, ghost v: Bools, ghost blocks: set<object>) returns (size: nat)
    requires Holds(p, v, blocks)
    ensures size == |Encoding(hash, v)|
  {
    HeldIsWellFormed(p, v, blocks);
    OneBody(v);
    size := EncodedArraySize([p], [v], [blocks]);
    size := 8 + size;
  }

  // ----- publishing (lines 248-261) -----

  /** lcmtest_bools_t_publish, where the transport answers answer and sees the bytes
      sent: a buffer of the encoded size is always enough, and is freed again. */
  method Publish(h: Heap, hash: U64, p: Message, noMemory: bool, answer: int, ghost v: Bools, ghost blocks: set<object>)
    returns (status: int, sent: Option<seq<Byte>>)
    requires Holds(p, v, blocks)
    modifies h
    ensures h.live == old(h.live) && Holds(p, v, blocks)
    ensures noMemory ==> status == -1 && sent == None
    ensures !noMemory ==> status == answer && sent == Some(Encoding(hash, v))
  {
    HeapIsNoBlock(h, p, v, blocks);
    hide Encoding, Holds, Layout, Encoded, WellFormed;
    var maxDataSize := EncodedSize(hash, p, v, blocks);
    if noMemory {
      return -1, None;
    }
    EncodingIsNotEmpty(hash, v);
    var buf := h.MallocBuffer(maxDataSize);
    var dataSize := EncodeAll(hash, buf, p, v, blocks);
    // so the source's test for a negative data_size never succeeds
    assert dataSize == maxDataSize;
    sent := Some(buf[..dataSize]);
    status := answer;
    h.Free(buf);
  }

  /** A buffer of the encoded size is filled. */
  method EncodeAll(hash: U64, buf: array<Byte>, p: Message, ghost v: Bools, ghost blocks: set<object>)
    returns (dataSize: int)
    requires Holds(p, v, blocks) && buf !in blocks && buf.Length == |Encoding(hash, v)|
    modifies buf
    ensures Holds(p, v, blocks) && dataSize == buf.Length && buf[..] == buf[..dataSize] == Encoding(hash, v)
  {
    hide *;
    ghost var before, done := buf[..], 0;
    dataSize, done := Encode(hash, buf, 0, buf.Length, p, v, blocks);
    WholeBuffer(before, buf, Encoding(hash, v), dataSize, done);
  }

  lemma EncodingIsNotEmpty(hash: U64, v: Bools)
    ensures |Encoding(hash, v)| > 0
  {
  }

  lemma WholeBuffer(before: seq<Byte>, buf: array<Byte>, b: seq<Byte>, r: int, done: nat)
    requires |before| == buf.Length == |b| && Encoded(before, buf, 0, |b|, b, r, done)
    ensures r == buf.Length && buf[..] == b && buf[..r] == b
  {
  }
}
