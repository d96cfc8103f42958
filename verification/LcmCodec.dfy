/** The wire format of lcm/test/types/lcmtest_bools_t.c on plain values. */
module LcmCodec {
  import opened Words

  type Int8 = v: int | -0x80 <= v < 0x80

  /** The values of a lcmtest_bools_t (lcmtest_bools_t.h:20-28). Booleans travel as int8_t. */
  datatype Bools = Bools(oneBool: Int8, fixedArray: seq<Int8>, numA: Int8, numB: Int8,
                         oneDim: seq<Int8>, twoDim: seq<seq<Int8>>)

  /** The array sizes are those the earlier fields give, and are not negative where used. */
  predicate WellFormed(v: Bools) {
    && |v.fixedArray| == 3
    && 0 <= v.numA && |v.oneDim| == v.numA && |v.twoDim| == v.numA
    && forall i :: 0 <= i < |v.twoDim| ==> |v.twoDim[i]| == v.numB
  }

  // ----- bytes -----

  function ToByte(v: Int8): Byte {
    if v < 0 then v + 0x100 else v
  }

  function FromByte(b: Byte): Int8 {
    if b >= 0x80 then b - 0x100 else b
  }

  function Raw(s: seq<Int8>): (r: seq<Byte>)
    ensures |r| == |s|
    ensures forall i :: 0 <= i < |s| ==> r[i] == ToByte(s[i])
  {
    seq(|s|, i requires 0 <= i < |s| => ToByte(s[i]))
  }

  function Cooked(s: seq<Byte>): (r: seq<Int8>)
    ensures |r| == |s|
    ensures forall i :: 0 <= i < |s| ==> r[i] == FromByte(s[i])
  {
    seq(|s|, i requires 0 <= i < |s| => FromByte(s[i]))
  }

  lemma CookedRaw(s: seq<Int8>)
    ensures Cooked(Raw(s)) == s
  {
  }

  // ----- encoding -----

  function RowBytes(rows: seq<seq<Int8>>): seq<Byte> {
    if rows == [] then [] else RowBytes(rows[..|rows| - 1]) + Raw(rows[|rows| - 1])
  }

  function Header(v: Bools): seq<Byte> {
    Raw([v.oneBool]) + Raw(v.fixedArray) + Raw([v.numA]) + Raw([v.numB])
  }

  /** One element of __lcmtest_bools_t_encode_array. */
  function Body(v: Bools): seq<Byte> {
    Header(v) + Raw(v.oneDim) + RowBytes(v.twoDim)
  }

  function Bodies(vs: seq<Bools>): seq<Byte> {
    if vs == [] then [] else Bodies(vs[..|vs| - 1]) + Body(vs[|vs| - 1])
  }

  // ----- the fingerprint in front -----

  /** The k low-order bytes of n, most significant first. */
  function BigEndian(n: nat, k: nat): (r: seq<Byte>)
    ensures |r| == k
  {
    if k == 0 then [] else BigEndian(n / 0x100, k - 1) + [n % 0x100]
  }

  function FromBigEndian(b: seq<Byte>): nat {
    if b == [] then 0 else 0x100 * FromBigEndian(b[..|b| - 1]) + b[|b| - 1]
  }

  function Pow256(k: nat): (p: nat)
    ensures p >= 1
  {
    if k == 0 then 1 else 0x100 * Pow256(k - 1)
  }

  lemma {:induction false} BigEndianRoundTrip(n: nat, k: nat)
    requires n < Pow256(k)
    ensures FromBigEndian(BigEndian(n, k)) == n
  {
    if k > 0 {
      BigEndianRoundTrip(n / 0x100, k - 1);
      assert BigEndian(n, k)[..k - 1] == BigEndian(n / 0x100, k - 1);
    }
  }

  lemma HashRoundTrip(h: U64)
    ensures FromBigEndian(BigEndian(h, 8)) == h
  {
    assert Pow256(8) == 0x1_0000_0000_0000_0000 by {
      assert Pow256(4) == 0x1_0000_0000;
      assert Pow256(6) == 0x1_0000_0000_0000;
    }
    BigEndianRoundTrip(h, 8);
  }

  /** lcmtest_bools_t_encode of a message whose type has fingerprint h. */
  function Encoding(h: U64, v: Bools): seq<Byte> {
    BigEndian(h, 8) + Body(v)
  }

  // ----- decoding -----

  /** What decoding can come to: a value and where it ends, the error return,
      or a negative count, for which the primitives have no meaning. */
  datatype Parsed<+T> = Got(value: T, end: nat) | Refused | NoMeaning

  /** n bytes at pos, or Refused: __int8_t_decode_array and __boolean_decode_array. */
  function Take(b: seq<Byte>, pos: nat, n: int): Parsed<seq<Int8>> {
    if n < 0 then NoMeaning
    else if pos + n <= |b| then Got(Cooked(b[pos..pos + n]), pos + n)
    else Refused
  }

  /** rows rows of n bytes each. */
  function TakeRows(b: seq<Byte>, pos: nat, rows: nat, n: int): Parsed<seq<seq<Int8>>> {
    if rows == 0 then Got([], pos)
    else
      match TakeRows(b, pos, rows - 1, n)
      case Got(front, p) =>
        (match Take(b, p, n)
         case Got(row, q) => Got(front + [row], q)
         case Refused => Refused
         case NoMeaning => NoMeaning)
      case Refused => Refused
      case NoMeaning => NoMeaning
  }

  /** One element of __lcmtest_bools_t_decode_array. */
  function ParseBody(b: seq<Byte>, pos: nat): Parsed<Bools> {
    if pos + 6 > |b| then Refused
    else
      var numA, numB := FromByte(b[pos + 4]), FromByte(b[pos + 5]);
      match Take(b, pos + 6, numA)
      case Refused => Refused
      case NoMeaning => NoMeaning
      case Got(oneDim, p) =>
        match TakeRows(b, p, numA, numB)
        case Refused => Refused
        case NoMeaning => NoMeaning
        case Got(twoDim, q) =>
          Got(Bools(FromByte(b[pos]), Cooked(b[pos + 1..pos + 4]), numA, numB, oneDim, twoDim), q)
  }

  /** lcmtest_bools_t_decode. */
  function Parse(h: U64, b: seq<Byte>): Parsed<Bools> {
    if |b| < 8 || FromBigEndian(b[..8]) != h then Refused else ParseBody(b, 8)
  }

  // ----- decoding inverts encoding -----

  lemma RawCooked(b: seq<Byte>)
    ensures Raw(Cooked(b)) == b
  {
  }

  lemma {:induction false} BigEndianInverse(b: seq<Byte>)
    ensures BigEndian(FromBigEndian(b), |b|) == b
  {
    if b != [] {
      var n := |b| - 1;
      BigEndianInverse(b[..n]);
      assert FromBigEndian(b) / 0x100 == FromBigEndian(b[..n]) && FromBigEndian(b) % 0x100 == b[n];
      assert b == b[..n] + [b[n]];
    }
  }

  /** Take gets exactly the bytes that Raw writes. */
  lemma TakeIff(b: seq<Byte>, pos: nat, n: int, s: seq<Int8>, end: nat)
    ensures Take(b, pos, n) == Got(s, end) <==> |s| == n && end == pos + n <= |b| && b[pos..end] == Raw(s)
  {
    if Take(b, pos, n) == Got(s, end) {
      RawCooked(b[pos..end]);
    } else if |s| == n && end == pos + n <= |b| && b[pos..end] == Raw(s) {
      CookedRaw(s);
    }
  }

  predicate AllOfLength(rows: seq<seq<Int8>>, n: int) {
    forall i :: 0 <= i < |rows| ==> |rows[i]| == n
  }

  lemma {:induction false} TakeRowsIff(b: seq<Byte>, pos: nat, rows: nat, n: int, s: seq<seq<Int8>>, end: nat)
    requires pos <= |b|
    ensures TakeRows(b, pos, rows, n) == Got(s, end)
       <==> |s| == rows && AllOfLength(s, n) && pos <= end <= |b| && b[pos..end] == RowBytes(s)
    decreases rows
  {
    if rows == 0 {
      if s == [] && pos <= end <= |b| {
        assert |b[pos..end]| == end - pos;
      }
    } else {
      if TakeRows(b, pos, rows, n) == Got(s, end) {
        RowsGot(b, pos, rows, n, s, end);
      }
      if |s| == rows && AllOfLength(s, n) && pos <= end <= |b| && b[pos..end] == RowBytes(s) {
        RowsWritten(b, pos, rows, n, s, end);
      }
    }
  }

  lemma RowsGot(b: seq<Byte>, pos: nat, rows: nat, n: int, s: seq<seq<Int8>>, end: nat)
    requires pos <= |b| && rows > 0 && TakeRows(b, pos, rows, n) == Got(s, end)
    ensures |s| == rows && AllOfLength(s, n) && pos <= end <= |b| && b[pos..end] == RowBytes(s)
    decreases rows, 0
  {
    var front := TakeRows(b, pos, rows - 1, n);
    var last := Take(b, front.end, n);
    TakeRowsIff(b, pos, rows - 1, n, front.value, front.end);
    TakeIff(b, front.end, n, last.value, end);
    assert s == front.value + [last.value] && s[..rows - 1] == front.value;
    assert b[pos..end] == b[pos..front.end] + b[front.end..end];
  }

  lemma RowsWritten(b: seq<Byte>, pos: nat, rows: nat, n: int, s: seq<seq<Int8>>, end: nat)
    requires pos <= |b| && rows > 0
    requires |s| == rows && AllOfLength(s, n) && pos <= end <= |b| && b[pos..end] == RowBytes(s)
    ensures TakeRows(b, pos, rows, n) == Got(s, end)
    decreases rows, 0
  {
    var front, last := s[..rows - 1], s[rows - 1];
    var p := pos + |RowBytes(front)|;
    assert b[pos..p] == b[pos..end][..p - pos] == RowBytes(front);
    assert b[p..end] == b[pos..end][p - pos..] == Raw(last);
    TakeRowsIff(b, pos, rows - 1, n, front, p);
    TakeIff(b, p, n, last, end);
    assert front + [last] == s;
  }

  lemma HeaderIs(v: Bools)
    requires |v.fixedArray| == 3
    ensures |Header(v)| == 6
    ensures Header(v)[0] == ToByte(v.oneBool) && Header(v)[4] == ToByte(v.numA) && Header(v)[5] == ToByte(v.numB)
    ensures Header(v)[1..4] == Raw(v.fixedArray)
  {
  }

  lemma SubSlice(b: seq<Byte>, i: nat, j: nat, k: nat, l: nat)
    requires i <= j <= |b| && k <= l <= j - i
    ensures b[i..j][k..l] == b[i + k..i + l]
  {
    var x, y := b[i..j][k..l], b[i + k..i + l];
    assert |x| == |y| && forall m :: 0 <= m < |x| ==> x[m] == y[m];
  }

  lemma TwoParts(b: seq<Byte>, pos: nat, end: nat, x: seq<Byte>, y: seq<Byte>)
    requires pos <= end <= |b|
    ensures b[pos..end] == x + y
       <==> var p := pos + |x|; p <= end && b[pos..p] == x && b[p..end] == y
  {
    var c, m := b[pos..end], |x|;
    if c == x + y {
      assert c[..m] == x && c[m..] == y;
    }
    if pos + m <= end {
      assert c[..m] == b[pos..pos + m] && c[m..] == b[pos + m..end] && c == c[..m] + c[m..];
    }
  }

  lemma BodyParts(b: seq<Byte>, pos: nat, v: Bools, end: nat)
    requires |v.fixedArray| == 3 && pos <= end <= |b|
    ensures b[pos..end] == Body(v)
      <==> var p := pos + 6 + |v.oneDim|;
           p <= end && b[pos..pos + 6] == Header(v) && b[pos + 6..p] == Raw(v.oneDim) && b[p..end] == RowBytes(v.twoDim)
  {
    hide Header, RowBytes, Raw;
    HeaderIs(v);
    var p := pos + 6 + |v.oneDim|;
    TwoParts(b, pos, end, Header(v) + Raw(v.oneDim), RowBytes(v.twoDim));
    if p <= end {
      TwoParts(b, pos, p, Header(v), Raw(v.oneDim));
    }
  }

  lemma HeaderPieces(v: Bools)
    requires |v.fixedArray| == 3
    ensures Header(v) == [ToByte(v.oneBool)] + Raw(v.fixedArray) + [ToByte(v.numA)] + [ToByte(v.numB)]
  {
  }

  lemma HeaderBytes(b: seq<Byte>, pos: nat, v: Bools)
    requires pos + 6 <= |b| && |v.fixedArray| == 3
    ensures b[pos..pos + 6] == Header(v)
       <==> v.oneBool == FromByte(b[pos]) && v.fixedArray == Cooked(b[pos + 1..pos + 4])
            && v.numA == FromByte(b[pos + 4]) && v.numB == FromByte(b[pos + 5])
  {
    HeaderIs(v);
    HeaderPieces(v);
    hide Header, Raw, Cooked;
    var c := b[pos..pos + 6];
    SubSlice(b, pos, pos + 6, 1, 4);
    assert c[0] == b[pos] && c[4] == b[pos + 4] && c[5] == b[pos + 5];
    if c == Header(v) {
      CookedRaw(v.fixedArray);
    } else if v.fixedArray == Cooked(b[pos + 1..pos + 4]) {
      RawCooked(b[pos + 1..pos + 4]);
      assert c == [c[0]] + c[1..4] + [c[4]] + [c[5]];
    }
  }

  /** One element is decoded exactly from the bytes that encode it. */
  lemma ParseBodyIff(b: seq<Byte>, pos: nat, v: Bools, end: nat)
    requires pos <= |b|
    ensures ParseBody(b, pos) == Got(v, end) <==> WellFormed(v) && pos <= end <= |b| && b[pos..end] == Body(v)
  {
    hide Raw, Cooked, RowBytes, Header, Body, Take, TakeRows;
    if pos + 6 <= |b| {
      var numA, numB := FromByte(b[pos + 4]), FromByte(b[pos + 5]);
      var p := pos + 6 + |v.oneDim|;
      TakeIff(b, pos + 6, numA, v.oneDim, p);
      if numA >= 0 && p <= |b| {
        TakeRowsIff(b, p, numA, numB, v.twoDim, end);
      }
      if ParseBody(b, pos) == Got(v, end) {
        ParsedParts(b, pos, v, end);
      }
      if |v.fixedArray| == 3 {
        HeaderBytes(b, pos, v);
        if pos <= end <= |b| {
          BodyParts(b, pos, v, end);
        }
      }
    } else {
      BodyIsLong(v);
    }
  }

  lemma ParsedParts(b: seq<Byte>, pos: nat, v: Bools, end: nat)
    requires ParseBody(b, pos) == Got(v, end)
    ensures pos + 6 <= |b| && |v.fixedArray| == 3
    ensures Take(b, pos + 6, FromByte(b[pos + 4])) == Got(v.oneDim, pos + 6 + |v.oneDim|)
  {
  }

  lemma BodyIsLong(v: Bools)
    ensures |v.fixedArray| == 3 ==> |Body(v)| >= 6
  {
  }

  /** Decoding succeeds exactly on the encodings of well-formed messages, whatever
      follows them, and consumes exactly the encoding. */
  lemma ParseIff(h: U64, b: seq<Byte>, v: Bools, end: nat)
    ensures Parse(h, b) == Got(v, end) <==> WellFormed(v) && end <= |b| && b[..end] == Encoding(h, v)
  {
    hide Body, BigEndian, FromBigEndian, ParseBody;
    if |b| >= 8 {
      ParseBodyIff(b, 8, v, end);
      BigEndianInverse(b[..8]);
      HashRoundTrip(h);
      if b[..8] == BigEndian(h, 8) && 8 <= end <= |b| && b[8..end] == Body(v) {
        assert b[..end] == b[..8] + b[8..end];
      }
      if end <= |b| && b[..end] == Encoding(h, v) {
        assert b[..8] == b[..end][..8];
        assert b[8..end] == b[..end][8..];
      }
    }
  }

  /** The encoding, with any trailing bytes, decodes to the message. */
  lemma RoundTrip(h: U64, v: Bools, trailing: seq<Byte>)
    requires WellFormed(v)
    ensures Parse(h, Encoding(h, v) + trailing) == Got(v, |Encoding(h, v)|)
  {
    var b := Encoding(h, v) + trailing;
    assert b[..|Encoding(h, v)|] == Encoding(h, v);
    ParseIff(h, b, v, |Encoding(h, v)|);
  }

  // ----- encodings are self-delimiting -----

  /** Cut off anywhere, a valid encoding is refused, with the error return. */
  lemma PrefixIsRefused(h: U64, v: Bools, k: nat)
    requires WellFormed(v) && k < |Encoding(h, v)|
    ensures Parse(h, Encoding(h, v)[..k]) == Refused
  {
    var b := Encoding(h, v);
    RoundTrip(h, v, []);
    assert b + [] == b;
    CutShort(h, b, k);
  }

  lemma TakeCut(b: seq<Byte>, k: nat, pos: nat, n: int)
    requires k <= |b| && Take(b, pos, n).Got?
    ensures Take(b[..k], pos, n) == if pos + n <= k then Take(b, pos, n) else Refused
  {
    if pos + n <= k {
      assert b[..k][pos..pos + n] == b[pos..pos + n];
    }
  }

  lemma {:induction false} TakeRowsCut(b: seq<Byte>, k: nat, pos: nat, rows: nat, n: int)
    requires pos <= k <= |b| && TakeRows(b, pos, rows, n).Got?
    ensures pos <= TakeRows(b, pos, rows, n).end
    ensures TakeRows(b[..k], pos, rows, n) ==
      if TakeRows(b, pos, rows, n).end <= k then TakeRows(b, pos, rows, n) else Refused
  {
    if rows > 0 {
      TakeRowsCut(b, k, pos, rows - 1, n);
      TakeCut(b, k, TakeRows(b, pos, rows - 1, n).end, n);
    }
  }

  /** Decoding looks only at the bytes it consumes, and needs all of them. */
  lemma CutShort(h: U64, b: seq<Byte>, k: nat)
    requires k <= |b| && Parse(h, b).Got?
    ensures Parse(h, b[..k]) == if Parse(h, b).end <= k then Parse(h, b) else Refused
  {
    hide FromBigEndian;
    if k >= 14 {
      assert b[..k][..8] == b[..8];
      assert b[..k][9..12] == b[9..12];
      var numA, numB := FromByte(b[12]), FromByte(b[13]);
      TakeCut(b, k, 14, numA);
      if 14 + numA <= k {
        TakeRowsCut(b, k, 14 + numA, numA, numB);
      } else {
        RowsEndAfter(b, 14 + numA, numA, numB);
      }
    } else {
      RowsEndAfter(b, 14 + FromByte(b[12]), FromByte(b[12]), FromByte(b[13]));
      if k >= 8 { assert b[..k][..8] == b[..8]; }
    }
  }

  lemma {:induction false} RowsEndAfter(b: seq<Byte>, pos: nat, rows: nat, n: int)
    requires TakeRows(b, pos, rows, n).Got?
    ensures pos <= TakeRows(b, pos, rows, n).end
  {
    if rows > 0 {
      RowsEndAfter(b, pos, rows - 1, n);
    }
  }

  /** Distinct messages have distinct encodings, and none is a prefix of another. */
  lemma EncodingsArePrefixFree(h: U64, v: Bools, w: Bools)
    requires WellFormed(v) && WellFormed(w) && Encoding(h, v) <= Encoding(h, w)
    ensures v == w
  {
    var t := Encoding(h, w)[|Encoding(h, v)|..];
    assert Encoding(h, w) == Encoding(h, v) + t;
    RoundTrip(h, v, t);
    RoundTrip(h, w, []);
    assert Encoding(h, w) + [] == Encoding(h, w);
  }

  // ----- decoding from the middle of a buffer -----

  function Shift<T>(r: Parsed<T>, k: nat): Parsed<T> {
    if r.Got? then Got(r.value, r.end + k) else r
  }

  lemma TakeShift(b: seq<Byte>, k: nat, pos: nat, n: int)
    requires k <= |b|
    ensures Take(b, pos + k, n) == Shift(Take(b[k..], pos, n), k)
  {
    if 0 <= n && pos + k + n <= |b| {
      assert b[k..][pos..pos + n] == b[pos + k..pos + k + n];
    }
  }

  lemma {:induction false} TakeRowsShift(b: seq<Byte>, k: nat, pos: nat, rows: nat, n: int)
    requires k <= |b|
    ensures TakeRows(b, pos + k, rows, n) == Shift(TakeRows(b[k..], pos, rows, n), k)
  {
    if rows > 0 {
      TakeRowsShift(b, k, pos, rows - 1, n);
      var front := TakeRows(b[k..], pos, rows - 1, n);
      if front.Got? {
        TakeShift(b, k, front.end, n);
      }
    }
  }

  lemma ParseBodyShift(b: seq<Byte>, k: nat)
    requires k <= |b|
    ensures ParseBody(b, k) == Shift(ParseBody(b[k..], 0), k)
  {
    hide Take, TakeRows;
    if k + 6 <= |b| {
      var numA, numB := FromByte(b[k + 4]), FromByte(b[k + 5]);
      assert b[k..][1..4] == b[k + 1..k + 4];
      TakeShift(b, k, 6, numA);
      var oneDim := Take(b[k..], 6, numA);
      if oneDim.Got? && numA >= 0 {
        TakeRowsShift(b, k, oneDim.end, numA, numB);
      }
      TakeNegative(b[k..], 6, numA);
    }
  }

  lemma TakeNegative(b: seq<Byte>, pos: nat, n: int)
    ensures Take(b, pos, n).Got? ==> n >= 0
  {
  }

  // ----- several elements -----

  /** n elements of __lcmtest_bools_t_decode_array. */
  function ParseBodies(b: seq<Byte>, pos: nat, n: nat): Parsed<seq<Bools>> {
    if n == 0 then Got([], pos)
    else
      match ParseBodies(b, pos, n - 1)
      case Got(front, p) =>
        (match ParseBody(b, p)
         case Got(v, q) => Got(front + [v], q)
         case Refused => Refused
         case NoMeaning => NoMeaning)
      case Refused => Refused
      case NoMeaning => NoMeaning
  }

  /** They are decoded exactly from the bytes that encode them, one after the other. */
  lemma {:induction false} ParseBodiesIff(b: seq<Byte>, pos: nat, n: nat, vs: seq<Bools>, end: nat)
    requires pos <= |b|
    ensures ParseBodies(b, pos, n) == Got(vs, end)
       <==> |vs| == n && (forall i :: 0 <= i < n ==> WellFormed(vs[i])) && pos <= end <= |b|
            && b[pos..end] == Bodies(vs)
    decreases n
  {
    hide ParseBody, Body, WellFormed;
    if n == 0 {
      if vs == [] && pos <= end <= |b| {
        assert |b[pos..end]| == end - pos;
      }
    } else {
      if ParseBodies(b, pos, n) == Got(vs, end) {
        BodiesGot(b, pos, n, vs, end);
      }
      if |vs| == n && (forall i :: 0 <= i < n ==> WellFormed(vs[i])) && pos <= end <= |b| && b[pos..end] == Bodies(vs) {
        BodiesWritten(b, pos, n, vs, end);
      }
    }
  }

  lemma BodiesGot(b: seq<Byte>, pos: nat, n: nat, vs: seq<Bools>, end: nat)
    requires pos <= |b| && n > 0 && ParseBodies(b, pos, n) == Got(vs, end)
    ensures |vs| == n && (forall i :: 0 <= i < n ==> WellFormed(vs[i])) && pos <= end <= |b|
      && b[pos..end] == Bodies(vs)
    decreases n, 0
  {
    hide ParseBody, Body, WellFormed;
    var front := ParseBodies(b, pos, n - 1);
    var last := ParseBody(b, front.end);
    ParseBodiesIff(b, pos, n - 1, front.value, front.end);
    ParseBodyIff(b, front.end, last.value, end);
    assert vs == front.value + [last.value] && vs[..n - 1] == front.value;
    assert b[pos..end] == b[pos..front.end] + b[front.end..end];
  }

  lemma BodiesWritten(b: seq<Byte>, pos: nat, n: nat, vs: seq<Bools>, end: nat)
    requires pos <= |b| && n > 0
    requires |vs| == n && (forall i :: 0 <= i < n ==> WellFormed(vs[i])) && pos <= end <= |b|
      && b[pos..end] == Bodies(vs)
    ensures ParseBodies(b, pos, n) == Got(vs, end)
    decreases n, 0
  {
    hide ParseBody, Body, WellFormed;
    var front, last := vs[..n - 1], vs[n - 1];
    var p := pos + |Bodies(front)|;
    TwoParts(b, pos, end, Bodies(front), Body(last));
    ParseBodiesIff(b, pos, n - 1, front, p);
    ParseBodyIff(b, p, last, end);
    assert front + [last] == vs;
  }

  /** A failed or meaningless element makes all of them so. */
  lemma {:induction false} BodiesFail(b: seq<Byte>, pos: nat, a: nat, n: nat)
    requires a <= n && !ParseBodies(b, pos, a).Got?
    ensures ParseBodies(b, pos, n) == ParseBodies(b, pos, a)
    decreases n
  {
    hide ParseBody;
    if a < n {
      BodiesFail(b, pos, a, n - 1);
    }
  }

  lemma OneBodyParsed(b: seq<Byte>, pos: nat)
    ensures ParseBodies(b, pos, 1) ==
      match ParseBody(b, pos)
      case Got(v, q) => Got([v], q)
      case Refused => Refused
      case NoMeaning => NoMeaning
  {
    hide ParseBody;
    assert ParseBodies(b, pos, 0) == Got([], pos);
    if ParseBody(b, pos).Got? {
      assert [] + [ParseBody(b, pos).value] == [ParseBody(b, pos).value];
    }
  }

  // ----- which decoding allocates -----

  /** The element at pos gets as far as allocating a block. */
  predicate TakesBlocks(b: seq<Byte>, pos: nat) {
    pos + 6 <= |b| && FromByte(b[pos + 4]) > 0
  }

  /** One of n elements from pos on does. */
  predicate AnyTakesBlocks(b: seq<Byte>, pos: nat, n: nat) {
    n > 0 &&
    (AnyTakesBlocks(b, pos, n - 1) ||
     (ParseBodies(b, pos, n - 1).Got? && TakesBlocks(b, ParseBodies(b, pos, n - 1).end)))
  }

  lemma {:induction false} BlocksStayTaken(b: seq<Byte>, pos: nat, a: nat, n: nat)
    requires a <= n && !ParseBodies(b, pos, a).Got?
    ensures AnyTakesBlocks(b, pos, n) == AnyTakesBlocks(b, pos, a)
    decreases n
  {
    hide ParseBodies;
    if a < n {
      BodiesFail(b, pos, a, n - 1);
      BlocksStayTaken(b, pos, a, n - 1);
    }
  }

  lemma OneTakesBlocks(b: seq<Byte>, pos: nat)
    ensures AnyTakesBlocks(b, pos, 1) <==> TakesBlocks(b, pos)
  {
    assert ParseBodies(b, pos, 0) == Got([], pos);
    assert !AnyTakesBlocks(b, pos, 0);
  }

  /** An element refused after its fixed fields has allocated. */
  lemma RefusedTakesBlocks(b: seq<Byte>, pos: nat)
    requires ParseBody(b, pos) == Refused
    ensures TakesBlocks(b, pos) <==> pos + 6 <= |b|
  {
  }
}
