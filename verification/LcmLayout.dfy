/** Where every byte of a message lies on the wire, and what it is: the layout behind the
    encoder and decoder of lcm/test/types/lcmtest_bools_t.c, field by field. */
module LcmLayout {
  import opened Arithmetic
  import opened LcmCodec
  import opened Words

  /** A number modulo 256. */
  function Octet(n: int): Byte {
    n % 0x100
  }

  /** The fingerprint, most significant byte first, and the fixed fields. */
  predicate FixedPart(h: U64, v: Bools, b: seq<Byte>)
    requires |v.fixedArray| == 3
  {
    && |b| >= 14
    && (forall i :: 0 <= i < 8 ==> b[i] == Octet(h / Pow256(7 - i)))
    && b[8] == Octet(v.oneBool)
    && (forall i :: 0 <= i < 3 ==> b[9 + i] == Octet(v.fixedArray[i]))
    && b[12] == v.numA && b[13] == Octet(v.numB)
  }

  /** The first array. */
  predicate FirstArray(v: Bools, b: seq<Byte>)
    requires |v.oneDim| == v.numA
  {
    |b| >= 14 + v.numA && forall i :: 0 <= i < v.numA ==> b[14 + i] == Octet(v.oneDim[i])
  }

  /** The place of element j of row i of the second array. */
  function ElementAt(v: Bools, i: nat, j: nat): int {
    14 + v.numA + i * v.numB + j
  }

  /** The rows of the second array, one after the other. */
  predicate SecondArray(v: Bools, b: seq<Byte>)
    requires |v.twoDim| == v.numA && AllOfLength(v.twoDim, v.numB)
  {
    forall i, j :: 0 <= i < v.numA && 0 <= j < v.numB ==>
      14 <= ElementAt(v, i, j) < |b| && b[ElementAt(v, i, j)] == Octet(v.twoDim[i][j])
  }

  /** b is v on the wire. */
  predicate Layout(h: U64, v: Bools, b: seq<Byte>)
    requires WellFormed(v)
  {
    |b| == 14 + v.numA + v.numA * v.numB && FixedPart(h, v, b) && FirstArray(v, b) && SecondArray(v, b)
  }

  // ----- numbers -----

  lemma QuotientIs(n: nat, m: nat, q: nat, r: nat)
    requires n == q * m + r && r < m
    ensures n / m == q
  {
    var p := n / m;
    assert n == p * m + n % m;
    if p < q {
      MulMono(p + 1, q, m);
    } else if q < p {
      MulMono(q + 1, p, m);
    }
  }

  lemma DivMod(n: nat, m: nat) returns (q: nat, r: nat)
    requires m > 0
    ensures q == n / m && n == q * m + r && r < m
  {
    q, r := n / m, n % m;
  }

  /** Dividing twice is dividing by the product. */
  lemma QuotientOfQuotient(n: nat, a: nat, b: nat)
    requires a > 0 && b > 0
    ensures a * b > 0 && n / a / b == n / (a * b)
  {
    var q, r := DivMod(n, a);
    var s, u := DivMod(q, b);
    Parts(n, a, b, q, r, s, u);
    QuotientIs(n, a * b, s, u * a + r);
  }

  lemma Parts(n: nat, a: nat, b: nat, q: nat, r: nat, s: nat, u: nat)
    requires n == q * a + r && r < a && q == s * b + u && u < b
    ensures n == s * (a * b) + (u * a + r)
    ensures 0 <= u * a + r < a * b
  {
    Distribute(s, b, u, a);
    SignOfProduct(u, a);
    SignOfProduct(a, b);
    MulMono(u + 1, b, a);
  }

  lemma Distribute(s: nat, b: nat, u: nat, a: nat)
    ensures (s * b + u) * a == s * (a * b) + u * a
  {
    assert (s * b + u) * a == (s * b) * a + u * a;
    assert (s * b) * a == s * (b * a);
    assert b * a == a * b;
  }

  /** The most significant byte comes first. */
  lemma {:induction false} BigEndianByte(n: nat, k: nat, i: nat)
    requires i < k
    ensures BigEndian(n, k)[i] == Octet(n / Pow256(k - 1 - i))
  {
    if i < k - 1 {
      BigEndianByte(n / 0x100, k - 1, i);
      QuotientOfQuotient(n, 0x100, Pow256(k - 2 - i));
    }
  }

  /** A number is read from its bytes in that order. */
  lemma FromBigEndianByte(b: seq<Byte>, i: nat)
    requires i < |b|
    ensures b[i] == Octet(FromBigEndian(b) / Pow256(|b| - 1 - i))
  {
    BigEndianInverse(b);
    BigEndianByte(FromBigEndian(b), |b|, i);
  }

  /** A non-negative number travels as itself, a negative one as itself plus 256. */
  lemma OneByte(v: Int8)
    ensures ToByte(v) == Octet(v)
    ensures 0 <= v ==> Octet(v) == v
    ensures v < 0 ==> Octet(v) == v + 0x100
    ensures FromByte(Octet(v)) == v
  {
  }

  // ----- rows -----

  lemma Place(rows: nat, n: nat, i: nat, j: nat)
    requires i < rows && j < n
    ensures 0 <= i * n + j < rows * n
    ensures rows * n == (rows - 1) * n + n
  {
    SignOfProduct(i, n);
    MulMono(i + 1, rows, n);
    MulMono(rows - 1, rows, n);
  }

  lemma {:induction false} RowsSize(rows: seq<seq<Int8>>, n: nat)
    requires AllOfLength(rows, n)
    ensures |RowBytes(rows)| == |rows| * n
  {
    if rows != [] {
      var m := |rows| - 1;
      RowsSize(rows[..m], n);
      MulMono(m, m + 1, n);
    }
  }

  lemma {:induction false} RowByte(rows: seq<seq<Int8>>, n: nat, i: nat, j: nat)
    requires AllOfLength(rows, n) && i < |rows| && j < n
    ensures i * n + j < |RowBytes(rows)| && RowBytes(rows)[i * n + j] == Octet(rows[i][j])
  {
    var m := |rows| - 1;
    RowsSize(rows, n);
    RowsSize(rows[..m], n);
    Place(|rows|, n, i, j);
    if i < m {
      Place(m, n, i, j);
      RowByte(rows[..m], n, i, j);
    } else {
      OneByte(rows[m][j]);
    }
  }

  // ----- messages -----

  lemma RowLength(v: Bools) returns (n: nat)
    requires WellFormed(v)
    ensures AllOfLength(v.twoDim, n) && v.numA * v.numB == v.numA * n
    ensures v.numA > 0 ==> n == v.numB
  {
    n := if v.numA > 0 then |v.twoDim[0]| else 0;
  }

  lemma HeaderLaid(v: Bools)
    requires |v.fixedArray| == 3 && v.numA >= 0
    ensures var b := Header(v);
      && |b| == 6 && b[0] == Octet(v.oneBool) && b[4] == v.numA && b[5] == Octet(v.numB)
      && forall i :: 0 <= i < 3 ==> b[1 + i] == Octet(v.fixedArray[i])
  {
    HeaderIs(v);
    hide Header;
    OneByte(v.oneBool);
    OneByte(v.numA);
    OneByte(v.numB);
    forall i | 0 <= i < 3 ensures Header(v)[1 + i] == Octet(v.fixedArray[i]) {
      assert Header(v)[1..4][i] == Header(v)[1 + i];
      OneByte(v.fixedArray[i]);
    }
  }

  lemma SizeIs(h: U64, v: Bools)
    requires WellFormed(v)
    ensures |Encoding(h, v)| == 14 + v.numA + v.numA * v.numB >= 14 + v.numA
    ensures Encoding(h, v)[8..] == Body(v)
  {
    hide Header, RowBytes, BigEndian;
    HeaderIs(v);
    var n := RowLength(v);
    RowsSize(v.twoDim, n);
  }

  lemma FixedPartLaid(h: U64, v: Bools)
    requires WellFormed(v)
    ensures FixedPart(h, v, Encoding(h, v))
  {
    hide Octet, Header, RowBytes, BigEndian, Pow256;
    var b := Encoding(h, v);
    HeaderLaid(v);
    assert b[8] == Header(v)[0] && b[12] == Header(v)[4] && b[13] == Header(v)[5];
    forall i | 0 <= i < 8 ensures b[i] == Octet(h / Pow256(7 - i)) {
      BigEndianByte(h, 8, i);
    }
    forall i | 0 <= i < 3 ensures b[9 + i] == Octet(v.fixedArray[i]) {
      assert b[9 + i] == Header(v)[1 + i];
    }
  }

  lemma FirstArrayLaid(h: U64, v: Bools)
    requires WellFormed(v)
    ensures FirstArray(v, Encoding(h, v))
  {
    hide Octet, Header, RowBytes, BigEndian, ToByte;
    HeaderIs(v);
    forall i | 0 <= i < v.numA ensures Encoding(h, v)[14 + i] == Octet(v.oneDim[i]) {
      OneByte(v.oneDim[i]);
    }
  }

  lemma ElementPlace(v: Bools, i: nat, j: nat, n: nat) returns (k: nat)
    requires AllOfLength(v.twoDim, n) && n == v.numB && i < |v.twoDim| && j < n
    ensures ElementAt(v, i, j) == 14 + v.numA + k
    ensures k < |RowBytes(v.twoDim)| && RowBytes(v.twoDim)[k] == Octet(v.twoDim[i][j])
  {
    hide RowBytes, Octet, AllOfLength;
    RowByte(v.twoDim, n, i, j);
    k := i * n + j;
  }

  lemma ElementLaid(h: U64, v: Bools, i: nat, j: nat)
    requires WellFormed(v) && i < v.numA && j < v.numB
    ensures 14 <= ElementAt(v, i, j) < |Encoding(h, v)|
    ensures Encoding(h, v)[ElementAt(v, i, j)] == Octet(v.twoDim[i][j])
  {
    hide *;
    SizeIs(h, v);
    SizesOf(v);
    var k := ElementPlace(v, i, j, v.numB);
    InLastPart(Encoding(h, v), v, k);
  }

  lemma SizesOf(v: Bools)
    requires WellFormed(v)
    ensures |v.fixedArray| == 3 && |v.oneDim| == v.numA == |v.twoDim| && AllOfLength(v.twoDim, v.numB)
    ensures forall i :: 0 <= i < v.numA ==> |v.twoDim[i]| == v.numB
  {
  }

  lemma SecondArrayLaid(h: U64, v: Bools)
    requires WellFormed(v)
    ensures SecondArray(v, Encoding(h, v))
  {
    hide Octet, Encoding, ElementAt;
    forall i, j | 0 <= i < v.numA && 0 <= j < v.numB
      ensures 14 <= ElementAt(v, i, j) < |Encoding(h, v)|
      ensures Encoding(h, v)[ElementAt(v, i, j)] == Octet(v.twoDim[i][j])
    {
      ElementLaid(h, v, i, j);
    }
  }

  /** Encoding lays a message out like that. */
  lemma EncodingIsLaidOut(h: U64, v: Bools)
    requires WellFormed(v)
    ensures Layout(h, v, Encoding(h, v))
  {
    hide FixedPart, FirstArray, SecondArray, Encoding;
    SizeIs(h, v);
    FixedPartLaid(h, v);
    FirstArrayLaid(h, v);
    SecondArrayLaid(h, v);
  }

  lemma InLastPart(b: seq<Byte>, v: Bools, k: nat)
    requires |v.fixedArray| == 3 && |v.oneDim| == v.numA && k < |RowBytes(v.twoDim)|
    requires |b| >= 8 && b[8..] == Body(v)
    ensures 14 + v.numA + k < |b| && b[14 + v.numA + k] == RowBytes(v.twoDim)[k]
  {
    hide Header;
    HeaderIs(v);
    hide RowBytes;
    assert b[8..][6 + v.numA + k] == b[14 + v.numA + k];
  }

  /** Nothing else is on the wire: two byte sequences laid out for the same message are the same. */
  lemma LayoutDetermines(h: U64, v: Bools, b: seq<Byte>, c: seq<Byte>)
    requires WellFormed(v) && Layout(h, v, b) && Layout(h, v, c)
    ensures b == c
  {
    hide Octet, Pow256;
    forall k | 0 <= k < |b| ensures b[k] == c[k] {
      if k >= 14 + v.numA {
        var n := RowLength(v);
        var i, j := RowOf(v.numA, n, k - 14 - v.numA);
        assert b[ElementAt(v, i, j)] == Octet(v.twoDim[i][j]);
      } else if k >= 14 {
        assert b[14 + (k - 14)] == Octet(v.oneDim[k - 14]);
      } else if 9 <= k < 12 {
        assert b[9 + (k - 9)] == Octet(v.fixedArray[k - 9]);
      }
    }
  }

  lemma RowOf(rows: nat, n: nat, k: nat) returns (i: nat, j: nat)
    requires k < rows * n
    ensures i < rows && j < n && k == i * n + j
  {
    assert n > 0 by { SignOfProduct(rows, n); }
    i, j := DivMod(k, n);
    if i >= rows { MulMono(rows, i, n); }
  }

  /** Exactly the encoding has that layout. */
  lemma LayoutIff(h: U64, v: Bools, b: seq<Byte>)
    requires WellFormed(v)
    ensures Layout(h, v, b) <==> b == Encoding(h, v)
  {
    hide Layout, Encoding;
    EncodingIsLaidOut(h, v);
    if Layout(h, v, b) {
      LayoutDetermines(h, v, b, Encoding(h, v));
    }
  }

  /** Decoding succeeds exactly on bytes laid out for a well-formed message, and yields it. */
  lemma ParsedIff(h: U64, b: seq<Byte>, v: Bools, end: nat)
    ensures Parse(h, b) == Got(v, end) <==> WellFormed(v) && end <= |b| && Layout(h, v, b[..end])
  {
    hide Layout, Encoding, Parse;
    ParseIff(h, b, v, end);
    if WellFormed(v) && end <= |b| {
      LayoutIff(h, v, b[..end]);
    }
  }
}
