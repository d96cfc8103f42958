/** INT_BITS_STRLEN_BOUND and INT_STRLEN_BOUND of benchtests/port/intprops.h:
    how many characters the decimal text of an integer can need. */
module StrlenBound {
  import opened Arithmetic
  import opened CIntegers

  /** Line 143. */
  function IntBitsStrlenBound(b: nat): nat {
    (b * 146 + 484) / 485
  }

  /** Lines 156-158, where the type's signedness is known. */
  function IntStrlenBound(h: Host, t: IntType): nat {
    var s := if t.signed then 1 else 0;
    IntBitsStrlenBound(Width(h, t) - s) + s
  }

  // ----- powers of two between multiples of powers of ten -----

  predicate AtLeast(n: nat, c: nat, k: nat) {
    Pow(2, n) >= c * Pow(10, k)
  }

  predicate AtMost(n: nat, c: nat, k: nat) {
    Pow(2, n) <= c * Pow(10, k)
  }

  const DROPPED := 1_000_000_000_000_000_000

  lemma Exponents(m: nat, n: nat, c: nat, k: nat, d: nat, l: nat)
    ensures Pow(2, m + n) == Pow(2, m) * Pow(2, n)
    ensures (c * Pow(10, k)) * (d * Pow(10, l)) == (c * d) * Pow(10, k + l)
  {
    PowAdd(2, m, n);
    PowAdd(10, k, l);
    hide Pow;
    var x, y := Pow(10, k), Pow(10, l);
    Associate(c * x, d, y);
    assert c * x * d == c * d * x by { Associate(c, x, d); Associate(c, d, x); }
    Associate(c * d, x, y);
  }

  lemma DropDigits(e: nat, k: nat)
    ensures e * Pow(10, k + 18) == (e * DROPPED) * Pow(10, k)
  {
    assert Pow(10, 9) == 1_000_000_000;
    PowAdd(10, 9, 9);
    PowAdd(10, 18, k);
    hide Pow;
    assert Pow(10, 18) == DROPPED;
    Associate(e, DROPPED, Pow(10, k));
  }

  lemma AtLeastExact(m: nat, c: nat, k: nat, n: nat, d: nat, l: nat)
    requires AtLeast(m, c, k) && AtLeast(n, d, l)
    ensures AtLeast(m + n, c * d, k + l)
  {
    Exponents(m, n, c, k, d, l);
    hide Pow;
    ProductMono(c * Pow(10, k), d * Pow(10, l), Pow(2, m), Pow(2, n));
  }

  lemma AtLeastProduct(m: nat, c: nat, k: nat, n: nat, d: nat, l: nat, e: nat)
    requires AtLeast(m, c, k) && AtLeast(n, d, l) && e * DROPPED <= c * d
    ensures AtLeast(m + n, e, k + l + 18)
  {
    AtLeastExact(m, c, k, n, d, l);
    DropDigits(e, k + l);
    hide Pow;
    MulMono(e * DROPPED, c * d, Pow(10, k + l));
  }

  lemma AtMostExact(m: nat, c: nat, k: nat, n: nat, d: nat, l: nat)
    requires AtMost(m, c, k) && AtMost(n, d, l)
    ensures AtMost(m + n, c * d, k + l)
  {
    Exponents(m, n, c, k, d, l);
    hide Pow;
    ProductMono(Pow(2, m), Pow(2, n), c * Pow(10, k), d * Pow(10, l));
  }

  lemma AtMostProduct(m: nat, c: nat, k: nat, n: nat, d: nat, l: nat, e: nat)
    requires AtMost(m, c, k) && AtMost(n, d, l) && c * d <= e * DROPPED
    ensures AtMost(m + n, e, k + l + 18)
  {
    AtMostExact(m, c, k, n, d, l);
    DropDigits(e, k + l);
    hide Pow;
    MulMono(c * d, e * DROPPED, Pow(10, k + l));
  }

  lemma SmallPowers()
    ensures Pow(2, 5) == 32 && Pow(2, 11) == 2048 && Pow(2, 30) == 1073741824 && Pow(2, 36) == 68719476736
    ensures Pow(2, 60) == 1152921504606846976
    ensures Pow(10, 0) == 1
  {
    assert Pow(2, 5) == 32 && Pow(2, 6) == 64;
    PowAdd(2, 5, 6);
    PowAdd(2, 11, 4);
    assert Pow(2, 4) == 16;
    PowAdd(2, 15, 15);
    PowAdd(2, 30, 6);
    PowAdd(2, 30, 30);
  }

  /** 2^480 is just below 3121748550315992233 * 10^126. */
  lemma TwoTo480()
    ensures AtMost(480, 3121748550315992233, 126)
    ensures AtMost(120, 1329227995784915873, 18)
  {
    SmallPowers();
    hide Pow;
    AtMostProduct(60, 1152921504606846976, 0, 60, 1152921504606846976, 0, 1329227995784915873);
    AtMostProduct(120, 1329227995784915873, 18, 120, 1329227995784915873, 18, 1766847064778384330);
    AtMostProduct(240, 1766847064778384330, 54, 240, 1766847064778384330, 54, 3121748550315992233);
  }

  /** The arithmetic fact behind the constants: log10(2) < 146/485. */
  lemma TwoTo485()
    ensures Pow(2, 485) < Pow(10, 146)
  {
    TwoTo480();
    SmallPowers();
    TensPowers();
    hide Pow;
    AtMostExact(480, 3121748550315992233, 126, 5, 32, 0);
    TenTimes(99895953610111751456, 20, 126);
  }

  lemma TensPowers()
    ensures Pow(10, 20) == 100_000_000_000_000_000_000
    ensures Pow(10, 31) == 10_000_000_000_000_000_000_000_000_000_000
    ensures Pow(10, 33) == 1_000_000_000_000_000_000_000_000_000_000_000
  {
    assert Pow(10, 5) == 100000;
    PowAdd(10, 5, 5);
    PowAdd(10, 10, 10);
    PowAdd(10, 20, 10);
    assert Pow(10, 31) == 10 * Pow(10, 30);
    assert Pow(10, 33) == 100 * Pow(10, 31);
  }

  /** c * 10^k against 10^(j + k). */
  lemma TenTimes(c: nat, j: nat, k: nat)
    ensures c < Pow(10, j) ==> c * Pow(10, k) < Pow(10, j + k)
    ensures c > Pow(10, j) ==> c * Pow(10, k) > Pow(10, j + k)
  {
    PowAdd(10, j, k);
    hide Pow;
    if c < Pow(10, j) {
      MulMono(c + 1, Pow(10, j), Pow(10, k));
    } else if c > Pow(10, j) {
      MulMono(Pow(10, j) + 1, c, Pow(10, k));
    }
  }

  /** The next better fraction from below: 643/2136 < log10(2). */
  lemma TwoTo2136()
    ensures Pow(10, 643) < Pow(2, 2136)
  {
    SmallPowers();
    TensPowers();
    hide Pow;
    AtLeastProduct(60, 1152921504606846976, 0, 60, 1152921504606846976, 0, 1329227995784915872);
    AtLeastProduct(120, 1329227995784915872, 18, 120, 1329227995784915872, 18, 1766847064778384327);
    AtLeastProduct(240, 1766847064778384327, 54, 240, 1766847064778384327, 54, 3121748550315992222);
    AtLeastProduct(480, 3121748550315992222, 126, 480, 3121748550315992222, 126, 9745314011399999021);
    AtLeastProduct(960, 9745314011399999021, 270, 960, 9745314011399999021, 270, 94971145180789140248);
    AtLeastProduct(1920, 94971145180789140248, 558, 120, 1329227995784915872, 18, 126238304966058620644);
    AtLeastProduct(2040, 126238304966058620644, 594, 60, 1152921504606846976, 0, 145542856500486307489);
    AtLeastExact(2100, 145542856500486307489, 612, 36, 68719476736, 0);
    TenTimes(10001628941376155180176878075904, 31, 612);
  }

  lemma TwoTo2621()
    ensures Pow(2, 2621) < Pow(10, 789)
  {
    TwoTo480();
    SmallPowers();
    TensPowers();
    hide Pow;
    AtMostProduct(480, 3121748550315992233, 126, 480, 3121748550315992233, 126, 9745314011399999091);
    AtMostProduct(960, 9745314011399999091, 270, 960, 9745314011399999091, 270, 94971145180789141613);
    AtMostProduct(1920, 94971145180789141613, 558, 480, 3121748550315992233, 126, 296476034789978134923);
    AtMostProduct(2400, 296476034789978134923, 702, 120, 1329227995784915873, 18, 394084245522141628049);
    AtMostProduct(2520, 394084245522141628049, 738, 60, 1152921504606846976, 0, 454348201289241623796);
    AtMostExact(2580, 454348201289241623796, 756, 30, 1073741824, 0);
    AtMostExact(2610, 487852666383429452711438843904, 756, 11, 2048, 0);
    TenTimes(999122260753263519153026752315392, 33, 756);
  }

  // ----- the bound -----

  lemma RootOfPowers(x: nat, y: nat, n: nat)
    requires Pow(x, n) < Pow(y, n)
    ensures x < y
  {
    if y <= x {
      PowMonoBase(y, x, n);
    }
  }

  lemma CeilingTimes(b: nat)
    ensures 146 * b <= IntBitsStrlenBound(b) * 485
    ensures b >= 1 ==> IntBitsStrlenBound(b) >= 1
  {
  }

  lemma CeilingBelow(b: nat)
    requires b >= 1
    ensures IntBitsStrlenBound(b) >= 1 && 485 * (IntBitsStrlenBound(b) - 1) < 146 * b
  {
  }

  /** Any unsigned value of b bits has at most IntBitsStrlenBound(b) digits. */
  lemma BitsFit(b: nat)
    requires b >= 1
    ensures Pow2(b) < Pow(10, IntBitsStrlenBound(b))
  {
    var k := IntBitsStrlenBound(b);
    TwoTo485();
    PowMonoBase(Pow(2, 485), Pow(10, 146), b);
    PowPow(2, 485, b);
    PowPow(2, b, 485);
    assert 485 * b == b * 485;
    PowPow(10, 146, b);
    CeilingTimes(b);
    PowMonoExponent(10, 146 * b, k * 485);
    PowPow(10, k, 485);
    RootOfPowers(Pow(2, b), Pow(10, k), 485);
    Pow2IsPow(b);
  }

  // ----- decimal text -----

  function Digit(d: nat): (c: char)
    requires d < 10
  {
    "0123456789"[d]
  }

  function Digits(n: nat): (s: string)
    ensures |s| >= 1
  {
    if n < 10 then [Digit(n)] else Digits(n / 10) + [Digit(n % 10)]
  }

  function Text(v: int): string {
    if v < 0 then "-" + Digits(-v) else Digits(v)
  }

  function DigitValue(c: char): nat {
    if '0' <= c <= '9' then (c - '0') as nat else 0
  }

  function Value(s: string): nat {
    if s == [] then 0 else 10 * Value(s[..|s| - 1]) + DigitValue(s[|s| - 1])
  }

  lemma DigitReads(d: nat)
    requires d < 10
    ensures DigitValue(Digit(d)) == d
  {
  }

  /** Digits is the decimal text: reading it back gives the number. */
  lemma {:induction false} DigitsRead(n: nat)
    ensures Value(Digits(n)) == n
  {
    DigitReads(n % 10);
    if n < 10 {
      assert Digits(n)[..0] == [];
    } else {
      DigitsRead(n / 10);
      assert Digits(n)[..|Digits(n)| - 1] == Digits(n / 10);
    }
  }

  lemma {:induction false} DigitsLength(n: nat, k: nat)
    requires k >= 1 && n < Pow(10, k)
    ensures |Digits(n)| <= k
  {
    if n >= 10 {
      assert Pow(10, 1) == 10;
      assert Pow(10, k) == 10 * Pow(10, k - 1);
      DigitsLength(n / 10, k - 1);
    }
  }

  lemma MagnitudeFits(h: Host, t: IntType, v: int)
    requires Fits(h, t, v)
    ensures (if v < 0 then -v else v) <= Pow2(Width(h, t) - (if t.signed then 1 else 0))
    ensures v < 0 ==> t.signed
  {
  }

  /** Every value of every integer type fits INT_STRLEN_BOUND characters, minus sign included. */
  lemma StrlenBoundHolds(h: Host, t: IntType, v: int)
    requires Fits(h, t, v)
    ensures |Text(v)| <= IntStrlenBound(h, t)
  {
    var b := Width(h, t) - (if t.signed then 1 else 0);
    MagnitudeFits(h, t, v);
    BitsFit(b);
    CeilingTimes(b);
    hide Pow, Pow2, IntBitsStrlenBound;
    DigitsLength(if v < 0 then -v else v, IntBitsStrlenBound(b));
  }

  // ----- how far the bound is tight -----

  lemma {:induction false} DigitsAtLeast(n: nat, k: nat)
    requires k >= 1 && n >= Pow(10, k - 1)
    ensures |Digits(n)| >= k
  {
    if k > 1 {
      assert Pow(10, k - 1) == 10 * Pow(10, k - 2);
      DigitsAtLeast(n / 10, k - 1);
    }
  }

  /** No fraction with a denominator below 2621 lies between 643/2136 and 146/485. */
  lemma NothingBetween(m: nat, b: nat)
    requires b < 2621 && 485 * m < 146 * b
    ensures 2136 * m <= 643 * b
  {
    assert b == 2136 * (146 * b - 485 * m) + 485 * (2136 * m - 643 * b);
  }

  lemma FewerDigitsAreTooFew(m: nat, b: nat)
    requires b >= 1 && 2136 * m <= 643 * b
    ensures Pow(10, m) < Pow(2, b)
  {
    hide Pow;
    TwoTo2136();
    PowMonoBase(Pow(10, 643), Pow(2, 2136), b);
    PowMonoExponent(10, 2136 * m, 643 * b);
    assert m * 2136 == 2136 * m && b * 2136 == 2136 * b;
    PowPow(10, m, 2136);
    PowPow(10, 643, b);
    PowPow(2, 2136, b);
    PowPow(2, b, 2136);
    RootOfPowers(Pow(10, m), Pow(2, b), 2136);
  }

  /** Up to 2620 bits some value needs all the characters. */
  lemma TightBelow2621(b: nat)
    requires 1 <= b < 2621
    ensures |Digits(Pow2(b) - 1)| == IntBitsStrlenBound(b)
  {
    hide *;
    var k := IntBitsStrlenBound(b);
    CeilingBelow(b);
    NothingBetween(k - 1, b);
    FewerDigitsAreTooFew(k - 1, b);
    BitsFit(b);
    Pow2IsPow(b);
    DigitsAtLeast(Pow2(b) - 1, k);
    DigitsLength(Pow2(b) - 1, k);
  }

  /** So the bound of a type is no larger than needed: its maximum, or its minimum with the
      minus sign, has exactly so many characters. */
  lemma TypeBoundIsReached(h: Host, t: IntType)
    requires Width(h, t) - (if t.signed then 1 else 0) < 2621
    ensures |Text(if t.signed then Min(h, t) else Max(h, t))| == IntStrlenBound(h, t)
  {
    var b := Width(h, t) - if t.signed then 1 else 0;
    LastValue(h, t);
    StrlenBoundHolds(h, t, if t.signed then Min(h, t) else Max(h, t));
    hide *;
    TightBelow2621(b);
    if t.signed {
      var k := IntBitsStrlenBound(b);
      CeilingBelow(b);
      NothingBetween(k - 1, b);
      FewerDigitsAreTooFew(k - 1, b);
      Pow2IsPow(b);
      DigitsAtLeast(Pow2(b), k);
    }
    TextAndBound(h, t);
  }

  lemma LastValue(h: Host, t: IntType)
    ensures Fits(h, t, if t.signed then Min(h, t) else Max(h, t))
    ensures var b := Width(h, t) - if t.signed then 1 else 0;
      b >= 1 && if t.signed then Min(h, t) + Pow2(b) == 0 else Max(h, t) == Pow2(b) - 1
  {
  }

  lemma TextAndBound(h: Host, t: IntType)
    ensures t.signed ==>
      |Text(Min(h, t))| == 1 + |Digits(-Min(h, t))| && IntStrlenBound(h, t) == IntBitsStrlenBound(Width(h, t) - 1) + 1
    ensures !t.signed ==>
      |Text(Max(h, t))| == |Digits(Max(h, t))| && IntStrlenBound(h, t) == IntBitsStrlenBound(Width(h, t))
  {
  }

  /** With 2621 bits none does. */
  lemma NotTightAt2621()
    ensures IntBitsStrlenBound(2621) == 790 && |Digits(Pow2(2621) - 1)| == 789
  {
    hide Pow, Pow2, Digits;
    TwoTo2621();
    Pow2IsPow(2621);
    NothingBetween(788, 2618);
    FewerDigitsAreTooFew(788, 2618);
    Pow2IsPow(2618);
    Pow2Mono(2618, 2621);
    DigitsLength(Pow2(2621) - 1, 789);
    DigitsAtLeast(Pow2(2621) - 1, 789);
  }

  // ----- where the type's signedness cannot be asked for (line 135) -----

  /** INT_STRLEN_BOUND with _GL_SIGNED_TYPE_OR_EXPR always 1. */
  function IntStrlenBoundUnasked(h: Host, t: IntType): nat {
    IntBitsStrlenBound(Width(h, t) - 1) + 1
  }

  lemma OneMoreBit(b: nat)
    ensures IntBitsStrlenBound(b) <= IntBitsStrlenBound(b + 1) <= IntBitsStrlenBound(b) + 1
  {
  }

  /** It is the same bound for signed types, and for unsigned ones at most one more,
      namely exactly when the last bit needs no further digit. */
  lemma UnaskedOverestimate(h: Host, t: IntType)
    ensures t.signed ==> IntStrlenBoundUnasked(h, t) == IntStrlenBound(h, t)
    ensures !t.signed ==> IntStrlenBound(h, t) <= IntStrlenBoundUnasked(h, t) <= IntStrlenBound(h, t) + 1
    ensures IntStrlenBoundUnasked(h, t) > IntStrlenBound(h, t)
       <==> !t.signed && IntBitsStrlenBound(Width(h, t)) == IntBitsStrlenBound(Width(h, t) - 1)
  {
    OneMoreBit(Width(h, t) - 1);
    hide IntBitsStrlenBound;
  }

  /** So every value fits this bound too. */
  lemma UnaskedBoundHolds(h: Host, t: IntType, v: int)
    requires Fits(h, t, v)
    ensures |Text(v)| <= IntStrlenBoundUnasked(h, t)
  {
    StrlenBoundHolds(h, t, v);
    UnaskedOverestimate(h, t);
  }

  /** The unsigned types it overestimates have 1, 2, 4 and 16 bytes; 8 bytes are exact. */
  lemma OverestimatedSizes(h: Host, t: IntType)
    requires !t.signed
    ensures Width(h, t) in {8, 16, 32, 128} ==> IntStrlenBoundUnasked(h, t) == IntStrlenBound(h, t) + 1
    ensures Width(h, t) == 64 ==> IntStrlenBoundUnasked(h, t) == IntStrlenBound(h, t)
  {
  }
}
