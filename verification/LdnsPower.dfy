/** ldns_power of ldns/config/ldns/util.h: exponentiation by squaring in a long. */
module LdnsPower {
  import opened Arithmetic
  import opened CIntegers
  import opened Options

  const LONG_T := IntType(LONG, true)

  function Abs(x: int): nat {
    if x < 0 then -x else x
  }

  lemma AbsProduct(x: int, y: int)
    ensures Abs(x * y) == Abs(x) * Abs(y)
    ensures Abs(x) >= 2 ==> Abs(x * y) >= 2 * Abs(y)
  {
    MulNegated(x, y);
    SignOfProduct(x, y);
    if Abs(x) >= 2 {
      MulMono(2, Abs(x), Abs(y));
    }
  }

  lemma {:induction false} PowGrows(a: int, n: nat)
    ensures Abs(a) >= 2 && n >= 1 ==> Abs(Pow(a, n)) >= 2
    ensures Abs(a) <= 1 ==> Abs(Pow(a, n)) <= 1
    ensures a != 0 ==> Pow(a, n) != 0
  {
    if n > 0 {
      PowGrows(a, n - 1);
      AbsProduct(a, Pow(a, n - 1));
      if Abs(a) <= 1 {
        MulMono(Abs(a), 1, Abs(Pow(a, n - 1)));
      }
    }
  }

  /** Once a power of a has left the range of a long, every higher power has. */
  lemma OverflowIsFinal(h: Host, a: int, m: nat, n: nat)
    requires m <= n && !Fits(h, LONG_T, Pow(a, m))
    ensures !Fits(h, LONG_T, Pow(a, n))
  {
    hide Half;
    Pow2Mono(1, Width(h, LONG_T) - 1);
    LongHoldsOne(h);
    PowGrows(a, m);
    PowGrows(a, n - m);
    PowAdd(a, n - m, m);
    AbsProduct(Pow(a, n - m), Pow(a, m));
  }

  lemma LongHoldsOne(h: Host)
    ensures Half(h, LONG_T) >= 2
  {
    Pow2Mono(1, Width(h, LONG_T) - 1);
  }

  /** One multiplication in a long: None where signed overflow would make it undefined. */
  function Times(h: Host, x: int, y: int): Option<int> {
    if Fits(h, LONG_T, x * y) then Some(x * y) else None
  }

  /** The power itself, 1 for an exponent below 1, with no overflow on the way
      unless the power does not fit. */
  method Power(h: Host, base: int, exponent: int) returns (r: Option<int>)
    requires Fits(h, LONG_T, base) && Fits(h, LONG_T, exponent)
    ensures exponent < 1 ==> r == Some(1)
    ensures exponent >= 1 ==> r == if Fits(h, LONG_T, Pow(base, exponent)) then Some(Pow(base, exponent)) else None
  {
    hide Half, Pow, Covered;
    var result, a, b := 1, base, exponent;
    ghost var i: nat, n: nat := 0, 1;
    PowersAtStart(base);
    if exponent >= 1 { CoveredAtStart(exponent); }
    while b > 0
      invariant exponent < 1 ==> b < 1
      invariant exponent >= 1 ==> b >= 1 && Covered(i, n, b) == exponent
      invariant result == Pow(base, i) && a == Pow(base, n) && n >= 1
      invariant exponent < 1 ==> result == 1
    {
      Halved(i, n, b);
      if b % 2 == 1 {
        PowAdd(base, i, n);
        match Times(h, result, a) {
          case None =>
            OverflowIsFinal(h, base, i + n, exponent);
            return None;
          case Some(v) => result := v;
        }
        i := i + n;
        if b == 1 {
          return Some(result);
        }
      }
      PowAdd(base, n, n);
      match Times(h, a, a) {
        case None =>
          OverflowIsFinal(h, base, 2 * n, exponent);
          return None;
        case Some(v) => a := v;
      }
      n := 2 * n;
      b := b / 2;
    }
    return Some(result);
  }

  lemma PowersAtStart(a: int)
    ensures Pow(a, 0) == 1 && Pow(a, 1) == a
  {
    assert Pow(a, 1) == a * Pow(a, 0);
  }

  lemma CoveredAtStart(b: nat)
    ensures Covered(0, 1, b) == b
  {
  }

  /** The exponent still represented by result = base^i, a = base^n and b. */
  function Covered(i: nat, n: nat, b: nat): nat {
    i + n * b
  }

  lemma Halved(i: nat, n: nat, b: nat)
    requires b >= 1
    ensures b % 2 == 1 ==> i + n <= Covered(i, n, b) && Covered(i + n, 2 * n, b / 2) == Covered(i, n, b)
    ensures b % 2 == 0 ==> Covered(i, 2 * n, b / 2) == Covered(i, n, b)
    ensures b == 1 ==> Covered(i, n, b) == i + n
    ensures b >= 2 ==> 2 * n <= Covered(i, n, b)
  {
    var k := b / 2;
    assert n * (2 * k) == (2 * n) * k;
    if b % 2 == 1 {
      assert n * (2 * k + 1) == n * (2 * k) + n;
    }
    if b >= 2 {
      MulMono(2, b, n);
    }
  }
}
