/** Facts about powers, products and quotients that the other modules share. */
module Arithmetic {

  function Pow2(n: nat): (p: nat)
    ensures p >= 1
  {
    if n == 0 then 1 else 2 * Pow2(n - 1)
  }

  lemma {:induction false} Pow2Mono(m: nat, n: nat)
    requires m <= n
    ensures Pow2(m) <= Pow2(n)
    ensures m < n ==> 2 * Pow2(m) <= Pow2(n)
    decreases n
  {
    if m < n {
      Pow2Mono(m, n - 1);
    }
  }

  lemma {:induction false} Pow2Add(m: nat, n: nat)
    ensures Pow2(m + n) == Pow2(m) * Pow2(n)
  {
    if m > 0 {
      Pow2Add(m - 1, n);
      assert m + n - 1 == m - 1 + n;
      calc {
        Pow2(m + n);
        2 * Pow2(m - 1 + n);
        2 * (Pow2(m - 1) * Pow2(n));
        (2 * Pow2(m - 1)) * Pow2(n);
      }
    }
  }

  function Pow(b: int, n: nat): (p: int)
    ensures b >= 0 ==> p >= 0
    ensures b >= 1 ==> p >= 1
  {
    if n == 0 then 1 else b * Pow(b, n - 1)
  }

  lemma {:induction false} PowAdd(b: int, m: nat, n: nat)
    ensures Pow(b, m + n) == Pow(b, m) * Pow(b, n)
  {
    if m > 0 {
      PowAdd(b, m - 1, n);
      assert m - 1 + n == m + n - 1;
      PowStep(b, m + n);
      PowStep(b, m);
      hide Pow;
      Associate(b, Pow(b, m - 1), Pow(b, n));
    }
  }

  lemma PowStep(b: int, n: nat)
    requires n > 0
    ensures Pow(b, n) == b * Pow(b, n - 1)
  {
  }

  lemma Associate(x: int, y: int, z: int)
    ensures x * (y * z) == (x * y) * z
  {
  }

  lemma {:induction false} PowPow(b: int, m: nat, n: nat)
    ensures Pow(b, m * n) == Pow(Pow(b, m), n)
  {
    if n > 0 {
      PowPow(b, m, n - 1);
      assert m * n == m + m * (n - 1);
      PowAdd(b, m, m * (n - 1));
    } else {
      assert m * n == 0;
    }
  }

  lemma {:induction false} PowMonoBase(a: nat, b: nat, n: nat)
    requires a <= b
    ensures Pow(a, n) <= Pow(b, n)
    ensures a < b && n > 0 ==> Pow(a, n) < Pow(b, n)
  {
    if n > 0 {
      PowMonoBase(a, b, n - 1);
      var p, q := Pow(a, n - 1), Pow(b, n - 1);
      ProductMono(a, p, b, q);
    }
  }

  lemma ProductMono(a: nat, p: nat, b: nat, q: nat)
    requires a <= b && p <= q
    ensures a * p <= b * q
    ensures a < b && q >= 1 ==> a * p < b * q
  {
    assert b * q == a * p + a * (q - p) + (b - a) * q;
  }

  lemma {:induction false} PowMonoExponent(b: nat, m: nat, n: nat)
    requires b >= 1 && m <= n
    ensures Pow(b, m) <= Pow(b, n)
  {
    PowAdd(b, m, n - m);
    assert Pow(b, m) * 1 <= Pow(b, m) * Pow(b, n - m);
  }

  lemma {:induction false} Pow2IsPow(n: nat)
    ensures Pow2(n) == Pow(2, n)
  {
    if n > 0 {
      Pow2IsPow(n - 1);
    }
  }

  // ----- products -----

  lemma MulMono(x: int, y: int, m: nat)
    requires x <= y
    ensures x * m <= y * m && (x + 1) * m == x * m + m
  {
    var d: nat := y - x;
    assert d * m >= 0;
    assert y * m == x * m + d * m;
  }

  lemma MulNegated(x: int, y: int)
    ensures (-x) * (-y) == x * y && x * (-y) == -(x * y) && (-x) * y == -(x * y)
  {
  }

  lemma SignOfProduct(x: int, y: int)
    ensures x * y == y * x
    ensures (x < 0 && y < 0) || (x >= 0 && y >= 0) ==> x * y >= 0
    ensures x <= 0 <= y || y <= 0 <= x ==> x * y <= 0
  {
  }

  lemma OppositeProduct(x: int, y: int)
    requires x < 0 < y || y < 0 < x
    ensures x * y < 0
  {
  }

  // ----- quotients and remainders -----

  lemma ModOnce(v: int, m: int)
    requires m > 0 && -m <= v < 2 * m
    ensures v % m == if v < 0 then v + m else if v < m then v else v - m
  {
    if v < 0 {
      assert v == -1 * m + (v + m);
    } else if v >= m {
      assert v == m + (v - m);
    }
  }

  lemma FloorBound(v: nat, w: nat, k: int)
    requires w > 0
    ensures v < k * w <==> v / w < k
  {
    var q, r := v / w, v % w;
    assert v == q * w + r;
    if q < k {
      assert (q + 1) * w <= k * w;
    } else {
      assert k * w <= q * w;
    }
  }

  lemma DivShrinks(p: nat, q: nat)
    requires q > 0
    ensures 0 <= p / q <= p
    ensures q > 1 && p > 0 ==> p / q < p
  {
    MulGrows(p, q);
    FloorBound(p, q, 0);
    FloorBound(p, q, p + 1);
    FloorBound(p, q, p);
  }

  lemma MulGrows(p: nat, q: nat)
    requires q > 0
    ensures p < (p + 1) * q && 0 * q == 0
    ensures q > 1 && p > 0 ==> p < p * q
  {
    assert (p + 1) * q == (p + 1) * (q - 1) + p + 1;
    if q > 1 && p > 0 {
      assert p * q == p * (q - 2) + 2 * p;
    }
  }

  lemma ExactDivision(k: int, m: nat)
    requires m > 0
    ensures k * m / m == k
  {
    var v := k * m;
    FactorsAgree(m, k, v / m, v % m);
  }

  lemma FactorsAgree(m: nat, k: int, q: int, r: int)
    requires 0 <= r < m && k * m == q * m + r
    ensures k == q
  {
    if k > q {
      MulMono(q + 1, k, m);
    } else if k < q {
      MulMono(k + 1, q, m);
    }
  }

  lemma FloorNear(v: int, m: nat)
    requires v < 0 < m
    ensures v <= v / m < 0
  {
    NegativeFactor(v, m, v / m, v % m);
  }

  lemma NegativeFactor(v: int, m: int, q: int, r: int)
    requires v < 0 <= r < m && v == q * m + r
    ensures v <= q < 0
  {
    if q >= 0 {
      MulMono(0, q, m);
    } else {
      MulMono(q, -1, m);
      MulMono(q + 1, 0, m - 1);
      assert (q + 1) * m == (q + 1) * (m - 1) + (q + 1);
    }
  }
}
