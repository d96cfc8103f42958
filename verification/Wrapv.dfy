/** The fallback INT_<op>_WRAPV of benchtests/port/intprops.h: compute in an
    unsigned type, convert to the result's type, and report whether the stored
    low-order bits are the numerically correct answer. */
module Wrapv {
  import opened Arithmetic
  import opened CIntegers
  import opened RangeOverflow
  import opened MultiplyRange
  import opened Options

  datatype Op = Plus | Minus | Times

  /** The numerically correct answer. */
  function Exact(op: Op, x: int, y: int): int {
    match op
    case Plus => x + y
    case Minus => x - y
    case Times => x * y
  }

  function Apply(h: Host, op: Op, x: Exp, y: Exp): (e: Exp)
    ensures e.ty == Common(h, x.ty, y.ty)
  {
    match op
    case Plus => Add(h, x, y)
    case Minus => Sub(h, x, y)
    case Times => Mul(h, x, y)
  }

  function Overflow(h: Host, op: Op, a: Exp, b: Exp, tmin: Exp, tmax: Exp): Exp {
    match op
    case Plus => AddRangeOverflow(h, a, b, tmin, tmax)
    case Minus => SubtractRangeOverflow(h, a, b, tmin, tmax)
    case Times => MultiplyRangeOverflow(h, a, b, tmin, tmax)
  }

  /** The limits passed for a result of type t (lines 516-545): those of
      <limits.h>, whose types are promoted, and a plain 0 for unsigned types. */
  function TMin(h: Host, t: IntType): Exp {
    if t.signed then Exp(Promote(h, t), Some(Min(h, t))) else Lit(0)
  }

  function TMax(h: Host, t: IntType): Exp {
    Exp(Promote(h, t), Some(Max(h, t)))
  }

  /** The type used for the calculation: unsigned int, or t's own rank if higher. */
  function Calculator(t: IntType): IntType {
    if t.rank <= INT then UINT_T else IntType(t.rank, false)
  }

  function ViaUnsigned(h: Host, op: Op, a: Exp, b: Exp, t: IntType): Exp {
    var ut := Calculator(t);
    Cast(h, t, Apply(h, op, Cast(h, ut, a), Cast(h, ut, b)))
  }

  /** What is stored through r, of type t, and the value of the whole expression. */
  datatype Outcome = Outcome(stored: Exp, flag: Exp)

  function IntWrapv(h: Host, op: Op, a: Exp, b: Exp, t: IntType): Outcome {
    Outcome(ViaUnsigned(h, op, a, b, t), Overflow(h, op, a, b, TMin(h, t), TMax(h, t)))
  }

  // ----- arithmetic modulo a power of two -----

  /** x and y are congruent modulo m, with witness k. */
  predicate Differ(x: int, y: int, k: int, m: int) {
    x == y + k * m
  }

  /** Congruent numbers in one window of width m are equal. */
  lemma UniqueInWindow(x: int, y: int, k: int, m: nat, lo: int)
    requires Differ(x, y, k, m) && lo <= x < lo + m && lo <= y < lo + m
    ensures x == y
  {
    if k > 0 {
      MulMono(1, k, m);
    } else if k < 0 {
      MulMono(k, -1, m);
    }
  }

  lemma ModDiffers(v: int, m: nat) returns (k: int)
    requires m > 0
    ensures Differ(v % m, v, k, m)
  {
    k := -(v / m);
    assert v == (v / m) * m + v % m;
  }

  lemma ConvertDiffers(h: Host, t: IntType, v: int) returns (k: int)
    ensures Differ(Convert(h, t, v), v, k, 2 * Half(h, t))
  {
    k := ModDiffers(if t.signed then v + Half(h, t) else v, 2 * Half(h, t));
  }

  /** Conversion depends only on the residue. */
  lemma ConvertOfCongruent(h: Host, t: IntType, x: int, y: int, k: int)
    requires Differ(x, y, k, 2 * Half(h, t))
    ensures Convert(h, t, x) == Convert(h, t, y)
  {
    var i := ConvertDiffers(h, t, x);
    var j := ConvertDiffers(h, t, y);
    var m := 2 * Half(h, t);
    assert (i + k - j) * m == i * m + k * m - j * m;
    UniqueInWindow(Convert(h, t, x), Convert(h, t, y), i + k - j, m, Min(h, t));
  }

  lemma OpKeepsResidue(op: Op, x: int, y: int, i: int, j: int, m: int) returns (k: int)
    ensures Differ(Exact(op, x + i * m, y + j * m), Exact(op, x, y), k, m)
  {
    match op
    case Plus =>
      k := i + j;
      assert (i + j) * m == i * m + j * m;
    case Minus =>
      k := i - j;
      assert (i - j) * m == i * m - j * m;
    case Times =>
      k := x * j + i * y + i * j * m;
      ProductExpands(x, y, i, j, m);
  }

  lemma ProductExpands(x: int, y: int, i: int, j: int, m: int)
    ensures (x + i * m) * (y + j * m) == x * y + (x * j + i * y + i * j * m) * m
  {
    var p, q := i * m, j * m;
    assert (x + p) * (y + q) == x * y + x * q + p * y + p * q;
    assert x * q == (x * j) * m;
    assert p * y == (i * y) * m;
    assert p * q == (i * j * m) * m by {
      assert i * m * (j * m) == i * (m * j) * m;
      assert m * j == j * m;
      assert i * (j * m) == i * j * m;
    }
    assert (x * j + i * y + i * j * m) * m == (x * j) * m + (i * y) * m + (i * j * m) * m;
  }

  lemma ModulusDivides(h: Host, s: IntType, t: IntType) returns (k: int)
    requires Width(h, t) <= Width(h, s)
    ensures 2 * Half(h, s) == k * (2 * Half(h, t))
  {
    k := Pow2(Width(h, s) - Width(h, t));
    Pow2Add(Width(h, s) - Width(h, t), Width(h, t) - 1);
  }

  /** The residue of a calculation in the unsigned type s, seen modulo a narrower t. */
  lemma ResidueThrough(h: Host, op: Op, x: int, y: int, s: IntType, t: IntType)
    requires Width(h, t) <= Width(h, s)
    ensures Convert(h, t, Exact(op, Convert(h, s, x), Convert(h, s, y)) % (2 * Half(h, s)))
      == Convert(h, t, Exact(op, x, y))
  {
    hide Convert, Half;
    var m, w := 2 * Half(h, s), 2 * Half(h, t);
    var d := ModulusDivides(h, s, t);
    var i := ConvertDiffers(h, s, x);
    var j := ConvertDiffers(h, s, y);
    var k := OpKeepsResidue(op, x, y, i, j, m);
    var r := Exact(op, Convert(h, s, x), Convert(h, s, y));
    var n := ModDiffers(r, m);
    SumDiffers(r % m, r, Exact(op, x, y), n, k, m);
    FactorDiffers(r % m, Exact(op, x, y), n + k, d, w);
    ConvertOfCongruent(h, t, r % m, Exact(op, x, y), (n + k) * d);
  }

  lemma SumDiffers(x: int, y: int, z: int, i: int, j: int, m: int)
    requires Differ(x, y, i, m) && Differ(y, z, j, m)
    ensures Differ(x, z, i + j, m)
  {
    assert (i + j) * m == i * m + j * m;
  }

  lemma FactorDiffers(x: int, y: int, k: int, d: int, w: int)
    requires Differ(x, y, k, d * w)
    ensures Differ(x, y, k * d, w)
  {
    assert k * (d * w) == (k * d) * w;
  }

  lemma LimitsRange(h: Host, t: IntType)
    ensures Range(h, TMin(h, t), TMax(h, t))
    ensures TMin(h, t).val == Some(Min(h, t)) && TMax(h, t).val == Some(Max(h, t))
  {
    PromoteKeeps(h, t);
    LitIs(h, 0);
    Pow2Mono(1, Width(h, t) - 1);
  }

  lemma CalculatorIs(h: Host, t: IntType)
    ensures var u := Calculator(t);
      Width(h, t) <= Width(h, u) && Common(h, u, u) == u && !u.signed
  {
    HalfMono(h, t, Calculator(t));
  }

  /** The stored value is the exact answer, wrapped into the result's type. */
  lemma StoredIs(h: Host, op: Op, a: Exp, b: Exp, t: IntType)
    requires Defined(h, a) && Defined(h, b)
    ensures ViaUnsigned(h, op, a, b, t) == Exp(t, Some(Convert(h, t, Exact(op, a.val.value, b.val.value))))
  {
    hide Common, Half, Convert;
    var u := Calculator(t);
    CalculatorIs(h, t);
    var x, y := Cast(h, u, a), Cast(h, u, b);
    ConvertNear(h, u, x.val.value);
    ConvertNear(h, u, y.val.value);
    ResidueThrough(h, op, a.val.value, b.val.value, u, t);
  }

  // ----- results narrower than int, of unknown signedness -----

  /** _GL_INT_OP_WRAPV_SMALLISH where the type of *r cannot be named (lines 561-568):
      both ranges of its width are tried, and the sign of what was stored decides. */
  function Smallish(h: Host, op: Op, a: Exp, b: Exp, t: IntType): Outcome {
    var st, ut := IntType(t.rank, true), IntType(t.rank, false);
    var stored := Cast(h, t, ViaUnsigned(h, op, a, b, st));
    Outcome(stored,
      If(h, Overflow(h, op, a, b, TMin(h, st), TMax(h, st)),
        If(h, Overflow(h, op, a, b, TMin(h, ut), TMax(h, ut)), Lit(1), Lt(h, stored, Lit(0))),
        If(h, Overflow(h, op, a, b, TMin(h, ut), TMax(h, ut)), Le(h, Lit(0), stored), Lit(0))))
  }

  /** The overflow check for the limits of t. */
  lemma OverflowIs(h: Host, op: Op, a: Exp, b: Exp, t: IntType)
    requires Defined(h, a) && Defined(h, b)
    ensures Overflow(h, op, a, b, TMin(h, t), TMax(h, t))
         == Truth(!Fits(h, t, Exact(op, a.val.value, b.val.value))
                  || (op == Plus && WrapsUnseen(h, a, b, Min(h, t), Max(h, t))))
  {
    hide Common, Half, Promote, AddRangeOverflow, SubtractRangeOverflow, MultiplyRangeOverflow;
    var tmin, tmax := TMin(h, t), TMax(h, t);
    LimitsRange(h, t);
    AddRangeExact(h, a, b, tmin, tmax);
    SubtractRangeExact(h, a, b, tmin, tmax);
    MultiplyRangeExact(h, a, b, tmin, tmax);
  }

  lemma ConvertTwice(h: Host, s: IntType, t: IntType, v: int)
    requires s.rank == t.rank
    ensures Convert(h, t, Convert(h, s, v)) == Convert(h, t, v)
  {
    hide Convert;
    var k := ConvertDiffers(h, s, v);
    ConvertOfCongruent(h, t, Convert(h, s, v), v, k);
  }

  /** Where the sum, difference or product lies, once it has been stored in t. */
  lemma SignOfStored(h: Host, t: IntType, v: int)
    ensures var st, ut, x := IntType(t.rank, true), IntType(t.rank, false), Convert(h, t, v);
      && (!Fits(h, st, v) && Fits(h, ut, v) ==> (x < 0 <==> !Fits(h, t, v)))
      && (Fits(h, st, v) && !Fits(h, ut, v) ==> (0 <= x <==> !Fits(h, t, v)))
  {
    ConvertNear(h, t, v);
    SameHalf(h, t, true);
    SameHalf(h, t, false);
    hide Half;
    if Half(h, t) <= v < 2 * Half(h, t) && t.signed {
      ModOnce(v + Half(h, t), 2 * Half(h, t));
    }
  }

  lemma SameHalf(h: Host, t: IntType, signed: bool)
    ensures Half(h, IntType(t.rank, signed)) == Half(h, t)
  {
  }

  lemma FlagOf(h: Host, s: bool, u: bool, stored: Exp, o: bool)
    requires Defined(h, stored)
    requires o == if s then u || stored.val.value < 0 else u && 0 <= stored.val.value
    ensures If(h, Truth(s), If(h, Truth(u), Lit(1), Lt(h, stored, Lit(0))),
                            If(h, Truth(u), Le(h, Lit(0), stored), Lit(0))) == Truth(o)
  {
    hide Common, Half, Lt, Le, If;
    IsNegative(h, stored);
    var neg, pos := Lt(h, stored, Lit(0)), Le(h, Lit(0), stored);
    IfTruth(h, u, Lit(1), neg, u || stored.val.value < 0);
    IfTruth(h, u, pos, Lit(0), u && 0 <= stored.val.value);
    IfTruth(h, s, If(h, Truth(u), Lit(1), neg), If(h, Truth(u), pos, Lit(0)), o);
  }

  /** Not knowing the type costs nothing: the outcome is that of the version that knows it. */
  lemma SmallishIsIntWrapv(h: Host, op: Op, a: Exp, b: Exp, t: IntType)
    requires Defined(h, a) && Defined(h, b)
    ensures Smallish(h, op, a, b, t) == IntWrapv(h, op, a, b, t)
  {
    hide Common, Half, Promote, Convert, Overflow, If, Lt, Le, ViaUnsigned, TMin, TMax;
    var st, ut, v := IntType(t.rank, true), IntType(t.rank, false), Exact(op, a.val.value, b.val.value);
    StoredIs(h, op, a, b, st);
    StoredIs(h, op, a, b, t);
    ConvertTwice(h, st, t, v);
    OverflowIs(h, op, a, b, st);
    OverflowIs(h, op, a, b, ut);
    OverflowIs(h, op, a, b, t);
    SignOfStored(h, t, v);
    var ws := op == Plus && WrapsUnseen(h, a, b, Min(h, st), Max(h, st));
    var o := !Fits(h, t, v) || (op == Plus && WrapsUnseen(h, a, b, Min(h, t), Max(h, t)));
    FlagOf(h, !Fits(h, st, v) || ws, !Fits(h, ut, v), Exp(t, Some(Convert(h, t, v))), o);
  }

  /** INT_<op>_WRAPV for every combination of operand and result types: the
      flag is raised exactly when the stored value is wrong, or the operation
      is an addition of the kind WrapsUnseen describes. */
  lemma WrapvExact(h: Host, op: Op, a: Exp, b: Exp, t: IntType)
    requires Defined(h, a) && Defined(h, b)
    ensures var out, v := IntWrapv(h, op, a, b, t), Exact(op, a.val.value, b.val.value);
      && Is(h, out.stored, Convert(h, t, v)) && out.stored.ty == t
      && (out.stored.val == Some(v) <==> Fits(h, t, v))
      && out.flag == Truth(out.stored.val != Some(v) || (op == Plus && WrapsUnseen(h, a, b, Min(h, t), Max(h, t))))
  {
    hide Common, Half, Promote, Convert, ViaUnsigned, Overflow, TMin, TMax;
    StoredIs(h, op, a, b, t);
    ConvertNear(h, t, Exact(op, a.val.value, b.val.value));
    OverflowIs(h, op, a, b, t);
  }

  /** Subtraction and multiplication meet their documentation outright. */
  lemma MinusAndTimesMeetTheirDocumentation(h: Host, op: Op, a: Exp, b: Exp, t: IntType)
    requires Defined(h, a) && Defined(h, b) && op != Plus
    ensures var out, v := IntWrapv(h, op, a, b, t), Exact(op, a.val.value, b.val.value);
      out.flag == Truth(out.stored.val != Some(v))
  {
    hide *;
    WrapvExact(h, op, a, b, t);
  }

  /** Addition meets its documentation exactly when the sum is not WrapsUnseen. */
  lemma PlusMeetsItsDocumentationIff(h: Host, a: Exp, b: Exp, t: IntType)
    requires Defined(h, a) && Defined(h, b)
    ensures var out, v := IntWrapv(h, Plus, a, b, t), a.val.value + b.val.value;
      out.flag == Truth(out.stored.val != Some(v)) <==> !WrapsUnseen(h, a, b, Min(h, t), Max(h, t))
  {
    hide IntWrapv, Common, Half, Convert;
    WrapvExact(h, Plus, a, b, t);
  }

  /** A condition on each operand alone: an unsigned result, or no operand below its minimum. */
  lemma PlusIsExactAboveTheMinimum(h: Host, a: Exp, b: Exp, t: IntType)
    requires Defined(h, a) && Defined(h, b)
    requires t.signed ==> Min(h, t) <= a.val.value && Min(h, t) <= b.val.value
    ensures var out, v := IntWrapv(h, Plus, a, b, t), a.val.value + b.val.value;
      out.flag == Truth(out.stored.val != Some(v))
  {
    hide IntWrapv, Common, Half, Convert;
    WrapvExact(h, Plus, a, b, t);
  }

  /** The comment at lines 642-646 claims more: 200u + -250 fits signed char, yet is reported. */
  lemma PlusCanReportAFittingSum() returns (h: Host, a: Exp, b: Exp)
    ensures Is(h, a, 200) && Is(h, b, -250)
    ensures var out := IntWrapv(h, Plus, a, b, IntType(CHAR, true));
      out.flag == Truth(true) && out.stored.val == Some(200 + -250)
  {
    hide Common, IntWrapv, Half;
    h := Widths([8, 16, 32, 32, 64]);
    a, b := Exp(UINT_T, Some(200)), Exp(INT_T, Some(-250));
    HalfIs(h);
    CommonInt(h, UINT_T);
    WrapvExact(h, Plus, a, b, IntType(CHAR, true));
  }

  lemma HalfIs(h: Host)
    requires h.widths == [8, 16, 32, 32, 64]
    ensures Half(h, IntType(CHAR, true)) == 128 && Half(h, INT_T) == Half(h, UINT_T) >= 1024
  {
    Pow2Mono(10, 31);
    assert Pow2(7) == 128;
    assert Pow2(10) == 8 * Pow2(7);
  }
}
