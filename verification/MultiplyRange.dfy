/** _GL_INT_MULTIPLY_RANGE_OVERFLOW of benchtests/port/intprops.h: does a product leave TMIN..TMAX? */
module MultiplyRange {
  import opened Arithmetic
  import opened CIntegers
  import opened TypeQueries
  import opened RangeOverflow
  import opened Options

  // ----- the macro (lines 675-695), one function for each leaf of its decision tree -----

  function MultiplyRangeOverflow(h: Host, a: Exp, b: Exp, tmin: Exp, tmax: Exp): Exp {
    If(h, Lt(h, b, Lit(0)),
      TimesNegative(h, a, b, tmin, tmax),
      If(h, Eq(h, b, Lit(0)), Lit(0), TimesPositive(h, a, b, tmin, tmax)))
  }

  function TimesNegative(h: Host, a: Exp, b: Exp, tmin: Exp, tmax: Exp): (e: Exp)
    ensures e.ty == INT_T
  {
    If(h, Lt(h, a, Lit(0)),
      BothNegative(h, a, b, tmax),
      If(h, And(NegateOverflow(h, IntConvert(h, b, tmin)), Eq(h, b, Lit(-1))),
        TimesMinusOne(h, a, tmin),
        Lt(h, Div(h, tmin, b), a)))
  }

  function TimesPositive(h: Host, a: Exp, b: Exp, tmin: Exp, tmax: Exp): (e: Exp)
    ensures e.ty == INT_T
  {
    If(h, Lt(h, a, Lit(0)),
      If(h, And(NegateOverflow(h, IntConvert(h, a, tmin)), Eq(h, a, Lit(-1))),
        MinusOneTimes(h, b, tmin),
        Lt(h, Div(h, tmin, a), b)),
      Lt(h, Div(h, tmax, b), a))
  }

  function BothNegative(h: Host, a: Exp, b: Exp, tmax: Exp): (e: Exp)
    ensures e.ty == INT_T
  {
    If(h, ExprSigned(h, IntConvert(h, tmax, b)),
      Lt(h, a, Div(h, tmax, b)),
      Le(h, UnsignedQuotient(h, b, tmax), Sub(h, Lit(-1), a)))
  }

  /** The quotient the unsigned case uses, where -b may itself overflow. */
  function UnsignedQuotient(h: Host, b: Exp, tmax: Exp): Exp {
    If(h, NegateOverflow(h, b),
      Shr(h, IntConvert(h, b, tmax), Width(h, Promote(h, b.ty)) - 1),
      Div(h, tmax, Neg(h, b)))
  }

  function TimesMinusOne(h: Host, a: Exp, tmin: Exp): (e: Exp)
    ensures e.ty == INT_T
  {
    If(h, ExprSigned(h, a),
      Lt(h, Lit(0), Add(h, a, tmin)),
      And(Lt(h, Lit(0), a), Lt(h, Sub(h, Lit(-1), tmin), Sub(h, a, Lit(1)))))
  }

  function MinusOneTimes(h: Host, b: Exp, tmin: Exp): (e: Exp)
    ensures e.ty == INT_T
  {
    If(h, ExprSigned(h, b),
      Lt(h, Lit(0), Add(h, b, tmin)),
      Lt(h, Sub(h, Lit(-1), tmin), Sub(h, b, Lit(1))))
  }

  // ----- products against quotients -----

  /** Truncating quotients decide products of every sign combination the macro asks about. */
  lemma QuotBound(x: int, y: int, lo: int, hi: int)
    requires lo <= 0 <= hi && y != 0
    ensures y < 0 && x < 0 ==> (hi < x * y <==> x < Quot(hi, y))
    ensures y < 0 && x >= 0 ==> (x * y < lo <==> Quot(lo, y) < x)
    ensures y > 0 && x >= 0 ==> (hi < x * y <==> Quot(hi, y) < x)
    ensures y > 0 && x < 0 ==> (x * y < lo <==> x < Quot(lo, y))
  {
    hide Quot;
    if y < 0 {
      if x < 0 { QuotNN(x, y, hi); } else { QuotPN(x, y, lo); }
    } else {
      if x < 0 { QuotNP(x, y, lo); } else { QuotPP(x, y, hi); }
    }
  }

  lemma QuotNN(x: int, y: int, hi: nat)
    requires x < 0 && y < 0
    ensures hi < x * y <==> x < Quot(hi, y)
  {
    FloorBound(hi, -y, -x);
    MulNegated(x, y);
  }

  lemma QuotPN(x: int, y: int, lo: int)
    requires x >= 0 && y < 0 && lo <= 0
    ensures x * y < lo <==> Quot(lo, y) < x
  {
    FloorBound(-lo, -y, x);
    MulNegated(x, y);
  }

  lemma QuotNP(x: int, y: int, lo: int)
    requires x < 0 && y > 0 && lo <= 0
    ensures x * y < lo <==> x < Quot(lo, y)
  {
    FloorBound(-lo, y, -x);
    MulNegated(x, y);
  }

  lemma QuotPP(x: int, y: int, hi: nat)
    requires x >= 0 && y > 0
    ensures hi < x * y <==> Quot(hi, y) < x
  {
    FloorBound(hi, y, x);
  }

  // ----- division -----

  /** Division of operands that keep their values; only min / -1 overflows. */
  lemma DivIs(h: Host, x: Exp, y: Exp)
    requires Defined(h, x) && Defined(h, y) && y.val.value != 0
    requires Common(h, x.ty, y.ty).signed || (0 <= x.val.value && 0 <= y.val.value)
    requires y.val.value == -1 ==> 0 - Max(h, Common(h, x.ty, y.ty)) <= x.val.value
    ensures Is(h, Div(h, x, y), Quot(x.val.value, y.val.value))
    ensures Div(h, x, y).ty == Common(h, x.ty, y.ty) && Common(h, x.ty, y.ty).rank >= INT
  {
    hide Common, Half, Promote, Result, Quot;
    Operands(h, x, y);
    var c := Common(h, x.ty, y.ty);
    QuotSize(x.val.value, y.val.value, Half(h, c));
    ResultNear(h, c, Quot(x.val.value, y.val.value));
  }

  lemma QuotSize(v: int, w: int, m: nat)
    requires w != 0
    ensures v >= 0 && w > 0 ==> 0 <= Quot(v, w) <= v
    ensures v <= 0 && w < 0 ==> 0 <= Quot(v, w)
    ensures 0 - m <= v < m && (w == -1 ==> 0 - m < v) ==> 0 - m <= Quot(v, w) < m
  {
    var p, q := if v < 0 then -v else v, if w < 0 then -w else w;
    DivShrinks(p, q);
  }

  // ----- the leaves -----

  lemma BothNegativeSigned(h: Host, a: Exp, b: Exp, tmax: Exp)
    requires Defined(h, a) && Defined(h, b) && Defined(h, tmax)
    requires a.val.value < 0 && b.val.value < 0 < tmax.val.value && Common(h, tmax.ty, b.ty).signed
    ensures Lt(h, a, Div(h, tmax, b)) == Truth(tmax.val.value < a.val.value * b.val.value)
  {
    hide Common, Half, Promote, Lt, Div, Quot;
    DivIs(h, tmax, b);
    CompareIs(h, a, Div(h, tmax, b));
    QuotBound(a.val.value, b.val.value, 0, tmax.val.value);
  }

  lemma ShiftedIs(h: Host, b: Exp, tmax: Exp)
    requires Defined(h, b) && Defined(h, tmax) && b.val.value < 0 < tmax.val.value
    requires !Common(h, tmax.ty, b.ty).signed && !Fits(h, Promote(h, b.ty), -b.val.value)
    ensures var c, q := Common(h, tmax.ty, b.ty), Shr(h, IntConvert(h, b, tmax), Width(h, Promote(h, b.ty)) - 1);
      q == Exp(c, Some(tmax.val.value / -b.val.value))
  {
    hide Common, Promote, IntConvert;
    ConvertIs(h, b, tmax);
    PromoteKeeps(h, b.ty);
    CommonOfPromoted(h, b.ty, tmax.ty);
    CommonKeeps(h, b.ty, tmax.ty);
    CommonInt(h, Common(h, tmax.ty, b.ty));
    assert -b.val.value == Half(h, Promote(h, b.ty));
  }

  lemma NegIs(h: Host, x: Exp)
    requires Defined(h, x) && Fits(h, Promote(h, x.ty), -x.val.value)
    ensures Is(h, Neg(h, x), -x.val.value) && Neg(h, x).ty == Promote(h, x.ty)
  {
    hide Promote, Half, Result;
    ResultNear(h, Promote(h, x.ty), -x.val.value);
  }

  lemma UnsignedQuotientIs(h: Host, b: Exp, tmax: Exp)
    requires Defined(h, b) && Defined(h, tmax) && b.val.value < 0 < tmax.val.value
    requires !Common(h, tmax.ty, b.ty).signed
    ensures UnsignedQuotient(h, b, tmax) == Exp(Common(h, tmax.ty, b.ty), Some(tmax.val.value / -b.val.value))
    ensures Is(h, UnsignedQuotient(h, b, tmax), tmax.val.value / -b.val.value)
  {
    hide Common, Half, Promote, If, Neg, Div, Shr, NegateOverflow, IntConvert;
    var c, p := Common(h, tmax.ty, b.ty), Promote(h, b.ty);
    CommonKeeps(h, tmax.ty, b.ty);
    CommonInt(h, c);
    NegateOverflowExact(h, b);
    CommonOfPromoted(h, b.ty, tmax.ty);
    ConvertIs(h, b, tmax);
    DivShrinks(tmax.val.value, -b.val.value);
    var over := !Fits(h, p, -b.val.value);
    if over {
      ShiftedIs(h, b, tmax);
    } else {
      NegIs(h, b);
      DivIs(h, tmax, Neg(h, b));
    }
    ChoiceOf(h, over, Shr(h, IntConvert(h, b, tmax), Width(h, p) - 1), Div(h, tmax, Neg(h, b)), c);
  }

  lemma FloorBoundNegated(v: nat, x: int, y: int)
    requires x < 0 && y < 0
    ensures v / -y <= -1 - x <==> v < x * y
    ensures 0 <= v / -y
  {
    DivShrinks(v, -y);
    FloorBound(v, -y, -x);
    assert (-x) * (-y) == x * y;
  }

  lemma BothNegativeUnsigned(h: Host, a: Exp, b: Exp, tmax: Exp)
    requires Defined(h, a) && Defined(h, b) && Defined(h, tmax)
    requires a.val.value < 0 && b.val.value < 0 < tmax.val.value && !Common(h, tmax.ty, b.ty).signed
    ensures Le(h, UnsignedQuotient(h, b, tmax), Sub(h, Lit(-1), a)) == Truth(tmax.val.value < a.val.value * b.val.value)
  {
    hide Common, Half, Promote, Le, Sub, UnsignedQuotient;
    LitIs(h, -1);
    UnsignedQuotientIs(h, b, tmax);
    SubDownIs(h, Lit(-1), a);
    FloorBoundNegated(tmax.val.value, a.val.value, b.val.value);
    CompareIs(h, UnsignedQuotient(h, b, tmax), Sub(h, Lit(-1), a));
  }

  lemma BothNegativeIs(h: Host, a: Exp, b: Exp, tmax: Exp)
    requires Defined(h, a) && Defined(h, b) && Defined(h, tmax)
    requires a.val.value < 0 && b.val.value < 0 < tmax.val.value
    ensures BothNegative(h, a, b, tmax) == Truth(tmax.val.value < a.val.value * b.val.value)
  {
    hide Common, Half, Promote, Lt, Le, Div, If, Sub, ExprSigned, IntConvert, UnsignedQuotient, Quot;
    var q := UnsignedQuotient(h, b, tmax);
    ConvertSigned(h, tmax, b);
    var s := Common(h, tmax.ty, b.ty).signed;
    if s {
      BothNegativeSigned(h, a, b, tmax);
    } else {
      BothNegativeUnsigned(h, a, b, tmax);
    }
    IfTruth(h, s, Lt(h, a, Div(h, tmax, b)), Le(h, q, Sub(h, Lit(-1), a)), tmax.val.value < a.val.value * b.val.value);
  }

  /** -1 times x, for a tmin whose negation overflows; x must be positive. */
  lemma TimesMinusOneIs(h: Host, a: Exp, tmin: Exp)
    requires Defined(h, a) && Defined(h, tmin) && 0 <= a.val.value && tmin.ty.signed && tmin.val.value < 0
    ensures TimesMinusOne(h, a, tmin) == Truth(-a.val.value < tmin.val.value)
    ensures 0 < a.val.value ==> MinusOneTimes(h, a, tmin) == Truth(-a.val.value < tmin.val.value)
  {
    hide Common, Half, Promote, Lt, Add, Sub, If, ExprSigned;
    LitIs(h, -1);
    LitIs(h, 1);
    ExprSignedIs(h, a);
    IsNegative(h, a);
    var s := Promote(h, a.ty).signed;
    if s {
      PromoteKeeps(h, tmin.ty);
      SignedMeetSigned(h, a.ty, tmin.ty);
      AddOppositeIs(h, a, tmin);
      IsNegative(h, Add(h, a, tmin));
    } else if 0 < a.val.value {
      SubDownIs(h, Lit(-1), tmin);
      SubDownIs(h, a, Lit(1));
      CompareIs(h, Sub(h, Lit(-1), tmin), Sub(h, a, Lit(1)));
    }
    var over := -a.val.value < tmin.val.value;
    var x, y := Lt(h, Lit(0), Add(h, a, tmin)), Lt(h, Sub(h, Lit(-1), tmin), Sub(h, a, Lit(1)));
    IfTruth(h, s, x, And(Lt(h, Lit(0), a), y), over);
    if 0 < a.val.value {
      IfTruth(h, s, x, y, over);
    }
  }

  /** A non-negative x times a negative n, in either order of the operands. */
  lemma OppositeIs(h: Host, x: Exp, n: Exp, tmin: Exp, special: Exp)
    requires Defined(h, x) && Defined(h, n) && Defined(h, tmin)
    requires n.val.value < 0 <= x.val.value && tmin.ty.signed && tmin.val.value <= 0
    requires special == TimesMinusOne(h, x, tmin) || (special == MinusOneTimes(h, x, tmin) && 0 < x.val.value)
    ensures If(h, And(NegateOverflow(h, IntConvert(h, n, tmin)), Eq(h, n, Lit(-1))), special, Lt(h, Div(h, tmin, n), x))
         == Truth(x.val.value * n.val.value < tmin.val.value)
  {
    hide Common, Half, Promote, Lt, Eq, Div, If, NegateOverflow, IntConvert, TimesMinusOne, MinusOneTimes, Quot;
    LitIs(h, -1);
    var c := Common(h, n.ty, tmin.ty);
    CommonKeeps(h, n.ty, tmin.ty);
    ConvertIs(h, n, tmin);
    CommonInt(h, c);
    NegateOverflowExact(h, IntConvert(h, n, tmin));
    CompareIs(h, n, Lit(-1));
    var edge := !Fits(h, c, -tmin.val.value) && n.val.value == -1;
    if edge {
      TimesMinusOneIs(h, x, tmin);
    } else {
      DivIs(h, tmin, n);
      QuotSize(tmin.val.value, n.val.value, 0);
      QuotBound(x.val.value, n.val.value, tmin.val.value, 1);
      CompareIs(h, Div(h, tmin, n), x);
    }
    IfTruth(h, edge, special, Lt(h, Div(h, tmin, n), x), x.val.value * n.val.value < tmin.val.value);
  }

  lemma BothPositiveIs(h: Host, a: Exp, b: Exp, tmax: Exp)
    requires Defined(h, a) && Defined(h, b) && Defined(h, tmax)
    requires 0 <= a.val.value && 0 < b.val.value && 0 < tmax.val.value
    ensures Lt(h, Div(h, tmax, b), a) == Truth(tmax.val.value < a.val.value * b.val.value)
  {
    hide Common, Half, Promote, Lt, Div, Quot;
    DivIs(h, tmax, b);
    QuotSize(tmax.val.value, b.val.value, 0);
    CompareIs(h, Div(h, tmax, b), a);
    QuotBound(a.val.value, b.val.value, 0, tmax.val.value);
  }

  lemma TimesNegativeIs(h: Host, a: Exp, b: Exp, tmin: Exp, tmax: Exp)
    requires Defined(h, a) && Defined(h, b) && Range(h, tmin, tmax) && b.val.value < 0
    ensures TimesNegative(h, a, b, tmin, tmax)
      == Truth(!(tmin.val.value <= a.val.value * b.val.value <= tmax.val.value))
  {
    hide Common, Half, Promote, Lt, Eq, Div, If, And, NegateOverflow, IntConvert, TimesMinusOne, BothNegative;
    IsNegative(h, a);
    var rest := If(h, And(NegateOverflow(h, IntConvert(h, b, tmin)), Eq(h, b, Lit(-1))),
                   TimesMinusOne(h, a, tmin), Lt(h, Div(h, tmin, b), a));
    IfTy(h, And(NegateOverflow(h, IntConvert(h, b, tmin)), Eq(h, b, Lit(-1))),
         TimesMinusOne(h, a, tmin), Lt(h, Div(h, tmin, b), a));
    SignOfProduct(a.val.value, b.val.value);
    if a.val.value < 0 {
      BothNegativeIs(h, a, b, tmax);
    } else {
      OppositeIs(h, a, b, tmin, TimesMinusOne(h, a, tmin));
    }
    IfTruth(h, a.val.value < 0, BothNegative(h, a, b, tmax), rest,
            !(tmin.val.value <= a.val.value * b.val.value <= tmax.val.value));
  }

  lemma TimesPositiveIs(h: Host, a: Exp, b: Exp, tmin: Exp, tmax: Exp)
    requires Defined(h, a) && Defined(h, b) && Range(h, tmin, tmax) && 0 < b.val.value
    ensures TimesPositive(h, a, b, tmin, tmax)
      == Truth(!(tmin.val.value <= a.val.value * b.val.value <= tmax.val.value))
  {
    hide Common, Half, Promote, Lt, Eq, Div, If, And, NegateOverflow, IntConvert, MinusOneTimes;
    IsNegative(h, a);
    var left := If(h, And(NegateOverflow(h, IntConvert(h, a, tmin)), Eq(h, a, Lit(-1))),
                   MinusOneTimes(h, b, tmin), Lt(h, Div(h, tmin, a), b));
    IfTy(h, And(NegateOverflow(h, IntConvert(h, a, tmin)), Eq(h, a, Lit(-1))),
         MinusOneTimes(h, b, tmin), Lt(h, Div(h, tmin, a), b));
    SignOfProduct(a.val.value, b.val.value);
    if a.val.value < 0 {
      OppositeIs(h, b, a, tmin, MinusOneTimes(h, b, tmin));
    } else {
      BothPositiveIs(h, a, b, tmax);
    }
    IfTruth(h, a.val.value < 0, left, Lt(h, Div(h, tmax, b), a),
            !(tmin.val.value <= a.val.value * b.val.value <= tmax.val.value));
  }

  /** The multiply check is exact, whatever the types, and evaluates nothing undefined. */
  lemma MultiplyRangeExact(h: Host, a: Exp, b: Exp, tmin: Exp, tmax: Exp)
    requires Defined(h, a) && Defined(h, b) && Range(h, tmin, tmax)
    ensures MultiplyRangeOverflow(h, a, b, tmin, tmax)
         == Truth(!(tmin.val.value <= a.val.value * b.val.value <= tmax.val.value))
  {
    hide Common, Half, Promote, Lt, Eq, If, TimesNegative, TimesPositive;
    var over := !(tmin.val.value <= a.val.value * b.val.value <= tmax.val.value);
    IsNegative(h, b);
    IsZero(h, b);
    if b.val.value < 0 {
      TimesNegativeIs(h, a, b, tmin, tmax);
    } else {
      if b.val.value > 0 {
        TimesPositiveIs(h, a, b, tmin, tmax);
      }
      IfTruth(h, b.val.value == 0, Lit(0), TimesPositive(h, a, b, tmin, tmax), over);
    }
    IfTy(h, Eq(h, b, Lit(0)), Lit(0), TimesPositive(h, a, b, tmin, tmax));
    IfTruth(h, b.val.value < 0, TimesNegative(h, a, b, tmin, tmax),
            If(h, Eq(h, b, Lit(0)), Lit(0), TimesPositive(h, a, b, tmin, tmax)), over);
  }

  lemma IsZero(h: Host, b: Exp)
    requires Defined(h, b)
    ensures Eq(h, b, Lit(0)) == Truth(b.val.value == 0)
  {
    hide Common, Half, Eq;
    LitIs(h, 0);
    CommonOfPromoted(h, b.ty, INT_T);
    PromoteKeeps(h, b.ty);
    CommonInt(h, Promote(h, b.ty));
    CompareIs(h, b, Lit(0));
  }
}
