/** The macros of benchtests/port/intprops.h that ask about the type of an expression. */
module TypeQueries {
  import opened Arithmetic
  import opened CIntegers
  import opened Options

  // ----- type queries (lines 40-98, 227-230, 436-437) -----

  function IntConvert(h: Host, e: Exp, v: Exp): Exp {
    Add(h, If(h, Lit(1), Lit(0), e), v)
  }

  function IntNegateConvert(h: Host, e: Exp, v: Exp): Exp {
    Sub(h, If(h, Lit(1), Lit(0), e), v)
  }

  function ExprSigned(h: Host, e: Exp): Exp {
    Lt(h, IntNegateConvert(h, e, Lit(1)), Lit(0))
  }

  function TypeSigned(h: Host, t: IntType): Exp {
    Not(Lt(h, Cast(h, t, Lit(0)), Cast(h, t, Lit(-1))))
  }

  function TypeMaximum(h: Host, t: IntType): Exp {
    var one := Shl(h, Cast(h, t, Lit(1)), Width(h, t) - 2);
    Cast(h, t, If(h, Not(TypeSigned(h, t)),
                  Cast(h, t, Lit(-1)),
                  Add(h, Mul(h, Sub(h, one, Lit(1)), Lit(2)), Lit(1))))
  }

  function TypeMinimum(h: Host, t: IntType): Exp {
    Cast(h, t, Inv(h, TypeMaximum(h, t)))
  }

  /** The maximum of e's promoted type, computed without leaving it. */
  function SignedIntMaximum(h: Host, e: Exp): Exp {
    Add(h, Mul(h, Sub(h, Shl(h, IntConvert(h, e, Lit(1)), Width(h, Promote(h, e.ty)) - 2), Lit(1)), Lit(2)), Lit(1))
  }

  function IntMinimum(h: Host, e: Exp): Exp {
    If(h, ExprSigned(h, e), Inv(h, SignedIntMaximum(h, e)), IntConvert(h, e, Lit(0)))
  }

  function IntMaximum(h: Host, e: Exp): Exp {
    If(h, ExprSigned(h, e), SignedIntMaximum(h, e), IntNegateConvert(h, e, Lit(1)))
  }

  function NegateRangeOverflow(h: Host, a: Exp, min: Exp, max: Exp): Exp {
    If(h, Lt(h, min, Lit(0)), Lt(h, a, Neg(h, max)), Lt(h, Lit(0), a))
  }

  function NegateOverflow(h: Host, a: Exp): Exp {
    NegateRangeOverflow(h, a, IntMinimum(h, a), IntMaximum(h, a))
  }

  lemma ConvertIs(h: Host, e: Exp, v: Exp)
    requires Defined(h, v)
    ensures var c := Common(h, e.ty, v.ty);
      Is(h, IntConvert(h, e, v), Seen(h, c, v.val.value)) && IntConvert(h, e, v).ty == c && c.rank >= INT
  {
    LitIs(h, 0); LitIs(h, 1);
    PromoteKeeps(h, e.ty);
    var z := If(h, Lit(1), Lit(0), e);
    ZeroOf(h, e);
    CommonOfPromoted(h, e.ty, v.ty);
    var c := AddLaw(h, z, v);
  }

  lemma ZeroOf(h: Host, e: Exp)
    ensures If(h, Lit(1), Lit(0), e) == Exp(Promote(h, e.ty), Some(0))
  {
    var p := Promote(h, e.ty);
    PromoteKeeps(h, e.ty);
    CommonInt(h, p);
    CommonOfPromoted(h, e.ty, INT_T);
    CommonKeeps(h, INT_T, e.ty);
    ConvertNear(h, p, 0);
  }

  lemma ExprSignedIs(h: Host, e: Exp)
    ensures ExprSigned(h, e) == Truth(Promote(h, e.ty).signed)
  {
    hide Common, Half, Sub, Lt;
    LitIs(h, 0); LitIs(h, 1);
    ZeroOf(h, e);
    PromoteKeeps(h, e.ty);
    var p := Promote(h, e.ty);
    CommonInt(h, p);
    var z := If(h, Lit(1), Lit(0), e);
    var c := SubLaw(h, z, Lit(1));
    c := CompareLaw(h, Sub(h, z, Lit(1)), Lit(0));
  }

  lemma ConvertSigned(h: Host, e: Exp, v: Exp)
    requires Defined(h, v)
    ensures ExprSigned(h, IntConvert(h, e, v)) == Truth(Common(h, e.ty, v.ty).signed)
  {
    hide Common, IntConvert;
    ConvertIs(h, e, v);
    ExprSignedIs(h, IntConvert(h, e, v));
    CommonInt(h, Common(h, e.ty, v.ty));
  }

  lemma ShiftedOne(h: Host, p: IntType, x: Exp)
    requires p.signed && p.rank >= INT && x == Exp(p, Some(1))
    ensures Shl(h, x, Width(h, p) - 2) == Exp(p, Some(Pow2(Width(h, p) - 2)))
    ensures Half(h, p) == 2 * Pow2(Width(h, p) - 2)
  {
    CommonInt(h, p);
    Pow2Mono(Width(h, p) - 2, Width(h, p) - 1);
  }

  lemma SignedIntMaximumIs(h: Host, e: Exp)
    requires Promote(h, e.ty).signed
    ensures SignedIntMaximum(h, e) == Exp(Promote(h, e.ty), Some(Max(h, Promote(h, e.ty))))
  {
    hide Common, Half, IntConvert, Shl, Sub, Add;
    var p := Promote(h, e.ty);
    LitIs(h, 1);
    LitTwo(h);
    ConvertIs(h, e, Lit(1));
    CommonOfPromoted(h, e.ty, INT_T);
    PromoteKeeps(h, e.ty);
    CommonInt(h, p);
    ShiftedOne(h, p, IntConvert(h, e, Lit(1)));
    var s := Shl(h, IntConvert(h, e, Lit(1)), Width(h, p) - 2);
    var c := SubLaw(h, s, Lit(1));
    var d := Sub(h, s, Lit(1));
    Operands(h, d, Lit(2));
    ResultNear(h, p, d.val.value * 2);
    c := AddLaw(h, Mul(h, d, Lit(2)), Lit(1));
  }

  lemma LitTwo(h: Host)
    ensures Is(h, Lit(2), 2)
  {
    Pow2Mono(3, Width(h, INT_T) - 1);
  }

  lemma TypesArePromoted(h: Host, e: Exp)
    ensures var p := Promote(h, e.ty);
      SignedIntMaximum(h, e).ty == p && Inv(h, SignedIntMaximum(h, e)).ty == p
  {
    hide Common, Half, Add, Sub, Mul, Shl, Inv;
    var p := Promote(h, e.ty);
    ZeroOf(h, e);
    PromoteKeeps(h, e.ty);
    CommonInt(h, p);
  }

  lemma ChoiceOf(h: Host, b: bool, x: Exp, y: Exp, p: IntType)
    requires x.ty == p == y.ty && p.rank >= INT && Defined(h, if b then x else y)
    ensures If(h, Truth(b), x, y) == if b then x else y
  {
    CommonInt(h, p);
    ConvertNear(h, p, (if b then x else y).val.value);
  }

  lemma NegatedOne(h: Host, e: Exp)
    ensures var p, n := Promote(h, e.ty), IntNegateConvert(h, e, Lit(1));
      n.ty == p && (!p.signed ==> n == Exp(p, Some(Max(h, p))))
  {
    hide Common, Half, Sub;
    var p := Promote(h, e.ty);
    LitIs(h, 1);
    ZeroOf(h, e);
    PromoteKeeps(h, e.ty);
    CommonInt(h, p);
    var c := SubLaw(h, If(h, Lit(1), Lit(0), e), Lit(1));
  }

  /** _GL_INT_MINIMUM and _GL_INT_MAXIMUM are the bounds of the promoted type. */
  lemma BoundsAre(h: Host, e: Exp)
    ensures var p := Promote(h, e.ty);
      IntMinimum(h, e) == Exp(p, Some(Min(h, p))) && IntMaximum(h, e) == Exp(p, Some(Max(h, p)))
  {
    hide Common, Half, IntConvert, IntNegateConvert, ExprSigned, Lt, SignedIntMaximum, If;
    var p := Promote(h, e.ty);
    LitIs(h, 0);
    ExprSignedIs(h, e);
    ConvertIs(h, e, Lit(0));
    CommonOfPromoted(h, e.ty, INT_T);
    PromoteKeeps(h, e.ty);
    CommonInt(h, p);
    TypesArePromoted(h, e);
    NegatedOne(h, e);
    if p.signed {
      SignedIntMaximumIs(h, e);
    }
    ChoiceOf(h, p.signed, Inv(h, SignedIntMaximum(h, e)), IntConvert(h, e, Lit(0)), p);
    ChoiceOf(h, p.signed, SignedIntMaximum(h, e), IntNegateConvert(h, e, Lit(1)), p);
  }

  lemma NegMaxIs(h: Host, p: IntType)
    requires p.rank >= INT && p.signed
    ensures Is(h, Neg(h, Exp(p, Some(Max(h, p)))), -Max(h, p)) && Neg(h, Exp(p, Some(Max(h, p)))).ty == p
  {
    CommonInt(h, p);
  }

  /** The fallback INT_NEGATE_OVERFLOW is exact. */
  lemma NegateOverflowExact(h: Host, a: Exp)
    requires Defined(h, a)
    ensures NegateOverflow(h, a) == Truth(!Fits(h, Promote(h, a.ty), -a.val.value))
  {
    hide Common, Half, Promote, IntMinimum, IntMaximum, Lt, If, Neg;
    var p := Promote(h, a.ty);
    PromoteKeeps(h, a.ty);
    BoundsAre(h, a);
    var mi, ma := IntMinimum(h, a), IntMaximum(h, a);
    IsNegative(h, mi);
    IsNegative(h, a);
    if p.signed {
      NegMaxIs(h, p);
      CommonInt(h, p);
      SignedMeetSigned(h, a.ty, p);
      CompareIs(h, a, Neg(h, ma));
    }
    IfTruth(h, p.signed, Lt(h, a, Neg(h, ma)), Lt(h, Lit(0), a), !Fits(h, p, -a.val.value));
  }

  // ----- the bounds of a type (lines 75-83) -----

  lemma CastLit(h: Host, t: IntType)
    ensures Is(h, Cast(h, t, Lit(0)), 0) && Is(h, Cast(h, t, Lit(1)), 1)
    ensures Is(h, Cast(h, t, Lit(-1)), if t.signed then -1 else Max(h, t))
  {
    Pow2Mono(1, Width(h, t) - 1);
    ConvertNear(h, t, 0);
    ConvertNear(h, t, 1);
    ConvertNear(h, t, -1);
  }

  lemma TypeSignedIs(h: Host, t: IntType)
    ensures TypeSigned(h, t) == Truth(t.signed)
  {
    hide Common, Promote, Half, Cast, Lt;
    CastLit(h, t);
    var x, y := Cast(h, t, Lit(0)), Cast(h, t, Lit(-1));
    assert x.ty == t && y.ty == t by { CastTy(h, t, Lit(0)); CastTy(h, t, Lit(-1)); }
    CompareIs(h, x, y);
    Pow2Positive(h, t);
  }

  lemma CastTy(h: Host, t: IntType, e: Exp)
    ensures Cast(h, t, e).ty == t
  {
  }

  lemma Pow2Positive(h: Host, t: IntType)
    ensures Max(h, t) >= 1
  {
    Pow2Mono(1, Width(h, t) - 1);
  }

  /** The shift by width - 2 stays in range even where t itself is promoted. */
  lemma SignedMaximumOf(h: Host, t: IntType)
    requires t.signed
    ensures var one := Shl(h, Cast(h, t, Lit(1)), Width(h, t) - 2);
      Add(h, Mul(h, Sub(h, one, Lit(1)), Lit(2)), Lit(1)) == Exp(Promote(h, t), Some(Max(h, t)))
  {
    hide Common, Shl, Sub, Add, Mul, Promote, Half;
    CastLit(h, t);
    CastTy(h, t, Lit(1));
    PromoteKeeps(h, t);
    var p := Promote(h, t);
    CommonInt(h, p);
    LitIs(h, 1);
    LitTwo(h);
    HalfOfShift(h, t);
    var s := Shl(h, Cast(h, t, Lit(1)), Width(h, t) - 2);
    var c := SubLaw(h, s, Lit(1));
    var d := Sub(h, s, Lit(1));
    DoubleIs(h, d, p);
    c := AddLaw(h, Mul(h, d, Lit(2)), Lit(1));
  }

  lemma HalfOfShift(h: Host, t: IntType)
    requires t.signed
    ensures Shl(h, Cast(h, t, Lit(1)), Width(h, t) - 2) == Exp(Promote(h, t), Some(Pow2(Width(h, t) - 2)))
    ensures Half(h, t) == 2 * Pow2(Width(h, t) - 2)
    ensures Half(h, t) <= Half(h, Promote(h, t)) && Promote(h, t).signed
  {
    hide Common, Promote;
    CastLit(h, t);
    PromoteKeeps(h, t);
    HalfMono(h, Promote(h, t), t);
    CommonOfPromoted(h, t, t);
    Pow2Mono(Width(h, t) - 2, Width(h, t) - 1);
    WidthOfPromoted(h, t);
  }

  lemma WidthOfPromoted(h: Host, t: IntType)
    ensures Width(h, t) <= Width(h, Promote(h, t))
  {
    HalfMono(h, t, Promote(h, t));
  }

  lemma DoubleIs(h: Host, d: Exp, p: IntType)
    requires d.ty == p && p.signed && p.rank >= INT && Defined(h, d) && Fits(h, p, d.val.value * 2) && 0 <= d.val.value
    ensures Mul(h, d, Lit(2)) == Exp(p, Some(d.val.value * 2))
  {
    hide Common, Half, Promote, Result;
    LitTwo(h);
    CommonInt(h, p);
    Operands(h, d, Lit(2));
    ResultNear(h, p, d.val.value * 2);
  }

  lemma MaximumChoice(h: Host, t: IntType)
    ensures TypeMaximum(h, t) == Exp(t, Some(Max(h, t)))
  {
    hide Common, Promote, Half, TypeSigned, Shl, Sub, Add, Mul, Convert;
    var p := Promote(h, t);
    TypeSignedIs(h, t);
    CastLit(h, t);
    PromoteKeeps(h, t);
    CommonInt(h, p);
    CommonOfPromoted(h, t, t);
    CommonOfPromoted(h, t, p);
    TypeOfMaximum(h, t);
    if t.signed {
      SignedMaximumOf(h, t);
    }
    ConvertNear(h, p, Max(h, t));
    ConvertNear(h, t, Max(h, t));
    Pow2Positive(h, t);
  }

  lemma TypeOfMaximum(h: Host, t: IntType)
    ensures var one := Shl(h, Cast(h, t, Lit(1)), Width(h, t) - 2);
      Add(h, Mul(h, Sub(h, one, Lit(1)), Lit(2)), Lit(1)).ty == Promote(h, t)
  {
    hide Common, Promote, Half, Shl, Sub, Add, Mul, Convert;
    PromoteKeeps(h, t);
    CommonInt(h, Promote(h, t));
  }

  lemma InverseOfMaximum(h: Host, t: IntType)
    ensures Cast(h, t, Inv(h, Exp(t, Some(Max(h, t))))) == Exp(t, Some(Min(h, t)))
  {
    hide Half, Convert;
    HalfMono(h, t, INT_T);
    HalfMono(h, t, UINT_T);
    HalfMono(h, UINT_T, t);
    HalfMono(h, INT_T, UINT_T);
    HalfMono(h, UINT_T, INT_T);
    ConvertNear(h, t, -1 - Max(h, t));
    ConvertNear(h, t, Min(h, t));
  }

  /** TYPE_MAXIMUM and TYPE_MINIMUM are the bounds of every type, promoted or not. */
  lemma TypeBoundsAre(h: Host, t: IntType)
    ensures TypeMaximum(h, t) == Exp(t, Some(Max(h, t))) && TypeMinimum(h, t) == Exp(t, Some(Min(h, t)))
  {
    hide Common, Promote, Half, TypeSigned, Shl, Sub, Add, Mul, If;
    TypeSignedIs(h, t);
    CastLit(h, t);
    ConvertNear(h, t, Max(h, t));
    MaximumChoice(h, t);
    InverseOfMaximum(h, t);
  }
}
