/** _GL_INT_ADD_RANGE_OVERFLOW and _GL_INT_SUBTRACT_RANGE_OVERFLOW of
    benchtests/port/intprops.h: does a sum or difference leave TMIN..TMAX? */
module RangeOverflow {
  import opened CIntegers
  import opened TypeQueries

  /** What lines 642-646 ask of the range: a signed lower bound of at most zero and an
      upper bound above zero, which is also signed unless the lower one is zero. */
  predicate Range(h: Host, tmin: Exp, tmax: Exp) {
    && Defined(h, tmin) && Defined(h, tmax)
    && tmin.ty.signed && tmin.val.value <= 0 < tmax.val.value
    && (tmin.val.value == 0 || tmax.ty.signed)
  }

  function SubtractRangeOverflow(h: Host, a: Exp, b: Exp, tmin: Exp, tmax: Exp): Exp {
    If(h, Eq(h, Lt(h, a, Lit(0)), Lt(h, b, Lit(0))),
      SubSameSign(h, a, b, tmin, tmax),
      If(h, Lt(h, a, Lit(0)), SubNegPos(h, a, b, tmin), SubPosNeg(h, a, b, tmax)))
  }

  function SubSameSign(h: Host, a: Exp, b: Exp, tmin: Exp, tmax: Exp): (e: Exp)
    ensures e.ty == INT_T
  {
    If(h, Lt(h, a, b),
      Or(Not(tmin), Lt(h, Sub(h, Lit(-1), tmin), Sub(h, Sub(h, b, a), Lit(1)))),
      Lt(h, tmax, Sub(h, a, b)))
  }

  function SubNegPos(h: Host, a: Exp, b: Exp, tmin: Exp): (e: Exp)
    ensures e.ty == INT_T
  {
    Or(And(Not(ExprSigned(h, IntConvert(h, Sub(h, a, tmin), b))), Lt(h, Sub(h, a, tmin), Lit(0))),
       Lt(h, Sub(h, a, tmin), b))
  }

  function SubPosNeg(h: Host, a: Exp, b: Exp, tmax: Exp): (e: Exp)
    ensures e.ty == INT_T
  {
    Or(And(Not(And(ExprSigned(h, IntConvert(h, tmax, b)),
                   ExprSigned(h, IntConvert(h, Add(h, tmax, b), a)))),
           Le(h, tmax, Sub(h, Lit(-1), b))),
       Lt(h, Add(h, tmax, b), a))
  }

  lemma SubSameSignIs(h: Host, a: Exp, b: Exp, tmin: Exp, tmax: Exp)
    requires Defined(h, a) && Defined(h, b) && Range(h, tmin, tmax)
    requires a.val.value < 0 <==> b.val.value < 0
    ensures SubSameSign(h, a, b, tmin, tmax)
         == Truth(!(tmin.val.value <= a.val.value - b.val.value <= tmax.val.value))
  {
    hide Common, Half, Promote, Lt, Sub, If, Fits;
    LitIs(h, -1); LitIs(h, 1);
    CompareIs(h, a, b);
    if a.val.value < b.val.value {
      SubDownIs(h, b, a);
      SubDownIs(h, Sub(h, b, a), Lit(1));
      if tmin.val.value < 0 {
        SubDownIs(h, Lit(-1), tmin);
        CompareIs(h, Sub(h, Lit(-1), tmin), Sub(h, Sub(h, b, a), Lit(1)));
      }
    } else {
      SubDownIs(h, a, b);
      CompareIs(h, tmax, Sub(h, a, b));
    }
    IfTruth(h, a.val.value < b.val.value,
            Or(Not(tmin), Lt(h, Sub(h, Lit(-1), tmin), Sub(h, Sub(h, b, a), Lit(1)))),
            Lt(h, tmax, Sub(h, a, b)),
            !(tmin.val.value <= a.val.value - b.val.value <= tmax.val.value));
  }

  lemma SubNegPosIs(h: Host, a: Exp, b: Exp, tmin: Exp)
    requires Defined(h, a) && Defined(h, b) && Defined(h, tmin)
    requires a.val.value < 0 <= b.val.value && tmin.ty.signed && tmin.val.value <= 0
    ensures SubNegPos(h, a, b, tmin) == Truth(a.val.value - b.val.value < tmin.val.value)
  {
    hide Common, Half, Promote, Lt, Sub, ExprSigned, IntConvert;
    assert a.ty.signed;
    SubNegativeIs(h, a, tmin);
    var x := Sub(h, a, tmin);
    ConvertSigned(h, x, b);
    IsNegative(h, x);
    if x.val.value >= 0 || Common(h, x.ty, b.ty).signed {
      CompareIs(h, x, b);
    }
  }

  lemma SubPosNegIs(h: Host, a: Exp, b: Exp, tmax: Exp)
    requires Defined(h, a) && Defined(h, b) && Defined(h, tmax)
    requires b.val.value < 0 <= a.val.value && 0 < tmax.val.value
    ensures SubPosNeg(h, a, b, tmax) == Truth(tmax.val.value < a.val.value - b.val.value)
  {
    hide Common, Half, Promote, Lt, Le, Sub, Add, ExprSigned, IntConvert;
    LitIs(h, -1);
    ConvertSigned(h, tmax, b);
    SubDownIs(h, Lit(-1), b);
    CompareIs(h, tmax, Sub(h, Lit(-1), b));
    AddOppositeIs(h, tmax, b);
    var s := Add(h, tmax, b);
    ConvertSigned(h, s, a);
    if tmax.val.value + b.val.value >= 0 || (Common(h, tmax.ty, b.ty).signed && Common(h, s.ty, a.ty).signed) {
      CompareIs(h, s, a);
    }
  }

  /** The subtract check is exact, whatever the types, and evaluates nothing undefined. */
  lemma SubtractRangeExact(h: Host, a: Exp, b: Exp, tmin: Exp, tmax: Exp)
    requires Defined(h, a) && Defined(h, b) && Range(h, tmin, tmax)
    ensures SubtractRangeOverflow(h, a, b, tmin, tmax)
         == Truth(!(tmin.val.value <= a.val.value - b.val.value <= tmax.val.value))
  {
    hide Common, Half, Promote, Lt, Eq, Sub, Add, SubSameSign, SubNegPos, SubPosNeg, If;
    LitIs(h, 0); LitIs(h, 1);
    IsNegative(h, a);
    IsNegative(h, b);
    var over := !(tmin.val.value <= a.val.value - b.val.value <= tmax.val.value);
    var an, bn := a.val.value < 0, b.val.value < 0;
    CompareIs(h, Truth(an), Truth(bn));
    IfTy(h, Lt(h, a, Lit(0)), SubNegPos(h, a, b, tmin), SubPosNeg(h, a, b, tmax));
    if an == bn {
      SubSameSignIs(h, a, b, tmin, tmax);
    } else {
      if an { SubNegPosIs(h, a, b, tmin); } else { SubPosNegIs(h, a, b, tmax); }
      IfTruth(h, an, SubNegPos(h, a, b, tmin), SubPosNeg(h, a, b, tmax), over);
    }
    IfTruth(h, an == bn, SubSameSign(h, a, b, tmin, tmax),
            If(h, Lt(h, a, Lit(0)), SubNegPos(h, a, b, tmin), SubPosNeg(h, a, b, tmax)), over);
  }

  // ----- _GL_INT_ADD_RANGE_OVERFLOW (lines 648-662) -----

  function AddRangeOverflow(h: Host, a: Exp, b: Exp, tmin: Exp, tmax: Exp): Exp {
    If(h, Lt(h, b, Lit(0)),
      Or(AddBelow(h, a, b, tmin), AddAbove(h, a, b, tmax, If(h, ExprSigned(h, a), Le(h, Lit(0), a), Lt(h, tmax, a)))),
      If(h, Lt(h, a, Lit(0)),
        Or(AddBelow(h, b, a, tmin), AddAbove(h, a, b, tmax, Or(ExprSigned(h, IntConvert(h, a, b)), Lt(h, tmax, b)))),
        Or(Lt(h, tmax, b), Lt(h, Sub(h, tmax, b), a))))
  }

  /** The first half of both mixed cases: p + n is below tmin, for a negative n. */
  function AddBelow(h: Host, p: Exp, n: Exp, tmin: Exp): (e: Exp)
    ensures e.ty == INT_T
  {
    If(h, tmin,
      And(Or(ExprSigned(h, IntConvert(h, p, Sub(h, tmin, n))), Lt(h, n, tmin)), Lt(h, p, Sub(h, tmin, n))),
      Le(h, p, Sub(h, Lit(-1), n)))
  }

  /** The second half: under the given guard, a + b is above tmax. */
  function AddAbove(h: Host, a: Exp, b: Exp, tmax: Exp, guard: Exp): (e: Exp)
    ensures e.ty == INT_T
  {
    And(guard, Lt(h, tmax, Add(h, a, b)))
  }

  lemma AddBelowNegativeIs(h: Host, p: Exp, n: Exp, tmin: Exp)
    requires Defined(h, p) && Defined(h, n) && Defined(h, tmin)
    requires n.val.value < 0 && tmin.ty.signed && tmin.val.value < 0
    ensures And(Or(ExprSigned(h, IntConvert(h, p, Sub(h, tmin, n))), Lt(h, n, tmin)), Lt(h, p, Sub(h, tmin, n)))
         == Truth(p.val.value + n.val.value < tmin.val.value)
  {
    hide Common, Half, Promote, Lt, Le, Sub, ExprSigned, IntConvert;
    CompareIs(h, n, tmin);
    SubNegativeIs(h, tmin, n);
    var d := Sub(h, tmin, n);
    ConvertSigned(h, p, d);
    CommonKeeps(h, p.ty, d.ty);
    if n.val.value < tmin.val.value || Common(h, p.ty, d.ty).signed {
      CompareIs(h, p, d);
    }
  }

  lemma AddBelowIs(h: Host, p: Exp, n: Exp, tmin: Exp)
    requires Defined(h, p) && Defined(h, n) && Defined(h, tmin)
    requires n.val.value < 0 && tmin.ty.signed && tmin.val.value <= 0
    ensures AddBelow(h, p, n, tmin) == Truth(p.val.value + n.val.value < tmin.val.value)
  {
    hide Common, Half, Promote, Lt, Le, Sub, ExprSigned, IntConvert, If, And, Or;
    if tmin.val.value < 0 {
      AddBelowNegativeIs(h, p, n, tmin);
    } else {
      LitIs(h, -1);
      SubDownIs(h, Lit(-1), n);
      CompareIs(h, p, Sub(h, Lit(-1), n));
    }
    IfChoice(h, tmin,
             And(Or(ExprSigned(h, IntConvert(h, p, Sub(h, tmin, n))), Lt(h, n, tmin)), Lt(h, p, Sub(h, tmin, n))),
             Le(h, p, Sub(h, Lit(-1), n)), p.val.value + n.val.value < tmin.val.value);
  }

  /** The sums the add check gets wrong: they are negative and fit, but are
      computed in an unsigned type, and one operand alone exceeds tmax. */
  predicate WrapsUnseen(h: Host, a: Exp, b: Exp, tmin: int, tmax: int)
    requires a.val.Some? && b.val.Some?
  {
    && !Common(h, a.ty, b.ty).signed
    && (tmax < a.val.value || tmax < b.val.value)
    && tmin <= a.val.value + b.val.value < 0
  }

  lemma AddAboveIs(h: Host, a: Exp, b: Exp, tmax: Exp, g: bool)
    requires Defined(h, a) && Defined(h, b) && Defined(h, tmax) && 0 < tmax.val.value
    requires (a.val.value < 0) != (b.val.value < 0)
    requires a.val.value + b.val.value < 0 ==> tmax.ty.signed
    requires tmax.val.value < a.val.value || tmax.val.value < b.val.value ==> g
    requires g ==> Common(h, a.ty, b.ty).signed || tmax.val.value < a.val.value || tmax.val.value < b.val.value
    ensures AddAbove(h, a, b, tmax, Truth(g))
         == Truth(tmax.val.value < a.val.value + b.val.value ||
                  (g && a.val.value + b.val.value < 0 && !Common(h, a.ty, b.ty).signed))
  {
    hide Common, Half, Promote, Lt, Add;
    AddOppositeIs(h, a, b);
    CompareIs(h, tmax, Add(h, a, b));
  }

  /** The add check is true exactly when the sum is out of range or one of
      those sums; it evaluates nothing undefined. */
  lemma AddRangeExact(h: Host, a: Exp, b: Exp, tmin: Exp, tmax: Exp)
    requires Defined(h, a) && Defined(h, b) && Range(h, tmin, tmax)
    ensures AddRangeOverflow(h, a, b, tmin, tmax)
         == Truth(!(tmin.val.value <= a.val.value + b.val.value <= tmax.val.value)
                  || WrapsUnseen(h, a, b, tmin.val.value, tmax.val.value))
  {
    hide Common, Half, Promote, Lt, Sub, Add, AddBelow, AddAbove, ExprSigned, IntConvert, If;
    IsNegative(h, a);
    IsNegative(h, b);
    var an, bn := a.val.value < 0, b.val.value < 0;
    var over := !(tmin.val.value <= a.val.value + b.val.value <= tmax.val.value)
                || WrapsUnseen(h, a, b, tmin.val.value, tmax.val.value);
    var signedA := If(h, ExprSigned(h, a), Le(h, Lit(0), a), Lt(h, tmax, a));
    var guardA := Or(ExprSigned(h, IntConvert(h, a, b)), Lt(h, tmax, b));
    var x := Or(AddBelow(h, a, b, tmin), AddAbove(h, a, b, tmax, signedA));
    var y := Or(AddBelow(h, b, a, tmin), AddAbove(h, a, b, tmax, guardA));
    var z := Or(Lt(h, tmax, b), Lt(h, Sub(h, tmax, b), a));
    IfTy(h, Lt(h, a, Lit(0)), y, z);
    if bn {
      AddNegativeRight(h, a, b, tmin, tmax);
    } else {
      if an {
        AddNegativeLeft(h, a, b, tmin, tmax);
      } else {
        AddNonNegative(h, a, b, tmin, tmax);
      }
      IfTruth(h, an, y, z, over);
    }
    IfTruth(h, bn, x, If(h, Lt(h, a, Lit(0)), y, z), over);
  }

  lemma AddNonNegative(h: Host, a: Exp, b: Exp, tmin: Exp, tmax: Exp)
    requires Defined(h, a) && Defined(h, b) && Range(h, tmin, tmax)
    requires 0 <= a.val.value && 0 <= b.val.value
    ensures Or(Lt(h, tmax, b), Lt(h, Sub(h, tmax, b), a)) == Truth(tmax.val.value < a.val.value + b.val.value)
  {
    hide Common, Half, Promote, Lt, Sub;
    CompareIs(h, tmax, b);
    if b.val.value <= tmax.val.value {
      SubDownIs(h, tmax, b);
      CompareIs(h, Sub(h, tmax, b), a);
    }
  }

  lemma AddNegativeLeft(h: Host, a: Exp, b: Exp, tmin: Exp, tmax: Exp)
    requires Defined(h, a) && Defined(h, b) && Range(h, tmin, tmax)
    requires a.val.value < 0 <= b.val.value
    ensures Or(AddBelow(h, b, a, tmin), AddAbove(h, a, b, tmax, Or(ExprSigned(h, IntConvert(h, a, b)), Lt(h, tmax, b))))
         == Truth(!(tmin.val.value <= a.val.value + b.val.value <= tmax.val.value)
                  || WrapsUnseen(h, a, b, tmin.val.value, tmax.val.value))
  {
    hide Common, Half, Promote, Lt, Add, AddBelow, AddAbove, ExprSigned, IntConvert;
    AddBelowIs(h, b, a, tmin);
    ConvertSigned(h, a, b);
    CompareIs(h, tmax, b);
    var g := Common(h, a.ty, b.ty).signed || tmax.val.value < b.val.value;
    if tmin.val.value <= a.val.value + b.val.value {
      AddAboveIs(h, a, b, tmax, g);
    }
  }

  lemma FalseGuard(h: Host, a: Exp, b: Exp, tmax: Exp)
    ensures AddAbove(h, a, b, tmax, Truth(false)) == Truth(false)
  {
  }

  lemma GuardOfLeft(h: Host, a: Exp, b: Exp, tmax: Exp) returns (g: bool)
    requires Defined(h, a) && Defined(h, b) && Defined(h, tmax)
    requires b.val.value < 0 < tmax.val.value
    ensures If(h, ExprSigned(h, a), Le(h, Lit(0), a), Lt(h, tmax, a)) == Truth(g)
    ensures 0 <= a.val.value && tmax.val.value < a.val.value ==> g
    ensures g ==> 0 <= a.val.value && (Common(h, a.ty, b.ty).signed || tmax.val.value < a.val.value)
  {
    hide Common, Half, Lt, Le, ExprSigned, If;
    LitIs(h, 0);
    ExprSignedIs(h, a);
    PromoteKeeps(h, a.ty);
    var s := Promote(h, a.ty).signed;
    g := if s then 0 <= a.val.value else tmax.val.value < a.val.value;
    if s {
      PromoteKeeps(h, b.ty);
      SignedMeetSigned(h, a.ty, b.ty);
      IsNegative(h, a);
    } else {
      CompareIs(h, tmax, a);
    }
    IfTruth(h, s, Le(h, Lit(0), a), Lt(h, tmax, a), g);
  }

  lemma AddNegativeRight(h: Host, a: Exp, b: Exp, tmin: Exp, tmax: Exp)
    requires Defined(h, a) && Defined(h, b) && Range(h, tmin, tmax)
    requires b.val.value < 0
    ensures Or(AddBelow(h, a, b, tmin),
               AddAbove(h, a, b, tmax, If(h, ExprSigned(h, a), Le(h, Lit(0), a), Lt(h, tmax, a))))
         == Truth(!(tmin.val.value <= a.val.value + b.val.value <= tmax.val.value)
                  || WrapsUnseen(h, a, b, tmin.val.value, tmax.val.value))
  {
    hide Common, Half, Promote, Lt, Le, Add, AddBelow, AddAbove, ExprSigned, IntConvert, If;
    AddBelowIs(h, a, b, tmin);
    if tmin.val.value <= a.val.value + b.val.value {
      var g := GuardOfLeft(h, a, b, tmax);
      if 0 <= a.val.value {
        AddAboveIs(h, a, b, tmax, g);
      } else {
        assert AddAbove(h, a, b, tmax, Truth(g)) == Truth(false) by { FalseGuard(h, a, b, tmax); }
      }
    }
  }
}