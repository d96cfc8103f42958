/** INT_<op>_RANGE_OVERFLOW and the fallback INT_<op>_OVERFLOW of
    benchtests/port/intprops.h: does the C operator give the numerically
    correct result in the operands' own common type? */
module TypeOverflow {
  import opened Arithmetic
  import opened CIntegers
  import opened TypeQueries
  import opened MultiplyRange
  import opened Options

  // ----- INT_<op>_RANGE_OVERFLOW (lines 209-280) -----

  function SimpleAdd(h: Host, a: Exp, b: Exp, min: Exp, max: Exp): (e: Exp)
    ensures e.ty == INT_T
  {
    If(h, Lt(h, b, Lit(0)), Lt(h, a, Sub(h, min, b)), Lt(h, Sub(h, max, b), a))
  }

  function SimpleSubtract(h: Host, a: Exp, b: Exp, min: Exp, max: Exp): (e: Exp)
    ensures e.ty == INT_T
  {
    If(h, Lt(h, b, Lit(0)), Lt(h, Add(h, max, b), a), Lt(h, a, Add(h, min, b)))
  }

  function SimpleMultiply(h: Host, a: Exp, b: Exp, min: Exp, max: Exp): (e: Exp)
    ensures e.ty == INT_T
  {
    If(h, Lt(h, b, Lit(0)),
      SimpleTimesNegative(h, a, b, min, max),
      If(h, Eq(h, b, Lit(0)),
        Lit(0),
        If(h, Lt(h, a, Lit(0)), Lt(h, a, Div(h, min, b)), Lt(h, Div(h, max, b), a))))
  }

  function SimpleTimesNegative(h: Host, a: Exp, b: Exp, min: Exp, max: Exp): (e: Exp)
    ensures e.ty == INT_T
  {
    If(h, Lt(h, a, Lit(0)),
      Lt(h, a, Div(h, max, b)),
      If(h, Eq(h, b, Lit(-1)), Lit(0), Lt(h, Div(h, min, b), a)))
  }

  function LeftShiftOverflow(h: Host, a: Exp, n: int): Exp {
    If(h, Lt(h, a, Lit(0)), Lt(h, a, Shr(h, IntMinimum(h, a), n)), Lt(h, Shr(h, IntMaximum(h, a), n), a))
  }

  // ----- _GL_<op>_OVERFLOW and INT_<op>_OVERFLOW (lines 342-354, 429-458) -----

  function AddOverflow(h: Host, a: Exp, b: Exp): Exp {
    AddOverflowIn(h, a, b, IntMinimum(h, IntConvert(h, a, b)), IntMaximum(h, IntConvert(h, a, b)))
  }

  function AddOverflowIn(h: Host, a: Exp, b: Exp, min: Exp, max: Exp): Exp {
    If(h, Lt(h, min, Lit(0)),
      SimpleAdd(h, a, b, min, max),
      If(h, Lt(h, a, Lit(0)),
        Le(h, b, Add(h, a, b)),
        If(h, Lt(h, b, Lit(0)), Le(h, a, Add(h, a, b)), Lt(h, Add(h, a, b), b))))
  }

  function SubtractOverflow(h: Host, a: Exp, b: Exp): Exp {
    SubtractOverflowIn(h, a, b, IntMinimum(h, IntConvert(h, a, b)), IntMaximum(h, IntConvert(h, a, b)))
  }

  function SubtractOverflowIn(h: Host, a: Exp, b: Exp, min: Exp, max: Exp): Exp {
    If(h, Lt(h, min, Lit(0)),
      SimpleSubtract(h, a, b, min, max),
      If(h, Lt(h, a, Lit(0)),
        Lit(1),
        If(h, Lt(h, b, Lit(0)), Le(h, Sub(h, a, b), a), Lt(h, a, b))))
  }

  function MultiplyOverflow(h: Host, a: Exp, b: Exp): Exp {
    MultiplyOverflowIn(h, a, b, IntMinimum(h, IntConvert(h, a, b)), IntMaximum(h, IntConvert(h, a, b)))
  }

  function MultiplyOverflowIn(h: Host, a: Exp, b: Exp, min: Exp, max: Exp): Exp {
    Or(And(Eq(h, min, Lit(0)),
           Or(And(Lt(h, a, Lit(0)), Lt(h, Lit(0), b)), And(Lt(h, b, Lit(0)), Lt(h, Lit(0), a)))),
       SimpleMultiply(h, a, b, min, max))
  }

  // ----- the bounds of the common type -----

  lemma CommonBounds(h: Host, a: Exp, b: Exp)
    requires Defined(h, b)
    ensures var c, z := Common(h, a.ty, b.ty), IntConvert(h, a, b);
      && IntMinimum(h, z) == Exp(c, Some(Min(h, c))) && IntMaximum(h, z) == Exp(c, Some(Max(h, c)))
      && Defined(h, IntMinimum(h, z)) && Defined(h, IntMaximum(h, z)) && c.rank >= INT
  {
    hide Common, Half, Promote, IntMinimum, IntMaximum, IntConvert;
    ConvertIs(h, a, b);
    BoundsAre(h, IntConvert(h, a, b));
    CommonInt(h, Common(h, a.ty, b.ty));
  }

  /** In an unsigned common type at most one operand is negative. */
  lemma UnsignedOperands(h: Host, a: Exp, b: Exp)
    requires Defined(h, a) && Defined(h, b) && !Common(h, a.ty, b.ty).signed
    ensures a.val.value >= 0 || b.val.value >= 0
    ensures var c := Common(h, a.ty, b.ty);
      && 0 <= a.val.value + Half(h, c) && 0 <= b.val.value + Half(h, c)
      && a.val.value <= Max(h, c) && b.val.value <= Max(h, c)
  {
    hide Common, Half, Promote;
    CommonKeeps(h, a.ty, b.ty);
  }

  // ----- addition -----

  lemma SimpleAddIs(h: Host, a: Exp, b: Exp, min: Exp, max: Exp)
    requires Defined(h, a) && Defined(h, b) 
    requires Common(h, a.ty, b.ty).signed || 0 <= a.val.value
    requires var c := Common(h, a.ty, b.ty); min == Exp(c, Some(Min(h, c))) && max == Exp(c, Some(Max(h, c)))
    ensures SimpleAdd(h, a, b, min, max) == Truth(!Fits(h, Common(h, a.ty, b.ty), a.val.value + b.val.value))
  {
    hide Common, Half, Promote, Lt, Sub, If;
    CommonAbsorbs(h, a.ty, b.ty);
    CommonKeeps(h, a.ty, b.ty);
    IsNegative(h, b);
    if b.val.value < 0 {
      var c := SubLaw(h, min, b);
      CompareIs(h, a, Sub(h, min, b));
    } else {
      var c := SubLaw(h, max, b);
      CompareIs(h, Sub(h, max, b), a);
    }
    IfTruth(h, b.val.value < 0, Lt(h, a, Sub(h, min, b)), Lt(h, Sub(h, max, b), a),
            !Fits(h, Common(h, a.ty, b.ty), a.val.value + b.val.value));
  }

  /** INT_ADD_OVERFLOW is true exactly when the sum does not fit the common type. */
  lemma AddOverflowExact(h: Host, a: Exp, b: Exp)
    requires Defined(h, a) && Defined(h, b)
    ensures AddOverflow(h, a, b) == Truth(!Fits(h, Common(h, a.ty, b.ty), a.val.value + b.val.value))
  {
    hide Common, Half, Promote, Lt, Le, Add, If, SimpleAdd, IntMinimum, IntMaximum, IntConvert;
    var c := Common(h, a.ty, b.ty);
    var min, max := IntMinimum(h, IntConvert(h, a, b)), IntMaximum(h, IntConvert(h, a, b));
    CommonBounds(h, a, b);
    IsNegative(h, min);
    var over := !Fits(h, c, a.val.value + b.val.value);
    var both := If(h, Lt(h, b, Lit(0)), Le(h, a, Add(h, a, b)), Lt(h, Add(h, a, b), b));
    var rest := If(h, Lt(h, a, Lit(0)), Le(h, b, Add(h, a, b)), both);
    IfTy(h, Lt(h, b, Lit(0)), Le(h, a, Add(h, a, b)), Lt(h, Add(h, a, b), b));
    IfTy(h, Lt(h, a, Lit(0)), Le(h, b, Add(h, a, b)), both);
    if c.signed {
      SimpleAddIs(h, a, b, min, max);
    } else {
      UnsignedSum(h, a, b);
      if a.val.value >= 0 {
        IfTruth(h, b.val.value < 0, Le(h, a, Add(h, a, b)), Lt(h, Add(h, a, b), b), over);
      }
      IfTruth(h, a.val.value < 0, Le(h, b, Add(h, a, b)), both, over);
    }
    IfTruth(h, c.signed, SimpleAdd(h, a, b, min, max), rest, over);
  }

  lemma UnsignedSum(h: Host, a: Exp, b: Exp)
    requires Defined(h, a) && Defined(h, b) && !Common(h, a.ty, b.ty).signed
    ensures var over := Truth(!Fits(h, Common(h, a.ty, b.ty), a.val.value + b.val.value));
      && (a.val.value < 0 ==> Le(h, b, Add(h, a, b)) == over)
      && (a.val.value >= 0 > b.val.value ==> Le(h, a, Add(h, a, b)) == over)
      && (a.val.value >= 0 && b.val.value >= 0 ==> Lt(h, Add(h, a, b), b) == over)
    ensures Lt(h, a, Lit(0)) == Truth(a.val.value < 0) && Lt(h, b, Lit(0)) == Truth(b.val.value < 0)
  {
    hide Common, Half, Promote, Lt, Le, Add;
    IsNegative(h, a);
    IsNegative(h, b);
    UnsignedOperands(h, a, b);
    var c := AddLaw(h, a, b);
    if a.val.value < 0 || b.val.value >= 0 {
      CompareIs(h, b, Add(h, a, b));
      CompareIs(h, Add(h, a, b), b);
    } else {
      CompareIs(h, a, Add(h, a, b));
    }
  }

  // ----- subtraction -----

  lemma SimpleSubtractIs(h: Host, a: Exp, b: Exp, min: Exp, max: Exp)
    requires Defined(h, a) && Defined(h, b) 
    requires Common(h, a.ty, b.ty).signed || 0 <= a.val.value
    requires var c := Common(h, a.ty, b.ty); min == Exp(c, Some(Min(h, c))) && max == Exp(c, Some(Max(h, c)))
    ensures SimpleSubtract(h, a, b, min, max) == Truth(!Fits(h, Common(h, a.ty, b.ty), a.val.value - b.val.value))
  {
    hide Common, Half, Promote, Lt, Add, If;
    CommonAbsorbs(h, a.ty, b.ty);
    CommonKeeps(h, a.ty, b.ty);
    IsNegative(h, b);
    if b.val.value < 0 {
      var c := AddLaw(h, max, b);
      CompareIs(h, Add(h, max, b), a);
    } else {
      var c := AddLaw(h, min, b);
      CompareIs(h, a, Add(h, min, b));
    }
    IfTruth(h, b.val.value < 0, Lt(h, Add(h, max, b), a), Lt(h, a, Add(h, min, b)),
            !Fits(h, Common(h, a.ty, b.ty), a.val.value - b.val.value));
  }

  lemma UnsignedDifference(h: Host, a: Exp, b: Exp)
    requires Defined(h, a) && Defined(h, b) && !Common(h, a.ty, b.ty).signed
    ensures var over := Truth(!Fits(h, Common(h, a.ty, b.ty), a.val.value - b.val.value));
      && (a.val.value < 0 ==> Truth(true) == over)
      && (a.val.value >= 0 > b.val.value ==> Le(h, Sub(h, a, b), a) == over)
      && (a.val.value >= 0 && b.val.value >= 0 ==> Lt(h, a, b) == over)
    ensures Lt(h, a, Lit(0)) == Truth(a.val.value < 0) && Lt(h, b, Lit(0)) == Truth(b.val.value < 0)
  {
    hide Common, Half, Promote, Lt, Le, Sub;
    IsNegative(h, a);
    IsNegative(h, b);
    UnsignedOperands(h, a, b);
    if a.val.value >= 0 && b.val.value >= 0 {
      CompareIs(h, a, b);
    } else if a.val.value >= 0 {
      var c := SubLaw(h, a, b);
      CompareIs(h, Sub(h, a, b), a);
    }
  }

  /** INT_SUBTRACT_OVERFLOW is true exactly when the difference does not fit the common type. */
  lemma SubtractOverflowExact(h: Host, a: Exp, b: Exp)
    requires Defined(h, a) && Defined(h, b)
    ensures SubtractOverflow(h, a, b) == Truth(!Fits(h, Common(h, a.ty, b.ty), a.val.value - b.val.value))
  {
    hide Common, Half, Promote, Lt, Le, Sub, If, SimpleSubtract, IntMinimum, IntMaximum, IntConvert;
    var c := Common(h, a.ty, b.ty);
    var min, max := IntMinimum(h, IntConvert(h, a, b)), IntMaximum(h, IntConvert(h, a, b));
    CommonBounds(h, a, b);
    IsNegative(h, min);
    var over := !Fits(h, c, a.val.value - b.val.value);
    var both := If(h, Lt(h, b, Lit(0)), Le(h, Sub(h, a, b), a), Lt(h, a, b));
    var rest := If(h, Lt(h, a, Lit(0)), Lit(1), both);
    IfTy(h, Lt(h, b, Lit(0)), Le(h, Sub(h, a, b), a), Lt(h, a, b));
    IfTy(h, Lt(h, a, Lit(0)), Lit(1), both);
    if c.signed {
      SimpleSubtractIs(h, a, b, min, max);
    } else {
      UnsignedDifference(h, a, b);
      if a.val.value >= 0 {
        IfTruth(h, b.val.value < 0, Le(h, Sub(h, a, b), a), Lt(h, a, b), over);
      }
      IfTruth(h, a.val.value < 0, Lit(1), both, over);
    }
    IfTruth(h, c.signed, SimpleSubtract(h, a, b, min, max), rest, over);
  }

  // ----- multiplication -----

  lemma SimpleTimesNegativeIs(h: Host, a: Exp, b: Exp, min: Exp, max: Exp)
    requires Defined(h, a) && Defined(h, b) && Common(h, a.ty, b.ty).signed && b.val.value < 0
    requires var c := Common(h, a.ty, b.ty); min == Exp(c, Some(Min(h, c))) && max == Exp(c, Some(Max(h, c)))
    ensures SimpleTimesNegative(h, a, b, min, max) == Truth(!Fits(h, Common(h, a.ty, b.ty), a.val.value * b.val.value))
  {
    hide Common, Half, Promote, Lt, Eq, Div, If, Quot;
    var c := Common(h, a.ty, b.ty);
    var over := !Fits(h, c, a.val.value * b.val.value);
    CommonAbsorbs(h, a.ty, b.ty);
    CommonKeeps(h, a.ty, b.ty);
    LitIs(h, -1);
    IsNegative(h, a);
    CompareIs(h, b, Lit(-1));
    SignOfProduct(a.val.value, b.val.value);
    QuotBound(a.val.value, b.val.value, Min(h, c), Half(h, c) - 1);
    var rest := If(h, Eq(h, b, Lit(-1)), Lit(0), Lt(h, Div(h, min, b), a));
    IfTy(h, Eq(h, b, Lit(-1)), Lit(0), Lt(h, Div(h, min, b), a));
    if a.val.value < 0 {
      DivIs(h, max, b);
      CompareIs(h, a, Div(h, max, b));
    } else {
      if b.val.value != -1 {
        DivIs(h, min, b);
        CompareIs(h, Div(h, min, b), a);
      }
      IfTruth(h, b.val.value == -1, Lit(0), Lt(h, Div(h, min, b), a), over);
    }
    IfTruth(h, a.val.value < 0, Lt(h, a, Div(h, max, b)), rest, over);
  }

  lemma MinusZero(h: Host, a: Exp, b: Exp, min: Exp)
    requires Defined(h, a) && Defined(h, b) && !Common(h, a.ty, b.ty).signed
    requires min == Exp(Common(h, a.ty, b.ty), Some(0)) && a.val.value == 0 && b.val.value < 0
    ensures Lt(h, Div(h, min, b), a) == Truth(false)
  {
    hide Common, Half, Promote, Lt;
    CommonAbsorbs(h, a.ty, b.ty);
    CommonKeeps(h, a.ty, b.ty);
    var c := Common(h, a.ty, b.ty);
    Operands(h, min, b);
    ResultNear(h, c, 0);
    assert Div(h, min, b) == Exp(c, Some(0));
    CompareIs(h, Div(h, min, b), a);
  }

  lemma SimpleMultiplySignedIs(h: Host, a: Exp, b: Exp, min: Exp, max: Exp)
    requires Defined(h, a) && Defined(h, b) && Common(h, a.ty, b.ty).signed
    requires var c := Common(h, a.ty, b.ty); min == Exp(c, Some(Min(h, c))) && max == Exp(c, Some(Max(h, c)))
    ensures SimpleMultiply(h, a, b, min, max) == Truth(!Fits(h, Common(h, a.ty, b.ty), a.val.value * b.val.value))
  {
    hide Common, Half, Promote, Lt, Eq, Div, If, Quot, SimpleTimesNegative;
    var c := Common(h, a.ty, b.ty);
    var over := !Fits(h, c, a.val.value * b.val.value);
    CommonAbsorbs(h, a.ty, b.ty);
    IsNegative(h, a);
    IsNegative(h, b);
    IsZero(h, b);
    var pos := If(h, Lt(h, a, Lit(0)), Lt(h, a, Div(h, min, b)), Lt(h, Div(h, max, b), a));
    var rest := If(h, Eq(h, b, Lit(0)), Lit(0), pos);
    IfTy(h, Lt(h, a, Lit(0)), Lt(h, a, Div(h, min, b)), Lt(h, Div(h, max, b), a));
    IfTy(h, Eq(h, b, Lit(0)), Lit(0), pos);
    if b.val.value < 0 {
      SimpleTimesNegativeIs(h, a, b, min, max);
    } else {
      if b.val.value > 0 {
        SimpleTimesPositiveIs(h, a, b, min, max);
      }
      IfTruth(h, b.val.value == 0, Lit(0), pos, over);
    }
    IfTruth(h, b.val.value < 0, SimpleTimesNegative(h, a, b, min, max), rest, over);
  }

  lemma SimpleTimesPositiveIs(h: Host, a: Exp, b: Exp, min: Exp, max: Exp)
    requires Defined(h, a) && Defined(h, b) && Common(h, a.ty, b.ty).signed && b.val.value > 0
    requires var c := Common(h, a.ty, b.ty); min == Exp(c, Some(Min(h, c))) && max == Exp(c, Some(Max(h, c)))
    ensures If(h, Lt(h, a, Lit(0)), Lt(h, a, Div(h, min, b)), Lt(h, Div(h, max, b), a))
         == Truth(!Fits(h, Common(h, a.ty, b.ty), a.val.value * b.val.value))
  {
    hide Common, Half, Promote, Lt, Div, If, Quot;
    var c := Common(h, a.ty, b.ty);
    CommonAbsorbs(h, a.ty, b.ty);
    CommonKeeps(h, a.ty, b.ty);
    IsNegative(h, a);
    SignOfProduct(a.val.value, b.val.value);
    QuotBound(a.val.value, b.val.value, Min(h, c), Max(h, c));
    DivIs(h, max, b);
    DivIs(h, min, b);
    CompareIs(h, a, Div(h, min, b));
    CompareIs(h, Div(h, max, b), a);
    IfTruth(h, a.val.value < 0, Lt(h, a, Div(h, min, b)), Lt(h, Div(h, max, b), a),
            !Fits(h, c, a.val.value * b.val.value));
  }

  /** With a zero minimum, only operands of one sign, or a zero, get this far. */
  lemma SimpleMultiplyUnsignedIs(h: Host, a: Exp, b: Exp, min: Exp, max: Exp)
    requires Defined(h, a) && Defined(h, b) && !Common(h, a.ty, b.ty).signed
    requires var c := Common(h, a.ty, b.ty); min == Exp(c, Some(0)) && max == Exp(c, Some(Max(h, c)))
    requires !(a.val.value < 0 < b.val.value) && !(b.val.value < 0 < a.val.value)
    ensures SimpleMultiply(h, a, b, min, max) == Truth(!Fits(h, Common(h, a.ty, b.ty), a.val.value * b.val.value))
  {
    hide Common, Half, Promote, Lt, Eq, Div, If, SimpleTimesNegative;
    var c := Common(h, a.ty, b.ty);
    var over := !Fits(h, c, a.val.value * b.val.value);
    CommonAbsorbs(h, a.ty, b.ty);
    UnsignedOperands(h, a, b);
    IsNegative(h, a);
    IsNegative(h, b);
    IsZero(h, b);
    SignOfProduct(a.val.value, b.val.value);
    var pos := If(h, Lt(h, a, Lit(0)), Lt(h, a, Div(h, min, b)), Lt(h, Div(h, max, b), a));
    var rest := If(h, Eq(h, b, Lit(0)), Lit(0), pos);
    IfTy(h, Lt(h, a, Lit(0)), Lt(h, a, Div(h, min, b)), Lt(h, Div(h, max, b), a));
    IfTy(h, Eq(h, b, Lit(0)), Lit(0), pos);
    if b.val.value < 0 {
      ZeroTimesNegative(h, a, b, min, max);
    } else {
      if b.val.value > 0 {
        BothPositiveIs(h, a, b, max);
        IfTruth(h, false, Lt(h, a, Div(h, min, b)), Lt(h, Div(h, max, b), a), over);
      }
      IfTruth(h, b.val.value == 0, Lit(0), pos, over);
    }
    IfTruth(h, b.val.value < 0, SimpleTimesNegative(h, a, b, min, max), rest, over);
  }

  lemma ZeroTimesNegative(h: Host, a: Exp, b: Exp, min: Exp, max: Exp)
    requires Defined(h, a) && Defined(h, b) && !Common(h, a.ty, b.ty).signed
    requires min == Exp(Common(h, a.ty, b.ty), Some(0)) && a.val.value == 0 && b.val.value < 0
    ensures SimpleTimesNegative(h, a, b, min, max) == Truth(false)
  {
    hide Common, Half, Promote, Lt, Eq, Div, If;
    LitIs(h, -1);
    IsNegative(h, a);
    MinusZero(h, a, b, min);
    CompareIs(h, b, Lit(-1));
    var rest := If(h, Eq(h, b, Lit(-1)), Lit(0), Lt(h, Div(h, min, b), a));
    IfTruth(h, b.val.value == -1, Lit(0), Lt(h, Div(h, min, b), a), false);
    IfTruth(h, false, Lt(h, a, Div(h, max, b)), rest, false);
  }

  /** INT_MULTIPLY_OVERFLOW is true exactly when the product does not fit the common type. */
  lemma MultiplyOverflowExact(h: Host, a: Exp, b: Exp)
    requires Defined(h, a) && Defined(h, b)
    ensures MultiplyOverflow(h, a, b) == Truth(!Fits(h, Common(h, a.ty, b.ty), a.val.value * b.val.value))
  {
    hide Common, Half, Promote, Lt, Eq, SimpleMultiply, IntMinimum, IntMaximum, IntConvert;
    var c := Common(h, a.ty, b.ty);
    var min, max := IntMinimum(h, IntConvert(h, a, b)), IntMaximum(h, IntConvert(h, a, b));
    CommonBounds(h, a, b);
    IsZero(h, min);
    IsNegative(h, a);
    IsNegative(h, b);
    if c.signed {
      SimpleMultiplySignedIs(h, a, b, min, max);
    } else if (a.val.value < 0 < b.val.value) || (b.val.value < 0 < a.val.value) {
      OppositeProduct(a.val.value, b.val.value);
    } else {
      SimpleMultiplyUnsignedIs(h, a, b, min, max);
    }
  }

  // ----- left shift -----

  lemma ShiftBound(x: int, w: nat, n: nat)
    requires n <= w && x < 0
    ensures x * Pow2(n) < 0 - Pow2(w) <==> x < (0 - Pow2(w)) / Pow2(n)
  {
    Pow2Add(w - n, n);
    ExactQuotient(x, Pow2(w - n), Pow2(n));
  }

  lemma ExactQuotient(x: int, q: nat, m: nat)
    requires m > 0
    ensures x * m < 0 - q * m <==> x < 0 - q
    ensures (0 - q * m) / m == 0 - q
  {
    assert 0 - q * m == (0 - q) * m;
    ExactDivision(0 - q, m);
    assert x * m < (0 - q) * m <==> x < 0 - q;
  }

  /** INT_LEFT_SHIFT_OVERFLOW is true exactly when a * 2^n does not fit a's promoted type. */
  lemma LeftShiftOverflowExact(h: Host, a: Exp, n: nat)
    requires Defined(h, a) && n < Width(h, Promote(h, a.ty))
    ensures LeftShiftOverflow(h, a, n) == Truth(!Fits(h, Promote(h, a.ty), a.val.value * Pow2(n)))
  {
    hide Common, Promote, Lt, If, IntMinimum, IntMaximum;
    var p := Promote(h, a.ty);
    BoundsAre(h, a);
    PromoteKeeps(h, a.ty);
    CommonInt(h, p);
    IsNegative(h, a);
    var below, above := Shr(h, IntMinimum(h, a), n), Shr(h, IntMaximum(h, a), n);
    var over := !Fits(h, p, a.val.value * Pow2(n));
    SignOfProduct(a.val.value, Pow2(n));
    if a.val.value < 0 {
      ShiftBound(a.val.value, Width(h, p) - 1, n);
      FloorNear(Min(h, p), Pow2(n));
      CompareIs(h, a, below);
    } else {
      FloorBound(Max(h, p), Pow2(n), a.val.value);
      DivShrinks(Max(h, p), Pow2(n));
      CompareIs(h, above, a);
    }
    IfTruth(h, a.val.value < 0, Lt(h, a, below), Lt(h, above, a), over);
  }
}