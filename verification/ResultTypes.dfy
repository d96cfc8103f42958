/** The type in which C computes, as one rule instead of two conversions, and what
    the macros of benchtests/port/intprops.h then say of operands of given types. */
module ResultTypes {
  import opened Arithmetic
  import opened CIntegers
  import opened TypeQueries
  import opened RangeOverflow
  import opened TypeOverflow
  import opened Wrapv
  import opened Options

  // ----- the rule -----

  /** Sections 6.3.1.1 and 6.3.1.8 taken together: the highest rank among those of int
      and the operands, and unsigned only if the signed type of that rank cannot hold
      what one of the operands' types can. */
  predicate ComputedIn(h: Host, s: IntType, t: IntType, c: IntType) {
    && INT <= c.rank && s.rank <= c.rank && t.rank <= c.rank
    && (c.rank == INT || c.rank == s.rank || c.rank == t.rank)
    && (c.signed <==> Max(h, s) <= Max(h, IntType(c.rank, true)) && Max(h, t) <= Max(h, IntType(c.rank, true)))
  }

  lemma MaxMono(h: Host, s: IntType, t: IntType)
    ensures s.rank <= t.rank && s.signed == t.signed ==> Max(h, s) <= Max(h, t)
    ensures s.rank <= t.rank && s.signed ==> Max(h, s) < Max(h, IntType(t.rank, false))
  {
    HalfMono(h, s, t);
  }

  lemma PromotedIs(h: Host, t: IntType, c: IntType)
    requires ComputedIn(h, t, t, c)
    ensures Promote(h, t) == c
  {
    hide Half, Max;
    MaxMono(h, t, INT_T);
    MaxMono(h, t, t);
    MaxMono(h, INT_T, t);
    MaxMono(h, IntType(t.rank, true), t);
  }

  lemma UnsignedPromoted(h: Host, t: IntType)
    requires !Promote(h, t).signed
    ensures Max(h, Promote(h, t)) == Max(h, t) && Max(h, IntType(t.rank, true)) < Max(h, t)
    ensures Max(h, INT_T) < Max(h, t)
  {
    HalfMono(h, t, UINT_T);
    HalfMono(h, t, INT_T);
    HalfMono(h, INT_T, t);
  }

  lemma CommonIs(h: Host, s: IntType, t: IntType, c: IntType)
    requires ComputedIn(h, s, t, c)
    ensures Common(h, s, t) == c
  {
    hide Half, Max;
    var p, q, r := Promote(h, s), Promote(h, t), IntType(c.rank, true);
    if p.signed { PromoteKeeps(h, s); } else { UnsignedPromoted(h, s); }
    if q.signed { PromoteKeeps(h, t); } else { UnsignedPromoted(h, t); }
    MaxMono(h, p, r); MaxMono(h, q, r);
    MaxMono(h, IntType(p.rank, true), p); MaxMono(h, IntType(q.rank, true), q);
  }

  // ----- the macros by that rule -----

  /** INT_ADD_, INT_SUBTRACT_ and INT_MULTIPLY_OVERFLOW are exact for the type C computes in. */
  lemma BinaryOverflowsAre(h: Host, a: Exp, b: Exp, c: IntType)
    requires Defined(h, a) && Defined(h, b) && ComputedIn(h, a.ty, b.ty, c)
    ensures AddOverflow(h, a, b) == Truth(!Fits(h, c, a.val.value + b.val.value))
    ensures SubtractOverflow(h, a, b) == Truth(!Fits(h, c, a.val.value - b.val.value))
    ensures MultiplyOverflow(h, a, b) == Truth(!Fits(h, c, a.val.value * b.val.value))
  {
    hide *;
    CommonIs(h, a.ty, b.ty, c);
    AddOverflowExact(h, a, b);
    SubtractOverflowExact(h, a, b);
    MultiplyOverflowExact(h, a, b);
  }

  /** The same for INT_NEGATE_OVERFLOW, INT_LEFT_SHIFT_OVERFLOW and the queries about one expression. */
  lemma UnaryOverflowsAre(h: Host, a: Exp, n: nat, c: IntType)
    requires Defined(h, a) && ComputedIn(h, a.ty, a.ty, c) && n < Width(h, c)
    ensures ExprSigned(h, a) == Truth(c.signed)
    ensures IntMinimum(h, a) == Exp(c, Some(Min(h, c))) && IntMaximum(h, a) == Exp(c, Some(Max(h, c)))
    ensures NegateOverflow(h, a) == Truth(!Fits(h, c, -a.val.value))
    ensures LeftShiftOverflow(h, a, n) == Truth(!Fits(h, c, a.val.value * Pow2(n)))
  {
    hide *;
    PromotedIs(h, a.ty, c);
    ExprSignedIs(h, a);
    BoundsAre(h, a);
    NegateOverflowExact(h, a);
    LeftShiftOverflowExact(h, a, n);
  }

  /** _GL_INT_CONVERT yields that type, and the value of v wherever it has it. */
  lemma ConvertedIs(h: Host, e: Exp, v: Exp, c: IntType)
    requires Defined(h, v) && ComputedIn(h, e.ty, v.ty, c)
    ensures IntConvert(h, e, v).ty == c && Defined(h, IntConvert(h, e, v))
    ensures Fits(h, c, v.val.value) ==> IntConvert(h, e, v).val == v.val
    ensures ExprSigned(h, IntConvert(h, e, v)) == Truth(c.signed)
  {
    hide Common, IntConvert, ExprSigned;
    CommonIs(h, e.ty, v.ty, c);
    ConvertIs(h, e, v);
    ConvertSigned(h, e, v);
  }

  // ----- operands of higher rank -----

  /** An operand of at least int's and the other operand's rank decides: C computes in
      its type, unless that is signed and cannot hold what the other's type can, and
      then in the unsigned type of its rank. */
  lemma HigherRankDecides(h: Host, a: Exp, b: Exp)
    requires Defined(h, a) && Defined(h, b) && INT <= a.ty.rank && b.ty.rank <= a.ty.rank
    ensures var c := if Max(h, b.ty) <= Max(h, a.ty) then a.ty else IntType(a.ty.rank, false);
      && AddOverflow(h, a, b) == AddOverflow(h, b, a) == Truth(!Fits(h, c, a.val.value + b.val.value))
      && MultiplyOverflow(h, a, b) == MultiplyOverflow(h, b, a) == Truth(!Fits(h, c, a.val.value * b.val.value))
      && SubtractOverflow(h, a, b) == Truth(!Fits(h, c, a.val.value - b.val.value))
      && SubtractOverflow(h, b, a) == Truth(!Fits(h, c, b.val.value - a.val.value))
  {
    hide Half, Max, AddOverflow, SubtractOverflow, MultiplyOverflow;
    var c := if Max(h, b.ty) <= Max(h, a.ty) then a.ty else IntType(a.ty.rank, false);
    MaxMono(h, b.ty, IntType(a.ty.rank, false));
    MaxMono(h, b.ty, a.ty);
    MaxMono(h, IntType(a.ty.rank, true), a.ty);
    BinaryOverflowsAre(h, a, b, c);
    BinaryOverflowsAre(h, b, a, c);
    assert b.val.value + a.val.value == a.val.value + b.val.value;
    assert b.val.value * a.val.value == a.val.value * b.val.value;
  }

  // ----- operands narrower than int -----

  /** Types at least two bits narrower than int are computed in int, signed or not. */
  lemma NarrowIsInt(h: Host, s: IntType, t: IntType)
    requires Width(h, s) + 2 <= Width(h, INT_T) && Width(h, t) + 2 <= Width(h, INT_T)
    ensures ComputedIn(h, s, t, INT_T)
    ensures 4 * Half(h, s) <= Half(h, INT_T) && 4 * Half(h, t) <= Half(h, INT_T)
  {
    HalfMono(h, INT_T, s);
    HalfMono(h, INT_T, t);
    Quarter(h, s);
    Quarter(h, t);
  }

  lemma Quarter(h: Host, s: IntType)
    requires Width(h, s) + 2 <= Width(h, INT_T)
    ensures 4 * Half(h, s) <= Half(h, INT_T)
  {
    Pow2Mono(Width(h, s) + 1, Width(h, INT_T) - 1);
    assert Pow2(Width(h, s) + 1) == 2 * Pow2(Width(h, s)) == 4 * Pow2(Width(h, s) - 1);
  }

  /** So their sums, differences and negatives never overflow (lines 413-420), whatever
      their signedness, and their products exactly where they leave int. */
  lemma NarrowNeverOverflows(h: Host, a: Exp, b: Exp)
    requires Defined(h, a) && Defined(h, b)
    requires Width(h, a.ty) + 2 <= Width(h, INT_T) && Width(h, b.ty) + 2 <= Width(h, INT_T)
    ensures AddOverflow(h, a, b) == Truth(false) && SubtractOverflow(h, a, b) == Truth(false)
    ensures MultiplyOverflow(h, a, b) == Truth(!Fits(h, INT_T, a.val.value * b.val.value))
    ensures NegateOverflow(h, a) == Truth(false) && ExprSigned(h, a) == Truth(true)
  {
    hide Half, AddOverflow, SubtractOverflow, MultiplyOverflow, NegateOverflow, ExprSigned;
    NarrowIsInt(h, a.ty, b.ty);
    NarrowIsInt(h, a.ty, a.ty);
    BinaryOverflowsAre(h, a, b, INT_T);
    UnaryOverflowsAre(h, a, 0, INT_T);
  }

  /** Their INT_ADD_WRAPV, INT_SUBTRACT_WRAPV and INT_MULTIPLY_WRAPV report exactly the
      results that do not fit where they are stored. */
  lemma NarrowWrapv(h: Host, op: Op, a: Exp, b: Exp, t: IntType)
    requires Defined(h, a) && Defined(h, b)
    requires Width(h, a.ty) + 2 <= Width(h, INT_T) && Width(h, b.ty) + 2 <= Width(h, INT_T)
    ensures IntWrapv(h, op, a, b, t).flag == Truth(!Fits(h, t, Exact(op, a.val.value, b.val.value)))
  {
    hide Half, Exact, IntWrapv;
    NarrowIsInt(h, a.ty, b.ty);
    SumsInSigned(h, op, a, b, t, INT_T);
  }

  /** Where C computes in a signed type, the flag is exact for additions too. */
  lemma SumsInSigned(h: Host, op: Op, a: Exp, b: Exp, t: IntType, c: IntType)
    requires Defined(h, a) && Defined(h, b) && ComputedIn(h, a.ty, b.ty, c) && c.signed
    ensures IntWrapv(h, op, a, b, t).flag == Truth(!Fits(h, t, Exact(op, a.val.value, b.val.value)))
    ensures !WrapsUnseen(h, a, b, Min(h, t), Max(h, t))
  {
    hide Common, Half, Convert, IntWrapv, Exact;
    CommonIs(h, a.ty, b.ty, c);
    WrapvExact(h, op, a, b, t);
  }

  /** What the condition of the addition check comes to: among the sums in range, those it
      misjudges are negative, are computed in an unsigned type, and have an operand above
      the range. */
  lemma MisjudgedSums(h: Host, a: Exp, b: Exp, tmin: Exp, tmax: Exp, c: IntType)
    requires Defined(h, a) && Defined(h, b) && Range(h, tmin, tmax) && ComputedIn(h, a.ty, b.ty, c)
    ensures var v := a.val.value + b.val.value;
      AddRangeOverflow(h, a, b, tmin, tmax) ==
        Truth(!(tmin.val.value <= v <= tmax.val.value)
              || (!c.signed && v < 0 && (tmax.val.value < a.val.value || tmax.val.value < b.val.value)))
  {
    hide Common, Half, AddRangeOverflow;
    CommonIs(h, a.ty, b.ty, c);
    AddRangeExact(h, a, b, tmin, tmax);
  }
}
