/** benchtests/port/support/timespec.c: saturating subtraction of times. */
module Timespec {
  import opened CIntegers
  import opened TypeQueries
  import opened Wrapv
  import opened Options

  const TIMESPEC_HZ := 1_000_000_000

  datatype Time = Time(sec: int, nsec: int)

  /** A normalised time whose seconds are a time_t. */
  predicate Normal(h: Host, timeT: IntType, t: Time) {
    Fits(h, timeT, t.sec) && 0 <= t.nsec < TIMESPEC_HZ
  }

  function Nanoseconds(t: Time): int {
    t.sec * TIMESPEC_HZ + t.nsec
  }

  /** v, or the nearer end of the range lo..hi. */
  function Clamp(v: int, lo: int, hi: int): int {
    if v < lo then lo else if v > hi then hi else v
  }

  /** The nanosecond difference, clamped to what a time can hold. */
  function Difference(h: Host, timeT: IntType, a: Time, b: Time): int {
    Clamp(Nanoseconds(a) - Nanoseconds(b),
          Nanoseconds(Time(Min(h, timeT), 0)),
          Nanoseconds(Time(Max(h, timeT), TIMESPEC_HZ - 1)))
  }

  /** -TYPE_SIGNED (time_t) < rs (line 51). */
  lemma CanStepDown(h: Host, timeT: IntType, rs: int)
    requires Fits(h, timeT, rs)
    ensures Lt(h, Neg(h, TypeSigned(h, timeT)), Exp(timeT, Some(rs))) == Truth((if timeT.signed then -1 else 0) < rs)
  {
    hide Common, Half, Promote, Lt, TypeSigned, Neg;
    TypeSignedIs(h, timeT);
    LitIs(h, if timeT.signed then -1 else 0);
    NegTruth(h, timeT.signed);
    CompareIs(h, Lit(if timeT.signed then -1 else 0), Exp(timeT, Some(rs)));
  }

  lemma NegTruth(h: Host, b: bool)
    ensures Neg(h, Truth(b)) == Lit(if b then -1 else 0)
  {
    LitIs(h, -1);
    LitIs(h, 0);
  }

  /** timespec_sub, for a time_t of any width and signedness. An int holds
      TIMESPEC_HZ, since it is an enumeration constant. */
  method TimespecSub(h: Host, timeT: IntType, a: Time, b: Time) returns (r: Time)
    requires Fits(h, INT_T, TIMESPEC_HZ)
    requires Normal(h, timeT, a) && Normal(h, timeT, b)
    ensures Normal(h, timeT, r)
    ensures Nanoseconds(r) == Difference(h, timeT, a, b)
  {
    hide Common, Half, Promote, Lt, Neg, TypeSigned, TypeMinimum, TypeMaximum, IntWrapv, Convert;
    var rs, bs := a.sec, b.sec;
    var ns := a.nsec - b.nsec;
    var rns := ns;
    var low := false;
    TypeBoundsAre(h, timeT);
    LitIs(h, 1);
    Pow2Positive(h, timeT);

    if ns < 0 {
      rns := ns + TIMESPEC_HZ;
      var sum := IntWrapv(h, Plus, Exp(timeT, Some(bs)), Lit(1), timeT);
      PlusIsExactAboveTheMinimum(h, Exp(timeT, Some(bs)), Lit(1), timeT);
      WrapvExact(h, Plus, Exp(timeT, Some(bs)), Lit(1), timeT);
      CanStepDown(h, timeT, rs);
      if sum.flag.val == Some(0) {
        bs := sum.stored.val.value;
      } else if Lt(h, Neg(h, TypeSigned(h, timeT)), Exp(timeT, Some(rs))).val == Some(1) {
        rs := rs - 1;
      } else {
        low := true;
      }
    }

    if !low {
      var diff := IntWrapv(h, Minus, Exp(timeT, Some(rs)), Exp(timeT, Some(bs)), timeT);
      MinusAndTimesMeetTheirDocumentation(h, Minus, Exp(timeT, Some(rs)), Exp(timeT, Some(bs)), timeT);
      WrapvExact(h, Minus, Exp(timeT, Some(rs)), Exp(timeT, Some(bs)), timeT);
      rs := diff.stored.val.value;
      if diff.flag.val == Some(1) {
        if 0 < bs {
          low := true;
        } else {
          rs := TypeMaximum(h, timeT).val.value;
          rns := TIMESPEC_HZ - 1;
        }
      }
    }

    if low {
      rs := TypeMinimum(h, timeT).val.value;
      rns := 0;
    }
    r := Time(rs, rns);
  }

  /** A normalised time is determined by its nanoseconds, so TimespecSub's contract fixes its result. */
  lemma NormalTimesDiffer(h: Host, timeT: IntType, s: Time, t: Time)
    requires Normal(h, timeT, s) && Normal(h, timeT, t) && Nanoseconds(s) == Nanoseconds(t)
    ensures s == t
  {
  }
}
