/** C's integer types, conversions and operators (ISO/IEC 9899:2011, sections
    6.3.1.1, 6.3.1.8, 6.5.5 to 6.5.9 and 6.5.15), for a host with any widths.
    An expression is its static type and its value; the value is absent when
    evaluating it would be undefined behaviour. */
module CIntegers {
  import opened Arithmetic
  import opened Options

  // ----- types -----

  /** The conversion ranks of char, short, int, long and long long. */
  type Rank = r: nat | r < 5

  const CHAR: Rank := 0
  const INT: Rank := 2
  const LONG: Rank := 3

  datatype IntType = IntType(rank: Rank, signed: bool)

  const INT_T := IntType(INT, true)
  const UINT_T := IntType(INT, false)

  /** The width in bits of each rank: any host where a higher rank is at least
      as wide. Section 5.2.4.2.1 sets further minimum widths, which are not needed. */
  datatype Widths = Widths(widths: seq<nat>)
  {
    predicate Valid() {
      && |widths| == 5
      && 8 <= widths[0] <= widths[1] <= widths[2] <= widths[3] <= widths[4]
    }
  }
  type Host = h: Widths | h.Valid() witness Widths([8, 16, 32, 32, 64])

  function Width(h: Host, t: IntType): (w: nat)
    ensures w >= 2
  {
    h.widths[t.rank]
  }

  /** Half the number of values of t: 2^(width-1). */
  function Half(h: Host, t: IntType): (m: nat)
    ensures m >= 1
  {
    Pow2(Width(h, t) - 1)
  }

  function Min(h: Host, t: IntType): int {
    if t.signed then 0 - Half(h, t) else 0
  }

  function Max(h: Host, t: IntType): int {
    if t.signed then Half(h, t) - 1 else 2 * Half(h, t) - 1
  }

  predicate Fits(h: Host, t: IntType, v: int) {
    Min(h, t) <= v <= Max(h, t)
  }

  /** Integer promotion, section 6.3.1.1. */
  function Promote(h: Host, t: IntType): (p: IntType) {
    if t.rank >= INT then t
    else if Max(h, t) <= Max(h, INT_T) then INT_T
    else UINT_T
  }

  /** The common type of the usual arithmetic conversions, section 6.3.1.8. */
  function Common(h: Host, s: IntType, t: IntType): (c: IntType) {
    var p, q := Promote(h, s), Promote(h, t);
    if p == q then p
    else if p.signed == q.signed then
      if p.rank >= q.rank then p else q
    else
      var u, g := if p.signed then q else p, if p.signed then p else q;
      if u.rank >= g.rank then u
      else if Max(h, u) <= Max(h, g) then g
      else IntType(g.rank, false)
  }

  /** Conversion to t, section 6.3.1.3; an out-of-range value converted to a
      signed type keeps its low-order bits, as in every two's complement C. */
  function Convert(h: Host, t: IntType, v: int): (r: int)
    ensures Fits(h, t, r)
  {
    if t.signed then (v + Half(h, t)) % (2 * Half(h, t)) - Half(h, t)
    else v % (2 * Half(h, t))
  }

  // ----- expressions -----

  datatype Exp = Exp(ty: IntType, val: Option<int>)

  /** e evaluates, without undefined behaviour, to v. */
  predicate Is(h: Host, e: Exp, v: int) {
    e.val == Some(v) && Fits(h, e.ty, v)
  }

  predicate Defined(h: Host, e: Exp) {
    e.val.Some? && Fits(h, e.ty, e.val.value)
  }

  function Lit(n: int): Exp {
    Exp(INT_T, Some(n))
  }

  function Truth(b: bool): Exp {
    Lit(if b then 1 else 0)
  }

  /** The value of x converted to c. */
  function As(h: Host, c: IntType, x: Exp): Option<int> {
    match x.val
    case None => None
    case Some(v) => Some(Convert(h, c, v))
  }

  /** A result v of arithmetic in c: signed overflow is undefined, unsigned wraps. */
  function Result(h: Host, c: IntType, v: int): (e: Exp)
    ensures e.ty == c
  {
    if !c.signed then Exp(c, Some(v % (2 * Half(h, c))))
    else if Fits(h, c, v) then Exp(c, Some(v))
    else Exp(c, None)
  }

  function Add(h: Host, x: Exp, y: Exp): (e: Exp)
    ensures e.ty == Common(h, x.ty, y.ty)
  {
    var c := Common(h, x.ty, y.ty);
    match (As(h, c, x), As(h, c, y))
    case (Some(v), Some(w)) => Result(h, c, v + w)
    case _ => Exp(c, None)
  }

  function Sub(h: Host, x: Exp, y: Exp): (e: Exp)
    ensures e.ty == Common(h, x.ty, y.ty)
  {
    var c := Common(h, x.ty, y.ty);
    match (As(h, c, x), As(h, c, y))
    case (Some(v), Some(w)) => Result(h, c, v - w)
    case _ => Exp(c, None)
  }

  function Mul(h: Host, x: Exp, y: Exp): (e: Exp)
    ensures e.ty == Common(h, x.ty, y.ty)
  {
    var c := Common(h, x.ty, y.ty);
    match (As(h, c, x), As(h, c, y))
    case (Some(v), Some(w)) => Result(h, c, v * w)
    case _ => Exp(c, None)
  }

  /** Division truncates toward zero, section 6.5.5. */
  function Quot(v: int, w: int): int
    requires w != 0
  {
    var q := (if v < 0 then -v else v) / (if w < 0 then -w else w);
    if (v < 0) == (w < 0) then q else 0 - q
  }

  function Div(h: Host, x: Exp, y: Exp): (e: Exp)
    ensures e.ty == Common(h, x.ty, y.ty)
  {
    var c := Common(h, x.ty, y.ty);
    match (As(h, c, x), As(h, c, y))
    case (Some(v), Some(w)) => if w == 0 then Exp(c, None) else Result(h, c, Quot(v, w))
    case _ => Exp(c, None)
  }

  function Neg(h: Host, x: Exp): (e: Exp)
    ensures e.ty == Promote(h, x.ty)
  {
    var c := Promote(h, x.ty);
    match x.val
    case Some(v) => Result(h, c, -v)
    case None => Exp(c, None)
  }

  /** Bitwise complement. */
  function Inv(h: Host, x: Exp): (e: Exp)
    ensures e.ty == Promote(h, x.ty)
  {
    var c := Promote(h, x.ty);
    match x.val
    case Some(v) => Exp(c, Some(if c.signed then -1 - v else Max(h, c) - v))
    case None => Exp(c, None)
  }

  /** Section 6.5.7. The type of the count plays no part, so it is a number. */
  function Shl(h: Host, x: Exp, n: int): (e: Exp)
    ensures e.ty == Promote(h, x.ty)
  {
    var c := Promote(h, x.ty);
    match x.val
    case Some(v) =>
      if 0 <= n < Width(h, c) && (c.signed ==> 0 <= v) then Result(h, c, v * Pow2(n))
      else Exp(c, None)
    case None => Exp(c, None)
  }

  /** Right shift of a negative value is arithmetic, as in every host the macros are for. */
  function Shr(h: Host, x: Exp, n: int): (e: Exp)
    ensures e.ty == Promote(h, x.ty)
  {
    var c := Promote(h, x.ty);
    match x.val
    case Some(v) =>
      if 0 <= n < Width(h, c) then Exp(c, Some(v / Pow2(n))) else Exp(c, None)
    case None => Exp(c, None)
  }

  function Lt(h: Host, x: Exp, y: Exp): (e: Exp)
    ensures e.ty == INT_T
  {
    var c := Common(h, x.ty, y.ty);
    match (As(h, c, x), As(h, c, y))
    case (Some(v), Some(w)) => Truth(v < w)
    case _ => Exp(INT_T, None)
  }

  function Le(h: Host, x: Exp, y: Exp): (e: Exp)
    ensures e.ty == INT_T
  {
    var c := Common(h, x.ty, y.ty);
    match (As(h, c, x), As(h, c, y))
    case (Some(v), Some(w)) => Truth(v <= w)
    case _ => Exp(INT_T, None)
  }

  function Eq(h: Host, x: Exp, y: Exp): (e: Exp)
    ensures e.ty == INT_T
  {
    var c := Common(h, x.ty, y.ty);
    match (As(h, c, x), As(h, c, y))
    case (Some(v), Some(w)) => Truth(v == w)
    case _ => Exp(INT_T, None)
  }

  function Not(x: Exp): (e: Exp)
    ensures e.ty == INT_T
  {
    match x.val
    case Some(v) => Truth(v == 0)
    case None => Exp(INT_T, None)
  }

  /** The right operand of && and || is evaluated only when it decides. */
  function And(x: Exp, y: Exp): (e: Exp)
    ensures e.ty == INT_T
  {
    match x.val
    case Some(0) => Truth(false)
    case Some(_) => Not(Not(y))
    case None => Exp(INT_T, None)
  }

  function Or(x: Exp, y: Exp): (e: Exp)
    ensures e.ty == INT_T
  {
    match x.val
    case Some(0) => Not(Not(y))
    case Some(_) => Truth(true)
    case None => Exp(INT_T, None)
  }

  /** c ? x : y evaluates one branch but has the common type of both, section 6.5.15. */
  function If(h: Host, c: Exp, x: Exp, y: Exp): (e: Exp)
    ensures e.ty == Common(h, x.ty, y.ty)
  {
    var t := Common(h, x.ty, y.ty);
    match c.val
    case Some(b) => Exp(t, As(h, t, if b != 0 then x else y))
    case None => Exp(t, None)
  }

  function Cast(h: Host, t: IntType, x: Exp): Exp {
    Exp(t, As(h, t, x))
  }

  // ----- laws of the conversions -----

  lemma HalfMono(h: Host, s: IntType, t: IntType)
    ensures Width(h, s) <= Width(h, t) ==> Half(h, s) <= Half(h, t)
    ensures Width(h, s) < Width(h, t) ==> 2 * Half(h, s) <= Half(h, t)
    ensures s.rank <= t.rank ==> Width(h, s) <= Width(h, t)
  {
    if Width(h, s) <= Width(h, t) {
      Pow2Mono(Width(h, s) - 1, Width(h, t) - 1);
    }
  }

  lemma PromoteKeeps(h: Host, t: IntType)
    ensures Min(h, Promote(h, t)) <= Min(h, t) && Max(h, t) <= Max(h, Promote(h, t))
    ensures Promote(h, t).signed ==> Half(h, t) <= Half(h, Promote(h, t))
    ensures Promote(h, t).rank >= INT
    ensures t.signed ==> Promote(h, t).signed
  {
    HalfMono(h, t, INT_T);
    HalfMono(h, t, UINT_T);
  }

  /** What the usual arithmetic conversions keep: every value when the common
      type is signed, every non-negative one otherwise. */
  lemma CommonKeeps(h: Host, s: IntType, t: IntType)
    ensures var c := Common(h, s, t);
      && c.rank >= INT
      && c == Common(h, t, s)
      && Max(h, s) <= Max(h, c) && Max(h, t) <= Max(h, c)
      && Half(h, c) >= Half(h, Promote(h, s)) && Half(h, c) >= Half(h, Promote(h, t))
      && (c.signed ==> Min(h, c) <= Min(h, s) && Min(h, c) <= Min(h, t))
      && (!c.signed ==> 0 <= Min(h, s) + Half(h, c) && 0 <= Min(h, t) + Half(h, c))
      && (s.signed && t.signed ==> c.signed)
  {
    hide Half, Promote;
    PromoteKeeps(h, s);
    PromoteKeeps(h, t);
    var p, q := Promote(h, s), Promote(h, t);
    HalfMono(h, p, q);
    HalfMono(h, q, p);
    HalfMono(h, p, IntType(p.rank, false));
    HalfMono(h, q, IntType(q.rank, false));
    HalfMono(h, IntType(p.rank, false), p);
    HalfMono(h, IntType(q.rank, false), q);
  }

  lemma ConvertNear(h: Host, t: IntType, v: int)
    ensures Fits(h, t, v) ==> Convert(h, t, v) == v
    ensures !t.signed && -2 * Half(h, t) <= v < 0 ==> Convert(h, t, v) == v + 2 * Half(h, t)
  {
    if Fits(h, t, v) {
      ModOnce(if t.signed then v + Half(h, t) else v, 2 * Half(h, t));
    } else if !t.signed && -2 * Half(h, t) <= v < 0 {
      ModOnce(v, 2 * Half(h, t));
    }
  }

  /** x converted to c, for c at least as large as x's type in CommonKeeps' sense. */
  function Seen(h: Host, c: IntType, v: int): int {
    if c.signed || v >= 0 then v else v + 2 * Half(h, c)
  }

  /** How two defined operands look after the usual arithmetic conversions. */
  lemma Operands(h: Host, x: Exp, y: Exp)
    requires Defined(h, x) && Defined(h, y)
    ensures var c := Common(h, x.ty, y.ty);
      && c.rank >= INT && c == Common(h, y.ty, x.ty)
      && As(h, c, x) == Some(Seen(h, c, x.val.value)) && As(h, c, y) == Some(Seen(h, c, y.val.value))
      && Fits(h, c, Seen(h, c, x.val.value)) && Fits(h, c, Seen(h, c, y.val.value))
      && 0 <= x.val.value + Half(h, c)
      && 0 <= y.val.value + Half(h, c)
      && (x.ty.signed && y.ty.signed ==> c.signed)
  {
    CommonKeeps(h, x.ty, y.ty);
    var c := Common(h, x.ty, y.ty);
    ConvertNear(h, c, x.val.value);
    ConvertNear(h, c, y.val.value);
  }

  lemma ResultNear(h: Host, c: IntType, v: int)
    ensures Fits(h, c, v) ==> Result(h, c, v) == Exp(c, Some(v))
    ensures !c.signed && -2 * Half(h, c) <= v < 0 ==> Result(h, c, v) == Exp(c, Some(v + 2 * Half(h, c)))
    ensures !c.signed && 2 * Half(h, c) <= v < 4 * Half(h, c) ==> Result(h, c, v) == Exp(c, Some(v - 2 * Half(h, c)))
  {
    if !c.signed && -2 * Half(h, c) <= v < 4 * Half(h, c) {
      ModOnce(v, 2 * Half(h, c));
    }
  }

  // ----- laws of the operators -----

  lemma CommonInt(h: Host, c: IntType)
    requires c.rank >= INT
    ensures Promote(h, c) == c && Common(h, c, INT_T) == c == Common(h, INT_T, c) && Common(h, c, c) == c
  {
    HalfMono(h, INT_T, c);
  }

  lemma LitIs(h: Host, n: int)
    requires -2 <= n <= 1
    ensures Is(h, Lit(n), n)
  {
    Pow2Mono(1, Width(h, INT_T) - 1);
  }

  /** The two operands as the comparison or arithmetic operator sees them. */
  predicate Meet(h: Host, c: IntType, x: Exp, y: Exp)
    requires x.val.Some? && y.val.Some?
  {
    && c == Common(h, x.ty, y.ty) == Common(h, y.ty, x.ty)
    && c.rank >= INT
    && (x.ty.signed && y.ty.signed ==> c.signed)
    && 0 <= x.val.value + Half(h, c) && 0 <= y.val.value + Half(h, c)
    && Fits(h, c, Seen(h, c, x.val.value)) && Fits(h, c, Seen(h, c, y.val.value))
  }

  lemma CompareLaw(h: Host, x: Exp, y: Exp) returns (c: IntType)
    requires Defined(h, x) && Defined(h, y)
    ensures Meet(h, c, x, y)
    ensures Lt(h, x, y) == Truth(Seen(h, c, x.val.value) < Seen(h, c, y.val.value))
    ensures Le(h, x, y) == Truth(Seen(h, c, x.val.value) <= Seen(h, c, y.val.value))
    ensures Eq(h, x, y) == Truth(Seen(h, c, x.val.value) == Seen(h, c, y.val.value))
  {
    hide Common, Half, Promote;
    Operands(h, x, y);
    c := Common(h, x.ty, y.ty);
  }

  /** A sum or difference, taken back into range once if the type is unsigned. */
  function Near(h: Host, c: IntType, v: int): int {
    if v < 0 && !c.signed then v + 2 * Half(h, c)
    else if v > Max(h, c) && !c.signed then v - 2 * Half(h, c)
    else v
  }

  lemma AddLaw(h: Host, x: Exp, y: Exp) returns (c: IntType)
    requires Defined(h, x) && Defined(h, y)
    ensures Meet(h, c, x, y)
    ensures var s := Seen(h, c, x.val.value) + Seen(h, c, y.val.value);
      c.signed ==> Fits(h, c, s) ==> Add(h, x, y) == Exp(c, Some(s))
    ensures var s := Seen(h, c, x.val.value) + Seen(h, c, y.val.value);
      !c.signed ==> Add(h, x, y) == Exp(c, Some(Near(h, c, s)))
  {
    hide Common, Half, Promote, Result;
    Operands(h, x, y);
    c := Common(h, x.ty, y.ty);
    ResultNear(h, c, Seen(h, c, x.val.value) + Seen(h, c, y.val.value));
  }

  lemma SubLaw(h: Host, x: Exp, y: Exp) returns (c: IntType)
    requires Defined(h, x) && Defined(h, y)
    ensures Meet(h, c, x, y)
    ensures var s := Seen(h, c, x.val.value) - Seen(h, c, y.val.value);
      c.signed ==> Fits(h, c, s) ==> Sub(h, x, y) == Exp(c, Some(s))
    ensures var s := Seen(h, c, x.val.value) - Seen(h, c, y.val.value);
      !c.signed ==> Sub(h, x, y) == Exp(c, Some(Near(h, c, s)))
  {
    hide Common, Half, Promote, Result;
    Operands(h, x, y);
    c := Common(h, x.ty, y.ty);
    ResultNear(h, c, Seen(h, c, x.val.value) - Seen(h, c, y.val.value));
  }

  lemma IfTruth(h: Host, b: bool, x: Exp, y: Exp, v: bool)
    requires x.ty == INT_T && y.ty == INT_T && (if b then x else y) == Truth(v)
    ensures If(h, Truth(b), x, y) == Truth(v)
  {
    hide Common, Convert;
    CommonInt(h, INT_T);
    LitIs(h, 0);
    LitIs(h, 1);
    ConvertNear(h, INT_T, 0);
    ConvertNear(h, INT_T, 1);
  }

  lemma IfChoice(h: Host, c: Exp, x: Exp, y: Exp, v: bool)
    requires c.val.Some? && x.ty == INT_T && y.ty == INT_T && (if c.val.value != 0 then x else y) == Truth(v)
    ensures If(h, c, x, y) == Truth(v)
  {
    IfTruth(h, c.val.value != 0, x, y, v);
  }

  lemma IfTy(h: Host, c: Exp, x: Exp, y: Exp)
    requires x.ty == INT_T && y.ty == INT_T
    ensures If(h, c, x, y).ty == INT_T
  {
  }

  // ----- the cases in which C's operators are the mathematical ones -----

  lemma CompareIs(h: Host, x: Exp, y: Exp)
    requires Defined(h, x) && Defined(h, y)
    requires (x.val.value < 0) == (y.val.value < 0) || Common(h, x.ty, y.ty).signed || (x.ty.signed && y.ty.signed)
    ensures Lt(h, x, y) == Truth(x.val.value < y.val.value)
    ensures Le(h, x, y) == Truth(x.val.value <= y.val.value)
    ensures Eq(h, x, y) == Truth(x.val.value == y.val.value)
  {
    hide Common, Half, Promote, Lt, Le, Eq;
    var c := CompareLaw(h, x, y);
  }

  lemma IsNegative(h: Host, x: Exp)
    requires Defined(h, x)
    ensures Lt(h, x, Lit(0)) == Truth(x.val.value < 0)
    ensures Lt(h, Lit(0), x) == Truth(0 < x.val.value)
    ensures Le(h, Lit(0), x) == Truth(0 <= x.val.value)
  {
    hide Common, Half, Lt, Le;
    LitIs(h, 0);
    CommonOfPromoted(h, x.ty, INT_T);
    PromoteKeeps(h, x.ty);
    CommonInt(h, Promote(h, x.ty));
    CompareIs(h, x, Lit(0));
    CommonKeeps(h, x.ty, INT_T);
    CompareIs(h, Lit(0), x);
  }

  lemma CommonOfPromoted(h: Host, s: IntType, t: IntType)
    ensures Common(h, Promote(h, s), t) == Common(h, s, t)
    ensures Common(h, t, Promote(h, s)) == Common(h, t, s)
    ensures Width(h, Promote(h, s)) <= Width(h, Common(h, s, t))
  {
  }

  /** Subtracting the smaller of two numbers of the same sign never wraps. */
  lemma SubDownIs(h: Host, x: Exp, y: Exp)
    requires Defined(h, x) && Defined(h, y)
    requires y.val.value <= x.val.value && (x.val.value < 0 || 0 <= y.val.value)
    ensures Is(h, Sub(h, x, y), x.val.value - y.val.value)
    ensures Sub(h, x, y).ty == Common(h, x.ty, y.ty) && Common(h, x.ty, y.ty).rank >= INT
    ensures x.ty.signed && y.ty.signed ==> Sub(h, x, y).ty.signed
  {
    hide Common, Half, Promote, Sub;
    var c := SubLaw(h, x, y);
  }

  lemma SignedMeetSigned(h: Host, s: IntType, t: IntType)
    requires Promote(h, s).signed && Promote(h, t).signed
    ensures Common(h, s, t).signed
  {
  }

  /** Subtracting a non-positive from a negative number of signed types never overflows. */
  lemma SubNegativeIs(h: Host, x: Exp, y: Exp)
    requires Defined(h, x) && Defined(h, y) && x.ty.signed && y.ty.signed
    requires x.val.value < 0 && y.val.value <= 0
    ensures Is(h, Sub(h, x, y), x.val.value - y.val.value)
    ensures Sub(h, x, y).ty == Common(h, x.ty, y.ty) && Common(h, x.ty, y.ty).signed
      && Common(h, x.ty, y.ty).rank >= INT
  {
    hide Common, Half, Promote, Sub;
    var c := SubLaw(h, x, y);
  }

  /** Adding numbers of opposite signs never overflows, and wraps only to hide a negative sum. */
  lemma AddOppositeIs(h: Host, x: Exp, y: Exp)
    requires Defined(h, x) && Defined(h, y)
    requires (x.val.value < 0) != (y.val.value < 0)
    ensures var c, v := Common(h, x.ty, y.ty), x.val.value + y.val.value;
      && Add(h, x, y).ty == c && c.rank >= INT
      && (c.signed || v >= 0 ==> Is(h, Add(h, x, y), v))
      && (!c.signed && v < 0 ==>
            Is(h, Add(h, x, y), v + 2 * Half(h, c)) && 0 <= x.val.value + Half(h, c) && 0 <= y.val.value + Half(h, c))
  {
    hide Common, Half, Promote, Add;
    var c := AddLaw(h, x, y);
  }

  lemma CommonAbsorbs(h: Host, s: IntType, t: IntType)
    ensures var c := Common(h, s, t);
      Common(h, c, s) == c == Common(h, s, c) && Common(h, c, t) == c == Common(h, t, c) && Promote(h, c) == c
  {
    hide Half;
    HalfMono(h, Promote(h, s), Promote(h, t));
    HalfMono(h, Promote(h, t), Promote(h, s));
  }
}
