// Checked division and remainder. Both truncate towards zero, as in C++.
module Division {
  import opened CxxInt
  import opened SafeIntBase
  import opened Comparison

  datatype DivisionState =
    | OK
    | UnsignedSigned
    | SignedUnsigned32
    | SignedUnsigned64
    | SignedUnsigned
    | SignedSigned

  function DivisionMethod(t: IntType, u: IntType): DivisionState {
    if !t.signed && !u.signed then OK
    else if !t.signed && u.signed then UnsignedSigned
    else if t.signed && u == U32 && t.size < 8 then SignedUnsigned32
    else if t.signed && u == U64 then SignedUnsigned64
    else if t.signed && !u.signed then SignedUnsigned
    else SignedSigned
  }

  // The two divisors at which the least value of a narrow signed type is
  // divided wrongly: its magnitude, and that magnitude's sign-extended negation.
  predicate AtNarrowMin(t: Int, u: Int) {
    && t.ty.signed && t.ty.size < 8 && t.n == t.ty.Min()
    && u.ty == U64 && (u.n == -t.n || u.n == U64.Span() + t.n)
  }

  // The quotient the code stores for a non-zero divisor.
  function Quotient(t: Int, u: Int): int
    requires u.n != 0
  {
    if AtNarrowMin(t, u) then (if u.n == -t.n then 0 else -1) else TruncDiv(t.n, u.n)
  }

  // The quotient is truncated except at two divisors of the least value of a
  // signed type of less than 64 bits, where it is 0 and -1.
  lemma QuotientIsExact(t: Int, u: Int)
    requires u.n != 0
    ensures Quotient(t, u) == TruncDiv(t.n, u.n) <==>
      !(t.ty.signed && t.ty.size < 8 && t.n == t.ty.Min() && u.ty == U64
        && (u.n == -t.n || u.n == 0x1_0000_0000_0000_0000 + t.n))
    ensures AtNarrowMin(t, u) <==> Quotient(t, u) != TruncDiv(t.n, u.n)
    ensures AtNarrowMin(t, u) ==> Quotient(t, u) == if u.n == -t.n then 0 else -1
  {
    NatQuotient(Magnitude(t.n), Magnitude(u.n));
  }

  predicate CheckedDivision(t: Int, u: Int, before: Int, err: SafeIntError, after: Int) {
    if u.n == 0 then err == DivideByZero && after == before
    else Checked(Quotient(t, u), before, err, after)
  }

  method DivOK(t: IntVar, u: Int, result: IntVar) returns (err: SafeIntError)
    requires t.val.ty == result.val.ty
    requires !t.val.ty.signed && !u.ty.signed
    modifies result
    ensures CheckedDivision(old(t.val), u, old(result.val), err, result.val)
  {
    hide Cast, Div, TruncDiv;
    if u.n == 0 { return DivideByZero; }
    TruncBounds(t.val.n, u.n);
    if t.val.n == 0 {
      result.val := Cast(result.val.ty, Lit(0));
      return NoError;
    }
    result.val := Cast(result.val.ty, Div(t.val, u));
    return NoError;
  }

  method DivUnsignedSigned(t: IntVar, u: Int, result: IntVar) returns (err: SafeIntError)
    requires t.val.ty == result.val.ty
    requires !t.val.ty.signed && u.ty.signed
    modifies result
    ensures CheckedDivision(old(t.val), u, old(result.val), err, result.val)
  {
    hide Cast, Div, Lt, Abs;
    if u.n == 0 { return DivideByZero; }
    NatQuotient(t.val.n, Magnitude(u.n));
    if t.val.n == 0 {
      result.val := Cast(result.val.ty, Lit(0));
      return NoError;
    }
    if u.n > 0 {
      result.val := Cast(result.val.ty, Div(t.val, u));
      return NoError;
    }
    // dividing by a negative number is an error unless the quotient is 0
    if Lt(t.val, Abs(u)) {
      result.val := Cast(result.val.ty, Lit(0));
      return NoError;
    }
    return ArithmeticOverflow;
  }

  method DivSignedUnsigned32(t: IntVar, u: Int, result: IntVar) returns (err: SafeIntError)
    requires t.val.ty == result.val.ty
    requires t.val.ty.signed && t.val.ty.size < 8 && u.ty == U32
    modifies result
    ensures CheckedDivision(old(t.val), u, old(result.val), err, result.val)
  {
    hide Cast, Div, TruncDiv;
    if u.n == 0 { return DivideByZero; }
    TruncBounds(t.val.n, u.n);
    if t.val.n == 0 {
      result.val := Cast(result.val.ty, Lit(0));
      return NoError;
    }
    if t.val.n > 0 {
      result.val := Cast(result.val.ty, Div(t.val, u));
    } else {
      result.val := Cast(result.val.ty, Div(Cast(I64, t.val), Cast(I64, u)));
    }
    return NoError;
  }

  // div_signed_uint64: u is at most the maximum of T
  function DivSignedUint64(t: Int, u: Int): (r: Int)
    requires t.ty.signed && u.ty == U64 && 0 < u.n <= t.ty.Max()
    ensures r.ty == t.ty && r.n == TruncDiv(t.n, u.n)
  {
    hide Cast, Div, TruncDiv;
    TruncBounds(t.n, u.n);
    var wide := if t.ty.size < 8 then I32 else I64;
    assert wide.Holds(t.n) && wide.Holds(u.n);
    Cast(t.ty, Div(Cast(wide, t), Cast(wide, u)))
  }

  method DivSignedUnsigned64(t: IntVar, u: Int, result: IntVar) returns (err: SafeIntError)
    requires t.val.ty == result.val.ty
    requires t.val.ty.signed && u.ty == U64
    modifies result
    ensures CheckedDivision(old(t.val), u, old(result.val), err, result.val)
  {
    hide Cast, Le, TruncDiv;
    var T := result.val.ty;
    if u.n == 0 { return DivideByZero; }
    TruncBounds(t.val.n, u.n);
    if t.val.n == 0 {
      result.val := Cast(T, Lit(0));
      return NoError;
    }
    if Le(u, Cast(U64, MaxOf(T))) {
      result.val := DivSignedUint64(t.val, u);
    } else {
      LargeDivisor(t.val.n, u.n);
      if t.val == MinOf(T) && u == Cast(U64, MinOf(T)) {
        result.val := Cast(T, Lit(-1));
      } else {
        result.val := Cast(T, Lit(0));
      }
    }
    return NoError;
  }

  lemma LargeDivisor(t: int, u: int)
    requires u > 0 && -u <= t < u
    ensures TruncDiv(t, u) == if t == -u then -1 else 0
  {
    NatQuotient(Magnitude(t), u);
  }

  method DivSignedUnsigned(t: IntVar, u: Int, result: IntVar) returns (err: SafeIntError)
    requires t.val.ty == result.val.ty
    requires t.val.ty.signed && !u.ty.signed && u.ty.size <= 4 && (u.ty.size == 4 ==> t.val.ty.size == 8)
    modifies result
    ensures CheckedDivision(old(t.val), u, old(result.val), err, result.val)
  {
    hide Cast, Div, TruncDiv;
    if u.n == 0 { return DivideByZero; }
    TruncBounds(t.val.n, u.n);
    if t.val.n == 0 {
      result.val := Cast(result.val.ty, Lit(0));
      return NoError;
    }
    result.val := Cast(result.val.ty, Div(t.val, u));
    return NoError;
  }

  method DivSignedSigned(t: IntVar, u: Int, result: IntVar) returns (err: SafeIntError)
    requires t.val.ty == result.val.ty
    requires t.val.ty.signed && u.ty.signed
    modifies result
    ensures CheckedDivision(old(t.val), u, old(result.val), err, result.val)
  {
    hide Cast, Div, TruncDiv;
    var T := result.val.ty;
    if u.n == 0 { return DivideByZero; }
    SignedQuotient(t.val.n, u.n);
    if t.val.n == 0 {
      result.val := Cast(T, Lit(0));
      return NoError;
    }
    if t.val == MinOf(T) && u == Cast(u.ty, Lit(-1)) { return ArithmeticOverflow; }
    result.val := Cast(T, Div(t.val, u));
    return NoError;
  }

  // Only the least value divided by -1 leaves a signed type.
  lemma SignedQuotient(t: int, u: int)
    requires u != 0
    ensures u == -1 ==> TruncDiv(t, u) == -t
    ensures Magnitude(TruncDiv(t, u)) <= Magnitude(t)
    ensures t < 0 && u != -1 ==> TruncDiv(t, u) < -t
  {
    NatQuotient(Magnitude(t), Magnitude(u));
  }

  // DivisionHelper<T, U, DivisionMethod<T, U>::method>::DivideThrow
  method DivideThrow(t: IntVar, u: Int, result: IntVar) returns (err: SafeIntError)
    requires t.val.ty == result.val.ty
    modifies result
    ensures CheckedDivision(old(t.val), u, old(result.val), err, result.val)
  {
    hide CheckedDivision;
    match DivisionMethod(t.val.ty, u.ty)
    case OK => err := DivOK(t, u, result);
    case UnsignedSigned => err := DivUnsignedSigned(t, u, result);
    case SignedUnsigned32 => err := DivSignedUnsigned32(t, u, result);
    case SignedUnsigned64 => err := DivSignedUnsigned64(t, u, result);
    case SignedUnsigned => err := DivSignedUnsigned(t, u, result);
    case SignedSigned => err := DivSignedSigned(t, u, result);
  }

  // ---------- modulus

  predicate CheckedModulus(t: Int, u: Int, before: Int, err: SafeIntError, after: Int) {
    if u.n == 0 then err == DivideByZero && after == before
    else err == NoError && after.ty == before.ty && after.n == TruncRem(t.n, u.n)
  }

  // ModulusHelper<T, U, ValidComparison<T, U>::method>::ModulusThrow
  method ModulusThrow(t: IntVar, u: Int, result: IntVar) returns (err: SafeIntError)
    requires t.val.ty == result.val.ty
    modifies result
    ensures CheckedModulus(old(t.val), u, old(result.val), err, result.val)
  {
    hide Cast, Rem, Abs, TruncRem, TruncDiv, Negated;
    var T := result.val.ty;
    if u.n == 0 { return DivideByZero; }
    RemainderOf(t.val.n, u.n);
    SignedQuotient(t.val.n, u.n);
    match ValidComparison(t.val.ty, u.ty) {
      case Ok =>
        if u.n == -1 { result.val := Cast(T, Lit(0)); } else { result.val := Cast(T, Rem(t.val, u)); }
      case CastInt =>
        if u.n == -1 { result.val := Cast(T, Lit(0)); } else { result.val := Cast(T, Rem(t.val, u)); }
      case CastInt64 =>
        if u.n == -1 { result.val := Cast(T, Lit(0)); }
        else { result.val := Cast(T, Rem(Cast(I64, t.val), Cast(I64, u))); }
      case UnsignedT =>
        if u.n < 0 { result.val := Cast(T, Rem(t.val, Abs(u))); } else { result.val := Cast(T, Rem(t.val, u)); }
      case UnsignedU =>
        if t.val.n < 0 {
          var r := NegatedRemainder(t.val, u);
          result.val := r;
        } else {
          result.val := Cast(T, Rem(Cast(T, t.val), u));
        }
    }
    return NoError;
  }

  // (T)(~(Abs(t) % u) + 1)
  method NegatedRemainder(t: Int, u: Int) returns (r: Int)
    requires t.ty.signed && t.n < 0 && u.ty == U64 && u.n != 0
    ensures r.ty == t.ty && r.n == TruncRem(t.n, u.n)
  {
    hide Rem, Abs, TruncRem, TruncDiv, Negated;
    RemainderOf(t.n, u.n);
    var m := Rem(Abs(t), u);
    assert m.ty == U64 && m.n == -TruncRem(t.n, u.n);
    WrapNarrower(t.ty, -m.n);
    r := Int(t.ty, t.ty.Wrap(Negated(m).n));
  }

  lemma RemainderOf(t: int, u: int)
    requires u != 0
    ensures t >= 0 ==> 0 <= TruncRem(t, u) <= t
    ensures t <= 0 ==> t <= TruncRem(t, u) <= 0
    ensures u == -1 ==> TruncRem(t, u) == 0
    ensures TruncRem(t, -u) == TruncRem(t, u)
    ensures TruncRem(-t, u) == -TruncRem(t, u)
  {
    NatQuotient(Magnitude(t), Magnitude(u));
  }
}
