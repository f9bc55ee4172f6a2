// The operators whose left operand is a plain integer of type U and whose right
// operand, and so the result, is a SafeInt<T>.
module Reversed {
  import opened CxxInt
  import opened SafeIntBase
  import opened Conversion
  import opened Division
  import Addition
  import Subtraction
  import Multiplication

  // SafeInt<T>(u)
  method Construct(t: IntType, u: Int) returns (err: SafeIntError, value: Int)
    ensures CheckedResult(u.n, t, err, value)
  {
    var m_int := new IntVar(Int(t, 0));
    err := SafeCast(u, m_int);
    value := m_int.val;
  }

  // U + SafeInt<T>
  method AddTo(lhs: Int, rhs: Int) returns (err: SafeIntError, value: Int)
    ensures CheckedResult(lhs.n + rhs.n, rhs.ty, err, value)
  {
    var t := new IntVar(rhs);
    var ret := new IntVar(Int(rhs.ty, 0));
    err := Addition.AdditionThrow(t, lhs, ret);
    value := ret.val;
  }

  // U * SafeInt<T>
  method MultiplyBy(useIntrinsics: bool, lhs: Int, rhs: Int) returns (err: SafeIntError, value: Int)
    ensures CheckedResult(lhs.n * rhs.n, rhs.ty, err, value)
  {
    var t := new IntVar(rhs);
    var ret := new IntVar(Int(rhs.ty, 0));
    err := Multiplication.MultiplyThrow(useIntrinsics, t, lhs, ret);
    value := ret.val;
  }

  // U - SafeInt<T>
  method Subtract(lhs: Int, rhs: Int) returns (err: SafeIntError, value: Int)
    ensures CheckedResult(lhs.n - rhs.n, rhs.ty, err, value)
  {
    var ret := new IntVar(Int(rhs.ty, 0));
    err := Subtraction.SubtractThrow2(lhs, rhs, ret);
    value := ret.val;
  }

  // DivisionCornerCase1 for an unsigned lhs of at least 32 bits, at least as
  // wide as T, and a negative rhs: the quotient of the magnitudes, negated.
  method NegativeCornerCase(lhs: Int, rhs: Int) returns (err: SafeIntError, value: Int)
    requires !lhs.ty.signed && lhs.ty.size >= 4 && rhs.ty.signed && rhs.ty.size <= lhs.ty.size && rhs.n < 0
    ensures CheckedResult(TruncDiv(lhs.n, rhs.n), rhs.ty, err, value)
  {
    hide Cast, Div, Negated, Le, Add, FlippedDivisor, NegatedQuotient;
    var T, U := rhs.ty, lhs.ty;
    NatQuotient(lhs.n, -rhs.n);
    var magnitude := FlippedDivisor(U, rhs);
    var tmp := Div(lhs, magnitude);
    assert tmp.ty == U && tmp.n == lhs.n / -rhs.n;
    if Le(tmp, Cast(U, MaxOf(T))) {
      return NoError, NegatedQuotient(T, tmp);
    }
    if tmp == Add(Cast(U, MaxOf(T)), Lit(1)) {
      return NoError, MinOf(T);
    }
    return ArithmeticOverflow, Int(T, 0);
  }

  // (U)(~(uint32_t)rhs + 1) when T has 32 bits, and through uint64_t otherwise
  function FlippedDivisor(u: IntType, rhs: Int): (r: Int)
    requires !u.signed && u.size >= 4 && rhs.ty.signed && rhs.ty.size <= u.size && rhs.n < 0
    ensures r.ty == u && r.n == -rhs.n
  {
    hide Cast, Negated;
    Cast(u, Negated(Cast(if rhs.ty.size == 4 then U32 else U64, rhs)))
  }

  // (T)(~(uint64_t)tmp + 1)
  function NegatedQuotient(t: IntType, tmp: Int): (r: Int)
    requires t.signed && !tmp.ty.signed && tmp.n <= t.Max()
    ensures r.ty == t && r.n == -tmp.n
  {
    hide Negated;
    WrapNarrower(t, -tmp.n);
    Int(t, t.Wrap(Negated(Int(U64, tmp.n)).n))
  }

  // U / SafeInt<T>
  method Divide(lhs: Int, rhs: Int) returns (err: SafeIntError, value: Int)
    ensures if rhs.n == 0 then err == DivideByZero
            else CheckedResult(Quotient(lhs, rhs), rhs.ty, err, value)
  {
    hide Cast, Div, Quotient, TruncDiv;
    var T, U := rhs.ty, lhs.ty;
    if rhs.n != 0 {
      SignedQuotient(lhs.n, rhs.n);
      QuotientFitsLeft(lhs, rhs);
    }
    if !U.signed && T.signed {
      if rhs.n > 0 {
        err, value := Construct(T, Div(lhs, rhs));
        return;
      }
      if rhs.n != 0 {
        if U.size >= 4 && T.size <= U.size {
          err, value := NegativeCornerCase(lhs, rhs);
          return;
        }
        err, value := Construct(T, Div(lhs, rhs));
        return;
      }
      return DivideByZero, Int(T, 0);
    }
    if U.signed && T.signed && lhs == MinOf(U) && rhs.n == -1 {
      // the negation of the least value of U, if T is wider
      if U.size < T.size {
        return NoError, Cast(T, Sub(Lit(0), Cast(T, MinOf(U))));
      }
      return ArithmeticOverflow, Int(T, 0);
    }
    var t := new IntVar(lhs);
    var ret := new IntVar(Int(U, 0));
    err := DivideThrow(t, rhs, ret);
    if err.NoError? {
      err, value := Construct(T, ret.val);
    } else {
      value := Int(T, 0);
    }
  }

  // (int8_t)-128 / SafeInt<uint64_t>(128) gives 0 where -1 does not fit, and
  // (int8_t)-128 / SafeInt<uint64_t>(2^64 - 128) overflows where 0 fits.
  lemma NarrowMinExample()
    ensures var lhs, u, v := Int(IntType(true, 1), -128), Int(U64, 128), Int(U64, 0xffff_ffff_ffff_ff80);
      && CheckedResult(Quotient(lhs, u), U64, NoError, Int(U64, 0)) && TruncDiv(lhs.n, u.n) == -1 && !U64.Holds(-1)
      && CheckedResult(Quotient(lhs, v), U64, ArithmeticOverflow, Int(U64, 0)) && TruncDiv(lhs.n, v.n) == 0
  {
  }

  // The results that Divide allows are those of the truncated quotient, if and
  // only if this is not a narrow signed minimum divided by one of the two
  // uint64 divisors.
  lemma DivideIsExact(lhs: Int, rhs: Int)
    requires rhs.n != 0
    ensures (forall err, value :: CheckedResult(Quotient(lhs, rhs), rhs.ty, err, value)
              <==> CheckedResult(TruncDiv(lhs.n, rhs.n), rhs.ty, err, value))
      <==> !AtNarrowMin(lhs, rhs)
  {
    QuotientIsExact(lhs, rhs);
    if AtNarrowMin(lhs, rhs) {
      LargeDivisor(lhs.n, rhs.n);
      var zero := Int(U64, 0);
      assert CheckedResult(0, U64, NoError, zero) && !CheckedResult(-1, U64, NoError, zero);
    }
  }

  // Apart from the corner cases, the quotient fits the left operand's type.
  lemma QuotientFitsLeft(lhs: Int, rhs: Int)
    requires rhs.n != 0
    ensures !lhs.ty.signed || rhs.ty.signed ==> Quotient(lhs, rhs) == TruncDiv(lhs.n, rhs.n)
    ensures lhs.ty.signed || !rhs.ty.signed ==>
      lhs.ty.Holds(Quotient(lhs, rhs)) || (rhs.ty.signed && lhs.n == lhs.ty.Min() && rhs.n == -1)
  {
    hide TruncDiv;
    TruncBounds(lhs.n, rhs.n);
    SignedQuotient(lhs.n, rhs.n);
  }

  // U % SafeInt<T>
  method Modulus(lhs: Int, rhs: Int) returns (err: SafeIntError, value: Int)
    ensures if rhs.n == 0 then err == DivideByZero
            else CheckedResult(TruncRem(lhs.n, rhs.n), rhs.ty, err, value)
  {
    hide Cast, Rem, TruncRem, TruncDiv;
    var T, U := rhs.ty, lhs.ty;
    if rhs.n != 0 {
      RemainderOf(lhs.n, rhs.n);
      SignedQuotient(lhs.n, rhs.n);
    }
    // the fast track for the same size and the same sign
    if T.size == U.size && T.signed == U.signed {
      if rhs.n != 0 {
        if T.signed && rhs.n == -1 {
          return NoError, Cast(T, Lit(0));
        }
        return NoError, Cast(T, Rem(lhs, rhs));
      }
      return DivideByZero, Int(T, 0);
    }
    var t := new IntVar(lhs);
    var ret := new IntVar(Int(U, 0));
    err := ModulusThrow(t, rhs, ret);
    if err.NoError? {
      err, value := Construct(T, ret.val);
    } else {
      value := Int(T, 0);
    }
  }
}
