// Checked subtraction, with a result of the left operand's type (SafeInt<T> - U
// and -=) and with a result of the right operand's type (U - SafeInt<T>).
module Subtraction {
  import opened CxxInt
  import opened SafeIntBase
  import opened Conversion

  datatype SubtractionState =
    | BothUnsigned
    | CastIntCheckSafeIntMinMax
    | CastIntCheckMin
    | CastInt64CheckSafeIntMinMax
    | CastInt64CheckMin
    | Uint64Int
    | UintInt64
    | Int64Int
    | IntInt64
    | Int64Uint
    | IntUint64
    | Int64Uint64

  // The subtraction whose result has the type of the left operand. The
  // conditions exclude each other, so they determine the method.
  function SubtractionMethod(t: IntType, u: IntType): (s: SubtractionState)
    ensures match s
      case BothUnsigned => !t.signed && !u.signed
      case CastIntCheckSafeIntMinMax => t.size < 4 && u.signed && u.size < 4
      case CastIntCheckMin => t.signed && t.size < 4 && !u.signed && u.size < 4
      case CastInt64CheckSafeIntMinMax => u.signed && t.size < 8 && u.size < 8 && (t.size == 4 || u.size == 4)
      case CastInt64CheckMin => t.signed && !u.signed && t.size < 8 && u.size < 8 && (t.size == 4 || u.size == 4)
      case Uint64Int => t == U64 && u.signed
      case UintInt64 => !t.signed && t.size < 8 && u == I64
      case Int64Int => t == I64 && u.signed
      case IntInt64 => t.signed && t.size < 8 && u == I64
      case Int64Uint => t == I64 && !u.signed && u.size < 8
      case IntUint64 => t.signed && t.size < 8 && u == U64
      case Int64Uint64 => t == I64 && u == U64
  {
    match ZoneOf(t, u)
    case UintLT32_UintLT32 | Uint32_UintLT64 | UintLT32_Uint32 | Uint64_Uint | UintLT64_Uint64 => BothUnsigned
    case UintLT32_IntLT32 => CastIntCheckSafeIntMinMax
    case Uint32_IntLT64 | UintLT32_Int32 => CastInt64CheckSafeIntMinMax
    case Uint64_Int | Uint64_Int64 => Uint64Int
    case UintLT64_Int64 => UintInt64
    case IntLT32_IntLT32 => CastIntCheckSafeIntMinMax
    case Int32_IntLT64 | IntLT32_Int32 => CastInt64CheckSafeIntMinMax
    case Int64_Int | Int64_Int64 => Int64Int
    case IntLT64_Int64 => IntInt64
    case IntLT32_UintLT32 => CastIntCheckMin
    case Int32_UintLT32 | IntLT64_Uint32 => CastInt64CheckMin
    case Int64_UintLT64 => Int64Uint
    case Int_Uint64 => IntUint64
    case Int64_Uint64 => Int64Uint64
  }

  // ---------- result of the left operand's type

  // A uint64 minus a negative number is written before it is checked, so a
  // failed subtraction of that kind leaves the wrapped sum behind.
  predicate CheckedSubtraction(lhs: Int, rhs: int, before: Int, err: SafeIntError, after: Int) {
    if lhs.ty == U64 && rhs < 0 then
      if U64.Holds(lhs.n - rhs) then err == NoError && after.ty == U64 && after.n == lhs.n - rhs
      else err == ArithmeticOverflow && after.ty == U64 && after.n == lhs.n - rhs - U64.Span()
    else
      Checked(lhs.n - rhs, before, err, after)
  }

  method SubBothUnsigned(lhs: IntVar, rhs: Int, result: IntVar) returns (err: SafeIntError)
    requires lhs.val.ty == result.val.ty
    requires !lhs.val.ty.signed && !rhs.ty.signed
    modifies result
    ensures Checked(old(lhs.val).n - rhs.n, old(result.val), err, result.val)
  {
    hide Cast, Sub, Le;
    if Le(rhs, lhs.val) {
      result.val := Cast(result.val.ty, Sub(lhs.val, rhs));
      return NoError;
    }
    return ArithmeticOverflow;
  }

  method SubCastIntCheckSafeIntMinMax(lhs: IntVar, rhs: Int, result: IntVar) returns (err: SafeIntError)
    requires lhs.val.ty == result.val.ty
    requires lhs.val.ty.size < 4 && rhs.ty.size < 4
    modifies result
    ensures Checked(old(lhs.val).n - rhs.n, old(result.val), err, result.val)
  {
    hide Cast, Sub;
    var tmp := Sub(lhs.val, rhs);
    err := SafeCast(tmp, result);
  }

  method SubCastIntCheckMin(lhs: IntVar, rhs: Int, result: IntVar) returns (err: SafeIntError)
    requires lhs.val.ty == result.val.ty
    requires lhs.val.ty.signed && lhs.val.ty.size < 4 && !rhs.ty.signed && rhs.ty.size < 4
    modifies result
    ensures Checked(old(lhs.val).n - rhs.n, old(result.val), err, result.val)
  {
    hide Cast, Sub, Le;
    var T := result.val.ty;
    var tmp := Sub(lhs.val, rhs);
    if Le(Cast(I32, MinOf(T)), tmp) {
      result.val := Cast(T, tmp);
      return NoError;
    }
    return ArithmeticOverflow;
  }

  method SubCastInt64CheckSafeIntMinMax(lhs: IntVar, rhs: Int, result: IntVar) returns (err: SafeIntError)
    requires lhs.val.ty == result.val.ty
    requires lhs.val.ty.size < 8 && rhs.ty.size < 8
    modifies result
    ensures Checked(old(lhs.val).n - rhs.n, old(result.val), err, result.val)
  {
    hide Cast, Sub;
    var tmp := Sub(Cast(I64, lhs.val), Cast(I64, rhs));
    err := SafeCast(tmp, result);
  }

  method SubCastInt64CheckMin(lhs: IntVar, rhs: Int, result: IntVar) returns (err: SafeIntError)
    requires lhs.val.ty == result.val.ty
    requires lhs.val.ty.signed && lhs.val.ty.size < 8 && !rhs.ty.signed && rhs.ty.size < 8
    modifies result
    ensures Checked(old(lhs.val).n - rhs.n, old(result.val), err, result.val)
  {
    hide Cast, Sub, Le;
    var T := result.val.ty;
    var tmp := Sub(Cast(I64, lhs.val), Cast(I64, rhs));
    if Le(Cast(I64, MinOf(T)), tmp) {
      result.val := Cast(T, tmp);
      return NoError;
    }
    return ArithmeticOverflow;
  }

  method SubUint64Int(lhs: IntVar, rhs: Int, result: IntVar) returns (err: SafeIntError)
    requires lhs.val.ty == result.val.ty
    requires lhs.val.ty == U64 && rhs.ty.signed
    modifies result
    ensures CheckedSubtraction(old(lhs.val), rhs.n, old(result.val), err, result.val)
  {
    hide Cast, Add, Sub, Le, Abs;
    if rhs.n >= 0 {
      if Le(Cast(U64, rhs), lhs.val) {
        result.val := Cast(U64, Sub(lhs.val, Cast(U64, rhs)));
        return NoError;
      }
    } else {
      var tmp := lhs.val;
      // effectively an addition; result may be the same variable as lhs
      result.val := Cast(U64, Add(lhs.val, Abs(rhs)));
      if Le(tmp, result.val) {
        return NoError;
      }
    }
    return ArithmeticOverflow;
  }

  // lhs + ~(uint64_t)rhs + 1, which cannot wrap when lhs is at most 32 bits wide
  function PlusMagnitude(lhs: Int, rhs: Int): (r: Int)
    requires !lhs.ty.signed && lhs.ty.size < 8 && rhs.ty == I64 && rhs.n < 0
    ensures r.ty == U64 && r.n == lhs.n - rhs.n
  {
    hide Cast, Not, Add;
    Add(Add(lhs, Not(Cast(U64, rhs))), Lit(1))
  }

  method SubUintInt64(lhs: IntVar, rhs: Int, result: IntVar) returns (err: SafeIntError)
    requires lhs.val.ty == result.val.ty
    requires !lhs.val.ty.signed && lhs.val.ty.size < 8 && rhs.ty == I64
    modifies result
    ensures Checked(old(lhs.val).n - rhs.n, old(result.val), err, result.val)
  {
    hide Cast, Sub, Le, PlusMagnitude;
    var T := result.val.ty;
    if rhs.n >= 0 {
      if Le(Cast(U64, rhs), lhs.val) {
        assert T.Holds(rhs.n);
        result.val := Cast(T, Sub(lhs.val, Cast(T, rhs)));
        return NoError;
      }
    } else {
      var tmp := PlusMagnitude(lhs.val, rhs);
      if Le(tmp, MaxOf(T)) {
        result.val := Cast(T, tmp);
        return NoError;
      }
    }
    return ArithmeticOverflow;
  }

  method SubInt64Int(lhs: IntVar, rhs: Int, result: IntVar) returns (err: SafeIntError)
    requires lhs.val.ty == result.val.ty
    requires lhs.val.ty == I64 && rhs.ty.signed
    modifies result
    ensures Checked(old(lhs.val).n - rhs.n, old(result.val), err, result.val)
  {
    hide Cast, Sub, Lt;
    var tmp := Cast(I64, Sub(Cast(U64, lhs.val), Cast(U64, rhs)));
    if (lhs.val.n >= 0 && rhs.n < 0 && Lt(tmp, lhs.val)) || (rhs.n >= 0 && Lt(lhs.val, tmp)) {
      return ArithmeticOverflow;
    }
    result.val := Cast(result.val.ty, tmp);
    return NoError;
  }

  method SubIntInt64(lhs: IntVar, rhs: Int, result: IntVar) returns (err: SafeIntError)
    requires lhs.val.ty == result.val.ty
    requires lhs.val.ty.signed && lhs.val.ty.size < 8 && rhs.ty == I64
    modifies result
    ensures Checked(old(lhs.val).n - rhs.n, old(result.val), err, result.val)
  {
    hide Cast, Sub, Le;
    var T := result.val.ty;
    var tmp := Cast(I64, Sub(Cast(U64, lhs.val), Cast(U64, rhs)));
    if lhs.val.n >= 0 {
      if rhs.n >= 0 {
        if Le(MinOf(T), tmp) {
          result.val := Cast(T, tmp);
          return NoError;
        }
      } else {
        if Le(lhs.val, tmp) && Le(tmp, MaxOf(T)) {
          result.val := Cast(T, tmp);
          return NoError;
        }
      }
    } else {
      if rhs.n >= 0 {
        if Le(tmp, lhs.val) && Le(MinOf(T), tmp) {
          result.val := Cast(T, tmp);
          return NoError;
        }
      } else {
        if Le(tmp, MaxOf(T)) {
          result.val := Cast(T, tmp);
          return NoError;
        }
      }
    }
    return ArithmeticOverflow;
  }

  // SubtractionState_Int64Uint and SubtractionState_Int64Uint64
  method SubInt64Uint(lhs: IntVar, rhs: Int, result: IntVar) returns (err: SafeIntError)
    requires lhs.val.ty == result.val.ty
    requires lhs.val.ty == I64 && !rhs.ty.signed
    modifies result
    ensures Checked(old(lhs.val).n - rhs.n, old(result.val), err, result.val)
  {
    hide Cast, Sub, Le;
    var tmp := Sub(Cast(U64, lhs.val), Cast(U64, rhs));
    if Le(Cast(I64, tmp), lhs.val) {
      result.val := Cast(result.val.ty, tmp);
      return NoError;
    }
    return ArithmeticOverflow;
  }

  method SubIntUint64(lhs: IntVar, rhs: Int, result: IntVar) returns (err: SafeIntError)
    requires lhs.val.ty == result.val.ty
    requires lhs.val.ty.signed && lhs.val.ty.size < 8 && rhs.ty == U64
    modifies result
    ensures Checked(old(lhs.val).n - rhs.n, old(result.val), err, result.val)
  {
    hide Cast, Add, Sub, Le, Abs;
    var T := result.val.ty;
    // the magnitude of the least value of T
    var absMin := Add(Cast(U64, MaxOf(T)), Lit(1));
    if lhs.val.n < 0 {
      if Le(rhs, Sub(absMin, Abs(lhs.val))) {
        result.val := TruncatedDifference(T, lhs.val, rhs);
        return NoError;
      }
    } else {
      if Le(rhs, Add(absMin, Cast(U64, lhs.val))) {
        result.val := TruncatedDifference(T, lhs.val, rhs);
        return NoError;
      }
    }
    return ArithmeticOverflow;
  }

  // (T)(lhs - rhs), subtracted as uint64
  function TruncatedDifference(t: IntType, lhs: Int, rhs: Int): (r: Int)
    requires lhs.ty == t && t.signed && rhs.ty == U64
    ensures t.Holds(lhs.n - rhs.n) ==> r == Int(t, lhs.n - rhs.n)
  {
    hide Cast, Sub;
    assert t.Holds(lhs.n - rhs.n) ==> t.Wrap(U64.Wrap(lhs.n - rhs.n)) == lhs.n - rhs.n by {
      if t.Holds(lhs.n - rhs.n) { WrapNarrower(t, lhs.n - rhs.n); }
    }
    Int(t, t.Wrap(Sub(lhs, rhs).n))
  }

  // SubtractionHelper<T, U, SubtractionMethod<T, U>::method>::SubtractThrow
  method SubtractThrow(lhs: IntVar, rhs: Int, result: IntVar) returns (err: SafeIntError)
    requires lhs.val.ty == result.val.ty
    modifies result
    ensures CheckedSubtraction(old(lhs.val), rhs.n, old(result.val), err, result.val)
  {
    hide SubtractionMethod, Checked;
    match SubtractionMethod(lhs.val.ty, rhs.ty)
    case BothUnsigned => err := SubBothUnsigned(lhs, rhs, result);
    case CastIntCheckSafeIntMinMax => err := SubCastIntCheckSafeIntMinMax(lhs, rhs, result);
    case CastIntCheckMin => err := SubCastIntCheckMin(lhs, rhs, result);
    case CastInt64CheckSafeIntMinMax => err := SubCastInt64CheckSafeIntMinMax(lhs, rhs, result);
    case CastInt64CheckMin => err := SubCastInt64CheckMin(lhs, rhs, result);
    case Uint64Int => err := SubUint64Int(lhs, rhs, result);
    case UintInt64 => err := SubUintInt64(lhs, rhs, result);
    case Int64Int => err := SubInt64Int(lhs, rhs, result);
    case IntInt64 => err := SubIntInt64(lhs, rhs, result);
    case Int64Uint => err := SubInt64Uint(lhs, rhs, result);
    case IntUint64 => err := SubIntUint64(lhs, rhs, result);
    case Int64Uint64 => err := SubInt64Uint(lhs, rhs, result);
  }

  // ---------- result of the right operand's type: U - SafeInt<T>

  datatype SubtractionState2 =
    | BothUnsigned2
    | CastIntCheckSafeIntMinMax2
    | CastInt64CheckSafeIntMinMax2
    | Uint64Int2
    | UintInt642
    | Int64Int2
    | IntInt642
    | Int64Uint2
    | IntUint642
    | Int64Uint642

  // These conditions exclude each other as well.
  function SubtractionMethod2(t: IntType, u: IntType): (s: SubtractionState2)
    ensures match s
      case BothUnsigned2 => !t.signed && !u.signed
      case CastIntCheckSafeIntMinMax2 => (t.signed || u.signed) && t.size < 4 && u.size < 4
      case CastInt64CheckSafeIntMinMax2 =>
        (t.signed || u.signed) && t.size < 8 && u.size < 8 && (t.size == 4 || u.size == 4)
      case Uint64Int2 => t == U64 && u.signed
      case UintInt642 => !t.signed && t.size < 8 && u == I64
      case Int64Int2 => t == I64 && u.signed
      case IntInt642 => t.signed && t.size < 8 && u == I64
      case Int64Uint2 => t == I64 && !u.signed && u.size < 8
      case IntUint642 => t.signed && t.size < 8 && u == U64
      case Int64Uint642 => t == I64 && u == U64
  {
    match ZoneOf(t, u)
    case UintLT32_UintLT32 | Uint32_UintLT64 | UintLT32_Uint32 | Uint64_Uint | UintLT64_Uint64 => BothUnsigned2
    case UintLT32_IntLT32 => CastIntCheckSafeIntMinMax2
    case Uint32_IntLT64 | UintLT32_Int32 => CastInt64CheckSafeIntMinMax2
    case Uint64_Int | Uint64_Int64 => Uint64Int2
    case UintLT64_Int64 => UintInt642
    case IntLT32_IntLT32 => CastIntCheckSafeIntMinMax2
    case Int32_IntLT64 | IntLT32_Int32 => CastInt64CheckSafeIntMinMax2
    case Int64_Int | Int64_Int64 => Int64Int2
    case IntLT64_Int64 => IntInt642
    case IntLT32_UintLT32 => CastIntCheckSafeIntMinMax2
    case Int32_UintLT32 | IntLT64_Uint32 => CastInt64CheckSafeIntMinMax2
    case Int64_UintLT64 => Int64Uint2
    case Int_Uint64 => IntUint642
    case Int64_Uint64 => Int64Uint642
  }

  method Sub2BothUnsigned(lhs: Int, rhs: Int, result: IntVar) returns (err: SafeIntError)
    requires rhs.ty == result.val.ty
    requires !lhs.ty.signed && !rhs.ty.signed
    modifies result
    ensures Checked(lhs.n - rhs.n, old(result.val), err, result.val)
  {
    hide Cast, Sub, Le;
    if Le(rhs, lhs) {
      // the difference may be larger than the result can hold
      var tmp := Cast(lhs.ty, Sub(lhs, rhs));
      err := SafeCast(tmp, result);
      return;
    }
    return ArithmeticOverflow;
  }

  method Sub2CastIntCheckSafeIntMinMax(lhs: Int, rhs: Int, result: IntVar) returns (err: SafeIntError)
    requires rhs.ty == result.val.ty
    requires lhs.ty.size < 4 && rhs.ty.size < 4
    modifies result
    ensures Checked(lhs.n - rhs.n, old(result.val), err, result.val)
  {
    hide Cast, Sub;
    var tmp := Sub(lhs, rhs);
    err := SafeCast(tmp, result);
  }

  method Sub2CastInt64CheckSafeIntMinMax(lhs: Int, rhs: Int, result: IntVar) returns (err: SafeIntError)
    requires rhs.ty == result.val.ty
    requires lhs.ty.size < 8 && rhs.ty.size < 8
    modifies result
    ensures Checked(lhs.n - rhs.n, old(result.val), err, result.val)
  {
    hide Cast, Sub;
    var tmp := Sub(Cast(I64, lhs), Cast(I64, rhs));
    err := SafeCast(tmp, result);
  }

  // (T)lhs - (T)rhs
  function NegativeDifference(t: IntType, lhs: Int, rhs: Int): (r: Int)
    requires lhs.ty == U64 && rhs.ty == t && t.signed && lhs.n < rhs.n
    ensures r.ty == t && r.n == lhs.n - rhs.n
  {
    hide Cast, Sub;
    Cast(t, Sub(Cast(t, lhs), Cast(t, rhs)))
  }

  method Sub2Uint64Int(lhs: Int, rhs: Int, result: IntVar) returns (err: SafeIntError)
    requires rhs.ty == result.val.ty
    requires lhs.ty == U64 && rhs.ty.signed
    modifies result
    ensures Checked(lhs.n - rhs.n, old(result.val), err, result.val)
  {
    hide Cast, Add, Sub, Lt, Le, Abs;
    var T := result.val.ty;
    if rhs.n < 0 {
      var magnitude := Cast(U64, Abs(rhs));
      assert magnitude.n == -rhs.n;
      var tmp := Add(lhs, magnitude);
      // wrapped, or above the maximum
      if Le(lhs, tmp) && Le(tmp, Cast(U64, MaxOf(T))) {
        result.val := Cast(T, tmp);
        return NoError;
      }
    } else if Lt(lhs, Cast(U64, rhs)) {
      // lhs fits T, and so does the negative difference
      result.val := NegativeDifference(T, lhs, rhs);
      return NoError;
    } else {
      var tmp := Sub(Cast(U64, lhs), Cast(U64, rhs));
      if Le(tmp, Cast(U64, MaxOf(T))) {
        result.val := Cast(T, tmp);
        return NoError;
      }
    }
    return ArithmeticOverflow;
  }

  method Sub2UintInt64(lhs: Int, rhs: Int, result: IntVar) returns (err: SafeIntError)
    requires rhs.ty == result.val.ty
    requires !lhs.ty.signed && lhs.ty.size < 8 && rhs.ty == I64
    modifies result
    ensures Checked(lhs.n - rhs.n, old(result.val), err, result.val)
  {
    hide Cast, Add, Sub, SubWrapping, Le;
    if rhs.n >= 0 {
      result.val := Cast(I64, Sub(Cast(I64, lhs), rhs));
      return NoError;
    } else {
      // -rhs wraps when rhs is the least int64
      var tmp := Add(Cast(U64, lhs), Cast(U64, SubWrapping(Lit(0), rhs)));
      if Le(tmp, Cast(U64, MaxOf(I64))) {
        result.val := Cast(I64, tmp);
        return NoError;
      }
    }
    return ArithmeticOverflow;
  }

  // subtract_corner_case_max: a result narrower than 64 bits has bounds to check as well
  predicate IsOverflowPositive(t: IntType, rhs: Int, lhs: Int, tmp: Int) {
    (t.size < 8 && Lt(MaxOf(t), tmp)) || (rhs.n < 0 && Lt(tmp, lhs))
  }

  predicate IsOverflowNegative(t: IntType, rhs: Int, lhs: Int, tmp: Int) {
    (t.size < 8 && Lt(tmp, MinOf(t))) || (rhs.n >= 0 && Lt(lhs, tmp))
  }

  method Sub2Int64Int(lhs: Int, rhs: Int, result: IntVar) returns (err: SafeIntError)
    requires rhs.ty == result.val.ty
    requires lhs.ty == I64 && rhs.ty.signed
    modifies result
    ensures Checked(lhs.n - rhs.n, old(result.val), err, result.val)
  {
    hide Cast, SubWrapping, Lt;
    var T := result.val.ty;
    var tmp := SubWrapping(lhs, rhs);
    if lhs.n >= 0 {
      if IsOverflowPositive(T, rhs, lhs, tmp) {
        return ArithmeticOverflow;
      }
    } else {
      if IsOverflowNegative(T, rhs, lhs, tmp) {
        return ArithmeticOverflow;
      }
    }
    result.val := Cast(T, tmp);
    return NoError;
  }

  method Sub2IntInt64(lhs: Int, rhs: Int, result: IntVar) returns (err: SafeIntError)
    requires rhs.ty == result.val.ty
    requires lhs.ty.signed && lhs.ty.size < 8 && rhs.ty == I64
    modifies result
    ensures Checked(lhs.n - rhs.n, old(result.val), err, result.val)
  {
    hide Cast, SubWrapping, Lt;
    var tmp := SubWrapping(Cast(I64, lhs), rhs);
    if (lhs.n >= 0 && rhs.n < 0 && Lt(tmp, lhs)) || (rhs.n > 0 && Lt(lhs, tmp)) {
      return ArithmeticOverflow;
    }
    result.val := Cast(result.val.ty, tmp);
    return NoError;
  }

  method Sub2Int64Uint(lhs: Int, rhs: Int, result: IntVar) returns (err: SafeIntError)
    requires rhs.ty == result.val.ty
    requires lhs.ty == I64 && !rhs.ty.signed && rhs.ty.size < 8
    modifies result
    ensures Checked(lhs.n - rhs.n, old(result.val), err, result.val)
  {
    hide Cast, Sub, Le;
    var T := result.val.ty;
    var tmp := Sub(Cast(U64, lhs), Cast(U64, rhs));
    if Le(Cast(I64, tmp), MaxOf(T)) && Le(MinOf(T), Cast(I64, tmp)) {
      result.val := Cast(T, Cast(I64, tmp));
      return NoError;
    }
    return ArithmeticOverflow;
  }

  method Sub2IntUint64(lhs: Int, rhs: Int, result: IntVar) returns (err: SafeIntError)
    requires rhs.ty == result.val.ty
    requires lhs.ty.signed && lhs.ty.size < 8 && rhs.ty == U64
    modifies result
    ensures Checked(lhs.n - rhs.n, old(result.val), err, result.val)
  {
    hide Cast, Sub, Le;
    if lhs.n >= 0 && Le(rhs, Cast(U64, lhs)) {
      var difference := Sub(lhs, Cast(lhs.ty, rhs));
      assert difference.n == lhs.n - rhs.n;
      result.val := Cast(U64, difference);
      return NoError;
    }
    return ArithmeticOverflow;
  }

  method Sub2Int64Uint64(lhs: Int, rhs: Int, result: IntVar) returns (err: SafeIntError)
    requires rhs.ty == result.val.ty
    requires lhs.ty == I64 && rhs.ty == U64
    modifies result
    ensures Checked(lhs.n - rhs.n, old(result.val), err, result.val)
  {
    hide Cast, Sub, Le;
    if lhs.n >= 0 && Le(rhs, Cast(U64, lhs)) {
      result.val := Cast(U64, Sub(Cast(U64, lhs), rhs));
      return NoError;
    }
    return ArithmeticOverflow;
  }

  // SubtractionHelper<U, T, SubtractionMethod2<U, T>::method>::SubtractThrow
  method SubtractThrow2(lhs: Int, rhs: Int, result: IntVar) returns (err: SafeIntError)
    requires rhs.ty == result.val.ty
    modifies result
    ensures Checked(lhs.n - rhs.n, old(result.val), err, result.val)
  {
    hide SubtractionMethod2, Checked;
    match SubtractionMethod2(lhs.ty, rhs.ty)
    case BothUnsigned2 => err := Sub2BothUnsigned(lhs, rhs, result);
    case CastIntCheckSafeIntMinMax2 => err := Sub2CastIntCheckSafeIntMinMax(lhs, rhs, result);
    case CastInt64CheckSafeIntMinMax2 => err := Sub2CastInt64CheckSafeIntMinMax(lhs, rhs, result);
    case Uint64Int2 => err := Sub2Uint64Int(lhs, rhs, result);
    case UintInt642 => err := Sub2UintInt64(lhs, rhs, result);
    case Int64Int2 => err := Sub2Int64Int(lhs, rhs, result);
    case IntInt642 => err := Sub2IntInt64(lhs, rhs, result);
    case Int64Uint2 => err := Sub2Int64Uint(lhs, rhs, result);
    case IntUint642 => err := Sub2IntUint64(lhs, rhs, result);
    case Int64Uint642 => err := Sub2Int64Uint64(lhs, rhs, result);
  }
}
