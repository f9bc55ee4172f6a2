// Checked addition: one of fifteen methods, chosen by the zone of the types.
// Where a sum may wrap, the helpers recognise it by comparing the wrapped sum
// with an operand.
module Addition {
  import opened CxxInt
  import opened SafeIntBase
  import opened Conversion

  datatype AdditionState =
    | CastIntCheckMax
    | CastUintCheckOverflow
    | CastUintCheckOverflowMax
    | CastUint64CheckOverflow
    | CastUint64CheckOverflowMax
    | CastIntCheckSafeIntMinMax
    | CastInt64CheckSafeIntMinMax
    | CastInt64CheckMax
    | CastUint64CheckSafeIntMinMax
    | CastUint64CheckSafeIntMinMax2
    | CastInt64CheckOverflow
    | CastInt64CheckOverflowSafeIntMinMax
    | CastInt64CheckOverflowMax
    | ManualCheckInt64Uint64
    | ManualCheck

  // Which operands each method is chosen for. The conditions exclude each other,
  // so they determine the method.
  function AdditionMethod(t: IntType, u: IntType): (s: AdditionState)
    ensures match s
      case CastIntCheckMax => t.size < 4 && !u.signed && u.size < 4
      case CastUintCheckOverflow => t == U32 && !u.signed && u.size <= 4
      case CastUintCheckOverflowMax => !t.signed && t.size < 4 && u == U32
      case CastUint64CheckOverflow => t == U64 && !u.signed
      case CastUint64CheckOverflowMax => !t.signed && t.size < 8 && u == U64
      case CastIntCheckSafeIntMinMax => t.size < 4 && u.signed && u.size < 4
      case CastInt64CheckSafeIntMinMax => u.signed && t.size < 8 && u.size < 8 && (t.size == 4 || u.size == 4)
      case CastInt64CheckMax => t.signed && !u.signed && t.size < 8 && u.size < 8 && (t.size == 4 || u.size == 4)
      case CastUint64CheckSafeIntMinMax => t == U64 && u.signed
      case CastUint64CheckSafeIntMinMax2 => !t.signed && t.size < 8 && u == I64
      case CastInt64CheckOverflow => t == I64 && u.signed
      case CastInt64CheckOverflowSafeIntMinMax => t.signed && t.size < 8 && u == I64
      case CastInt64CheckOverflowMax => t == I64 && !u.signed && u.size < 8
      case ManualCheckInt64Uint64 => t == I64 && u == U64
      case ManualCheck => t.signed && t.size < 8 && u == U64
  {
    match ZoneOf(t, u)
    case UintLT32_UintLT32 => CastIntCheckMax
    case Uint32_UintLT64 => CastUintCheckOverflow
    case UintLT32_Uint32 => CastUintCheckOverflowMax
    case Uint64_Uint => CastUint64CheckOverflow
    case UintLT64_Uint64 => CastUint64CheckOverflowMax
    case UintLT32_IntLT32 => CastIntCheckSafeIntMinMax
    case Uint32_IntLT64 | UintLT32_Int32 => CastInt64CheckSafeIntMinMax
    case Uint64_Int | Uint64_Int64 => CastUint64CheckSafeIntMinMax
    case UintLT64_Int64 => CastUint64CheckSafeIntMinMax2
    case IntLT32_IntLT32 => CastIntCheckSafeIntMinMax
    case Int32_IntLT64 | IntLT32_Int32 => CastInt64CheckSafeIntMinMax
    case Int64_Int | Int64_Int64 => CastInt64CheckOverflow
    case IntLT64_Int64 => CastInt64CheckOverflowSafeIntMinMax
    case IntLT32_UintLT32 => CastIntCheckMax
    case Int32_UintLT32 | IntLT64_Uint32 => CastInt64CheckMax
    case Int64_UintLT64 => CastInt64CheckOverflowMax
    case Int64_Uint64 => ManualCheckInt64Uint64
    case Int_Uint64 => ManualCheck
  }

  method AddCastIntCheckMax(lhs: IntVar, rhs: Int, result: IntVar) returns (err: SafeIntError)
    requires lhs.val.ty == result.val.ty
    requires lhs.val.ty.size < 4 && !rhs.ty.signed && rhs.ty.size < 4
    modifies result
    ensures Checked(old(lhs.val).n + rhs.n, old(result.val), err, result.val)
  {
    hide Cast, Add, Le;
    var T := result.val.ty;
    var tmp := Add(lhs.val, rhs);
    if Le(tmp, Cast(I32, MaxOf(T))) {
      result.val := Cast(T, tmp);
      return NoError;
    }
    return ArithmeticOverflow;
  }

  method AddCastUintCheckOverflow(lhs: IntVar, rhs: Int, result: IntVar) returns (err: SafeIntError)
    requires lhs.val.ty == result.val.ty
    requires lhs.val.ty == U32 && !rhs.ty.signed && rhs.ty.size <= 4
    modifies result
    ensures Checked(old(lhs.val).n + rhs.n, old(result.val), err, result.val)
  {
    hide Cast, Add, Le;
    var tmp := Add(Cast(U32, lhs.val), Cast(U32, rhs));
    // the sum did not get smaller
    if Le(lhs.val, tmp) {
      result.val := Cast(result.val.ty, tmp);
      return NoError;
    }
    return ArithmeticOverflow;
  }

  method AddCastUintCheckOverflowMax(lhs: IntVar, rhs: Int, result: IntVar) returns (err: SafeIntError)
    requires lhs.val.ty == result.val.ty
    requires !lhs.val.ty.signed && lhs.val.ty.size < 4 && rhs.ty == U32
    modifies result
    ensures Checked(old(lhs.val).n + rhs.n, old(result.val), err, result.val)
  {
    hide Cast, Add, Le;
    var T := result.val.ty;
    var tmp := Add(Cast(U32, lhs.val), Cast(U32, rhs));
    if Le(lhs.val, tmp) && Le(tmp, MaxOf(T)) {
      result.val := Cast(T, tmp);
      return NoError;
    }
    return ArithmeticOverflow;
  }

  method AddCastUint64CheckOverflow(lhs: IntVar, rhs: Int, result: IntVar) returns (err: SafeIntError)
    requires lhs.val.ty == result.val.ty
    requires lhs.val.ty == U64 && !rhs.ty.signed
    modifies result
    ensures Checked(old(lhs.val).n + rhs.n, old(result.val), err, result.val)
  {
    hide Cast, Add, Le;
    var tmp := Add(Cast(U64, lhs.val), Cast(U64, rhs));
    if Le(lhs.val, tmp) {
      result.val := Cast(result.val.ty, tmp);
      return NoError;
    }
    return ArithmeticOverflow;
  }

  method AddCastUint64CheckOverflowMax(lhs: IntVar, rhs: Int, result: IntVar) returns (err: SafeIntError)
    requires lhs.val.ty == result.val.ty
    requires !lhs.val.ty.signed && lhs.val.ty.size < 8 && rhs.ty == U64
    modifies result
    ensures Checked(old(lhs.val).n + rhs.n, old(result.val), err, result.val)
  {
    hide Cast, Add, Le;
    var T := result.val.ty;
    var tmp := Add(Cast(U64, lhs.val), Cast(U64, rhs));
    if Le(lhs.val, tmp) && Le(tmp, MaxOf(T)) {
      result.val := Cast(T, tmp);
      return NoError;
    }
    return ArithmeticOverflow;
  }

  method AddCastIntCheckSafeIntMinMax(lhs: IntVar, rhs: Int, result: IntVar) returns (err: SafeIntError)
    requires lhs.val.ty == result.val.ty
    requires lhs.val.ty.size < 4 && rhs.ty.signed && rhs.ty.size < 4
    modifies result
    ensures Checked(old(lhs.val).n + rhs.n, old(result.val), err, result.val)
  {
    hide Cast, Add, Le;
    var T := result.val.ty;
    var tmp := Add(lhs.val, rhs);
    if Le(tmp, Cast(I32, MaxOf(T))) && Le(Cast(I32, MinOf(T)), tmp) {
      result.val := Cast(T, tmp);
      return NoError;
    }
    return ArithmeticOverflow;
  }

  method AddCastInt64CheckSafeIntMinMax(lhs: IntVar, rhs: Int, result: IntVar) returns (err: SafeIntError)
    requires lhs.val.ty == result.val.ty
    requires lhs.val.ty.size < 8 && rhs.ty.size < 8
    modifies result
    ensures Checked(old(lhs.val).n + rhs.n, old(result.val), err, result.val)
  {
    hide Cast, Add, Le;
    var T := result.val.ty;
    var tmp := Add(Cast(I64, lhs.val), Cast(I64, rhs));
    if Le(tmp, Cast(I64, MaxOf(T))) && Le(Cast(I64, MinOf(T)), tmp) {
      result.val := Cast(T, tmp);
      return NoError;
    }
    return ArithmeticOverflow;
  }

  method AddCastInt64CheckMax(lhs: IntVar, rhs: Int, result: IntVar) returns (err: SafeIntError)
    requires lhs.val.ty == result.val.ty
    requires lhs.val.ty.signed && lhs.val.ty.size < 8 && !rhs.ty.signed && rhs.ty.size < 8
    modifies result
    ensures Checked(old(lhs.val).n + rhs.n, old(result.val), err, result.val)
  {
    hide Cast, Add, Le;
    var T := result.val.ty;
    var tmp := Add(Cast(I64, lhs.val), Cast(I64, rhs));
    if Le(tmp, MaxOf(T)) {
      result.val := Cast(T, tmp);
      return NoError;
    }
    return ArithmeticOverflow;
  }

  method AddCastUint64CheckSafeIntMinMax(lhs: IntVar, rhs: Int, result: IntVar) returns (err: SafeIntError)
    requires lhs.val.ty == result.val.ty
    requires lhs.val.ty == U64 && rhs.ty.signed
    modifies result
    ensures Checked(old(lhs.val).n + rhs.n, old(result.val), err, result.val)
  {
    hide Cast, Add, Sub, Le;
    if rhs.n < 0 {
      // effectively a subtraction
      var tmp := Cast(U64, Abs(rhs));
      if Le(tmp, lhs.val) {
        result.val := Cast(result.val.ty, Sub(lhs.val, tmp));
        return NoError;
      }
    } else {
      var tmp := Add(Cast(U64, lhs.val), Cast(U64, rhs));
      if Le(lhs.val, tmp) {
        result.val := Cast(result.val.ty, tmp);
        return NoError;
      }
    }
    return ArithmeticOverflow;
  }

  method AddCastUint64CheckSafeIntMinMax2(lhs: IntVar, rhs: Int, result: IntVar) returns (err: SafeIntError)
    requires lhs.val.ty == result.val.ty
    requires !lhs.val.ty.signed && lhs.val.ty.size < 8 && rhs.ty == I64
    modifies result
    ensures Checked(old(lhs.val).n + rhs.n, old(result.val), err, result.val)
  {
    hide Cast, Add, Le, Abs;
    var T := result.val.ty;
    if rhs.n < 0 {
      if Le(Abs(rhs), lhs.val) {
        result.val := Cast(T, Add(lhs.val, rhs));
        return NoError;
      }
    } else {
      var tmp := Add(Cast(U64, lhs.val), Cast(U64, rhs));
      // this addition cannot wrap, so checking the maximum is enough
      if Le(tmp, MaxOf(T)) {
        result.val := Cast(T, tmp);
        return NoError;
      }
    }
    return ArithmeticOverflow;
  }

  method AddCastInt64CheckOverflow(lhs: IntVar, rhs: Int, result: IntVar) returns (err: SafeIntError)
    requires lhs.val.ty == result.val.ty
    requires lhs.val.ty == I64 && rhs.ty.signed
    modifies result
    ensures Checked(old(lhs.val).n + rhs.n, old(result.val), err, result.val)
  {
    hide Cast, Add, Lt;
    var tmp := Cast(I64, Add(Cast(U64, lhs.val), Cast(U64, rhs)));
    if lhs.val.n >= 0 {
      // mixed sign cannot overflow
      if rhs.n >= 0 && Lt(tmp, lhs.val) {
        return ArithmeticOverflow;
      }
    } else {
      if rhs.n < 0 && Lt(lhs.val, tmp) {
        return ArithmeticOverflow;
      }
    }
    result.val := Cast(result.val.ty, tmp);
    return NoError;
  }

  method AddCastInt64CheckOverflowSafeIntMinMax(lhs: IntVar, rhs: Int, result: IntVar) returns (err: SafeIntError)
    requires lhs.val.ty == result.val.ty
    requires lhs.val.ty.signed && lhs.val.ty.size < 8 && rhs.ty == I64
    modifies result
    ensures Checked(old(lhs.val).n + rhs.n, old(result.val), err, result.val)
  {
    hide Cast, Le;
    var T := result.val.ty;
    var wide := new IntVar(Cast(I64, lhs.val));
    var tmp := new IntVar(Cast(I64, Lit(0)));
    err := AddCastInt64CheckOverflow(wide, Cast(I64, rhs), tmp);
    if err.NoError? && Le(tmp.val, MaxOf(T)) && Le(MinOf(T), tmp.val) {
      result.val := Cast(T, tmp.val);
      return NoError;
    }
    return ArithmeticOverflow;
  }

  // AdditionState_CastInt64CheckOverflowMax and AdditionState_ManualCheckInt64Uint64
  method AddCastInt64CheckOverflowMax(lhs: IntVar, rhs: Int, result: IntVar) returns (err: SafeIntError)
    requires lhs.val.ty == result.val.ty
    requires lhs.val.ty == I64 && !rhs.ty.signed
    modifies result
    ensures Checked(old(lhs.val).n + rhs.n, old(result.val), err, result.val)
  {
    hide Cast, Add, Le;
    var tmp := Add(Cast(U64, lhs.val), Cast(U64, rhs));
    if Le(lhs.val, Cast(I64, tmp)) {
      result.val := Cast(result.val.ty, Cast(I64, tmp));
      return NoError;
    }
    return ArithmeticOverflow;
  }

  // A uint64 above 2^32 is too large to be added to 32 bits.
  method AddManualCheck(lhs: IntVar, rhs: Int, result: IntVar) returns (err: SafeIntError)
    requires lhs.val.ty == result.val.ty
    requires lhs.val.ty.signed && lhs.val.ty.size < 8 && rhs.ty == U64
    modifies result
    ensures Checked(old(lhs.val).n + rhs.n, old(result.val), err, result.val)
  {
    hide Cast, Add, Le;
    if High32(rhs).n == 0 {
      var tmp := Add(Cast(U32, rhs), Cast(U32, lhs.val));
      ghost var sum := lhs.val.n + rhs.n;
      assert tmp.n == sum || tmp.n == sum + U32.Span() || tmp.n == sum - U32.Span();
      if Le(lhs.val, Cast(I32, tmp)) {
        err := SafeCast(Cast(I32, tmp), result);
        return;
      }
    }
    return ArithmeticOverflow;
  }

  // AdditionHelper<T, U, AdditionMethod<T, U>::method>::AdditionThrow
  method AdditionThrow(lhs: IntVar, rhs: Int, result: IntVar) returns (err: SafeIntError)
    requires lhs.val.ty == result.val.ty
    modifies result
    ensures Checked(old(lhs.val).n + rhs.n, old(result.val), err, result.val)
  {
    hide AdditionMethod, Checked;
    match AdditionMethod(lhs.val.ty, rhs.ty)
    case CastIntCheckMax => err := AddCastIntCheckMax(lhs, rhs, result);
    case CastUintCheckOverflow => err := AddCastUintCheckOverflow(lhs, rhs, result);
    case CastUintCheckOverflowMax => err := AddCastUintCheckOverflowMax(lhs, rhs, result);
    case CastUint64CheckOverflow => err := AddCastUint64CheckOverflow(lhs, rhs, result);
    case CastUint64CheckOverflowMax => err := AddCastUint64CheckOverflowMax(lhs, rhs, result);
    case CastIntCheckSafeIntMinMax => err := AddCastIntCheckSafeIntMinMax(lhs, rhs, result);
    case CastInt64CheckSafeIntMinMax => err := AddCastInt64CheckSafeIntMinMax(lhs, rhs, result);
    case CastInt64CheckMax => err := AddCastInt64CheckMax(lhs, rhs, result);
    case CastUint64CheckSafeIntMinMax => err := AddCastUint64CheckSafeIntMinMax(lhs, rhs, result);
    case CastUint64CheckSafeIntMinMax2 => err := AddCastUint64CheckSafeIntMinMax2(lhs, rhs, result);
    case CastInt64CheckOverflow => err := AddCastInt64CheckOverflow(lhs, rhs, result);
    case CastInt64CheckOverflowSafeIntMinMax => err := AddCastInt64CheckOverflowSafeIntMinMax(lhs, rhs, result);
    case CastInt64CheckOverflowMax => err := AddCastInt64CheckOverflowMax(lhs, rhs, result);
    case ManualCheckInt64Uint64 => err := AddCastInt64CheckOverflowMax(lhs, rhs, result);
    case ManualCheck => err := AddManualCheck(lhs, rhs, result);
  }
}
