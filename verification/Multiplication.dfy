// Checked multiplication: small operands are widened, and operands of 64 bits
// go through LargeIntRegMultiply.
module Multiplication {
  import Bits
  import opened CxxInt
  import opened SafeIntBase
  import opened Conversion
  import opened RegMultiply

  datatype MultiplicationState =
    | CastInt
    | CastInt64
    | CastUint
    | CastUint64
    | Uint64Uint
    | Uint64Uint64
    | Uint64Int
    | Uint64Int64
    | UintUint64
    | UintInt64
    | Int64Uint
    | Int64Int64
    | Int64Int
    | IntUint64
    | IntInt64
    | Int64Uint64

  // Which operands each method is chosen for. The conditions exclude each other,
  // so they determine the method.
  function MultiplicationMethod(t: IntType, u: IntType): (s: MultiplicationState)
    ensures match s
      case CastInt => t.size < 4 && u.size < 4 && (t.signed || u.signed)
      case CastInt64 => t.size < 8 && u.size < 8 && (t.size == 4 || u.size == 4) && (t.signed || u.signed)
      case CastUint => !t.signed && !u.signed && t.size < 4 && u.size < 4
      case CastUint64 => !t.signed && !u.signed && t.size < 8 && u.size < 8 && (t.size == 4 || u.size == 4)
      case Uint64Uint => t == U64 && !u.signed && u.size < 8
      case Uint64Uint64 => t == U64 && u == U64
      case Uint64Int => t == U64 && u.signed && u.size < 8
      case Uint64Int64 => t == U64 && u == I64
      case UintUint64 => !t.signed && t.size < 8 && u == U64
      case UintInt64 => !t.signed && t.size < 8 && u == I64
      case Int64Uint => t == I64 && !u.signed && u.size < 8
      case Int64Int64 => t == I64 && u == I64
      case Int64Int => t == I64 && u.signed && u.size < 8
      case IntUint64 => t.signed && t.size < 8 && u == U64
      case IntInt64 => t.signed && t.size < 8 && u == I64
      case Int64Uint64 => t == I64 && u == U64
  {
    match ZoneOf(t, u)
    case UintLT32_UintLT32 => CastUint
    case Uint32_UintLT64 | UintLT32_Uint32 => CastUint64
    // two uint64 operands have a state of their own
    case Uint64_Uint => if u.size == 8 then Uint64Uint64 else Uint64Uint
    case UintLT64_Uint64 => UintUint64
    case UintLT32_IntLT32 => CastInt
    case Uint32_IntLT64 | UintLT32_Int32 => CastInt64
    case Uint64_Int => Uint64Int
    case UintLT64_Int64 => UintInt64
    case Uint64_Int64 => Uint64Int64
    case IntLT32_IntLT32 => CastInt
    case Int32_IntLT64 | IntLT32_Int32 => CastInt64
    case Int64_Int64 => Int64Int64
    case Int64_Int => Int64Int
    case IntLT64_Int64 => IntInt64
    case IntLT32_UintLT32 => CastInt
    case Int32_UintLT32 | IntLT64_Uint32 => CastInt64
    case Int64_UintLT64 => Int64Uint
    case Int_Uint64 => IntUint64
    case Int64_Uint64 => Int64Uint64
  }

  lemma ProductBound(a: int, b: int, x: nat, y: nat)
    requires Magnitude(a) <= x && Magnitude(b) <= y
    ensures -(x * y) <= a * b <= x * y
  {
    SignedProduct(a, b);
    ProductMonotone(Magnitude(a), Magnitude(b), x, y);
  }

  lemma ProductMonotone(a: nat, b: nat, x: nat, y: nat)
    requires a <= x && b <= y
    ensures a * b <= x * y
  {
    Bits.MulMonotone(a, x, b);
    Bits.MulMonotone(b, y, x);
  }

  method MulCastInt(t: IntVar, u: Int, ret: IntVar) returns (err: SafeIntError)
    requires t.val.ty == ret.val.ty
    requires t.val.ty.size < 4 && u.ty.size < 4 && (t.val.ty.signed || u.ty.signed)
    modifies ret
    ensures Checked(old(t.val).n * u.n, old(ret.val), err, ret.val)
  {
    hide Cast, Mul, Lt;
    var T := ret.val.ty;
    ProductBound(t.val.n, u.n, if T.signed then 0x8000 else 0xffff, if u.ty.signed then 0x8000 else 0xffff);
    var tmp := Mul(t.val, u);
    if Lt(MaxOf(T), tmp) || Lt(tmp, MinOf(T)) {
      return ArithmeticOverflow;
    }
    ret.val := Cast(T, tmp);
    return NoError;
  }

  method MulCastUint(t: IntVar, u: Int, ret: IntVar) returns (err: SafeIntError)
    requires t.val.ty == ret.val.ty
    requires !t.val.ty.signed && !u.ty.signed && t.val.ty.size < 4 && u.ty.size < 4
    modifies ret
    ensures Checked(old(t.val).n * u.n, old(ret.val), err, ret.val)
  {
    hide Cast, MulWrapping, Lt;
    var T := ret.val.ty;
    ProductBound(t.val.n, u.n, 0xffff, 0xffff);
    // the operands are promoted to int, where the product of two uint16 wraps
    var tmp := Cast(U32, MulWrapping(t.val, u));
    if Lt(MaxOf(T), tmp) {
      return ArithmeticOverflow;
    }
    ret.val := Cast(T, tmp);
    return NoError;
  }

  method MulCastInt64(t: IntVar, u: Int, ret: IntVar) returns (err: SafeIntError)
    requires t.val.ty == ret.val.ty
    requires t.val.ty.size < 8 && u.ty.size < 8 && (t.val.ty.signed || u.ty.signed)
    modifies ret
    ensures Checked(old(t.val).n * u.n, old(ret.val), err, ret.val)
  {
    hide Cast, Mul, Lt;
    var T := ret.val.ty;
    var tBound := if T.signed then 0x8000_0000 else 0xffff_ffff;
    var uBound := if u.ty.signed then 0x8000_0000 else 0xffff_ffff;
    ProductBound(t.val.n, u.n, tBound, uBound);
    var tmp := Mul(Cast(I64, t.val), Cast(I64, u));
    if Lt(Cast(I64, MaxOf(T)), tmp) || Lt(tmp, Cast(I64, MinOf(T))) {
      return ArithmeticOverflow;
    }
    ret.val := Cast(T, tmp);
    return NoError;
  }

  method MulCastUint64(t: IntVar, u: Int, ret: IntVar) returns (err: SafeIntError)
    requires t.val.ty == ret.val.ty
    requires !t.val.ty.signed && !u.ty.signed && t.val.ty.size < 8 && u.ty.size < 8
    modifies ret
    ensures Checked(old(t.val).n * u.n, old(ret.val), err, ret.val)
  {
    hide Cast, Mul, Lt;
    var T := ret.val.ty;
    ProductBound(t.val.n, u.n, 0xffff_ffff, 0xffff_ffff);
    SignedProduct(t.val.n, u.n);
    var tmp := Mul(Cast(U64, t.val), Cast(U64, u));
    if Lt(Cast(U64, MaxOf(T)), tmp) {
      return ArithmeticOverflow;
    }
    ret.val := Cast(T, tmp);
    return NoError;
  }

  // The states whose left operand, and so the result, has 64 bits.
  method MulLeft64(useIntrinsics: bool, t: IntVar, u: Int, ret: IntVar) returns (err: SafeIntError)
    requires t.val.ty == ret.val.ty
    requires t.val.ty.size == 8
    modifies ret
    ensures Checked(old(t.val).n * u.n, old(ret.val), err, ret.val)
  {
    hide Cast, MultiplicationMethod;
    var f, tmp;
    match MultiplicationMethod(t.val.ty, u.ty) {
      case Uint64Uint64 => f, tmp := MultiplyUint64Uint64(useIntrinsics, t.val, u);
      case Uint64Uint => f, tmp := MultiplyUint64Uint32(useIntrinsics, t.val, Cast(U32, u));
      case Uint64Int => f, tmp := MultiplyUint64Int32(useIntrinsics, t.val, Cast(I32, u));
      case Uint64Int64 => f, tmp := MultiplyUint64Int64(useIntrinsics, t.val, u);
      case Int64Uint => f, tmp := MultiplyInt64Uint32(useIntrinsics, t.val, Cast(U32, u));
      case Int64Int64 => f, tmp := MultiplyInt64Int64(useIntrinsics, t.val, u);
      case Int64Int => f, tmp := MultiplyInt64Int32(useIntrinsics, t.val, Cast(I32, u));
      case Int64Uint64 => f, tmp := MultiplyInt64Uint64(useIntrinsics, t.val, u);
    }
    if !f {
      return ArithmeticOverflow;
    }
    ret.val := tmp;
    return NoError;
  }

  // The states with a narrower left operand and a right operand of 64 bits: a
  // 32-bit product, then a cast to the result.
  method MulRight64(useIntrinsics: bool, t: IntVar, u: Int, ret: IntVar) returns (err: SafeIntError)
    requires t.val.ty == ret.val.ty
    requires t.val.ty.size < 8 && u.ty.size == 8
    modifies ret
    ensures Checked(old(t.val).n * u.n, old(ret.val), err, ret.val)
  {
    hide Cast, MultiplicationMethod;
    var f, tmp;
    match MultiplicationMethod(t.val.ty, u.ty) {
      case UintUint64 => f, tmp := MultiplyUint32Uint64(Cast(U32, t.val), u);
      case UintInt64 => f, tmp := MultiplyUint32Int64(Cast(U32, t.val), u);
      case IntUint64 => f, tmp := MultiplyInt32Uint64(Cast(I32, t.val), u);
      case IntInt64 => f, tmp := MultiplyInt32Int64(useIntrinsics, Cast(I32, t.val), u);
    }
    if !f {
      return ArithmeticOverflow;
    }
    err := SafeCast(tmp, ret);
  }

  // MultiplicationHelper<T, U, MultiplicationMethod<T, U>::method>::MultiplyThrow
  method MultiplyThrow(useIntrinsics: bool, t: IntVar, u: Int, ret: IntVar) returns (err: SafeIntError)
    requires t.val.ty == ret.val.ty
    modifies ret
    ensures Checked(old(t.val).n * u.n, old(ret.val), err, ret.val)
  {
    hide MultiplicationMethod, Checked;
    match MultiplicationMethod(t.val.ty, u.ty)
    case CastInt => err := MulCastInt(t, u, ret);
    case CastUint => err := MulCastUint(t, u, ret);
    case CastInt64 => err := MulCastInt64(t, u, ret);
    case CastUint64 => err := MulCastUint64(t, u, ret);
    case UintUint64 | UintInt64 | IntUint64 | IntInt64 => err := MulRight64(useIntrinsics, t, u, ret);
    case _ => err := MulLeft64(useIntrinsics, t, u, ret);
  }
}
