// What every part of SafeInt shares: the error codes, the variable that the
// helpers write through, magnitudes and negation, and the zones of type pairs.
module SafeIntBase {
  import opened CxxInt

  datatype SafeIntError = NoError | ArithmeticOverflow | DivideByZero

  // A variable of integer type, as a helper receives it by reference. Operand
  // and result may be the same variable.
  class IntVar {
    var val: Int

    constructor (v: Int)
      ensures val == v
    {
      val := v;
    }
  }

  // The promise of nearly every helper: the exact result if it fits the type of
  // the variable, and otherwise an error that leaves the variable alone.
  predicate Checked(exact: int, before: Int, err: SafeIntError, after: Int) {
    if before.ty.Holds(exact) then err == NoError && after.ty == before.ty && after.n == exact
    else err == ArithmeticOverflow && after == before
  }

  // The promise of an operator that returns a new SafeInt<T>.
  predicate CheckedResult(exact: int, t: IntType, err: SafeIntError, value: Int) {
    if t.Holds(exact) then err == NoError && value.ty == t && value.n == exact
    else err == ArithmeticOverflow
  }

  // An operator succeeds exactly when the result fits, and then with the result.
  lemma ResultIsExact(exact: int, t: IntType, err: SafeIntError, value: Int)
    requires CheckedResult(exact, t, err, value)
    ensures if t.Min() <= exact <= t.Max() then err == NoError && value == Int(t, exact) else err == ArithmeticOverflow
  {
  }

  // AbsValueHelper
  function Abs(t: Int): (r: Int)
    requires t.ty.signed && t.n < 0
    ensures r.ty == if t.ty.size < 8 then U32 else U64
    ensures r.n == -t.n
  {
    hide Cast, Negated;
    if t.ty.size < 8 then Negated(Cast(U32, t)) else Negated(Cast(U64, t))
  }

  // SignedNegation<T>::Value: the negative number of a magnitude, by way of ~in + 1
  function SignedNegation(t: IntType, v: Int): (r: Int)
    requires t == I32 || t == I64
    requires !v.ty.signed && v.ty.size >= t.size
    ensures r.ty == t
    ensures v.n <= -t.Min() ==> r.n == -v.n
  {
    hide Negated;
    Cast(t, Negated(Cast(IntType(false, t.size), v)))
  }

  datatype IntZone =
    | UintLT32_UintLT32 | Uint32_UintLT64 | UintLT32_Uint32 | Uint64_Uint | UintLT64_Uint64
    | UintLT32_IntLT32 | Uint32_IntLT64 | UintLT32_Int32 | Uint64_Int | UintLT64_Int64 | Uint64_Int64
    | IntLT32_IntLT32 | Int32_IntLT64 | IntLT32_Int32 | Int64_Int64 | Int64_Int | IntLT64_Int64
    | IntLT32_UintLT32 | Int32_UintLT32 | IntLT64_Uint32 | Int64_UintLT64 | Int_Uint64 | Int64_Uint64

  // The definitions of the zones, one by one.
  predicate InZone(t: IntType, u: IntType, z: IntZone) {
    var bothUnsigned := !t.signed && !u.signed;
    var bothSigned := t.signed && u.signed;
    var bothLT32 := t.size < 4 && u.size < 4;
    match z
    case UintLT32_UintLT32 => bothUnsigned && bothLT32
    case Uint32_UintLT64 => bothUnsigned && t.size == 4 && u.size < 8
    case UintLT32_Uint32 => bothUnsigned && t.size < 4 && u.size == 4
    case Uint64_Uint => bothUnsigned && t.size == 8
    case UintLT64_Uint64 => bothUnsigned && t.size < 8 && u.size == 8
    case UintLT32_IntLT32 => !t.signed && u.signed && bothLT32
    case Uint32_IntLT64 => t == U32 && u.signed && u.size < 8
    case UintLT32_Int32 => !t.signed && t.size < 4 && u == I32
    case Uint64_Int => t == U64 && u.signed && u.size < 8
    case UintLT64_Int64 => !t.signed && t.size < 8 && u == I64
    case Uint64_Int64 => t == U64 && u == I64
    case IntLT32_IntLT32 => bothSigned && bothLT32
    case Int32_IntLT64 => bothSigned && t.size == 4 && u.size < 8
    case IntLT32_Int32 => bothSigned && t.size < 4 && u.size == 4
    case Int64_Int64 => bothSigned && t == I64 && u == I64
    case Int64_Int => bothSigned && t.size == 8 && u.size < 8
    case IntLT64_Int64 => bothSigned && t.size < 8 && u.size == 8
    case IntLT32_UintLT32 => t.signed && !u.signed && bothLT32
    case Int32_UintLT32 => t == I32 && !u.signed && u.size < 4
    case IntLT64_Uint32 => t.signed && t.size < 8 && u == U32
    case Int64_UintLT64 => t == I64 && !u.signed && u.size < 8
    case Int_Uint64 => t.signed && u == U64 && t.size < 8
    case Int64_Uint64 => t == I64 && u == U64
  }

  // The zone of a pair of types, found by sign and size.
  function ZoneOf(t: IntType, u: IntType): IntZone {
    if !t.signed && !u.signed then
      if t.size == 8 then Uint64_Uint
      else if u.size == 8 then UintLT64_Uint64
      else if t.size == 4 then Uint32_UintLT64
      else if u.size == 4 then UintLT32_Uint32 else UintLT32_UintLT32
    else if !t.signed then
      if u.size == 8 then (if t.size < 8 then UintLT64_Int64 else Uint64_Int64)
      else if t.size == 8 then Uint64_Int
      else if t.size == 4 then Uint32_IntLT64
      else if u.size == 4 then UintLT32_Int32 else UintLT32_IntLT32
    else if u.signed then
      if u.size == 8 then (if t.size < 8 then IntLT64_Int64 else Int64_Int64)
      else if t.size == 8 then Int64_Int
      else if t.size == 4 then Int32_IntLT64
      else if u.size == 4 then IntLT32_Int32 else IntLT32_IntLT32
    else
      if u.size == 8 then (if t.size < 8 then Int_Uint64 else Int64_Uint64)
      else if t.size == 8 then Int64_UintLT64
      else if u.size == 4 then IntLT64_Uint32
      else if t.size == 4 then Int32_UintLT32 else IntLT32_UintLT32
  }

  // Every pair of types is in one zone and in no other.
  lemma ExactlyOneZone(t: IntType, u: IntType, z: IntZone)
    ensures InZone(t, u, z) <==> z == ZoneOf(t, u)
  {
  }
}
