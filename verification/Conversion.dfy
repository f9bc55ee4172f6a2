// SafeCast: conversions between the integer types, checked only as far as the
// pair of types needs it.
module Conversion {
  import opened CxxInt
  import opened SafeIntBase

  datatype CastMethod =
    | CastOK
    | CastCheckLTZero
    | CastCheckGTMax
    | CastCheckSafeIntMinMaxUnsigned
    | CastCheckSafeIntMinMaxSigned

  // type_compare<T, U>::isCastOK
  predicate IsCastOK(t: IntType, u: IntType) {
    (t.signed == u.signed && t.size >= u.size) || (t.signed && t.size > u.size)
  }

  // Only what can go wrong is checked: the conditions compare the ranges.
  function GetCastMethod(to: IntType, from: IntType): (m: CastMethod)
    ensures match m
      case CastOK => to.Min() <= from.Min() && from.Max() <= to.Max()
      case CastCheckLTZero => from.Min() < to.Min() == 0 && from.Max() <= to.Max()
      case CastCheckGTMax => from.Min() == 0 && from.Max() > to.Max()
      case CastCheckSafeIntMinMaxUnsigned => from.Min() < to.Min() == 0 && from.Max() > to.Max()
      case CastCheckSafeIntMinMaxSigned => from.Min() < to.Min() < 0 && from.Max() > to.Max()
  {
    if IsCastOK(to, from) then CastOK
    else if to.signed && !from.signed && from.size >= to.size then CastCheckGTMax
    else if !to.signed && !from.signed && from.size > to.size then CastCheckGTMax
    else if !to.signed && from.signed && to.size >= from.size then CastCheckLTZero
    else if !to.signed then CastCheckSafeIntMinMaxUnsigned
    else CastCheckSafeIntMinMaxSigned
  }

  // SafeCastHelper<T, U, GetCastMethod<T, U>::method>::CastThrow
  method SafeCast(u: Int, t: IntVar) returns (err: SafeIntError)
    modifies t
    ensures Checked(u.n, old(t.val), err, t.val)
  {
    hide Cast, Lt;
    var T := t.val.ty;
    match GetCastMethod(T, u.ty) {
    case CastOK =>
    case CastCheckLTZero => if u.n < 0 { return ArithmeticOverflow; }
    case CastCheckGTMax => if Lt(Cast(u.ty, MaxOf(T)), u) { return ArithmeticOverflow; }
    case CastCheckSafeIntMinMaxUnsigned => if Lt(MaxOf(T), u) || u.n < 0 { return ArithmeticOverflow; }
    case CastCheckSafeIntMinMaxSigned => if Lt(MaxOf(T), u) || Lt(u, MinOf(T)) { return ArithmeticOverflow; }
    }
    t.val := Cast(T, u);
    return NoError;
  }
}
