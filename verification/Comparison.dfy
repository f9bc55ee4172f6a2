// Comparisons that are right for operands of different types, where the
// operators of C++ may convert a negative operand to a large unsigned one.
module Comparison {
  import opened CxxInt

  datatype ComparisonMethod = Ok | CastInt | CastInt64 | UnsignedT | UnsignedU

  // Which operands each method is chosen for. The conditions exclude each other.
  function ValidComparison(t: IntType, u: IntType): (m: ComparisonMethod)
    ensures match m
      case Ok => t.signed == u.signed
      case CastInt =>
        || (t.signed && !u.signed && t.size <= 4 && u.size <= 2)
        || (u.signed && !t.signed && u.size <= 4 && t.size <= 2)
      case CastInt64 =>
        || (t.signed && !u.signed && (u.size == 4 || (t.size == 8 && u.size <= 2)))
        || (u.signed && !t.signed && (t.size == 4 || (u.size == 8 && t.size <= 2)))
      case UnsignedT => t == U64 && u.signed
      case UnsignedU => t.signed && u == U64
  {
    if t.signed == u.signed then Ok
    else if (t.signed && t.size < 8 && u.size < 4) || (u.signed && t.size < 4 && u.size < 8) then CastInt
    else if (t.signed && u.size < 8) || (u.signed && t.size < 8) then CastInt64
    else if !t.signed then UnsignedT
    else UnsignedU
  }

  // EqualityTest
  predicate SafeEquals(t: Int, u: Int): (r: bool)
    ensures r <==> t.n == u.n
  {
    hide Cast, Eq;
    match ValidComparison(t.ty, u.ty)
    case Ok => Eq(t, u)
    case CastInt => Eq(Cast(I32, t), Cast(I32, u))
    case CastInt64 => Eq(Cast(I64, t), Cast(I64, u))
    case UnsignedT => if u.n < 0 then false else Eq(t, Cast(t.ty, u))
    case UnsignedU => if t.n < 0 then false else Eq(Cast(u.ty, t), u)
  }

  // GreaterThanTest
  predicate SafeGreaterThan(t: Int, u: Int): (r: bool)
    ensures r <==> t.n > u.n
  {
    hide Cast, Lt;
    match ValidComparison(t.ty, u.ty)
    case Ok => Lt(u, t)
    case CastInt => Lt(Cast(I32, u), Cast(I32, t))
    case CastInt64 => Lt(Cast(I64, u), Cast(I64, t))
    case UnsignedT => if u.n < 0 then true else Lt(Cast(t.ty, u), t)
    case UnsignedU => if t.n < 0 then false else Lt(u, Cast(u.ty, t))
  }

  predicate SafeNotEquals(t: Int, u: Int): (r: bool)
    ensures r <==> t.n != u.n
  {
    !SafeEquals(t, u)
  }

  predicate SafeGreaterThanEquals(t: Int, u: Int): (r: bool)
    ensures r <==> t.n >= u.n
  {
    !SafeGreaterThan(u, t)
  }

  predicate SafeLessThan(t: Int, u: Int): (r: bool)
    ensures r <==> t.n < u.n
  {
    SafeGreaterThan(u, t)
  }

  predicate SafeLessThanEquals(t: Int, u: Int): (r: bool)
    ensures r <==> t.n <= u.n
  {
    !SafeGreaterThan(t, u)
  }

  // One total order on the values of all eight types together.
  lemma TotalOrder(t: Int, u: Int, v: Int)
    ensures SafeEquals(t, u) || SafeGreaterThan(t, u) || SafeGreaterThan(u, t)
    ensures SafeGreaterThan(t, u) ==> !SafeEquals(t, u) && !SafeGreaterThan(u, t)
    ensures SafeGreaterThan(t, u) && SafeGreaterThan(u, v) ==> SafeGreaterThan(t, v)
    ensures SafeEquals(t, u) && SafeEquals(u, v) ==> SafeEquals(t, v)
    ensures SafeEquals(t, u) ==> (SafeGreaterThan(t, v) <==> SafeGreaterThan(u, v))
  {
    hide SafeEquals, SafeGreaterThan;
  }
}
