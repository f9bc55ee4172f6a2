// The C++ integer types, their values and the operators on them: integral
// promotion, the usual arithmetic conversions, modular conversion and
// truncating division. SafeInt is written against these rules, and several of
// its checks are only correct because of them.
module CxxInt {
  import Bits

  // ---------- types

  datatype AnyType = IntType(signed: bool, size: int) {

    // 2 to the power (number of bits - 1)
    function Half(): (h: int)
      ensures h > 0
    {
      if size == 1 then 0x80
      else if size == 2 then 0x8000
      else if size == 4 then 0x8000_0000
      else 0x8000_0000_0000_0000
    }

    function Span(): int { 2 * Half() }

    function Min(): int { if signed then -Half() else 0 }

    function Max(): int { if signed then Half() - 1 else 2 * Half() - 1 }

    predicate Holds(n: int) { Min() <= n <= Max() }

    // The value of this type that is congruent to n modulo Span().
    function Wrap(n: int): (r: int)
      ensures Holds(r)
      ensures Holds(n) ==> r == n
      ensures Holds(n - Span()) ==> r == n - Span()
      ensures Holds(n + Span()) ==> r == n + Span()
      decreases if n < Min() then Min() - n else if n > Max() then n - Max() else 0
    {
      if n < Min() then Wrap(n + Span()) else if n > Max() then Wrap(n - Span()) else n
    }
  }

  type IntType = t: AnyType | t.size == 1 || t.size == 2 || t.size == 4 || t.size == 8
    witness IntType(true, 1)

  const I32: IntType := IntType(true, 4)
  const U32: IntType := IntType(false, 4)
  const I64: IntType := IntType(true, 8)
  const U64: IntType := IntType(false, 8)

  // The ranges of the eight types.
  lemma TypeRanges()
    ensures IntType(true, 1).Min() == -128 && IntType(true, 1).Max() == 127
    ensures IntType(true, 2).Min() == -32768 && IntType(true, 2).Max() == 32767
    ensures I32.Min() == -2147483648 && I32.Max() == 2147483647
    ensures I64.Min() == -9223372036854775808 && I64.Max() == 9223372036854775807
    ensures IntType(false, 1).Min() == 0 && IntType(false, 1).Max() == 255
    ensures IntType(false, 2).Min() == 0 && IntType(false, 2).Max() == 65535
    ensures U32.Min() == 0 && U32.Max() == 4294967295
    ensures U64.Min() == 0 && U64.Max() == 18446744073709551615
  {
  }

  // ---------- values

  datatype AnyInt = Int(ty: IntType, n: int)

  type Int = v: AnyInt | v.ty.Holds(v.n) witness Int(IntType(true, 1), 0)

  // The literal n, of type int.
  function Lit(n: int): Int
    requires I32.Holds(n)
  {
    Int(I32, n)
  }

  function MaxOf(t: IntType): Int { Int(t, t.Max()) }

  function MinOf(t: IntType): Int { Int(t, t.Min()) }

  // ---------- conversions

  // (ty)v
  function Cast(ty: IntType, v: Int): (r: Int)
    ensures r.ty == ty
    ensures ty.Holds(v.n) ==> r.n == v.n
    ensures ty.Holds(v.n + ty.Span()) ==> r.n == v.n + ty.Span()
    ensures ty.Holds(v.n - ty.Span()) ==> r.n == v.n - ty.Span()
  {
    Int(ty, ty.Wrap(v.n))
  }

  function Promoted(ty: IntType): IntType { if ty.size < 4 then I32 else ty }

  // The type both operands of a binary operator are converted to.
  function Common(a: IntType, b: IntType): IntType {
    var p, q := Promoted(a), Promoted(b);
    if p.size > q.size then p else if q.size > p.size then q else if p.signed then q else p
  }

  // Conversion is periodic: adding a multiple of 2^bits changes nothing.
  lemma WrapStep(t: IntType, n: int)
    ensures t.Wrap(n + t.Span()) == t.Wrap(n)
  {
  }

  lemma {:induction false} WrapPeriodic(t: IntType, n: int, k: nat)
    ensures t.Wrap(n + k * t.Span()) == t.Wrap(n)
    decreases k
  {
    hide *;
    if k > 0 {
      var s := t.Span();
      assert (k - 1) * s == k * s - s;
      WrapPeriodic(t, n + s, k - 1);
      WrapStep(t, n);
    }
  }

  // Converting to 64 bits first does not change what a narrower type receives.
  lemma WrapNarrower(t: IntType, n: int)
    requires t.Holds(n)
    ensures t.Wrap(U64.Wrap(n)) == n
  {
    if n < 0 {
      var k := if t.size == 1 then 0x100_0000_0000_0000 else if t.size == 2 then 0x1_0000_0000_0000
               else if t.size == 4 then 0x1_0000_0000 else 1;
      assert k * t.Span() == U64.Span();
      assert U64.Wrap(n) == n + U64.Span();
      WrapPeriodic(t, n, k);
    }
  }

  // ---------- operators

  // Unsigned arithmetic wraps; signed arithmetic is undefined when it overflows.
  predicate Defined(ty: IntType, n: int) { ty.signed ==> ty.Holds(n) }

  lemma CongruentSum(t: IntType, a: int, b: int, x: int, y: int)
    requires (x == a || x == a + t.Span()) && (y == b || y == b + t.Span())
    ensures t.Wrap(x + y) == t.Wrap(a + b)
  {
    WrapStep(t, a + b);
    WrapStep(t, a + b + t.Span());
  }

  lemma CongruentDifference(t: IntType, a: int, b: int, x: int, y: int)
    requires (x == a || x == a + t.Span()) && (y == b || y == b + t.Span())
    ensures t.Wrap(x - y) == t.Wrap(a - b)
  {
    WrapStep(t, a - b);
    WrapStep(t, a - b - t.Span());
  }

  // a + b on a machine whose signed addition wraps as well.
  function AddWrapping(a: Int, b: Int): (r: Int)
    ensures r.ty == Common(a.ty, b.ty)
    ensures r.n == r.ty.Wrap(a.n + b.n)
  {
    var c := Common(a.ty, b.ty);
    var x, y := Cast(c, a).n, Cast(c, b).n;
    CongruentSum(c, a.n, b.n, x, y);
    Int(c, c.Wrap(x + y))
  }

  function Add(a: Int, b: Int): (r: Int)
    requires Defined(Common(a.ty, b.ty), a.n + b.n)
    ensures r.ty == Common(a.ty, b.ty)
    ensures r.n == r.ty.Wrap(a.n + b.n)
  {
    AddWrapping(a, b)
  }

  function SubWrapping(a: Int, b: Int): (r: Int)
    ensures r.ty == Common(a.ty, b.ty)
    ensures r.n == r.ty.Wrap(a.n - b.n)
  {
    var c := Common(a.ty, b.ty);
    var x, y := Cast(c, a).n, Cast(c, b).n;
    CongruentDifference(c, a.n, b.n, x, y);
    Int(c, c.Wrap(x - y))
  }

  function Sub(a: Int, b: Int): (r: Int)
    requires Defined(Common(a.ty, b.ty), a.n - b.n)
    ensures r.ty == Common(a.ty, b.ty)
    ensures r.n == r.ty.Wrap(a.n - b.n)
  {
    SubWrapping(a, b)
  }

  // a * b on a machine whose signed multiplication wraps as well.
  function MulWrapping(a: Int, b: Int): (r: Int)
    ensures r.ty == Common(a.ty, b.ty)
    ensures r.ty.Holds(a.n) && r.ty.Holds(b.n) ==> r.n == r.ty.Wrap(a.n * b.n)
  {
    var c := Common(a.ty, b.ty);
    Int(c, c.Wrap(Cast(c, a).n * Cast(c, b).n))
  }

  function Mul(a: Int, b: Int): (r: Int)
    requires Defined(Common(a.ty, b.ty), a.n * b.n)
    ensures r.ty == Common(a.ty, b.ty)
    ensures r.ty.Holds(a.n) && r.ty.Holds(b.n) ==> r.n == r.ty.Wrap(a.n * b.n)
  {
    MulWrapping(a, b)
  }

  predicate Lt(a: Int, b: Int)
    ensures Common(a.ty, b.ty).signed || (a.n >= 0 && b.n >= 0) ==> (Lt(a, b) <==> a.n < b.n)
  {
    var c := Common(a.ty, b.ty);
    Cast(c, a).n < Cast(c, b).n
  }

  predicate Le(a: Int, b: Int)
    ensures Common(a.ty, b.ty).signed || (a.n >= 0 && b.n >= 0) ==> (Le(a, b) <==> a.n <= b.n)
  {
    !Lt(b, a)
  }

  predicate Eq(a: Int, b: Int)
    ensures Common(a.ty, b.ty).signed || (a.n >= 0 && b.n >= 0) ==> (Eq(a, b) <==> a.n == b.n)
  {
    var c := Common(a.ty, b.ty);
    Cast(c, a).n == Cast(c, b).n
  }

  // ~v
  function Not(v: Int): (r: Int)
    ensures r.ty == Promoted(v.ty)
    ensures r.n == if r.ty.signed then -v.n - 1 else r.ty.Max() - v.n
  {
    var p := Promoted(v.ty);
    Int(p, p.Wrap(-v.n - 1))
  }

  // ~v + 1, the negation of an unsigned value
  function Negated(v: Int): (r: Int)
    requires !Promoted(v.ty).signed
    ensures r.ty == v.ty && r.n == v.ty.Wrap(-v.n)
  {
    WrapStep(v.ty, -v.n);
    Add(Not(v), Lit(1))
  }

  function Magnitude(a: int): nat { if a < 0 then -a else a }

  // Division truncates towards zero.
  function TruncDiv(a: int, b: int): int
    requires b != 0
  {
    var q := Magnitude(a) / Magnitude(b);
    if (a >= 0) == (b > 0) then q else -q
  }

  // The remainder has the sign of the dividend.
  function TruncRem(a: int, b: int): int
    requires b != 0
  {
    var r := Magnitude(a) % Magnitude(b);
    if a >= 0 then r else -r
  }

  // The laws that pin both functions down.
  lemma DivisionIdentity(a: int, b: int)
    requires b != 0
    ensures a == TruncDiv(a, b) * b + TruncRem(a, b)
    ensures Magnitude(TruncRem(a, b)) < Magnitude(b)
    ensures a >= 0 ==> TruncRem(a, b) >= 0
    ensures a <= 0 ==> TruncRem(a, b) <= 0
  {
    var x, y := Magnitude(a), Magnitude(b);
    assert x == x / y * y + x % y;
  }

  lemma QuotientFacts(x: nat, y: nat, q: int, r: nat)
    requires x == q * y + r && r < y
    ensures 0 <= q <= x && r <= x
    ensures x < y <==> q == 0
    ensures x == y ==> q == 1
    ensures y == 1 ==> q == x && r == 0
    ensures x > 0 && y > 1 ==> q < x
  {
    if q > 0 {
      assert q * y >= y;
      assert q * y >= q;
      if y > 1 { assert q * y >= q * 2; }
      if q > 1 { assert q * y >= 2 * y; }
    }
  }

  lemma NatQuotient(x: nat, y: nat)
    requires y > 0
    ensures 0 <= x / y <= x && 0 <= x % y <= x
    ensures x < y <==> x / y == 0
    ensures x == y ==> x / y == 1
    ensures y == 1 ==> x / y == x && x % y == 0
    ensures x > 0 && y > 1 ==> x / y < x
  {
    var q, r := x / y, x % y;
    assert x == q * y + r;
    QuotientFacts(x, y, q, r);
  }

  lemma TruncBounds(a: int, b: int)
    requires b != 0
    ensures a >= 0 ==> -a <= TruncDiv(a, b) <= a && 0 <= TruncRem(a, b) <= a
    ensures a <= 0 ==> a <= TruncDiv(a, b) <= -a && a <= TruncRem(a, b) <= 0
    ensures a >= 0 && b > 0 ==> TruncDiv(a, b) >= 0
    ensures a <= 0 && b > 0 ==> TruncDiv(a, b) <= 0
  {
    NatQuotient(Magnitude(a), Magnitude(b));
  }

  // (uint32_t)(v >> 32)
  function High32(v: Int): (r: Int)
    requires v.ty == U64
    ensures r.ty == U32 && r.n == v.n / 0x1_0000_0000
  {
    Int(U32, v.n / 0x1_0000_0000)
  }

  lemma CommonKeeps(a: Int, b: Int)
    ensures var c := Common(a.ty, b.ty); c.signed || a.n >= 0 ==> Cast(c, a).n == a.n
    ensures var c := Common(a.ty, b.ty); c.signed || b.n >= 0 ==> Cast(c, b).n == b.n
    ensures b.n != 0 ==> Cast(Common(a.ty, b.ty), b).n != 0
  {
  }

  // a / b
  function Div(a: Int, b: Int): (r: Int)
    requires b.n != 0
    requires Common(a.ty, b.ty).signed ==> Common(a.ty, b.ty).Holds(TruncDiv(a.n, b.n))
    ensures r.ty == Common(a.ty, b.ty)
    ensures r.ty.signed || (a.n >= 0 && b.n >= 0) ==> r.n == TruncDiv(a.n, b.n)
  {
    hide Common, Cast, TruncDiv, TruncRem;
    CommonKeeps(a, b);
    var c := Common(a.ty, b.ty);
    var x, y := Cast(c, a).n, Cast(c, b).n;
    TruncBounds(x, y);
    Int(c, TruncDiv(x, y))
  }

  // a % b; undefined, as a / b is, for the least value and -1
  function Rem(a: Int, b: Int): (r: Int)
    requires b.n != 0
    requires Common(a.ty, b.ty).signed ==> Common(a.ty, b.ty).Holds(TruncDiv(a.n, b.n))
    ensures r.ty == Common(a.ty, b.ty)
    ensures r.ty.signed || (a.n >= 0 && b.n >= 0) ==> r.n == TruncRem(a.n, b.n)
  {
    hide Common, Cast, TruncDiv, TruncRem;
    CommonKeeps(a, b);
    var c := Common(a.ty, b.ty);
    var x, y := Cast(c, a).n, Cast(c, b).n;
    TruncBounds(x, y);
    Int(c, TruncRem(x, y))
  }

  // v << k, for a value and a shift that keep the result in range
  function Shl(v: Int, k: nat): (r: Int)
    requires v.n >= 0 && Promoted(v.ty).Holds(v.n * Bits.Pow2(k))
  {
    Int(Promoted(v.ty), v.n * Bits.Pow2(k))
  }

  // a & b
  function BitAnd(a: Int, b: Int): Int {
    var c := Common(a.ty, b.ty);
    Int(c, c.Wrap(Bits.And(Cast(c, a).n, Cast(c, b).n)))
  }
}
