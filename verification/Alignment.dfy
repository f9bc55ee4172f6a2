// The bit arithmetic of SafeInt<T>::Align.
module Alignment {
  import opened CxxInt
  import opened Bits

  // The number of bits of a type apart from its sign.
  function ValueBits(t: IntType): nat { if t.signed then 8 * t.size - 1 else 8 * t.size }

  // x rounded down to a multiple of p
  function RoundDown(x: int, p: int): int
    requires p > 0
  {
    x - x % p
  }

  // v rounded up to a multiple of p
  function RoundUp(v: int, p: int): int
    requires p > 0
  {
    RoundDown(v + p - 1, p)
  }

  lemma RoundUpIsLeast(v: int, p: int, q: int)
    requires p > 0
    ensures RoundUp(v, p) % p == 0 && RoundUp(v, p) >= v
    ensures q % p == 0 && q >= v ==> q >= RoundUp(v, p)
  {
    var s := v + p - 1;
    var d := s / p;
    assert s == d * p + s % p;
    ModUnique(d * p, p, d, 0);
    if q % p == 0 && q >= v {
      NoMultipleBetween(v, p, d, q / p);
    }
  }

  lemma NoMultipleBetween(v: int, p: int, d: int, e: int)
    requires p > 0 && d * p < v + p && e * p >= v
    ensures e * p >= d * p
  {
    assert (d - 1) * p == d * p - p;
    if e <= d - 1 {
      MulMonotone(e, d - 1, p);
    } else {
      MulMonotone(d, e, p);
    }
  }

  // Half() and Span() of a type are powers of two, and so multiples of the smaller ones.
  lemma TypeBounds(t: IntType, bits: nat)
    requires bits < ValueBits(t)
    ensures t.Max() + 1 == Pow2(ValueBits(t))
    ensures RoundDown(t.Max() + 1, Pow2(bits)) == t.Max() + 1 && Pow2(bits) < t.Max() + 1
  {
    Pow2Values();
    Pow2Multiple(ValueBits(t), bits);
    Pow2Multiple(ValueBits(t), bits + 1);
  }

  lemma FloorMultiple(x: int, p: int, m: int)
    requires p > 0 && m * p <= x
    ensures m * p <= x - x % p <= x
  {
    var d := x / p;
    assert x == d * p + x % p;
    assert (d + 1) * p == d * p + p;
    if d + 1 <= m {
      MulMonotone(d + 1, m, p);
    } else {
      MulMonotone(m, d, p);
    }
  }

  lemma ShiftMod(x: int, p: int, k: int)
    requires p > 0
    ensures (x + k * p) % p == x % p
  {
    var q, r := x / p, x % p;
    assert x + k * p == (q + k) * p + r;
    ModUnique(x + k * p, p, q + k, r);
  }

  // Clearing the low bits of a value of a promoted type.
  lemma ClearLowBits(c: IntType, x: int, bits: nat)
    requires c.size >= 4 && c.Holds(x) && bits < ValueBits(c)
    ensures var mask := if c.signed then -Pow2(bits) else c.Max() + 1 - Pow2(bits);
      And(x, mask) == RoundDown(x, Pow2(bits))
    ensures c.Holds(RoundDown(x, Pow2(bits)))
  {
    hide Pow2, And, ValueBits;
    TypeBounds(c, bits);
    var p := Pow2(bits);
    var k := (c.Max() + 1) / p;
    assert c.Max() + 1 == k * p;
    if c.signed {
      AndHighMask(x, bits);
      FloorMultiple(x, p, -k);
    } else {
      AndHighMaskInWord(x, ValueBits(c), bits);
      FloorMultiple(x, p, 0);
    }
  }

  // ((T)1 << bits) - 1
  function AlignValue(t: IntType, bits: nat): (r: Int)
    requires bits < ValueBits(t)
    ensures r.ty == t && r.n == Pow2(bits) - 1
  {
    hide Pow2;
    TypeBounds(t, bits);
    Cast(t, Sub(Shl(Cast(t, Lit(1)), bits), Lit(1)))
  }

  // ~AlignValue
  function HighMask(t: IntType, bits: nat): (r: Int)
    requires bits < ValueBits(t)
    ensures r.ty == Promoted(t)
    ensures r.n == if r.ty.signed then -Pow2(bits) else r.ty.Max() + 1 - Pow2(bits)
  {
    hide Pow2, AlignValue, Not;
    Not(AlignValue(t, bits))
  }

  lemma HighMaskBits(t: IntType, bits: nat)
    requires bits < ValueBits(t)
    ensures bits < ValueBits(Promoted(t))
  {
  }

  // (m + AlignValue) & ~AlignValue; the addition may wrap
  function MaskedSum(m: Int, bits: nat): Int
    requires bits < ValueBits(m.ty)
  {
    BitAnd(AddWrapping(m, AlignValue(m.ty, bits)), HighMask(m.ty, bits))
  }

  lemma MaskedSumValue(m: Int, bits: nat)
    requires bits < ValueBits(m.ty)
    ensures var c := Promoted(m.ty); MaskedSum(m, bits) == Int(c, RoundDown(c.Wrap(m.n + Pow2(bits) - 1), Pow2(bits)))
  {
    hide Pow2, AddWrapping, AlignValue, HighMask, RoundDown, ValueBits, And;
    var low := AlignValue(m.ty, bits);
    var sum := AddWrapping(m, low);
    HighMaskBits(m.ty, bits);
    ClearLowBits(sum.ty, sum.n, bits);
  }

  // (T)((m + AlignValue) & ~AlignValue)
  function AlignedUp(m: Int, bits: nat): (r: Int)
    requires bits < ValueBits(m.ty) && m.n > 0
    ensures r.ty == m.ty && r.n == m.ty.Wrap(RoundUp(m.n, Pow2(bits)))
  {
    hide Pow2, RoundDown, MaskedSum, ValueBits;
    TypeBounds(m.ty, bits);
    MaskedSumValue(m, bits);
    WrappedSum(m.ty, Promoted(m.ty), m.n, Pow2(bits));
    Cast(m.ty, MaskedSum(m, bits))
  }

  lemma WrappedSum(t: IntType, c: IntType, v: int, p: int)
    requires c == Promoted(t) && t.Holds(v) && p > 0 && RoundDown(t.Max() + 1, p) == t.Max() + 1 && p < t.Max() + 1
    requires v > 0
    ensures var x := c.Wrap(v + p - 1); t.Wrap(RoundDown(x, p)) == t.Wrap(RoundUp(v, p))
  {
    hide RoundDown;
    var s := v + p - 1;
    if s > c.Max() {
      assert c == t;
      assert c.Wrap(s) == s - c.Span();
      SpanMultiple(t, p, s);
    }
  }

  lemma SpanMultiple(t: IntType, p: int, s: int)
    requires p > 0 && RoundDown(t.Max() + 1, p) == t.Max() + 1
    ensures var x := s - t.Span(); t.Wrap(RoundDown(x, p)) == t.Wrap(RoundDown(s, p))
  {
    hide AnyType.Half, AnyType.Wrap;
    var k := SpanInSteps(t, p);
    ShiftMod(s - t.Span(), p, k);
    WrapStep(t, s - t.Span() - s % p);
  }

  lemma SpanInSteps(t: IntType, p: int) returns (k: int)
    requires p > 0 && RoundDown(t.Max() + 1, p) == t.Max() + 1
    ensures t.Span() == k * p
  {
    hide AnyType.Half;
    k := (t.Max() + 1) / p;
    assert t.Max() + 1 == k * p;
    if t.signed {
      k := 2 * k;
    }
  }

  // A rounded value that does not fit is exactly one too large, and wraps to 0
  // or to the least value.
  lemma WrappedIsPositive(t: IntType, v: int, bits: nat)
    requires bits < ValueBits(t) && 0 <= v <= t.Max()
    ensures var up := RoundUp(v, Pow2(bits));
      && 0 <= up <= t.Max() + 1
      && (v == 0 ==> up == 0)
      && (v > 0 ==> up > 0 && (t.Holds(up) <==> t.Wrap(up) > 0))
  {
    hide Pow2, ValueBits;
    var p := Pow2(bits);
    TypeBounds(t, bits);
    RoundUpIsLeast(v, p, t.Max() + 1);
    RoundUpIsLeast(v, p, 0);
  }
}
