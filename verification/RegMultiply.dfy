// LargeIntRegMultiply: products with a 64-bit operand, from half words and
// magnitudes, or by the processor's 128-bit multiplication.
module RegMultiply {
  import opened CxxInt
  import opened SafeIntBase
  import opened Bits

  // ---------- unsigned products from half words

  // The number of values of a word of two halves, each below base. The code has
  // base == 2^32.
  function Word(base: int): int { base * base }

  // high * base + low
  function Join(base: int, high: int, low: int): int { high * base + low }

  // Two words, multiplied through their halves.
  method HalfWordMultiply(base: nat, a: nat, b: nat) returns (ok: bool, ret: nat)
    requires base > 0 && a < Word(base) && b < Word(base)
    ensures ok <==> a * b < Word(base)
    ensures ok ==> ret == a * b
  {
    hide Word, Join;
    var aHigh, aLow := Split(base, a);
    var bHigh, bLow := Split(base, b);
    SplitProduct(base, aHigh, aLow, bHigh, bLow);
    ret := 0;
    if aHigh == 0 {
      if bHigh != 0 {
        ret := aLow * bHigh;
      }
    } else if bHigh == 0 {
      if aHigh != 0 {
        ret := aHigh * bLow;
      }
    } else {
      return false, 0;
    }
    if ret != 0 {
      ok, ret := ShiftAndAdd(base, ret, aLow * bLow);
      return;
    }
    ret := aLow * bLow;
    return true, ret;
  }

  // The same for a right operand that is a half word itself.
  method HalfWordMultiplyNarrow(base: nat, a: nat, b: nat) returns (ok: bool, ret: nat)
    requires base > 0 && a < Word(base) && b < base
    ensures ok <==> a * b < Word(base)
    ensures ok ==> ret == a * b
  {
    hide Word, Join;
    var aHigh, aLow := Split(base, a);
    SplitProductNarrow(base, aHigh, aLow, b);
    if aHigh != 0 {
      ok, ret := ShiftAndAdd(base, aHigh * b, aLow * b);
      return;
    }
    ret := aLow * b;
    return true, ret;
  }

  method Split(base: nat, a: nat) returns (high: nat, low: nat)
    requires base > 0 && a < Word(base)
    ensures a == Join(base, high, low) && high < base && low < base
  {
    high, low := a / base, a % base;
    assert high >= base ==> high * base >= base * base;
  }

  // (cross << h) + low, refused when the shift or the sum leaves the word.
  method ShiftAndAdd(base: nat, cross: nat, low: nat) returns (ok: bool, ret: nat)
    requires base > 0 && cross < Word(base) && low < Word(base)
    ensures ok <==> Join(base, cross, low) < Word(base)
    ensures ok ==> ret == Join(base, cross, low)
  {
    ShiftBound(base, cross);
    CrossBounds(base, cross);
    if cross / base % base != 0 {
      return false, 0;
    }
    var word := base * base;
    ModOnce(cross * base, word);
    ret := cross * base % word;
    ModOnce(ret + low, word);
    ret := (ret + low) % word;
    // the sum got smaller
    if ret < low {
      return false, 0;
    }
    return true, ret;
  }

  lemma ShiftBound(base: nat, cross: nat)
    requires base > 0 && cross < base * base
    ensures cross / base % base == 0 <==> cross < base
  {
    var q, r := cross / base, cross % base;
    assert cross == q * base + r;
    QuotientBelow(base, q, r);
    QuotientFacts(cross, base, q, r);
    ModOnce(q, base);
  }

  lemma QuotientBelow(base: nat, q: int, r: nat)
    requires q * base + r < base * base
    ensures q < base
  {
    if q >= base { MulMonotone(base, q, base); }
  }

  lemma CrossBounds(base: nat, cross: nat)
    ensures cross < base ==> cross * base <= base * base - base
    ensures cross >= base ==> cross * base >= base * base
  {
    assert (base - 1) * base == base * base - base;
    if cross < base {
      MulMonotone(cross, base - 1, base);
    } else {
      MulMonotone(base, cross, base);
    }
  }

  lemma ModOnce(x: nat, m: nat)
    requires m > 0 && x < 2 * m
    ensures x % m == if x < m then x else x - m
  {
    var q, r := x / m, x % m;
    assert x == q * m + r;
    assert q >= 2 ==> q * m >= 2 * m;
    assert q >= 1 ==> q * m >= m;
  }

  // The product by half words: exact when one high half is zero, and too
  // large for a word when neither is.
  lemma SplitProduct(base: nat, aH: nat, aL: nat, bH: nat, bL: nat)
    requires aH < base && aL < base && bH < base && bL < base
    ensures var product := Join(base, aH, aL) * Join(base, bH, bL);
      && (aH == 0 ==> product == Join(base, aL * bH, aL * bL))
      && (bH == 0 ==> product == Join(base, aH * bL, aL * bL))
      && (aH > 0 && bH > 0 ==> product >= Word(base))
    ensures aL * bL < Word(base) && aL * bH < Word(base) && aH * bL < Word(base)
    ensures bH == 0 ==> aL * bH == 0
    ensures Join(base, 0, aL * bL) == aL * bL
  {
    hide Join, Word;
    Below(base, aL, bL);
    Below(base, aL, bH);
    Below(base, aH, bL);
    JoinZero(base, aL * bL);
    JoinZero(base, aL);
    JoinZero(base, bL);
    TimesJoin(base, aL, bH, bL);
    TimesJoin(base, bL, aH, aL);
    if aH > 0 && bH > 0 {
      BothHigh(base, aH, aL, bH, bL);
    }
  }

  lemma SplitProductNarrow(base: nat, aH: nat, aL: nat, b: nat)
    requires aH < base && aL < base && b < base
    ensures Join(base, aH, aL) * b == Join(base, aH * b, aL * b)
    ensures aL * b < Word(base) && aH * b < Word(base)
    ensures aH == 0 ==> Join(base, aH, aL) * b == aL * b
  {
    hide Join, Word;
    Below(base, aL, b);
    Below(base, aH, b);
    JoinZero(base, aL);
    TimesJoin(base, b, aH, aL);
  }

  lemma JoinZero(base: int, low: int)
    ensures Join(base, 0, low) == low
  {
  }

  lemma TimesJoin(base: int, x: int, high: int, low: int)
    ensures x * Join(base, high, low) == Join(base, x * high, x * low)
    ensures Join(base, high, low) * x == Join(base, high * x, low * x)
  {
  }

  lemma BothHigh(base: nat, aH: nat, aL: nat, bH: nat, bL: nat)
    requires aH > 0 && bH > 0
    ensures Join(base, aH, aL) * Join(base, bH, bL) >= Word(base)
  {
    MulMonotone(1, aH, base);
    MulMonotone(1, bH, base);
    var a, b := Join(base, aH, aL), Join(base, bH, bL);
    MulMonotone(base, a, base);
    MulMonotone(base, b, a);
  }

  lemma Below(base: nat, x: nat, y: nat)
    requires x < base && y < base
    ensures x * y < Word(base)
  {
    MulMonotone(y, base - 1, x);
    MulMonotone(x, base - 1, base - 1);
    assert (base - 1) * (base - 1) == base * base - 2 * base + 1;
  }

  // ---------- the two-operand specialisations
  //
  // useIntrinsics is the build setting SAFEINT_USE_INTRINSICS. Both settings
  // meet the same contract, so they accept the same operands with the same
  // product.

  // a * b was found to fit t and is in ret, or was found not to fit.
  predicate IsProduct(t: IntType, a: Int, b: Int, ok: bool, ret: Int) {
    (ok <==> t.Holds(a.n * b.n)) && ret.ty == t && (ok ==> ret.n == a.n * b.n)
  }

  lemma SignedProduct(a: int, b: int)
    ensures a * b == if (a < 0) != (b < 0) then -(Magnitude(a) * Magnitude(b)) else Magnitude(a) * Magnitude(b)
    ensures Magnitude(a) * Magnitude(b) >= 0
  {
  }

  // _umul128
  method IntrinsicMultiplyUint64(a: Int, b: Int) returns (ok: bool, ret: Int)
    requires a.ty == U64 && b.ty == U64
    ensures IsProduct(U64, a, b, ok, ret)
  {
    var product, word := a.n * b.n, 0x1_0000_0000_0000_0000;
    SignedProduct(a.n, b.n);
    NatQuotient(product, word);
    var high, low := product / word, product % word;
    return high == 0, Int(U64, low);
  }

  // _mul128 gives the 128-bit two's complement product in two words.
  method IntrinsicMultiplyInt64(a: Int, b: Int) returns (ok: bool, ret: Int)
    requires a.ty == I64 && b.ty == I64
    ensures IsProduct(I64, a, b, ok, ret)
  {
    hide Cast;
    var product, word := a.n * b.n, 0x1_0000_0000_0000_0000;
    var high, low := product / word, product % word;
    assert product == high * word + low;
    ret := Cast(I64, Int(U64, low));
    SignedProduct(a.n, b.n);
    XorSign(a.n, b.n);
    if Xor(a.n, b.n) < 0 {
      // a negative result is expected
      if (high == -1 && ret.n < 0) || (high == 0 && ret.n == 0) {
        return true, ret;
      }
    } else {
      if high == 0 && Cast(U64, ret).n <= I64.Max() {
        return true, ret;
      }
    }
    return false, ret;
  }

  method MultiplyUint64Uint64(useIntrinsics: bool, a: Int, b: Int) returns (ok: bool, ret: Int)
    requires a.ty == U64 && b.ty == U64
    ensures IsProduct(U64, a, b, ok, ret)
  {
    if useIntrinsics {
      ok, ret := IntrinsicMultiplyUint64(a, b);
    } else {
      var f, p := HalfWordMultiply(0x1_0000_0000, a.n, b.n);
      SignedProduct(a.n, b.n);
      return f, Int(U64, if f then p else 0);
    }
  }

  method MultiplyUint64Uint32(useIntrinsics: bool, a: Int, b: Int) returns (ok: bool, ret: Int)
    requires a.ty == U64 && b.ty == U32
    ensures IsProduct(U64, a, b, ok, ret)
  {
    if useIntrinsics {
      ok, ret := IntrinsicMultiplyUint64(a, Cast(U64, b));
    } else {
      var f, p := HalfWordMultiplyNarrow(0x1_0000_0000, a.n, b.n);
      SignedProduct(a.n, b.n);
      return f, Int(U64, if f then p else 0);
    }
  }

  method MultiplyUint64Int32(useIntrinsics: bool, a: Int, b: Int) returns (ok: bool, ret: Int)
    requires a.ty == U64 && b.ty == I32
    ensures IsProduct(U64, a, b, ok, ret)
  {
    hide Cast;
    SignedProduct(a.n, b.n);
    if b.n < 0 && a.n != 0 {
      return false, Int(U64, 0);
    }
    if useIntrinsics {
      ok, ret := IntrinsicMultiplyUint64(a, Cast(U64, b));
    } else {
      ok, ret := MultiplyUint64Uint32(useIntrinsics, a, Cast(U32, b));
    }
  }

  method MultiplyUint64Int64(useIntrinsics: bool, a: Int, b: Int) returns (ok: bool, ret: Int)
    requires a.ty == U64 && b.ty == I64
    ensures IsProduct(U64, a, b, ok, ret)
  {
    hide Cast;
    SignedProduct(a.n, b.n);
    if b.n < 0 && a.n != 0 {
      return false, Int(U64, 0);
    }
    if useIntrinsics {
      ok, ret := IntrinsicMultiplyUint64(a, Cast(U64, b));
    } else {
      ok, ret := MultiplyUint64Uint64(useIntrinsics, a, Cast(U64, b));
    }
  }

  // if( a < 0 ) { a = (T)Abs(a); negative = true; }  Abs of the least value
  // converts back to the least value, and its unsigned reading is the magnitude.
  method MagnitudeOf(a: Int) returns (r: Int, negative: bool)
    requires a.ty == I32 || a.ty == I64
    ensures r.ty == a.ty && negative == (a.n < 0)
    ensures Cast(IntType(false, a.ty.size), r).n == Magnitude(a.n)
  {
    hide Cast, Abs;
    r, negative := a, false;
    if a.n < 0 {
      r, negative := Cast(a.ty, Abs(a)), true;
    }
  }

  // The magnitude tmp with its sign, if that fits.
  method WithSign(t: IntType, negative: bool, tmp: Int) returns (ok: bool, ret: Int)
    requires t == I32 || t == I64
    requires !tmp.ty.signed && tmp.ty.size >= t.size
    ensures ret.ty == t
    ensures ok <==> t.Holds(if negative then -tmp.n else tmp.n)
    ensures ok ==> ret.n == if negative then -tmp.n else tmp.n
  {
    hide Cast, SignedNegation, Le;
    if negative {
      // the magnitude of the least value: (unsigned)min
      if Le(tmp, Cast(IntType(false, t.size), MinOf(t))) {
        return true, SignedNegation(t, tmp);
      }
    } else {
      if Le(tmp, Cast(IntType(false, t.size), MaxOf(t))) {
        return true, Cast(t, tmp);
      }
    }
    return false, Int(t, 0);
  }

  method MultiplyInt32Uint64(a: Int, b: Int) returns (ok: bool, ret: Int)
    requires a.ty == I32 && b.ty == U64
    ensures IsProduct(I32, a, b, ok, ret)
  {
    hide Cast, Mul;
    var bHigh, bLow := High32(b), Cast(U32, b);
    HighFactor(a.n, b.n);
    if bHigh.n != 0 && a.n != 0 {
      return false, Int(I32, 0);
    }
    SignedProduct(a.n, b.n);
    var a1, isNegative := MagnitudeOf(a);
    var tmp := Mul(Cast(U32, a1), Cast(U64, bLow));
    ok, ret := WithSign(I32, isNegative, tmp);
  }

  // A factor of 2^32 or more takes any product but zero out of 32 bits.
  lemma HighFactor(a: int, b: int)
    ensures a != 0 && b >= 0x1_0000_0000 ==> !I32.Holds(a * b) && !U32.Holds(a * b)
    ensures 0 <= b < 0x1_0000_0000 && -0x1_0000_0000 < a < 0x1_0000_0000 ==> -U64.Max() <= a * b <= U64.Max()
  {
  }

  method MultiplyUint32Uint64(a: Int, b: Int) returns (ok: bool, ret: Int)
    requires a.ty == U32 && b.ty == U64
    ensures IsProduct(U32, a, b, ok, ret)
  {
    hide Cast, Mul, High32;
    HighFactor(a.n, b.n);
    if High32(b).n != 0 && a.n != 0 {
      return false, Int(U32, 0);
    }
    SignedProduct(a.n, b.n);
    var tmp := Mul(b, Cast(U64, a));
    assert tmp.ty == U64 && tmp.n == a.n * b.n;
    if High32(tmp).n != 0 {
      return false, Int(U32, 0);
    }
    return true, Cast(U32, tmp);
  }

  method MultiplyUint32Int64(a: Int, b: Int) returns (ok: bool, ret: Int)
    requires a.ty == U32 && b.ty == I64
    ensures IsProduct(U32, a, b, ok, ret)
  {
    hide Cast;
    SignedProduct(a.n, b.n);
    if b.n < 0 && a.n != 0 {
      return false, Int(U32, 0);
    }
    ok, ret := MultiplyUint32Uint64(a, Cast(U64, b));
  }

  method MultiplyInt64Int64(useIntrinsics: bool, a: Int, b: Int) returns (ok: bool, ret: Int)
    requires a.ty == I64 && b.ty == I64
    ensures IsProduct(I64, a, b, ok, ret)
  {
    if useIntrinsics {
      ok, ret := IntrinsicMultiplyInt64(a, b);
    } else {
      hide Cast;
      SignedProduct(a.n, b.n);
      var a1, aNegative := MagnitudeOf(a);
      var b1, bNegative := MagnitudeOf(b);
      var f, tmp := MultiplyUint64Uint64(useIntrinsics, Cast(U64, a1), Cast(U64, b1));
      if f {
        ok, ret := WithSign(I64, aNegative != bNegative, tmp);
      } else {
        return false, Int(I64, 0);
      }
    }
  }

  method MultiplyInt64Uint32(useIntrinsics: bool, a: Int, b: Int) returns (ok: bool, ret: Int)
    requires a.ty == I64 && b.ty == U32
    ensures IsProduct(I64, a, b, ok, ret)
  {
    hide Cast;
    if useIntrinsics {
      ok, ret := IntrinsicMultiplyInt64(a, Cast(I64, b));
    } else {
      SignedProduct(a.n, b.n);
      var a1, aNegative := MagnitudeOf(a);
      var f, tmp := MultiplyUint64Uint32(useIntrinsics, Cast(U64, a1), b);
      if f {
        ok, ret := WithSign(I64, aNegative, tmp);
      } else {
        return false, Int(I64, 0);
      }
    }
  }

  method MultiplyInt64Int32(useIntrinsics: bool, a: Int, b: Int) returns (ok: bool, ret: Int)
    requires a.ty == I64 && b.ty == I32
    ensures IsProduct(I64, a, b, ok, ret)
  {
    hide Cast;
    if useIntrinsics {
      ok, ret := IntrinsicMultiplyInt64(a, Cast(I64, b));
    } else {
      SignedProduct(a.n, b.n);
      var a1, aNegative := MagnitudeOf(a);
      var b1, bNegative := MagnitudeOf(b);
      var f, tmp := MultiplyUint64Uint32(useIntrinsics, Cast(U64, a1), Cast(U32, b1));
      if f {
        ok, ret := WithSign(I64, aNegative != bNegative, tmp);
      } else {
        return false, Int(I64, 0);
      }
    }
  }

  method MultiplyInt32Int64(useIntrinsics: bool, a: Int, b: Int) returns (ok: bool, ret: Int)
    requires a.ty == I32 && b.ty == I64
    ensures IsProduct(I32, a, b, ok, ret)
  {
    hide Cast, Lt;
    if useIntrinsics {
      var f, tmp := IntrinsicMultiplyInt64(Cast(I64, a), b);
      if f {
        if Lt(MaxOf(I32), tmp) || Lt(tmp, MinOf(I32)) {
          return false, Int(I32, 0);
        }
        return true, Cast(I32, tmp);
      }
      return false, Int(I32, 0);
    } else {
      SignedProduct(a.n, b.n);
      var a1, aNegative := MagnitudeOf(a);
      var b1, bNegative := MagnitudeOf(b);
      var f, tmp := MultiplyUint32Uint64(Cast(U32, a1), Cast(U64, b1));
      if f {
        ok, ret := WithSign(I32, aNegative != bNegative, tmp);
      } else {
        return false, Int(I32, 0);
      }
    }
  }

  method MultiplyInt64Uint64(useIntrinsics: bool, a: Int, b: Int) returns (ok: bool, ret: Int)
    requires a.ty == I64 && b.ty == U64
    ensures IsProduct(I64, a, b, ok, ret)
  {
    hide Cast;
    SignedProduct(a.n, b.n);
    var a1, aNegative := MagnitudeOf(a);
    var f, tmp := MultiplyUint64Uint64(useIntrinsics, Cast(U64, a1), b);
    if f {
      ok, ret := WithSign(I64, aNegative, tmp);
    } else {
      return false, Int(I64, 0);
    }
  }
}
