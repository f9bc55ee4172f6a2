// Numbers written as digits, the least significant first: the bytes of a machine
// word in memory order, or the characters packed into one.
module LittleEndian {
  import opened Bits

  // Every digit has b bits.
  predicate Digits(b: nat, ds: seq<int>) { forall i :: 0 <= i < |ds| ==> 0 <= ds[i] < Pow2(b) }

  function Value(b: nat, ds: seq<int>): int {
    if ds == [] then 0 else ds[0] + Pow2(b) * Value(b, ds[1..])
  }

  // Digit number f of n.
  function Field(b: nat, n: int, f: nat): int { n / Pow2(b * f) % Pow2(b) }

  lemma {:induction false} ValueRange(b: nat, ds: seq<int>)
    requires Digits(b, ds)
    ensures 0 <= Value(b, ds) < Pow2(b * |ds|)
  {
    if ds != [] {
      var rest := Value(b, ds[1..]);
      ValueRange(b, ds[1..]);
      assert b * |ds| == b + b * (|ds| - 1);
      Pow2Sum(b, b * (|ds| - 1));
      DigitRange(Pow2(b), ds[0], rest, Pow2(b * (|ds| - 1)));
    }
  }

  lemma DigitRange(base: int, d: int, rest: int, limit: int)
    requires 0 <= d < base && 0 <= rest < limit
    ensures 0 <= d + base * rest < base * limit
  {
    assert base * rest <= base * (limit - 1);
    assert 0 <= base * rest;
  }

  // Reading a digit back.
  lemma {:induction false} FieldOfValue(b: nat, ds: seq<int>, f: nat)
    requires Digits(b, ds) && f < |ds|
    ensures Field(b, Value(b, ds), f) == ds[f]
    decreases f
  {
    var base, d, rest := Pow2(b), ds[0], Value(b, ds[1..]);
    var n := Value(b, ds);
    if f == 0 {
      assert b * f == 0;
      ModUnique(n, base, rest, d);
    } else {
      FieldOfValue(b, ds[1..], f - 1);
      assert b * f == b + b * (f - 1);
      Pow2Sum(b, b * (f - 1));
      DivideTwice(n, base, Pow2(b * (f - 1)));
      ModUnique(n, base, rest, d);
    }
  }

  lemma DivideTwice(n: int, x: int, y: int)
    requires x > 0 && y > 0
    ensures n / (x * y) == n / x / y
  {
    var q, r := n / x, n % x;
    var p, s := q / y, q % y;
    assert n == q * x + r && q == p * y + s;
    Recombine(n, x, y, p, s, q, r);
    ModUnique(n, x * y, p, s * x + r);
  }

  lemma Recombine(n: int, x: int, y: int, p: int, s: int, q: int, r: int)
    requires 0 <= r < x && 0 <= s < y && n == q * x + r && q == p * y + s
    ensures n == p * (x * y) + (s * x + r) && 0 <= s * x + r < x * y
  {
    assert q * x == p * y * x + s * x;
    assert 0 <= s * x <= (y - 1) * x;
  }

  // A word determines its digits.
  lemma {:induction false} ValueInjective(b: nat, ds: seq<int>, es: seq<int>)
    requires Digits(b, ds) && Digits(b, es) && |ds| == |es|
    ensures Value(b, ds) == Value(b, es) <==> ds == es
  {
    if Value(b, ds) == Value(b, es) {
      forall f | 0 <= f < |ds|
        ensures ds[f] == es[f]
      {
        FieldOfValue(b, ds, f);
        FieldOfValue(b, es, f);
      }
    }
  }

  // Replacing a zero digit with nothing but zeros above it adds at its place.
  lemma {:induction false} SetTopDigit(b: nat, ds: seq<int>, f: nat, d: int)
    requires Digits(b, ds) && f < |ds| && forall i :: f <= i < |ds| ==> ds[i] == 0
    ensures 0 <= Value(b, ds) < Pow2(b * f)
    ensures Value(b, ds[f := d]) == Value(b, ds) + d * Pow2(b * f)
    decreases f
  {
    if f == 0 {
      ZeroDigits(b, ds);
      ZeroDigits(b, ds[1..]);
      assert ds[0 := d][1..] == ds[1..];
      assert b * f == 0;
    } else {
      SetTopDigit(b, ds[1..], f - 1, d);
      assert ds[f := d][1..] == ds[1..][f - 1 := d];
      assert b * f == b + b * (f - 1);
      Pow2Sum(b, b * (f - 1));
      DigitRange(Pow2(b), ds[0], Value(b, ds[1..]), Pow2(b * (f - 1)));
      Distribute(Pow2(b), Value(b, ds[1..]), d, Pow2(b * (f - 1)));
    }
  }

  lemma Distribute(x: int, v: int, d: int, y: int)
    ensures x * (v + d * y) == x * v + d * (x * y)
  {
  }

  lemma {:induction false} ZeroDigits(b: nat, ds: seq<int>)
    requires forall i :: 0 <= i < |ds| ==> ds[i] == 0
    ensures Value(b, ds) == 0
  {
    if ds != [] {
      ZeroDigits(b, ds[1..]);
    }
  }
}
