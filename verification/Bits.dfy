// Bitwise operators on integers read as two's complement numbers of unbounded
// width: ..., -2 == ...1110, -1 == ...1111, 0 == ...0000, 1 == ...0001, ...
module Bits {

  type byte = b: int | 0 <= b < 256

  predicate AllSame(a: int) { a == 0 || a == -1 }

  function Xor(a: int, b: int): int
    decreases if a < 0 then -a else a, if b < 0 then -b else b
  {
    if AllSame(a) && AllSame(b) then (if a == b then 0 else -1)
    else 2 * Xor(a / 2, b / 2) + (if a % 2 == b % 2 then 0 else 1)
  }

  function And(a: int, b: int): int
    decreases if a < 0 then -a else a, if b < 0 then -b else b
  {
    if AllSame(a) && AllSame(b) then (if a == -1 then b else 0)
    else 2 * And(a / 2, b / 2) + (if a % 2 == 1 && b % 2 == 1 then 1 else 0)
  }

  function Or(a: int, b: int): int { -1 - And(-1 - a, -1 - b) }

  function Pow2(k: nat): (p: int)
    ensures p >= 1
  {
    if k == 0 then 1 else 2 * Pow2(k - 1)
  }

  // The sign bit of an exclusive or.
  lemma {:induction false} XorSign(a: int, b: int)
    ensures Xor(a, b) < 0 <==> (a < 0) != (b < 0)
    decreases if a < 0 then -a else a, if b < 0 then -b else b
  {
    if !(AllSame(a) && AllSame(b)) {
      XorSign(a / 2, b / 2);
    }
  }

  lemma {:induction false} AndOnes(x: int)
    ensures And(x, -1) == x
    decreases if x < 0 then -x else x
  {
    if !AllSame(x) {
      AndOnes(x / 2);
    }
  }

  // x & -2^k clears the k low bits.
  lemma {:induction false} AndHighMask(x: int, k: nat)
    ensures And(x, -Pow2(k)) == x - x % Pow2(k)
    decreases k
  {
    if k == 0 {
      AndOnes(x);
    } else {
      HalveMask(k);
      AndHighMask(x / 2, k - 1);
      ModDouble(x, Pow2(k - 1));
    }
  }

  // x & (2^n - 2^k) does so within a word of n bits.
  lemma {:induction false} AndHighMaskInWord(x: nat, n: nat, k: nat)
    requires k <= n && x < Pow2(n)
    ensures And(x, Pow2(n) - Pow2(k)) == x - x % Pow2(k)
    decreases n
  {
    hide And;
    if n == 0 {
      AndShifted(x, 0, 0);
    } else if k == 0 {
      AndHighMaskInWord(x / 2, n - 1, 0);
      AndShifted(x, Pow2(n - 1) - 1, 1);
    } else {
      AndHighMaskInWord(x / 2, n - 1, k - 1);
      AndShifted(x, Pow2(n - 1) - Pow2(k - 1), 0);
      ModDouble(x, Pow2(k - 1));
    }
  }

  // The bottom bit of a bitwise and.
  lemma AndShifted(x: int, m: int, bit: int)
    requires 0 <= bit <= 1
    ensures And(x, 2 * m + bit) == 2 * And(x / 2, m) + x % 2 * bit
  {
    if AllSame(x) && AllSame(2 * m + bit) {
      assert x / 2 == x;
      assert m == 2 * m + bit;
    } else {
      assert (2 * m + bit) / 2 == m;
    }
  }

  lemma HalveMask(k: nat)
    requires k > 0
    ensures -Pow2(k) / 2 == -Pow2(k - 1) && -Pow2(k) % 2 == 0 && !AllSame(-Pow2(k))
  {
  }

  lemma ModDouble(x: int, m: int)
    requires m > 0
    ensures x % (2 * m) == 2 * (x / 2 % m) + x % 2
  {
    var h := x / 2;
    var q, r := h / m, h % m;
    assert h == q * m + r;
    assert x == q * (2 * m) + (2 * r + x % 2);
    ModUnique(x, 2 * m, q, 2 * r + x % 2);
  }

  lemma ModUnique(x: int, m: int, q: int, r: int)
    requires m > 0 && x == q * m + r && 0 <= r < m
    ensures x % m == r && x / m == q
  {
    var d := x / m - q;
    assert d * m == r - x % m;
    assert d > 0 ==> d * m >= m;
    assert d < 0 ==> d * m <= -m;
  }

  // x & (2^k - 1) keeps the k low bits.
  lemma {:induction false} AndLowMask(x: int, k: nat)
    ensures And(x, Pow2(k) - 1) == x % Pow2(k)
    decreases k
  {
    hide And;
    if k == 0 {
      AndShifted(x, 0, 0);
      AndZero(x);
    } else {
      AndLowMask(x / 2, k - 1);
      AndShifted(x, Pow2(k - 1) - 1, 1);
      ModDouble(x, Pow2(k - 1));
    }
  }

  lemma {:induction false} AndZero(x: int)
    ensures And(x, 0) == 0
    decreases if x < 0 then -x else x
  {
    if !AllSame(x) {
      AndZero(x / 2);
    }
  }

  lemma {:induction false} XorCancels(a: int, b: int)
    ensures Xor(Xor(a, b), b) == a
    decreases if a < 0 then -a else a, if b < 0 then -b else b
  {
    if !(AllSame(a) && AllSame(b)) {
      XorCancels(a / 2, b / 2);
      var x := Xor(a, b);
      assert x / 2 == Xor(a / 2, b / 2);
    }
  }

  lemma {:induction false} XorSymmetric(a: int, b: int)
    ensures Xor(a, b) == Xor(b, a)
    decreases if a < 0 then -a else a, if b < 0 then -b else b
  {
    if !(AllSame(a) && AllSame(b)) {
      XorSymmetric(a / 2, b / 2);
    }
  }

  lemma {:induction false} XorInWord(a: nat, b: nat, n: nat)
    requires a < Pow2(n) && b < Pow2(n)
    ensures 0 <= Xor(a, b) < Pow2(n)
    decreases n
  {
    if n > 0 && !(AllSame(a) && AllSame(b)) {
      XorInWord(a / 2, b / 2, n - 1);
    }
  }

  lemma {:induction false} XorAssociative(a: int, b: int, c: int)
    ensures Xor(Xor(a, b), c) == Xor(a, Xor(b, c))
    decreases if a < 0 then -a else a, if b < 0 then -b else b, if c < 0 then -c else c
  {
    if !(AllSame(a) && AllSame(b) && AllSame(c)) {
      XorAssociative(a / 2, b / 2, c / 2);
      XorUnfold(a, b);
      XorUnfold(b, c);
      XorUnfold(Xor(a, b), c);
      XorUnfold(a, Xor(b, c));
    }
  }

  // The recurrence of Xor, which holds for the all-same numbers as well.
  lemma XorUnfold(a: int, b: int)
    ensures Xor(a, b) / 2 == Xor(a / 2, b / 2)
    ensures Xor(a, b) % 2 == if a % 2 == b % 2 then 0 else 1
    ensures Xor(a, b) == 2 * Xor(a / 2, b / 2) + (if a % 2 == b % 2 then 0 else 1)
  {
    if AllSame(a) && AllSame(b) {
      assert a / 2 == a && b / 2 == b;
    }
  }

  // Fields that do not overlap are added by an exclusive or.
  lemma {:induction false} XorDisjoint(low: int, high: int, s: nat)
    requires 0 <= low < Pow2(s) && high >= 0
    ensures Xor(low, high * Pow2(s)) == low + high * Pow2(s)
    decreases s
  {
    if s == 0 {
      XorZero(high);
    } else {
      hide Xor;
      var m := Pow2(s - 1);
      XorDisjoint(low / 2, high, s - 1);
      DoubleProduct(high, m);
      XorDoubled(low, high * m);
    }
  }

  lemma XorDoubled(low: int, n: int)
    ensures Xor(low, 2 * n) == 2 * Xor(low / 2, n) + low % 2
  {
    hide Xor;
    XorUnfold(low, 2 * n);
  }

  lemma DoubleProduct(x: int, m: int)
    ensures x * (2 * m) == 2 * (x * m)
  {
  }

  lemma {:induction false} XorZero(a: int)
    ensures Xor(0, a) == a
    decreases if a < 0 then -a else a
  {
    if !AllSame(a) {
      XorZero(a / 2);
    }
  }

  // ... and by an inclusive or.
  lemma {:induction false} OrDisjoint(high: int, low: int, s: nat)
    requires 0 <= low < Pow2(s)
    ensures Or(high * Pow2(s), low) == high * Pow2(s) + low
    decreases s
  {
    if s == 0 {
      AndOnes(-1 - high);
    } else {
      hide Or;
      var m := Pow2(s - 1);
      OrDisjoint(high, low / 2, s - 1);
      DoubleProduct(high, m);
      OrShifted(high * m, low);
    }
  }

  lemma OrZero(a: int)
    ensures Or(0, a) == a
  {
    AndMinusOne(-1 - a);
  }

  lemma {:induction false} AndMinusOne(x: int)
    ensures And(-1, x) == x
    decreases if x < 0 then -x else x
  {
    if !AllSame(x) {
      AndMinusOne(x / 2);
    }
  }

  lemma OrShifted(n: int, low: int)
    ensures Or(2 * n, low) == 2 * Or(n, low / 2) + low % 2
  {
    hide And;
    var q, r := low / 2, low % 2;
    var x := -1 - 2 * n;
    assert x / 2 == -1 - n && x % 2 == 1;
    AndShifted(x, -1 - q, 1 - r);
    assert x % 2 * (1 - r) == 1 - r;
    assert 2 * (-1 - q) + (1 - r) == -1 - low;
  }

  // The recurrences of And and Or.
  lemma AndUnfold(a: int, b: int)
    ensures And(a, b) == 2 * And(a / 2, b / 2) + (if a % 2 == 1 && b % 2 == 1 then 1 else 0)
  {
    if AllSame(a) && AllSame(b) {
      assert a / 2 == a && b / 2 == b;
    }
  }

  lemma OrUnfold(a: int, b: int)
    ensures Or(a, b) == 2 * Or(a / 2, b / 2) + (if a % 2 == 1 || b % 2 == 1 then 1 else 0)
  {
    hide And;
    AndUnfold(-1 - a, -1 - b);
    assert (-1 - a) / 2 == -1 - a / 2 && (-1 - b) / 2 == -1 - b / 2;
  }

  // Exclusive or with a number of s bits changes only the s low bits.
  lemma {:induction false} XorLow(h: int, b: int, s: nat)
    requires 0 <= b < Pow2(s)
    ensures Xor(h, b) == h - h % Pow2(s) + Xor(h % Pow2(s), b)
    decreases s
  {
    hide Xor;
    if s == 0 {
      XorSymmetric(h, 0);
      XorZero(h);
      XorZero(0);
    } else {
      var m := Pow2(s - 1);
      ModDouble(h, m);
      XorLow(h / 2, b / 2, s - 1);
      XorUnfold(h, b);
      XorUnfold(h % (2 * m), b);
      HalfOfDouble(h / 2 % m, h % 2);
    }
  }

  lemma HalfOfDouble(x: int, bit: int)
    requires 0 <= bit <= 1
    ensures (2 * x + bit) / 2 == x && (2 * x + bit) % 2 == bit
  {
  }

  // ---------- residues

  lemma MulMonotone(x: int, y: int, p: int)
    requires x <= y && p >= 0
    ensures x * p <= y * p
  {
  }

  lemma SameResidue(a: int, b: int, m: int)
    requires m > 0 && a % m == b % m
    ensures (a - b) % m == 0
  {
    var p, q, r := a / m, b / m, a % m;
    assert a == p * m + r && b == q * m + r;
    assert a - b == (p - q) * m;
    ModUnique(a - b, m, p - q, 0);
  }

  lemma SmallMultiple(d: int, m: int)
    requires m > 0 && -m < d < m && d % m == 0
    ensures d == 0
  {
    var k := d / m;
    assert d == k * m;
    assert k > 0 ==> k * m >= m;
    assert k < 0 ==> k * m <= -m;
  }

  // ---------- powers of two

  lemma {:induction false} Pow2Multiple(n: nat, k: nat)
    requires k <= n
    ensures Pow2(n) % Pow2(k) == 0 && Pow2(n) >= Pow2(k)
    decreases n - k
  {
    if k < n {
      Pow2Multiple(n, k + 1);
      var q := Pow2(n) / Pow2(k + 1);
      assert Pow2(n) == q * Pow2(k + 1) == 2 * q * Pow2(k);
      ModUnique(Pow2(n), Pow2(k), 2 * q, 0);
    } else {
      ModUnique(Pow2(n), Pow2(k), 1, 0);
    }
  }

  lemma {:induction false} Pow2Sum(a: nat, b: nat)
    ensures Pow2(a + b) == Pow2(a) * Pow2(b)
  {
    if a > 0 {
      Pow2Sum(a - 1, b);
    }
  }

  lemma SmallPowers()
    ensures Pow2(7) == 0x80 && Pow2(8) == 0x100
  {
  }

  lemma Pow2Values()
    ensures Pow2(7) == 0x80 && Pow2(8) == 0x100 && Pow2(15) == 0x8000 && Pow2(16) == 0x1_0000
    ensures Pow2(31) == 0x8000_0000 && Pow2(32) == 0x1_0000_0000
    ensures Pow2(63) == 0x8000_0000_0000_0000 && Pow2(64) == 0x1_0000_0000_0000_0000
  {
    SmallPowers();
    Pow2Sum(8, 7);
    Pow2Sum(8, 8);
    Pow2Sum(16, 15);
    Pow2Sum(16, 16);
    Pow2Sum(32, 31);
    Pow2Sum(32, 32);
  }
}
