// basic_fnv1a: the FNV-1a hash of draft-eastlake-fnv, section 2.
module Fnv1a {
  import opened Bits
  import opened LittleEndian
  import opened CString
  import opened Wrappers

  // basic_fnv1a<T, Prime, OffsetBasis>; bits is the width of T
  datatype Parameters = Parameters(bits: nat, prime: nat, offsetBasis: nat) {
    predicate Valid() { prime % 2 == 1 && offsetBasis < Pow2(bits) && bits >= 8 }
  }

  const FNV1A_32 := Parameters(32, 0x1000193, 2166136261)
  const FNV1A_64 := Parameters(64, 0x100000001b3, 14695981039346656037)

  lemma StandardParameters()
    ensures FNV1A_32.Valid() && FNV1A_64.Valid()
  {
    Pow2Values();
  }

  // ---------- the hash of a byte stream

  function Step(p: Parameters, h: int, b: byte): int {
    Xor(h, b) * p.prime % Pow2(p.bits)
  }

  function Hash(p: Parameters, h: int, bytes: seq<byte>): int {
    if bytes == [] then h else Step(p, Hash(p, h, bytes[..|bytes| - 1]), bytes[|bytes| - 1])
  }

  // The low bytes of c, the least significant first.
  function CharBytes(c: int, width: nat): seq<byte> {
    seq(width, j requires 0 <= j => c / Pow2(8 * j) % 256)
  }

  // The byte stream of a string of characters width bytes wide, each passed through fx first.
  function StringBytes(s: seq<int>, width: nat, fx: Option<int -> int>): seq<byte> {
    if s == [] then []
    else StringBytes(s[..|s| - 1], width, fx) + CharBytes(Mapped(s[|s| - 1], fx), width)
  }

  function Mapped(c: int, fx: Option<int -> int>): int {
    if fx.Some? then fx.value(c) else c
  }

  // ---------- FNV-1a

  // A step is an exclusive or with the byte and then a product modulo the word.
  lemma StepIsXorThenMultiply(p: Parameters, h: int, b: byte)
    ensures Step(p, h, b) == Step(p, Xor(h, b), 0)
    ensures Step(p, h, 0) == h * p.prime % Pow2(p.bits)
    ensures Hash(p, h, []) == h && Hash(p, h, [b]) == Step(p, h, b)
  {
    XorZero(h);
    XorSymmetric(h, 0);
    XorZero(Xor(h, b));
    XorSymmetric(Xor(h, b), 0);
    HashOneMore(p, h, [], b);
    assert [] + [b] == [b];
  }

  // The published hashes of the text "a".
  lemma PublishedHashes()
    ensures Hash(FNV1A_32, FNV1A_32.offsetBasis, StringBytes(['a' as int], 1, None)) == 0xe40c292c
    ensures Hash(FNV1A_64, FNV1A_64.offsetBasis, StringBytes(['a' as int], 1, None)) == 0xaf63dc4c8601ec8c
  {
    hide *;
    CharacterOfOneByte(97);
    StepIsXorThenMultiply(FNV1A_32, FNV1A_32.offsetBasis, 97);
    StepIsXorThenMultiply(FNV1A_64, FNV1A_64.offsetBasis, 97);
    BasesXorA();
    FirstSteps();
  }

  lemma BasesXorA()
    ensures Xor(FNV1A_32.offsetBasis, 97) == 2166136228 && Xor(FNV1A_64.offsetBasis, 97) == 14695981039346656068
  {
    hide Xor;
    SmallPowers();
    XorLow(FNV1A_32.offsetBasis, 97, 8);
    XorLow(FNV1A_64.offsetBasis, 97, 8);
    XorsOfLowByte();
  }

  lemma FirstSteps()
    ensures Step(FNV1A_32, 2166136228, 0) == 0xe40c292c
    ensures Step(FNV1A_64, 14695981039346656068, 0) == 0xaf63dc4c8601ec8c
  {
    hide Xor, Step;
    Pow2Values();
    StepIsXorThenMultiply(FNV1A_32, 2166136228, 0);
    StepIsXorThenMultiply(FNV1A_64, 14695981039346656068, 0);
  }

  lemma XorsOfLowByte()
    ensures Xor(0xc5, 97) == 0xa4 && Xor(0x25, 97) == 0x44
  {
    assert Xor(1, 0) == 1 && Xor(3, 1) == 2 && Xor(6, 3) == 5 && Xor(12, 6) == 10;
    assert Xor(24, 12) == 20 && Xor(49, 24) == 41 && Xor(98, 48) == 82;
    assert Xor(0, 1) == 1 && Xor(1, 3) == 2 && Xor(2, 6) == 4 && Xor(4, 12) == 8;
    assert Xor(9, 24) == 17 && Xor(18, 48) == 34;
  }

  lemma CharacterOfOneByte(c: byte)
    ensures StringBytes([c], 1, None) == [c]
  {
    assert Pow2(0) == 1;
    assert [c][..0] == [];
    assert CharBytes(c, 1) == [c];
  }

  // A character of two bytes is hashed low byte first, and of any width from
  // the least significant byte to the most.
  lemma BytesOfCharacter(c: int, width: nat)
    ensures CharBytes(c, 2) == [c % 256, c / 256 % 256]
    ensures |CharBytes(c, width)| == width && Value(8, CharBytes(c, width)) == c % Pow2(8 * width)
  {
    assert Pow2(0) == 1 && Pow2(8) == 256;
    ValueOfBytes(c, width);
  }

  lemma {:induction false} ValueOfBytes(c: int, width: nat)
    ensures Value(8, CharBytes(c, width)) == c % Pow2(8 * width)
    decreases width
  {
    if width > 0 {
      assert Pow2(0) == 1 && Pow2(8) == 256;
      forall j | 0 <= j < width - 1
        ensures CharBytes(c, width)[1..][j] == CharBytes(c / 256, width - 1)[j]
      {
        Pow2Sum(8, 8 * j);
        DivideTwice(c, 256, Pow2(8 * j));
      }
      assert CharBytes(c, width)[1..] == CharBytes(c / 256, width - 1);
      ValueOfBytes(c / 256, width - 1);
      Pow2Sum(8, 8 * (width - 1));
      ModTimes(c, 256, Pow2(8 * (width - 1)));
    }
  }

  lemma ModTimes(c: int, x: int, y: int)
    requires x > 0 && y > 0
    ensures c % (x * y) == c % x + x * (c / x % y)
  {
    var n, r := c / x, c % x;
    var p, s := n / y, n % y;
    assert c == n * x + r && n == p * y + s;
    Recombine(c, x, y, p, s, n, r);
    ModUnique(c, x * y, p, s * x + r);
  }

  // ---------- make_hash

  // make_hash(s, fx) on a zero-terminated string
  method MakeHash(p: Parameters, s: seq<int>, width: nat, fx: Option<int -> int>) returns (hash: int)
    requires 0 in s
    ensures hash == Hash(p, p.offsetBasis, StringBytes(CText(s), width, fx))
  {
    hash := p.offsetBasis;
    var i := 0;
    ghost var text := CText(s);
    while s[i] != 0
      invariant 0 <= i <= |text|
      invariant hash == Hash(p, p.offsetBasis, StringBytes(text[..i], width, fx))
      decreases |text| - i
    {
      assert text[..i + 1][..i] == text[..i];
      hash := HashChar(p, hash, StringBytes(text[..i], width, fx), Mapped(s[i], fx), width);
      i := i + 1;
    }
    assert text[..i] == text;
  }

  // make_hash(s, size, fx)
  method MakeHashCounted(p: Parameters, s: seq<int>, size: nat, width: nat, fx: Option<int -> int>) returns (hash: int)
    requires size <= |s|
    ensures hash == Hash(p, p.offsetBasis, StringBytes(s[..size], width, fx))
  {
    hash := p.offsetBasis;
    for i := 0 to size
      invariant hash == Hash(p, p.offsetBasis, StringBytes(s[..i], width, fx))
    {
      assert s[..i + 1][..i] == s[..i];
      hash := HashChar(p, hash, StringBytes(s[..i], width, fx), Mapped(s[i], fx), width);
    }
  }

  // The inner loop over the bytes of one character.
  method HashChar(p: Parameters, start: int, ghost before: seq<byte>, c: int, width: nat) returns (hash: int)
    requires start == Hash(p, p.offsetBasis, before)
    ensures hash == Hash(p, p.offsetBasis, before + CharBytes(c, width))
  {
    hide Hash, Xor, And;
    hash := start;
    ghost var bytes := CharBytes(c, width);
    assert before + bytes[..0] == before;
    for j := 0 to width
      invariant hash == Hash(p, p.offsetBasis, before + bytes[..j])
    {
      HashOneMore(p, p.offsetBasis, before + bytes[..j], bytes[j]);
      assert before + bytes[..j] + [bytes[j]] == before + bytes[..j + 1];
      LowByte(c / Pow2(8 * j));
      hash := Xor(hash, And(c / Pow2(8 * j), 0xff));
      hash := hash * p.prime % Pow2(p.bits);
    }
    assert bytes[..width] == bytes;
  }

  lemma HashOneMore(p: Parameters, h: int, bytes: seq<byte>, b: byte)
    ensures Hash(p, h, bytes + [b]) == Step(p, Hash(p, h, bytes), b)
  {
    assert (bytes + [b])[..|bytes + [b]| - 1] == bytes;
  }

  lemma LowByte(c: int)
    ensures And(c, 0xff) == c % 256
  {
    AndLowMask(c, 8);
    assert Pow2(8) == 256;
  }

  // ---------- case folding

  function AsciiToLower(c: int): int {
    if 'A' as int <= c <= 'Z' as int then c - ('A' as int - 'a' as int) else c
  }

  function AsciiToUpper(c: int): int {
    if 'a' as int <= c <= 'z' as int then c - ('a' as int - 'A' as int) else c
  }

  // The 26 letters, and all that is none.
  lemma AsciiLetters(i: nat, c: int)
    requires i < 26
    ensures AsciiToLower('A' as int + i) == 'a' as int + i && AsciiToUpper('a' as int + i) == 'A' as int + i
    ensures c < 'A' as int || c > 'Z' as int ==> AsciiToLower(c) == c
    ensures c < 'a' as int || c > 'z' as int ==> AsciiToUpper(c) == c
  {
  }

  // The hashed bytes depend only on the characters that fx returns.
  lemma {:induction false} MappedBytes(s: seq<int>, t: seq<int>, width: nat, fx: int -> int)
    requires |s| == |t| && forall i :: 0 <= i < |s| ==> fx(s[i]) == fx(t[i])
    ensures StringBytes(s, width, Some(fx)) == StringBytes(t, width, Some(fx))
  {
    if s != [] {
      MappedBytes(s[..|s| - 1], t[..|t| - 1], width, fx);
    }
  }

  // Strings that agree up to the case of ASCII letters hash alike under either folding.
  lemma CaseInsensitive(s: seq<int>, t: seq<int>, width: nat)
    requires |s| == |t| && forall i :: 0 <= i < |s| ==> AsciiToLower(s[i]) == AsciiToLower(t[i])
    ensures StringBytes(s, width, Some(AsciiToLower)) == StringBytes(t, width, Some(AsciiToLower))
    ensures StringBytes(s, width, Some(AsciiToUpper)) == StringBytes(t, width, Some(AsciiToUpper))
  {
    MappedBytes(s, t, width, AsciiToLower);
    MappedBytes(s, t, width, AsciiToUpper);
  }

  // ---------- one step is a bijection of the states

  lemma {:induction false} OddFactor(f: int, d: int, n: nat)
    requires f % 2 == 1 && f * d % Pow2(n) == 0
    ensures d % Pow2(n) == 0
    decreases n
  {
    if n > 0 {
      var m := Pow2(n - 1);
      ModDouble(f * d, m);
      EvenFactor(f, d);
      var e := d / 2;
      assert f * d / 2 == f * e;
      OddFactor(f, e, n - 1);
      ModDouble(d, m);
    }
  }

  lemma EvenFactor(f: int, d: int)
    requires f % 2 == 1 && f * d % 2 == 0
    ensures d % 2 == 0 && f * d == 2 * (f * (d / 2))
  {
    var g := f / 2;
    assert f == 2 * g + 1;
    assert f * d == 2 * (g * d) + d;
  }

  lemma SameProduct(x: int, y: int, f: int, n: nat)
    requires f % 2 == 1 && 0 <= x < Pow2(n) && 0 <= y < Pow2(n)
    requires x * f % Pow2(n) == y * f % Pow2(n)
    ensures x == y
  {
    SameResidue(x * f, y * f, Pow2(n));
    assert x * f - y * f == f * (x - y);
    OddFactor(f, x - y, n);
    SmallMultiple(x - y, Pow2(n));
  }

  lemma StepInjective(p: Parameters, h: int, h': int, b: byte, b': byte)
    requires p.Valid() && 0 <= h < Pow2(p.bits) && 0 <= h' < Pow2(p.bits)
    requires Step(p, h, b) == Step(p, h', b')
    ensures b == b' ==> h == h'
    ensures h == h' ==> b == b'
  {
    StepRange(p, h, b);
    StepRange(p, h', b');
    SameProduct(Xor(h, b), Xor(h', b'), p.prime, p.bits);
    XorCancels(h, b);
    XorCancels(h', b');
    XorCancels(b, h);
    XorCancels(b', h');
    XorSymmetric(h, b);
    XorSymmetric(h', b');
  }

  lemma StepRange(p: Parameters, h: int, b: byte)
    requires p.Valid() && 0 <= h < Pow2(p.bits)
    ensures 0 <= Xor(h, b) < Pow2(p.bits) && 0 <= Step(p, h, b) < Pow2(p.bits)
  {
    Pow2Multiple(p.bits, 8);
    assert Pow2(8) == 256;
    XorInWord(h, b, p.bits);
  }

  // Every state is reached from some state, for every byte.
  lemma StepOnto(p: Parameters, target: int, b: byte) returns (h: int)
    requires p.Valid() && 0 <= target < Pow2(p.bits)
    ensures 0 <= h < Pow2(p.bits) && Step(p, h, b) == target
  {
    var m := Pow2(p.bits);
    var inverse := OddInverse(p.prime, p.bits);
    var x := target * inverse % m;
    InverseCancels(p.prime, inverse, target, m);
    h := Xor(x, b);
    StepRange(p, x, b);
    XorCancels(x, b);
  }

  lemma InverseCancels(f: int, inverse: int, t: int, m: int)
    requires m > 0 && 0 <= t < m && f * inverse % m == 1
    ensures t * inverse % m * f % m == t
  {
    var a, b := f * inverse, t * inverse;
    var q, k, x := a / m, b / m, b % m;
    assert a == q * m + 1 && b == k * m + x;
    CancelIdentity(f, inverse, t, m, q, k, x);
    ModUnique(x * f, m, t * q - k * f, t);
  }

  lemma CancelIdentity(f: int, inverse: int, t: int, m: int, q: int, k: int, x: int)
    requires f * inverse == q * m + 1 && t * inverse == k * m + x
    ensures x * f == (t * q - k * f) * m + t
  {
    assert (t * inverse) * f == t * (f * inverse);
    assert (k * m + x) * f == k * m * f + x * f;
    assert t * (q * m + 1) == t * q * m + t;
  }

  // An odd number has an inverse modulo every power of two.
  lemma {:induction false} OddInverse(f: int, n: nat) returns (inverse: int)
    requires f % 2 == 1 && n > 0
    ensures f * inverse % Pow2(n) == 1
    decreases n
  {
    if n == 1 {
      inverse := 1;
    } else {
      var x := OddInverse(f, n - 1);
      inverse := LiftInverse(f, x, Pow2(n - 1));
    }
  }

  lemma LiftInverse(f: int, x: int, m: int) returns (inverse: int)
    requires f % 2 == 1 && m > 0 && f * x % m == 1
    ensures f * inverse % (2 * m) == 1
  {
    var a := f * x;
    var k := a / m;
    assert a == k * m + 1;
    inverse := if k % 2 == 0 then x else x + m;
    var j := (if k % 2 == 0 then k else k + f) / 2;
    LiftIdentity(f, x, m, k, j, inverse);
    ModUnique(f * inverse, 2 * m, j, 1);
  }

  lemma LiftIdentity(f: int, x: int, m: int, k: int, j: int, inverse: int)
    requires f * x == k * m + 1
    requires (inverse == x && k == 2 * j) || (inverse == x + m && k + f == 2 * j)
    ensures f * inverse == j * (2 * m) + 1
  {
    assert (k + f) * m == k * m + f * m;
    assert f * (x + m) == f * x + f * m;
  }

  // ---------- whole streams

  lemma {:induction false} HashRange(p: Parameters, h: int, bytes: seq<byte>)
    requires p.Valid() && 0 <= h < Pow2(p.bits)
    ensures 0 <= Hash(p, h, bytes) < Pow2(p.bits)
  {
    if bytes != [] {
      HashRange(p, h, bytes[..|bytes| - 1]);
      StepRange(p, Hash(p, h, bytes[..|bytes| - 1]), bytes[|bytes| - 1]);
    }
  }

  // Two streams of the same length that differ in exactly one byte never collide.
  lemma {:induction false} OneByteApart(p: Parameters, h: int, a: seq<byte>, b: seq<byte>, i: nat)
    requires p.Valid() && 0 <= h < Pow2(p.bits)
    requires |a| == |b| && i < |a| && a[i] != b[i]
    requires forall j :: 0 <= j < |a| && j != i ==> a[j] == b[j]
    ensures Hash(p, h, a) != Hash(p, h, b)
    decreases |a|
  {
    var n := |a| - 1;
    HashRange(p, h, a[..n]);
    HashRange(p, h, b[..n]);
    assert i == n ==> a[..n] == b[..n];
    if Hash(p, h, a) == Hash(p, h, b) {
      StepInjective(p, Hash(p, h, a[..n]), Hash(p, h, b[..n]), a[n], b[n]);
      if i < n {
        OneByteApart(p, h, a[..n], b[..n], i);
      }
    }
  }

  // Different start states stay different, whatever is hashed.
  lemma {:induction false} HashInjective(p: Parameters, h: int, h': int, bytes: seq<byte>)
    requires p.Valid() && 0 <= h < Pow2(p.bits) && 0 <= h' < Pow2(p.bits) && h != h'
    ensures Hash(p, h, bytes) != Hash(p, h', bytes)
  {
    if bytes != [] {
      var n := |bytes| - 1;
      HashInjective(p, h, h', bytes[..n]);
      HashRange(p, h, bytes[..n]);
      HashRange(p, h', bytes[..n]);
      if Hash(p, h, bytes) == Hash(p, h', bytes) {
        StepInjective(p, Hash(p, h, bytes[..n]), Hash(p, h', bytes[..n]), bytes[n], bytes[n]);
      }
    }
  }

  // Byte j of character i in the stream.
  lemma {:induction false} StringByteAt(s: seq<int>, width: nat, fx: Option<int -> int>, i: nat, j: nat)
    requires i < |s| && j < width
    ensures |StringBytes(s, width, fx)| == |s| * width && 0 <= i * width + j < |s| * width
    ensures StringBytes(s, width, fx)[i * width + j] == CharBytes(Mapped(s[i], fx), width)[j]
  {
    var n := |s| - 1;
    StringLength(s[..n], width, fx);
    MoreThan(n, i, width, j);
    if i < n {
      StringByteAt(s[..n], width, fx, i, j);
    }
  }

  lemma MoreThan(n: nat, i: nat, width: nat, j: nat)
    requires i <= n && j < width
    ensures 0 <= i * width + j < n * width + width == (n + 1) * width
  {
    MulMonotone(i, n, width);
  }

  // The same in terms of the characters.
  lemma StringByteIs(s: seq<int>, width: nat, fx: Option<int -> int>, i: nat, j: nat)
    requires i < |s| && j < width
    ensures |StringBytes(s, width, fx)| == |s| * width && 0 <= i * width + j < |s| * width
    ensures var c := if fx.Some? then fx.value(s[i]) else s[i];
      StringBytes(s, width, fx)[i * width + j] == c / Pow2(8 * j) % 256
  {
    hide StringBytes;
    StringByteAt(s, width, fx, i, j);
  }

  lemma {:induction false} StringLength(s: seq<int>, width: nat, fx: Option<int -> int>)
    ensures |StringBytes(s, width, fx)| == |s| * width
  {
    if s != [] {
      StringLength(s[..|s| - 1], width, fx);
      assert (|s| - 1) * width + width == |s| * width;
    }
  }

  lemma CharacterOfByte(q: nat, width: nat, n: nat)
    requires width > 0 && q < n * width
    ensures q == q / width * width + q % width && 0 <= q / width < n
  {
    var k := q / width;
    if k >= n { MulMonotone(n, k, width); }
  }

  lemma BasisInRange(p: Parameters)
    requires p.Valid()
    ensures 0 <= p.offsetBasis < Pow2(p.bits)
  {
  }

  // Strings of the same length that differ in one character, in one of its
  // bytes after mapping, never collide.
  lemma OneCharacterApart(p: Parameters, s: seq<int>, t: seq<int>, width: nat, fx: Option<int -> int>, i: nat, j: nat)
    requires p.Valid() && |s| == |t| && i < |s| && j < width
    requires forall k :: 0 <= k < |s| && k != i ==> s[k] == t[k]
    requires var c, d := CharBytes(Mapped(s[i], fx), width), CharBytes(Mapped(t[i], fx), width);
      c[j] != d[j] && forall k :: 0 <= k < width && k != j ==> c[k] == d[k]
    ensures Hash(p, p.offsetBasis, StringBytes(s, width, fx)) != Hash(p, p.offsetBasis, StringBytes(t, width, fx))
  {
    hide *;
    var at := i * width + j;
    StringByteAt(s, width, fx, i, j);
    StringByteAt(t, width, fx, i, j);
    var a, b := StringBytes(s, width, fx), StringBytes(t, width, fx);
    forall q | 0 <= q < |a| && q != at
      ensures a[q] == b[q]
    {
      CharacterOfByte(q, width, |s|);
      StringByteAt(s, width, fx, q / width, q % width);
      StringByteAt(t, width, fx, q / width, q % width);
    }
    BasisInRange(p);
    OneByteApart(p, p.offsetBasis, a, b, at);
  }
}
