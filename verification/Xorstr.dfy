// jm::xor_string: a string packed into 64-bit words, stored under a key and
// decrypted in place with vector instructions.
module Xorstr {
  import opened Bits
  import opened LittleEndian

  type uint64 = n: int | 0 <= n < 0x1_0000_0000_0000_0000

  function Xor64(a: uint64, b: uint64): uint64 {
    WordIs64();
    XorInWord(a, b, 64);
    Xor(a, b)
  }

  lemma WordIs64()
    ensures Pow2(64) == 0x1_0000_0000_0000_0000
  {
    Pow2Values();
  }

  // _buffer_size<Size>: words in whole blocks of 16 bytes
  function BufferSize(size: nat): nat { (size / 16 + (if size % 16 != 0 then 1 else 0)) * 2 }

  // The fewest words that hold size bytes in whole blocks of two.
  lemma BufferIsLeast(size: nat)
    ensures BufferSize(size) % 2 == 0 && size <= 8 * BufferSize(size) < size + 16
  {
  }

  // The template arguments of xor_string: the characters, terminator included,
  // each valueSize bytes wide, and one key for each word.
  datatype Literal = Literal(str: seq<int>, valueSize: nat, keys: seq<uint64>) {
    predicate Valid() {
      && (valueSize == 1 || valueSize == 2 || valueSize == 4)
      && |keys| == BufferSize(|str| * valueSize)
      && Digits(8 * valueSize, str)
    }

    // Characters in a word.
    function PerWord(): nat requires Valid() { 8 / valueSize }

    // The characters of word w, as far as they are among the first n; zero beyond.
    function Chars(w: nat, n: nat): (cs: seq<int>)
      requires Valid() && n <= |str|
      ensures |cs| == PerWord() && Digits(8 * valueSize, cs)
    {
      seq(PerWord(), f requires 0 <= f < PerWord() => if w * PerWord() + f < n then str[w * PerWord() + f] else 0)
    }

    // The plain text in word w.
    function PlainWord(w: nat, n: nat): (p: uint64)
      requires Valid() && n <= |str|
    {
      hide Value, Pow2, Literal.Chars;
      ValueRange(8 * valueSize, Chars(w, n));
      assert 8 * valueSize * PerWord() == 64;
      WordIs64();
      Value(8 * valueSize, Chars(w, n))
    }

    function PlainText(): (words: seq<uint64>)
      requires Valid()
      ensures |words| == |keys|
    {
      seq(|keys|, w requires 0 <= w < |keys| => PlainWord(w, |str|))
    }

    // What string_storage holds: the plain text under the keys.
    function CipherText(): (words: seq<uint64>)
      requires Valid()
      ensures |words| == |keys|
    {
      seq(|keys|, w requires 0 <= w < |keys| => Xor64(keys[w], PlainWord(w, |str|)))
    }
  }

  // Every string of 8-bit, 16-bit or 32-bit characters, with a key for each word.
  lemma LiteralsOfEveryWidth(str: seq<int>, valueSize: nat, keys: seq<uint64>)
    requires (valueSize, |keys|) == (1, BufferSize(|str|)) || (valueSize, |keys|) == (2, BufferSize(2 * |str|))
      || (valueSize, |keys|) == (4, BufferSize(4 * |str|))
    requires var limit := if valueSize == 1 then 0x100 else if valueSize == 2 then 0x1_0000 else 0x1_0000_0000;
      forall i :: 0 <= i < |str| ==> 0 <= str[i] < limit
    ensures Literal(str, valueSize, keys).Valid()
  {
    hide BufferSize, Pow2;
    Pow2Values();
  }

  // string_storage: the keys, with the characters exclusive-ored in one by one.
  method StringStorage(t: Literal) returns (storage: seq<uint64>)
    requires t.Valid()
    ensures storage == t.CipherText()
  {
    storage := t.keys;
    forall w | 0 <= w < |t.keys|
      ensures Xor64(t.keys[w], t.PlainWord(w, 0)) == t.keys[w]
    {
      EmptyWord(t, w);
    }
    var per := 8 / t.valueSize;
    for i := 0 to |t.str|
      invariant |storage| == |t.keys|
      invariant forall w :: 0 <= w < |t.keys| ==> storage[w] == Xor64(t.keys[w], t.PlainWord(w, i))
    {
      PackOne(t, i);
      storage := storage[i / per := Xor64(storage[i / per], ShiftedChar(t, i))];
    }
  }

  // uint64_t{str[i]} << ((i % (8 / value_size)) * 8 * value_size)
  function ShiftedChar(t: Literal, i: nat): uint64
    requires t.Valid() && i < |t.str|
  {
    ShiftFits(t, i);
    t.str[i] * Pow2(8 * t.valueSize * (i % t.PerWord()))
  }

  lemma ShiftFits(t: Literal, i: nat)
    requires t.Valid() && i < |t.str|
    ensures 0 <= t.str[i] * Pow2(8 * t.valueSize * (i % t.PerWord())) < 0x1_0000_0000_0000_0000
  {
    hide Pow2;
    var b, f := 8 * t.valueSize, i % t.PerWord();
    assert b * f + b <= 64;
    ShiftInWord(b, b * f, t.str[i]);
  }

  lemma ShiftInWord(b: nat, s: nat, c: int)
    requires b + s <= 64 && 0 <= c < Pow2(b)
    ensures 0 <= c * Pow2(s) < 0x1_0000_0000_0000_0000
  {
    hide Pow2;
    Pow2Sum(b, s);
    Pow2Multiple(64, b + s);
    WordIs64();
    DigitRange(Pow2(s), 0, c, Pow2(b));
  }

  lemma EmptyWord(t: Literal, w: nat)
    requires t.Valid() && w < |t.keys|
    ensures Xor64(t.keys[w], t.PlainWord(w, 0)) == t.keys[w]
  {
    ZeroDigits(8 * t.valueSize, t.Chars(w, 0));
    XorSymmetric(t.keys[w], 0);
    XorZero(t.keys[w]);
  }

  // Character i goes to field i % per of word i / per, and there is such a word.
  lemma Place(t: Literal, i: nat)
    requires t.Valid() && i < |t.str|
    ensures var w, f := i / t.PerWord(), i % t.PerWord();
      w < |t.keys| && f < t.PerWord() && i == w * t.PerWord() + f
  {
  }

  lemma OtherWord(t: Literal, i: nat, w: nat)
    requires t.Valid() && i < |t.str| && w != i / t.PerWord()
    ensures t.PlainWord(w, i + 1) == t.PlainWord(w, i)
  {
    assert t.Chars(w, i + 1) == t.Chars(w, i);
  }

  lemma SameWord(t: Literal, i: nat, k: uint64)
    requires t.Valid() && i < |t.str|
    ensures var w := i / t.PerWord();
      Xor64(Xor64(k, t.PlainWord(w, i)), ShiftedChar(t, i)) == Xor64(k, t.PlainWord(w, i + 1))
  {
    hide Pow2, Xor, Value;
    Place(t, i);
    var w, f, b := i / t.PerWord(), i % t.PerWord(), 8 * t.valueSize;
    assert t.Chars(w, i + 1) == t.Chars(w, i)[f := t.str[i]];
    SetTopDigit(b, t.Chars(w, i), f, t.str[i]);
    XorDisjoint(t.PlainWord(w, i), t.str[i], b * f);
    XorAssociative(k, t.PlainWord(w, i), ShiftedChar(t, i));
  }

  // One more character changes one field of one word.
  lemma PackOne(t: Literal, i: nat)
    requires t.Valid() && i < |t.str|
    ensures i / t.PerWord() < |t.keys|
    ensures forall w :: 0 <= w < |t.keys| && w != i / t.PerWord() ==> t.PlainWord(w, i + 1) == t.PlainWord(w, i)
    ensures forall k: uint64 :: var w := i / t.PerWord();
      Xor64(Xor64(k, t.PlainWord(w, i)), ShiftedChar(t, i)) == Xor64(k, t.PlainWord(w, i + 1))
  {
    Place(t, i);
    forall w | 0 <= w < |t.keys| && w != i / t.PerWord()
      ensures t.PlainWord(w, i + 1) == t.PlainWord(w, i)
    {
      OtherWord(t, i, w);
    }
    forall k: uint64
      ensures var w := i / t.PerWord();
        Xor64(Xor64(k, t.PlainWord(w, i)), ShiftedChar(t, i)) == Xor64(k, t.PlainWord(w, i + 1))
    {
      SameWord(t, i, k);
    }
  }

  // ---------- the object

  class XorString {
    const t: Literal
    // not JM_XORSTR_DISABLE_AVX_INTRINSICS
    const useAvx: bool
    const words: array<uint64>

    ghost predicate Valid()
      reads this
    {
      t.Valid() && words.Length == |t.keys|
    }

    // The object starts out encrypted.
    constructor (t: Literal, useAvx: bool)
      requires t.Valid()
      ensures this.t == t && this.useAvx == useAvx && Valid() && fresh(words)
      ensures words[..] == t.CipherText()
    {
      this.t, this.useAvx := t, useAvx;
      words := new uint64[|t.keys|];
      new;
      Copy();
    }

    // _copy: whatever _storage holds is replaced with the encrypted constants.
    method Copy()
      requires Valid()
      modifies words
      ensures words[..] == t.CipherText()
    {
      var storage := StringStorage(t);
      for idx := 0 to |t.keys|
        invariant words[..idx] == storage[..idx]
      {
        words[idx] := storage[idx];
      }
    }

    // The words of the storage exclusive-ored with the keys up to word n.
    ghost predicate CryptedUpTo(before: seq<uint64>, keys: seq<uint64>, n: nat)
      requires |before| == |keys| == words.Length
      reads this, words
    {
      forall w :: 0 <= w < words.Length ==>
        words[w] == if w < n then Xor64(before[w], keys[w]) else before[w]
    }

    // _crypt_256_single at word o
    method Crypt256Single(keys: seq<uint64>, o: nat, ghost before: seq<uint64>)
      requires |before| == |keys| == words.Length && o + 4 <= |keys| && CryptedUpTo(before, keys, o)
      modifies words
      ensures CryptedUpTo(before, keys, o + 4)
    {
      words[o], words[o + 1], words[o + 2], words[o + 3] :=
        Xor64(words[o], keys[o]), Xor64(words[o + 1], keys[o + 1]),
        Xor64(words[o + 2], keys[o + 2]), Xor64(words[o + 3], keys[o + 3]);
    }

    // _crypt_128_single at word o
    method Crypt128Single(keys: seq<uint64>, o: nat, ghost before: seq<uint64>)
      requires |before| == |keys| == words.Length && o + 2 <= |keys| && CryptedUpTo(before, keys, o)
      modifies words
      ensures CryptedUpTo(before, keys, o + 2)
    {
      words[o], words[o + 1] := Xor64(words[o], keys[o]), Xor64(words[o + 1], keys[o + 1]);
    }

    // _crypt_256 for the blocks 0, ..., count - 1
    method Crypt256(keys: seq<uint64>, count: nat, ghost before: seq<uint64>)
      requires |before| == |keys| == words.Length && 4 * count <= |keys| && CryptedUpTo(before, keys, 0)
      modifies words
      ensures CryptedUpTo(before, keys, 4 * count)
    {
      for i := 0 to count
        invariant CryptedUpTo(before, keys, 4 * i)
      {
        Crypt256Single(keys, i * 4, before);
      }
    }

    // _crypt_128 for the blocks first, ..., last - 1
    method Crypt128(keys: seq<uint64>, first: nat, last: nat, ghost before: seq<uint64>)
      requires |before| == |keys| == words.Length && 2 * last <= |keys| && first <= last
      requires CryptedUpTo(before, keys, 2 * first)
      modifies words
      ensures CryptedUpTo(before, keys, 2 * last)
    {
      for i := first to last
        invariant CryptedUpTo(before, keys, 2 * i)
      {
        Crypt128Single(keys, i * 2, before);
      }
    }

    // Each word once, in blocks of four with a pair left over, or in pairs.
    method CryptBlocks(keys: seq<uint64>, ghost before: seq<uint64>)
      requires |before| == |keys| == words.Length && |keys| % 2 == 0 && CryptedUpTo(before, keys, 0)
      modifies words
      ensures CryptedUpTo(before, keys, |keys|)
    {
      hide CryptedUpTo, Xor64;
      var n := |keys|;
      BlockCounts(n);
      if useAvx {
        Crypt256(keys, n / 4, before);
        if n % 4 != 0 {
          Crypt128(keys, n / 2 - 1, n / 2, before);
        }
      } else {
        Crypt128(keys, 0, n / 2, before);
      }
    }

    // crypt: both builds leave the plain text, and so does calling it again.
    method Crypt()
      requires Valid()
      modifies words
      ensures words[..] == t.PlainText()
    {
      hide Literal.PlainText, Literal.CipherText, Xor64;
      var keys := t.keys;
      Copy();
      ghost var before := words[..];
      CryptBlocks(keys, before);
      DecryptedText(t);
    }
  }

  // Blocks of four words leave at most one pair.
  lemma BlockCounts(n: nat)
    requires n % 2 == 0
    ensures 2 * (n / 2) == n
    ensures 4 * (n / 4) == if n % 4 == 0 then n else n - 2
  {
    var k, r := n / 4, n % 4;
    assert n == 4 * k + r;
    assert r == 0 || r == 2;
  }

  // What is stored is the plain text under the keys, and the keys take it off.
  lemma CipherIsKeyXorPlain(t: Literal, w: nat)
    requires t.Valid() && w < |t.keys|
    ensures t.CipherText()[w] == Xor(t.keys[w], t.PlainText()[w])
    ensures Xor(t.CipherText()[w], t.PlainText()[w]) == t.keys[w]
  {
    XorCancels(t.keys[w], t.PlainText()[w]);
  }

  lemma DecryptedText(t: Literal)
    requires t.Valid()
    ensures forall w :: 0 <= w < |t.keys| ==> Xor64(t.CipherText()[w], t.keys[w]) == t.PlainText()[w]
  {
    forall w | 0 <= w < |t.keys|
      ensures Xor64(t.CipherText()[w], t.keys[w]) == t.PlainText()[w]
    {
      XorSymmetric(t.keys[w], t.PlainWord(w, |t.str|));
      XorCancels(t.PlainWord(w, |t.str|), t.keys[w]);
    }
  }

  // Reading the plain text as characters gives the string, and zeros after it.
  lemma PlainTextReadsBack(t: Literal, i: nat)
    requires t.Valid() && i < |t.keys| * (8 / t.valueSize)
    ensures var per, bits := 8 / t.valueSize, 8 * t.valueSize;
      t.PlainText()[i / per] / Pow2(bits * (i % per)) % Pow2(bits) == if i < |t.str| then t.str[i] else 0
  {
    hide Value, Pow2, Literal.Chars, Literal.PlainWord;
    Index(i, 8 / t.valueSize, |t.keys|);
    ReadWord(t, i / t.PerWord(), i % t.PerWord());
  }

  lemma Index(i: nat, per: nat, n: nat)
    requires per > 0 && i < n * per
    ensures i / per < n && i / per * per + i % per == i
  {
    if i / per >= n { MulMonotone(n, i / per, per); }
  }

  // Field f of word w.
  lemma ReadWord(t: Literal, w: nat, f: nat)
    requires t.Valid() && w < |t.keys| && f < t.PerWord()
    ensures var i := w * t.PerWord() + f;
      Field(8 * t.valueSize, t.PlainText()[w], f) == if i < |t.str| then t.str[i] else 0
  {
    hide Value, Field, Pow2;
    FieldOfValue(8 * t.valueSize, t.Chars(w, |t.str|), f);
  }
}
