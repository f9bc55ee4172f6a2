// ntapi::basic_string: counted strings of 8-bit or 16-bit characters, compared
// a machine word at a time.
module NtString {
  import opened Bits
  import opened LittleEndian

  // Buffer, as the memory from the pointer on, and Length in bytes.
  datatype BasicString = BasicString(charSize: nat, buffer: seq<byte>, length: nat) {
    // A length is a multiple of the character size. The constructors see to it
    // for their own strings; of strings that others made, such as the module
    // names of the loader, it is assumed.
    predicate Valid() {
      (charSize == 1 || charSize == 2) && length % charSize == 0 && length <= |buffer|
    }

    function Size(): nat requires Valid() { length / charSize }

    // Bytes off, ..., off + n - 1 as one number. No byte beyond Length is read.
    function Load(off: nat, n: nat): int
      requires Valid() && off + n <= length
    {
      Value(8, buffer[off..off + n])
    }

    function Char(i: nat): int
      requires Valid() && i < Size()
    {
      Load(i * charSize, charSize)
    }
  }

  predicate SameChars(a: BasicString, b: BasicString)
    requires a.Valid() && b.Valid()
  {
    a.length == b.length && a.charSize == b.charSize && forall i :: 0 <= i < a.Size() ==> a.Char(i) == b.Char(i)
  }

  // The same after case folding.
  predicate SameFolded(a: BasicString, b: BasicString, fold: int -> int)
    requires a.Valid() && b.Valid()
  {
    && a.length == b.length && a.charSize == b.charSize
    && forall i :: 0 <= i < a.Size() ==> fold(a.Char(i)) == fold(b.Char(i))
  }

  // Equal loads are equal bytes.
  lemma LoadsAgree(a: BasicString, b: BasicString, off: nat, n: nat)
    requires a.Valid() && b.Valid() && off + n <= a.length && off + n <= b.length
    ensures a.Load(off, n) == b.Load(off, n) <==> a.buffer[off..off + n] == b.buffer[off..off + n]
  {
    assert Pow2(8) == 256;
    ValueInjective(8, a.buffer[off..off + n], b.buffer[off..off + n]);
  }

  // All characters before byte offset s agree after mapping, and s is a character boundary.
  ghost predicate AgreeBefore(a: BasicString, b: BasicString, fold: int -> int, s: nat)
    requires Comparable(a, b)
  {
    && s <= a.length && s % a.charSize == 0
    && forall i :: 0 <= i < a.Size() && i * a.charSize < s ==> fold(a.Char(i)) == fold(b.Char(i))
  }

  predicate Comparable(a: BasicString, b: BasicString) {
    a.Valid() && b.Valid() && a.length == b.length && a.charSize == b.charSize
  }

  lemma AgreeAtEnds(a: BasicString, b: BasicString, fold: int -> int)
    requires Comparable(a, b)
    ensures AgreeBefore(a, b, fold, 0)
    ensures AgreeBefore(a, b, fold, a.length) <==> SameFolded(a, b, fold)
  {
    assert forall i :: 0 <= i < a.Size() ==> i * a.charSize < a.length;
  }

  // Equal words hold equal characters.
  lemma AgreeAfterWord(a: BasicString, b: BasicString, fold: int -> int, s: nat, word: nat)
    requires Comparable(a, b) && AgreeBefore(a, b, fold, s) && (word == 4 || word == 8)
    requires s + word <= a.length && a.Load(s, word) == b.Load(s, word)
    ensures AgreeBefore(a, b, fold, s + word)
  {
    hide BasicString.Load, BasicString.Char;
    forall i | 0 <= i < a.Size() && s <= i * a.charSize < s + word
      ensures a.Char(i) == b.Char(i)
    {
      CharInWord(a, b, s, word, i);
    }
  }

  lemma CharInWord(a: BasicString, b: BasicString, off: nat, n: nat, i: nat)
    requires Comparable(a, b) && off + n <= a.length && a.Load(off, n) == b.Load(off, n)
    requires i < a.Size() && off <= i * a.charSize && i * a.charSize + a.charSize <= off + n
    ensures a.Char(i) == b.Char(i)
  {
    hide Value;
    LoadsAgree(a, b, off, n);
    var c, k := a.charSize, i * a.charSize;
    SliceOfSlice(a.buffer, off, off + n, k, k + c);
    SliceOfSlice(b.buffer, off, off + n, k, k + c);
  }

  lemma SliceOfSlice(s: seq<byte>, from: nat, to: nat, i: nat, j: nat)
    requires from <= i <= j <= to <= |s|
    ensures s[i..j] == s[from..to][i - from..j - from]
  {
    var slice := s[from..to];
    forall k | 0 <= k < j - i
      ensures s[i..j][k] == slice[i - from..j - from][k]
    {
      assert slice[i - from + k] == s[i + k];
    }
  }

  // One more character, read at offset s.
  lemma AgreeAfterChar(a: BasicString, b: BasicString, fold: int -> int, s: nat)
    requires Comparable(a, b) && AgreeBefore(a, b, fold, s) && s < a.length
    ensures s + a.charSize <= a.length
    ensures var same := fold(a.Load(s, a.charSize)) == fold(b.Load(s, b.charSize));
      (same ==> AgreeBefore(a, b, fold, s + a.charSize)) && (!same ==> !SameFolded(a, b, fold))
  {
    hide Value;
    var n := s / a.charSize;
    assert n * a.charSize == s && n < a.Size();
    assert a.Char(n) == a.Load(s, a.charSize) && b.Char(n) == b.Load(s, b.charSize);
    assert forall i: nat :: i * a.charSize < s + a.charSize ==> i * a.charSize < s || i == n;
  }

  // ---------- odd lengths

  // The character loops, from offset start on, read a character at offset s.
  predicate CharRead(start: nat, length: nat, charSize: nat, s: nat)
    requires charSize > 0
  {
    start <= s < length && (s - start) % charSize == 0
  }

  // All those reads stay inside a string if and only if its length is a multiple
  // of the character size.
  lemma ReadsStayInside(start: nat, length: nat, charSize: nat)
    requires charSize == 1 || charSize == 2
    requires start <= length && start % charSize == 0
    ensures (forall s: nat :: CharRead(start, length, charSize, s) ==> s + charSize <= length)
      <==> length % charSize == 0
  {
    if length % charSize != 0 {
      assert CharRead(start, length, charSize, length - 1);
    }
  }

  // ---------- equals and iequals

  // The first loop of both: whole words, as long as they agree. s is the offset
  // of s1 and s2, and done means that there is nothing after the words.
  method SkipEqualWords(a: BasicString, b: BasicString, ghost fold: int -> int, word: nat) returns (s: nat, done: bool)
    requires Comparable(a, b) && (word == 4 || word == 8)
    ensures AgreeBefore(a, b, fold, if done then a.length else s)
  {
    hide AgreeBefore, BasicString.Load;
    AgreeAtEnds(a, b, fold);
    var n1 := a.length;
    s, done := 0, false;
    while n1 >= word
      invariant s + n1 == a.length && AgreeBefore(a, b, fold, s)
      decreases n1
    {
      if a.Load(s, word) != b.Load(s, word) {
        break;
      }
      AgreeAfterWord(a, b, fold, s, word);
      n1 := n1 - word;
      if n1 == 0 {
        return s, true;
      }
      s := s + word;
    }
  }

  method Equals(a: BasicString, b: BasicString, word: nat) returns (r: bool)
    requires a.Valid() && b.Valid() && a.charSize == b.charSize && (word == 4 || word == 8)
    ensures r <==> SameChars(a, b)
  {
    hide AgreeBefore, BasicString.Load, BasicString.Char;
    if a.length != b.length {
      return false;
    }
    ghost var id := x => x;
    AgreeAtEnds(a, b, id);
    FoldByIdentity(a, b);
    var s, done := SkipEqualWords(a, b, id, word);
    if done {
      return true;
    }
    AgreeBounds(a, b, id, s);
    while s < a.length
      invariant s <= a.length && AgreeBefore(a, b, id, s)
    {
      AgreeAfterChar(a, b, id, s);
      if a.Load(s, a.charSize) != b.Load(s, b.charSize) {
        return false;
      }
      s := s + a.charSize;
    }
    return true;
  }

  lemma FoldByIdentity(a: BasicString, b: BasicString)
    requires Comparable(a, b)
    ensures SameFolded(a, b, x => x) <==> SameChars(a, b)
  {
  }

  lemma AgreeBounds(a: BasicString, b: BasicString, fold: int -> int, s: nat)
    requires Comparable(a, b) && AgreeBefore(a, b, fold, s)
    ensures s <= a.length
  {
  }

  // fold is the facet's tolower
  method IEquals(a: BasicString, b: BasicString, fold: int -> int, word: nat) returns (r: bool)
    requires a.Valid() && b.Valid() && a.charSize == b.charSize && (word == 4 || word == 8)
    ensures r <==> SameFolded(a, b, fold)
  {
    hide AgreeBefore, BasicString.Load, BasicString.Char;
    if a.length != b.length {
      return false;
    }
    AgreeAtEnds(a, b, fold);
    var s, done := SkipEqualWords(a, b, fold, word);
    if done {
      return true;
    }
    AgreeBounds(a, b, fold, s);
    while s < a.length
      invariant s <= a.length && AgreeBefore(a, b, fold, s)
    {
      AgreeAfterChar(a, b, fold, s);
      var c1, c2 := a.Load(s, a.charSize), b.Load(s, b.charSize);
      if c1 != c2 && fold(c1) != fold(c2) {
        return false;
      }
      s := s + a.charSize;
    }
    return true;
  }

  // ---------- prefixes and suffixes

  predicate IsPrefix(p: BasicString, a: BasicString, fold: int -> int)
    requires p.Valid() && a.Valid()
  {
    && p.charSize == a.charSize && p.Size() <= a.Size()
    && forall i :: 0 <= i < p.Size() ==> fold(a.Char(i)) == fold(p.Char(i))
  }

  predicate IsSuffix(p: BasicString, a: BasicString)
    requires p.Valid() && a.Valid()
  {
    && p.charSize == a.charSize && p.Size() <= a.Size()
    && forall i :: 0 <= i < p.Size() ==> a.Char(a.Size() - p.Size() + i) == p.Char(i)
  }

  lemma SizeOrder(a: BasicString, b: BasicString)
    requires a.Valid() && b.Valid() && a.charSize == b.charSize
    ensures a.length < b.length <==> a.Size() < b.Size()
  {
  }

  method StartsWith(a: BasicString, other: BasicString) returns (r: bool)
    requires a.Valid() && other.Valid() && a.charSize == other.charSize
    ensures r <==> IsPrefix(other, a, x => x)
  {
    hide BasicString.Char, BasicString.Size;
    SizeOrder(a, other);
    if a.length < other.length {
      return false;
    }
    var i := 0;
    while i < other.Size()
      invariant i <= other.Size() && forall k :: 0 <= k < i ==> a.Char(k) == other.Char(k)
    {
      if other.Char(i) != a.Char(i) {
        return false;
      }
      i := i + 1;
    }
    return true;
  }

  method IStartsWith(a: BasicString, other: BasicString, fold: int -> int) returns (r: bool)
    requires a.Valid() && other.Valid() && a.charSize == other.charSize
    ensures r <==> IsPrefix(other, a, fold)
  {
    hide BasicString.Char, BasicString.Size;
    SizeOrder(a, other);
    if a.length < other.length {
      return false;
    }
    var i := 0;
    while i < other.Size()
      invariant i <= other.Size() && forall k :: 0 <= k < i ==> fold(a.Char(k)) == fold(other.Char(k))
    {
      var c1, c2 := a.Char(i), other.Char(i);
      if c1 != c2 && fold(c1) != fold(c2) {
        return false;
      }
      i := i + 1;
    }
    return true;
  }

  // The reverse iterators run from the last character to the first.
  method EndsWith(a: BasicString, other: BasicString) returns (r: bool)
    requires a.Valid() && other.Valid() && a.charSize == other.charSize
    ensures r <==> IsSuffix(other, a)
  {
    hide BasicString.Char, BasicString.Size;
    SizeOrder(a, other);
    if a.length < other.length {
      return false;
    }
    var s1, s2 := a.Size(), other.Size();
    while s2 > 0
      invariant 0 <= s2 <= other.Size() && s1 - s2 == a.Size() - other.Size()
      invariant forall k :: s2 <= k < other.Size() ==> a.Char(a.Size() - other.Size() + k) == other.Char(k)
    {
      if other.Char(s2 - 1) != a.Char(s1 - 1) {
        return false;
      }
      s1, s2 := s1 - 1, s2 - 1;
    }
    return true;
  }

  // Every buffer of 8-bit characters is a string of any length in it, and every
  // buffer of 16-bit characters of any even length.
  lemma StringsOfEveryLength(buffer: seq<byte>, length: nat)
    ensures BasicString(1, buffer, length).Valid() <==> length <= |buffer|
    ensures BasicString(2, buffer, length).Valid() <==> length % 2 == 0 && length <= |buffer|
  {
  }

  // ---------- what the comparisons decide, byte by byte

  // A character of two bytes has the low one first.
  lemma LoadedBytes(s: BasicString, off: nat)
    requires s.Valid()
    ensures off + 1 <= s.length ==> s.Load(off, 1) == s.buffer[off]
    ensures off + 2 <= s.length ==> s.Load(off, 2) == s.buffer[off] as int + 256 * s.buffer[off + 1] as int
  {
    assert Pow2(8) == 256;
    if off + 1 <= s.length {
      var one := s.buffer[off..off + 1];
      assert one[1..] == [] && Value(8, one) == one[0] + Pow2(8) * Value(8, []);
    }
    if off + 2 <= s.length {
      var two := s.buffer[off..off + 2];
      assert two[1..] == [two[1]] && two[1..][1..] == [];
      assert Value(8, two) == two[0] + Pow2(8) * Value(8, [two[1]]);
    }
  }

  // The characters of a string, folded.
  function FoldedText(s: BasicString, fold: int -> int): (text: seq<int>)
    requires s.Valid()
    ensures |text| == s.length / s.charSize
  {
    seq(s.length / s.charSize, i requires 0 <= i < s.length / s.charSize =>
      fold(if s.charSize == 1 then s.buffer[i] else s.buffer[2 * i] as int + 256 * s.buffer[2 * i + 1] as int))
  }

  lemma FoldedChars(s: BasicString, fold: int -> int)
    requires s.Valid()
    ensures s.Size() == |FoldedText(s, fold)|
    ensures forall i :: 0 <= i < s.Size() ==> FoldedText(s, fold)[i] == fold(s.Char(i))
  {
    hide BasicString.Load;
    forall i | 0 <= i < s.Size()
      ensures FoldedText(s, fold)[i] == fold(s.Char(i))
    {
      LoadedBytes(s, i * s.charSize);
    }
  }

  // Folded equality, prefixes and suffixes are those of the folded texts.
  lemma FoldedTexts(a: BasicString, b: BasicString, fold: int -> int)
    requires a.Valid() && b.Valid() && a.charSize == b.charSize
    ensures SameFolded(a, b, fold) <==> FoldedText(a, fold) == FoldedText(b, fold)
    ensures IsPrefix(a, b, fold) <==> FoldedText(a, fold) <= FoldedText(b, fold)
  {
    hide BasicString.Char, BasicString.Size, FoldedText;
    FoldedChars(a, fold);
    FoldedChars(b, fold);
    SizeOrder(a, b);
    SizeOrder(b, a);
  }

  lemma PlainTexts(a: BasicString, b: BasicString)
    requires a.Valid() && b.Valid() && a.charSize == b.charSize
    ensures var s, t := FoldedText(a, x => x), FoldedText(b, x => x);
      && (SameChars(a, b) <==> s == t)
      && (IsSuffix(a, b) <==> |s| <= |t| && t[|t| - |s|..] == s)
  {
    hide BasicString.Char, BasicString.Size, FoldedText;
    FoldedChars(a, x => x);
    FoldedChars(b, x => x);
    SizeOrder(a, b);
    SizeOrder(b, a);
    var s, t := FoldedText(a, x => x), FoldedText(b, x => x);
    if |s| <= |t| && t[|t| - |s|..] == s {
      forall i | 0 <= i < a.Size()
        ensures b.Char(b.Size() - a.Size() + i) == a.Char(i)
      {
        assert t[|t| - |s|..][i] == t[|t| - |s| + i];
      }
    }
  }

  // Without folding, they are those of the bytes.
  lemma EqualBytes(a: BasicString, b: BasicString)
    requires a.Valid() && b.Valid() && a.charSize == b.charSize
    ensures SameChars(a, b) <==> a.buffer[..a.length] == b.buffer[..b.length]
  {
    hide BasicString.Char, BasicString.Size;
    if a.length == b.length {
      SameBytes(a, b, 0);
    }
    assert a.length == |a.buffer[..a.length]| && b.length == |b.buffer[..b.length]|;
    SizeOrder(a, b);
    SizeOrder(b, a);
  }

  lemma PrefixBytes(p: BasicString, a: BasicString)
    requires p.Valid() && a.Valid() && p.charSize == a.charSize
    ensures IsPrefix(p, a, x => x) <==> p.length <= a.length && a.buffer[..p.length] == p.buffer[..p.length]
  {
    hide BasicString.Char, BasicString.Size;
    if p.length <= a.length {
      SameBytes(p, a, 0);
    }
    SizeOrder(a, p);
  }

  lemma SuffixBytes(p: BasicString, a: BasicString)
    requires p.Valid() && a.Valid() && p.charSize == a.charSize
    ensures IsSuffix(p, a) <==>
      p.length <= a.length && a.buffer[a.length - p.length..a.length] == p.buffer[..p.length]
  {
    hide BasicString.Char, BasicString.Size;
    if p.length <= a.length {
      SizeGap(a, p);
      SameBytes(p, a, a.Size() - p.Size());
    }
    SizeOrder(a, p);
  }

  lemma SizeGap(a: BasicString, p: BasicString)
    requires a.Valid() && p.Valid() && a.charSize == p.charSize && p.length <= a.length
    ensures p.Size() <= a.Size() && (a.Size() - p.Size()) * a.charSize == a.length - p.length
  {
  }

  // The characters of p are those of a from character number at on, if and only
  // if the bytes are.
  lemma SameBytes(p: BasicString, a: BasicString, at: nat)
    requires p.Valid() && a.Valid() && p.charSize == a.charSize && at * a.charSize + p.length <= a.length
    ensures at + p.Size() <= a.Size()
    ensures (forall i :: 0 <= i < p.Size() ==> a.Char(at + i) == p.Char(i))
      <==> a.buffer[at * a.charSize..at * a.charSize + p.length] == p.buffer[..p.length]
  {
    hide BasicString.Load;
    var from := at * a.charSize;
    forall i | 0 <= i < p.Size()
      ensures a.Char(at + i) == p.Char(i) <==>
        (forall j :: i * p.charSize <= j < (i + 1) * p.charSize ==> a.buffer[from + j] == p.buffer[j])
    {
      SameCharBytes(p, a, at, i);
    }
    var s, t := a.buffer[from..from + p.length], p.buffer[..p.length];
    if forall i :: 0 <= i < p.Size() ==> a.Char(at + i) == p.Char(i) {
      forall j | 0 <= j < p.length
        ensures s[j] == t[j]
      {
        assert a.Char(at + j / p.charSize) == p.Char(j / p.charSize);
      }
    }
    if s == t {
      forall j | 0 <= j < p.length
        ensures a.buffer[from + j] == p.buffer[j]
      {
        assert s[j] == t[j];
      }
    }
  }

  lemma SameCharBytes(p: BasicString, a: BasicString, at: nat, i: nat)
    requires p.Valid() && a.Valid() && p.charSize == a.charSize && at * a.charSize + p.length <= a.length
    requires i < p.Size()
    ensures at + i < a.Size()
    ensures at * a.charSize + (i + 1) * p.charSize <= |a.buffer| && (i + 1) * p.charSize <= |p.buffer|
    ensures a.Char(at + i) == p.Char(i) <==>
      forall j :: i * p.charSize <= j < (i + 1) * p.charSize ==> a.buffer[at * a.charSize + j] == p.buffer[j]
  {
    hide BasicString.Load;
    LoadedBytes(p, i * p.charSize);
    LoadedBytes(a, (at + i) * a.charSize);
  }

  // The first n characters of a string are a prefix, and the last n a suffix.
  lemma CutsArePrefixAndSuffix(a: BasicString, n: nat, fold: int -> int)
    requires a.Valid() && n <= a.Size()
    ensures n * a.charSize <= a.length
    ensures IsPrefix(BasicString(a.charSize, a.buffer, n * a.charSize), a, fold)
    ensures IsSuffix(BasicString(a.charSize, a.buffer[a.length - n * a.charSize..], n * a.charSize), a)
  {
    var head := BasicString(a.charSize, a.buffer, n * a.charSize);
    var tail := BasicString(a.charSize, a.buffer[a.length - n * a.charSize..], n * a.charSize);
    assert head.Size() == n;
    SuffixBytes(tail, a);
    assert a.buffer[a.length - n * a.charSize..][..n * a.charSize] == a.buffer[a.length - n * a.charSize..a.length];
  }

  // ---------- laws

  // Folded equality is an equivalence, and equal strings are folded equal.
  lemma FoldedEquivalence(a: BasicString, b: BasicString, c: BasicString, fold: int -> int)
    requires a.Valid() && b.Valid() && c.Valid()
    ensures SameFolded(a, a, fold)
    ensures SameFolded(a, b, fold) ==> SameFolded(b, a, fold)
    ensures SameFolded(a, b, fold) && SameFolded(b, c, fold) ==> SameFolded(a, c, fold)
    ensures SameChars(a, b) ==> SameFolded(a, b, fold)
  {
  }

  // Strings are equal exactly when each starts with the other, or ends with it.
  lemma PrefixesBothWays(a: BasicString, b: BasicString, fold: int -> int)
    requires a.Valid() && b.Valid()
    ensures SameFolded(a, b, fold) <==> IsPrefix(a, b, fold) && IsPrefix(b, a, fold)
    ensures SameChars(a, b) <==> IsSuffix(a, b) && IsSuffix(b, a)
  {
    hide BasicString.Char;
    if a.charSize == b.charSize && a.Size() == b.Size() {
      assert a.length == b.length;
      if IsSuffix(a, b) {
        forall i | 0 <= i < a.Size()
          ensures a.Char(i) == b.Char(i)
        {
          assert b.Char(b.Size() - a.Size() + i) == a.Char(i);
        }
      }
    }
  }
}
