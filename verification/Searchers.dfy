// searchers.h: byte patterns with wildcard nibbles, compiled from text and searched for.
module Searchers {
  import opened Bits
  import opened CString

  datatype PatternByte = PatternByte(value: byte, mask: byte)

  const CLEAR := PatternByte(0, 0xff)

  // friend operator==
  predicate Matches(b: PatternByte, x: byte) { And(x, b.mask) == And(b.value, b.mask) }

  function HexChToInt(ch: int): int {
    if '0' as int <= ch <= '9' as int then ch - '0' as int
    else if 'A' as int <= ch <= 'F' as int then ch - 'A' as int + 10
    else if 'a' as int <= ch <= 'f' as int then ch - 'a' as int + 10
    else -1
  }

  predicate IsWildcard(ch: int) { ch == '?' as int || ch == '.' as int }

  // ---------- the nibble constraints a text denotes

  datatype RawNibble = Any | Exactly(n: int)

  type Nibble = c: RawNibble | c.Exactly? ==> 0 <= c.n < 16 witness Any

  predicate Allows(c: Nibble, x: int) { c.Any? || c.n == x }

  predicate IsNibble(ch: int) { IsWildcard(ch) || HexChToInt(ch) != -1 }

  function NibbleOf(ch: int): Nibble
    requires IsNibble(ch)
  {
    if IsWildcard(ch) then Any else Exactly(HexChToInt(ch))
  }

  // Characters that are neither wildcards nor hex digits are skipped.
  function Nibbles(text: seq<int>): seq<Nibble> {
    if text == [] then []
    else
      var last := text[|text| - 1];
      Nibbles(text[..|text| - 1]) + (if IsNibble(last) then [NibbleOf(last)] else [])
  }

  // ---------- compiled patterns

  function ValueOf(c: Nibble): int { if c.Any? then 0 else c.n }

  function MaskOf(c: Nibble): int { if c.Any? then 0 else 15 }

  function Pair(high: Nibble, low: Nibble): PatternByte {
    PatternByte(16 * ValueOf(high) + ValueOf(low), 16 * MaskOf(high) + MaskOf(low))
  }

  // A single nibble left over: only the low half of the mask survives.
  function Half(high: Nibble): PatternByte { PatternByte(16 * ValueOf(high), 15) }

  function Pairs(ns: seq<Nibble>): (cp: seq<PatternByte>)
    ensures |cp| == |ns| / 2
  {
    seq(|ns| / 2, k requires 0 <= k < |ns| / 2 => Pair(ns[2 * k], ns[2 * k + 1]))
  }

  function Compiled(ns: seq<Nibble>): seq<PatternByte> {
    Pairs(ns) + (if |ns| % 2 == 1 then [Half(ns[|ns| - 1])] else [])
  }

  // The state of the loop after the constraints ns: full entries, and a nibble
  // waiting in b when their number is odd.
  ghost predicate Progress(ns: seq<Nibble>, compiled: seq<PatternByte>, b: PatternByte, shift: int) {
    && compiled == Pairs(ns)
    && if |ns| % 2 == 0 then shift == 4 && b == CLEAR
       else shift == 0 && b == PatternByte(16 * ValueOf(ns[|ns| - 1]), 16 * MaskOf(ns[|ns| - 1]) + 15)
  }

  // b with one more nibble: the high one at shift 4, the low one at shift 0.
  function Filled(b: PatternByte, n: Nibble, shift: int): PatternByte
    requires FillsNext(b, shift)
  {
    if shift == 4 then PatternByte(16 * ValueOf(n), 16 * MaskOf(n) + 15)
    else PatternByte(b.value + ValueOf(n), b.mask - 15 + MaskOf(n))
  }

  predicate FillsNext(b: PatternByte, shift: int) {
    (shift == 4 && b == CLEAR) || (shift == 0 && b.value % 16 == 0 && b.mask % 16 == 15)
  }

  // The two branches of the loop that change b.
  method Absorb(b: PatternByte, c: int, shift: int) returns (r: PatternByte)
    requires IsNibble(c) && FillsNext(b, shift)
    ensures r == Filled(b, NibbleOf(c), shift)
  {
    hide ClearNibble, SetNibble;
    ClearedNibble(b.mask);
    if IsWildcard(c) {
      r := PatternByte(b.value, ClearNibble(b.mask, shift));
    } else {
      NibbleSet(b.value, HexChToInt(c));
      r := PatternByte(SetNibble(b.value, HexChToInt(c), shift), b.mask);
    }
  }

  lemma ProgressStep(ns: seq<Nibble>, compiled: seq<PatternByte>, b: PatternByte, shift: int, n: Nibble)
    requires Progress(ns, compiled, b, shift)
    ensures FillsNext(b, shift)
    ensures if shift == 0 then Progress(ns + [n], compiled + [Filled(b, n, shift)], CLEAR, 4)
            else Progress(ns + [n], compiled, Filled(b, n, shift), 0)
  {
    OneMore(ns, n);
  }

  // Before the first character, and after the last.
  lemma ProgressEnds(ns: seq<Nibble>, compiled: seq<PatternByte>, b: PatternByte, shift: int)
    ensures Progress([], [], CLEAR, 4)
    ensures Progress(ns, compiled, b, shift) ==>
      Compiled(ns) == (if shift == 0 then compiled + [PatternByte(b.value, b.mask % 16)] else compiled)
  {
  }

  // compile_pattern
  method CompilePattern(pattern: seq<int>) returns (compiled: seq<PatternByte>)
    requires 0 in pattern
    ensures compiled == Compiled(Nibbles(CText(pattern)))
  {
    hide Progress, Filled, FillsNext, Compiled, Pairs, NibbleOf, IsNibble;
    compiled := [];
    var b, shift, i := CLEAR, 4, 0;
    ghost var text := CText(pattern);
    ProgressEnds(Nibbles(text[..0]), compiled, b, shift);
    while pattern[i] != 0
      invariant 0 <= i <= |text|
      invariant Progress(Nibbles(text[..i]), compiled, b, shift)
      decreases |text| - i
    {
      var c := pattern[i];
      i := i + 1;
      assert text[..i] == text[..i - 1] + [c];
      NibblesOfOneMore(text[..i - 1], c);
      if !IsNibble(c) {
        assert Nibbles(text[..i]) == Nibbles(text[..i - 1]);
        continue;
      }
      ProgressStep(Nibbles(text[..i - 1]), compiled, b, shift, NibbleOf(c));
      b := Absorb(b, c, shift);
      if shift == 0 {
        compiled := compiled + [b];
        b := CLEAR;
      }
      shift := if shift == 0 then 4 else 0;
    }
    assert text[..i] == text;
    ProgressEnds(Nibbles(text), compiled, b, shift);
    if shift == 0 {
      b := PatternByte(b.value, LowNibble(b.mask));
      compiled := compiled + [b];
    }
  }

  // mask & 0xf
  function LowNibble(mask: byte): (r: byte)
    ensures r == mask % 16
  {
    MaskedBy(mask, 15);
    And(mask, 0xf)
  }

  lemma OneMore(ns: seq<Nibble>, c: Nibble)
    ensures Pairs(ns + [c]) == Pairs(ns) + (if |ns| % 2 == 1 then [Pair(ns[|ns| - 1], c)] else [])
  {
  }

  // mask & ~(0xf << shift)
  function ClearNibble(mask: int, shift: nat): int { And(mask, -1 - 15 * Pow2(shift)) }

  // value | (num & 0xf) << shift
  function SetNibble(value: int, num: int, shift: nat): int { Or(value, And(num, 0xf) * Pow2(shift)) }

  lemma ClearedNibble(mask: byte)
    ensures ClearNibble(255, 4) == 15
    ensures mask % 16 == 15 ==> ClearNibble(mask, 0) == mask - 15
  {
    NibblePowers();
    AndHighMask(mask, 4);
    assert And(255, -241) == 15;
  }

  lemma NibbleSet(value: byte, num: int)
    requires 0 <= num < 16
    ensures SetNibble(0, num, 4) == 16 * num
    ensures value % 16 == 0 ==> SetNibble(value, num, 0) == value + num
  {
    hide And, Or;
    NibblePowers();
    AndLowMask(num, 4);
    OrDisjoint(value / 16, num, 4);
    OrZero(num * 16);
  }

  // ---------- what a text denotes, character by character

  // Hex digits in both cases, the two wildcards, and nothing else.
  lemma NibbleCharacters(n: nat, ch: int)
    requires n < 16
    ensures var upper := if n < 10 then '0' as int + n else 'A' as int + n - 10;
      IsNibble(upper) && NibbleOf(upper) == Exactly(n)
    ensures var lower := if n < 10 then '0' as int + n else 'a' as int + n - 10;
      IsNibble(lower) && NibbleOf(lower) == Exactly(n)
    ensures IsNibble('?' as int) && NibbleOf('?' as int) == Any && IsNibble('.' as int) && NibbleOf('.' as int) == Any
    ensures IsNibble(ch) ==>
      (ch == '?' as int || ch == '.' as int || '0' as int <= ch <= '9' as int
       || 'A' as int <= ch <= 'F' as int || 'a' as int <= ch <= 'f' as int)
  {
  }

  // A text is read one character after the other.
  lemma {:induction false} NibblesOfConcatenation(a: seq<int>, b: seq<int>)
    ensures Nibbles([]) == []
    ensures Nibbles(a + b) == Nibbles(a) + Nibbles(b)
    decreases |b|
  {
    hide IsNibble, NibbleOf;
    if b == [] {
      assert a + b == a;
    } else {
      var front := b[..|b| - 1];
      assert a + b == (a + front) + [b[|b| - 1]];
      assert b == front + [b[|b| - 1]];
      NibblesOfConcatenation(a, front);
      NibblesOfOneMore(a + front, b[|b| - 1]);
      NibblesOfOneMore(front, b[|b| - 1]);
    }
  }

  // The entry of two nibbles and of one, the high nibble first.
  lemma CompiledEntries(high: Nibble, low: Nibble)
    ensures Compiled([]) == []
    ensures high.Exactly? && low.Exactly? ==> Compiled([high, low]) == [PatternByte(16 * high.n + low.n, 0xff)]
    ensures high.Exactly? && low.Any? ==> Compiled([high, low]) == [PatternByte(16 * high.n, 0xf0)]
    ensures high.Any? && low.Exactly? ==> Compiled([high, low]) == [PatternByte(low.n, 0x0f)]
    ensures high.Any? && low.Any? ==> Compiled([high, low]) == [PatternByte(0, 0)]
    ensures Compiled([high]) == [PatternByte(if high.Exactly? then 16 * high.n else 0, 0x0f)]
  {
  }

  lemma CompiledConcatenation(ns: seq<Nibble>, ms: seq<Nibble>)
    requires |ns| % 2 == 0
    ensures Compiled(ns + ms) == Compiled(ns) + Compiled(ms)
  {
    hide Pair, Half;
    var h, cp := |ns| / 2, Compiled(ns + ms);
    forall k | 0 <= k < |ms| / 2
      ensures Pairs(ns + ms)[h + k] == Pairs(ms)[k]
    {
      assert (ns + ms)[2 * (h + k)] == ms[2 * k] && (ns + ms)[2 * (h + k) + 1] == ms[2 * k + 1];
    }
    assert Pairs(ns + ms) == Pairs(ns) + Pairs(ms);
  }

  // "48 8B" in either case.
  lemma CompiledExample()
    ensures Compiled(Nibbles(['8' as int, 'B' as int])) == [PatternByte(0x8b, 0xff)]
    ensures Compiled(Nibbles(['8' as int, 'b' as int])) == [PatternByte(0x8b, 0xff)]
    ensures Compiled(Nibbles(['4' as int, '8' as int, ' ' as int, '8' as int, 'B' as int]))
      == [PatternByte(0x48, 0xff), PatternByte(0x8b, 0xff)]
  {
    hide Compiled, Nibbles;
    TextOfTwo('8' as int, 'B' as int);
    TextOfTwo('8' as int, 'b' as int);
    TextOfTwo('4' as int, '8' as int);
    NibblesOfOneMore([], ' ' as int);
    var first, space, second := ['4' as int, '8' as int], [' ' as int], ['8' as int, 'B' as int];
    assert [] + space == space;
    NibblesOfConcatenation(first, space);
    NibblesOfConcatenation(first + space, second);
    assert first + space + second == ['4' as int, '8' as int, ' ' as int, '8' as int, 'B' as int];
    CompiledEntries(Exactly(4), Exactly(8));
    CompiledEntries(Exactly(8), Exactly(11));
    CompiledConcatenation([Exactly(4), Exactly(8)], [Exactly(8), Exactly(11)]);
    assert Nibbles(first) + Nibbles(space) + Nibbles(second) == [Exactly(4), Exactly(8)] + [Exactly(8), Exactly(11)];
  }

  lemma TextOfTwo(c: int, d: int)
    requires IsNibble(c) && IsNibble(d)
    ensures Nibbles([c, d]) == [NibbleOf(c), NibbleOf(d)] && Nibbles([]) == []
  {
    NibblesOfOneMore([], c);
    NibblesOfOneMore([c], d);
    assert [] + [c] == [c] && [c] + [d] == [c, d];
  }

  // ---------- what an entry matches

  // The mask says which halves of the byte are compared.
  lemma MatchedHalves(v: byte, x: byte)
    ensures Matches(PatternByte(v, 0xff), x) <==> x == v
    ensures Matches(PatternByte(v, 0xf0), x) <==> x / 16 == v / 16
    ensures Matches(PatternByte(v, 0x0f), x) <==> x % 16 == v % 16
    ensures Matches(PatternByte(v, 0), x)
  {
    hide And;
    forall y: byte
      ensures And(y, 0xff) == y && And(y, 0xf0) == y - y % 16 && And(y, 0x0f) == y % 16 && And(y, 0) == 0
    {
      MaskedBy(y, 0xff);
      MaskedBy(y, 0xf0);
      MaskedBy(y, 0x0f);
      MaskedBy(y, 0);
    }
  }

  lemma PairMatches(high: Nibble, low: Nibble, x: byte)
    ensures Matches(Pair(high, low), x) <==> Allows(high, x / 16) && Allows(low, x % 16)
  {
    hide And;
    var b := Pair(high, low);
    MaskedBy(x, b.mask);
    MaskedBy(b.value, b.mask);
  }

  // The high nibble of a half entry is not looked at, and the low nibble must be 0.
  lemma HalfMatches(high: Nibble, x: byte)
    ensures Matches(Half(high), x) <==> x % 16 == 0
  {
    hide And;
    MaskedBy(x, 15);
    MaskedBy(Half(high).value, 15);
  }

  lemma MaskedBy(x: byte, mask: byte)
    requires mask == 0 || mask == 15 || mask == 240 || mask == 255
    ensures And(x, mask) ==
      if mask == 0 then 0 else if mask == 15 then x % 16 else if mask == 240 then x - x % 16 else x
  {
    hide And, Pow2;
    NibblePowers();
    AndZero(x);
    AndLowMask(x, 4);
    AndLowMask(x, 8);
    AndHighMaskInWord(x, 8, 4);
  }

  lemma NibblePowers()
    ensures Pow2(0) == 1 && Pow2(4) == 16 && Pow2(8) == 256
  {
  }

  // ---------- searching

  // Nibble number k of the data from position p on.
  function DataNibble(data: seq<byte>, p: nat, k: nat): int
    requires p + k / 2 < |data|
  {
    if k % 2 == 0 then data[p + k / 2] / 16 else data[p + k / 2] % 16
  }

  predicate MatchesAt(data: seq<byte>, p: nat, cp: seq<PatternByte>) {
    p + |cp| <= |data| && forall k :: 0 <= k < |cp| ==> Matches(cp[k], data[p + k])
  }

  // The text's constraints hold at p: every nibble of a complete pair, and for a
  // nibble left over only that the low half of its byte is zero.
  predicate SatisfiedAt(data: seq<byte>, p: nat, ns: seq<Nibble>) {
    && p + (|ns| + 1) / 2 <= |data|
    && (forall k :: 0 <= k < |ns| / 2 * 2 ==> Allows(ns[k], DataNibble(data, p, k)))
    && (|ns| % 2 == 1 ==> data[p + |ns| / 2] % 16 == 0)
  }

  lemma MatchesAreConstraints(data: seq<byte>, p: nat, ns: seq<Nibble>)
    ensures MatchesAt(data, p, Compiled(ns)) <==> SatisfiedAt(data, p, ns)
  {
    hide Matches, Allows;
    var cp, n := Compiled(ns), |ns| / 2;
    if p + |cp| <= |data| {
      forall k | 0 <= k < n
        ensures Matches(cp[k], data[p + k]) <==>
          Allows(ns[2 * k], DataNibble(data, p, 2 * k)) && Allows(ns[2 * k + 1], DataNibble(data, p, 2 * k + 1))
      {
        PairMatches(ns[2 * k], ns[2 * k + 1], data[p + k]);
      }
      if |ns| % 2 == 1 {
        HalfMatches(ns[|ns| - 1], data[p + n]);
        assert cp[n] == Half(ns[|ns| - 1]);
      }
      if MatchesAt(data, p, cp) {
        forall j | 0 <= j < n * 2
          ensures Allows(ns[j], DataNibble(data, p, j))
        {
          assert Matches(cp[j / 2], data[p + j / 2]);
        }
      }
    }
  }

  // std::search: the first position from p on at which the entries match, or the end.
  function StdSearch(data: seq<byte>, cp: seq<PatternByte>, p: nat): (it: nat)
    requires p <= |data|
    decreases |data| - p
  {
    if p + |cp| > |data| then |data|
    else if MatchesAt(data, p, cp) then p
    else StdSearch(data, cp, p + 1)
  }

  // pattern_searcher::operator() on the range [0, |data|)
  function Search(data: seq<byte>, cp: seq<PatternByte>): (nat, nat) {
    var last := |data|;
    if last == 0 then (last, last)
    else if cp == [] then (0, 0)
    else
      var it := StdSearch(data, cp, 0);
      if it == last then (last, last) else (it, it + |cp|)
  }

  lemma {:induction false} StdSearchIsLeftmost(data: seq<byte>, cp: seq<PatternByte>, p: nat)
    requires p <= |data| && cp != []
    ensures var it := StdSearch(data, cp, p);
      && p <= it <= |data|
      && (it < |data| ==> MatchesAt(data, it, cp))
      && forall q :: p <= q < it ==> !MatchesAt(data, q, cp)
    decreases |data| - p
  {
    if p + |cp| <= |data| && !MatchesAt(data, p, cp) {
      StdSearchIsLeftmost(data, cp, p + 1);
    }
  }

  // A text with at least one constraint is found at the leftmost place that
  // satisfies it, or nowhere exactly when there is no such place.
  lemma SearchIsLeftmost(data: seq<byte>, ns: seq<Nibble>)
    requires ns != []
    ensures var (it, end) := Search(data, Compiled(ns));
      if exists p: nat :: SatisfiedAt(data, p, ns) then
        && SatisfiedAt(data, it, ns) && end == it + (|ns| + 1) / 2
        && forall q: nat :: q < it ==> !SatisfiedAt(data, q, ns)
      else it == end == |data|
  {
    var cp := Compiled(ns);
    forall p: nat
      ensures MatchesAt(data, p, cp) <==> SatisfiedAt(data, p, ns)
    {
      MatchesAreConstraints(data, p, ns);
    }
    StdSearchIsLeftmost(data, cp, 0);
  }

  // Every nibble the text denotes holds at p: what a pattern is read as saying.
  predicate ObeyedAt(data: seq<byte>, p: nat, ns: seq<Nibble>) {
    && p + (|ns| + 1) / 2 <= |data|
    && forall k :: 0 <= k < |ns| ==> Allows(ns[k], DataNibble(data, p, k))
  }

  // What two nibbles ask of a byte, the high one first, and that pairs are asked
  // of one byte after the other.
  lemma ObeyedBytes(data: seq<byte>, p: nat, h: nat, l: nat)
    requires h < 16 && l < 16
    ensures ObeyedAt(data, p, [Exactly(h), Exactly(l)]) <==> p < |data| && data[p] == 16 * h + l
    ensures ObeyedAt(data, p, [Exactly(h), Any]) <==> p < |data| && data[p] / 16 == h
    ensures ObeyedAt(data, p, [Any, Exactly(l)]) <==> p < |data| && data[p] % 16 == l
    ensures ObeyedAt(data, p, [Any, Any]) <==> p < |data|
    ensures ObeyedAt(data, p, [Exactly(h)]) <==> p < |data| && data[p] / 16 == h
    ensures ObeyedAt(data, p, [Any]) <==> p < |data|
    ensures ObeyedAt(data, p, []) <==> p <= |data|
  {
    ObeyedPair(data, p, Exactly(h), Exactly(l));
    ObeyedPair(data, p, Exactly(h), Any);
    ObeyedPair(data, p, Any, Exactly(l));
    ObeyedPair(data, p, Any, Any);
  }

  lemma ObeyedPair(data: seq<byte>, p: nat, high: Nibble, low: Nibble)
    ensures ObeyedAt(data, p, [high, low]) <==> p < |data| && Allows(high, data[p] / 16) && Allows(low, data[p] % 16)
    ensures ObeyedAt(data, p, [high]) <==> p < |data| && Allows(high, data[p] / 16)
  {
    hide Allows;
    var ns := [high, low];
    if p < |data| {
      assert DataNibble(data, p, 0) == data[p] / 16 && DataNibble(data, p, 1) == data[p] % 16;
      assert ns[0] == high && ns[1] == low;
    }
  }

  lemma ObeyedConcatenation(data: seq<byte>, p: nat, ns: seq<Nibble>, ms: seq<Nibble>)
    requires |ns| % 2 == 0
    ensures ObeyedAt(data, p, ns + ms) <==> ObeyedAt(data, p, ns) && ObeyedAt(data, p + |ns| / 2, ms)
  {
    hide DataNibble, Allows;
    var all, n := ns + ms, |ns|;
    if p + (|all| + 1) / 2 <= |data| {
      if ObeyedAt(data, p, all) {
        forall k | 0 <= k < n
          ensures Allows(ns[k], DataNibble(data, p, k))
        {
          assert all[k] == ns[k];
        }
        forall k | 0 <= k < |ms|
          ensures Allows(ms[k], DataNibble(data, p + n / 2, k))
        {
          LaterNibble(data, p, n, k);
          assert all[n + k] == ms[k];
        }
      } else {
        var k :| 0 <= k < |all| && !Allows(all[k], DataNibble(data, p, k));
        if k >= n {
          LaterNibble(data, p, n, k - n);
          assert all[k] == ms[k - n];
        }
      }
    }
  }

  lemma LaterNibble(data: seq<byte>, p: nat, n: nat, k: nat)
    requires n % 2 == 0 && p + n / 2 + k / 2 < |data|
    ensures p + (n + k) / 2 < |data| && DataNibble(data, p, n + k) == DataNibble(data, p + n / 2, k)
  {
  }

  // The search answers with the leftmost place at which every nibble holds, or
  // with the end exactly when there is none.
  ghost predicate FindsLeftmostObeyed(data: seq<byte>, ns: seq<Nibble>) {
    var (it, end) := Search(data, Compiled(ns));
    if exists p: nat :: ObeyedAt(data, p, ns) then
      && ObeyedAt(data, it, ns) && end == it + (|ns| + 1) / 2
      && forall q: nat :: q < it ==> !ObeyedAt(data, q, ns)
    else it == end == |data|
  }

  lemma SatisfiedIsObeyed(data: seq<byte>, p: nat, ns: seq<Nibble>)
    requires |ns| % 2 == 0
    ensures SatisfiedAt(data, p, ns) <==> ObeyedAt(data, p, ns)
  {
    hide Allows;
  }

  // Bytes with the nibbles ns, and 1 in the low half of a last byte that has
  // only one of them.
  function MissedBytes(ns: seq<Nibble>): (data: seq<byte>)
    ensures |data| == (|ns| + 1) / 2
  {
    seq((|ns| + 1) / 2, j requires 0 <= j < (|ns| + 1) / 2 => MissedByte(ns, j))
  }

  function MissedByte(ns: seq<Nibble>, j: nat): (x: byte)
    requires 2 * j < |ns|
    ensures x / 16 == ValueOf(ns[2 * j])
    ensures x % 16 == if 2 * j + 1 < |ns| then ValueOf(ns[2 * j + 1]) else 1
  {
    16 * ValueOf(ns[2 * j]) + (if 2 * j + 1 < |ns| then ValueOf(ns[2 * j + 1]) else 1)
  }

  // Whatever an odd number of nibbles says, there are bytes that obey it from
  // the start and are not found.
  lemma OddIsMissed(ns: seq<Nibble>)
    requires |ns| % 2 == 1
    ensures var data := MissedBytes(ns);
      ObeyedAt(data, 0, ns) && !MatchesAt(data, 0, Compiled(ns)) && Search(data, Compiled(ns)) == (|data|, |data|)
  {
    hide Matches, Compiled, MissedBytes, DataNibble;
    var data := MissedBytes(ns);
    MissedNibbles(ns);
    MatchesAreConstraints(data, 0, ns);
    CompiledLength(ns);
    StdSearchIsLeftmost(data, Compiled(ns), 0);
  }

  lemma MissedNibbles(ns: seq<Nibble>)
    requires |ns| % 2 == 1
    ensures var data := MissedBytes(ns);
      (forall k :: 0 <= k < |ns| ==> DataNibble(data, 0, k) == ValueOf(ns[k])) && data[|ns| / 2] % 16 == 1
  {
    hide ValueOf, MissedByte;
    var data := MissedBytes(ns);
    forall k | 0 <= k < |ns|
      ensures DataNibble(data, 0, k) == ValueOf(ns[k])
    {
      assert data[k / 2] == MissedByte(ns, k / 2);
      assert k == 2 * (k / 2) + k % 2;
    }
    assert data[|ns| / 2] == MissedByte(ns, |ns| / 2);
  }

  lemma CompiledLength(ns: seq<Nibble>)
    ensures |Compiled(ns)| == (|ns| + 1) / 2
  {
  }

  // The entries of a text test what it says if and only if it has an even
  // number of nibbles.
  lemma MatchesObeyedIffEven(ns: seq<Nibble>)
    ensures (forall data: seq<byte>, p: nat :: MatchesAt(data, p, Compiled(ns)) <==> ObeyedAt(data, p, ns))
      <==> |ns| % 2 == 0
  {
    hide MatchesAt, ObeyedAt, SatisfiedAt, Compiled;
    if |ns| % 2 == 0 {
      forall data: seq<byte>, p: nat
        ensures MatchesAt(data, p, Compiled(ns)) <==> ObeyedAt(data, p, ns)
      {
        MatchesAreConstraints(data, p, ns);
        SatisfiedIsObeyed(data, p, ns);
      }
    } else {
      OddIsMissed(ns);
    }
  }

  // So does the search, for every range of bytes and the empty text as well.
  lemma SearchObeysIffEven(ns: seq<Nibble>)
    ensures (forall data: seq<byte> :: FindsLeftmostObeyed(data, ns)) <==> |ns| % 2 == 0
  {
    hide FindsLeftmostObeyed;
    if |ns| % 2 == 0 {
      forall data: seq<byte>
        ensures FindsLeftmostObeyed(data, ns)
      {
        EvenSearchObeys(data, ns);
      }
    } else {
      OddSearchFails(ns);
    }
  }

  lemma OddSearchFails(ns: seq<Nibble>)
    requires |ns| % 2 == 1
    ensures !FindsLeftmostObeyed(MissedBytes(ns), ns)
  {
    hide Search, MissedBytes, Compiled, Allows;
    OddIsMissed(ns);
  }

  lemma EvenSearchObeys(data: seq<byte>, ns: seq<Nibble>)
    requires |ns| % 2 == 0
    ensures FindsLeftmostObeyed(data, ns)
  {
    if ns == [] {
      assert ObeyedAt(data, 0, ns);
    } else {
      hide ObeyedAt, SatisfiedAt, Search, Compiled;
      SearchIsLeftmost(data, ns);
      forall p: nat
        ensures SatisfiedAt(data, p, ns) <==> ObeyedAt(data, p, ns)
      {
        SatisfiedIsObeyed(data, p, ns);
      }
    }
  }

  // The two results that need no search: an empty range is answered first.
  lemma EmptySearches(data: seq<byte>, cp: seq<PatternByte>)
    ensures data == [] ==> Search(data, cp) == (0, 0)
    ensures data != [] ==> (Search(data, cp) == (0, 0) <==> cp == [])
  {
    if cp != [] {
      StdSearchIsLeftmost(data, cp, 0);
    }
  }

  // ---------- printing and recompiling

  function PrintNibble(value: int, mask: int): int
    requires 0 <= value < 16
  {
    if mask == 0 then '?' as int else if value < 10 then '0' as int + value else 'a' as int + value - 10
  }

  function PrintEntry(b: PatternByte): seq<int> {
    [PrintNibble(b.value / 16, b.mask / 16), PrintNibble(b.value % 16, b.mask % 16)]
  }

  function Print(cp: seq<PatternByte>): seq<int> {
    if cp == [] then [] else Print(cp[..|cp| - 1]) + PrintEntry(cp[|cp| - 1])
  }

  // An entry with whole nibbles for a mask, and nothing in the value where the mask is clear.
  predicate IsPair(b: PatternByte) {
    && (b.mask / 16 == 15 || (b.mask / 16 == 0 && b.value / 16 == 0))
    && (b.mask % 16 == 15 || (b.mask % 16 == 0 && b.value % 16 == 0))
  }

  lemma PrintedEntry(b: PatternByte)
    requires IsPair(b)
    ensures var cs := PrintEntry(b);
      && IsNibble(cs[0]) && IsNibble(cs[1]) && 0 !in cs
      && Pair(NibbleOf(cs[0]), NibbleOf(cs[1])) == b
  {
  }

  // Recompiling a printed vector gives the vector back.
  lemma {:induction false} RecompiledPrint(cp: seq<PatternByte>)
    requires forall b :: b in cp ==> IsPair(b)
    ensures |Nibbles(Print(cp))| == 2 * |cp| && Compiled(Nibbles(Print(cp))) == cp
  {
    if cp != [] {
      var n := |cp| - 1;
      RecompiledPrint(cp[..n]);
      RecompiledOneMore(cp[..n], cp[n]);
      assert cp[..n] + [cp[n]] == cp;
    }
  }

  lemma RecompiledOneMore(front: seq<PatternByte>, b: PatternByte)
    requires IsPair(b)
    requires |Nibbles(Print(front))| == 2 * |front| && Compiled(Nibbles(Print(front))) == front
    ensures |Nibbles(Print(front + [b]))| == 2 * |front + [b]|
    ensures Compiled(Nibbles(Print(front + [b]))) == front + [b]
  {
    hide Compiled, Nibbles, IsPair, PrintEntry, IsNibble, NibbleOf;
    assert (front + [b])[..|front + [b]| - 1] == front;
    NibblesOfEntry(Print(front), b);
    CompiledOneMore(Nibbles(Print(front)), b);
  }

  // The two constraints of a printed entry.
  function EntryNibbles(b: PatternByte): seq<Nibble>
    requires IsPair(b)
  {
    PrintedEntry(b);
    [NibbleOf(PrintEntry(b)[0]), NibbleOf(PrintEntry(b)[1])]
  }

  lemma NibblesOfEntry(front: seq<int>, b: PatternByte)
    requires IsPair(b)
    ensures Nibbles(front + PrintEntry(b)) == Nibbles(front) + EntryNibbles(b)
  {
    hide Nibbles, IsNibble, NibbleOf;
    PrintedEntry(b);
    var cs := PrintEntry(b);
    assert front + cs == front + [cs[0]] + [cs[1]];
    NibblesOfOneMore(front, cs[0]);
    NibblesOfOneMore(front + [cs[0]], cs[1]);
  }

  lemma CompiledOneMore(ns: seq<Nibble>, b: PatternByte)
    requires IsPair(b) && |ns| % 2 == 0
    ensures Compiled(ns + EntryNibbles(b)) == Compiled(ns) + [b]
  {
    hide Pairs, Pair, IsNibble, NibbleOf, IsPair;
    PrintedEntry(b);
    var high, low := EntryNibbles(b)[0], EntryNibbles(b)[1];
    assert ns + EntryNibbles(b) == ns + [high] + [low];
    OneMore(ns, high);
    OneMore(ns + [high], low);
  }

  lemma NibblesOfOneMore(text: seq<int>, c: int)
    ensures Nibbles(text + [c]) == Nibbles(text) + (if IsNibble(c) then [NibbleOf(c)] else [])
  {
    assert (text + [c])[..|text + [c]| - 1] == text;
  }

  // The printed form of a nibble and of a byte, the high nibble first.
  lemma PrintedCharacters(n: nat, v: byte)
    requires n < 16
    ensures PrintNibble(n, 15) == (if n < 10 then '0' as int + n else 'a' as int + n - 10)
    ensures PrintNibble(n, 0) == '?' as int
    ensures Print([PatternByte(v, 0xff)]) == [PrintNibble(v / 16, 15), PrintNibble(v % 16, 15)]
    ensures Print([PatternByte(v, 0xf0)]) == [PrintNibble(v / 16, 15), '?' as int]
    ensures Print([PatternByte(v, 0x0f)]) == ['?' as int, PrintNibble(v % 16, 15)]
    ensures Print([PatternByte(v, 0)]) == ['?' as int, '?' as int]
  {
    forall b: PatternByte
      ensures Print([b]) == PrintEntry(b)
    {
      assert [b][..0] == [];
    }
  }

  // A text in the printer's own form: other characters dropped, '?' for '.', lower-case digits.
  function Normalised(text: seq<int>): seq<int> {
    if text == [] then []
    else
      var last := text[|text| - 1];
      Normalised(text[..|text| - 1]) + (if IsNibble(last) then [NormalChar(last)] else [])
  }

  function NormalChar(ch: int): int {
    if ch == '.' as int then '?' as int
    else if 'A' as int <= ch <= 'F' as int then ch - 'A' as int + 'a' as int
    else ch
  }

  lemma PrintOfNibble(ch: int)
    requires IsNibble(ch)
    ensures var c := NibbleOf(ch); PrintNibble(ValueOf(c), MaskOf(c)) == NormalChar(ch)
  {
  }

  // The printed constraints: the pairs, and a nibble left over.
  function Printed(ns: seq<Nibble>): seq<int> {
    Print(Pairs(ns)) + (if |ns| % 2 == 1 then [PrintConstraint(ns[|ns| - 1])] else [])
  }

  function PrintConstraint(c: Nibble): int { PrintNibble(ValueOf(c), MaskOf(c)) }

  lemma PrintedOneMore(ns: seq<Nibble>, c: Nibble)
    ensures Printed(ns + [c]) == Printed(ns) + [PrintConstraint(c)]
  {
    hide Pairs, Pair, PrintNibble;
    OneMore(ns, c);
    if |ns| % 2 == 1 {
      PrintOneMore(Pairs(ns), ns[|ns| - 1], c);
    } else {
      assert Pairs(ns) + [] == Pairs(ns);
    }
  }

  lemma PrintOneMore(cp: seq<PatternByte>, high: Nibble, low: Nibble)
    ensures Print(cp + [Pair(high, low)]) == Print(cp) + [PrintConstraint(high), PrintConstraint(low)]
  {
    var b := Pair(high, low);
    assert (cp + [b])[..|cp + [b]| - 1] == cp;
  }

  lemma {:induction false} PrintedIsNormalised(text: seq<int>)
    ensures Printed(Nibbles(text)) == Normalised(text)
  {
    if text != [] {
      var n := |text| - 1;
      PrintedIsNormalised(text[..n]);
      if IsNibble(text[n]) {
        hide Printed;
        PrintOfNibble(text[n]);
        PrintedOneMore(Nibbles(text[..n]), NibbleOf(text[n]));
      } else {
        assert Nibbles(text) == Nibbles(text[..n]);
      }
    }
  }

  // Printing what a text with an even number of nibbles compiles to gives the normalised text.
  lemma PrintOfCompiled(text: seq<int>)
    requires |Nibbles(text)| % 2 == 0
    ensures Print(Compiled(Nibbles(text))) == Normalised(text)
  {
    PrintedIsNormalised(text);
    assert Compiled(Nibbles(text)) == Pairs(Nibbles(text));
  }

  // Compiling, printing and compiling again changes nothing, except the unused
  // high half of an entry made from a single nibble.
  lemma PrintRoundTrip(text: seq<int>)
    ensures var ns := Nibbles(text);
      Compiled(Nibbles(Print(Compiled(ns)))) == Compiled(ns) <==> (|ns| % 2 == 1 ==> ValueOf(ns[|ns| - 1]) == 0)
  {
    hide Nibbles, Pairs, Half, IsPair;
    var ns := Nibbles(text);
    PairsArePairs(ns);
    if |ns| % 2 == 0 {
      assert Compiled(ns) == Pairs(ns);
      RecompiledPrint(Pairs(ns));
    } else {
      var high := ns[|ns| - 1];
      PrintOfHalf(Pairs(ns), high);
      SameHalf(Pairs(ns), high);
    }
  }

  lemma PairsArePairs(ns: seq<Nibble>)
    ensures forall b :: b in Pairs(ns) ==> IsPair(b)
  {
  }

  lemma SameHalf(pairs: seq<PatternByte>, high: Nibble)
    ensures pairs + [PatternByte(0, 15)] == pairs + [Half(high)] <==> ValueOf(high) == 0
  {
    var a, b := pairs + [PatternByte(0, 15)], pairs + [Half(high)];
    assert a[|pairs|] == PatternByte(0, 15) && b[|pairs|] == Half(high);
  }

  // The text "1" compiles to an entry that prints as "?0", so its digit is lost.
  lemma PrintRoundTripExample()
    ensures var cp := Compiled(Nibbles(['1' as int]));
      cp == [PatternByte(16, 15)] && Compiled(Nibbles(Print(cp))) == [PatternByte(0, 15)]
  {
    assert Nibbles(['1' as int]) == [Exactly(1)];
    PrintOfHalf([], Exactly(1));
    assert [] + [Half(Exactly(1))] == [Half(Exactly(1))];
    assert [] + [PatternByte(0, 15)] == [PatternByte(0, 15)];
  }

  lemma PrintOfHalf(pairs: seq<PatternByte>, high: Nibble)
    requires forall b :: b in pairs ==> IsPair(b)
    ensures Compiled(Nibbles(Print(pairs + [Half(high)]))) == pairs + [PatternByte(0, 15)]
  {
    hide Nibbles, Compiled;
    var half, again := Half(high), PatternByte(0, 15);
    assert (pairs + [half])[..|pairs|] == pairs == (pairs + [again])[..|pairs|];
    assert PrintEntry(half) == PrintEntry(again);
    RecompiledPrint(pairs + [again]);
  }

  // Read as a constraint on the high nibble, a left-over nibble is never obeyed.
  lemma HalfIsNotTheHighNibble(high: Nibble) returns (x: byte)
    ensures Allows(high, x / 16) && !Matches(Half(high), x)
  {
    x := 16 * ValueOf(high) + 1;
    HalfMatches(high, x);
  }
}
