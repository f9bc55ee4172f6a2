// SafeInt<T>::SafeTtoI, the decimal parser behind SafeAtoI and SafeWtoI.
module SafeIntParse {
  import opened CString
  import opened Wrappers
  import opened CxxInt
  import opened SafeIntBase
  import opened SafeIntClass

  const PLUS := 43
  const MINUS := 45
  const DIGIT_0 := 48
  const DIGIT_9 := 57

  // ---------- the integer a text denotes

  predicate IsDigit(c: int) { DIGIT_0 <= c <= DIGIT_9 }

  predicate AllDigits(s: seq<int>) { forall i :: 0 <= i < |s| ==> IsDigit(s[i]) }

  // The longest prefix that consists of digits.
  function DigitPrefix(s: seq<int>): (ds: seq<int>)
    ensures AllDigits(ds)
  {
    if s == [] || !IsDigit(s[0]) then [] else [s[0]] + DigitPrefix(s[1..])
  }

  // The value of a sequence of digits.
  function Decimal(ds: seq<int>): int {
    if ds == [] then 0 else 10 * Decimal(ds[..|ds| - 1]) + (ds[|ds| - 1] - DIGIT_0)
  }

  predicate HasSign(text: seq<int>) { text != [] && (text[0] == PLUS || text[0] == MINUS) }

  function Signed(negative: bool, magnitude: int): int { if negative then -magnitude else magnitude }

  // An optional sign and the longest digit prefix after it.
  function ParsedValue(text: seq<int>): int {
    Signed(text != [] && text[0] == MINUS, Decimal(DigitPrefix(if HasSign(text) then text[1..] else text)))
  }

  lemma {:induction false} DecimalGrows(a: seq<int>, b: seq<int>)
    requires AllDigits(a) && AllDigits(b)
    ensures 0 <= Decimal(a) <= Decimal(a + b)
    decreases |a| + |b|
  {
    if b != [] {
      var front := b[..|b| - 1];
      assert (a + b)[..|a + b| - 1] == a + front;
      DecimalGrows(a, front);
    } else if a != [] {
      assert a + b == a;
      DecimalGrows(a[..|a| - 1], []);
      assert a[..|a| - 1] + [] == a[..|a| - 1];
    }
  }

  // A magnitude that does not fit leaves no room for a greater one.
  lemma NoRoom(t: IntType, negative: bool, x: int, y: int)
    requires 0 <= x <= y && !t.Holds(Signed(negative, x))
    ensures !t.Holds(Signed(negative, y))
  {
  }

  // Everything from start up to tmp is a digit.
  ghost predicate Scanned(text: seq<int>, start: nat, tmp: nat)
    requires start <= tmp <= |text|
  {
    && AllDigits(text[start..tmp])
    && DigitPrefix(text[start..]) == text[start..tmp] + DigitPrefix(text[tmp..])
  }

  lemma ScanStart(text: seq<int>, start: nat)
    requires start <= |text|
    ensures Scanned(text, start, start) && Decimal(text[start..start]) == 0
  {
  }

  lemma ScanStep(text: seq<int>, start: nat, tmp: nat)
    requires start <= tmp < |text| && Scanned(text, start, tmp) && IsDigit(text[tmp])
    ensures Scanned(text, start, tmp + 1)
    ensures Decimal(text[start..tmp + 1]) == 10 * Decimal(text[start..tmp]) + (text[tmp] - DIGIT_0)
    ensures 0 <= Decimal(text[start..tmp]) && Decimal(text[start..tmp + 1]) <= Decimal(DigitPrefix(text[start..]))
  {
    var seen, next := text[start..tmp], text[start..tmp + 1];
    assert next == seen + [text[tmp]];
    assert next[..|next| - 1] == seen;
    assert text[tmp..][1..] == text[tmp + 1..];
    DecimalGrows(seen, []);
    DecimalGrows(next, DigitPrefix(text[tmp + 1..]));
  }

  lemma ScanEnd(text: seq<int>, start: nat, tmp: nat)
    requires start <= tmp <= |text| && Scanned(text, start, tmp)
    requires tmp == |text| || !IsDigit(text[tmp])
    ensures text[start..tmp] == DigitPrefix(text[start..])
  {
    assert DigitPrefix(text[tmp..]) == [];
  }

  // ---------- the parser

  // One more digit: the number so far, of the sign given, is multiplied by ten
  // unless it is zero, and the digit is added or subtracted.
  method AppendDigit(s: SafeInt, negative: bool, digit: int) returns (err: SafeIntError)
    requires 0 <= digit <= 9
    requires if negative then s.m_int.val.n <= 0 else s.m_int.val.n >= 0
    modifies s.m_int
    ensures var T, exact := old(s.m_int.val).ty, 10 * old(s.m_int.val).n + (if negative then -digit else digit);
      if T.Holds(exact) then err == NoError && s.m_int.val == Int(T, exact) else err == ArithmeticOverflow
  {
    hide Cast, Apply;
    var T := s.m_int.val.ty;
    DigitSteps(s.m_int.val, digit);
    DigitSteps(Int(T, T.Wrap(10 * s.m_int.val.n)), digit);
    if s.m_int.val.n != 0 {
      err := s.MulAssign(Cast(T, Lit(10)));
      if !err.NoError? {
        return;
      }
    }
    if !negative {
      err := s.AddAssign(Cast(T, Lit(digit)));
    } else {
      err := s.SubAssign(Cast(T, Lit(digit)));
    }
  }

  // What the three operators do to a value.
  lemma DigitSteps(m: Int, digit: int)
    requires 0 <= digit <= 9
    ensures var by10 := Apply(m, Step(Times, Int(m.ty, 10)));
      if m.ty.Holds(10 * m.n) then by10 == Outcome(NoError, Int(m.ty, 10 * m.n))
      else by10 == Outcome(ArithmeticOverflow, m)
    ensures var plus := Apply(m, Step(Plus, Int(m.ty, digit)));
      if m.ty.Holds(m.n + digit) then plus == Outcome(NoError, Int(m.ty, m.n + digit))
      else plus.err == ArithmeticOverflow
    ensures var minus := Apply(m, Step(Minus, Int(m.ty, digit)));
      if m.ty.Holds(m.n - digit) then minus == Outcome(NoError, Int(m.ty, m.n - digit))
      else minus.err == ArithmeticOverflow
  {
  }

  // The loop over the digits, from position start on.
  method ParseDigits(s: SafeInt, negative: bool, buf: seq<int>, start: nat) returns (err: SafeIntError)
    requires 0 in buf && start <= |CText(buf)| && s.m_int.val.n == 0
    modifies s.m_int
    ensures var T, exact := old(s.m_int.val).ty, Signed(negative, Decimal(DigitPrefix(CText(buf)[start..])));
      if T.Holds(exact) then err == NoError && s.m_int.val == Int(T, exact) else err == ArithmeticOverflow
  {
    hide Decimal, DigitPrefix, CText, Scanned;
    ghost var t, text := s.m_int.val.ty, CText(buf);
    var tmp := start;
    ScanStart(text, start);
    while buf[tmp] != 0
      invariant start <= tmp <= |text| && Scanned(text, start, tmp)
      invariant s.m_int.val == Int(t, Signed(negative, Decimal(text[start..tmp])))
      decreases |text| - tmp
    {
      if buf[tmp] < DIGIT_0 || buf[tmp] > DIGIT_9 {
        break;
      }
      ScanStep(text, start, tmp);
      err := AppendDigit(s, negative, buf[tmp] - DIGIT_0);
      if !err.NoError? {
        NoRoom(t, negative, Decimal(text[start..tmp + 1]), Decimal(DigitPrefix(text[start..])));
        return;
      }
      tmp := tmp + 1;
    }
    ScanEnd(text, start, tmp);
    return NoError;
  }

  method SafeTtoI(useIntrinsics: bool, t: IntType, input: Option<seq<int>>) returns (err: SafeIntError, value: Int)
    requires input.Some? ==> 0 in input.value
    ensures if input.None? || CText(input.value) == [] then err == ArithmeticOverflow
            else if t.Holds(ParsedValue(CText(input.value)))
              then err == NoError && value == Int(t, ParsedValue(CText(input.value)))
            else err == ArithmeticOverflow
  {
    var s := new SafeInt(useIntrinsics, t);
    var negative := false;
    // bad input, or an empty string
    if input.None? || input.value[0] == 0 {
      return ArithmeticOverflow, s.m_int.val;
    }
    var tmp := 0;
    ghost var text := CText(input.value);
    assert text[0..] == text;
    if input.value[tmp] == MINUS {
      tmp := tmp + 1;
      negative := true;
    } else if input.value[tmp] == PLUS {
      tmp := tmp + 1;
    }
    err := ParseDigits(s, negative, input.value, tmp);
    value := s.m_int.val;
  }

  // ---------- what a text denotes, character by character

  predicate Decimals(ds: seq<int>) { forall i :: 0 <= i < |ds| ==> '0' as int <= ds[i] <= '9' as int }

  // No digit in front.
  predicate EndsDigits(tail: seq<int>) { tail == [] || tail[0] < '0' as int || tail[0] > '9' as int }

  // Digits are read to the first character that is none, after '+', '-' or no
  // sign. Every text is of one of these forms.
  lemma ParsedText(ds: seq<int>, tail: seq<int>)
    requires Decimals(ds) && EndsDigits(tail)
    ensures ParsedValue(['+' as int] + ds + tail) == Decimal(ds)
    ensures ParsedValue(['-' as int] + ds + tail) == -Decimal(ds)
    ensures ds != [] || tail == [] || (tail[0] != '+' as int && tail[0] != '-' as int) ==>
      ParsedValue(ds + tail) == Decimal(ds)
  {
    hide ParsedValue, Decimal, DigitPrefix;
    PrefixOfDigits(ds, tail);
    var rest := ds + tail;
    assert ['+' as int] + ds + tail == ['+' as int] + rest;
    assert ['-' as int] + ds + tail == ['-' as int] + rest;
    ParsedAfterSign(rest);
    if rest == [] || (rest[0] != '+' as int && rest[0] != '-' as int) {
      ParsedUnsigned(rest);
    }
  }

  lemma ParsedAfterSign(rest: seq<int>)
    ensures ParsedValue(['+' as int] + rest) == Decimal(DigitPrefix(rest))
    ensures ParsedValue(['-' as int] + rest) == -Decimal(DigitPrefix(rest))
  {
    hide Decimal, DigitPrefix;
    assert (['+' as int] + rest)[1..] == rest;
    assert (['-' as int] + rest)[1..] == rest;
  }

  lemma ParsedUnsigned(text: seq<int>)
    requires text == [] || (text[0] != '+' as int && text[0] != '-' as int)
    ensures ParsedValue(text) == Decimal(DigitPrefix(text))
  {
    hide Decimal, DigitPrefix;
  }

  // Decimal notation.
  lemma DecimalHorner(ds: seq<int>, d: int)
    requires 0 <= d < 10
    ensures Decimal([]) == 0
    ensures Decimal(ds + ['0' as int + d]) == 10 * Decimal(ds) + d
  {
    var more := ds + ['0' as int + d];
    assert more[..|more| - 1] == ds;
  }

  // Any text is a sign or none, digits, and a tail without a digit in front.
  lemma {:induction false} SplitText(s: seq<int>) returns (ds: seq<int>, tail: seq<int>)
    ensures s == ds + tail && Decimals(ds) && EndsDigits(tail)
  {
    if EndsDigits(s) {
      ds, tail := [], s;
    } else {
      ds, tail := SplitText(s[1..]);
      ds := [s[0]] + ds;
    }
  }

  // ---------- round trip

  function PrintNat(n: nat): (ds: seq<int>)
    ensures ds != [] && AllDigits(ds)
    ensures if n == 0 then ds == [DIGIT_0] else ds[0] != DIGIT_0
  {
    if n < 10 then [DIGIT_0 + n] else PrintNat(n / 10) + [DIGIT_0 + n % 10]
  }

  function Print(n: int): seq<int> {
    if n < 0 then [MINUS] + PrintNat(-n) else PrintNat(n)
  }

  lemma {:induction false} DecimalOfPrint(n: nat)
    ensures Decimal(PrintNat(n)) == n
  {
    var ds := PrintNat(n);
    if n < 10 {
      assert ds[..0] == [];
    } else {
      DecimalOfPrint(n / 10);
      assert ds[..|ds| - 1] == PrintNat(n / 10);
    }
  }

  lemma {:induction false} PrefixOfDigits(ds: seq<int>, tail: seq<int>)
    requires AllDigits(ds) && (tail == [] || !IsDigit(tail[0]))
    ensures DigitPrefix(ds + tail) == ds
  {
    if ds == [] {
      assert ds + tail == tail;
    } else {
      assert (ds + tail)[1..] == ds[1..] + tail;
      PrefixOfDigits(ds[1..], tail);
    }
  }

  // The print is decimal notation without leading zeros, after '-' for a
  // negative number only.
  lemma PrintedForm(n: int)
    ensures n < 0 ==> Print(n) == ['-' as int] + Print(-n)
    ensures n >= 0 ==> Decimals(Print(n)) && Decimal(Print(n)) == n
    ensures n >= 0 ==> Print(n) != [] && (Print(n)[0] == '0' as int ==> Print(n) == ['0' as int])
  {
    if n >= 0 {
      DecimalOfPrint(n);
    }
  }

  // Parsing a printed integer gives it back.
  lemma ParsePrinted(n: int)
    ensures var buf := Print(n) + [0]; CText(buf) != [] && ParsedValue(CText(buf)) == n
  {
    TextOfTerminated(Print(n));
    var digits := PrintNat(if n < 0 then -n else n);
    DecimalOfPrint(if n < 0 then -n else n);
    PrefixOfDigits(digits, []);
    assert digits + [] == digits;
    if n < 0 {
      assert Print(n)[1..] == digits;
    } else {
      assert IsDigit(digits[0]);
    }
  }

  // Every value of every type survives being printed and parsed, the least one
  // included.
  method ParseOfPrint(useIntrinsics: bool, v: Int) returns (err: SafeIntError, value: Int)
    ensures err == NoError && value == v
  {
    hide Print, ParsedValue, CText;
    ParsePrinted(v.n);
    err, value := SafeTtoI(useIntrinsics, v.ty, Some(Print(v.n) + [0]));
  }
}
