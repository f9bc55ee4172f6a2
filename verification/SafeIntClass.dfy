// The class SafeInt<T>: an integer variable updated in place by checked operators.
module SafeIntClass {
  import opened CxxInt
  import opened SafeIntBase
  import Conversion
  import Addition
  import Subtraction
  import Multiplication
  import Division
  import opened Alignment
  import Bits

  datatype Op = Plus | Minus | Times | Over | Modulo

  datatype Step = Step(op: Op, rhs: Int)

  datatype Outcome = Outcome(err: SafeIntError, m: Int)

  // ---------- what one operator does to m_int

  predicate DividesByZero(s: Step) { (s.op.Over? || s.op.Modulo?) && s.rhs.n == 0 }

  // The operator on the mathematical integers.
  function Exact(v: int, s: Step): int
    requires !DividesByZero(s)
  {
    match s.op
    case Plus => v + s.rhs.n
    case Minus => v - s.rhs.n
    case Times => v * s.rhs.n
    case Over => TruncDiv(v, s.rhs.n)
    case Modulo => TruncRem(v, s.rhs.n)
  }

  // What is left in m_int by an operator that overflows: uint64 -= negative
  // writes before it checks.
  function Leftover(m: Int, s: Step): Int {
    if m.ty == U64 && s.op.Minus? && s.rhs.n < 0 then Int(U64, U64.Wrap(m.n - s.rhs.n)) else m
  }

  function Apply(m: Int, s: Step): Outcome {
    if DividesByZero(s) then Outcome(DivideByZero, m)
    else
      var exact := if s.op.Over? then Division.Quotient(m, s.rhs) else Exact(m.n, s);
      if m.ty.Holds(exact) then Outcome(NoError, Int(m.ty, exact))
      else Outcome(ArithmeticOverflow, Leftover(m, s))
  }

  class SafeInt {
    // the build setting SAFEINT_USE_INTRINSICS
    const useIntrinsics: bool
    const m_int: IntVar

    constructor (useIntrinsics: bool, t: IntType)
      ensures this.useIntrinsics == useIntrinsics && fresh(m_int) && m_int.val == Int(t, 0)
    {
      this.useIntrinsics := useIntrinsics;
      m_int := new IntVar(Int(t, 0));
    }

    // operator =, and the constructor from any integer
    method Assign(rhs: Int) returns (err: SafeIntError)
      modifies m_int
      ensures Checked(rhs.n, old(m_int.val), err, m_int.val)
    {
      err := Conversion.SafeCast(rhs, m_int);
    }

    // operator +=
    method AddAssign(rhs: Int) returns (err: SafeIntError)
      modifies m_int
      ensures var m, exact := old(m_int.val), old(m_int.val).n + rhs.n;
        if m.ty.Holds(exact) then err == NoError && m_int.val == Int(m.ty, exact)
        else err == ArithmeticOverflow && m_int.val == m
      ensures Outcome(err, m_int.val) == Apply(old(m_int.val), Step(Plus, rhs))
    {
      err := Addition.AdditionThrow(m_int, rhs, m_int);
    }

    // operator -=
    method SubAssign(rhs: Int) returns (err: SafeIntError)
      modifies m_int
      ensures var m, exact := old(m_int.val), old(m_int.val).n - rhs.n;
        if m.ty.Holds(exact) then err == NoError && m_int.val == Int(m.ty, exact)
        else if m.ty == U64 && rhs.n < 0 then
          err == ArithmeticOverflow && m_int.val == Int(U64, exact - 0x1_0000_0000_0000_0000)
        else err == ArithmeticOverflow && m_int.val == m
      ensures Outcome(err, m_int.val) == Apply(old(m_int.val), Step(Minus, rhs))
    {
      err := Subtraction.SubtractThrow(m_int, rhs, m_int);
    }

    // operator *=
    method MulAssign(rhs: Int) returns (err: SafeIntError)
      modifies m_int
      ensures var m, exact := old(m_int.val), old(m_int.val).n * rhs.n;
        if m.ty.Holds(exact) then err == NoError && m_int.val == Int(m.ty, exact)
        else err == ArithmeticOverflow && m_int.val == m
      ensures Outcome(err, m_int.val) == Apply(old(m_int.val), Step(Times, rhs))
    {
      err := Multiplication.MultiplyThrow(useIntrinsics, m_int, rhs, m_int);
    }

    // operator /=
    method DivAssign(rhs: Int) returns (err: SafeIntError)
      modifies m_int
      ensures rhs.n == 0 ==> err == DivideByZero && m_int.val == old(m_int.val)
      ensures rhs.n != 0 ==>
        var m := old(m_int.val);
        var narrow := m.ty.signed && m.ty.size < 8 && m.n == m.ty.Min() && rhs.ty == U64;
        if narrow && rhs.n == -m.n then err == NoError && m_int.val == Int(m.ty, 0)
        else if narrow && rhs.n == 0x1_0000_0000_0000_0000 + m.n then err == NoError && m_int.val == Int(m.ty, -1)
        else if m.ty.Holds(TruncDiv(m.n, rhs.n)) then err == NoError && m_int.val == Int(m.ty, TruncDiv(m.n, rhs.n))
        else err == ArithmeticOverflow && m_int.val == m
      ensures Outcome(err, m_int.val) == Apply(old(m_int.val), Step(Over, rhs))
    {
      err := Division.DivideThrow(m_int, rhs, m_int);
    }

    // operator %=
    method ModAssign(rhs: Int) returns (err: SafeIntError)
      modifies m_int
      ensures var m := old(m_int.val);
        if rhs.n == 0 then err == DivideByZero && m_int.val == m
        else err == NoError && m_int.val.ty == m.ty && m_int.val.n == TruncRem(m.n, rhs.n)
      ensures Outcome(err, m_int.val) == Apply(old(m_int.val), Step(Modulo, rhs))
    {
      hide TruncRem;
      if rhs.n != 0 { Division.RemainderOf(m_int.val.n, rhs.n); }
      err := Division.ModulusThrow(m_int, rhs, m_int);
    }

    // The operators that return a new SafeInt<T> and leave this one alone.

    // operator +
    method Add(rhs: Int) returns (err: SafeIntError, value: Int)
      ensures CheckedResult(m_int.val.n + rhs.n, m_int.val.ty, err, value)
    {
      var ret := new IntVar(Int(m_int.val.ty, 0));
      err := Addition.AdditionThrow(m_int, rhs, ret);
      value := ret.val;
    }

    // operator -
    method Subtract(rhs: Int) returns (err: SafeIntError, value: Int)
      ensures CheckedResult(m_int.val.n - rhs.n, m_int.val.ty, err, value)
    {
      var ret := new IntVar(Int(m_int.val.ty, 0));
      err := Subtraction.SubtractThrow(m_int, rhs, ret);
      value := ret.val;
    }

    // operator *
    method Multiply(rhs: Int) returns (err: SafeIntError, value: Int)
      ensures CheckedResult(m_int.val.n * rhs.n, m_int.val.ty, err, value)
    {
      var ret := new IntVar(Int(m_int.val.ty, 0));
      err := Multiplication.MultiplyThrow(useIntrinsics, m_int, rhs, ret);
      value := ret.val;
    }

    // operator /
    method Divide(rhs: Int) returns (err: SafeIntError, value: Int)
      ensures if rhs.n == 0 then err == DivideByZero
              else CheckedResult(Division.Quotient(m_int.val, rhs), m_int.val.ty, err, value)
    {
      var ret := new IntVar(Int(m_int.val.ty, 0));
      err := Division.DivideThrow(m_int, rhs, ret);
      value := ret.val;
    }

    // operator %
    method Modulus(rhs: Int) returns (err: SafeIntError, value: Int)
      ensures if rhs.n == 0 then err == DivideByZero
              else err == NoError && value.ty == m_int.val.ty && value.n == TruncRem(m_int.val.n, rhs.n)
    {
      var ret := new IntVar(Int(m_int.val.ty, 0));
      err := Division.ModulusThrow(m_int, rhs, ret);
      value := ret.val;
    }

    // Align<bits>. Negative values and bit counts with no aligned positive value
    // are excluded by the assertion in the code. The result is written before it
    // is checked, and the check m_int <= 0 is complete.
    method Align(bits: nat) returns (err: SafeIntError)
      requires bits < ValueBits(m_int.val.ty) && m_int.val.n >= 0
      modifies m_int
      ensures var T, up := old(m_int.val).ty, RoundUp(old(m_int.val).n, Bits.Pow2(bits));
        && m_int.val == Int(T, T.Wrap(up))
        && err == if T.Holds(up) then NoError else ArithmeticOverflow
    {
      hide Bits.Pow2, RoundDown, ValueBits;
      var T := m_int.val.ty;
      WrappedIsPositive(T, m_int.val.n, bits);
      // zero is always aligned
      if m_int.val.n == 0 {
        return NoError;
      }
      m_int.val := AlignedUp(m_int.val, bits);
      if m_int.val.n <= 0 {
        return ArithmeticOverflow;
      }
      return NoError;
    }
  }

  // ---------- runs

  // A run applies operators until one fails.
  function Run(m: Int, steps: seq<Step>): Outcome
    decreases steps
  {
    if steps == [] then Outcome(NoError, m)
    else
      var o := Apply(m, steps[0]);
      if o.err.NoError? then Run(o.m, steps[1..]) else o
  }

  // A caller that applies operators to a SafeInt until one fails.
  method Perform(s: SafeInt, steps: seq<Step>) returns (err: SafeIntError)
    modifies s.m_int
    ensures Outcome(err, s.m_int.val) == Run(old(s.m_int.val), steps)
  {
    hide Apply;
    err := NoError;
    ghost var start := s.m_int.val;
    for i := 0 to |steps|
      invariant err.NoError? && Run(start, steps) == Run(s.m_int.val, steps[i..])
    {
      assert steps[i..][0] == steps[i] && steps[i..][1..] == steps[i + 1..];
      err := PerformStep(s, steps[i]);
      if !err.NoError? {
        return;
      }
    }
  }

  method PerformStep(s: SafeInt, step: Step) returns (err: SafeIntError)
    modifies s.m_int
    ensures Outcome(err, s.m_int.val) == Apply(old(s.m_int.val), step)
  {
    hide Apply;
    match step.op
    case Plus => err := s.AddAssign(step.rhs);
    case Minus => err := s.SubAssign(step.rhs);
    case Times => err := s.MulAssign(step.rhs);
    case Over => err := s.DivAssign(step.rhs);
    case Modulo => err := s.ModAssign(step.rhs);
  }

  // The same steps on the mathematical integers, the first k of them.
  function ExactRun(v: int, steps: seq<Step>, k: nat): int
    requires k <= |steps| && forall i :: 0 <= i < k ==> !DividesByZero(steps[i])
    decreases k
  {
    if k == 0 then v else ExactRun(Exact(v, steps[0]), steps[1..], k - 1)
  }

  // The number of steps before the first whose exact result leaves t or divides by zero.
  function GoodSteps(t: IntType, v: int, steps: seq<Step>): (k: nat)
    ensures k <= |steps| && forall i :: 0 <= i < k ==> !DividesByZero(steps[i])
    decreases steps
  {
    if steps == [] || DividesByZero(steps[0]) || !t.Holds(Exact(v, steps[0])) then 0
    else 1 + GoodSteps(t, Exact(v, steps[0]), steps[1..])
  }

  // The k-th exact value is the k-th operator on the one before.
  lemma {:induction false} ExactRunStep(v: int, steps: seq<Step>, k: nat)
    requires k < |steps| && forall i :: 0 <= i <= k ==> !DividesByZero(steps[i])
    ensures ExactRun(v, steps, 0) == v
    ensures ExactRun(v, steps, k + 1) == Exact(ExactRun(v, steps, k), steps[k])
    decreases k
  {
    hide Exact;
    if k > 0 {
      ExactRunStep(Exact(v, steps[0]), steps[1..], k - 1);
    }
  }

  // GoodSteps counts up to the first step that has no exact result in t.
  lemma {:induction false} GoodStepsIsFirstFailure(t: IntType, v: int, steps: seq<Step>)
    ensures var k := GoodSteps(t, v, steps);
      && (forall i :: 0 < i <= k ==> t.Holds(ExactRun(v, steps, i)))
      && (k < |steps| ==> DividesByZero(steps[k]) || !t.Holds(Exact(ExactRun(v, steps, k), steps[k])))
    decreases steps
  {
    hide Exact, DividesByZero;
    var k := GoodSteps(t, v, steps);
    if k > 0 {
      var next, rest := Exact(v, steps[0]), steps[1..];
      GoodStepsIsFirstFailure(t, next, rest);
      forall i | 0 < i <= k
        ensures t.Holds(ExactRun(v, steps, i))
      {
        assert ExactRun(v, steps, i) == ExactRun(next, rest, i - 1);
      }
    }
  }

  // No division of the least value of a narrow signed type by one of the two
  // uint64 divisors it is wrong for.
  predicate AvoidsNarrowMin(t: IntType, v: int, s: Step) {
    t.Holds(v) && s.op.Over? ==> !Division.AtNarrowMin(Int(t, v), s.rhs)
  }

  // What an operator should do: the exact result if it fits, an error if not.
  function ExactOutcome(m: Int, s: Step): Outcome {
    if DividesByZero(s) then Outcome(DivideByZero, m)
    else if m.ty.Holds(Exact(m.n, s)) then Outcome(NoError, Int(m.ty, Exact(m.n, s)))
    else Outcome(ArithmeticOverflow, Leftover(m, s))
  }

  // The three operators without a divisor, in plain arithmetic.
  lemma ApplyArithmetic(m: Int, u: Int)
    ensures var o, sum := Apply(m, Step(Plus, u)), m.n + u.n;
      o == if m.ty.Holds(sum) then Outcome(NoError, Int(m.ty, sum)) else Outcome(ArithmeticOverflow, m)
    ensures var o, product := Apply(m, Step(Times, u)), m.n * u.n;
      o == if m.ty.Holds(product) then Outcome(NoError, Int(m.ty, product)) else Outcome(ArithmeticOverflow, m)
    ensures var o, difference := Apply(m, Step(Minus, u)), m.n - u.n;
      o == if m.ty.Holds(difference) then Outcome(NoError, Int(m.ty, difference))
           else if m.ty == U64 && u.n < 0 then
             Outcome(ArithmeticOverflow, Int(U64, difference - 0x1_0000_0000_0000_0000))
           else Outcome(ArithmeticOverflow, m)
  {
  }

  // The two with a divisor. Law and sign of TruncDiv and TruncRem are those of
  // DivisionIdentity, and QuotientIsExact says where Quotient is TruncDiv.
  lemma ApplyDivision(m: Int, u: Int)
    ensures var q, r := Apply(m, Step(Over, u)), Apply(m, Step(Modulo, u));
      if u.n == 0 then q == r == Outcome(DivideByZero, m)
      else
        && r.err.NoError? && r.m.ty == m.ty && r.m.n == TruncRem(m.n, u.n)
        && var quotient := Division.Quotient(m, u);
           q == if m.ty.Holds(quotient) then Outcome(NoError, Int(m.ty, quotient)) else Outcome(ArithmeticOverflow, m)
  {
    if u.n != 0 {
      hide TruncRem;
      TruncBounds(m.n, u.n);
    }
  }

  lemma ApplyIsExact(m: Int, s: Step)
    ensures Apply(m, s) == ExactOutcome(m, s) <==> AvoidsNarrowMin(m.ty, m.n, s)
  {
    if s.op.Over? && s.rhs.n != 0 {
      Division.QuotientIsExact(m, s.rhs);
      TruncBounds(m.n, s.rhs.n);
      if !AvoidsNarrowMin(m.ty, m.n, s) {
        NatQuotient(Magnitude(m.n), s.rhs.n);
      }
    }
  }

  // (int8_t)-128 divided by (uint64_t)128 and by 2^64 - 128 gives 0 and -1
  // where -1 and 0 are exact.
  lemma NarrowMinExample()
    ensures var m, u, v := Int(IntType(true, 1), -128), Int(U64, 128), Int(U64, 0xffff_ffff_ffff_ff80);
      && Apply(m, Step(Over, u)) == Outcome(NoError, Int(m.ty, 0)) && TruncDiv(m.n, u.n) == -1
      && Apply(m, Step(Over, v)) == Outcome(NoError, Int(m.ty, -1)) && TruncDiv(m.n, v.n) == 0
  {
  }

  // A failed operator leaves m_int as it was, exactly when it is not uint64
  // minus a negative number.
  lemma FailureKeepsValue(m: Int, s: Step)
    requires !Apply(m, s).err.NoError?
    ensures Apply(m, s).m == m <==> !(m.ty == U64 && s.op.Minus? && s.rhs.n < 0)
  {
  }

  // UINT64_MAX - (int8_t)-1 overflows and leaves 0 behind.
  lemma FailureExample()
    ensures var s := Step(Minus, Int(IntType(true, 1), -1));
      Apply(Int(U64, U64.Max()), s) == Outcome(ArithmeticOverflow, Int(U64, 0))
  {
  }

  // Where a quotient and a remainder exist, the quotient times the divisor plus
  // the remainder is the dividend, if and only if this is not a narrow signed
  // minimum divided by one of the two uint64 divisors. A remainder exists for every divisor but 0,
  // and a quotient too, except for the least value divided by -1 and for an
  // unsigned value divided by a negative one that is not greater in magnitude.
  lemma QuotientAndRemainder(m: Int, u: Int)
    requires u.n != 0
    ensures var q, r := Apply(m, Step(Over, u)), Apply(m, Step(Modulo, u));
      && r.err.NoError? && Magnitude(r.m.n) < Magnitude(u.n) && (m.n >= 0 ==> r.m.n >= 0) && (m.n <= 0 ==> r.m.n <= 0)
      && (q.err.NoError? ==> (m.n == q.m.n * u.n + r.m.n <==> !Division.AtNarrowMin(m, u)))
      && (q.err.NoError? <==>
          if m.ty.signed then !(m.n == m.ty.Min() && u.n == -1) else u.n > 0 || m.n < -u.n)
  {
    hide TruncDiv, TruncRem;
    DivisionIdentity(m.n, u.n);
    TruncBounds(m.n, u.n);
    Division.SignedQuotient(m.n, u.n);
    NegativeDivisor(m.n, u.n);
    if Division.AtNarrowMin(m, u) {
      Division.LargeDivisor(m.n, u.n);
    }
  }

  lemma NegativeDivisor(a: int, b: int)
    requires b != 0
    ensures a >= 0 && b < 0 ==> (TruncDiv(a, b) == 0 <==> a < -b) && TruncDiv(a, b) <= 0
  {
    NatQuotient(Magnitude(a), Magnitude(b));
  }

  // No operator of the run divides at one of the two points, up to the first
  // that fails.
  predicate RunAvoidsNarrowMin(m: Int, steps: seq<Step>) {
    var k := GoodSteps(m.ty, m.n, steps);
    forall i :: 0 <= i <= k && i < |steps| ==> AvoidsNarrowMin(m.ty, ExactRun(m.n, steps, i), steps[i])
  }

  // The first step, and the run after it.
  lemma RunAvoidsUnfold(m: Int, steps: seq<Step>)
    requires steps != []
    ensures RunAvoidsNarrowMin(m, steps) <==>
      && AvoidsNarrowMin(m.ty, m.n, steps[0])
      && var o := ExactOutcome(m, steps[0]); (o.err.NoError? ==> RunAvoidsNarrowMin(o.m, steps[1..]))
  {
    hide AvoidsNarrowMin, Exact, DividesByZero;
    var o, rest, k := ExactOutcome(m, steps[0]), steps[1..], GoodSteps(m.ty, m.n, steps);
    assert ExactRun(m.n, steps, 0) == m.n;
    if o.err.NoError? {
      assert k == 1 + GoodSteps(o.m.ty, o.m.n, rest);
      assert forall i :: 0 <= i < k && i < |rest| ==> ExactRun(m.n, steps, i + 1) == ExactRun(o.m.n, rest, i);
      if RunAvoidsNarrowMin(m, steps) {
        forall i | 0 <= i <= k - 1 && i < |rest|
          ensures AvoidsNarrowMin(m.ty, ExactRun(o.m.n, rest, i), rest[i])
        {
          assert AvoidsNarrowMin(m.ty, ExactRun(m.n, steps, i + 1), steps[i + 1]);
        }
      }
      if AvoidsNarrowMin(m.ty, m.n, steps[0]) && RunAvoidsNarrowMin(o.m, rest) {
        forall i | 0 <= i <= k && i < |steps|
          ensures AvoidsNarrowMin(m.ty, ExactRun(m.n, steps, i), steps[i])
        {
          if i > 0 {
            assert AvoidsNarrowMin(m.ty, ExactRun(o.m.n, rest, i - 1), rest[i - 1]);
          }
        }
      }
    }
  }

  // What every step of a run reported and left behind.
  function Trace(m: Int, steps: seq<Step>): seq<Outcome>
    decreases steps
  {
    if steps == [] then []
    else
      var o := Apply(m, steps[0]);
      [o] + (if o.err.NoError? then Trace(o.m, steps[1..]) else [])
  }

  // The trace records the runs of all prefixes up to the first failure.
  lemma {:induction false} TraceIsRuns(m: Int, steps: seq<Step>)
    ensures var trace := Trace(m, steps);
      && |trace| <= |steps|
      && (forall i :: 0 <= i < |trace| ==> trace[i] == Run(m, steps[..i + 1]))
      && (|trace| < |steps| ==> trace != [] && !trace[|trace| - 1].err.NoError?)
    decreases steps
  {
    hide Apply;
    if steps != [] {
      var o, rest, trace := Apply(m, steps[0]), steps[1..], Trace(m, steps);
      if o.err.NoError? {
        TraceIsRuns(o.m, rest);
      }
      forall i | 0 <= i < |trace|
        ensures trace[i] == Run(m, steps[..i + 1])
      {
        var prefix := steps[..i + 1];
        assert prefix[0] == steps[0] && prefix[1..] == rest[..i];
        if i == 0 {
          assert prefix[1..] == [];
        } else {
          assert trace[i] == Trace(o.m, rest)[i - 1];
        }
      }
    }
  }

  function ExactTrace(m: Int, steps: seq<Step>): seq<Outcome>
    decreases steps
  {
    if steps == [] then []
    else
      var o := ExactOutcome(m, steps[0]);
      [o] + (if o.err.NoError? then ExactTrace(o.m, steps[1..]) else [])
  }

  // A run is exact at every step precisely when it avoids the two divisors.
  lemma {:induction false} TraceIsExact(m: Int, steps: seq<Step>)
    ensures Trace(m, steps) == ExactTrace(m, steps) <==> RunAvoidsNarrowMin(m, steps)
    decreases steps
  {
    hide Apply, ExactOutcome, AvoidsNarrowMin, RunAvoidsNarrowMin;
    if steps == [] {
      RunAvoidsNothing(m);
    } else {
      var o, rest := ExactOutcome(m, steps[0]), steps[1..];
      ApplyIsExact(m, steps[0]);
      RunAvoidsUnfold(m, steps);
      TraceIsExact(o.m, rest);
      if Trace(m, steps) == ExactTrace(m, steps) {
        assert Trace(m, steps)[0] == o && Trace(m, steps)[1..] == ExactTrace(m, steps)[1..];
      }
    }
  }

  lemma RunAvoidsNothing(m: Int)
    ensures RunAvoidsNarrowMin(m, [])
  {
  }

  lemma {:induction false} RunIsExact(m: Int, steps: seq<Step>)
    requires RunAvoidsNarrowMin(m, steps)
    ensures var k := GoodSteps(m.ty, m.n, steps);
      && m.ty.Holds(ExactRun(m.n, steps, k))
      && var held := Int(m.ty, ExactRun(m.n, steps, k));
         Run(m, steps) ==
           if k == |steps| then Outcome(NoError, held)
           else if DividesByZero(steps[k]) then Outcome(DivideByZero, held)
           else Outcome(ArithmeticOverflow, Leftover(held, steps[k]))
    decreases steps
  {
    hide AvoidsNarrowMin, RunAvoidsNarrowMin;
    if steps != [] {
      RunAvoidsUnfold(m, steps);
      ApplyIsExact(m, steps[0]);
      if GoodSteps(m.ty, m.n, steps) > 0 {
        RunIsExact(Int(m.ty, Exact(m.n, steps[0])), steps[1..]);
      }
    }
  }
}
