// Number tokens: the accumulators, what each byte does to them, and the value
// they stand for at the end.
module Numbers {
  import opened Base

  const I64_MAX := 0x7FFF_FFFF_FFFF_FFFF
  // the largest mantissa that ten times itself plus nine stays within I64_MAX
  const DIGIT_ALWAYS_FITS_BELOW := 922_337_203_685_477_579
  const EXPONENT_SATURATES := 100_000

  datatype Stage =
    | Idle
    | AfterMinus
    | Zero
    | Integer
    | FractionDot
    | Fraction
    | ExponentMark
    | ExponentSign
    | Exponent

  /** The accumulators of a number in progress. */
  datatype Num = Num(
    stage: Stage,
    negative: bool,
    isReal: bool,
    length: nat,
    mantissa: nat,
    full: bool,
    shift: int,
    droppedNonZero: bool,
    firstDropped: int,
    exponentNegative: bool,
    exponent: nat,
    bigDigits: Bytes)

  /** A number as reported. A real one stops short of the floating-point
      conversion: ten to the `power` times `mantissa`, or, if inexact, times something
      less than 1 above it. */
  datatype Number =
    | I32(value: int)
    | I64(value: int)
    | BigInt(text: Bytes)
    | Real(negative: bool, mantissa: nat, power: int, inexact: bool, firstDropped: int)

  function Start(first: Byte): Num
    requires first == MINUS || IsDigit(first)
  {
    var stage := if first == MINUS then AfterMinus else if first == ZERO then Zero else Integer;
    var mantissa := if stage == Integer then first - ZERO else 0;
    Num(stage, first == MINUS, false, 1, mantissa, false, 0, false, -1, false, 0, [])
  }

  // ---------- Decimal digits ----------

  function Digit(b: Byte): nat
    requires IsDigit(b)
  {
    b - ZERO
  }

  function Value(digits: Bytes): nat
    requires AllDigits(digits)
  {
    if digits == [] then 0
    else Value(digits[..|digits| - 1]) * 10 + Digit(digits[|digits| - 1])
  }

  /** The canonical decimal form. */
  function Decimal(n: nat): (digits: Bytes)
    ensures |digits| > 0 && AllDigits(digits)
  {
    if n < 10 then [ZERO + n] else Decimal(n / 10) + [ZERO + n % 10]
  }

  function Power10(n: nat): (p: nat)
    ensures p > 0
  {
    if n == 0 then 1 else 10 * Power10(n - 1)
  }

  // ---------- One digit, one byte ----------

  function TakeDigit(n: Num, digit: nat, fraction: bool): (m: Num)
    requires digit < 10
    ensures m.stage == n.stage && m.length == n.length
  {
    if !n.full && n.mantissa <= (I64_MAX - digit) / 10 then
      n.(mantissa := n.mantissa * 10 + digit, shift := if fraction then n.shift - 1 else n.shift)
    else
      var m := if n.full then n
               else n.(full := true, droppedNonZero := false, firstDropped := -1,
                       bigDigits := if fraction then n.bigDigits else Decimal(n.mantissa));
      m.(shift := if fraction then m.shift else m.shift + 1,
         bigDigits := if fraction then m.bigDigits else m.bigDigits + [ZERO + digit],
         droppedNonZero := m.droppedNonZero || digit != 0,
         firstDropped := if m.firstDropped < 0 then digit else m.firstDropped)
  }

  function TakeExponentDigit(n: Num, digit: nat): (m: Num)
    requires digit < 10
    ensures m.stage == n.stage && m.length == n.length
  {
    if n.exponent < EXPONENT_SATURATES then n.(exponent := n.exponent * 10 + digit) else n
  }

  /** What a byte does to the number in progress: it belongs to it, ends it, or is an error. */
  datatype Step = Next(num: Num) | End | Reject

  function TakeByte(n: Num, b: Byte): (s: Step)
    requires n.stage != Idle
    ensures s.Next? ==> s.num.stage != Idle && s.num.length == n.length
  {
    match n.stage
    case AfterMinus =>
      if b == ZERO then Next(n.(stage := Zero))
      else if IsDigit(b) then Next(TakeDigit(n.(stage := Integer), Digit(b), false))
      else Reject
    case Zero =>
      if IsDigit(b) then Reject else AfterDigits(n, b, true)
    case Integer =>
      if IsDigit(b) then Next(TakeDigit(n, Digit(b), false)) else AfterDigits(n, b, true)
    case FractionDot =>
      if IsDigit(b) then Next(TakeDigit(n.(stage := Fraction), Digit(b), true)) else Reject
    case Fraction =>
      if IsDigit(b) then Next(TakeDigit(n, Digit(b), true)) else AfterDigits(n, b, false)
    case ExponentMark =>
      if b == PLUS || b == MINUS then Next(n.(exponentNegative := b == MINUS, stage := ExponentSign))
      else if IsDigit(b) then Next(TakeExponentDigit(n.(stage := Exponent), Digit(b)))
      else Reject
    case ExponentSign =>
      if IsDigit(b) then Next(TakeExponentDigit(n.(stage := Exponent), Digit(b))) else Reject
    case Exponent =>
      if IsDigit(b) then Next(TakeExponentDigit(n, Digit(b))) else End
  }

  function Continue(n: Num, b: Byte): (s: Step)
    requires n.stage != Idle
    ensures s.Next? ==> s.num.stage != Idle && s.num.length == n.length + 1
  {
    match TakeByte(n, b)
    case Next(m) => Next(m.(length := n.length + 1))
    case s => s
  }

  predicate IsExponentMark(b: Byte) {
    b == 0x65 || b == 0x45
  }

  function AfterDigits(m: Num, b: Byte, integer: bool): (s: Step)
    ensures !s.Reject?
    ensures s.Next? ==> s.num.stage != Idle && s.num.length == m.length
  {
    if integer && b == DOT then Next(m.(isReal := true, stage := FractionDot))
    else if IsExponentMark(b) then Next(m.(isReal := true, stage := ExponentMark))
    else End
  }

  /** Whether the number may end where it is. */
  predicate Complete(n: Num) {
    n.stage == Zero || n.stage == Integer || n.stage == Fraction || n.stage == Exponent
  }

  lemma EndsOnlyWhenComplete(n: Num, b: Byte)
    requires n.stage != Idle
    ensures Continue(n, b).End? ==> Complete(n)
    ensures Complete(n) && !IsDigit(b) && b != DOT && !IsExponentMark(b) ==> Continue(n, b).End?
  {
  }

  // ---------- Widths ----------

  const I32_MIN := -0x8000_0000
  const I32_MAX := 0x7FFF_FFFF
  // The source's shift, exponent and power of ten are 32 bits wide; none
  // overflows while a token is at most this long.
  const LENGTH_IN_RANGE := 2_146_483_659

  /** The shift, the exponent and the power of ten fit 32 bits. */
  predicate InRange(n: Num) {
    && I32_MIN <= n.shift <= I32_MAX
    && n.exponent <= I32_MAX
    && I32_MIN <= Signed(n.exponentNegative, n.exponent) + n.shift <= I32_MAX
  }

  /** How many digits a number has, as far as six. */
  function Places(n: nat): (p: nat)
    ensures p <= 6
  {
    if n == 0 then 0 else if n < 10 then 1 else if n < 100 then 2 else if n < 1_000 then 3
    else if n < 10_000 then 4 else if n < 100_000 then 5 else 6
  }

  /** How many bytes the exponent takes at least, with its mark and its sign. */
  function ExponentWidth(n: Num): nat {
    match n.stage
    case ExponentMark => 1
    case ExponentSign => 2
    case Exponent => (if n.exponentNegative then 2 else 1) + Places(n.exponent)
    case _ => 0
  }

  predicate ExponentDue(n: Num) {
    n.stage == ExponentMark || n.stage == ExponentSign || n.stage == Exponent
  }

  /** The accumulators are no wider than the bytes read so far can make them. */
  predicate Narrow(n: Num) {
    var front := n.length - ExponentWidth(n);
    && n.mantissa <= I64_MAX && -1 <= n.firstDropped <= 9 && n.exponent < 1_000_000
    && (n.stage != Exponent ==> n.exponent == 0)
    && (n.stage != Exponent && n.stage != ExponentSign ==> !n.exponentNegative)
    && (n.full ==> n.mantissa >= 1_000) && (n.shift > 0 ==> n.full)
    && 1 <= front && Min(Places(n.mantissa), 4) + (if n.shift > 0 then n.shift else 0) <= front
    && (n.stage == FractionDot || n.stage == Fraction || n.shift < 0 ==> 2 <= front)
    && (n.shift < 0 ==> 2 - n.shift <= front)
  }

  lemma DigitStaysNarrow(n: Num, digit: nat, stage: Stage)
    requires Narrow(n) && digit < 10 && !ExponentDue(n) && (stage == Integer || stage == Fraction)
    requires stage == Fraction ==> n.stage == FractionDot || n.stage == Fraction
    ensures Narrow(TakeDigit(n.(stage := stage), digit, stage == Fraction).(length := n.length + 1))
  {
    hide Decimal;
  }

  lemma ExponentStaysNarrow(n: Num, digit: nat)
    requires Narrow(n) && digit < 10 && ExponentDue(n)
    ensures Narrow(TakeExponentDigit(n.(stage := Exponent), digit).(length := n.length + 1))
  {
    var m := TakeExponentDigit(n.(stage := Exponent), digit).(length := n.length + 1);
    PlacesGrow(n.exponent, digit);
    hide Places;
    assert ExponentWidth(m) <= ExponentWidth(n) + 1;
  }

  lemma PlacesGrow(e: nat, digit: nat)
    requires digit < 10
    ensures Places(0) == 0 && Places(digit) <= 1 && Places(e * 10 + digit) <= Places(e) + 1
  {
  }

  lemma SignStaysNarrow(n: Num, b: Byte)
    requires n.stage != Idle && Narrow(n) && Continue(n, b).Next? && (!IsDigit(b) || (n.stage == AfterMinus && b == ZERO))
    ensures Narrow(Continue(n, b).num)
  {
    assert Places(0) == 0;
    hide Places, TakeDigit, TakeExponentDigit;
  }

  /** The stage in which a digit is taken. */
  function DigitStage(n: Num): Stage {
    if ExponentDue(n) then Exponent else if n.stage == FractionDot || n.stage == Fraction then Fraction else Integer
  }

  lemma DigitContinues(n: Num, b: Byte)
    requires n.stage != Idle && IsDigit(b) && Continue(n, b).Next? && !(n.stage == AfterMinus && b == ZERO)
    ensures var m := n.(stage := DigitStage(n));
            var taken := if ExponentDue(n) then TakeExponentDigit(m, Digit(b)) else TakeDigit(m, Digit(b), m.stage == Fraction);
            Continue(n, b).num == taken.(length := n.length + 1)
  {
    hide TakeDigit, TakeExponentDigit;
    assert n.stage == DigitStage(n) ==> n.(stage := DigitStage(n)) == n;
  }

  /** A byte that belongs to the number keeps them so. */
  lemma StaysNarrow(n: Num, b: Byte)
    requires n.stage != Idle && Narrow(n) && Continue(n, b).Next?
    ensures Narrow(Continue(n, b).num)
  {
    hide TakeDigit, TakeExponentDigit, Narrow, Continue;
    if !IsDigit(b) || (n.stage == AfterMinus && b == ZERO) {
      SignStaysNarrow(n, b);
    } else {
      DigitContinues(n, b);
      if ExponentDue(n) {
        ExponentStaysNarrow(n, Digit(b));
      } else {
        DigitStaysNarrow(n, Digit(b), DigitStage(n));
      }
    }
  }

  /** So up to that length, nothing that is computed from them overflows. */
  lemma NarrowIsInRange(n: Num)
    requires Narrow(n) && n.length <= LENGTH_IN_RANGE
    ensures InRange(n)
  {
  }

  // ---------- The value reported ----------

  function Signed(negative: bool, magnitude: nat): int {
    if negative then -(magnitude as int) else magnitude
  }

  function IntegerValue(n: Num): Number {
    if n.bigDigits != [] then
      BigInt(if n.negative then [MINUS] + n.bigDigits else n.bigDigits)
    else
      var value := Signed(n.negative, n.mantissa);
      if -0x8000_0000 <= value <= 0x7FFF_FFFF then I32(value) else I64(value)
  }

  function RealValue(n: Num): Number {
    Real(n.negative, n.mantissa, Signed(n.exponentNegative, n.exponent) + n.shift, n.full && n.droppedNonZero, n.firstDropped)
  }

  function NumberValue(n: Num): Number {
    if n.isReal then RealValue(n) else IntegerValue(n)
  }

  // ---------- Runs of digits ----------

  predicate InDigits(n: Num) {
    n.stage == Integer || n.stage == Fraction
  }

  function Digits(n: Num, digits: Bytes): (m: Num)
    requires InDigits(n) && AllDigits(digits)
    ensures m.stage == n.stage && m.length == n.length + |digits|
    decreases |digits|
  {
    if digits == [] then n
    else Continue(Digits(n, digits[..|digits| - 1]), digits[|digits| - 1]).num
  }

  lemma NoDigits(n: Num)
    requires InDigits(n)
    ensures Digits(n, []) == n
  {
  }

  lemma {:induction false} DigitsConcat(n: Num, a: Bytes, b: Bytes)
    requires InDigits(n) && AllDigits(a) && AllDigits(b)
    ensures AllDigits(a + b)
    ensures Digits(n, a + b) == Digits(Digits(n, a), b)
    decreases |b|
  {
    if b == [] {
      assert a + b == a;
    } else {
      var init := b[..|b| - 1];
      DigitsConcat(n, a, init);
      assert (a + b)[..|a + b| - 1] == a + init;
    }
  }

  /** `n` with `k` more digits in its mantissa, now `m`. */
  function Kept(n: Num, m: nat, k: nat): Num {
    n.(mantissa := m, length := n.length + k, shift := if n.stage == Fraction then n.shift - k else n.shift)
  }

  lemma DigitFits(n: Num, m: nat, k: nat, b: Byte)
    requires InDigits(n) && !n.full && IsDigit(b) && m <= DIGIT_ALWAYS_FITS_BELOW
    ensures Continue(Kept(n, m, k), b) == Next(Kept(n, m * 10 + Digit(b), k + 1))
  {
  }

  /** The number in progress, updated in place. */
  class NumberState {
    var stage: Stage
    var negative: bool
    var isReal: bool
    var length: nat
    var mantissa: nat
    var full: bool
    var shift: int
    var droppedNonZero: bool
    var firstDropped: int
    var exponentNegative: bool
    var exponent: nat
    var bigDigits: Bytes

    ghost function Abs(): Num
      reads this
    {
      Num(stage, negative, isReal, length, mantissa, full, shift, droppedNonZero,
          firstDropped, exponentNegative, exponent, bigDigits)
    }

    constructor ()
      ensures stage == Idle
    {
      stage, negative, isReal, length := Idle, false, false, 0;
      mantissa, full, shift, droppedNonZero, firstDropped := 0, false, 0, false, -1;
      exponentNegative, exponent, bigDigits := false, 0, [];
    }

    method Begin(first: Byte)
      requires first == MINUS || IsDigit(first)
      modifies this
      ensures Abs() == Start(first)
    {
      negative := first == MINUS;
      isReal := false;
      length := 1;
      mantissa := 0;
      full := false;
      shift := 0;
      droppedNonZero := false;
      firstDropped := -1;
      exponentNegative := false;
      exponent := 0;
      bigDigits := [];
      if negative {
        stage := AfterMinus;
      } else if first == ZERO {
        stage := Zero;
      } else {
        mantissa := first - ZERO;
        stage := Integer;
      }
    }

    /** Takes the digits at the front of `span` on a local copy of the mantissa,
        as long as the next is sure to fit: the same as taking them one by one. */
    method TakeDigitRun(span: Bytes) returns (n: nat)
      requires InDigits(Abs()) && !full
      modifies this
      ensures n <= |span| && AllDigits(span[..n])
      ensures Abs() == Digits(old(Abs()), span[..n])
      ensures n == |span| || !IsDigit(span[n]) || mantissa > DIGIT_ALWAYS_FITS_BELOW
    {
      hide Continue;
      var m := mantissa;
      n := 0;
      ghost var before := Abs();
      while n < |span| && m <= DIGIT_ALWAYS_FITS_BELOW
        invariant 0 <= m && n <= |span| && AllDigits(span[..n]) && Abs() == before
        invariant Digits(before, span[..n]) == Kept(before, m, n)
      {
        if !IsDigit(span[n]) {
          break;
        }
        assert span[..n + 1][..n] == span[..n];
        DigitFits(before, m, n, span[n]);
        m := m * 10 + Digit(span[n]);
        n := n + 1;
      }
      if n > 0 {
        mantissa := m;
        if stage == Fraction {
          shift := shift - n;
        }
        length := length + n;
      }
    }

    method AddDigit(digit: nat, fraction: bool)
      requires digit < 10
      modifies this
      ensures Abs() == TakeDigit(old(Abs()), digit, fraction)
    {
      if !full {
        if mantissa <= (I64_MAX - digit) / 10 {
          mantissa := mantissa * 10 + digit;
          if fraction {
            shift := shift - 1;
          }
          return;
        }
        full := true;
        droppedNonZero := false;
        firstDropped := -1;
        if !fraction {
          bigDigits := Decimal(mantissa);
        }
      }
      if !fraction {
        shift := shift + 1;
        bigDigits := bigDigits + [ZERO + digit];
      }
      if digit != 0 {
        droppedNonZero := true;
      }
      if firstDropped < 0 {
        firstDropped := digit;
      }
    }

    method AddExponentDigit(digit: nat)
      requires digit < 10
      modifies this
      ensures Abs() == TakeExponentDigit(old(Abs()), digit)
    {
      if exponent < EXPONENT_SATURATES {
        exponent := exponent * 10 + digit;
      }
    }
  }
}
