// What a number token is worth, read off its text as a real number, and how far
// what is reported of it agrees.
module NumberValues {
  import opened Base
  import opened Numbers
  import opened NumberLaws

  /** Decimal digits, which are the bytes 0x30 to 0x39. */
  function Decimals(digits: Bytes): nat
    requires forall i :: 0 <= i < |digits| ==> 0x30 <= digits[i] <= 0x39
  {
    if digits == [] then 0 else 10 * Decimals(digits[..|digits| - 1]) + (digits[|digits| - 1] - 0x30)
  }

  function TenTo(n: int): (r: real)
    ensures r > 0.0
    decreases if n < 0 then -n else n
  {
    if n == 0 then 1.0 else if n > 0 then 10.0 * TenTo(n - 1) else TenTo(n + 1) / 10.0
  }

  lemma DigitsAre(digits: Bytes)
    ensures AllDigits(digits) <==> forall i :: 0 <= i < |digits| ==> 0x30 <= digits[i] <= 0x39
  {
  }

  lemma {:induction false} DecimalsAreValue(digits: Bytes)
    requires AllDigits(digits)
    ensures Decimals(digits) == Value(digits)
  {
    if digits != [] {
      DecimalsAreValue(digits[..|digits| - 1]);
    }
  }

  /** The exponent that is written, 0 if none is. */
  function Exponent10(t: Token): int
    requires WellFormed(t)
  {
    match t.exponent
    case NoExponent => 0
    case ExponentPart(_, sign, digits) => if sign == Some(0x2D) then -(Decimals(digits) as int) else Decimals(digits)
  }

  /** The number without its sign. */
  function Magnitude(t: Token): real
    requires WellFormed(t)
  {
    var fraction := if t.fraction.Some? then t.fraction.value else [];
    Decimals(t.whole + fraction) as real * TenTo(Exponent10(t) - |fraction|)
  }

  lemma {:induction false} TenToAdd(k: nat, n: int)
    ensures TenTo(n + k) == Power10(k) as real * TenTo(n)
  {
    hide *;
    if k == 0 {
      Unscaled(TenTo(n));
    } else {
      TenToAdd(k - 1, n);
      TenToNext(n + k - 1);
      PowerNext(k);
      Scaled(Power10(k - 1), TenTo(n), TenTo(n + k - 1));
    }
  }

  lemma PowerNext(k: nat)
    requires k > 0
    ensures Power10(k) == 10 * Power10(k - 1)
  {
  }

  lemma Unscaled(r: real)
    ensures Power10(0) as real * r == r
  {
  }

  lemma Scaled(p: nat, r: real, x: real)
    requires x == p as real * r
    ensures 10.0 * x == (10 * p) as real * r
  {
    assert (10 * p) as real == 10.0 * p as real;
  }

  lemma TenToNext(n: int)
    ensures TenTo(n + 1) == 10.0 * TenTo(n)
  {
  }

  lemma Positive(d: nat, r: real)
    requires d > 0 && r > 0.0
    ensures d as real * r > 0.0
  {
  }

  /** The magnitude lies in the interval of one unit of the last kept digit that the
      mantissa and the power give: at its lower end exactly if the report is exact, and
      otherwise below its middle exactly if the first dropped digit is below 5. */
  predicate Reports(r: Number, magnitude: real)
    requires r.Real?
  {
    ReportsIn(r, magnitude, TenTo(r.power))
  }

  predicate ReportsIn(r: Number, magnitude: real, unit: real)
    requires r.Real?
  {
    && r.mantissa as real * unit <= magnitude < (r.mantissa + 1) as real * unit
    && (r.inexact <==> magnitude != r.mantissa as real * unit)
    && (r.firstDropped >= 0 ==> (r.firstDropped < 5 <==> 2.0 * magnitude < (2 * r.mantissa + 1) as real * unit))
  }

  /** What is reported of a number with a fraction or an exponent, if that is below saturation. */
  lemma RealIsMagnitude(t: Token)
    requires WellFormed(t) && -100_000 < Exponent10(t) < 100_000
    ensures RealOf(t).negative == t.negative && Reports(RealOf(t), Magnitude(t))
  {
    hide AllZero, NumberLaws.Kept, Value, Decimals, Power10, TenTo, Reports;
    var d := t.whole + FractionDigits(t);
    var m, n := NumberLaws.Kept(d), Exponent10(t) - |FractionDigits(t)|;
    RealParts(t, d, m, n);
    Truncation(d);
    ReportsScaled(RealOf(t), |d| - m, Value(d), n, Magnitude(t));
  }

  lemma ReportsScaled(r: Number, k: nat, all: nat, n: int, magnitude: real)
    requires r.Real? && r.power == n + k && magnitude == all as real * TenTo(n)
    requires r.mantissa * Power10(k) <= all < (r.mantissa + 1) * Power10(k)
    requires r.inexact <==> all != r.mantissa * Power10(k)
    requires r.firstDropped >= 0 ==> (r.firstDropped < 5 <==> 2 * all < (2 * r.mantissa + 1) * Power10(k))
    ensures Reports(r, magnitude)
  {
    hide *;
    TenToAdd(k, n);
    IntervalReported(r, Power10(k), all, TenTo(n), TenTo(r.power), magnitude);
    ReportsMeans(r, magnitude);
  }

  lemma ReportsMeans(r: Number, magnitude: real)
    requires r.Real?
    ensures Reports(r, magnitude) <==> ReportsIn(r, magnitude, TenTo(r.power))
  {
    hide TenTo, ReportsIn;
  }

  lemma IntervalReported(r: Number, scale: nat, all: nat, base: real, unit: real, magnitude: real)
    requires r.Real? && base > 0.0 && unit == scale as real * base && magnitude == all as real * base
    requires r.mantissa * scale <= all < (r.mantissa + 1) * scale
    requires r.inexact <==> all != r.mantissa * scale
    requires r.firstDropped >= 0 ==> (r.firstDropped < 5 <==> 2 * all < (2 * r.mantissa + 1) * scale)
    ensures ReportsIn(r, magnitude, unit)
  {
    Interval(r.mantissa, scale, all, base, unit, magnitude);
  }

  lemma RealParts(t: Token, d: Bytes, m: nat, n: int)
    requires WellFormed(t) && -100_000 < Exponent10(t) < 100_000
    requires d == t.whole + FractionDigits(t) && m == NumberLaws.Kept(d) && n == Exponent10(t) - |FractionDigits(t)|
    ensures RealOf(t) == Real(t.negative, Value(d[..m]), n + (|d| - m), !AllZero(d[m..]), if m < |d| then Digit(d[m]) else -1)
    ensures Magnitude(t) == Value(d) as real * TenTo(n)
  {
    hide AllZero, NumberLaws.Kept, Value, Decimals, TenTo, ExponentValue, Exponent10;
    ExponentIsRead(t);
    DecimalsAreValue(d);
  }

  lemma ExponentIsRead(t: Token)
    requires WellFormed(t) && -100_000 < Exponent10(t) < 100_000
    ensures ExponentValue(t.exponent) == Exponent10(t)
  {
    if t.exponent.ExponentPart? {
      SaturationIsLate(t.exponent.digits);
      DecimalsAreValue(t.exponent.digits);
    }
  }

  lemma Interval(mantissa: nat, scale: nat, all: nat, base: real, unit: real, magnitude: real)
    requires base > 0.0 && unit == scale as real * base && magnitude == all as real * base
    ensures mantissa * scale <= all <==> mantissa as real * unit <= magnitude
    ensures all < (mantissa + 1) * scale <==> magnitude < (mantissa + 1) as real * unit
    ensures all == mantissa * scale <==> magnitude == mantissa as real * unit
    ensures 2 * all < (2 * mantissa + 1) * scale <==> 2.0 * magnitude < (2 * mantissa + 1) as real * unit
  {
    hide *;
    Regroup(mantissa, scale, base, unit);
    Regroup(mantissa + 1, scale, base, unit);
    Regroup(2 * mantissa + 1, scale, base, unit);
    Regroup(2, all, base, magnitude);
    Ordered(mantissa * scale, all, base, mantissa as real * unit, magnitude);
    Ordered(all, (mantissa + 1) * scale, base, magnitude, (mantissa + 1) as real * unit);
    Ordered(2 * all, (2 * mantissa + 1) * scale, base, 2.0 * magnitude, (2 * mantissa + 1) as real * unit);
  }

  lemma Ordered(a: nat, b: nat, r: real, x: real, y: real)
    requires r > 0.0 && x == a as real * r && y == b as real * r
    ensures a < b <==> x < y
    ensures a == b <==> x == y
  {
    if a < b {
      Positive(b - a, r);
      assert (b - a) as real * r == y - x;
    } else if b < a {
      Positive(a - b, r);
      assert (a - b) as real * r == x - y;
    }
  }

  lemma Regroup(a: nat, b: nat, r: real, br: real)
    requires br == b as real * r
    ensures (a * b) as real * r == a as real * br
  {
    assert (a * b) as real == a as real * b as real;
  }

  /** An integer is reported as itself, in the narrowest variant; only one that does
      not fit 63 bits without its sign as its own text. */
  lemma IntegerIsExact(t: Token)
    requires WellFormed(t) && t.fraction.None? && t.exponent.NoExponent?
    ensures var magnitude := Decimals(t.whole);
            var value := if t.negative then -(magnitude as int) else magnitude;
            match Meaning(t)
            case I32(v) => v == value && -0x8000_0000 <= v < 0x8000_0000
            case I64(v) => v == value && !(-0x8000_0000 <= v < 0x8000_0000) && magnitude < 0x8000_0000_0000_0000
            case BigInt(text) => text == Text(t) && magnitude >= 0x8000_0000_0000_0000
            case Real(_, _, _, _, _) => false
  {
    hide Decimals, Value, Text, RealOf, NumberLaws.Kept;
    DecimalsAreValue(t.whole);
    IntegerText(t);
    hide WellFormed, Canonical, Sign;
  }

  lemma IntegerText(t: Token)
    requires t.fraction.None? && t.exponent.NoExponent?
    ensures Text(t) == Sign(t.negative, t.whole)
  {
    assert WholeText(t) + [] + [] == WholeText(t);
    assert [] + t.whole == t.whole;
  }

  /** A number has the same meaning with either letter for its exponent. */
  lemma EitherMark(t: Token)
    requires WellFormed(t) && t.exponent.ExponentPart?
    ensures var other := t.(exponent := t.exponent.(mark := if t.exponent.mark == 0x65 then 0x45 else 0x65));
            WellFormed(other) && Text(other) != Text(t) && Meaning(other) == Meaning(t)
  {
    var other := t.(exponent := t.exponent.(mark := if t.exponent.mark == 0x65 then 0x45 else 0x65));
    var at := |WholeText(t) + FractionText(t)|;
    assert Text(t)[at] == t.exponent.mark && Text(other)[at] == other.exponent.mark;
  }
}
