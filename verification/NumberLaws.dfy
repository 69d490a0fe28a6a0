// What a number token stands for, and that the one-pass accumulators find it.
module NumberLaws {
  import opened Base
  import opened Numbers

  // ---------- Decimal arithmetic ----------

  lemma {:induction false} ValueConcat(a: Bytes, b: Bytes)
    requires AllDigits(a) && AllDigits(b)
    ensures Value(a + b) == Value(a) * Power10(|b|) + Value(b)
    decreases |b|
  {
    if b == [] {
      assert a + b == a;
    } else {
      var init := b[..|b| - 1];
      assert (a + b)[..|a + b| - 1] == a + init;
      ValueConcat(a, init);
    }
  }

  lemma {:induction false} ValueBound(a: Bytes)
    requires AllDigits(a)
    ensures Value(a) < Power10(|a|)
  {
    if a != [] {
      ValueBound(a[..|a| - 1]);
    }
  }

  /** At least one digit, and no leading zero but for zero itself. */
  predicate Canonical(digits: Bytes) {
    AllDigits(digits) && digits != [] && (digits[0] == 0x30 ==> |digits| == 1)
  }

  lemma {:induction false} CanonicalPositive(d: Bytes)
    requires Canonical(d) && d != [ZERO]
    ensures Value(d) > 0
  {
    if |d| == 1 {
      assert d[..0] == [];
    } else {
      CanonicalPositive(d[..|d| - 1]);
    }
  }

  lemma {:induction false} DecimalOfValue(d: Bytes)
    requires Canonical(d)
    ensures Decimal(Value(d)) == d
  {
    if |d| == 1 {
      assert d[..0] == [];
    } else {
      var init := d[..|d| - 1];
      CanonicalPositive(init);
      DecimalOfValue(init);
      assert d == init + [d[|d| - 1]];
    }
  }

  lemma {:induction false} ValueOfDecimal(n: nat)
    ensures Canonical(Decimal(n)) && Value(Decimal(n)) == n
    ensures n > 0 ==> Decimal(n)[0] != ZERO
  {
    if n < 10 {
      assert Decimal(n)[..0] == [];
    } else {
      ValueOfDecimal(n / 10);
      assert Decimal(n)[..|Decimal(n)| - 1] == Decimal(n / 10);
    }
  }

  // ---------- The kept prefix ----------

  /** How many leading digits make an integer that fits an i64. */
  function Kept(d: Bytes): (m: nat)
    requires AllDigits(d)
    ensures m <= |d|
  {
    if d == [] then 0
    else
      var init := d[..|d| - 1];
      if Kept(init) < |init| then Kept(init) else if Value(d) <= I64_MAX then |d| else |init|
  }

  predicate AllZero(d: Bytes) {
    forall i :: 0 <= i < |d| ==> d[i] == ZERO
  }

  /** The longest prefix that fits: it does, and one digit more does not. */
  lemma {:induction false} KeptIsLongest(d: Bytes)
    requires AllDigits(d)
    ensures var m := Kept(d);
            Value(d[..m]) <= I64_MAX && (m < |d| ==> Value(d[..m]) * 10 + Digit(d[m]) > I64_MAX)
  {
    if d != [] {
      var init := d[..|d| - 1];
      KeptIsLongest(init);
      var m := Kept(d);
      if m < |d| {
        assert d[..m] == init[..m];
        if m == |init| {
          assert init[..m] == init;
        }
      } else {
        assert d[..m] == d;
      }
    }
  }

  lemma KeptSnoc(d: Bytes, b: Byte)
    requires AllDigits(d) && IsDigit(b)
    ensures Kept(d + [b]) == if Kept(d) < |d| then Kept(d) else if Value(d) * 10 + Digit(b) <= I64_MAX then |d| + 1 else |d|
    ensures Value(d + [b]) == Value(d) * 10 + Digit(b)
  {
    assert (d + [b])[..|d|] == d;
  }

  /** The accumulators of `n` after the digits `d`, the last `f` of them of a
      fraction; `big` is the exact integer if it is kept. */
  function Accumulated(n: Num, d: Bytes, f: nat, big: Bytes): Num
    requires AllDigits(d)
  {
    var m := Kept(d);
    n.(mantissa := Value(d[..m]), full := m < |d|, shift := |d| - m - f, droppedNonZero := !AllZero(d[m..]),
       firstDropped := if m < |d| then Digit(d[m]) else -1, bigDigits := big)
  }

  /** The exact digits of an integer part, kept once it no longer fits. */
  function Big(whole: Bytes): Bytes
    requires AllDigits(whole)
  {
    var m := Kept(whole);
    if m < |whole| then Decimal(Value(whole[..m])) + whole[m..] else []
  }

  lemma {:induction false} AllZeroSnoc(d: Bytes, b: Byte)
    ensures AllZero(d + [b]) <==> AllZero(d) && b == ZERO
  {
    if AllZero(d + [b]) {
      assert (d + [b])[|d|] == b;
      assert forall i :: 0 <= i < |d| ==> (d + [b])[i] == d[i];
    }
  }

  lemma BigSnoc(whole: Bytes, b: Byte)
    requires AllDigits(whole) && IsDigit(b)
    ensures Big(whole + [b]) == if Kept(whole) < |whole| then Big(whole) + [b]
                                else if Kept(whole + [b]) <= |whole| then Decimal(Value(whole)) + [b]
                                else []
  {
    hide Decimal, Value, Kept;
    var m := Kept(whole);
    KeptSnoc(whole, b);
    Within(whole, [b], m);
    if m < |whole| {
      Assoc(Decimal(Value(whole[..m])), whole[m..], [b]);
    } else {
      Boundary(whole, b);
    }
  }

  /** A digit after others that were already dropped. */
  lemma DigitAfterDropped(n: Num, d: Bytes, f: nat, big: Bytes, b: Byte, inFraction: bool)
    requires AllDigits(d) && IsDigit(b) && Kept(d) < |d|
    ensures TakeDigit(Accumulated(n, d, f, big), Digit(b), inFraction)
         == Accumulated(n, d + [b], if inFraction then f + 1 else f, if inFraction then big else big + [b])
  {
    hide Kept, Value, AllZero;
    var m := Kept(d);
    KeptSnoc(d, b);
    Within(d, [b], m);
    AllZeroSnoc(d[m..], b);
  }

  /** The first digit that no longer fits. */
  lemma FirstDigitDropped(n: Num, d: Bytes, f: nat, b: Byte, inFraction: bool)
    requires AllDigits(d) && IsDigit(b) && Kept(d) == |d| && Value(d) * 10 + Digit(b) > I64_MAX
    ensures TakeDigit(Accumulated(n, d, f, []), Digit(b), inFraction)
         == Accumulated(n, d + [b], if inFraction then f + 1 else f, if inFraction then [] else Decimal(Value(d)) + [b])
  {
    hide Kept, Value, Decimal, AllZero, TakeDigit, Accumulated;
    KeptSnoc(d, b);
    NoneDropped(n, d, f, []);
    OneDropped(n, d, b, if inFraction then f + 1 else f, if inFraction then [] else Decimal(Value(d)) + [b]);
    TakeDropped(Accumulated(n, d, f, []), Digit(b), inFraction);
  }

  lemma NoneDropped(n: Num, d: Bytes, f: nat, big: Bytes)
    requires AllDigits(d) && Kept(d) == |d|
    ensures Accumulated(n, d, f, big)
         == n.(mantissa := Value(d), full := false, shift := 0 - (f as int), droppedNonZero := false, firstDropped := -1, bigDigits := big)
  {
    hide Kept, Value;
    assert d[..|d|] == d && d[|d|..] == [];
  }

  lemma OneDropped(n: Num, d: Bytes, b: Byte, f: nat, big: Bytes)
    requires AllDigits(d) && IsDigit(b) && Kept(d + [b]) == |d|
    ensures Accumulated(n, d + [b], f, big)
         == n.(mantissa := Value(d), full := true, shift := 1 - (f as int), droppedNonZero := Digit(b) != 0, firstDropped := Digit(b), bigDigits := big)
  {
    hide Kept, Value, AllZero;
    Boundary(d, b);
    AllZeroOne(b);
  }

  lemma TakeDropped(n: Num, digit: nat, inFraction: bool)
    requires digit < 10 && !n.full && n.mantissa * 10 + digit > I64_MAX
    ensures TakeDigit(n, digit, inFraction)
         == n.(full := true, shift := if inFraction then n.shift else n.shift + 1, droppedNonZero := digit != 0,
               firstDropped := digit, bigDigits := if inFraction then n.bigDigits else Decimal(n.mantissa) + [ZERO + digit])
  {
    hide Decimal;
  }

  lemma Boundary(d: Bytes, b: Byte)
    ensures d[..|d|] == d && d[|d|..] == []
    ensures (d + [b])[..|d|] == d && (d + [b])[|d|..] == [b] && (d + [b])[|d|] == b
  {
  }

  lemma AllZeroOne(b: Byte)
    ensures AllZero([b]) <==> b == ZERO
    ensures AllZero([])
  {
    assert AllZero([b]) ==> [b][0] == ZERO;
  }

  lemma DigitKept(n: Num, d: Bytes, f: nat, b: Byte, inFraction: bool)
    requires AllDigits(d) && IsDigit(b) && Kept(d) == |d| && Value(d) * 10 + Digit(b) <= I64_MAX
    ensures TakeDigit(Accumulated(n, d, f, []), Digit(b), inFraction)
         == Accumulated(n, d + [b], if inFraction then f + 1 else f, [])
  {
    hide Kept, Value, Accumulated;
    KeptSnoc(d, b);
    NoneDropped(n, d, f, []);
    NoneDropped(n, d + [b], if inFraction then f + 1 else f, []);
  }

  /** The integer part grows by a digit. */
  lemma WholeDigit(n: Num, whole: Bytes, b: Byte)
    requires AllDigits(whole) && IsDigit(b)
    ensures TakeDigit(Accumulated(n, whole, 0, Big(whole)), Digit(b), false)
         == Accumulated(n, whole + [b], 0, Big(whole + [b]))
  {
    hide TakeDigit, Accumulated, Value;
    KeptSnoc(whole, b);
    BigSnoc(whole, b);
    if Kept(whole) < |whole| {
      DigitAfterDropped(n, whole, 0, Big(whole), b, false);
    } else if Value(whole) * 10 + Digit(b) > I64_MAX {
      FirstDigitDropped(n, whole, 0, b, false);
    } else {
      DigitKept(n, whole, 0, b, false);
    }
  }

  /** One more digit of the fraction. */
  lemma FractionDigit(n: Num, whole: Bytes, d: Bytes, f: nat, b: Byte)
    requires AllDigits(d) && IsDigit(b) && whole <= d && AllDigits(whole)
    ensures TakeDigit(Accumulated(n, d, f, Big(whole)), Digit(b), true)
         == Accumulated(n, d + [b], f + 1, Big(whole))
  {
    hide TakeDigit, Accumulated, Value;
    KeptPrefix(whole, d);
    if Kept(d) < |d| {
      DigitAfterDropped(n, d, f, Big(whole), b, true);
    } else if Value(d) * 10 + Digit(b) > I64_MAX {
      FirstDigitDropped(n, d, f, b, true);
    } else {
      DigitKept(n, d, f, b, true);
    }
  }

  /** Where all digits fit, those of the integer part do. */
  lemma {:induction false} KeptPrefix(whole: Bytes, d: Bytes)
    requires AllDigits(d) && whole <= d && AllDigits(whole)
    ensures Kept(d) == |d| ==> Kept(whole) == |whole|
  {
    if |whole| < |d| {
      KeptPrefix(whole, d[..|d| - 1]);
    } else {
      assert whole == d;
    }
  }

  // ---------- What a token means ----------

  datatype ExponentPart = NoExponent | ExponentPart(mark: Byte, sign: Option<Byte>, digits: Bytes)

  /** The parts of a number token (section 6 of RFC 8259). The bytes that the grammar
      names are written out below: e and E, plus, minus, the point and the digits. */
  datatype Token = Token(negative: bool, whole: Bytes, fraction: Option<Bytes>, exponent: ExponentPart)

  predicate WellFormed(t: Token) {
    && Canonical(t.whole)
    && (t.fraction.Some? ==> AllDigits(t.fraction.value) && t.fraction.value != [])
    && (t.exponent.ExponentPart? ==>
          && (t.exponent.mark == 0x65 || t.exponent.mark == 0x45)
          && (t.exponent.sign.Some? ==> t.exponent.sign.value == 0x2B || t.exponent.sign.value == 0x2D)
          && AllDigits(t.exponent.digits) && t.exponent.digits != [])
  }

  function WholeText(t: Token): Bytes {
    (if t.negative then [0x2D] else []) + t.whole
  }

  function FractionText(t: Token): Bytes {
    if t.fraction.Some? then [0x2E] + t.fraction.value else []
  }

  function ExponentText(e: ExponentPart): Bytes {
    match e
    case NoExponent => []
    case ExponentPart(mark, sign, digits) => [mark] + (if sign.Some? then [sign.value] else []) + digits
  }

  function Text(t: Token): Bytes {
    WholeText(t) + FractionText(t) + ExponentText(t.exponent)
  }

  /** Digits of an exponent as they are read: no more are taken once it is huge. */
  function Saturated(e: Bytes): nat
    requires AllDigits(e)
  {
    if e == [] then 0
    else
      var before := Saturated(e[..|e| - 1]);
      if before < EXPONENT_SATURATES then before * 10 + Digit(e[|e| - 1]) else before
  }

  function Sign(negative: bool, text: Bytes): Bytes {
    if negative then [0x2D] + text else text
  }

  /** An integer of any length: as narrow as its magnitude allows, or its own digits. */
  function IntegerOf(negative: bool, whole: Bytes): Number
    requires AllDigits(whole)
  {
    var value := Signed(negative, Value(whole));
    if Value(whole) > I64_MAX then BigInt(Sign(negative, whole))
    else if -0x8000_0000 <= value <= 0x7FFF_FFFF then I32(value)
    else I64(value)
  }

  function FractionDigits(t: Token): Bytes {
    if t.fraction.Some? then t.fraction.value else []
  }

  function ExponentValue(e: ExponentPart): int
    requires e.ExponentPart? ==> AllDigits(e.digits)
  {
    if e.NoExponent? then 0 else Signed(e.sign == Some(0x2D), Saturated(e.digits))
  }

  /** A number with a fraction or an exponent: as many leading digits as fit, the
      power of ten to scale them by, and what was dropped. */
  function RealOf(t: Token): Number
    requires WellFormed(t)
  {
    var d := t.whole + FractionDigits(t);
    var m := Kept(d);
    Real(t.negative, Value(d[..m]), ExponentValue(t.exponent) + (|d| - m) - |FractionDigits(t)|, !AllZero(d[m..]),
         if m < |d| then Digit(d[m]) else -1)
  }

  function Meaning(t: Token): Number
    requires WellFormed(t)
  {
    if t.fraction.None? && t.exponent.NoExponent? then IntegerOf(t.negative, t.whole) else RealOf(t)
  }

  // ---------- Truncation ----------

  /** With k digits dropped, the integer of all digits lies in the unit interval
      above the mantissa, scaled by 10^k: at its lower end exactly if no non-zero
      digit was dropped, and below its middle exactly if the first dropped digit is
      below 5. */
  lemma Truncation(d: Bytes)
    requires AllDigits(d)
    ensures var m := Kept(d);
            var mantissa, scale, all := Value(d[..m]), Power10(|d| - m), Value(d);
            && mantissa <= I64_MAX
            && mantissa * scale <= all < (mantissa + 1) * scale
            && (all == mantissa * scale <==> AllZero(d[m..]))
            && (m < |d| ==> (Digit(d[m]) < 5 <==> 2 * all < (2 * mantissa + 1) * scale))
  {
    hide Value, Power10, Kept, AllZero;
    var m := Kept(d);
    var low := d[m..];
    KeptIsLongest(d);
    SplitValue(d, m);
    ZeroValue(low);
    if m < |d| {
      FirstDigit(low);
    }
    Scaled(Value(d[..m]), Power10(|d| - m), Value(low), Value(d));
  }

  lemma SplitValue(d: Bytes, m: nat)
    requires AllDigits(d) && m <= |d|
    ensures Value(d) == Value(d[..m]) * Power10(|d| - m) + Value(d[m..])
    ensures Value(d[m..]) < Power10(|d| - m)
  {
    hide Value, Power10;
    assert d == d[..m] + d[m..];
    ValueConcat(d[..m], d[m..]);
    ValueBound(d[m..]);
  }

  lemma Scaled(a: nat, p: nat, low: nat, all: nat)
    requires all == a * p + low && low < p
    ensures a * p <= all < (a + 1) * p
    ensures all == a * p <==> low == 0
    ensures 2 * low < p <==> 2 * all < (2 * a + 1) * p
  {
    assert (a + 1) * p == a * p + p;
    assert (2 * a + 1) * p == 2 * (a * p) + p;
  }

  lemma {:induction false} ZeroValue(d: Bytes)
    requires AllDigits(d)
    ensures Value(d) == 0 <==> AllZero(d)
  {
    if d != [] {
      ZeroValue(d[..|d| - 1]);
      AllZeroSnoc(d[..|d| - 1], d[|d| - 1]);
      assert d[..|d| - 1] + [d[|d| - 1]] == d;
    }
  }

  lemma FirstDigit(d: Bytes)
    requires AllDigits(d) && d != []
    ensures Digit(d[0]) < 5 <==> 2 * Value(d) < Power10(|d|)
  {
    var first, rest := d[..1], d[1..];
    assert d == first + rest;
    ValueConcat(first, rest);
    ValueBound(rest);
    assert first[..0] == [];
    assert Value(first) == Digit(d[0]);
    assert Power10(|d|) == 10 * Power10(|rest|);
    hide Value, Power10;
    Halves(Digit(d[0]), Power10(|rest|), Value(rest));
  }

  lemma Halves(f: nat, q: nat, r: nat)
    requires r < q
    ensures f < 5 <==> 2 * (f * q + r) < 10 * q
  {
    if f < 5 {
      assert f * q <= 4 * q;
    } else {
      assert f * q >= 5 * q;
    }
  }

  /** Once an integer overflows, its exact digits are the token's own. */
  lemma BigIsWhole(whole: Bytes)
    requires Canonical(whole)
    ensures Big(whole) == if Value(whole) > I64_MAX then whole else []
  {
    hide Kept, Value, Decimal;
    var m := Kept(whole);
    KeptIsLongest(whole);
    if m < |whole| {
      AnyDigitFits(whole);
      CanonicalFront(whole, m);
      DecimalOfValue(whole[..m]);
      PrefixOverflows(whole, m);
      hide AllDigits, Canonical;
      Within(whole, [], m);
    } else {
      assert whole[..m] == whole;
    }
  }

  lemma CanonicalFront(d: Bytes, m: nat)
    requires Canonical(d) && 0 < m < |d|
    ensures Canonical(d[..m])
  {
  }

  lemma {:induction false} AnyDigitFits(d: Bytes)
    requires AllDigits(d) && d != []
    ensures Kept(d) > 0
  {
    if |d| == 1 {
      assert Value(d[..0]) == 0 && Kept(d[..0]) == 0;
    } else {
      AnyDigitFits(d[..|d| - 1]);
    }
  }

  lemma {:induction false} PrefixOverflows(d: Bytes, m: nat)
    requires AllDigits(d) && m < |d| && Value(d[..m]) * 10 + Digit(d[m]) > I64_MAX
    ensures Value(d) > I64_MAX
    decreases |d|
  {
    var init := d[..|d| - 1];
    if m < |init| {
      assert init[..m] == d[..m];
      PrefixOverflows(init, m);
    } else {
      assert init == d[..m];
    }
  }

  // ---------- Exponents ----------

  /** The exponent read is the true one unless both are huge, and it fits an i32. */
  lemma {:induction false} SaturationIsLate(e: Bytes)
    requires AllDigits(e)
    ensures Saturated(e) < 1_000_000
    ensures if Saturated(e) < EXPONENT_SATURATES then Saturated(e) == Value(e) else Value(e) >= Saturated(e)
  {
    if e != [] {
      SaturationIsLate(e[..|e| - 1]);
    }
  }

  function Zeros(n: nat): (s: Bytes)
    ensures |s| == n && AllDigits(s) && AllZero(s)
  {
    seq(n, _ => ZERO)
  }

  lemma {:induction false} KeepsZeros(d: Bytes)
    requires AllDigits(d) && AllZero(d)
    ensures Kept(d) == |d|
  {
    if d != [] {
      KeepsZeros(d[..|d| - 1]);
      ZeroValue(d);
    }
  }

  /** Whatever is read, the accumulators stay as narrow as its length. */
  lemma {:induction false} ReadStaysNarrow(n: Num, s: Bytes)
    requires n.stage != Idle && Narrow(n) && Read(n, s).Some?
    ensures Narrow(Read(n, s).value)
    decreases |s|
  {
    if s != [] {
      StaysNarrow(n, s[0]);
      ReadStaysNarrow(Continue(n, s[0]).num, s[1..]);
    }
  }

  /** In a token of at most 1000 bytes, the power of ten computed is the true one,
      or both are beyond 99000 on the same side, where every verdict is the same. */
  lemma SaturationIsHarmless(t: Token)
    requires WellFormed(t) && |Text(t)| <= 1000 && RealOf(t).Real?
    ensures var d := t.whole + FractionDigits(t);
            var shift := (|d| - Kept(d)) - |FractionDigits(t)|;
            var computed := RealOf(t).power;
            var exact := shift + (if t.exponent.NoExponent? then 0 else Signed(t.exponent.sign == Some(MINUS), Value(t.exponent.digits)));
            computed == exact || (computed >= 99_000 && exact >= 99_000) || (computed <= -99_000 && exact <= -99_000)
  {
    if t.exponent.ExponentPart? {
      SaturationIsLate(t.exponent.digits);
    }
  }

  // ---------- Reading a token ----------

  /** The state after the bytes `s`, if they all belong to the number. */
  function Read(n: Num, s: Bytes): (r: Option<Num>)
    requires n.stage != Idle
    ensures r.Some? ==> r.value.stage != Idle && r.value.length == n.length + |s|
    decreases |s|
  {
    if s == [] then Some(n)
    else
      match Continue(n, s[0])
      case Next(m) => Read(m, s[1..])
      case _ => None
  }

  lemma {:induction false} ReadConcat(n: Num, a: Bytes, b: Bytes)
    requires n.stage != Idle
    ensures Read(n, a + b) == match Read(n, a) case None => None case Some(m) => Read(m, b)
    decreases |a|
  {
    if a == [] {
      assert a + b == b;
    } else {
      assert (a + b)[1..] == a[1..] + b;
      match Continue(n, a[0])
      case Next(m) => ReadConcat(m, a[1..], b);
      case _ =>
    }
  }

  lemma {:induction false} ReadOne(n: Num, b: Byte)
    requires n.stage != Idle
    ensures Read(n, [b]) == match Continue(n, b) case Next(m) => Some(m) case _ => None
  {
  }

  /** A byte, and then more. */
  lemma ReadByteThen(n: Num, b: Byte, m: Num, rest: Bytes, k: Num)
    requires n.stage != Idle && Continue(n, b) == Next(m) && Read(m, rest) == Some(k)
    ensures Read(n, [b] + rest) == Some(k)
  {
    assert ([b] + rest)[1..] == rest;
  }

  /** The digits of an integer part, one by one. */
  lemma {:induction false} ReadWhole(n: Num, whole: Bytes, more: Bytes)
    requires n.stage == Integer && AllDigits(whole) && AllDigits(more)
    ensures Read(Accumulated(n, whole, 0, Big(whole)), more)
         == Some(Accumulated(n.(length := n.length + |more|), whole + more, 0, Big(whole + more)))
    decreases |more|
  {
    hide Accumulated, TakeDigit, Big;
    if more == [] {
      assert whole + more == whole;
    } else {
      AccumulatedFields(n, whole, 0, Big(whole));
      WholeDigit(n, whole, more[0]);
      var next := n.(length := n.length + 1);
      AccumulatedLength(n, whole + [more[0]], 0, Big(whole + [more[0]]));
      assert whole + [more[0]] + more[1..] == whole + more;
      ReadWhole(next, whole + [more[0]], more[1..]);
    }
  }

  lemma {:induction false} ReadFraction(n: Num, whole: Bytes, d: Bytes, f: nat, more: Bytes)
    requires n.stage == Fraction && AllDigits(whole) && AllDigits(d) && whole <= d && AllDigits(more)
    ensures Read(Accumulated(n, d, f, Big(whole)), more)
         == Some(Accumulated(n.(length := n.length + |more|), d + more, f + |more|, Big(whole)))
    decreases |more|
  {
    hide Accumulated, TakeDigit, Big;
    if more == [] {
      assert d + more == d;
    } else {
      AccumulatedFields(n, d, f, Big(whole));
      FractionDigit(n, whole, d, f, more[0]);
      var next := n.(length := n.length + 1);
      AccumulatedLength(n, d + [more[0]], f + 1, Big(whole));
      assert d + [more[0]] + more[1..] == d + more;
      ReadFraction(next, whole, d + [more[0]], f + 1, more[1..]);
    }
  }

  lemma AccumulatedFields(n: Num, d: Bytes, f: nat, big: Bytes)
    requires AllDigits(d)
    ensures var a := Accumulated(n, d, f, big);
            a.stage == n.stage && a.length == n.length && a.negative == n.negative && a.isReal == n.isReal
            && a.exponent == n.exponent && a.exponentNegative == n.exponentNegative
  {
  }

  lemma AccumulatedLength(n: Num, d: Bytes, f: nat, big: Bytes)
    requires AllDigits(d)
    ensures Accumulated(n, d, f, big).(length := n.length + 1) == Accumulated(n.(length := n.length + 1), d, f, big)
  {
  }

  lemma NextOfExponent(n: Num, e: Bytes, b: Byte)
    requires n.stage == Exponent && AllDigits(e) && IsDigit(b) && n.exponent == Saturated(e)
    ensures Continue(n, b) == Next(n.(exponent := Saturated(e + [b]), length := n.length + 1))
  {
    assert (e + [b])[..|e|] == e;
  }

  lemma {:induction false} ReadExponent(n: Num, e: Bytes, more: Bytes)
    requires n.stage == Exponent && AllDigits(e) && AllDigits(more) && n.exponent == Saturated(e)
    ensures Read(n, more) == Some(n.(length := n.length + |more|, exponent := Saturated(e + more)))
    decreases |more|
  {
    if more == [] {
      assert e + more == e;
    } else {
      var next := n.(exponent := Saturated(e + [more[0]]), length := n.length + 1);
      NextOfExponent(n, e, more[0]);
      hide Continue, Saturated;
      assert e + [more[0]] + more[1..] == e + more;
      ReadExponent(next, e + [more[0]], more[1..]);
    }
  }

  /** A number of which only the sign and the length are known. */
  function Blank(negative: bool, stage: Stage, length: nat): Num {
    Num(stage, negative, false, length, 0, false, 0, false, -1, false, 0, [])
  }

  lemma FirstAccumulated(n: Num, b: Byte)
    requires n == Blank(n.negative, n.stage, n.length) && IsDigit(b)
    ensures Accumulated(n, [b], 0, Big([b])) == n.(mantissa := Digit(b))
  {
    assert [b][..0] == [] && [b][..1] == [b] && [b][1..] == [];
    assert Value([b][..0]) == 0 && Kept([b][..0]) == 0;
    assert Value([b]) == Digit(b);
  }

  /** The state after the sign and the integer part. */
  function AfterWhole(t: Token): Num
    requires WellFormed(t)
  {
    Accumulated(Blank(t.negative, if t.whole == [ZERO] then Zero else Integer, |WholeText(t)|), t.whole, 0, Big(t.whole))
  }

  lemma ReadWholeText(t: Token)
    requires WellFormed(t)
    ensures var w := WholeText(t);
            (w[0] == MINUS || IsDigit(w[0])) && Read(Start(w[0]), w[1..]) == Some(AfterWhole(t))
  {
    var first, rest := t.whole[0], t.whole[1..];
    var start := Blank(t.negative, if t.whole == [ZERO] then Zero else Integer, if t.negative then 2 else 1).(mantissa := Digit(first));
    assert t.whole == [first] + rest;
    WholeTextTail(t);
    ReadRestOfWhole(t);
    if t.negative {
      FirstAfterMinus(first);
      hide Read, AfterWhole, Continue;
      ReadByteThen(Start(MINUS), first, start, rest, AfterWhole(t));
    } else {
      hide Read, AfterWhole;
      assert Start(first) == start;
    }
  }

  lemma WholeTextTail(t: Token)
    requires t.whole != []
    ensures WholeText(t)[1..] == if t.negative then [t.whole[0]] + t.whole[1..] else t.whole[1..]
  {
  }

  lemma ReadRestOfWhole(t: Token)
    requires WellFormed(t)
    ensures var start := Blank(t.negative, if t.whole == [ZERO] then Zero else Integer, if t.negative then 2 else 1);
            Read(start.(mantissa := Digit(t.whole[0])), t.whole[1..]) == Some(AfterWhole(t))
  {
    hide Accumulated, Big;
    var first, rest := t.whole[0], t.whole[1..];
    var start := Blank(t.negative, if t.whole == [ZERO] then Zero else Integer, if t.negative then 2 else 1);
    FirstAccumulated(start, first);
    assert [first] + rest == t.whole;
    if t.whole != [ZERO] {
      ReadWhole(start, [first], rest);
    }
  }

  lemma FirstAfterMinus(first: Byte)
    requires IsDigit(first)
    ensures Continue(Start(MINUS), first)
         == Next(if first == ZERO then Blank(true, Zero, 2) else Blank(true, Integer, 2).(mantissa := Digit(first)))
  {
  }

  /** The state after a fraction too. */
  function AfterFraction(t: Token): Num
    requires WellFormed(t)
  {
    if t.fraction.None? then AfterWhole(t)
    else
      var n := Blank(t.negative, Fraction, |WholeText(t)| + |FractionText(t)|).(isReal := true);
      Accumulated(n, t.whole + t.fraction.value, |t.fraction.value|, Big(t.whole))
  }

  lemma ReadFractionText(t: Token)
    requires WellFormed(t)
    ensures Read(AfterWhole(t), FractionText(t)) == Some(AfterFraction(t))
  {
    if t.fraction.Some? {
      var n := AfterWhole(t);
      var dotted := n.(isReal := true, stage := FractionDot, length := n.length + 1);
      assert Continue(n, DOT) == Next(dotted);
      hide Read, AfterFraction, Continue;
      ReadFractionDigits(t, dotted);
      ReadByteThen(n, DOT, dotted, t.fraction.value, AfterFraction(t));
    }
  }

  /** The state after the first digit of the fraction. */
  function FractionBegun(t: Token): Num
    requires WellFormed(t) && t.fraction.Some?
  {
    Accumulated(Blank(t.negative, Fraction, |WholeText(t)| + 2).(isReal := true), t.whole + [t.fraction.value[0]], 1, Big(t.whole))
  }

  lemma ReadFractionDigits(t: Token, dotted: Num)
    requires WellFormed(t) && t.fraction.Some?
    requires dotted == AfterWhole(t).(isReal := true, stage := FractionDot, length := AfterWhole(t).length + 1)
    ensures Read(dotted, t.fraction.value) == Some(AfterFraction(t))
  {
    var f := t.fraction.value;
    ReadFirstOfFraction(t, f[0]);
    ReadRestOfFraction(t);
    assert [f[0]] + f[1..] == f;
    assert dotted.stage != Idle;
    assert Continue(dotted, f[0]) == Next(FractionBegun(t));
    hide *;
    ReadByteThen(dotted, f[0], FractionBegun(t), f[1..], AfterFraction(t));
  }

  lemma ReadRestOfFraction(t: Token)
    requires WellFormed(t) && t.fraction.Some?
    ensures Read(FractionBegun(t), t.fraction.value[1..]) == Some(AfterFraction(t))
  {
    hide Read, Accumulated, Big, AfterFraction, FractionBegun, AllDigits, Canonical, WholeText;
    var base := Blank(t.negative, Fraction, |WholeText(t)| + 2).(isReal := true);
    FractionOf(t, base);
    hide *;
    ReadFractionRest(base, t.whole, t.fraction.value);
  }

  lemma FractionOf(t: Token, base: Num)
    requires WellFormed(t) && t.fraction.Some? && base == Blank(t.negative, Fraction, |WholeText(t)| + 2).(isReal := true)
    ensures var f := t.fraction.value;
            && base.stage == Fraction && f != []
            && AllDigits(t.whole) && AllDigits(f) && AllDigits(t.whole + [f[0]]) && AllDigits(t.whole + f)
            && FractionBegun(t) == Accumulated(base, t.whole + [f[0]], 1, Big(t.whole))
            && AfterFraction(t) == Accumulated(base.(length := base.length + (|f| - 1)), t.whole + f, |f|, Big(t.whole))
  {
    hide Accumulated, Big;
  }

  lemma ReadFractionRest(base: Num, whole: Bytes, f: Bytes)
    requires base.stage == Fraction && AllDigits(whole) && AllDigits(f) && f != []
    ensures AllDigits(whole + f) && AllDigits(whole + [f[0]])
    ensures Read(Accumulated(base, whole + [f[0]], 1, Big(whole)), f[1..])
         == Some(Accumulated(base.(length := base.length + (|f| - 1)), whole + f, |f|, Big(whole)))
  {
    hide Read, Accumulated, Big;
    ReadFraction(base, whole, whole + [f[0]], 1, f[1..]);
    Assoc(whole, [f[0]], f[1..]);
    assert [f[0]] + f[1..] == f;
  }

  lemma ReadFirstOfFraction(t: Token, first: Byte)
    requires WellFormed(t) && IsDigit(first)
    ensures var n := AfterWhole(t);
            var dotted := n.(isReal := true, stage := FractionDot, length := n.length + 1);
            var base := Blank(t.negative, Fraction, |WholeText(t)| + 2).(isReal := true);
            Continue(dotted, first) == Next(Accumulated(base, t.whole + [first], 1, Big(t.whole)))
  {
    hide TakeDigit, Kept, Value, Big;
    var base := Blank(t.negative, Fraction, |WholeText(t)| + 1).(isReal := true);
    FractionDigit(base, t.whole, t.whole, 0, first);
  }

  /** The state after the whole token. */
  function AfterToken(t: Token): Num
    requires WellFormed(t)
  {
    if t.exponent.NoExponent? then AfterFraction(t)
    else
      AfterFraction(t).(isReal := true, stage := Exponent, length := |Text(t)|,
                        exponentNegative := t.exponent.sign == Some(MINUS), exponent := Saturated(t.exponent.digits))
  }

  lemma AfterFractionFields(t: Token)
    requires WellFormed(t)
    ensures var n := AfterFraction(t);
            && n.stage == (if t.fraction.Some? then Fraction else if t.whole == [ZERO] then Zero else Integer)
            && n.length == |WholeText(t)| + |FractionText(t)| && n.negative == t.negative
            && n.isReal == t.fraction.Some? && n.exponent == 0 && !n.exponentNegative
  {
  }

  lemma ReadExponentText(t: Token)
    requires WellFormed(t)
    ensures Read(AfterFraction(t), ExponentText(t.exponent)) == Some(AfterToken(t))
  {
    if t.exponent.ExponentPart? {
      AfterFractionFields(t);
      var n, e := AfterFraction(t), t.exponent;
      var marked := n.(isReal := true, stage := ExponentMark, length := n.length + 1);
      MarkOfExponent(n, e.mark);
      ReadExponentDigits(marked, e);
      hide AfterFraction, Read, Continue, WellFormed, Canonical, Saturated, WholeText, FractionText, AllDigits, IsExponentMark;
      var tail := (if e.sign.Some? then [e.sign.value] else []) + e.digits;
      assert ExponentText(e) == [e.mark] + tail;
      ReadByteThen(n, e.mark, marked, tail, AfterToken(t));
    }
  }

  lemma MarkOfExponent(n: Num, b: Byte)
    requires (n.stage == Zero || n.stage == Integer || n.stage == Fraction) && IsExponentMark(b)
    ensures Continue(n, b) == Next(n.(isReal := true, stage := ExponentMark, length := n.length + 1))
  {
  }

  lemma ReadExponentDigits(marked: Num, e: ExponentPart)
    requires marked.stage == ExponentMark && marked.exponent == 0 && !marked.exponentNegative
    requires e.ExponentPart? && AllDigits(e.digits) && e.digits != []
    requires e.sign.Some? ==> e.sign.value == PLUS || e.sign.value == MINUS
    ensures var tail := (if e.sign.Some? then [e.sign.value] else []) + e.digits;
            Read(marked, tail) == Some(marked.(stage := Exponent, length := marked.length + |tail|,
                                               exponentNegative := e.sign == Some(MINUS), exponent := Saturated(e.digits)))
  {
    hide Read, Continue, Saturated;
    if e.sign.Some? {
      var signed := marked.(stage := ExponentSign, exponentNegative := e.sign.value == MINUS, length := marked.length + 1);
      SignOfExponent(marked, e.sign.value);
      var last := signed.(stage := Exponent, length := signed.length + |e.digits|, exponent := Saturated(e.digits));
      ReadUnsignedExponent(signed, e.digits);
      ReadByteThen(marked, e.sign.value, signed, e.digits, last);
    } else {
      assert [] + e.digits == e.digits;
      ReadUnsignedExponent(marked, e.digits);
    }
  }

  lemma ReadUnsignedExponent(n: Num, digits: Bytes)
    requires (n.stage == ExponentMark || n.stage == ExponentSign) && n.exponent == 0 && AllDigits(digits) && digits != []
    ensures Read(n, digits) == Some(n.(stage := Exponent, length := n.length + |digits|, exponent := Saturated(digits)))
  {
    hide Read, Continue, Saturated;
    var first, rest := digits[0], digits[1..];
    var started := n.(stage := Exponent, exponent := Digit(first), length := n.length + 1);
    assert [first] + rest == digits && AllDigits([first]) && AllDigits(rest);
    FirstOfExponent(n, first);
    hide *;
    ReadExponent(started, [first], rest);
    ReadByteThen(n, first, started, rest, started.(length := started.length + |rest|, exponent := Saturated(digits)));
  }

  lemma SignOfExponent(n: Num, b: Byte)
    requires n.stage == ExponentMark && (b == PLUS || b == MINUS)
    ensures Continue(n, b) == Next(n.(stage := ExponentSign, exponentNegative := b == MINUS, length := n.length + 1))
  {
  }

  lemma FirstOfExponent(n: Num, first: Byte)
    requires (n.stage == ExponentMark || n.stage == ExponentSign) && n.exponent == 0 && IsDigit(first)
    ensures Saturated([first]) == Digit(first)
    ensures Continue(n, first) == Next(n.(stage := Exponent, exponent := Digit(first), length := n.length + 1))
  {
    assert [first][..0] == [];
  }

  /** Every well-formed token is read, to an end, with its meaning. */
  lemma ReadToken(t: Token)
    requires WellFormed(t)
    ensures var s := Text(t);
            && s != [] && (s[0] == MINUS || IsDigit(s[0]))
            && Read(Start(s[0]), s[1..]) == Some(AfterToken(t))
            && Complete(AfterToken(t))
            && NumberValue(AfterToken(t)) == Meaning(t)
            && AfterToken(t).length == |s|
  {
    var w, f, e := WholeText(t), FractionText(t), ExponentText(t.exponent);
    var s := Text(t);
    assert s[1..] == (w[1..] + f) + e && s[0] == w[0];
    MeaningFound(t);
    AfterFractionFields(t);
    ReadWholeText(t);
    ReadFractionText(t);
    ReadExponentText(t);
    hide Read, AfterWhole, AfterFraction, Meaning;
    ReadConcat(Start(w[0]), w[1..] + f, e);
    ReadConcat(Start(w[0]), w[1..], f);
  }

  // ---------- Where 32 bits are enough ----------

  /** In every state that a token in range reaches, nothing computed has overflowed 32 bits. */
  lemma ReadStaysInRange(first: Byte, rest: Bytes)
    requires (first == MINUS || IsDigit(first)) && Read(Start(first), rest).Some?
    requires 1 + |rest| <= LENGTH_IN_RANGE
    ensures InRange(Read(Start(first), rest).value)
  {
    ReadStaysNarrow(Start(first), rest);
    NarrowIsInRange(Read(Start(first), rest).value);
  }

  predicate PowerFits(t: Token)
    requires WellFormed(t)
  {
    I32_MIN <= RealOf(t).power <= I32_MAX
  }

  lemma PowerIsFound(t: Token)
    requires WellFormed(t)
    ensures var n := AfterToken(t);
            RealOf(t).power == Signed(n.exponentNegative, n.exponent) + n.shift
  {
    hide Value, Kept, Big;
    if t.fraction.None? {
      assert t.whole + FractionDigits(t) == t.whole;
    }
  }

  /** The power of ten of a token in range fits 32 bits. */
  lemma PowerInRange(t: Token)
    requires WellFormed(t) && |Text(t)| <= LENGTH_IN_RANGE
    ensures PowerFits(t)
  {
    hide Read, AfterToken, RealOf, WellFormed, Text;
    ReadToken(t);
    PowerIsFound(t);
    ReadStaysInRange(Text(t)[0], Text(t)[1..]);
  }

  /** `0.`, as many zeros as this, and `e-999999`. */
  function LongFraction(zeros: nat): Token {
    Token(false, [ZERO], Some(Zeros(zeros)), ExponentPart(0x65, Some(MINUS), [NINE, NINE, NINE, NINE, NINE, NINE]))
  }

  lemma LongFractionPower(zeros: nat)
    requires zeros > 0
    ensures var t := LongFraction(zeros);
            WellFormed(t) && |Text(t)| == zeros + 10 && RealOf(t).power == -999_999 - zeros
  {
    KeepsZeros([ZERO] + Zeros(zeros));
    SixNines();
  }

  lemma SixNines()
    ensures Saturated([NINE, NINE, NINE, NINE, NINE, NINE]) == 999_999
  {
    var e := [NINE, NINE, NINE, NINE, NINE, NINE];
    assert e[..5][..4] == e[..4] && e[..4][..3] == e[..3] && e[..3][..2] == e[..2] && e[..2][..1] == e[..1];
    assert Saturated(e[..0]) == 0;
    assert Saturated(e[..1]) == 9 by { assert e[..1][..0] == e[..0]; }
    assert Saturated(e[..2]) == 99;
    assert Saturated(e[..3]) == 999;
    assert Saturated(e[..4]) == 9_999;
    assert Saturated(e[..5]) == 99_999;
  }

  /** No token of at most `limit` bytes has a power of ten that overflows, exactly if
      the limit is in range. */
  lemma RangeIsExact(limit: nat)
    ensures (forall t: Token :: WellFormed(t) && |Text(t)| <= limit ==> PowerFits(t)) <==> limit <= LENGTH_IN_RANGE
  {
    hide WellFormed, Text, PowerFits;
    if limit <= LENGTH_IN_RANGE {
      forall t: Token | WellFormed(t) && |Text(t)| <= limit
        ensures PowerFits(t)
      {
        PowerInRange(t);
      }
    } else {
      var t := LongFraction(LENGTH_IN_RANGE - 9);
      LongFractionPower(LENGTH_IN_RANGE - 9);
      assert !PowerFits(t) by {
        TooLow(t);
      }
    }
  }

  lemma TooLow(t: Token)
    requires WellFormed(t) && RealOf(t).power < I32_MIN
    ensures !PowerFits(t)
  {
  }

  lemma MeaningFound(t: Token)
    requires WellFormed(t)
    ensures NumberValue(AfterToken(t)) == Meaning(t)
  {
    hide Value, Kept, Big;
    var d := t.whole + FractionDigits(t);
    if t.fraction.None? {
      assert d == t.whole;
    }
    KeptIsLongest(t.whole);
    BigIsWhole(t.whole);
    if Kept(d) == |d| {
      assert d[Kept(d)..] == [];
    }
    if t.fraction.None? && t.exponent.NoExponent? {
      IntegerKept(t.whole);
    }
  }

  lemma IntegerKept(whole: Bytes)
    requires Canonical(whole)
    ensures Value(whole) <= I64_MAX ==> Value(whole[..Kept(whole)]) == Value(whole)
  {
    var m := Kept(whole);
    KeptIsLongest(whole);
    if m < |whole| {
      PrefixOverflows(whole, m);
    } else {
      assert whole[..m] == whole;
    }
  }

  // ---------- Nothing else is read ----------

  predicate GoodFraction(fraction: Option<Bytes>) {
    fraction.Some? ==> AllDigits(fraction.value) && fraction.value != []
  }

  /** The parts of a token of which the bytes up to this stage have been read. */
  predicate Shape(stage: Stage, t: Token) {
    match stage
    case Idle => false
    case AfterMinus => t == Token(true, [], None, NoExponent)
    case Zero => t.whole == [ZERO] && t.fraction.None? && t.exponent.NoExponent?
    case Integer => Canonical(t.whole) && t.whole[0] != ZERO && t.fraction.None? && t.exponent.NoExponent?
    case FractionDot => Canonical(t.whole) && t.fraction == Some([]) && t.exponent.NoExponent?
    case Fraction => Canonical(t.whole) && t.fraction.Some? && GoodFraction(t.fraction) && t.exponent.NoExponent?
    case ExponentMark =>
      Canonical(t.whole) && GoodFraction(t.fraction) && t.exponent.ExponentPart?
      && IsExponentMark(t.exponent.mark) && t.exponent.sign.None? && t.exponent.digits == []
    case ExponentSign =>
      Canonical(t.whole) && GoodFraction(t.fraction) && t.exponent.ExponentPart?
      && IsExponentMark(t.exponent.mark) && t.exponent.sign in {Some(PLUS), Some(MINUS)} && t.exponent.digits == []
    case Exponent =>
      WellFormed(t) && t.exponent.ExponentPart?
  }

  /** The parts with one more byte. */
  function Extend(stage: Stage, t: Token, b: Byte): Token {
    match stage
    case FractionDot => t.(fraction := Some([b]))
    case ExponentMark =>
      if t.exponent.NoExponent? then t
      else if IsDigit(b) then t.(exponent := t.exponent.(digits := [b]))
      else t.(exponent := t.exponent.(sign := Some(b)))
    case ExponentSign =>
      if t.exponent.NoExponent? then t else t.(exponent := t.exponent.(digits := [b]))
    case Exponent =>
      if t.exponent.NoExponent? then t else t.(exponent := t.exponent.(digits := t.exponent.digits + [b]))
    case _ =>
      if b == DOT then t.(fraction := Some([]))
      else if IsExponentMark(b) then t.(exponent := ExponentPart(b, None, []))
      else if stage == Fraction && t.fraction.Some? then t.(fraction := Some(t.fraction.value + [b]))
      else t.(whole := t.whole + [b])
  }

  lemma ShapeStep(n: Num, t: Token, b: Byte)
    requires n.stage != Idle && Shape(n.stage, t) && Continue(n, b).Next?
    ensures Shape(Continue(n, b).num.stage, Extend(n.stage, t, b))
    ensures Text(Extend(n.stage, t, b)) == Text(t) + [b]
  {
    hide Continue, Shape, Extend, Text;
    if n.stage == AfterMinus || n.stage == Zero || n.stage == Integer {
      if IsDigit(b) {
        ShapeStepWhole(n, t, b);
      } else {
        ShapeStepMark(n, t, b);
      }
    } else if n.stage == FractionDot || n.stage == Fraction {
      ShapeStepFraction(n, t, b);
    } else {
      ShapeStepExponent(n, t, b);
    }
  }

  lemma ShapeStepWhole(n: Num, t: Token, b: Byte)
    requires (n.stage == AfterMinus || n.stage == Integer || n.stage == Zero) && IsDigit(b)
    requires Shape(n.stage, t) && Continue(n, b).Next?
    ensures Shape(Continue(n, b).num.stage, Extend(n.stage, t, b))
    ensures Text(Extend(n.stage, t, b)) == Text(t) + [b]
  {
    hide TakeDigit, TakeExponentDigit, Text;
    TextWithWhole(t, t.whole + [b]);
    Assoc(if t.negative then [MINUS] else [], t.whole, [b]);
    assert n.stage == AfterMinus ==> [] + [b] == [b];
  }

  lemma TextWithWhole(t: Token, whole: Bytes)
    requires t.fraction.None? && t.exponent.NoExponent?
    ensures Text(t) == WholeText(t)
    ensures Text(t.(whole := whole)) == (if t.negative then [MINUS] else []) + whole
  {
  }

  lemma TextWithFraction(t: Token, fraction: Bytes)
    requires t.exponent.NoExponent?
    ensures Text(t) == WholeText(t) + FractionText(t)
    ensures Text(t.(fraction := Some(fraction))) == WholeText(t) + ([DOT] + fraction)
  {
  }

  lemma TextWithExponent(t: Token, e: ExponentPart)
    ensures t.exponent.NoExponent? ==> Text(t) == WholeText(t) + FractionText(t)
    ensures Text(t.(exponent := e)) == WholeText(t) + FractionText(t) + ExponentText(e)
  {
  }

  lemma ShapeStepMark(n: Num, t: Token, b: Byte)
    requires (n.stage == Integer || n.stage == Zero || n.stage == AfterMinus || n.stage == Fraction) && !IsDigit(b)
    requires Shape(n.stage, t) && Continue(n, b).Next?
    ensures Shape(Continue(n, b).num.stage, Extend(n.stage, t, b))
    ensures Text(Extend(n.stage, t, b)) == Text(t) + [b]
  {
    hide TakeDigit, TakeExponentDigit, Text, WholeText;
    if b == DOT {
      TextWithFraction(t, []);
    } else {
      TextWithExponent(t, ExponentPart(b, None, []));
    }
  }

  lemma ShapeStepFraction(n: Num, t: Token, b: Byte)
    requires (n.stage == FractionDot || n.stage == Fraction) && Shape(n.stage, t) && Continue(n, b).Next?
    ensures Shape(Continue(n, b).num.stage, Extend(n.stage, t, b))
    ensures Text(Extend(n.stage, t, b)) == Text(t) + [b]
  {
    if IsDigit(b) {
      hide TakeDigit, TakeExponentDigit, Canonical, Text, WholeText;
      TextWithFraction(t, t.fraction.value + [b]);
      Assoc(WholeText(t), FractionText(t), [b]);
      Assoc([DOT], t.fraction.value, [b]);
      assert n.stage == FractionDot ==> [] + [b] == [b];
    } else {
      hide Text, Extend;
      ShapeStepMark(n, t, b);
    }
  }

  lemma ShapeStepExponent(n: Num, t: Token, b: Byte)
    requires (n.stage == ExponentMark || n.stage == ExponentSign || n.stage == Exponent) && Shape(n.stage, t) && Continue(n, b).Next?
    ensures Shape(Continue(n, b).num.stage, Extend(n.stage, t, b))
    ensures Text(Extend(n.stage, t, b)) == Text(t) + [b]
  {
    hide TakeDigit, TakeExponentDigit, Canonical, Text, WholeText, FractionText;
    var e := Extend(n.stage, t, b).exponent;
    TextWithExponent(t, e);
    TextWithExponent(t, t.exponent);
    Assoc(WholeText(t) + FractionText(t), ExponentText(t.exponent), [b]);
  }

  /** Whatever has been read is the front of a token. */
  lemma {:induction false} ShapeOf(s: Bytes) returns (t: Token)
    requires s != [] && (s[0] == MINUS || IsDigit(s[0])) && Read(Start(s[0]), s[1..]).Some?
    ensures Shape(Read(Start(s[0]), s[1..]).value.stage, t) && Text(t) == s
    decreases |s|
  {
    if |s| == 1 {
      t := if s[0] == MINUS then Token(true, [], None, NoExponent) else Token(false, s, None, NoExponent);
    } else {
      var init, b := s[..|s| - 1], s[|s| - 1];
      assert s[1..] == init[1..] + [b] && s == init + [b];
      ReadConcat(Start(s[0]), init[1..], [b]);
      t := ShapeOf(init);
      var n := Read(Start(s[0]), init[1..]).value;
      ReadOne(n, b);
      ShapeStep(n, t, b);
      t := Extend(n.stage, t, b);
    }
  }

  /** Whatever is read to an end is a well-formed token. */
  lemma TokenOf(s: Bytes) returns (t: Token)
    requires s != [] && (s[0] == MINUS || IsDigit(s[0]))
    requires Read(Start(s[0]), s[1..]).Some? && Complete(Read(Start(s[0]), s[1..]).value)
    ensures WellFormed(t) && Text(t) == s
  {
    t := ShapeOf(s);
  }
}
