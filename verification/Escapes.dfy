// Escape sequences in strings (section 7 of RFC 8259): what they stand for, as
// far as the bytes that have arrived can tell.
module Escapes {
  import opened Base
  import Utf8

  const REPLACEMENT := 0xFFFD

  function Unhex(b: Byte): (r: Option<nat>)
    ensures r.Some? ==> r.value < 16
  {
    if IsDigit(b) then Some(b - ZERO)
    else if 0x41 <= b <= 0x46 then Some(b - 0x41 + 10)
    else if 0x61 <= b <= 0x66 then Some(b - 0x61 + 10)
    else None
  }

  datatype Escape = NeedMore | Invalid | Unit(unit: nat, len: nat)

  function Power16(n: nat): nat {
    if n == 0 then 1 else 16 * Power16(n - 1)
  }

  /** Reads the hex digits at `[k, 6)` of `s` onto `value`. */
  function HexUnit(s: Bytes, k: nat, value: nat): (e: Escape)
    requires 2 <= k <= 6 && value < Power16(k - 2)
    ensures e.Unit? ==> e.unit < 0x10000 && e.len == 6 <= |s|
    ensures e.NeedMore? ==> |s| < 6
    decreases 6 - k
  {
    if k == 6 then
      assert Power16(4) == 0x10000;
      if |s| < 6 then NeedMore else Unit(value, 6)
    else if k >= |s| then NeedMore
    else
      match Unhex(s[k])
      case None => Invalid
      case Some(d) => HexUnit(s, k + 1, value * 16 + d)
  }

  function SimpleEscape(c: Byte): Option<Byte> {
    if c == QUOTE || c == BACKSLASH || c == SLASH then Some(c)
    else if c == 0x62 then Some(0x08)
    else if c == 0x66 then Some(0x0C)
    else if c == 0x6E then Some(LF)
    else if c == 0x72 then Some(CR)
    else if c == 0x74 then Some(TAB)
    else None
  }

  const LETTER_U: Byte := 0x75

  /** The escape whose backslash is the first byte of `s`. */
  function ParseEscape(s: Bytes): (e: Escape)
    ensures e.Unit? ==> e.unit < 0x10000 && 2 <= e.len <= 6 && e.len <= |s|
    ensures e.NeedMore? ==> |s| < 6
  {
    if |s| < 2 then NeedMore
    else if s[1] == LETTER_U then HexUnit(s, 2, 0)
    else
      match SimpleEscape(s[1])
      case Some(c) => Unit(c, 2)
      case None => Invalid
  }

  predicate IsHigh(unit: int) {
    0xD800 <= unit < 0xDC00
  }

  predicate IsLow(unit: int) {
    0xDC00 <= unit < 0xE000
  }

  /** Whether a second escape completes a pair begun by a high surrogate. */
  datatype Follow = FollowNeedMore | Not | Low(unit: nat)

  function LowSurrogateFollows(s: Bytes): (f: Follow)
    ensures f.Low? ==> IsLow(f.unit) && |s| >= 6
    ensures f.FollowNeedMore? ==> |s| < 6
  {
    if s == [] then FollowNeedMore
    else if s[0] != BACKSLASH then Not
    else if |s| == 1 then FollowNeedMore
    else if s[1] != LETTER_U then Not
    else if |s| < 6 then FollowNeedMore
    else
      match HexUnit(s, 2, 0)
      case Unit(unit, _) => if IsLow(unit) then Low(unit) else Not
      case _ => Not
  }

  /** The character an escape stands for and the bytes it takes. */
  datatype Resolved = Need | Bad | Char(cp: int, len: nat)

  function Pair(high: int, low: int): (cp: int)
    requires IsHigh(high) && IsLow(low)
    ensures 0x10000 <= cp < 0x110000
  {
    0x10000 + (high - 0xD800) * 0x400 + (low - 0xDC00)
  }

  function Lone(unit: int): (cp: int)
    requires 0 <= unit < 0x10000
    ensures Utf8.IsScalar(cp)
  {
    if Utf8.IsScalar(unit) then unit else REPLACEMENT
  }

  /** What the front of `s` stands for: one escape, or two that make up a pair of
      surrogates. Half a pair stands for U+FFFD. */
  function Resolve(s: Bytes): (r: Resolved)
    ensures r.Char? ==> Utf8.IsScalar(r.cp) && 2 <= r.len <= 12 && r.len <= |s|
    ensures r.Need? ==> |s| <= 11
  {
    match ParseEscape(s)
    case NeedMore => Need
    case Invalid => Bad
    case Unit(unit, len) =>
      if !IsHigh(unit) then Char(Lone(unit), len)
      else
        match LowSurrogateFollows(s[len..])
        case FollowNeedMore => Need
        case Not => Char(REPLACEMENT, len)
        case Low(low) => Char(Pair(unit, low), len + 6)
  }

  // ---------- Decisions are stable ----------

  lemma {:induction false} HexUnitStable(s: Bytes, more: Bytes, k: nat, value: nat)
    requires 2 <= k <= 6 && value < Power16(k - 2)
    requires !HexUnit(s, k, value).NeedMore?
    ensures HexUnit(s + more, k, value) == HexUnit(s, k, value)
    decreases 6 - k
  {
    if k < 6 && Unhex(s[k]).Some? {
      HexUnitStable(s, more, k + 1, value * 16 + Unhex(s[k]).value);
    }
  }

  lemma ParseEscapeStable(s: Bytes, more: Bytes)
    requires !ParseEscape(s).NeedMore?
    ensures ParseEscape(s + more) == ParseEscape(s)
  {
    if s[1] == LETTER_U {
      HexUnitStable(s, more, 2, 0);
    }
  }

  lemma LowSurrogateFollowsStable(s: Bytes, more: Bytes)
    requires !LowSurrogateFollows(s).FollowNeedMore?
    ensures LowSurrogateFollows(s + more) == LowSurrogateFollows(s)
  {
    if |s| >= 6 {
      HexUnitStable(s, more, 2, 0);
    }
  }

  lemma ResolveStable(s: Bytes, more: Bytes)
    requires !Resolve(s).Need?
    ensures Resolve(s + more) == Resolve(s)
  {
    ParseEscapeStable(s, more);
    var e := ParseEscape(s);
    if e.Unit? && IsHigh(e.unit) {
      assert (s + more)[e.len..] == s[e.len..] + more;
      LowSurrogateFollowsStable(s[e.len..], more);
    }
  }

  /** Six bytes are enough to see one escape. */
  lemma PeekIsEnough(s: Bytes, head: Bytes)
    requires head == s[..Min(6, |s|)]
    ensures ParseEscape(s) == ParseEscape(head)
    ensures LowSurrogateFollows(s) == LowSurrogateFollows(head)
  {
    if |s| > 6 {
      assert s == head + s[6..];
      ParseEscapeStable(head, s[6..]);
      LowSurrogateFollowsStable(head, s[6..]);
    }
  }

  // ---------- A wait never blocks a document ----------

  lemma {:induction false} HexUnitGrows(s: Bytes, k: nat, value: nat)
    requires 2 <= k <= 6 && value < Power16(k - 2)
    requires HexUnit(s, k, value).NeedMore?
    ensures !HexUnit(s + [ZERO], k, value).Invalid?
    decreases 6 - k
  {
    if k < |s| {
      HexUnitGrows(s, k + 1, value * 16 + Unhex(s[k]).value);
    }
  }

  /** Some byte carries a wait on. */
  lemma {:induction false} WaitGoesOn(s: Bytes) returns (b: Byte)
    requires s != [] && s[0] == BACKSLASH && Resolve(s).Need?
    ensures !Resolve(s + [b]).Bad?
  {
    b := if ParseEscape(s).NeedMore? && |s| > 1 then ZERO else SLASH;
    if ParseEscape(s).NeedMore? {
      if |s| > 1 {
        HexUnitGrows(s, 2, 0);
      }
    } else {
      ParseEscapeStable(s, [b]);
      hide HexUnit;
      assert (s + [b])[6..] == s[6..] + [b];
    }
  }

  /** A wait can always be ended: some continuation turns it into a character. */
  lemma {:induction false} WaitCanEnd(s: Bytes) returns (more: Bytes)
    requires s != [] && s[0] == BACKSLASH && Resolve(s).Need?
    ensures Resolve(s + more).Char?
    decreases 12 - |s|
  {
    hide Resolve;
    var b := WaitGoesOn(s);
    more := [b];
    if Resolve(s + more).Need? {
      var rest := WaitCanEnd(s + more);
      assert s + (more + rest) == (s + more) + rest;
      more := more + rest;
    }
  }

  /** Whether `s`, an unfinished escape after a high surrogate, can still become a low one. */
  predicate CouldBeLow(s: Bytes) {
    && (|s| > 2 ==> s[2] == 0x64 || s[2] == 0x44)
    && (|s| > 3 ==> Unhex(s[3]).Some? && Unhex(s[3]).value >= 12)
    && (|s| > 4 ==> Unhex(s[4]).Some?)
  }

  /** The wait after a high surrogate goes on until the next escape is whole, so
      it can outlast the hope of a partner: exactly when `CouldBeLow` fails. */
  lemma WaitIsHopeful(s: Bytes)
    requires LowSurrogateFollows(s).FollowNeedMore?
    ensures (exists more :: LowSurrogateFollows(s + more).Low?) <==> CouldBeLow(s)
  {
    if CouldBeLow(s) {
      var more := [BACKSLASH, LETTER_U, 0x64, 0x63, ZERO, ZERO][|s|..];
      HexUnitSix(s + more);
      assert LowSurrogateFollows(s + more).Low?;
    }
    forall more | LowSurrogateFollows(s + more).Low?
      ensures CouldBeLow(s)
    {
      HexUnitSix(s + more);
    }
  }

  /** A byte that is no hex digit makes the escape invalid wherever it stands. */
  lemma {:induction false} HexUnitInvalid(s: Bytes, k: nat, value: nat, i: nat)
    requires 2 <= k <= i < 6 && i < |s| && value < Power16(k - 2) && Unhex(s[i]).None?
    ensures HexUnit(s, k, value).Invalid?
    decreases 6 - k
  {
    if Unhex(s[k]).Some? {
      HexUnitInvalid(s, k + 1, value * 16 + Unhex(s[k]).value, i);
    }
  }

  lemma HexUnitSix(s: Bytes)
    requires |s| >= 6
    ensures HexUnit(s, 2, 0).Unit? <==> forall i :: 2 <= i < 6 ==> Unhex(s[i]).Some?
    ensures HexUnit(s, 2, 0).Unit? ==>
              HexUnit(s, 2, 0).unit == Unhex(s[2]).value * 0x1000 + Unhex(s[3]).value * 0x100
                                       + Unhex(s[4]).value * 0x10 + Unhex(s[5]).value
  {
    if Unhex(s[2]).Some? {
      var a := Unhex(s[2]).value;
      assert HexUnit(s, 2, 0) == HexUnit(s, 3, a);
      if Unhex(s[3]).Some? {
        var b := a * 16 + Unhex(s[3]).value;
        assert HexUnit(s, 3, a) == HexUnit(s, 4, b);
        if Unhex(s[4]).Some? {
          var c := b * 16 + Unhex(s[4]).value;
          assert HexUnit(s, 4, b) == HexUnit(s, 5, c);
        }
      }
    }
  }

  /** The digits that the second of two escapes lacks can no longer come: one that is
      there is none. It is not refused before the escape is as long as one should be. */
  predicate Spoilt(s: Bytes) {
    exists i :: 8 <= i < |s| && Unhex(s[i]).None?
  }

  /** A spoilt escape is passed over as no partner of the first, to be refused then. */
  lemma SpoiltIsInvalid(s: Bytes, more: Bytes)
    requires s != [] && s[0] == BACKSLASH && Resolve(s).Need? && Spoilt(s)
    ensures |s| < 12
    ensures |s + more| < 12 ==> Resolve(s + more).Need?
    ensures |s + more| >= 12 ==> Resolve(s + more) == Char(REPLACEMENT, 6) && Resolve((s + more)[6..]).Bad?
  {
    var i :| 8 <= i < |s| && Unhex(s[i]).None?;
    var t := (s + more)[6..];
    ParseEscapeStable(s, more);
    assert t == s[6..] + more && t[i - 6] == s[i];
    if |t| >= 6 {
      HexUnitInvalid(t, 2, 0, i - 6);
    }
  }

  lemma {:induction false} HexUnitFills(s: Bytes, k: nat, value: nat, zeros: Bytes)
    requires 2 <= k <= 6 && value < Power16(k - 2) && |s| + |zeros| == 6
    requires (forall i :: k <= i < |s| ==> Unhex(s[i]).Some?) && (forall i :: 0 <= i < |zeros| ==> zeros[i] == ZERO)
    ensures HexUnit(s + zeros, k, value).Unit?
    decreases 6 - k
  {
    if k < 6 {
      assert Unhex((s + zeros)[k]).Some?;
      HexUnitFills(s, k + 1, value * 16 + Unhex((s + zeros)[k]).value, zeros);
    }
  }

  lemma {:induction false} DigitsSoFar(s: Bytes, k: nat, value: nat)
    requires 2 <= k <= 6 && value < Power16(k - 2) && HexUnit(s, k, value).NeedMore?
    ensures forall i :: k <= i < |s| ==> Unhex(s[i]).Some?
    decreases 6 - k
  {
    if k < |s| {
      DigitsSoFar(s, k + 1, value * 16 + Unhex(s[k]).value);
    }
  }

  /** An escape cut short can be completed. */
  lemma EscapeFills(s: Bytes) returns (more: Bytes)
    requires s != [] && |s| < 6 && s[0] == BACKSLASH && (|s| > 1 ==> s[1] == LETTER_U)
    requires forall i :: 2 <= i < |s| ==> Unhex(s[i]).Some?
    ensures ParseEscape(s + more).Unit? && ParseEscape(s + more).len == |s + more|
  {
    if |s| == 1 {
      more := [0x6E];
    } else {
      more := seq(6 - |s|, _ => ZERO);
      HexUnitFills(s, 2, 0, more);
    }
  }

  /** A whole escape before a quote stands for a character of its own. */
  lemma QuoteSettles(s: Bytes, rest: Bytes)
    requires s != [] && s[0] == BACKSLASH && ParseEscape(s).Unit? && ParseEscape(s).len == |s|
    ensures Resolve(s + ([QUOTE] + rest)).Char? && Resolve(s + ([QUOTE] + rest)).len == |s|
  {
    ParseEscapeStable(s, [QUOTE] + rest);
    assert (s + ([QUOTE] + rest))[|s|..] == [QUOTE] + rest;
  }

  /** Such a wait: `\u1` after a high surrogate. */
  lemma WaitWithoutHope()
    ensures var s := [BACKSLASH, LETTER_U, 0x31];
            LowSurrogateFollows(s).FollowNeedMore? && !CouldBeLow(s)
  {
  }
}
