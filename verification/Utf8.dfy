// UTF-8 (section 4 of RFC 3629): which byte strings are characters, the
// character numbers they stand for, and the standard library's view of a
// slice that may end in the middle of a character.
module Utf8 {
  import opened Base

  /** What the bytes at hand say of the character they start with. */
  datatype Decision = Need | Bad | Len(n: nat)

  predicate IsScalar(cp: int) {
    0 <= cp < 0xD800 || 0xE000 <= cp < 0x110000
  }

  predicate IsContinuation(b: Byte) {
    0x80 <= b < 0xC0
  }

  /** Length of the character with this first byte, 0 if no character starts so. */
  function Width(lead: Byte): nat {
    if lead < 0x80 then 1
    else if lead < 0xC2 then 0
    else if lead < 0xE0 then 2
    else if lead < 0xF0 then 3
    else if lead < 0xF5 then 4
    else 0
  }

  /** The second byte's range, which excludes overlong forms, surrogates and
      anything above U+10FFFF. */
  predicate SecondFits(lead: Byte, second: Byte) {
    && IsContinuation(second)
    && (lead == 0xE0 ==> second >= 0xA0)
    && (lead == 0xED ==> second < 0xA0)
    && (lead == 0xF0 ==> second >= 0x90)
    && (lead == 0xF4 ==> second < 0x90)
  }

  /** Looks at the bytes from `k` on of a character `w` bytes wide. */
  function Tail(s: Bytes, k: nat, w: nat): (d: Decision)
    requires 1 <= k <= |s| && k <= w
    ensures d.Len? ==> d.n == w <= |s|
    ensures d.Need? ==> |s| < w
    decreases w - k
  {
    if k == w then Len(w)
    else if k == |s| then Need
    else if k == 1 && !SecondFits(s[0], s[1]) then Bad
    else if !IsContinuation(s[k]) then Bad
    else Tail(s, k + 1, w)
  }

  function CharAt(s: Bytes): (d: Decision)
    requires |s| > 0
    ensures d.Len? ==> 1 <= d.n <= 4 && d.n <= |s| && d.n == Width(s[0])
    ensures d.Need? ==> |s| < Width(s[0])
  {
    if Width(s[0]) == 0 then Bad else Tail(s, 1, Width(s[0]))
  }

  lemma {:induction false} TailStable(s: Bytes, more: Bytes, k: nat, w: nat)
    requires 1 <= k <= |s| && k <= w && !Tail(s, k, w).Need?
    ensures Tail(s + more, k, w) == Tail(s, k, w)
    decreases w - k
  {
    if k < w && IsContinuation(s[k]) && (k == 1 ==> SecondFits(s[0], s[1])) {
      TailStable(s, more, k + 1, w);
    }
  }

  /** A decision, once made, stands however many bytes follow. */
  lemma CharAtStable(s: Bytes, more: Bytes)
    requires |s| > 0 && !CharAt(s).Need?
    ensures CharAt(s + more) == CharAt(s)
  {
    if Width(s[0]) != 0 {
      TailStable(s, more, 1, Width(s[0]));
    }
  }

  lemma {:induction false} TailGoesOn(s: Bytes, k: nat, w: nat, b: Byte)
    requires 1 <= k <= |s| < w <= 4 && Tail(s, k, w).Need?
    requires IsContinuation(b) && (|s| == 1 ==> SecondFits(s[0], b))
    ensures !Tail(s + [b], k, w).Bad?
    decreases w - k
  {
    if k < |s| {
      TailGoesOn(s, k + 1, w, b);
    }
  }

  /** A character cut short can always be completed. */
  lemma {:induction false} CharCanEnd(s: Bytes) returns (more: Bytes)
    requires s != [] && CharAt(s).Need?
    ensures CharAt(s + more) == Len(|s + more|)
    decreases 4 - |s|
  {
    var b: Byte := if |s| > 1 then 0x80 else if s[0] == 0xE0 then 0xA0 else if s[0] == 0xF0 then 0x90 else 0x80;
    TailGoesOn(s, 1, Width(s[0]), b);
    more := [b];
    if CharAt(s + more).Need? {
      var rest := CharCanEnd(s + more);
      Assoc(s, more, rest);
      more := more + rest;
    }
  }

  lemma CharAtPrefix(s: Bytes, k: nat)
    requires 0 < k <= |s|
    ensures !CharAt(s[..k]).Need? ==> CharAt(s) == CharAt(s[..k])
    ensures CharAt(s).Len? && CharAt(s).n <= k ==> CharAt(s[..k]) == CharAt(s)
  {
    assert s == s[..k] + s[k..];
    if !CharAt(s[..k]).Need? {
      CharAtStable(s[..k], s[k..]);
    }
  }

  lemma {:induction false} TailIsContinuation(s: Bytes, k: nat, w: nat, i: nat)
    requires 1 <= k <= |s| && k <= w && Tail(s, k, w).Len? && k <= i < w
    ensures IsContinuation(s[i])
    decreases w - k
  {
    if k < i {
      TailIsContinuation(s, k + 1, w, i);
    }
  }

  /** All bytes of a character but the first are continuation bytes. */
  lemma CharAtTail(s: Bytes, i: nat)
    requires |s| > 0 && CharAt(s).Len? && 0 < i < CharAt(s).n
    ensures IsContinuation(s[i])
  {
    TailIsContinuation(s, 1, CharAt(s).n, i);
  }

  predicate ValidUtf8(s: Bytes) {
    s == [] || (CharAt(s).Len? && ValidUtf8(s[CharAt(s).n..]))
  }

  lemma {:induction false} ValidUtf8Concat(s: Bytes, t: Bytes)
    requires ValidUtf8(s)
    ensures ValidUtf8(s + t) <==> ValidUtf8(t)
    decreases |s|
  {
    if s == [] {
      assert s + t == t;
    } else {
      var n := CharAt(s).n;
      CharAtStable(s, t);
      assert (s + t)[n..] == s[n..] + t;
      ValidUtf8Concat(s[n..], t);
    }
  }

  /** Every character takes one UTF-16 unit, or two outside the basic plane. */
  function Utf16Units(s: Bytes): nat
    requires ValidUtf8(s)
  {
    if s == [] then 0
    else (if CharAt(s).n == 4 then 2 else 1) + Utf16Units(s[CharAt(s).n..])
  }

  lemma {:induction false} Utf16UnitsConcat(s: Bytes, t: Bytes)
    requires ValidUtf8(s) && ValidUtf8(t)
    ensures ValidUtf8(s + t) && Utf16Units(s + t) == Utf16Units(s) + Utf16Units(t)
    decreases |s|
  {
    ValidUtf8Concat(s, t);
    if s == [] {
      assert s + t == t;
    } else {
      var n := CharAt(s).n;
      CharAtStable(s, t);
      assert (s + t)[n..] == s[n..] + t;
      Utf16UnitsConcat(s[n..], t);
    }
  }

  // ---------- Character numbers ----------

  /** The high bits of the first byte of a character of `width` bytes. */
  function Mark(width: nat): Byte {
    if width == 2 then 0xC0 else if width == 3 then 0xE0 else 0xF0
  }

  function Encode(cp: int): (s: Bytes)
    requires IsScalar(cp)
    ensures 1 <= |s| <= 4
  {
    var low := 0x80 + cp % 0x40;
    var high := cp / 0x40;
    var higher := high / 0x40;
    if cp < 0x80 then [cp]
    else if cp < 0x800 then [Mark(2) + high, low]
    else if cp < 0x10000 then [Mark(3) + higher, 0x80 + high % 0x40, low]
    else [Mark(4) + higher / 0x40, 0x80 + higher % 0x40, 0x80 + high % 0x40, low]
  }

  /** The table of section 3 of RFC 3629. */
  lemma EncodeTable(cp: int)
    requires IsScalar(cp)
    ensures cp < 0x80 ==> Encode(cp) == [cp]
    ensures 0x80 <= cp < 0x800 ==> Encode(cp) == [0xC0 + cp / 0x40, 0x80 + cp % 0x40]
    ensures 0x800 <= cp < 0x10000 ==> Encode(cp) == [0xE0 + cp / 0x1000, 0x80 + cp / 0x40 % 0x40, 0x80 + cp % 0x40]
    ensures cp >= 0x10000 ==>
              Encode(cp) == [0xF0 + cp / 0x40000, 0x80 + cp / 0x1000 % 0x40, 0x80 + cp / 0x40 % 0x40, 0x80 + cp % 0x40]
  {
    assert cp / 0x40 / 0x40 == cp / 0x1000 && cp / 0x40 / 0x40 / 0x40 == cp / 0x40000;
  }

  function ScalarOf(c: Bytes): int
    requires |c| > 0 && CharAt(c) == Len(|c|)
  {
    if |c| == 1 then c[0]
    else
      var high := (c[0] as int - Mark(|c|)) * 0x40 + (c[1] as int - 0x80);
      if |c| == 2 then high
      else
        var middle := high * 0x40 + (c[2] as int - 0x80);
        if |c| == 3 then middle else middle * 0x40 + (c[3] as int - 0x80)
  }

  /** The encoding of a character number is one character, of that number. */
  lemma EncodeIsCharacter(cp: int)
    requires IsScalar(cp)
    ensures CharAt(Encode(cp)) == Len(|Encode(cp)|)
    ensures ScalarOf(Encode(cp)) == cp
    ensures ValidUtf8(Encode(cp))
  {
    var c := Encode(cp);
    assert c[|c|..] == [];
  }

  lemma SixBits(high: int, low: int)
    requires 0 <= low < 0x40
    ensures (high * 0x40 + low) / 0x40 == high && (high * 0x40 + low) % 0x40 == low
  {
  }

  /** Every character accepted is the encoding of its number, so the table is exactly UTF-8. */
  lemma CharacterIsEncoding(c: Bytes)
    requires |c| > 0 && CharAt(c) == Len(|c|)
    ensures IsScalar(ScalarOf(c)) && Encode(ScalarOf(c)) == c
  {
    if |c| > 1 {
      var lead := c[0] as int - Mark(|c|);
      var second := c[1] as int - 0x80;
      SixBits(lead, second);
      if |c| > 2 {
        var third := c[2] as int - 0x80;
        SixBits(lead * 0x40 + second, third);
        if |c| > 3 {
          SixBits((lead * 0x40 + second) * 0x40 + third, c[3] as int - 0x80);
        }
      }
    }
  }

  // ---------- Slices ----------

  /** Length of the longest prefix made of whole characters. */
  function ValidUpTo(s: Bytes): (n: nat)
    ensures n <= |s|
  {
    if s == [] || !CharAt(s).Len? then 0 else CharAt(s).n + ValidUpTo(s[CharAt(s).n..])
  }

  lemma {:induction false} ValidUpToIsLongest(s: Bytes)
    ensures var n := ValidUpTo(s);
            ValidUtf8(s[..n]) && (n < |s| ==> !CharAt(s[n..]).Len?)
    decreases |s|
  {
    hide CharAt;
    if s == [] || !CharAt(s).Len? {
      assert s[..0] == [] && s[0..] == s;
    } else {
      hide ValidUtf8;
      var k := CharAt(s).n;
      ValidUpToIsLongest(s[k..]);
      Rest(s, k, ValidUpTo(s));
      FirstIsValid(s);
      ValidUtf8Concat(s[..k], s[k..][..ValidUpTo(s) - k]);
    }
  }

  lemma FirstIsValid(s: Bytes)
    requires |s| > 0 && CharAt(s).Len?
    ensures ValidUtf8(s[..CharAt(s).n])
  {
    var k := CharAt(s).n;
    CharAtPrefix(s, k);
    assert s[..k][k..] == [];
  }

  /** The standard library's check of a slice: if it fails, where the first bad
      character is, and whether more bytes might have made it a good one. */
  datatype Validation = Valid | Invalid(validUpTo: nat, cutShort: bool)

  function FromUtf8(s: Bytes): Validation {
    var n := ValidUpTo(s);
    if n == |s| then Valid else Invalid(n, CharAt(s[n..]).Need?)
  }
}
