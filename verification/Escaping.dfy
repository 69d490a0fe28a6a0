// How the writer escapes a string's text.
module Escaping {
  import opened Base
  import Utf8

  function HexChar(n: nat): Byte
    requires n < 16
  {
    if n < 10 then ZERO + n else 0x61 + (n - 10)
  }

  /** The letter of a two-character escape. */
  function ShortEscape(b: Byte): Option<Byte> {
    if b == QUOTE || b == BACKSLASH then Some(b)
    else if b == 0x08 then Some(0x62)
    else if b == 0x0C then Some(0x66)
    else if b == LF then Some(0x6E)
    else if b == CR then Some(0x72)
    else if b == TAB then Some(0x74)
    else None
  }

  function EscapeByte(b: Byte): (e: Bytes)
    ensures 1 <= |e| <= 6
    ensures IsPlain(b) ==> e == [b]
  {
    if ShortEscape(b).Some? then [BACKSLASH, ShortEscape(b).value]
    else if b < SPACE then [BACKSLASH, 0x75, ZERO, ZERO, HexChar(b / 16), HexChar(b % 16)]
    else [b]
  }

  /** The bytes that are escaped, and how (section 7 of RFC 8259 allows others): quotation
      mark and backslash by themselves, backspace, tab, line feed, form feed and carriage
      return by a letter, other control characters by two lower-case digits after 00. */
  lemma EscapeTable(b: Byte)
    ensures EscapeByte(b)
         == if b == 0x22 || b == 0x5C then [0x5C, b]
            else if b == 0x08 then [0x5C, 0x62]
            else if b == 0x09 then [0x5C, 0x74]
            else if b == 0x0A then [0x5C, 0x6E]
            else if b == 0x0C then [0x5C, 0x66]
            else if b == 0x0D then [0x5C, 0x72]
            else if b < 0x20 then
              [0x5C, 0x75, 0x30, 0x30, if b < 0x10 then 0x30 else 0x31, if b % 0x10 < 10 then 0x30 + b % 0x10 else 0x57 + b % 0x10]
            else [b]
  {
  }

  /** `s` with every byte that needs it escaped. */
  function Escaped(s: Bytes): (e: Bytes)
    ensures |e| >= |s|
  {
    if s == [] then [] else EscapeByte(s[0]) + Escaped(s[1..])
  }

  lemma {:induction false} EscapedConcat(a: Bytes, b: Bytes)
    ensures Escaped(a + b) == Escaped(a) + Escaped(b)
  {
    if a == [] {
      assert a + b == b;
    } else {
      assert (a + b)[1..] == a[1..] + b;
      EscapedConcat(a[1..], b);
    }
  }

  lemma {:induction false} EscapedPlain(s: Bytes)
    requires AllPlain(s)
    ensures Escaped(s) == s
  {
    if s != [] {
      assert forall i :: 0 <= i < |s| - 1 ==> s[1..][i] == s[i + 1];
      EscapedPlain(s[1..]);
    }
  }

  /** The length that escaping will give, found without escaping. */
  function EscapedLen(s: Bytes): nat {
    if s == [] then 0
    else
      var b := s[0];
      (if b in {QUOTE, BACKSLASH, 0x08, 0x0C, LF, CR, TAB} then 2 else if b < SPACE then 6 else 1) + EscapedLen(s[1..])
  }

  lemma {:induction false} EscapedLenIsLength(s: Bytes)
    ensures EscapedLen(s) == |Escaped(s)|
  {
    if s != [] {
      EscapedLenIsLength(s[1..]);
    }
  }

  /** The same for one character. */
  function EscapedCharLen(c: Bytes): nat
    requires c != []
  {
    if |c| == 1 && c[0] in {QUOTE, BACKSLASH, 0x08, 0x0C, LF, CR, TAB} then 2
    else if |c| == 1 && c[0] < SPACE then 6
    else |c|
  }

  lemma EscapedCharLenIsLength(c: Bytes)
    requires c != [] && Utf8.CharAt(c) == Utf8.Len(|c|)
    ensures EscapedCharLen(c) == |Escaped(c)| <= 6
  {
    if |c| == 1 {
      assert c[1..] == [];
    } else {
      forall i | 0 < i < |c| ensures Utf8.IsContinuation(c[i]) {
        Utf8.CharAtTail(c, i);
      }
      EscapedPlain(c);
    }
  }

  // ---------- Character boundaries ----------

  predicate IsBoundary(s: Bytes, i: nat) {
    i == 0 || i == |s| || (i < |s| && !Utf8.IsContinuation(s[i]))
  }

  /** Text cut at a boundary is whole characters on both sides. */
  lemma {:induction false} BoundaryCuts(s: Bytes, i: nat)
    requires Utf8.ValidUtf8(s) && i <= |s| && IsBoundary(s, i)
    ensures Utf8.ValidUtf8(s[..i]) && Utf8.ValidUtf8(s[i..])
    decreases |s|
  {
    if i == 0 || i == |s| {
      assert s[..|s|] == s && s[0..] == s && s[..0] == [] && s[|s|..] == [];
    } else {
      var n := Utf8.CharAt(s).n;
      if i < n {
        Utf8.CharAtTail(s, i);
      } else {
        Utf8.FirstIsValid(s);
        hide Utf8.CharAt, Utf8.ValidUtf8;
        BoundaryCuts(s[n..], i - n);
        Rest(s, n, i);
        Utf8.ValidUtf8Concat(s[..n], s[n..][..i - n]);
      }
    }
  }

  /** No character ends strictly between two others' ends that follow each other. */
  lemma {:induction false} NextBoundary(s: Bytes, i: nat, j: nat)
    requires Utf8.ValidUtf8(s) && i < j <= |s| && IsBoundary(s, i) && IsBoundary(s, j)
    ensures Utf8.ValidUtf8(s[i..]) && Utf8.CharAt(s[i..]).Len? && i + Utf8.CharAt(s[i..]).n <= j
  {
    BoundaryCuts(s, i);
    var n := Utf8.CharAt(s[i..]).n;
    if j < i + n {
      Utf8.CharAtTail(s[i..], j - i);
    }
  }
}
