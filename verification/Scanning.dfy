// Reading the ring's bytes where they lie, in one piece or two.
module Scanning {
  import opened Base
  import Utf8
  import Escapes

  /** How far from `from` plain content goes, without passing `to`. */
  method ScanPlain(input: Spans, from: nat, to: nat) returns (i: nat)
    requires from <= to <= input.Len()
    ensures from <= i <= to
    ensures AllPlain(input.bytes[from..i])
    ensures i < to ==> !IsPlain(input.bytes[i])
  {
    i := from;
    while i < to
      invariant from <= i <= to
      invariant AllPlain(input.bytes[from..i])
    {
      var span := input.SpanFrom(i);
      var n := Min(|span|, to - i);
      for k := 0 to n
        invariant AllPlain(span[..k])
      {
        if !IsPlain(span[k]) {
          assert input.bytes[from..i + k] == input.bytes[from..i] + span[..k];
          return i + k;
        }
      }
      assert input.bytes[from..i + n] == input.bytes[from..i] + span[..n];
      i := i + n;
    }
  }

  /** A character (as its bytes), or why there is none. */
  datatype Decoded = Char(c: Bytes) | CutShort | Malformed

  /** After the first byte there are only continuation bytes. */
  predicate Followed(s: Bytes) {
    forall j :: 1 <= j < |s| ==> Utf8.IsContinuation(s[j])
  }

  /** Decodes a single multi-byte character, in one piece of the ring or two. It is
      more patient than a contiguous check: only when all of the
      character's bytes are there are its second byte's limits applied. */
  method DecodeCharAt(input: Spans, p: nat) returns (r: Decoded)
    requires p < input.Len()
    ensures var rest := input.bytes[p..];
            match r
            case Char(c) => |c| >= 2 && Utf8.CharAt(rest) == Utf8.Len(|c|) && c == rest[..|c|]
            case CutShort => |rest| < Utf8.Width(rest[0]) && Utf8.Width(rest[0]) >= 2 && Followed(rest)
            case Malformed =>
              || Utf8.Width(rest[0]) < 2
              || (Utf8.CharAt(rest).Bad? && (|rest| < Utf8.Width(rest[0]) ==> !Followed(rest)))
  {
    ghost var rest := input.bytes[p..];
    var need := Utf8.Width(input.bytes[p]);
    if need < 2 {
      return Malformed;
    }
    var bytes := new Byte[4](_ => 0);
    bytes[0] := input.bytes[p];
    for k := 1 to need
      invariant k <= |rest|
      invariant forall j :: 0 <= j < k ==> bytes[j] == rest[j]
      invariant forall j :: 1 <= j < k ==> Utf8.IsContinuation(rest[j])
    {
      if p + k >= input.Len() {
        return CutShort;
      }
      var b := input.bytes[p + k];
      if !Utf8.IsContinuation(b) {
        return Malformed;
      }
      bytes[k] := b;
    }
    assert bytes[..need] == rest[..need];
    Utf8.CharAtPrefix(rest, need);
    if Utf8.CharAt(bytes[..need]).Len? {
      return Char(bytes[..need]);
    } else {
      return Malformed;
    }
  }

  /** Copies as many bytes from `i` on as an escape can have, or as there are. */
  method PeekEscape(input: Spans, i: nat) returns (bytes: array<Byte>, n: nat)
    requires i <= input.Len()
    ensures fresh(bytes) && bytes.Length == 6 && n == Min(6, input.Len() - i)
    ensures bytes[..n] == input.bytes[i..i + n]
  {
    ghost var rest := input.bytes[i..];
    bytes := new Byte[6](_ => 0);
    var span := input.SpanFrom(i);
    assert forall j :: 0 <= j < |span| ==> span[j] == rest[j];
    n := Min(6, |span|);
    for k := 0 to n
      invariant forall j :: 0 <= j < k ==> bytes[j] == rest[j]
    {
      bytes[k] := span[k];
    }
    while n < 6 && i + n < input.Len()
      invariant Min(6, |span|) <= n <= Min(6, |rest|)
      invariant forall j :: 0 <= j < n ==> bytes[j] == rest[j]
    {
      bytes[n] := input.bytes[i + n];
      n := n + 1;
    }
    assert bytes[..n] == rest[..n];
  }

  /** Decides the escape at `i` from copies of it and of what comes after it. */
  method ResolveEscape(input: Spans, i: nat) returns (r: Escapes.Resolved)
    requires i < input.Len()
    ensures r == Escapes.Resolve(input.bytes[i..])
  {
    ghost var s := input.bytes;
    var bytes, n := PeekEscape(input, i);
    assert bytes[..n] == s[i..][..n];
    Escapes.PeekIsEnough(s[i..], bytes[..n]);
    var escape := Escapes.ParseEscape(bytes[..n]);
    match escape
    case NeedMore => return Escapes.Need;
    case Invalid => return Escapes.Bad;
    case Unit(unit, len) =>
      if Escapes.IsHigh(unit) {
        var next, m := PeekEscape(input, i + len);
        assert s[i..][len..] == s[i + len..];
        assert next[..m] == s[i + len..][..m];
        Escapes.PeekIsEnough(s[i + len..], next[..m]);
        var follow := Escapes.LowSurrogateFollows(next[..m]);
        match follow
        case FollowNeedMore => return Escapes.Need;
        case Not => return Escapes.Char(Escapes.REPLACEMENT, len);
        case Low(low) => return Escapes.Char(Escapes.Pair(unit, low), len + 6);
      } else {
        return Escapes.Char(Escapes.Lone(unit), len);
      }
  }

  // ---------- UTF-16 length by counting bytes ----------

  predicate IsAscii(s: Bytes) {
    forall i :: 0 <= i < |s| ==> s[i] < 0x80
  }

  /** Every byte that is not a continuation byte, and four-byte leads again. */
  function CountUnits(s: Bytes): nat {
    if s == [] then 0
    else (if Utf8.IsContinuation(s[0]) then 0 else 1) + (if s[0] >= 0xF0 then 1 else 0) + CountUnits(s[1..])
  }

  function Utf16Len(s: Bytes): nat {
    if IsAscii(s) then |s| else CountUnits(s)
  }

  lemma {:induction false} CountUnitsAscii(s: Bytes)
    requires IsAscii(s)
    ensures CountUnits(s) == |s|
  {
    if s != [] {
      CountUnitsAscii(s[1..]);
    }
  }

  lemma CountUnitsCharacter(s: Bytes)
    requires |s| > 0 && Utf8.CharAt(s).Len?
    ensures var n := Utf8.CharAt(s).n;
            CountUnits(s) == (if n == 4 then 2 else 1) + CountUnits(s[n..])
  {
    var n := Utf8.CharAt(s).n;
    if n >= 2 {
      assert CountUnits(s[1..]) == CountUnits(s[1..][1..]) && s[1..][1..] == s[2..];
      if n >= 3 {
        assert CountUnits(s[2..]) == CountUnits(s[2..][1..]) && s[2..][1..] == s[3..];
        if n == 4 {
          assert CountUnits(s[3..]) == CountUnits(s[3..][1..]) && s[3..][1..] == s[4..];
        }
      }
    }
  }

  lemma {:induction false} CountUnitsIsUtf16(s: Bytes)
    requires Utf8.ValidUtf8(s)
    ensures CountUnits(s) == Utf8.Utf16Units(s)
    decreases |s|
  {
    if s != [] {
      CountUnitsCharacter(s);
      CountUnitsIsUtf16(s[Utf8.CharAt(s).n..]);
    }
  }

  /** Counting bytes gives what summing the characters' units would. */
  lemma Utf16LenIsUnits(s: Bytes)
    requires Utf8.ValidUtf8(s)
    ensures Utf16Len(s) == Utf8.Utf16Units(s)
  {
    CountUnitsIsUtf16(s);
    if IsAscii(s) {
      CountUnitsAscii(s);
    }
  }
}
