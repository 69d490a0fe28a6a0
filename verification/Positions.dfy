// Line and column, from the text alone.
module Positions {
  import opened Base
  import opened Events
  import opened Scanning
  import Utf8

  predicate IsBreak(b: Byte) {
    b == 0x0D || b == 0x0A
  }

  predicate EndsInCr(s: Bytes) {
    s != [] && s[|s| - 1] == 0x0D
  }

  /** A line break ends at `i`: CR and LF are one each, CRLF is one, at its CR. */
  predicate BreaksAt(s: Bytes, i: nat)
    requires i < |s|
  {
    s[i] == 0x0D || (s[i] == 0x0A && !(i > 0 && s[i - 1] == 0x0D))
  }

  /** The position just after `s`. */
  function PosOf(s: Bytes): Pos {
    if s == [] then Pos(1, 1)
    else
      var before, b := PosOf(s[..|s| - 1]), s[|s| - 1];
      if BreaksAt(s, |s| - 1) then Pos(before.line + 1, 1)
      else if IsBreak(b) then Pos(before.line, 1)
      else Pos(before.line, before.column + CountUnits([b]))
  }

  function Breaks(s: Bytes): set<nat> {
    set i: nat | i < |s| && BreaksAt(s, i)
  }

  /** The line is one more than the line breaks before. */
  lemma {:induction false} LineCountsBreaks(s: Bytes)
    ensures PosOf(s).line == 1 + |Breaks(s)|
  {
    if s == [] {
      assert Breaks(s) == {};
    } else {
      var init, last := s[..|s| - 1], |s| - 1;
      LineCountsBreaks(init);
      assert forall i: nat :: i < last ==> BreaksAt(s, i) == BreaksAt(init, i);
      assert Breaks(s) == if BreaksAt(s, last) then Breaks(init) + {last} else Breaks(init);
    }
  }

  predicate NoBreaks(s: Bytes) {
    forall i :: 0 <= i < |s| ==> !IsBreak(s[i])
  }

  lemma {:induction false} CountUnitsConcat(a: Bytes, b: Bytes)
    ensures CountUnits(a + b) == CountUnits(a) + CountUnits(b)
  {
    if a == [] {
      assert a + b == b;
    } else {
      assert (a + b)[1..] == a[1..] + b;
      CountUnitsConcat(a[1..], b);
    }
  }

  /** On one line, only the column moves. */
  lemma {:induction false} PosOnLine(s: Bytes, more: Bytes)
    requires NoBreaks(more)
    ensures PosOf(s + more) == Pos(PosOf(s).line, PosOf(s).column + CountUnits(more))
    ensures more != [] ==> !EndsInCr(s + more)
  {
    if more == [] {
      assert s + more == s;
    } else {
      var init, b := more[..|more| - 1], more[|more| - 1];
      assert (s + more)[..|s + more| - 1] == s + init;
      assert init + [b] == more;
      PosOnLine(s, init);
      CountUnitsConcat(init, [b]);
    }
  }

  /** The column is one more than the UTF-16 units since the last line break. */
  lemma ColumnCountsUnits(s: Bytes, start: nat)
    requires start <= |s| && (start > 0 ==> IsBreak(s[start - 1])) && NoBreaks(s[start..])
    ensures PosOf(s).column == 1 + CountUnits(s[start..])
    ensures Utf8.ValidUtf8(s[start..]) ==> PosOf(s).column == 1 + Utf8.Utf16Units(s[start..])
  {
    assert s == s[..start] + s[start..];
    PosOnLine(s[..start], s[start..]);
    if Utf8.ValidUtf8(s[start..]) {
      CountUnitsIsUtf16(s[start..]);
    }
  }

  lemma PosAfterByte(s: Bytes, b: Byte)
    requires b < 0x80 && !IsBreak(b)
    ensures PosOf(s + [b]) == Pos(PosOf(s).line, PosOf(s).column + 1) && !EndsInCr(s + [b])
  {
    assert (s + [b])[..|s|] == s;
    assert CountUnits([b][1..]) == 0;
  }

  lemma PosAfterAscii(s: Bytes, more: Bytes)
    requires NoBreaks(more) && IsAscii(more) && more != []
    ensures PosOf(s + more) == Pos(PosOf(s).line, PosOf(s).column + |more|) && !EndsInCr(s + more)
  {
    PosOnLine(s, more);
    CountUnitsAscii(more);
  }
}
