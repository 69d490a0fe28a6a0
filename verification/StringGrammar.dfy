// The grammar of strings (section 7 of RFC 8259), what their raw bytes stand
// for, and that reading them a character or an escape at a time agrees.
module StringGrammar {
  import opened Base
  import opened Machine
  import opened Scanning
  import opened Positions
  import opened KeyRuns
  import Utf8
  import Escapes

  /** The escape at the front of `raw`, as the grammar has it. */
  datatype Escaped = NoEscape | Escaped(unit: nat, len: nat)

  // The bytes that the grammar names are written out here: 0x22 is the quotation
  // mark, 0x5C the backslash, 0x75 the letter u.

  predicate IsHex(b: Byte) {
    0x30 <= b <= 0x39 || 0x41 <= b <= 0x46 || 0x61 <= b <= 0x66
  }

  function Hex(b: Byte): (n: nat)
    requires IsHex(b)
    ensures n < 16
  {
    if b <= 0x39 then b - 0x30 else if b <= 0x46 then b - 0x37 else b - 0x57
  }

  /** What the byte after a backslash stands for, if it makes an escape with it:
      itself, or a backspace, form feed, line feed, carriage return or tab. */
  function ShortUnit(b: Byte): Option<nat> {
    if b == 0x22 || b == 0x5C || b == 0x2F then Some(b)
    else if b == 0x62 then Some(8)
    else if b == 0x66 then Some(12)
    else if b == 0x6E then Some(10)
    else if b == 0x72 then Some(13)
    else if b == 0x74 then Some(9)
    else None
  }

  function EscapeAt(raw: Bytes): (e: Escaped)
    ensures e.Escaped? ==> e.unit < 0x10000 && 2 <= e.len <= |raw| && e.len <= 6
  {
    if |raw| >= 2 && raw[0] == 0x5C && ShortUnit(raw[1]).Some? then
      Escaped(ShortUnit(raw[1]).value, 2)
    else if |raw| >= 6 && raw[0] == 0x5C && raw[1] == 0x75
         && IsHex(raw[2]) && IsHex(raw[3]) && IsHex(raw[4]) && IsHex(raw[5]) then
      Escaped(Hex(raw[2]) * 0x1000 + Hex(raw[3]) * 0x100 + Hex(raw[4]) * 0x10 + Hex(raw[5]), 6)
    else NoEscape
  }

  /** What stands for itself in a string, at its first byte. */
  predicate IsUnescaped(b: Byte) {
    b >= 0x20 && b != 0x22 && b != 0x5C
  }

  /** Length of the escape or the unescaped character at the front of `raw`, 0 if neither is there. */
  function ElementLen(raw: Bytes): (n: nat)
    ensures n <= |raw|
  {
    if raw == [] then 0
    else if raw[0] == 0x5C then (if EscapeAt(raw).Escaped? then EscapeAt(raw).len else 0)
    else if IsUnescaped(raw[0]) && Utf8.CharAt(raw).Len? then Utf8.CharAt(raw).n
    else 0
  }

  /** What may stand between a string's quotes. */
  predicate IsContent(raw: Bytes) {
    raw == [] || (ElementLen(raw) > 0 && IsContent(raw[ElementLen(raw)..]))
  }

  datatype Element = Verbatim(text: Bytes) | CodeUnit(unit: nat)

  function Elements(raw: Bytes): (es: seq<Element>)
    requires IsContent(raw)
    ensures forall i :: 0 <= i < |es| && es[i].CodeUnit? ==> es[i].unit < 0x10000
  {
    if raw == [] then []
    else
      var n := ElementLen(raw);
      [if raw[0] == 0x5C then CodeUnit(EscapeAt(raw).unit) else Verbatim(raw[..n])] + Elements(raw[n..])
  }

  predicate IsLeading(unit: int) {
    0xD800 <= unit <= 0xDBFF
  }

  predicate IsTrailing(unit: int) {
    0xDC00 <= unit <= 0xDFFF
  }

  /** The number that a code unit of its own stands for: U+FFFD for half a pair. */
  function Alone(unit: nat): nat {
    if IsLeading(unit) || IsTrailing(unit) then 0xFFFD else unit
  }

  /** The text of a string: escaped surrogates that pair up are one character, any
      other is U+FFFD, and the rest stands for itself. */
  function Combine(es: seq<Element>): Bytes
    requires forall i :: 0 <= i < |es| && es[i].CodeUnit? ==> es[i].unit < 0x10000
  {
    if es == [] then []
    else
      match es[0]
      case Verbatim(c) => c + Combine(es[1..])
      case CodeUnit(unit) =>
        if IsLeading(unit) && |es| > 1 && es[1].CodeUnit? && IsTrailing(es[1].unit) then
          Utf8.Encode((unit - 0xD800) * 0x400 + (es[1].unit - 0xDC00) + 0x10000) + Combine(es[2..])
        else
          Utf8.Encode(Alone(unit)) + Combine(es[1..])
  }

  function Decode(raw: Bytes): Bytes
    requires IsContent(raw)
  {
    Combine(Elements(raw))
  }

  // ---------- Escaped characters ----------

  /** A backslash, u and four digits. */
  predicate IsUnicodeEscape(raw: Bytes) {
    |raw| == 6 && raw[0] == 0x5C && raw[1] == 0x75 && forall i :: 2 <= i < 6 ==> IsHex(raw[i])
  }

  function CodeUnitOf(raw: Bytes): nat
    requires IsUnicodeEscape(raw)
  {
    ((Hex(raw[2]) * 16 + Hex(raw[3])) * 16 + Hex(raw[4])) * 16 + Hex(raw[5])
  }

  /** The two units of a character beyond the basic plane, as UTF-16 has them
      (section 2.1 of RFC 2781), stand for it. */
  lemma PairIsCharacter(cp: nat)
    requires 0x10000 <= cp < 0x110000
    ensures Combine([CodeUnit(0xD800 + (cp - 0x10000) / 0x400), CodeUnit(0xDC00 + (cp - 0x10000) % 0x400)]) == Utf8.Encode(cp)
  {
    var es := [CodeUnit(0xD800 + (cp - 0x10000) / 0x400), CodeUnit(0xDC00 + (cp - 0x10000) % 0x400)];
    assert es[2..] == [];
  }

  lemma OneEscape(raw: Bytes, rest: Bytes)
    requires IsUnicodeEscape(raw) && IsContent(rest)
    ensures IsContent(raw + rest) && Elements(raw + rest) == [CodeUnit(CodeUnitOf(raw))] + Elements(rest)
  {
    hide ShortUnit, Hex, IsHex;
    NotShort(0x75);
    var s := raw + rest;
    assert s[6..] == rest;
    assert EscapeAt(s) == Escaped(CodeUnitOf(raw), 6);
    hide EscapeAt;
  }

  /** A character beyond the basic plane, escaped as its pair of surrogates. */
  lemma EscapedPair(cp: nat, high: Bytes, low: Bytes)
    requires 0x10000 <= cp < 0x110000 && IsUnicodeEscape(high) && IsUnicodeEscape(low)
    requires CodeUnitOf(high) == 0xD800 + (cp - 0x10000) / 0x400 && CodeUnitOf(low) == 0xDC00 + (cp - 0x10000) % 0x400
    ensures IsContent(high + low) && Decode(high + low) == Utf8.Encode(cp)
  {
    hide Combine, Utf8.Encode;
    OneEscape(low, []);
    OneEscape(high, low + []);
    assert low + [] == low && Elements([]) == [];
    PairIsCharacter(cp);
    assert [CodeUnit(CodeUnitOf(high))] + ([CodeUnit(CodeUnitOf(low))] + []) == [CodeUnit(CodeUnitOf(high)), CodeUnit(CodeUnitOf(low))];
  }

  /** Any other escaped unit stands for its own character, half a pair for U+FFFD. */
  lemma EscapedUnit(raw: Bytes)
    requires IsUnicodeEscape(raw)
    ensures var unit := CodeUnitOf(raw);
            && IsContent(raw)
            && Decode(raw) == if 0xD800 <= unit < 0xE000 then [0xEF, 0xBF, 0xBD] else Utf8.Encode(unit)
  {
    OneEscape(raw, []);
    assert raw + [] == raw && Elements([]) == [];
    UnitAlone(CodeUnitOf(raw));
    var es := [CodeUnit(CodeUnitOf(raw))];
    assert es + [] == es;
  }

  lemma UnitAlone(unit: nat)
    requires unit < 0x10000
    ensures Combine([CodeUnit(unit)]) == if 0xD800 <= unit < 0xE000 then [0xEF, 0xBF, 0xBD] else Utf8.Encode(unit)
  {
    var es := [CodeUnit(unit)];
    assert es[1..] == [] && Utf8.Encode(Alone(unit)) + [] == Utf8.Encode(Alone(unit));
  }

  /** The tokenizer resolves the pair to the same character. */
  lemma PairIsResolved(cp: nat, high: Bytes, low: Bytes, rest: Bytes)
    requires 0x10000 <= cp < 0x110000 && IsUnicodeEscape(high) && IsUnicodeEscape(low)
    requires CodeUnitOf(high) == 0xD800 + (cp - 0x10000) / 0x400 && CodeUnitOf(low) == 0xDC00 + (cp - 0x10000) % 0x400
    ensures Escapes.Resolve(high + low + rest) == Escapes.Char(cp, 12)
  {
    hide Hex, IsHex, ShortUnit, Escapes.Unhex, Escapes.SimpleEscape, Escapes.HexUnit;
    var s := high + low + rest;
    NotShort(0x75);
    assert s[6..] == low + rest;
    assert EscapeAt(s) == Escaped(CodeUnitOf(high), 6) && EscapeAt(s[6..]) == Escaped(CodeUnitOf(low), 6);
    EscapeIsParsed(s);
    EscapeIsParsed(s[6..]);
    hide EscapeAt;
    assert Escapes.LowSurrogateFollows(s[6..]) == Escapes.Low(CodeUnitOf(low)) by {
      assert s[6..][0] == BACKSLASH && s[6..][1] == Escapes.LETTER_U;
    }
    hide Escapes.LowSurrogateFollows, Escapes.ParseEscape;
    assert Escapes.Pair(CodeUnitOf(high), CodeUnitOf(low)) == cp;
  }

  // ---------- One element ----------

  lemma HexIsRead(b: Byte)
    ensures Escapes.Unhex(b) == if IsHex(b) then Some(Hex(b)) else None
  {
  }

  lemma ShortIsRead(b: Byte)
    ensures Escapes.SimpleEscape(b) == match ShortUnit(b) case Some(unit) => Some(unit as Byte) case None => None
  {
  }

  lemma UnitsAreRead(unit: nat)
    requires unit < 0x10000
    ensures Escapes.IsHigh(unit) <==> IsLeading(unit)
    ensures Escapes.IsLow(unit) <==> IsTrailing(unit)
    ensures Escapes.Lone(unit) == Alone(unit)
  {
  }

  lemma PairIsRead(high: nat, low: nat)
    requires IsLeading(high) && IsTrailing(low)
    ensures Escapes.Pair(high, low) == (high - 0xD800) * 0x400 + (low - 0xDC00) + 0x10000
  {
  }

  /** The tokenizer's escape parsing is the grammar's, once the escape is there. */
  lemma EscapeIsParsed(s: Bytes)
    requires s != [] && s[0] == BACKSLASH
    ensures match EscapeAt(s)
            case Escaped(unit, len) => Escapes.ParseEscape(s) == Escapes.Unit(unit, len)
            case NoEscape => !Escapes.ParseEscape(s).Unit?
  {
    hide Escapes.Unhex, Escapes.SimpleEscape, Hex, IsHex, ShortUnit;
    if |s| >= 2 {
      ShortIsRead(s[1]);
      NotShort(Escapes.LETTER_U);
    }
    if |s| >= 6 {
      HexIsRead(s[2]);
      HexIsRead(s[3]);
      HexIsRead(s[4]);
      HexIsRead(s[5]);
      Escapes.HexUnitSix(s);
    }
  }

  lemma NotShort(b: Byte)
    requires b == 0x75
    ensures ShortUnit(b).None? && b == Escapes.LETTER_U
  {
  }

  lemma ElementStable(raw: Bytes, more: Bytes)
    requires ElementLen(raw) > 0
    ensures ElementLen(raw + more) == ElementLen(raw)
    ensures raw[0] == BACKSLASH ==> EscapeAt(raw + more) == EscapeAt(raw)
  {
    hide IsHex, Hex, ShortUnit;
    if raw[0] != BACKSLASH {
      hide Utf8.CharAt;
      Utf8.CharAtStable(raw, more);
    }
  }

  /** An element's bytes are on one line, and count as its units. */
  lemma ElementOnLine(raw: Bytes)
    requires ElementLen(raw) > 0
    ensures var n := ElementLen(raw);
            && NoBreaks(raw[..n])
            && CountUnits(raw[..n]) == if raw[0] == BACKSLASH then n else if n == 4 then 2 else 1
  {
    var n := ElementLen(raw);
    if raw[0] == BACKSLASH {
      assert IsAscii(raw[..n]);
      CountUnitsAscii(raw[..n]);
    } else {
      forall i | 0 < i < n ensures Utf8.IsContinuation(raw[i]) {
        Utf8.CharAtTail(raw, i);
      }
      Utf8.CharAtPrefix(raw, n);
      CountUnitsCharacter(raw[..n]);
      assert raw[..n][n..] == [];
    }
  }

  // ---------- The whole string ----------

  lemma {:induction false} ContentConcat(a: Bytes, b: Bytes)
    requires IsContent(a) && IsContent(b)
    ensures IsContent(a + b)
    decreases |a|
  {
    if a == [] {
      assert a + b == b;
    } else {
      var n := ElementLen(a);
      ElementStable(a, b);
      Within(a, b, n);
      ContentConcat(a[n..], b);
    }
  }

  lemma OneElement(raw: Bytes)
    requires ElementLen(raw) > 0
    ensures IsContent(raw[..ElementLen(raw)])
  {
    var n := ElementLen(raw);
    var first := raw[..n];
    if raw[0] == BACKSLASH {
      assert EscapeAt(first) == EscapeAt(raw);
    } else {
      Utf8.CharAtPrefix(raw, n);
    }
    assert first[n..] == [];
  }

  lemma {:induction false} ContentOnLine(raw: Bytes)
    requires IsContent(raw)
    ensures NoBreaks(raw)
  {
    if raw != [] {
      var n := ElementLen(raw);
      ElementOnLine(raw);
      ContentOnLine(raw[n..]);
      forall i | 0 <= i < |raw| ensures !IsBreak(raw[i]) {
        if i < n {
          assert raw[..n][i] == raw[i];
        } else {
          assert raw[n..][i - n] == raw[i];
        }
      }
    }
  }

  lemma EscapeKinds(raw: Bytes)
    requires EscapeAt(raw).Escaped?
    ensures var e := EscapeAt(raw);
            && raw[0] == BACKSLASH
            && (if raw[1] == Escapes.LETTER_U then e.len == 6 else e.len == 2 && e.unit < 0x100)
  {
    hide IsHex, Hex;
  }

  /** Whether a pair is completed can be told from the next element alone. */
  lemma LowFollows(raw: Bytes, rest: Bytes)
    requires IsContent(raw)
    ensures var f := Escapes.LowSurrogateFollows(raw + [QUOTE] + rest);
            if raw != [] && raw[0] == BACKSLASH && Escapes.IsLow(EscapeAt(raw).unit)
            then f == Escapes.Low(EscapeAt(raw).unit) && EscapeAt(raw).len == 6
            else f.Not?
  {
    hide EscapeAt, Escapes.HexUnit, Escapes.SimpleEscape, Utf8.CharAt;
    var s := raw + [QUOTE] + rest;
    if raw != [] {
      assert s == raw + ([QUOTE] + rest);
      if raw[0] == BACKSLASH {
        ElementStable(raw, [QUOTE] + rest);
        EscapeKinds(raw);
        EscapeIsParsed(s);
      }
    }
  }

  /** The piece of a string at the front of what is left of it: one element, or a pair of surrogates. */
  function PieceLen(raw: Bytes): (n: nat)
    requires IsContent(raw) && raw != []
    ensures 0 < n <= |raw|
  {
    var n := ElementLen(raw);
    var next := raw[n..];
    if raw[0] == BACKSLASH && Escapes.IsHigh(EscapeAt(raw).unit)
       && next != [] && next[0] == BACKSLASH && EscapeAt(next).Escaped? && Escapes.IsLow(EscapeAt(next).unit)
    then n + ElementLen(next) else n
  }

  /** Its first piece is read, and the rest stands for the rest. */
  lemma PieceRead(raw: Bytes, rest: Bytes)
    requires IsContent(raw) && raw != []
    ensures var n, p := PieceLen(raw), PieceAt(raw + [QUOTE] + rest);
            && IsContent(raw[n..])
            && p.Chars? && p.n == n
            && Decode(raw) == p.text + Decode(raw[n..])
  {
    if raw[0] == BACKSLASH {
      EscapeRead(raw, rest);
    } else {
      hide Escapes.Resolve, Combine, Utf8.Encode;
      var s, m := raw + [QUOTE] + rest, ElementLen(raw);
      assert s == raw + ([QUOTE] + rest);
      ElementStable(raw, [QUOTE] + rest);
      TailOf(raw, m, rest);
      assert s[..m] == raw[..m];
      assert Elements(raw)[1..] == Elements(raw[m..]);
    }
  }

  lemma EscapeRead(raw: Bytes, rest: Bytes)
    requires IsContent(raw) && raw != [] && raw[0] == BACKSLASH
    ensures var n, p := PieceLen(raw), PieceAt(raw + [QUOTE] + rest);
            && IsContent(raw[n..])
            && p.Chars? && p.n == n
            && Decode(raw) == p.text + Decode(raw[n..])
  {
    hide Escapes.Resolve, Escapes.LowSurrogateFollows, Escapes.ParseEscape, Escapes.Pair, Escapes.Lone, Utf8.Encode, EscapeAt,
      IsContent, Decode, PieceAt;
    var s, m := raw + [QUOTE] + rest, ElementLen(raw);
    assert s == raw + ([QUOTE] + rest);
    ElementsHead(raw);
    LengthOfEscape(raw);
    ElementStable(raw, [QUOTE] + rest);
    TailOf(raw, m, rest);
    EscapeIsParsed(s);
    LowFollows(raw[m..], rest);
    PairDecodes(raw);
    ElementsHead(raw[m..]);
    EscapeResolves(s);
  }

  /** An escape, or two, that have been parsed. */
  lemma EscapeResolves(s: Bytes)
    requires s != [] && s[0] == BACKSLASH && Escapes.ParseEscape(s).Unit?
    ensures var e := Escapes.ParseEscape(s);
            var follow := Escapes.LowSurrogateFollows(s[e.len..]);
            if Escapes.IsHigh(e.unit) && follow.Low? then
              PieceAt(s) == Chars(Utf8.Encode(Escapes.Pair(e.unit, follow.unit)), e.len + 6, e.len + 6)
            else if Escapes.IsHigh(e.unit) && follow.FollowNeedMore? then
              PieceAt(s).Partial?
            else
              PieceAt(s) == Chars(Utf8.Encode(Escapes.Lone(e.unit)), e.len, e.len)
  {
    hide Escapes.LowSurrogateFollows, Escapes.ParseEscape, Utf8.Encode;
  }

  lemma PairDecodes(raw: Bytes)
    requires IsContent(raw) && raw != [] && raw[0] == BACKSLASH
    ensures var n, m, unit := PieceLen(raw), ElementLen(raw), EscapeAt(raw).unit;
            && IsContent(raw[n..])
            && Decode(raw) == Utf8.Encode(if n > m then Escapes.Pair(unit, EscapeAt(raw[m..]).unit) else Escapes.Lone(unit))
                              + Decode(raw[n..])
            && (n > m ==> n == m + 6)
  {
    hide Utf8.Encode, ElementLen, EscapeAt, Escapes.Pair, Escapes.Lone, Alone;
    var m, next := ElementLen(raw), raw[ElementLen(raw)..];
    LengthOfEscape(raw);
    UnitsAreRead(EscapeAt(raw).unit);
    ElementsHead(raw);
    ElementsHead(next);
    assert next != [] ==> Elements(raw)[1] == Elements(next)[0];
    if PieceLen(raw) > m {
      LengthOfEscape(next);
      UnitsAreRead(EscapeAt(next).unit);
      PairIsRead(EscapeAt(raw).unit, EscapeAt(next).unit);
      assert Elements(raw)[2..] == Elements(next)[1..];
      assert next[ElementLen(next)..] == raw[PieceLen(raw)..];
    }
  }

  lemma ElementsHead(raw: Bytes)
    requires IsContent(raw)
    ensures raw == [] ==> Elements(raw) == []
    ensures raw != [] ==> ElementLen(raw) > 0 && IsContent(raw[ElementLen(raw)..]) && Elements(raw) != []
    ensures raw != [] ==> Elements(raw)[1..] == Elements(raw[ElementLen(raw)..])
    ensures raw != [] ==> if raw[0] == BACKSLASH then EscapeAt(raw).Escaped? && Elements(raw)[0] == CodeUnit(EscapeAt(raw).unit)
                          else Elements(raw)[0].Verbatim?
  {
    hide EscapeAt, Utf8.CharAt;
    if raw != [] && raw[0] == BACKSLASH {
      LengthOfEscape(raw);
    }
  }

  lemma LengthOfEscape(raw: Bytes)
    requires ElementLen(raw) > 0 && raw[0] == BACKSLASH
    ensures EscapeAt(raw).Escaped? && ElementLen(raw) == EscapeAt(raw).len
    ensures Escapes.IsLow(EscapeAt(raw).unit) || Escapes.IsHigh(EscapeAt(raw).unit) ==> EscapeAt(raw).len == 6
  {
  }

  /** A piece counts as the units of its bytes. */
  lemma PieceUnits(raw: Bytes, rest: Bytes)
    requires IsContent(raw) && raw != []
    ensures PieceAt(raw + [QUOTE] + rest).Chars?
    ensures PieceAt(raw + [QUOTE] + rest).units == CountUnits(raw[..PieceLen(raw)])
  {
    hide PieceAt, EscapeAt, IsContent, Decode, CountUnits, Utf8.CharAt;
    var n, m := PieceLen(raw), ElementLen(raw);
    var s := raw + [QUOTE] + rest;
    PieceRead(raw, rest);
    ElementsHead(raw);
    ElementOnLine(raw);
    UnitsOfPiece(s);
    if n > m {
      LengthOfEscape(raw);
      ElementsHead(raw[m..]);
      LengthOfEscape(raw[m..]);
      ElementOnLine(raw[m..]);
      From(raw, m, n - m);
      Split(raw, 0, m, n);
      CountUnitsConcat(raw[..m], raw[m..n]);
    } else if raw[0] != BACKSLASH {
      CharacterLen(raw);
    }
  }

  lemma CharacterLen(raw: Bytes)
    requires ElementLen(raw) > 0 && raw[0] != BACKSLASH
    ensures ElementLen(raw) == Utf8.CharAt(raw).n
  {
  }

  lemma UnitsOfPiece(s: Bytes)
    requires s != [] && PieceAt(s).Chars?
    ensures PieceAt(s).units == if s[0] == BACKSLASH then PieceAt(s).n else if PieceAt(s).n == 4 then 2 else 1
  {
  }

  lemma TailOf(raw: Bytes, n: nat, rest: Bytes)
    requires n <= |raw|
    ensures (raw + [QUOTE] + rest)[n..] == raw[n..] + [QUOTE] + rest && raw == raw[..n] + raw[n..]
  {
  }

  /** Content is read to its closing quote, and gives its text. */
  lemma {:induction false} ReadContent(raw: Bytes, rest: Bytes)
    requires IsContent(raw)
    ensures ReadString(raw + [QUOTE] + rest) == Whole(Decode(raw), |raw| + 1, CountUnits(raw))
    decreases |raw|
  {
    var s := raw + [QUOTE] + rest;
    if raw != [] {
      hide IsContent, Decode, PieceLen, PieceAt, CountUnits;
      var n := PieceLen(raw);
      PieceRead(raw, rest);
      PieceUnits(raw, rest);
      ReadContent(raw[n..], rest);
      TailOf(raw, n, rest);
      CountUnitsConcat(raw[..n], raw[n..]);
    }
  }

  /** The text of a string is UTF-8, whatever its escapes. */
  lemma {:induction false} DecodedIsUtf8(raw: Bytes)
    requires IsContent(raw)
    ensures Utf8.ValidUtf8(Decode(raw))
    decreases |raw|
  {
    if raw != [] {
      PieceRead(raw, []);
      PieceIsUtf8(raw + [QUOTE] + []);
      hide IsContent, Decode, PieceLen, PieceAt, Utf8.ValidUtf8;
      var n := PieceLen(raw);
      DecodedIsUtf8(raw[n..]);
      Utf8.ValidUtf8Concat(PieceAt(raw + [QUOTE] + []).text, Decode(raw[n..]));
    }
  }

  lemma PieceIsUtf8(s: Bytes)
    requires s != [] && PieceAt(s).Chars?
    ensures Utf8.ValidUtf8(PieceAt(s).text)
  {
    if s[0] == BACKSLASH {
      Utf8.EncodeIsCharacter(Escapes.Resolve(s).cp);
    } else {
      Utf8.FirstIsValid(s);
    }
  }

  /** Whatever is read as a string is content and its closing quote. */
  lemma {:induction false} ContentOf(s: Bytes)
    requires ReadString(s).Whole?
    ensures var n := ReadString(s).n;
            s[n - 1] == QUOTE && IsContent(s[..n - 1])
            && ReadString(s).text == Decode(s[..n - 1]) && ReadString(s).units == CountUnits(s[..n - 1])
    decreases |s|
  {
    hide Decode, CountUnits, ReadString, IsContent;
    ContentBefore(s);
    var n := ReadString(s).n;
    ReadContent(s[..n - 1], s[n..]);
    QuoteAt(s, n - 1);
  }

  lemma QuoteAt(s: Bytes, i: nat)
    requires i < |s| && s[i] == QUOTE
    ensures s[..i] + [QUOTE] + s[i + 1..] == s
  {
  }

  lemma {:induction false} ContentBefore(s: Bytes)
    requires ReadString(s).Whole?
    ensures var n := ReadString(s).n;
            s[n - 1] == QUOTE && IsContent(s[..n - 1])
    decreases |s|
  {
    hide PieceAt, ElementLen;
    var p, n := PieceAt(s), ReadString(s).n;
    QuotePiece(s);
    if p.Quote? {
      assert s[..0] == [];
    } else {
      ContentBefore(s[p.n..]);
      PieceIsContent(s);
      hide IsContent, PieceAt, ReadString;
      Rest(s, p.n, n - 1);
      ContentConcat(s[..p.n], s[p.n..][..n - 1 - p.n]);
    }
  }

  lemma QuotePiece(s: Bytes)
    requires s != []
    ensures PieceAt(s).Quote? ==> s[0] == QUOTE
    ensures PieceAt(s).Chars? ==> 0 < PieceAt(s).n
  {
    hide Escapes.Resolve, Utf8.CharAt;
  }

  lemma PieceIsContent(s: Bytes)
    requires s != [] && PieceAt(s).Chars?
    ensures IsContent(s[..PieceAt(s).n])
  {
    hide Escapes.HexUnit, Utf8.Encode, IsContent;
    var n, m := PieceAt(s).n, ElementLen(s);
    if s[0] == BACKSLASH {
      EscapeIsParsed(s);
    }
    OneElement(s);
    if n > m {
      var next := s[m..];
      EscapeIsParsed(next);
      OneElement(next);
      Rest(s, m, n);
      ContentConcat(s[..m], next[..n - m]);
    }
  }

  // ---------- Keys ----------

  /** An element, skipped as the key scan does. */
  lemma {:induction false} ClosesBack(u: Bytes, k: nat)
    requires k < |u| && Closes(u[k..])
    requires forall i :: 0 <= i < k ==> IsPlain(u[i])
    ensures Closes(u)
    decreases k
  {
    if k == 0 {
      assert u[0..] == u;
    } else {
      assert u[1..][k - 1..] == u[k..];
      ClosesBack(u[1..], k - 1);
    }
  }

  lemma {:induction false} ContentCloses(raw: Bytes)
    requires IsContent(raw)
    ensures Closes(raw + [QUOTE])
    decreases |raw|
  {
    if raw != [] {
      var n, u := ElementLen(raw), raw + [QUOTE];
      ContentCloses(raw[n..]);
      assert u[n..] == raw[n..] + [QUOTE];
      ElementPlain(raw);
      hide IsContent, Utf8.CharAt, EscapeAt;
      hide ElementLen, Closes;
      if raw[0] == BACKSLASH {
        assert u[2..][n - 2..] == u[n..];
        ClosesBack(u[2..], n - 2);
        ClosesEscape(u);
      } else {
        ClosesBack(u, n);
      }
    }
  }

  lemma ClosesEscape(u: Bytes)
    requires |u| >= 2 && u[0] == BACKSLASH && Closes(u[2..])
    ensures Closes(u)
  {
  }

  lemma ElementPlain(raw: Bytes)
    requires ElementLen(raw) > 0
    ensures raw[0] == BACKSLASH ==> ElementLen(raw) >= 2
    ensures forall i :: (if raw[0] == BACKSLASH then 2 else 0) <= i < ElementLen(raw) ==> IsPlain(raw[i])
  {
    if raw[0] != BACKSLASH {
      forall i | 0 < i < ElementLen(raw) ensures Utf8.IsContinuation(raw[i]) {
        Utf8.CharAtTail(raw, i);
      }
    }
  }

  lemma {:induction false} ClosesOnce(u: Bytes, n: nat)
    requires n <= |u| && Closes(u) && Closes(u[..n])
    ensures n == |u|
    decreases |u|
  {
    if u[0] != QUOTE {
      var k := if u[0] == BACKSLASH then 2 else 1;
      assert u[k..][..n - k] == u[..n][k..];
      ClosesOnce(u[k..], n - k);
    }
  }

  /** The key scan goes to the closing quote, unless the name is too long. */
  lemma {:induction false} ScanToClose(s: Bytes, i: nat, u: Bytes, limit: Option<nat>)
    requires i >= 1 && i + |u| <= |s| && s[i..i + |u|] == u && Closes(u)
    ensures ScanKey(s, i, limit) == if Exceeds(i + |u| - 2, limit) then KeyBad else KeyEnd(i + |u| - 1)
    decreases |u|
  {
    assert u[0] == s[i];
    if !Exceeds(i - 1, limit) && s[i] != QUOTE {
      var k := if s[i] == BACKSLASH then 2 else 1;
      assert s[i + k..i + |u|] == u[k..];
      ScanToClose(s, i + k, u[k..], limit);
    }
  }

  /** A key is found whole, with its text. */
  lemma KeyIsRead(raw: Bytes, rest: Bytes, limit: Option<nat>)
    requires IsContent(raw)
    ensures var s := [QUOTE] + raw + [QUOTE] + rest;
            if Exceeds(|raw|, limit) then ScanKey(s, 1, limit).KeyBad?
            else
              && ScanKey(s, 1, limit) == KeyEnd(|raw| + 1)
              && KeyReading(s, |raw| + 1) == Whole(Decode(raw), |raw| + 1, CountUnits(raw))
  {
    hide Closes, IsContent, Decode, ScanKey, ReadString;
    var s, u := [QUOTE] + raw + [QUOTE] + rest, raw + [QUOTE];
    ContentCloses(raw);
    assert s[1..1 + |u|] == u;
    ScanToClose(s, 1, u, limit);
    ReadContent(raw, []);
    assert u + [] == u;
  }

  /** Whatever is found as a key is content in quotes. */
  lemma KeyContent(s: Bytes, limit: Option<nat>)
    requires s != [] && ScanKey(s, 1, limit).KeyEnd? && KeyReading(s, ScanKey(s, 1, limit).end).Whole?
    ensures var raw := s[1..ScanKey(s, 1, limit).end];
            IsContent(raw) && s == [s[0]] + raw + [QUOTE] + s[|raw| + 2..]
  {
    hide Closes, IsContent, ScanKey, ReadString;
    var end := ScanKey(s, 1, limit).end;
    var u := s[1..end + 1];
    ScanCloses(s, 1, limit);
    ContentOf(u);
    var n := ReadString(u).n;
    ContentCloses(u[..n - 1]);
    assert u[..n - 1] + [QUOTE] == u[..n];
    ClosesOnce(u, n);
    KeyParts(s, end);
  }

  lemma KeyParts(s: Bytes, end: nat)
    requires 1 <= end < |s| && s[end] == QUOTE
    ensures s[1..end + 1][..end - 1] == s[1..end]
    ensures s == [s[0]] + s[1..end] + [QUOTE] + s[end + 1..]
  {
  }
}
