// A key, whose extent is known before its content is decoded.
module KeyRuns {
  import opened Base
  import opened Machine
  import Utf8
  import Escapes

  /** `u` is key content and its closing quote: scanned as the tokenizer does,
      the first quote that is not escaped is its last byte. */
  predicate Closes(u: Bytes) {
    && u != []
    && if u[0] == QUOTE then |u| == 1
       else if u[0] == BACKSLASH then |u| >= 2 && Closes(u[2..])
       else u[0] >= SPACE && Closes(u[1..])
  }

  lemma {:induction false} ScanCloses(s: Bytes, i: nat, limit: Option<nat>)
    requires 1 <= i && ScanKey(s, i, limit).KeyEnd?
    ensures Closes(s[i..ScanKey(s, i, limit).end + 1])
    decreases |s| - i
  {
    var end := ScanKey(s, i, limit).end;
    if s[i] != QUOTE {
      var k := if s[i] == BACKSLASH then 2 else 1;
      ScanCloses(s, i + k, limit);
      assert s[i..end + 1][k..] == s[i + k..end + 1];
    }
  }

  lemma {:induction false} ClosingQuote(u: Bytes)
    requires Closes(u)
    ensures u[|u| - 1] == QUOTE
  {
    if u[0] != QUOTE {
      ClosingQuote(u[if u[0] == BACKSLASH then 2 else 1..]);
    }
  }

  /** Bytes that are neither quote nor backslash can be skipped. */
  lemma {:induction false} ClosesPast(u: Bytes, k: nat)
    requires Closes(u) && k <= |u|
    requires forall i :: 0 <= i < k ==> u[i] != QUOTE && u[i] != BACKSLASH
    ensures k < |u| && Closes(u[k..])
    decreases k
  {
    if k == 0 {
      assert u[0..] == u;
    } else {
      assert forall i :: 0 <= i < k - 1 ==> u[1..][i] == u[i + 1];
      ClosesPast(u[1..], k - 1);
      assert u[1..][k - 1..] == u[k..];
    }
  }

  function Prepend(text: Bytes, n: nat, units: nat, r: Reading): Reading {
    match r
    case Whole(rest, m, more) => Whole(text + rest, n + m, units + more)
    case _ => r
  }

  lemma PrependTwice(a: Bytes, n: nat, x: nat, b: Bytes, m: nat, y: nat, r: Reading)
    ensures Prepend(a, n, x, Prepend(b, m, y, r)) == Prepend(a + b, n + m, x + y, r)
  {
    if r.Whole? {
      Assoc(a, b, r.text);
    }
  }

  /** Reading a run of plain bytes that is followed by something else. */
  lemma {:induction false} ReadPlain(text: Bytes, rest: Bytes)
    requires rest != [] && AllPlain(text) && rest[0] < 0x80
    ensures if Utf8.ValidUtf8(text) then
              ReadString(text + rest) == Prepend(text, |text|, Utf8.Utf16Units(text), ReadString(rest))
            else !ReadString(text + rest).Whole?
    decreases |text|
  {
    if text == [] {
      assert text + rest == rest;
      assert ReadString(rest).Whole? ==> [] + ReadString(rest).text == ReadString(rest).text;
    } else {
      assert IsPlain((text + rest)[0]);
      var d := Utf8.CharAt(text + rest);
      if d.Len? {
        CharacterWithin(text + rest, |text|);
        ReadPlainStep(text, rest, d.n);
      } else {
        Utf8.CharAtPrefix(text + rest, |text|);
        assert (text + rest)[..|text|] == text;
      }
    }
  }

  lemma ReadPlainStep(text: Bytes, rest: Bytes, n: nat)
    requires rest != [] && AllPlain(text) && rest[0] < 0x80
    requires 0 < n <= |text| && Utf8.CharAt(text + rest) == Utf8.Len(n)
    ensures if Utf8.ValidUtf8(text) then
              ReadString(text + rest) == Prepend(text, |text|, Utf8.Utf16Units(text), ReadString(rest))
            else !ReadString(text + rest).Whole?
    decreases |text|, 0
  {
    var u, first, more := text + rest, text[..n], text[n..];
    var units := if n == 4 then 2 else 1;
    Within(text, rest, n);
    assert u[..|text|] == text;
    Utf8.CharAtPrefix(u, |text|);
    assert IsPlain(u[0]);
    assert PieceAt(u) == Chars(first, n, units);
    ReadOne(u);
    assert Utf8.ValidUtf8(text) ==> Utf8.Utf16Units(text) == units + Utf8.Utf16Units(more);
    hide ReadString, PieceAt, Utf8.CharAt, Utf8.Utf16Units;
    ReadPlain(more, rest);
    if Utf8.ValidUtf8(text) {
      PrependTwice(first, n, units, more, |more|, Utf8.Utf16Units(more), ReadString(rest));
    }
  }

  lemma ReadOne(u: Bytes)
    requires u != [] && PieceAt(u).Chars?
    ensures var p := PieceAt(u);
            ReadString(u) == Prepend(p.text, p.n, p.units, ReadString(u[p.n..]))
  {
  }

  /** A character does not reach past a byte that is not a continuation byte. */
  lemma CharacterWithin(u: Bytes, k: nat)
    requires 0 < k < |u| && u[k] < 0x80 && Utf8.CharAt(u).Len?
    ensures Utf8.CharAt(u).n <= k
  {
    if Utf8.CharAt(u).n > k {
      Utf8.CharAtTail(u, k);
    }
  }

  // ---------- Escapes in a key ----------

  /** The key's closing quote is in sight, so an escape in it is whole or bad,
      and ends before the quote. */
  lemma {:induction false} EscapeCloses(u: Bytes)
    requires Closes(u) && u[0] == BACKSLASH
    ensures match Escapes.ParseEscape(u)
            case Unit(_, len) => len < |u| && Closes(u[len..])
            case Invalid => true
            case NeedMore => false
  {
    ClosingQuote(u);
    if u[1] == Escapes.LETTER_U {
      if |u| <= 6 {
        Escapes.HexUnitInvalid(u, 2, 0, |u| - 1);
      } else if Escapes.ParseEscape(u).Unit? {
        Escapes.HexUnitSix(u);
        assert forall i :: 0 <= i < 4 ==> u[2..][i] == u[i + 2];
        ClosesPast(u[2..], 4);
        assert u[2..][4..] == u[6..];
      }
    }
  }

  /** Where a key seems to wait for a low surrogate, the next escape is cut short
      by the closing quote, so it is bad. */
  lemma WaitInKey(v: Bytes, more: Bytes)
    requires Closes(v) && Escapes.LowSurrogateFollows(v).FollowNeedMore?
    ensures v[0] == BACKSLASH && Escapes.ParseEscape(v).Invalid? && Escapes.ParseEscape(v + more).Invalid?
    ensures !Escapes.LowSurrogateFollows(v + more).Low?
  {
    ClosingQuote(v);
    Escapes.HexUnitInvalid(v, 2, 0, |v| - 1);
    Escapes.HexUnitInvalid(v + more, 2, 0, |v| - 1);
  }

  /** The escape at the front of what is left of a key, seen with the bytes after
      the key: it is as if they were not there, or it leads into a bad escape. */
  lemma {:induction false} EscapeInKey(u: Bytes, more: Bytes)
    requires Closes(u) && u[0] == BACKSLASH
    ensures var r := Escapes.Resolve(u + more);
            match Escapes.Resolve(u)
            case Char(_, n) => r == Escapes.Resolve(u) && n < |u| && Closes(u[n..])
            case Bad => r.Bad?
            case Need => r.Char? ==> r.len == 6 && 7 < |u| && Closes(u[6..]) && u[6] == BACKSLASH
                                     && Escapes.Resolve((u + more)[6..]).Bad?
  {
    EscapeCloses(u);
    Escapes.ParseEscapeStable(u, more);
    if !Escapes.Resolve(u).Need? {
      Escapes.ResolveStable(u, more);
    }
    var e := Escapes.ParseEscape(u);
    if e.Unit? && Escapes.IsHigh(e.unit) {
      var v := u[e.len..];
      assert (u + more)[e.len..] == v + more;
      hide Escapes.HexUnit;
      match Escapes.LowSurrogateFollows(v)
      case FollowNeedMore => WaitInKey(v, more);
      case Low(_) =>
        EscapeCloses(v);
        assert v[6..] == u[e.len + 6..];
      case Not =>
    }
  }

  // ---------- Decoding a key ----------

  predicate Readable(r: Reading, chunk: nat) {
    r.Whole? && |r.text| <= chunk
  }

  /** Having decoded `text`, in `n` bytes and `units` units, `u` of the key `t` is left. */
  predicate KeyReached(t: Bytes, text: Bytes, n: nat, units: nat, u: Bytes) {
    ReadString(t) == Prepend(text, n, units, ReadString(u)) && Closes(u)
  }

  /** A plain run is read next. */
  lemma KeyRunReached(t: Bytes, text: Bytes, n: nat, units: nat, run: Bytes, rest: Bytes, chunk: nat)
    requires KeyReached(t, text, n, units, run + rest)
    requires rest != [] && AllPlain(run) && rest[0] < 0x80
    ensures Utf8.ValidUtf8(run) ==> KeyReached(t, text + run, n + |run|, units + Utf8.Utf16Units(run), rest)
    ensures !Utf8.ValidUtf8(run) || |text| + |run| > chunk ==> !Readable(ReadString(t), chunk)
  {
    hide ReadString, Utf8.Utf16Units, Utf8.ValidUtf8;
    ReadPlain(run, rest);
    assert (run + rest)[|run|..] == rest;
    assert forall i :: 0 <= i < |run| ==> (run + rest)[i] == run[i];
    hide Closes;
    ClosesPast(run + rest, |run|);
    if Utf8.ValidUtf8(run) {
      PrependTwice(text, n, units, run, |run|, Utf8.Utf16Units(run), ReadString(rest));
    }
  }

  /** An escape is read next, if it is one whatever follows the key. */
  lemma KeyEscapeReached(t: Bytes, text: Bytes, n: nat, units: nat, u: Bytes, chunk: nat)
    requires KeyReached(t, text, n, units, u) && u[0] == BACKSLASH && !Escapes.Resolve(u).Need?
    ensures var r := Escapes.Resolve(u);
            if r.Bad? then !Readable(ReadString(t), chunk)
            else
              && r.len < |u|
              && KeyReached(t, text + Utf8.Encode(r.cp), n + r.len, units + r.len, u[r.len..])
              && (|text| + |Utf8.Encode(r.cp)| > chunk ==> !Readable(ReadString(t), chunk))
  {
    EscapeInKey(u, []);
    var r := Escapes.Resolve(u);
    if r.Char? {
      ReadOne(u);
      hide ReadString, Escapes.Resolve, Utf8.Encode;
      PrependTwice(text, n, units, Utf8.Encode(r.cp), r.len, r.len, ReadString(u[r.len..]));
    }
  }

  /** A key whose escape never ends cannot be read. */
  lemma KeyEscapeNeeds(t: Bytes, text: Bytes, n: nat, units: nat, u: Bytes)
    requires KeyReached(t, text, n, units, u) && u[0] == BACKSLASH && Escapes.Resolve(u).Need?
    ensures !ReadString(t).Whole?
  {
  }

  lemma KeyStart(t: Bytes)
    requires Closes(t)
    ensures KeyReached(t, [], 0, 0, t)
  {
    var r := ReadString(t);
    assert r.Whole? ==> [] + r.text == r.text;
  }

  lemma KeyDone(t: Bytes, text: Bytes, n: nat, units: nat)
    requires KeyReached(t, text, n, units, [QUOTE])
    ensures ReadString(t) == Whole(text, n + 1, units)
  {
    assert text + [] == text;
  }

  /** A run that stops at something that starts no character is not whole characters. */
  lemma RunNotWhole(s: Bytes, p: nat, next: nat, to: nat)
    requires p <= next < to <= |s| && Utf8.ValidUtf8(s[p..next]) && !Utf8.CharAt(s[next..]).Len?
    ensures !Utf8.ValidUtf8(s[p..to])
  {
    Split(s, p, next, to);
    Utf8.ValidUtf8Concat(s[p..next], s[next..to]);
    From(s, next, to - next);
    Utf8.CharAtPrefix(s[next..], to - next);
  }

  /** Inside a key, a run of plain bytes ends at a backslash or at the closing quote. */
  lemma KeyStopsAt(s: Bytes, p: nat, runEnd: nat, end: nat)
    requires p <= runEnd <= end < |s| && AllPlain(s[p..runEnd]) && (runEnd < end ==> !IsPlain(s[runEnd]))
    requires Closes(s[p..end + 1])
    ensures !IsPlain(s[runEnd]) && (runEnd < end ==> s[runEnd] == BACKSLASH)
  {
    var u := s[p..end + 1];
    ClosingQuote(u);
    assert u[|u| - 1] == s[end];
    assert forall i :: 0 <= i < runEnd - p ==> u[i] == s[p..runEnd][i];
    ClosesPast(u, runEnd - p);
    assert u[runEnd - p..][0] == s[runEnd];
  }

  /** The escape at `p` of a key, seen with the bytes after the key. If it seems to
      go on but the key itself says it cannot, the next one is bad. */
  lemma KeyEscape(t: Bytes, text: Bytes, n: nat, units: nat, s: Bytes, p: nat, end: nat, chunk: nat) returns (doomed: bool)
    requires p < end < |s| && s[p] == BACKSLASH && KeyReached(t, text, n, units, s[p..end + 1])
    ensures var r := Escapes.Resolve(s[p..]);
            if !r.Char? then !Readable(ReadString(t), chunk)
            else
              && p + r.len <= end
              && (|text| + |Utf8.Encode(r.cp)| > chunk ==> !Readable(ReadString(t), chunk))
              && (!doomed ==> KeyReached(t, text + Utf8.Encode(r.cp), n + r.len, units + r.len, s[p + r.len..end + 1]))
              && (doomed ==> Doomed(t, s, p + r.len, end))
  {
    hide Prepend, ReadString, Closes, Utf8.Encode, Escapes.Resolve;
    var u, more := s[p..end + 1], s[end + 1..];
    Cut(s, p, end + 1 - p);
    assert u[0] == s[p];
    EscapeInKey(u, more);
    doomed := Escapes.Resolve(u).Need?;
    if doomed {
      KeyEscapeNeeds(t, text, n, units, u);
      if Escapes.Resolve(u + more).Char? {
        assert u[6] == s[p + 6] && (u + more)[6..] == s[p + 6..];
      }
    } else {
      KeyEscapeReached(t, text, n, units, u, chunk);
      if Escapes.Resolve(u).Char? {
        assert u[Escapes.Resolve(u).len..] == s[p + Escapes.Resolve(u).len..end + 1];
      }
    }
  }

  /** The key is past reading, and a bad escape is next. */
  predicate Doomed(t: Bytes, s: Bytes, p: nat, end: nat)
    requires end < |s|
  {
    !ReadString(t).Whole? && p < end && s[p] == BACKSLASH && Escapes.Resolve(s[p..]).Bad?
  }

  /** A key of plain bytes stands for itself. */
  lemma PlainKey(s: Bytes, start: nat, end: nat)
    requires start <= end < |s| && AllPlain(s[start..end]) && Closes(s[start..end + 1])
    ensures var bytes, r := s[start..end], ReadString(s[start..end + 1]);
            if Utf8.ValidUtf8(bytes) then r.Whole? && r.text == bytes && r.units == Utf8.Utf16Units(bytes) else !r.Whole?
  {
    var bytes := s[start..end];
    ClosingQuote(s[start..end + 1]);
    assert s[start..end + 1] == bytes + [QUOTE];
    ReadPlain(bytes, [QUOTE]);
    assert bytes + [] == bytes;
  }
}
