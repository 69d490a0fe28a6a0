// Runs of plain string content, as the machine reads them one character at a time.
module StringRuns {
  import opened Base
  import opened Events
  import opened Machine
  import Utf8
  import Escapes
  import opened Passages

  /** `[from, to)` is whole characters. */
  predicate WholeChars(s: Bytes, from: nat, to: nat)
    requires from <= to <= |s|
  {
    Utf8.ValidUtf8(s[from..to])
  }

  /** Decoding more whole characters after `text`. */
  lemma ExtendText(text: Bytes, more: Bytes)
    requires Utf8.ValidUtf8(text) && Utf8.ValidUtf8(more)
    ensures Utf8.ValidUtf8(text + more)
    ensures Utf8.Utf16Units(text + more) == Utf8.Utf16Units(text) + Utf8.Utf16Units(more)
  {
    Utf8.Utf16UnitsConcat(text, more);
  }

  /** Nothing decoded yet. */
  lemma EmptyRun(s: Bytes, from: nat, log: Log, start: Bytes)
    requires from <= |s|
    ensures WholeChars(s, from, from) && Utf8.Utf16Units(s[from..from]) == 0
    ensures JoinContent(log, s[from..from]) == log && start + s[from..from] == start
  {
    assert s[from..from] == [];
  }

  /** What a slice says of the character it stops in holds of the whole input,
      unless the slice is too short to tell. */
  lemma {:induction false} SliceTells(s: Bytes, p: nat, slice: Bytes)
    requires |slice| > 0 && p + |slice| <= |s| && slice == s[p..p + |slice|]
    ensures match Utf8.FromUtf8(slice)
            case Valid => Utf8.ValidUtf8(slice)
            case Invalid(n, cutShort) =>
              && n < |slice| && Utf8.ValidUtf8(slice[..n])
              && (!cutShort ==> Utf8.CharAt(s[p + n..]).Bad?)
              && (cutShort <==> Utf8.CharAt(s[p + n..p + |slice|]).Need?)
              && (cutShort ==> Utf8.Width(s[p + n]) >= 2)
  {
    hide Utf8.CharAt, Utf8.ValidUtf8;
    var n := Utf8.ValidUpTo(slice);
    Utf8.ValidUpToIsLongest(slice);
    assert slice[..|slice|] == slice;
    if n < |slice| {
      SliceTail(s, p, |slice|, n);
      Utf8.CharAtPrefix(s[p + n..], |slice| - n);
    }
  }

  /** A character that starts in a plain run ends in it. */
  lemma CharacterStaysIn(s: Bytes, p: nat, to: nat)
    requires p < to <= |s| && (to < |s| ==> s[to] < 0x80)
    requires Utf8.CharAt(s[p..]).Len?
    ensures var n := Utf8.CharAt(s[p..]).n;
            && p + n <= to
            && WholeChars(s, p, p + n)
            && Utf8.Utf16Units(s[p..p + n]) == (if n == 4 then 2 else 1)
  {
    var n := Utf8.CharAt(s[p..]).n;
    if p + n > to {
      Utf8.CharAtTail(s[p..], to - p);
    }
    assert s[p..][..n] == s[p..p + n];
    Utf8.CharAtPrefix(s[p..], n);
    assert s[p..p + n][n..] == [];
  }

  // ---------- Runs of the machine over a string ----------

  /** Nothing can be done with `s` yet. The tokenizer may also wait for a character that
      can already be seen to be malformed, if the data ends inside it, and the slice it
      is in ends inside it too: at the wrap of the ring, or for want of room in the buffer. */
  predicate Waits(cfg: Config, st: St, s: Bytes)
    requires |s| > 0
  {
    Unit(cfg, st, s).Wait? || (Unit(cfg, st, s).Bad? && |s| <= 3)
  }

  /** The state after whole characters of plain content. */
  function TakeText(st: St, raw: nat, text: Bytes): St
    requires Utf8.ValidUtf8(text)
  {
    Advance(st, Utf8.Utf16Units(text)).(log := JoinContent(st.log, text), mode := InString(raw + |text|))
  }

  lemma TakeTextTwice(st: St, raw: nat, a: Bytes, b: Bytes)
    requires Utf8.ValidUtf8(a) && Utf8.ValidUtf8(b)
    ensures Utf8.ValidUtf8(a + b)
    ensures TakeText(TakeText(st, raw, a), raw + |a|, b) == TakeText(st, raw, a + b)
  {
    Utf8.Utf16UnitsConcat(a, b);
    JoinContentTwice(st.log, a, b);
  }

  /** One plain character. */
  lemma UnitOfCharacter(cfg: Config, st: St, raw: nat, s: Bytes)
    requires st.mode == InString(raw) && |s| > 0 && IsPlain(s[0]) && Utf8.CharAt(s).Len?
    ensures var n := Utf8.CharAt(s).n;
            && Utf8.ValidUtf8(s[..n])
            && Unit(cfg, st, s) == if Exceeds(raw + n, cfg.limits.stringLength) then Bad
                                   else Go(TakeText(st, raw, s[..n]), n)
  {
    var n := Utf8.CharAt(s).n;
    Utf8.CharAtPrefix(s, n);
    assert s[..n][n..] == [];
    assert PieceAt(s) == Chars(s[..n], n, Utf8.Utf16Units(s[..n]));
  }

  lemma {:induction false} RunPlain(cfg: Config, st: St, raw: nat, text: Bytes, rest: Bytes)
    requires st.mode == InString(raw) && AllPlain(text) && Utf8.ValidUtf8(text)
    requires !Exceeds(raw + |text|, cfg.limits.stringLength)
    ensures Leads(cfg, st, text + rest, TakeText(st, raw, text), rest)
    decreases |text|
  {
    hide Leads, Unit, TakeText, Utf8.CharAt, AllPlain;
    if text == [] {
      TakeNothing(st, raw, rest);
      LeadsNowhere(cfg, st, rest);
    } else {
      var n := Utf8.CharAt(text).n;
      var first, more := text[..n], text[n..];
      FirstOfPlain(cfg, st, raw, text, rest);
      hide *;
      LeadsOne(cfg, st, text + rest, TakeText(st, raw, first), n);
      TakeTextTwice(st, raw, first, more);
      TakeTextMode(st, raw, first);
      RunPlain(cfg, TakeText(st, raw, first), raw + n, more, rest);
      LeadsOn(cfg, st, text + rest, TakeText(st, raw, first), more + rest, TakeText(st, raw, text), rest);
    }
  }

  lemma TakeNothing(st: St, raw: nat, rest: Bytes)
    requires st.mode == InString(raw)
    ensures Utf8.ValidUtf8([]) && TakeText(st, raw, []) == st && [] + rest == rest
  {
  }

  lemma FirstOfPlain(cfg: Config, st: St, raw: nat, text: Bytes, rest: Bytes)
    requires st.mode == InString(raw) && text != [] && AllPlain(text) && Utf8.ValidUtf8(text)
    requires !Exceeds(raw + |text|, cfg.limits.stringLength)
    ensures var n := Utf8.CharAt(text).n;
            && Utf8.ValidUtf8(text[..n]) && Utf8.ValidUtf8(text[n..]) && AllPlain(text[n..])
            && Unit(cfg, st, text + rest) == Go(TakeText(st, raw, text[..n]), n)
            && (text + rest)[n..] == text[n..] + rest && text[..n] + text[n..] == text && |text[n..]| < |text|
  {
    hide Unit, TakeText, Utf8.CharAt;
    assert IsPlain((text + rest)[0]);
    Utf8.CharAtStable(text, rest);
    UnitOfCharacter(cfg, st, raw, text + rest);
    Within(text, rest, Utf8.CharAt(text).n);
  }

  lemma TakeTextMode(st: St, raw: nat, text: Bytes)
    requires Utf8.ValidUtf8(text)
    ensures TakeText(st, raw, text).mode == InString(raw + |text|)
  {
  }

  /** A run of plain bytes over the limit is refused, whole characters or not. */
  lemma {:induction false} RunPlainTooLong(cfg: Config, st: St, raw: nat, s: Bytes, k: nat)
    requires st.mode == InString(raw) && k <= |s| && AllPlain(s[..k])
    requires Exceeds(raw + k, cfg.limits.stringLength) && !Exceeds(raw, cfg.limits.stringLength)
    ensures Run(cfg, st, s).Fail?
    decreases k
  {
    assert s[..k][0] == s[0] && s[0..k] == s[..k];
    hide Utf8.CharAt;
    var d := Utf8.CharAt(s);
    if d.Len? {
      UnitOfCharacter(cfg, st, raw, s);
      if !Exceeds(raw + d.n, cfg.limits.stringLength) {
        SliceTail(s, 0, k, d.n);
        RunPlainTooLong(cfg, TakeText(st, raw, s[..d.n]), raw + d.n, s[d.n..], k - d.n);
      }
    }
  }

  /** Where a run of whole characters is followed by a plain byte that starts none,
      the machine cannot go on. */
  lemma StuckAtCharacter(cfg: Config, st: St, raw: nat, s: Bytes)
    requires st.mode == InString(raw) && |s| > 0 && IsPlain(s[0]) && !Utf8.CharAt(s).Len?
    ensures !Unit(cfg, st, s).Go?
    ensures Utf8.CharAt(s).Bad? ==> Unit(cfg, st, s).Bad?
  {
  }

  /** The machine over the plain bytes `[c, to)` of `s`, of which `[c, p)` are whole characters. */
  lemma RunOver(cfg: Config, st: St, raw: nat, s: Bytes, c: nat, p: nat, to: nat)
    requires st.mode == InString(raw) && c <= p <= to <= |s| && AllPlain(s[c..to]) && WholeChars(s, c, p)
    requires !Exceeds(raw + (to - c), cfg.limits.stringLength)
    requires p < to ==> !Utf8.CharAt(s[p..]).Len?
    ensures Leads(cfg, st, s[c..], TakeText(st, raw, s[c..p]), s[p..])
    ensures p < to && |s| - p <= 3 ==> Waits(cfg, TakeText(st, raw, s[c..p]), s[p..])
    ensures p < to && Utf8.CharAt(s[p..]).Bad? ==> Run(cfg, st, s[c..]).Fail?
  {
    hide Utf8.CharAt, Utf8.ValidUtf8;
    assert AllPlain(s[c..p]) by {
      assert forall i :: 0 <= i < p - c ==> s[c..p][i] == s[c..to][i];
    }
    assert s[c..] == s[c..p] + s[p..];
    RunPlain(cfg, st, raw, s[c..p], s[p..]);
    if p < to {
      assert s[p..][0] == s[c..to][p - c];
      StuckAtCharacter(cfg, TakeText(st, raw, s[c..p]), raw + (p - c), s[p..]);
      LeadsToSameRun(cfg, st, s[c..], TakeText(st, raw, s[c..p]), s[p..]);
    }
  }

  /** The unit at a backslash. */
  lemma EscapeUnit(cfg: Config, st: St, raw: nat, s: Bytes)
    requires st.mode == InString(raw) && |s| > 0 && s[0] == BACKSLASH
    ensures Unit(cfg, st, s)
         == match Escapes.Resolve(s)
            case Need => Wait(st)
            case Bad => Machine.Bad
            case Char(cp, n) =>
              if Exceeds(raw + n, cfg.limits.stringLength) then Machine.Bad
              else Go(Advance(st, n).(log := JoinContent(st.log, Utf8.Encode(cp)), mode := InString(raw + n)), n)
  {
  }

  lemma ControlCharacter(cfg: Config, st: St, s: Bytes)
    requires st.mode.InString? && |s| > 0 && s[0] != QUOTE && s[0] != BACKSLASH && s[0] < SPACE
    ensures Run(cfg, st, s).Fail?
  {
  }
}
