// What the machine has come to, and what it waits for, can still become a document,
// but for one kind of wait.
module Completions {
  import opened Base
  import opened Machine
  import opened TokenRuns
  import opened Documents
  import opened Invariants
  import opened Prefixes
  import Utf8
  import Escapes
  import Numbers
  import Chunks

  /** In a string, an escape that is not refused until it is whole, though it cannot be one. */
  predicate Doomed(st: St, rest: Bytes) {
    st.mode.InString? && rest != [] && rest[0] == BACKSLASH && Escapes.Spoilt(rest)
  }

  lemma EndFromHere(cfg: Config, s: Bytes, st: St, rest: Bytes, more: Bytes)
    requires Run(cfg, INITIAL, s) == Stop(st, rest)
    ensures End(cfg, INITIAL, s + more) == End(cfg, st, rest + more)
  {
    Chunks.RunInPieces(cfg, INITIAL, s, more);
    hide Run;
  }

  lemma Follows(cfg: Config, st: St, s: Bytes, next: St, n: nat, rest: Bytes)
    requires s != [] && Unit(cfg, st, s) == Go(next, n) && n <= |s| && s[n..] == rest
    ensures End(cfg, st, s) == End(cfg, next, rest)
  {
    hide Unit;
    EndGoes(cfg, st, s, next, n);
  }

  lemma NothingMore(cfg: Config, st: St)
    ensures End(cfg, st, []) == Finish(st)
  {
  }

  // ---------- Numbers ----------

  lemma OneMoreDigit(num: Numbers.Num)
    requires num.stage != Numbers.Idle && !Numbers.Complete(num)
    ensures Numbers.Continue(num, ZERO).Next? && Numbers.Complete(Numbers.Continue(num, ZERO).num)
  {
    hide Numbers.TakeDigit, Numbers.TakeExponentDigit;
  }

  /** A number not complete lacks a digit. */
  lemma NumberEnding(cfg: Config, st: St, num: Numbers.Num) returns (more: Bytes)
    requires cfg.limits == UNLIMITED && st.mode == InNumber(num) && num.stage != Numbers.Idle
    ensures End(cfg, st, more).Some?
  {
    more := if Numbers.Complete(num) then [] else [ZERO];
    if !Numbers.Complete(num) {
      OneMoreDigit(num);
      Follows(cfg, st, more, st.(mode := InNumber(Numbers.Continue(num, ZERO).num)), 1, []);
    }
  }

  // ---------- Strings ----------

  /** One piece of a string, and then whatever ends from there. */
  lemma PieceThen(cfg: Config, st: St, s: Bytes, n: nat, rest: Bytes) returns (next: St)
    requires cfg.limits == UNLIMITED && st.mode.InString? && s != [] && PieceAt(s).Chars? && PieceAt(s).n == n && s[n..] == rest
    ensures next.mode.InString? && End(cfg, st, s) == End(cfg, next, rest)
  {
    next := AfterPiece(st, st.mode.raw, PieceAt(s));
    PieceUnit(cfg, st, st.mode.raw, s);
    Follows(cfg, st, s, next, n, rest);
  }

  lemma QuoteEnds(cfg: Config, st: St)
    requires st.mode.InString?
    ensures End(cfg, st, [QUOTE]).Some?
  {
    QuoteUnit(cfg, st, st.mode.raw, [QUOTE]);
    Follows(cfg, st, [QUOTE], Closing(st, [], 0), 1, []);
  }

  lemma CharacterEnding(cfg: Config, st: St, s: Bytes) returns (more: Bytes)
    requires cfg.limits == UNLIMITED && st.mode.InString? && s != [] && IsPlain(s[0]) && Utf8.CharAt(s).Need?
    ensures End(cfg, st, s + more).Some?
  {
    var tail := Utf8.CharCanEnd(s);
    more := tail + [QUOTE];
    Utf8.CharAtStable(s + tail, [QUOTE]);
    Assoc(s, tail, [QUOTE]);
    assert PieceAt(s + more).Chars? && PieceAt(s + more).n == |s + tail|;
    var next := PieceThen(cfg, st, s + more, |s + tail|, [QUOTE]);
    QuoteEnds(cfg, next);
  }

  lemma EscapeAndQuote(cfg: Config, st: St, e: Bytes)
    requires cfg.limits == UNLIMITED && st.mode.InString? && e != [] && e[0] == BACKSLASH
    requires Escapes.ParseEscape(e).Unit? && Escapes.ParseEscape(e).len == |e|
    ensures End(cfg, st, e + [QUOTE]).Some?
  {
    Escapes.QuoteSettles(e, []);
    assert [QUOTE] + [] == [QUOTE];
    var next := PieceThen(cfg, st, e + [QUOTE], |e|, [QUOTE]);
    QuoteEnds(cfg, next);
  }

  /** A high surrogate, and after it nothing or the front of an escape. */
  lemma PairEnding(cfg: Config, st: St, high: Bytes, tail: Bytes) returns (more: Bytes)
    requires cfg.limits == UNLIMITED && st.mode.InString? && |high| == 6 && high[0] == BACKSLASH
    requires Escapes.ParseEscape(high).Unit? && Escapes.IsHigh(Escapes.ParseEscape(high).unit)
    requires Escapes.LowSurrogateFollows(tail).FollowNeedMore?
    requires forall i :: 2 <= i < |tail| ==> Escapes.Unhex(tail[i]).Some?
    ensures End(cfg, st, high + tail + more).Some?
  {
    if tail == [] {
      more := [QUOTE];
      EscapeAndQuote(cfg, st, high);
      assert high + tail + more == high + [QUOTE];
    } else {
      var fill := Escapes.EscapeFills(tail);
      var e := tail + fill;
      more := fill + [QUOTE];
      var s := high + tail + more;
      assert s == high + (e + [QUOTE]);
      assert s[6..] == e + [QUOTE];
      Escapes.ParseEscapeStable(high, e + [QUOTE]);
      PairSettles(s, high, e);
      if Escapes.Resolve(s).len == 6 {
        var next := PieceThen(cfg, st, s, 6, e + [QUOTE]);
        EscapeAndQuote(cfg, next, e);
      } else {
        assert s[12..] == [QUOTE];
        var next := PieceThen(cfg, st, s, 12, [QUOTE]);
        QuoteEnds(cfg, next);
      }
    }
  }

  lemma PairSettles(s: Bytes, high: Bytes, e: Bytes)
    requires |high| == 6 && s == high + (e + [QUOTE]) && e != [] && e[0] == BACKSLASH
    requires Escapes.ParseEscape(s) == Escapes.ParseEscape(high) && Escapes.ParseEscape(high).Unit?
    requires Escapes.IsHigh(Escapes.ParseEscape(high).unit) && Escapes.ParseEscape(high).len == 6
    requires Escapes.ParseEscape(e).Unit? && Escapes.ParseEscape(e).len == |e|
    ensures Escapes.Resolve(s).Char?
    ensures Escapes.Resolve(s).len == 6 || (Escapes.Resolve(s).len == 12 && |e| == 6)
  {
    assert s[6..] == e + [QUOTE];
    Escapes.ParseEscapeStable(e, [QUOTE]);
  }

  lemma EscapeEnding(cfg: Config, st: St, s: Bytes) returns (more: Bytes)
    requires cfg.limits == UNLIMITED && st.mode.InString? && s != [] && s[0] == BACKSLASH
    requires Escapes.Resolve(s).Need? && !Escapes.Spoilt(s)
    ensures End(cfg, st, s + more).Some?
  {
    var e := Escapes.ParseEscape(s);
    if e.NeedMore? {
      if |s| > 1 {
        Escapes.DigitsSoFar(s, 2, 0);
      }
      var fill := Escapes.EscapeFills(s);
      more := fill + [QUOTE];
      Assoc(s, fill, [QUOTE]);
      EscapeAndQuote(cfg, st, s + fill);
    } else {
      var high, tail := s[..6], s[6..];
      assert s == high + tail;
      Escapes.PeekIsEnough(s, high);
      forall i | 2 <= i < |tail|
        ensures Escapes.Unhex(tail[i]).Some?
      {
        assert tail[i] == s[i + 6];
      }
      more := PairEnding(cfg, st, high, tail);
    }
  }

  // ---------- Literals ----------

  /** What comes after the first byte of the literal that starts so. */
  function LiteralRest(first: Byte): Bytes {
    if first == 0x74 then RUE else if first == 0x66 then ALSE else ULL
  }

  function LiteralValue(first: Byte): Option<bool> {
    if first == 0x74 then Some(true) else if first == 0x66 then Some(false) else Option.None
  }

  lemma LiteralWaits(cfg: Config, st: St, s: Bytes)
    requires st.mode.Plain? && s != [] && Unit(cfg, st, s).Wait? && !AtKey(st, s)
    ensures s[0] in {0x74, 0x66, 0x6E} && st.state == ExpectValue
    ensures var word := LiteralRest(s[0]); |s| - 1 < |word| && s[1..] == word[..|s| - 1]
  {
    if s[0] in {0x74, 0x66, 0x6E} {
      hide LiteralFound;
      var word := LiteralRest(s[0]);
      assert s[1..1 + Min(|s| - 1, |word|)] == word[..Min(|s| - 1, |word|)];
    } else {
      OthersDecide(cfg, st, s);
    }
  }

  lemma OthersDecide(cfg: Config, st: St, s: Bytes)
    requires st.mode.Plain? && s != [] && !AtKey(st, s) && s[0] !in {0x74, 0x66, 0x6E}
    ensures !Unit(cfg, st, s).Wait?
  {
    hide KeyStep, LiteralStep, Report, Advance;
  }

  lemma WholeLiteral(cfg: Config, st: St, s: Bytes)
    requires cfg.limits == UNLIMITED && st.mode.Plain? && st.state == ExpectValue
    requires s != [] && s[0] in {0x74, 0x66, 0x6E} && s[1..] == LiteralRest(s[0])
    ensures Unit(cfg, st, s) == LiteralFound(cfg, st.(afterCr := false), |s|, LiteralValue(s[0]))
  {
    hide LiteralFound;
    var word := LiteralRest(s[0]);
    assert s[1..1 + |word|] == word && word[..|word|] == word;
  }

  lemma LiteralEnding(cfg: Config, st: St, s: Bytes) returns (more: Bytes)
    requires cfg.limits == UNLIMITED && st.mode.Plain? && s != [] && Unit(cfg, st, s).Wait? && !AtKey(st, s)
    ensures End(cfg, st, s + more).Some?
  {
    LiteralWaits(cfg, st, s);
    var word := LiteralRest(s[0]);
    more := word[|s| - 1..];
    var all := s + more;
    assert all[1..] == s[1..] + more == word && all[0] == s[0];
    WholeLiteral(cfg, st, all);
    var next := LiteralFound(cfg, st.(afterCr := false), |all|, LiteralValue(s[0])).st;
    hide Unit, LiteralRest;
    Follows(cfg, st, all, next, |all|, []);
    NothingMore(cfg, next);
  }

  // ---------- Everything ----------

  lemma AtRest(cfg: Config, st: St) returns (more: Bytes)
    requires cfg.limits == UNLIMITED && (st.mode.InNumber? ==> st.mode.num.stage != Numbers.Idle)
    ensures End(cfg, st, more).Some?
  {
    match st.mode
    case Plain => more := [];
    case InString(raw) =>
      more := [QUOTE];
      QuoteEnds(cfg, st);
    case InNumber(num) => more := NumberEnding(cfg, st, num);
  }

  /** Some bytes that end what the machine is in the middle of. */
  lemma Ending(cfg: Config, st: St, rest: Bytes) returns (more: Bytes)
    requires cfg.limits == UNLIMITED && (st.mode.InNumber? ==> st.mode.num.stage != Numbers.Idle)
    requires !AtKey(st, rest) && !Doomed(st, rest) && (rest != [] ==> Unit(cfg, st, rest).Wait?)
    ensures End(cfg, st, rest + more).Some?
  {
    if rest == [] {
      more := AtRest(cfg, st);
      assert rest + more == more;
    } else if st.mode.Plain? {
      more := LiteralEnding(cfg, st, rest);
    } else if rest[0] == BACKSLASH {
      more := EscapeEnding(cfg, st, rest);
    } else {
      more := CharacterEnding(cfg, st, rest);
    }
  }

  /** With no limits, and repeated keys allowed, what has been received can be completed
      to a document, unless it waits inside a key or is doomed. */
  lemma ReachedCanBeCompleted(cfg: Config, s: Bytes) returns (more: Bytes)
    requires cfg.limits == UNLIMITED && !cfg.rejectDuplicates && Run(cfg, INITIAL, s).Stop?
    requires var r := Run(cfg, INITIAL, s); !AtKey(r.st, r.rest) && !Doomed(r.st, r.rest)
    ensures Verdict(cfg, s + more).Some?
  {
    hide Run, Verdict, Walk, AfterAComma, End;
    var r := Run(cfg, INITIAL, s);
    Initially(cfg);
    RunKeeps(cfg, INITIAL, s, []);
    Chunks.RunStops(cfg, INITIAL, s);
    var last := Ending(cfg, r.st, r.rest);
    EndFromHere(cfg, s, r.st, r.rest, last);
    var rest := TakenCanBeCompleted(cfg, s + last);
    Assoc(s, last, rest);
    more := last + rest;
  }

  /** Whatever follows what is doomed, and whatever the limits, it is no document. */
  lemma DoomedIsRefused(cfg: Config, s: Bytes, more: Bytes)
    requires Run(cfg, INITIAL, s).Stop?
    requires var r := Run(cfg, INITIAL, s); Doomed(r.st, r.rest)
    ensures Verdict(cfg, s + more).None?
  {
    hide Run, Verdict, End;
    var r := Run(cfg, INITIAL, s);
    Chunks.RunStops(cfg, INITIAL, s);
    EndFromHere(cfg, s, r.st, r.rest, more);
    DoomedEnds(cfg, r.st, r.rest, more);
    VerdictIsEnd(cfg, s + more);
  }

  lemma DoomedEnds(cfg: Config, st: St, rest: Bytes, more: Bytes)
    requires Doomed(st, rest) && Unit(cfg, st, rest).Wait?
    ensures End(cfg, st, rest + more).None?
  {
    var s := rest + more;
    Escapes.SpoiltIsInvalid(rest, more);
    if |s| >= 12 {
      assert PieceAt(s).Chars? && PieceAt(s).n == 6;
      PieceUnit(cfg, st, st.mode.raw, s);
      if Exceeds(st.mode.raw + 6, cfg.limits.stringLength) {
        EndFails(cfg, st, s);
      } else {
        var next := AfterPiece(st, st.mode.raw, PieceAt(s));
        Follows(cfg, st, s, next, 6, s[6..]);
        EndFails(cfg, next, s[6..]);
      }
    } else {
      EndFails(cfg, st, s);
    }
  }

  /** Outside a key, the wait on a spoilt escape is the only one without a way on. */
  lemma OnlyDoomedIsRefused(cfg: Config, s: Bytes)
    requires cfg.limits == UNLIMITED && !cfg.rejectDuplicates && Run(cfg, INITIAL, s).Stop?
    requires !AtKey(Run(cfg, INITIAL, s).st, Run(cfg, INITIAL, s).rest)
    ensures (exists more :: Verdict(cfg, s + more).Some?) <==> !Doomed(Run(cfg, INITIAL, s).st, Run(cfg, INITIAL, s).rest)
  {
    hide Run, Verdict, Doomed;
    if Doomed(Run(cfg, INITIAL, s).st, Run(cfg, INITIAL, s).rest) {
      forall more
        ensures Verdict(cfg, s + more).None?
      {
        DoomedIsRefused(cfg, s, more);
      }
    } else {
      var more := ReachedCanBeCompleted(cfg, s);
    }
  }

  /** Such a wait: a quote, `\uD800` and `\uZ`. */
  const DOOMED: Bytes := [QUOTE, BACKSLASH, 0x75, 0x44, 0x38, ZERO, ZERO, BACKSLASH, 0x75, 0x5A]

  lemma DoomedWaits(cfg: Config)
    requires cfg.limits == UNLIMITED
    ensures var r := Run(cfg, INITIAL, DOOMED); r.Stop? && Doomed(r.st, r.rest)
  {
    var begun := StartStringStep(cfg, INITIAL).st;
    var rest := DOOMED[1..];
    assert Run(cfg, INITIAL, DOOMED) == Run(cfg, begun, rest);
    assert rest[8] == 0x5A && Escapes.Unhex(rest[8]).None?;
    Escapes.HexUnitSix(rest);
    assert Escapes.Resolve(rest).Need?;
  }
}
