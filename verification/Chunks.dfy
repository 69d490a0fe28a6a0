// Cutting the input anywhere changes nothing: every decision taken on the
// bytes present stands when more arrive.
module Chunks {
  import opened Base
  import opened Machine
  import Utf8
  import Escapes

  lemma PieceAtStable(s: Bytes, more: Bytes)
    requires |s| > 0 && !PieceAt(s).Partial?
    ensures PieceAt(s + more) == PieceAt(s)
  {
    if s[0] == BACKSLASH {
      Escapes.ResolveStable(s, more);
    } else if IsPlain(s[0]) {
      Utf8.CharAtStable(s, more);
      if Utf8.CharAt(s).Len? {
        assert (s + more)[..Utf8.CharAt(s).n] == s[..Utf8.CharAt(s).n];
      }
    }
  }

  lemma {:induction false} ReadStringStable(s: Bytes, more: Bytes)
    requires !ReadString(s).Unfinished?
    ensures ReadString(s + more) == ReadString(s)
    decreases |s|
  {
    PieceAtStable(s, more);
    var p := PieceAt(s);
    if p.Chars? {
      assert (s + more)[p.n..] == s[p.n..] + more;
      ReadStringStable(s[p.n..], more);
    }
  }

  lemma {:induction false} ScanKeyStable(s: Bytes, more: Bytes, i: nat, limit: Option<nat>)
    requires i >= 1 && !ScanKey(s, i, limit).KeyNeed?
    ensures ScanKey(s + more, i, limit) == ScanKey(s, i, limit)
    decreases |s| - i
  {
    if !Exceeds(i - 1, limit) && s[i] != QUOTE {
      if s[i] == BACKSLASH {
        ScanKeyStable(s, more, i + 2, limit);
      } else if s[i] >= SPACE {
        ScanKeyStable(s, more, i + 1, limit);
      }
    }
  }

  lemma KeyStepStable(cfg: Config, st: St, s: Bytes, more: Bytes)
    requires |s| > 0 && !KeyStep(cfg, st, s).Wait?
    ensures KeyStep(cfg, st, s + more) == KeyStep(cfg, st, s)
  {
    ScanKeyStable(s, more, 1, cfg.limits.nameLength);
    var scan := ScanKey(s, 1, cfg.limits.nameLength);
    if scan.KeyEnd? {
      assert (s + more)[1..scan.end + 1] == s[1..scan.end + 1];
    }
  }

  lemma LiteralStepStable(cfg: Config, st: St, s: Bytes, more: Bytes, rest: Bytes, value: Option<bool>)
    requires |s| > 0 && !LiteralStep(cfg, st, s, rest, value).Wait?
    ensures LiteralStep(cfg, st, s + more, rest, value) == LiteralStep(cfg, st, s, rest, value)
  {
    var present := Min(|s| - 1, |rest|);
    var later := Min(|s + more| - 1, |rest|);
    assert (s + more)[1..1 + later][..present] == s[1..1 + present];
    assert rest[..later][..present] == rest[..present];
  }

  lemma StringStepStable(cfg: Config, st: St, raw: nat, s: Bytes, more: Bytes)
    requires |s| > 0 && !StringStep(cfg, st, raw, s).Wait?
    ensures StringStep(cfg, st, raw, s + more) == StringStep(cfg, st, raw, s)
  {
    if !PieceAt(s).Partial? {
      PieceAtStable(s, more);
    } else {
      PartialTooLong(cfg, st, raw, s, more);
    }
  }

  /** A character cut short that is over the limit already stays over it. */
  lemma PartialTooLong(cfg: Config, st: St, raw: nat, s: Bytes, more: Bytes)
    requires |s| > 0 && PieceAt(s).Partial? && s[0] != BACKSLASH
    requires Exceeds(raw + |s|, cfg.limits.stringLength)
    ensures StringStep(cfg, st, raw, s + more).Bad?
  {
    var t := s + more;
    assert Utf8.CharAt(s).Need?;
    assert t[0] == s[0];
    if Utf8.CharAt(t).Len? {
      assert Utf8.CharAt(t).n > |s|;
    }
  }

  /** The outcome of a unit does not depend on bytes still to come. */
  lemma UnitStable(cfg: Config, st: St, s: Bytes, more: Bytes)
    requires |s| > 0
    ensures !Unit(cfg, st, s).Wait? ==> Unit(cfg, st, s + more) == Unit(cfg, st, s)
    ensures Unit(cfg, st, s).Wait? ==> Unit(cfg, Unit(cfg, st, s).st, s + more) == Unit(cfg, st, s + more)
  {
    assert (s + more)[0] == s[0];
    if st.mode.InString? {
      if !Unit(cfg, st, s).Wait? {
        StringStepStable(cfg, st, st.mode.raw, s, more);
      }
    } else if st.mode.Plain? && !IsWhitespace(s[0]) && !Unit(cfg, st, s).Wait? {
      TokenStepStable(cfg, st.(afterCr := false), s, more);
    }
  }

  lemma TokenStepStable(cfg: Config, st: St, s: Bytes, more: Bytes)
    requires |s| > 0 && !TokenStep(cfg, st, s).Wait?
    ensures TokenStep(cfg, st, s + more) == TokenStep(cfg, st, s)
  {
    assert (s + more)[0] == s[0];
    if s[0] == QUOTE {
      if st.state == ExpectKey {
        KeyStepStable(cfg, st, s, more);
      }
    } else if s[0] == 0x74 {
      LiteralStepStable(cfg, st, s, more, RUE, Some(true));
    } else if s[0] == 0x66 {
      LiteralStepStable(cfg, st, s, more, ALSE, Some(false));
    } else if s[0] == 0x6E {
      LiteralStepStable(cfg, st, s, more, ULL, None);
    }
  }

  /** A run over everything is a run over the front, then over what that left
      together with the rest. */
  lemma {:induction false} RunInPieces(cfg: Config, st: St, s: Bytes, more: Bytes)
    ensures Run(cfg, st, s + more)
         == match Run(cfg, st, s)
            case Fail => Fail
            case Stop(reached, rest) => Run(cfg, reached, rest + more)
    decreases |s|, st.mode.InNumber?
  {
    if s == [] {
      assert s + more == more;
      assert [] + more == more;
    } else {
      UnitStable(cfg, st, s, more);
      match Unit(cfg, st, s)
      case Wait(waiting) =>
        assert Unit(cfg, waiting, s + more) == Unit(cfg, st, s + more);
      case Bad =>
      case Go(next, n) =>
        assert (s + more)[n..] == s[n..] + more;
        RunInPieces(cfg, next, s[n..], more);
    }
  }

  /** One unit of a run. */
  lemma RunGoes(cfg: Config, st: St, s: Bytes, next: St, n: nat)
    requires |s| > 0 && Unit(cfg, st, s) == Go(next, n)
    ensures n <= |s| && Run(cfg, st, s) == Run(cfg, next, s[n..])
  {
  }

  lemma RunFails(cfg: Config, st: St, s: Bytes)
    requires |s| > 0 && Unit(cfg, st, s).Bad?
    ensures Run(cfg, st, s).Fail?
  {
  }

  /** A run only leaves a unit it would have to wait for. */
  lemma {:induction false} RunStops(cfg: Config, st: St, s: Bytes)
    ensures var r := Run(cfg, st, s);
            r.Stop? && r.rest != [] ==> Unit(cfg, r.st, r.rest).Wait? && Unit(cfg, r.st, r.rest).st == r.st
    decreases |s|, st.mode.InNumber?
  {
    if s != [] {
      match Unit(cfg, st, s)
      case Wait(waiting) =>
        UnitStable(cfg, st, s, []);
        assert s + [] == s;
      case Bad =>
      case Go(next, n) => RunStops(cfg, next, s[n..]);
    }
  }

  /** Outside a key, at most 11 bytes wait. */
  lemma WaitIsShort(cfg: Config, st: St, s: Bytes)
    requires |s| > 0 && Unit(cfg, st, s).Wait?
    requires !(st.mode.Plain? && st.state == ExpectKey && s[0] == QUOTE)
    ensures |s| <= 11
  {
  }
}
