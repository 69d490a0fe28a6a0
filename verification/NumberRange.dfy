// Which limits on numbers keep the 32-bit accumulators from overflowing.
module NumberRange {
  import opened Base
  import opened Machine
  import opened Invariants
  import Numbers
  import NumberLaws
  import TokenRuns

  /** After `s`, whatever a number in progress has been read into fits 32 bits. */
  predicate InRangeAfter(cfg: Config, s: Bytes) {
    var r := Run(cfg, INITIAL, s);
    r.Stop? && r.st.mode.InNumber? ==> Numbers.InRange(r.st.mode.num)
  }

  /** Limits that refuse the shortest number out of range, whichever of them does. */
  predicate RefusesLong(cfg: Config) {
    || Exceeds(Numbers.LENGTH_IN_RANGE + 1, cfg.limits.numberLength)
    || Exceeds(Numbers.LENGTH_IN_RANGE + 1, cfg.limits.documentLength)
    || Exceeds(1, cfg.limits.tokenCount)
  }

  /** How much of a number has been read. */
  function Length(st: St): nat {
    if st.mode.InNumber? then st.mode.num.length else 0
  }

  predicate Grows(cfg: Config, st: St, o: Outcome) {
    match o
    case Go(next, n) =>
      && Length(next) <= Length(st) + n
      && (Exceeds(1, cfg.limits.tokenCount) && next.mode.InNumber? ==> st.mode.InNumber?)
    case Wait(waiting) => waiting.mode == st.mode
    case Bad => true
  }

  lemma UnitGrows(cfg: Config, st: St, s: Bytes)
    requires s != []
    ensures Grows(cfg, st, Unit(cfg, st, s))
  {
    if st.mode.InNumber? {
      NumberGrows(cfg, st, st.mode.num, s[0]);
    } else if st.mode.Plain? && !IsWhitespace(s[0]) {
      TokenGrows(cfg, st.(afterCr := false), s);
    }
  }

  lemma NumberGrows(cfg: Config, st: St, num: Numbers.Num, b: Byte)
    requires st.mode == InNumber(num)
    ensures Grows(cfg, st, NumberStep(cfg, st, num, b))
  {
    hide Numbers.Continue;
  }

  lemma TokenGrows(cfg: Config, st: St, s: Bytes)
    requires s != [] && st.mode.Plain?
    ensures Grows(cfg, st, TokenStep(cfg, st, s))
  {
    hide KeyStep, CommaStep, ColonStep, OpenStep, CloseStep, LiteralStep, StartStringStep, StartNumberStep, Grows;
    KeyGrows(cfg, st, s);
    SeparatorGrows(cfg, st);
    BracketGrows(cfg, st, if s[0] == LBRACE || s[0] == RBRACE then InObject else InArray);
    StartGrows(cfg, st, s[0]);
    LiteralGrows(cfg, st, s, RUE, Some(true));
    LiteralGrows(cfg, st, s, ALSE, Some(false));
    LiteralGrows(cfg, st, s, ULL, None);
    BadGrows(cfg, st);
  }

  lemma BadGrows(cfg: Config, st: St)
    ensures Grows(cfg, st, Bad)
  {
  }

  lemma KeyGrows(cfg: Config, st: St, s: Bytes)
    requires s != [] && st.mode.Plain?
    ensures Grows(cfg, st, KeyStep(cfg, st, s))
  {
    hide NoteKey, ScanKey, KeyReading;
  }

  lemma SeparatorGrows(cfg: Config, st: St)
    requires st.mode.Plain?
    ensures Grows(cfg, st, CommaStep(cfg, st)) && Grows(cfg, st, ColonStep(cfg, st))
  {
  }

  lemma BracketGrows(cfg: Config, st: St, context: Context)
    requires st.mode.Plain?
    ensures Grows(cfg, st, OpenStep(cfg, st, context)) && Grows(cfg, st, CloseStep(cfg, st, context))
  {
  }

  lemma StartGrows(cfg: Config, st: St, b: Byte)
    requires st.mode.Plain?
    ensures Grows(cfg, st, StartStringStep(cfg, st))
    ensures b == MINUS || IsDigit(b) ==> Grows(cfg, st, StartNumberStep(cfg, st, b))
  {
  }

  lemma LiteralGrows(cfg: Config, st: St, s: Bytes, rest: Bytes, value: Option<bool>)
    requires s != [] && st.mode.Plain?
    ensures Grows(cfg, st, LiteralStep(cfg, st, s, rest, value))
  {
  }

  /** A number is no longer than the text it is in, and is a token of it. */
  lemma {:induction false} RunGrows(cfg: Config, st: St, s: Bytes)
    ensures match Run(cfg, st, s)
            case Stop(r, _) => Length(r) <= Length(st) + |s| && (Exceeds(1, cfg.limits.tokenCount) && r.mode.InNumber? ==> st.mode.InNumber?)
            case Fail => true
    decreases |s|, st.mode.InNumber?
  {
    hide Unit;
    if s != [] {
      UnitGrows(cfg, st, s);
      match Unit(cfg, st, s)
      case Go(next, n) => RunGrows(cfg, next, s[n..]);
      case _ =>
    }
  }

  /** Under limits that refuse what is out of range, as the usual ones do, nothing overflows. */
  lemma LimitKeepsRange(cfg: Config, s: Bytes)
    requires RefusesLong(cfg) && !Exceeds(|s|, cfg.limits.documentLength)
    ensures InRangeAfter(cfg, s)
  {
    hide Run, Numbers.Narrow, Numbers.InRange;
    Initially(cfg);
    RunKeeps(cfg, INITIAL, s, []);
    RunGrows(cfg, INITIAL, s);
    var r := Run(cfg, INITIAL, s);
    if r.Stop? && r.st.mode.InNumber? {
      Numbers.NarrowIsInRange(r.st.mode.num);
    }
  }

  /** The machine over the rest of a number. */
  lemma {:induction false} RunNumber(cfg: Config, st: St, num: Numbers.Num, more: Bytes)
    requires st.mode == InNumber(num) && num.stage != Numbers.Idle && NumberLaws.Read(num, more).Some?
    requires !Exceeds(num.length + |more|, cfg.limits.numberLength)
    ensures Run(cfg, st, more) == Stop(st.(mode := InNumber(NumberLaws.Read(num, more).value)), [])
    decreases |more|
  {
    hide Numbers.TakeByte;
    if more != [] {
      var next := Numbers.Continue(num, more[0]).num;
      RunNumber(cfg, st.(mode := InNumber(next)), next, more[1..]);
    }
  }

  lemma RunToken(cfg: Config, t: NumberLaws.Token)
    requires NumberLaws.WellFormed(t) && !Exceeds(|NumberLaws.Text(t)|, cfg.limits.numberLength)
    requires !Exceeds(1, cfg.limits.tokenCount)
    ensures var r := Run(cfg, INITIAL, NumberLaws.Text(t));
            r.Stop? && r.st.mode == InNumber(NumberLaws.AfterToken(t))
  {
    hide Run, NumberLaws.Read, NumberLaws.AfterToken, NumberLaws.WellFormed, NumberLaws.Text, NumberLaws.Meaning;
    var s := NumberLaws.Text(t);
    NumberLaws.ReadToken(t);
    var begun := INITIAL.(mode := InNumber(Numbers.Start(s[0])), seen := true,
                          tokens := if cfg.limits.tokenCount.Some? then 1 else 0);
    TokenRuns.StartsNumber(cfg, INITIAL, s, begun);
    RunGoesOn(cfg, s, begun);
    RunNumber(cfg, begun, Numbers.Start(s[0]), s[1..]);
  }

  lemma RunGoesOn(cfg: Config, s: Bytes, next: St)
    requires s != [] && Unit(cfg, INITIAL, s) == Go(next, 1)
    ensures Run(cfg, INITIAL, s) == Run(cfg, next, s[1..])
  {
  }

  /** No document within the limit on its length overflows the accumulators, exactly if
      some limit refuses the shortest number that does. */
  lemma LimitIsExact(cfg: Config)
    ensures (forall s: Bytes :: !Exceeds(|s|, cfg.limits.documentLength) ==> InRangeAfter(cfg, s)) <==> RefusesLong(cfg)
  {
    hide InRangeAfter, Run;
    if RefusesLong(cfg) {
      forall s: Bytes | !Exceeds(|s|, cfg.limits.documentLength)
        ensures InRangeAfter(cfg, s)
      {
        LimitKeepsRange(cfg, s);
      }
    } else {
      Overflows(cfg);
    }
  }

  /** The shortest number that overflows, where the limits let it through. */
  lemma Overflows(cfg: Config)
    requires !RefusesLong(cfg)
    ensures var s := NumberLaws.Text(NumberLaws.LongFraction(Numbers.LENGTH_IN_RANGE - 9));
            !Exceeds(|s|, cfg.limits.documentLength) && !InRangeAfter(cfg, s)
  {
    hide Run, NumberLaws.Text, NumberLaws.AfterToken, NumberLaws.WellFormed, NumberLaws.RealOf, NumberLaws.LongFraction;
    var t := NumberLaws.LongFraction(Numbers.LENGTH_IN_RANGE - 9);
    NumberLaws.LongFractionPower(Numbers.LENGTH_IN_RANGE - 9);
    NumberLaws.PowerIsFound(t);
    RunToken(cfg, t);
  }
}
