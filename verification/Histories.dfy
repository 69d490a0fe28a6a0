// Between tokens, what has been told and where the tokenizer stands are those of
// the text taken so far, whatever becomes of the rest.
module Histories {
  import opened Base
  import opened Machine
  import opened Positions
  import opened TokenRuns
  import opened Documents
  import opened Passages
  import opened Prefixes
  import opened Completions
  import Chunks
  import Escapes
  import Numbers

  lemma {:induction false} LeadsIsRest(cfg: Config, a: St, s: Bytes, b: St, t: Bytes)
    requires Leads(cfg, a, s, b, t)
    ensures |t| <= |s| && t == s[|s| - |t|..]
    decreases |s|, a.mode.InNumber?, a.afterCr
  {
    hide Unit, Forgets;
    if a == b && s == t {
    } else if s != [] && Unit(cfg, a, s).Go? && Leads(cfg, Unit(cfg, a, s).st, s[Unit(cfg, a, s).n..], b, t) {
      var next, n := Unit(cfg, a, s).st, Unit(cfg, a, s).n;
      hide Leads;
      LeadsIsRest(cfg, next, s[n..], b, t);
      RestOfRest(s, n, |t|);
    } else {
      ForgetsCr(a, s);
      hide Leads;
      LeadsIsRest(cfg, a.(afterCr := false), s, b, t);
    }
  }

  /** In a string, nothing changes without a byte taken. */
  lemma Unmoved(cfg: Config, a: St, s: Bytes, b: St)
    requires Leads(cfg, a, s, b, s) && a.mode.InString?
    ensures a == b
  {
    hide Unit;
    if s != [] && Unit(cfg, a, s).Go? && Leads(cfg, Unit(cfg, a, s).st, s[Unit(cfg, a, s).n..], b, s) {
      LeadsIsRest(cfg, Unit(cfg, a, s).st, s[Unit(cfg, a, s).n..], b, s);
    }
  }

  /** What waits is not done with fewer bytes than are there, but for an escaped high
      surrogate, after which the front of another escape still waits, or is bad. */
  lemma WaitTakesMore(cfg: Config, st: St, u: Bytes, t: Bytes)
    requires u != [] && Unit(cfg, st, u).Wait? && Unit(cfg, st, u + t).Go?
    ensures var o := Unit(cfg, st, u + t);
            o.n > |u| || (st.mode.InString? && o.n == 6 && o.st.mode.InString? && (|u| == 6 || !Unit(cfg, o.st, u[6..]).Go?))
  {
    if st.mode.InString? {
      StringWaitTakesMore(cfg, st, u, t);
    } else {
      TokenWaitTakesMore(cfg, st, u, t);
    }
  }

  lemma StringWaitTakesMore(cfg: Config, st: St, u: Bytes, t: Bytes)
    requires u != [] && st.mode.InString? && Unit(cfg, st, u).Wait? && Unit(cfg, st, u + t).Go?
    ensures var o := Unit(cfg, st, u + t);
            o.n > |u| || (o.n == 6 && o.st.mode.InString? && (|u| == 6 || !Unit(cfg, o.st, u[6..]).Go?))
  {
    var s := u + t;
    assert s[0] == u[0];
    if u[0] == BACKSLASH && Unit(cfg, st, s).n <= |u| {
      LoneWaits(u, t);
    }
  }

  lemma LoneWaits(u: Bytes, t: Bytes)
    requires u != [] && u[0] == BACKSLASH && Escapes.Resolve(u).Need?
    requires Escapes.Resolve(u + t).Char? && Escapes.Resolve(u + t).len <= |u|
    ensures Escapes.Resolve(u + t).len == 6 <= |u|
    ensures |u| > 6 ==> u[6] == BACKSLASH && !Escapes.Resolve(u[6..]).Char?
  {
    var e := Escapes.ParseEscape(u);
    if e.NeedMore? {
      NeedMoreTakesMore(u, t);
    } else {
      Escapes.ParseEscapeStable(u, t);
    }
  }

  lemma NeedMoreTakesMore(u: Bytes, t: Bytes)
    requires u != [] && Escapes.ParseEscape(u).NeedMore? && Escapes.ParseEscape(u + t).Unit?
    ensures Escapes.ParseEscape(u + t).len > |u|
  {
  }

  lemma {:induction false} KeyNeedTakesMore(u: Bytes, t: Bytes, i: nat, limit: Option<nat>)
    requires i >= 1 && ScanKey(u, i, limit).KeyNeed? && ScanKey(u + t, i, limit).KeyEnd?
    ensures ScanKey(u + t, i, limit).end >= |u|
    decreases |u| - i
  {
    if i < |u| {
      assert (u + t)[i] == u[i];
      KeyNeedTakesMore(u, t, if u[i] == BACKSLASH then i + 2 else i + 1, limit);
    }
  }

  lemma TokenWaitTakesMore(cfg: Config, st: St, u: Bytes, t: Bytes)
    requires u != [] && !st.mode.InString? && Unit(cfg, st, u).Wait? && Unit(cfg, st, u + t).Go?
    ensures Unit(cfg, st, u + t).n > |u|
  {
    assert (u + t)[0] == u[0];
    if AtKey(st, u) {
      KeyWaitTakesMore(cfg, st.(afterCr := false), u, t);
    } else {
      LiteralWaits(cfg, st, u);
      hide LiteralFound, KeyStep;
      LiteralTakes(cfg, st.(afterCr := false), u + t, LiteralRest(u[0]), LiteralValue(u[0]));
    }
  }

  lemma LiteralTakes(cfg: Config, st: St, s: Bytes, rest: Bytes, value: Option<bool>)
    requires s != [] && LiteralStep(cfg, st, s, rest, value).Go?
    ensures LiteralStep(cfg, st, s, rest, value).n == 1 + |rest|
  {
  }

  lemma KeyWaitTakesMore(cfg: Config, st: St, u: Bytes, t: Bytes)
    requires u != [] && KeyStep(cfg, st, u).Wait? && KeyStep(cfg, st, u + t).Go?
    ensures KeyStep(cfg, st, u + t).n > |u|
  {
    hide ScanKey, KeyReading, NoteKey;
    KeyNeedTakesMore(u, t, 1, cfg.limits.nameLength);
  }

  /** No one gets past what waits, between tokens, with no more than is there. */
  lemma {:induction false} WaitNotPassed(cfg: Config, a: St, u: Bytes, b: St, t: Bytes)
    requires u != [] && Unit(cfg, a, u).Wait? && b.mode.Plain?
    ensures !Leads(cfg, a, u + t, b, t)
    decreases |u|, a.afterCr
  {
    hide Unit;
    var s := u + t;
    if Leads(cfg, a, s, b, t) {
      if Unit(cfg, a, s).Go? && Leads(cfg, Unit(cfg, a, s).st, s[Unit(cfg, a, s).n..], b, t) {
        var o := Unit(cfg, a, s);
        WaitTakesMore(cfg, a, u, t);
        LeadsIsRest(cfg, o.st, s[o.n..], b, t);
        if |u| > 6 {
          assert s[6..] == u[6..] + t;
          Chunks.UnitStable(cfg, o.st, u[6..], t);
          if Unit(cfg, o.st, u[6..]).Wait? {
            WaitNotPassed(cfg, o.st, u[6..], b, t);
          }
        } else if o.n == |u| {
          assert s[o.n..] == t;
          Unmoved(cfg, o.st, t, b);
        }
      } else {
        ForgetsSafely(cfg, a, u);
        WaitNotPassed(cfg, a.(afterCr := false), u, b, t);
      }
    }
  }

  /** `b` is `e`, or `e` with the mark of a CR forgotten. */
  predicate Same(e: Option<St>, b: St) {
    e.Some? && (e.value == b || e.value.(afterCr := false) == b)
  }

  lemma DecidedByTaken(cfg: Config, a: St, u: Bytes, b: St, t: Bytes)
    requires u != [] && Leads(cfg, a, u + t, b, t) && b.mode.Plain?
    ensures Unit(cfg, a, u) == Unit(cfg, a, u + t)
  {
    hide Unit, Leads;
    if Unit(cfg, a, u).Wait? {
      WaitNotPassed(cfg, a, u, b, t);
    }
    Chunks.UnitStable(cfg, a, u, t);
  }

  /** A state between tokens that is come past is where the bytes taken would end. */
  lemma {:induction false} LeadsToEnd(cfg: Config, a: St, s: Bytes, b: St, t: Bytes)
    requires Leads(cfg, a, s, b, t) && b.mode.Plain?
    ensures |t| <= |s| && Same(End(cfg, a, s[..|s| - |t|]), b)
    decreases |s|, a.mode.InNumber?, a.afterCr
  {
    hide Unit, End, Forgets, Same;
    LeadsIsRest(cfg, a, s, b, t);
    if a == b && s == t {
      hide Leads;
      assert s[..|s| - |t|] == [];
      EndsHere(cfg, a);
    } else if s != [] && Unit(cfg, a, s).Go? && Leads(cfg, Unit(cfg, a, s).st, s[Unit(cfg, a, s).n..], b, t) {
      hide Leads;
      LeadsToEnd(cfg, Unit(cfg, a, s).st, s[Unit(cfg, a, s).n..], b, t);
      StepToEnd(cfg, a, s, b, t);
    } else {
      ForgetsCr(a, s);
      hide Leads;
      LeadsToEnd(cfg, a.(afterCr := false), s, b, t);
      ForgetToEnd(cfg, a, s, b, t);
    }
  }

  lemma StepToEnd(cfg: Config, a: St, s: Bytes, b: St, t: Bytes)
    requires Leads(cfg, a, s, b, t) && b.mode.Plain? && |t| <= |s| && t == s[|s| - |t|..]
    requires s != [] && Unit(cfg, a, s).Go? && |t| <= |s| - Unit(cfg, a, s).n
    requires var next, rest := Unit(cfg, a, s).st, s[Unit(cfg, a, s).n..];
             Same(End(cfg, next, rest[..|rest| - |t|]), b)
    ensures Same(End(cfg, a, s[..|s| - |t|]), b)
  {
    hide Unit, End, Leads, Same;
    var u, next, n := s[..|s| - |t|], Unit(cfg, a, s).st, Unit(cfg, a, s).n;
    assert s == u + t;
    assert s[n..][..|s[n..]| - |t|] == u[n..];
    if u == [] {
      NumberEndsHere(cfg, a, s);
    } else {
      DecidedByTaken(cfg, a, u, b, t);
      EndGoes(cfg, a, u, next, n);
    }
  }

  lemma ForgetToEnd(cfg: Config, a: St, s: Bytes, b: St, t: Bytes)
    requires Forgets(a, s) && b.mode.Plain? && |t| <= |s| && t == s[|s| - |t|..]
    requires Same(End(cfg, a.(afterCr := false), s[..|s| - |t|]), b)
    ensures Same(End(cfg, a, s[..|s| - |t|]), b)
  {
    hide Unit, End;
    var u := s[..|s| - |t|];
    if u == [] {
      EndsHere(cfg, a);
      EndsHere(cfg, a.(afterCr := false));
    } else {
      ForgetsSafely(cfg, a, u);
      SameEnd(cfg, a, a.(afterCr := false), u);
    }
  }

  lemma EndsHere(cfg: Config, st: St)
    requires st.mode.Plain?
    ensures End(cfg, st, []) == Some(st) && Same(End(cfg, st, []), st)
  {
  }

  lemma NumberEndsHere(cfg: Config, st: St, s: Bytes)
    requires s != [] && Unit(cfg, st, s).Go? && Unit(cfg, st, s).n == 0
    ensures End(cfg, st, []) == Some(Unit(cfg, st, s).st) == End(cfg, Unit(cfg, st, s).st, [])
  {
    hide Numbers.TakeByte, TokenStep, WhitespaceStep, Report, Numbers.NumberValue;
    Numbers.EndsOnlyWhenComplete(st.mode.num, s[0]);
  }

  lemma SameEnd(cfg: Config, a: St, b: St, s: Bytes)
    requires Run(cfg, a, s) == Run(cfg, b, s)
    ensures End(cfg, a, s) == End(cfg, b, s)
  {
  }

  /** A state between tokens that is come past from the start, of any document, is that
      of a front of some document that has the bytes taken for its text: the same has
      been told, and the position is the text's. */
  lemma ToldBetween(cfg: Config, s: Bytes, b: St, t: Bytes) returns (p: Prefix)
    requires Leads(cfg, INITIAL, s, b, t) && b.mode.Plain?
    ensures |t| <= |s| && PrefixFits(cfg, p)
    ensures var a := AccountOf(cfg.needsWhitespace, p);
            a.text == s[..|s| - |t|] && b.log == a.log && b.at == PosOf(a.text)
    ensures b == StateOf(cfg, p).(afterCr := b.afterCr)
  {
    hide Leads, End, AccountOf, PrefixFits, ShapeOf;
    LeadsToEnd(cfg, INITIAL, s, b, t);
    StartIsInitial(cfg);
    var u := s[..|s| - |t|];
    p := Completes(cfg, START, u);
    assert [] + u == u;
  }
}
